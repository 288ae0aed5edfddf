/**
  Old off-rules (off at a time on some weekdays, on again later) turned into rows of allowed windows, by marking
  the minutes of a circular week, finding the allowed runs and cutting them at midnight.
*/
module LegacyScheduleConverter {
  import opened ScheduleResolver

  const DAY := 24 * 60
  const WEEK := 7 * DAY
  const NOON: LocalTime := 12 * 60 * MINUTE

  datatype LegacyRule = LegacyRule(days: set<DayOfWeek>, off: LocalTime, on: LocalTime)
  datatype Row = Row(days: set<DayOfWeek>, start: LocalTime, end: LocalTime)

  type WeekMinute = w: int | 0 <= w < WEEK witness 0

  function Minutes(t: LocalTime): (m: nat)
    ensures m < DAY
  {
    t / MINUTE
  }

  function ToTime(minutes: nat): LocalTime
    requires minutes < DAY
  {
    minutes * MINUTE
  }

  predicate OffNextDay(off: LocalTime, on: LocalTime) {
    off < on && off < NOON
  }

  // ---------------------------------------------------------------- what the old rules meant

  /** A minute of the first or the second week, as a minute of the circular week. */
  function Around(s: nat): (w: WeekMinute)
    requires s < 2 * WEEK
    ensures w == s % WEEK
  {
    if s < WEEK then s else s - WEEK
  }

  /** Minutes from midnight of a rule's anchor day to its off time. */
  function OffStart(rule: LegacyRule): (m: nat)
    ensures m < 2 * DAY
  {
    (if OffNextDay(rule.off, rule.on) then DAY else 0) + Minutes(rule.off)
  }

  /** Minutes from midnight of a rule's anchor day until it is on again. */
  function OffEnd(rule: LegacyRule): (m: nat)
    ensures m < 3 * DAY
  {
    (if OffNextDay(rule.off, rule.on) then DAY else 0) + (if rule.on > rule.off then 0 else DAY) + Minutes(rule.on)
  }

  /** Minute `w` of the circular week is met by the stretch [start, end), which may run into a second week. */
  predicate Hit(start: int, end: int, w: WeekMinute) {
    start <= w < end || start <= w + WEEK < end
  }

  ghost predicate OffOn(rule: LegacyRule, day: DayOfWeek, w: WeekMinute) {
    Hit(day * DAY + OffStart(rule), day * DAY + OffEnd(rule), w)
  }

  /** Some rule takes the device off in minute `w` of the week. */
  ghost predicate OldOff(rules: seq<LegacyRule>, w: WeekMinute) {
    exists i, day :: 0 <= i < |rules| && day in rules[i].days && OffOn(rules[i], day, w)
  }

  // ---------------------------------------------------------------- what rows mean

  function EndMinute(row: Row): nat {
    if row.end == MIDNIGHT then DAY else Minutes(row.end)
  }

  predicate Covers(row: Row, w: WeekMinute) {
    var day: DayOfWeek := w / DAY;
    day in row.days && Minutes(row.start) <= w % DAY < EndMinute(row)
  }

  ghost predicate CoveredOnce(rows: seq<Row>, w: WeekMinute) {
    exists i :: 0 <= i < |rows| && Covers(rows[i], w) && forall j :: 0 <= j < |rows| && j != i ==> !Covers(rows[j], w)
  }

  ghost predicate Uncovered(rows: seq<Row>, w: WeekMinute) {
    forall i :: 0 <= i < |rows| ==> !Covers(rows[i], w)
  }

  /** The minutes [start, end) of a weekday are allowed, and neither end can be moved within the day. */
  ghost predicate Maximal(off: seq<bool>, day: DayOfWeek, start: nat, end: nat)
    requires |off| == WEEK
  {
    && start < end <= DAY
    && (forall w: WeekMinute :: day * DAY + start <= w < day * DAY + end ==> !off[w])
    && (start > 0 ==> off[day * DAY + start - 1])
    && (end < DAY ==> off[day * DAY + end])
  }

  /** Whole minutes, a window the resolver accepts, at least one day, and maximal on each. */
  ghost predicate GoodRow(off: seq<bool>, row: Row)
    requires |off| == WEEK
  {
    && row.start % MINUTE == 0 && row.end % MINUTE == 0
    && row.days != {} && IsValidWindow(row.start, row.end)
    && forall day :: day in row.days ==> Maximal(off, day, Minutes(row.start), EndMinute(row))
  }

  ghost predicate GoodRows(off: seq<bool>, rows: seq<Row>)
    requires |off| == WEEK
  {
    && (forall i :: 0 <= i < |rows| ==> GoodRow(off, rows[i]))
    && forall i, j :: 0 <= i < j < |rows| ==> (rows[i].start, rows[i].end) != (rows[j].start, rows[j].end)
  }

  // ---------------------------------------------------------------- marking

  method MarkSpan(off: array<bool>, start: nat, end: nat)
    requires off.Length == WEEK && end <= 2 * WEEK
    modifies off
    ensures forall w: WeekMinute :: off[w] <==> old(off[w]) || Hit(start, end, w)
  {
    var t := start;
    while t < end
      invariant start <= t && (t <= end || t == start)
      invariant forall w: WeekMinute :: off[w] <==> old(off[w]) || Hit(start, t, w)
    {
      off[t % WEEK] := true;
      t := t + 1;
    }
  }

  method MarkRule(off: array<bool>, rule: LegacyRule)
    requires off.Length == WEEK
    modifies off
    ensures forall w: WeekMinute :: off[w] <==> old(off[w]) || exists day :: day in rule.days && OffOn(rule, day, w)
  {
    var offMin, onMin := Minutes(rule.off), Minutes(rule.on);
    var nextDay := if OffNextDay(rule.off, rule.on) then DAY else 0;
    var sameDayOn := if rule.on > rule.off then 0 else DAY;
    var rest := rule.days;
    while rest != {}
      invariant rest <= rule.days
      invariant forall w: WeekMinute :: off[w] <==> old(off[w]) || exists day :: day in rule.days - rest && OffOn(rule, day, w)
    {
      var day :| day in rest;
      ghost var done, done' := rule.days - rest, rule.days - (rest - {day});
      var anchor := day * DAY;
      MarkSpan(off, anchor + nextDay + offMin, anchor + nextDay + sameDayOn + onMin);
      assert forall d :: d in done' <==> d in done || d == day;
      forall w: WeekMinute
        ensures (exists d :: d in done' && OffOn(rule, d, w)) <==> (exists d :: d in done && OffOn(rule, d, w)) || OffOn(rule, day, w)
      {}
      rest := rest - {day};
    }
  }

  method MarkOff(rules: seq<LegacyRule>) returns (off: array<bool>)
    ensures fresh(off) && off.Length == WEEK
    ensures forall w: WeekMinute :: off[w] <==> OldOff(rules, w)
  {
    off := new bool[WEEK](_ => false);
    for i := 0 to |rules|
      invariant off.Length == WEEK && fresh(off)
      invariant forall w: WeekMinute :: off[w] <==> exists k, day :: 0 <= k < i && day in rules[k].days && OffOn(rules[k], day, w)
    {
      MarkRule(off, rules[i]);
    }
  }

  // ---------------------------------------------------------------- rows grouped by their times

  /** The position of the row with these times, or the length if there is none. */
  function Find(entries: seq<Row>, start: LocalTime, end: LocalTime): (i: nat)
    ensures i <= |entries|
    ensures i < |entries| ==> entries[i].start == start && entries[i].end == end
    ensures i == |entries| ==> forall j :: 0 <= j < |entries| ==> (entries[j].start, entries[j].end) != (start, end)
  {
    if entries == [] then 0
    else if entries[0].start == start && entries[0].end == end then 0
    else
      var i := Find(entries[1..], start, end);
      assert forall j :: 1 <= j < |entries| ==> entries[j] == entries[1..][j - 1];
      i + 1
  }

  function PutDay(entries: seq<Row>, day: DayOfWeek, start: LocalTime, end: LocalTime): seq<Row> {
    var i := Find(entries, start, end);
    if i < |entries| then entries[i := entries[i].(days := entries[i].days + {day})]
    else entries + [Row({day}, start, end)]
  }

  predicate InSegment(day: DayOfWeek, start: nat, end: nat, w: WeekMinute) {
    day * DAY + start <= w < day * DAY + end
  }

  function EndOf(endMin: nat): nat {
    if endMin == 0 then DAY else endMin
  }

  /** Only the row with these times changes, and it gains exactly the segment. */
  lemma {:induction false} PutDayCovers(entries: seq<Row>, day: DayOfWeek, startMin: nat, endMin: nat, w: WeekMinute)
    requires startMin < EndOf(endMin) && startMin < DAY && endMin < DAY
    ensures var r, i := PutDay(entries, day, ToTime(startMin), ToTime(endMin)), Find(entries, ToTime(startMin), ToTime(endMin));
            && i < |r| && |entries| <= |r|
            && (Covers(r[i], w) <==> InSegment(day, startMin, EndOf(endMin), w) || (i < |entries| && Covers(entries[i], w)))
            && forall j :: 0 <= j < |r| && j != i ==> j < |entries| && r[j] == entries[j]
  {
    var r, i := PutDay(entries, day, ToTime(startMin), ToTime(endMin)), Find(entries, ToTime(startMin), ToTime(endMin));
    assert Minutes(r[i].start) == startMin && EndMinute(r[i]) == EndOf(endMin);
    SegmentByDay(day, startMin, EndOf(endMin), w);
  }

  lemma {:induction false} SegmentByDay(day: DayOfWeek, start: nat, end: nat, w: WeekMinute)
    requires end <= DAY
    ensures InSegment(day, start, end, w) <==> w / DAY == day && start <= w % DAY < end
  {
    assert w == w / DAY * DAY + w % DAY;
  }

  lemma {:induction false} PutDayGood(off: seq<bool>, entries: seq<Row>, day: DayOfWeek, startMin: nat, endMin: nat)
    requires |off| == WEEK && GoodRows(off, entries) && startMin < DAY && endMin < DAY
    requires Maximal(off, day, startMin, EndOf(endMin))
    ensures GoodRows(off, PutDay(entries, day, ToTime(startMin), ToTime(endMin)))
  {
    var r, i := PutDay(entries, day, ToTime(startMin), ToTime(endMin)), Find(entries, ToTime(startMin), ToTime(endMin));
    assert Minutes(r[i].start) == startMin && EndMinute(r[i]) == EndOf(endMin);
    assert GoodRow(off, r[i]);
  }

  /** What adding the stretch [start, end) does to the minutes of the week. */
  ghost predicate Gains(before: seq<Row>, after: seq<Row>, start: int, end: int) {
    forall w: WeekMinute ::
      if Hit(start, end, w) then CoveredOnce(after, w)
      else (CoveredOnce(before, w) ==> CoveredOnce(after, w)) && (Uncovered(before, w) ==> Uncovered(after, w))
  }

  lemma {:induction false} PutDayGains(entries: seq<Row>, pos: nat, length: nat, day: DayOfWeek, startMin: nat, endMin: nat)
    requires pos + length <= 2 * WEEK && 0 < length && startMin + length <= DAY && endMin < DAY
    requires day * DAY + startMin == Around(pos) && EndOf(endMin) == startMin + length
    requires forall w: WeekMinute :: Hit(pos, pos + length, w) ==> Uncovered(entries, w)
    ensures Gains(entries, PutDay(entries, day, ToTime(startMin), ToTime(endMin)), pos, pos + length)
  {
    var r := PutDay(entries, day, ToTime(startMin), ToTime(endMin));
    forall w: WeekMinute
      ensures if Hit(pos, pos + length, w) then CoveredOnce(r, w)
              else (CoveredOnce(entries, w) ==> CoveredOnce(r, w)) && (Uncovered(entries, w) ==> Uncovered(r, w))
    {
      hide PutDay, Covers, CoveredOnce, Uncovered;
      SegmentIsHit(pos, length, day, startMin, w);
      PutDayCovers(entries, day, startMin, endMin, w);
      OneRowGains(entries, r, Find(entries, ToTime(startMin), ToTime(endMin)), Hit(pos, pos + length, w), w);
    }
  }

  lemma {:induction false} OneRowGains(before: seq<Row>, after: seq<Row>, i: nat, gained: bool, w: WeekMinute)
    requires i < |after| && |before| <= |after|
    requires Covers(after[i], w) <==> gained || (i < |before| && Covers(before[i], w))
    requires forall j :: 0 <= j < |after| && j != i ==> j < |before| && after[j] == before[j]
    requires gained ==> Uncovered(before, w)
    ensures gained ==> CoveredOnce(after, w)
    ensures !gained ==> (CoveredOnce(before, w) ==> CoveredOnce(after, w)) && (Uncovered(before, w) ==> Uncovered(after, w))
  {
    hide Covers;
    if gained {
      assert Covers(after[i], w);
    } else if CoveredOnce(before, w) {
      var k :| 0 <= k < |before| && Covers(before[k], w) && forall j :: 0 <= j < |before| && j != k ==> !Covers(before[j], w);
      assert Covers(after[k], w);
    }
  }

  lemma {:induction false} SegmentIsHit(pos: nat, length: nat, day: DayOfWeek, startMin: nat, w: WeekMinute)
    requires pos < 2 * WEEK && startMin + length <= DAY && day * DAY + startMin == Around(pos)
    ensures InSegment(day, startMin, startMin + length, w) <==> Hit(pos, pos + length, w)
  {}

  /** A stretch of allowed minutes of the circular week with an off minute on either side. */
  ghost predicate Run(off: seq<bool>, start: nat, length: nat)
    requires |off| == WEEK
  {
    && start < WEEK && length < WEEK
    && (forall w: WeekMinute :: Hit(start, start + length, w) ==> !off[w])
    && off[Around(start + WEEK - 1)] && off[Around(start + length)]
  }

  /** A run's part within one day is maximal within that day. */
  lemma {:induction false} PartMaximal(off: seq<bool>, start: nat, length: nat, pos: nat, part: nat, day: DayOfWeek, startMin: nat)
    requires |off| == WEEK && Run(off, start, length)
    requires start <= pos && 0 < part && pos + part <= start + length && startMin + part <= DAY
    requires day * DAY + startMin == Around(pos)
    requires pos == start || startMin == 0
    requires pos + part == start + length || startMin + part == DAY
    ensures Maximal(off, day, startMin, startMin + part)
  {
    forall w: WeekMinute | day * DAY + startMin <= w < day * DAY + startMin + part
      ensures !off[w]
    {
      assert Hit(start, start + length, w);
    }
  }

  lemma {:induction false} DayAndMinute(pos: nat)
    requires pos < 2 * WEEK
    ensures (pos / DAY) % 7 * DAY + pos % DAY == Around(pos)
  {
    var d := pos / DAY;
    assert pos < WEEK ==> d % 7 == d;
    assert pos >= WEEK ==> d % 7 == d - 7;
  }

  lemma {:induction false} HitSplits(start: nat, pos: nat, end: nat, w: WeekMinute)
    requires start <= pos <= end < start + WEEK
    ensures Hit(start, end, w) <==> Hit(start, pos, w) || Hit(pos, end, w)
    ensures !(Hit(start, pos, w) && Hit(pos, end, w))
  {}

  lemma {:induction false} PartIsUncovered(rows: seq<Row>, start: nat, pos: nat, end: nat)
    requires start <= pos <= end < start + WEEK
    requires forall w: WeekMinute :: Hit(start, end, w) ==> Uncovered(rows, w)
    ensures forall w: WeekMinute :: Hit(start, pos, w) ==> Uncovered(rows, w)
  {
    hide Uncovered;
  }

  lemma {:induction false} RestStaysUncovered(before: seq<Row>, after: seq<Row>, start: nat, pos: nat, end: nat)
    requires start <= pos <= end < start + WEEK && Gains(before, after, start, pos)
    requires forall w: WeekMinute :: Hit(start, end, w) ==> Uncovered(before, w)
    ensures forall w: WeekMinute :: Hit(pos, end, w) ==> Uncovered(after, w)
  {
    hide Uncovered, CoveredOnce;
    forall w: WeekMinute | Hit(pos, end, w)
      ensures Uncovered(after, w)
    {
      HitSplits(start, pos, end, w);
    }
  }

  /** What putting one part of a run does, as far as midnight or the end of the run. */
  lemma {:induction false} PartPut(off: seq<bool>, entries: seq<Row>, start: nat, length: nat, pos: nat, part: nat,
                day: DayOfWeek, startMin: nat, endMin: nat)
    requires |off| == WEEK && Run(off, start, length) && GoodRows(off, entries)
    requires start <= pos && 0 < part && pos + part <= start + length && startMin + part <= DAY
    requires day * DAY + startMin == Around(pos) && endMin < DAY && EndOf(endMin) == startMin + part
    requires pos == start || startMin == 0
    requires pos + part == start + length || startMin + part == DAY
    requires forall w: WeekMinute :: Hit(pos, start + length, w) ==> Uncovered(entries, w)
    ensures var after := PutDay(entries, day, ToTime(startMin), ToTime(endMin));
            && GoodRows(off, after) && Gains(entries, after, pos, pos + part)
            && forall w: WeekMinute :: Hit(pos + part, start + length, w) ==> Uncovered(after, w)
  {
    hide Uncovered, CoveredOnce, GoodRow, GoodRows, PutDay, Maximal, Gains, Hit;
    PartMaximal(off, start, length, pos, part, day, startMin);
    PutDayGood(off, entries, day, startMin, endMin);
    PartIsUncovered(entries, pos, pos + part, start + length);
    PutDayGains(entries, pos, part, day, startMin, endMin);
    RestStaysUncovered(entries, PutDay(entries, day, ToTime(startMin), ToTime(endMin)), pos, pos + part, start + length);
  }

  lemma {:induction false} GainsNothing(rows: seq<Row>, start: nat)
    ensures Gains(rows, rows, start, start)
  {}

  lemma {:induction false} GainsAddUp(before: seq<Row>, mid: seq<Row>, after: seq<Row>, start: nat, pos: nat, end: nat)
    requires start <= pos <= end < start + WEEK
    requires Gains(before, mid, start, pos) && Gains(mid, after, pos, end)
    ensures Gains(before, after, start, end)
  {
    hide CoveredOnce, Uncovered;
    forall w: WeekMinute
      ensures if Hit(start, end, w) then CoveredOnce(after, w)
              else (CoveredOnce(before, w) ==> CoveredOnce(after, w)) && (Uncovered(before, w) ==> Uncovered(after, w))
    {
      HitSplits(start, pos, end, w);
    }
  }

  /** Rows by their times, in the order the times were first met. */
  class RowGroups {
    var entries: seq<Row>

    constructor ()
      ensures entries == []
    {
      entries := [];
    }

    method Put(dayIndex: DayOfWeek, startMin: nat, endMin: nat)
      requires startMin < DAY && endMin < DAY
      modifies this
      ensures entries == PutDay(old(entries), dayIndex, ToTime(startMin), ToTime(endMin))
    {
      var i := Find(entries, ToTime(startMin), ToTime(endMin));
      if i == |entries| {
        entries := entries + [Row({}, ToTime(startMin), ToTime(endMin))];
        assert {} + {dayIndex} == {dayIndex};
      }
      entries := entries[i := entries[i].(days := entries[i].days + {dayIndex})];
    }

    /** One segment of a run, as far as midnight or the end of the run. */
    method PutPart(ghost off: seq<bool>, ghost start: nat, ghost length: nat, pos: nat, part: nat)
      requires |off| == WEEK && Run(off, start, length) && GoodRows(off, entries)
      requires start <= pos && 0 < part && pos + part <= start + length && pos % DAY + part <= DAY
      requires pos == start || pos % DAY == 0
      requires pos + part == start + length || pos % DAY + part == DAY
      requires forall w: WeekMinute :: Hit(pos, start + length, w) ==> Uncovered(entries, w)
      modifies this
      ensures GoodRows(off, entries)
      ensures Gains(old(entries), entries, pos, pos + part)
      ensures forall w: WeekMinute :: Hit(pos + part, start + length, w) ==> Uncovered(entries, w)
    {
      hide Uncovered, CoveredOnce, GoodRow, GoodRows, PutDay, Maximal, Gains, Hit;
      var day: DayOfWeek := (pos / DAY) % 7;
      var startMin := pos % DAY;
      var endMin := (startMin + part) % DAY;
      DayAndMinute(pos);
      PartPut(off, entries, start, length, pos, part, day, startMin, endMin);
      Put(day, startMin, endMin);
    }

    method AddRuns(ghost off: seq<bool>, start: nat, length: nat)
      requires |off| == WEEK && Run(off, start, length) && GoodRows(off, entries)
      requires forall w: WeekMinute :: Hit(start, start + length, w) ==> Uncovered(entries, w)
      modifies this
      ensures GoodRows(off, entries)
      ensures Gains(old(entries), entries, start, start + length)
    {
      hide Uncovered, CoveredOnce, GoodRow, Maximal, GoodRows, Gains, Hit;
      GainsNothing(entries, start);
      var pos, remaining := start, length;
      while remaining > 0
        invariant start <= pos && 0 <= remaining && pos + remaining == start + length
        invariant pos == start || pos % DAY == 0
        invariant GoodRows(off, entries)
        invariant Gains(old(entries), entries, start, pos)
        invariant forall w: WeekMinute :: Hit(pos, start + length, w) ==> Uncovered(entries, w)
      {
        ghost var before := entries;
        var untilMidnight := DAY - pos % DAY;
        if remaining <= untilMidnight {
          PutPart(off, start, length, pos, remaining);
          GainsAddUp(old(entries), before, entries, start, pos, pos + remaining);
          return;
        }
        PutPart(off, start, length, pos, untilMidnight);
        GainsAddUp(old(entries), before, entries, start, pos, pos + untilMidnight);
        pos := pos + untilMidnight;
        remaining := remaining - untilMidnight;
      }
    }
  }

  // ---------------------------------------------------------------- runs around the week

  /** An allowed minute right after an off one. */
  predicate RunStart(off: seq<bool>, i: WeekMinute)
    requires |off| == WEEK
  {
    !off[i] && off[Around(i + WEEK - 1)]
  }

  method FindRunStart(off: array<bool>) returns (startIndex: int)
    requires off.Length == WEEK
    ensures startIndex >= 0 ==> startIndex < WEEK && RunStart(off[..], startIndex)
    ensures startIndex < 0 ==> forall i: WeekMinute :: !RunStart(off[..], i)
  {
    for i := 0 to WEEK
      invariant forall k: WeekMinute :: k < i ==> !RunStart(off[..], k)
    {
      if !off[i] && off[(i + WEEK - 1) % WEEK] {
        assert Around(i + WEEK - 1) == (i + WEEK - 1) % WEEK;
        return i;
      }
      assert Around(i + WEEK - 1) == (i + WEEK - 1) % WEEK;
    }
    return -1;
  }

  /** With no such minute the circular week is all off or all allowed. */
  lemma {:induction false} NoRunStartAllSame(off: seq<bool>, a: WeekMinute)
    requires |off| == WEEK && off[a]
    requires forall i: WeekMinute :: !RunStart(off, i)
    ensures forall w: WeekMinute :: off[w]
  {
    var i: int := a;
    while i < WEEK - 1
      invariant a <= i < WEEK && off[i]
    {
      assert !RunStart(off, i + 1);
      i := i + 1;
    }
    assert !RunStart(off, 0);
    i := 0;
    while i < WEEK - 1
      invariant 0 <= i < WEEK
      invariant forall k :: 0 <= k <= i ==> off[k]
    {
      assert !RunStart(off, i + 1);
      i := i + 1;
    }
  }

  /** What the rows say of each minute of the week: off ones in no row, allowed ones in exactly one. */
  ghost predicate Exact(off: seq<bool>, rows: seq<Row>)
    requires |off| == WEEK
  {
    GoodRows(off, rows) && forall w: WeekMinute :: if off[w] then Uncovered(rows, w) else CoveredOnce(rows, w)
  }

  method AllDayIfNeverOff(off: array<bool>) returns (rows: seq<Row>)
    requires off.Length == WEEK
    requires forall i: WeekMinute :: !RunStart(off[..], i)
    ensures Exact(off[..], rows)
    ensures rows == [] <==> exists w: WeekMinute :: off[w]
  {
    for i := 0 to WEEK
      invariant forall k: WeekMinute :: k < i ==> !off[k]
    {
      if off[i] {
        NoRunStartAllSame(off[..], i);
        return [];
      }
    }
    rows := [Row({0, 1, 2, 3, 4, 5, 6}, MIDNIGHT, MIDNIGHT)];
    forall w: WeekMinute
      ensures CoveredOnce(rows, w)
    {
      assert Covers(rows[0], w);
    }
  }

  /** The state of the run loop after the first `i` minutes from the first run's start. */
  ghost predicate Scanned(off: seq<bool>, rows: seq<Row>, start: WeekMinute, i: int)
    requires |off| == WEEK
  {
    forall w: WeekMinute ::
      if Hit(start, start + i, w) && !off[w] then CoveredOnce(rows, w) else Uncovered(rows, w)
  }

  lemma {:induction false} ScannedOff(off: seq<bool>, rows: seq<Row>, start: WeekMinute, i: nat)
    requires |off| == WEEK && i < WEEK && Scanned(off, rows, start, i) && off[Around(start + i)]
    ensures Scanned(off, rows, start, i + 1)
  {
    hide CoveredOnce, Uncovered;
  }

  lemma {:induction false} HitAround(start: WeekMinute, i: nat, length: nat, w: WeekMinute)
    requires i + length <= WEEK && i < WEEK
    ensures Hit(Around(start + i), Around(start + i) + length, w) <==> Hit(start + i, start + i + length, w)
  {}

  lemma {:induction false} ScannedRun(off: seq<bool>, before: seq<Row>, after: seq<Row>, start: WeekMinute, i: nat, length: nat)
    requires |off| == WEEK && i + length < WEEK && Scanned(off, before, start, i)
    requires var pos := Around(start + i); Run(off, pos, length) && Gains(before, after, pos, pos + length)
    ensures Scanned(off, after, start, i + length)
  {
    hide CoveredOnce, Uncovered;
    forall w: WeekMinute
      ensures if Hit(start, start + i + length, w) && !off[w] then CoveredOnce(after, w) else Uncovered(after, w)
    {
      HitAround(start, i, length, w);
      HitSplits(start, start + i, start + i + length, w);
    }
  }

  lemma {:induction false} NothingScanned(off: seq<bool>, start: WeekMinute)
    requires |off| == WEEK
    ensures Scanned(off, [], start, 0) && GoodRows(off, [])
  {}

  lemma {:induction false} NothingScannedAhead(off: seq<bool>, rows: seq<Row>, start: WeekMinute, i: nat, length: nat)
    requires |off| == WEEK && i + length < WEEK && Scanned(off, rows, start, i)
    ensures forall w: WeekMinute :: Hit(Around(start + i), Around(start + i) + length, w) ==> Uncovered(rows, w)
  {
    hide CoveredOnce, Uncovered;
    forall w: WeekMinute | Hit(Around(start + i), Around(start + i) + length, w)
      ensures Uncovered(rows, w)
    {
      HitAround(start, i, length, w);
      HitSplits(start, start + i, start + i + length, w);
    }
  }

  lemma {:induction false} ScannedAll(off: seq<bool>, rows: seq<Row>, start: WeekMinute)
    requires |off| == WEEK && Scanned(off, rows, start, WEEK) && GoodRows(off, rows)
    ensures Exact(off, rows)
  {
    hide CoveredOnce, Uncovered, GoodRows;
  }

  /** The length of the run of allowed minutes at `i` minutes from `start`, up to the end of the week. */
  method RunLength(off: array<bool>, start: WeekMinute, i: nat) returns (length: nat)
    requires off.Length == WEEK && i < WEEK
    requires RunStart(off[..], start)
    requires !off[Around(start + i)] && off[Around(Around(start + i) + WEEK - 1)]
    ensures 0 < length && i + length < WEEK
    ensures Run(off[..], Around(start + i), length)
    ensures off[Around(start + i + length)]
  {
    hide Run, RunStart;
    length := 0;
    while i + length < WEEK && !off[(start + i + length) % WEEK]
      invariant i + length <= WEEK
      invariant length == 0 ==> i + length < WEEK && !off[Around(start + i + length)]
      invariant length > 0 ==> !off[Around(start + i + length - 1)]
      invariant forall w: WeekMinute :: Hit(start + i, start + i + length, w) ==> !off[w]
    {
      assert Around(start + i + length) == (start + i + length) % WEEK;
      length := length + 1;
    }
    assert i + length < WEEK ==> Around(start + i + length) == (start + i + length) % WEEK;
    RunFound(off[..], start, i, length);
  }

  lemma {:induction false} RunFound(off: seq<bool>, start: WeekMinute, i: nat, length: nat)
    requires |off| == WEEK && i + length <= WEEK && i < WEEK && 0 < length && RunStart(off, start)
    requires !off[Around(start + i + length - 1)]
    requires i + length < WEEK ==> off[Around(start + i + length)]
    requires off[Around(Around(start + i) + WEEK - 1)]
    requires forall w: WeekMinute :: Hit(start + i, start + i + length, w) ==> !off[w]
    ensures i + length < WEEK && Run(off, Around(start + i), length)
  {
    forall w: WeekMinute | Hit(Around(start + i), Around(start + i) + length, w)
      ensures !off[w]
    {
      HitAround(start, i, length, w);
    }
  }

  /** The minutes of the week that the old rules take the device off, in order. */
  ghost function OffMinutes(rules: seq<LegacyRule>): (off: seq<bool>)
    ensures |off| == WEEK && forall w: WeekMinute :: off[w] <==> OldOff(rules, w)
  {
    seq(WEEK, w requires 0 <= w < WEEK => OldOff(rules, w))
  }

  method CollectRuns(off: array<bool>, startIndex: WeekMinute) returns (rows: seq<Row>)
    requires off.Length == WEEK && RunStart(off[..], startIndex)
    ensures Exact(off[..], rows)
  {
    hide CoveredOnce, Uncovered, GoodRow, GoodRows, Run, Gains, Scanned;
    var grouped := new RowGroups();
    ghost var marks := off[..];
    NothingScanned(marks, startIndex);
    var i := 0;
    while i < WEEK
      invariant 0 <= i <= WEEK && off[..] == marks
      invariant i < WEEK ==> off[Around(startIndex + i)] || off[Around(Around(startIndex + i) + WEEK - 1)]
      invariant GoodRows(marks, grouped.entries)
      invariant Scanned(marks, grouped.entries, startIndex, i)
      decreases WEEK - i
    {
      var pos := (startIndex + i) % WEEK;
      assert pos == Around(startIndex + i);
      if off[pos] {
        ScannedOff(marks, grouped.entries, startIndex, i);
        i := i + 1;
        continue;
      }
      var length := RunLength(off, startIndex, i);
      ghost var before := grouped.entries;
      NothingScannedAhead(marks, before, startIndex, i, length);
      grouped.AddRuns(marks, pos, length);
      ScannedRun(marks, before, grouped.entries, startIndex, i, length);
      i := i + length;
    }
    rows := grouped.entries;
    ScannedAll(marks, rows, startIndex);
  }

  /**
    The rows equivalent to the old rules. With no rule there is nothing to express; otherwise every allowed minute
    of the week is in exactly one row and no off minute is in any.
  */
  method ToAllowedRows(rules: seq<LegacyRule>) returns (rows: seq<Row>)
    ensures rules == [] ==> rows == []
    ensures rules != [] ==> Exact(OffMinutes(rules), rows)
  {
    var off := MarkOff(rules);
    assert off[..] == OffMinutes(rules);
    assert rules == [] ==> forall w: WeekMinute :: !off[w];
    var startIndex := FindRunStart(off);
    if startIndex < 0 {
      if rules == [] {
        return [];
      }
      rows := AllDayIfNeverOff(off);
      return;
    }
    rows := CollectRuns(off, startIndex);
  }

  lemma {:induction false} GoodRowAllowsSomething(off: seq<bool>, row: Row)
    requires |off| == WEEK && GoodRow(off, row)
    ensures exists w: WeekMinute :: !off[w]
  {
    var day :| day in row.days;
    assert Maximal(off, day, Minutes(row.start), EndMinute(row));
    var w: WeekMinute := day * DAY + Minutes(row.start);
    assert !off[w];
  }

  lemma {:induction false} NoRowMeansAllOff(off: seq<bool>, rows: seq<Row>)
    requires |off| == WEEK && Exact(off, rows)
    ensures rows == [] <==> forall w: WeekMinute :: off[w]
  {
    hide GoodRow;
    if rows == [] {
      forall w: WeekMinute
        ensures off[w]
      {
        assert !CoveredOnce(rows, w);
      }
    } else {
      GoodRowAllowsSomething(off, rows[0]);
    }
  }

  /** Rules that are converted to no row allowed nothing. */
  lemma {:induction false} NoRowMeansNeverAllowed(rules: seq<LegacyRule>, rows: seq<Row>)
    requires Exact(OffMinutes(rules), rows)
    ensures rows == [] <==> forall w: WeekMinute :: OldOff(rules, w)
  {
    hide OldOff, Exact;
    NoRowMeansAllOff(OffMinutes(rules), rows);
  }
}
