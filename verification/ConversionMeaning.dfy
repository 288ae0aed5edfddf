/** Conversion preserves meaning end to end: from old off-rules through new rows to the resolver's off windows. */
module ConversionMeaning {
  import opened ScheduleResolver
  import opened ScheduleMeaning
  import opened ScheduleCanonical
  import opened LegacyScheduleConverter

  /** The rows as they are stored for a schedule: enabled, with no overrides. */
  function RowsAsRules(rows: seq<Row>): (rules: seq<ScheduleRule>)
    ensures |rules| == |rows|
    ensures forall i :: 0 <= i < |rows| ==> rules[i] == ScheduleRule(rows[i].days, rows[i].start, rows[i].end, true)
  {
    seq(|rows|, i requires 0 <= i < |rows| => ScheduleRule(rows[i].days, rows[i].start, rows[i].end, true))
  }

  /** Absolute local minute `m` is within the off interval of some rule anchored on some date of the unbounded timeline. */
  ghost predicate DatedOff(rules: seq<LegacyRule>, m: int) {
    exists i, date :: 0 <= i < |rules| && RuleOffOn(rules[i], date, m)
  }

  ghost predicate RuleOffOn(rule: LegacyRule, date: LocalDate, m: int) {
    WeekdayOf(date) in rule.days && date * DAY + OffStart(rule) <= m < date * DAY + OffEnd(rule)
  }

  function WeekMinuteOf(m: int): WeekMinute {
    (m + 3 * DAY) % WEEK
  }

  lemma {:induction false} WeekMinuteByDay(m: int)
    ensures WeekMinuteOf(m) == WeekdayOf(m / DAY) * DAY + m % DAY
  {
    var d := m / DAY;
    var k := (d + 3) / 7;
    assert d + 3 == 7 * k + WeekdayOf(d);
    assert m + 3 * DAY == WEEK * k + (WeekdayOf(d) * DAY + m % DAY);
    ModuloIs(m + 3 * DAY, k, WeekdayOf(d) * DAY + m % DAY);
  }

  lemma {:induction false} ModuloIs(x: int, k: int, r: int)
    requires x == WEEK * k + r && 0 <= r < WEEK
    ensures x % WEEK == r && x / WEEK == k
  {}

  /** The dated intervals of a weekly rule meet a minute exactly when its circular ones meet the minute of the week. */
  lemma {:induction false} DatedIsWeekly(rules: seq<LegacyRule>, m: int)
    ensures DatedOff(rules, m) <==> OldOff(rules, WeekMinuteOf(m))
  {
    var w := WeekMinuteOf(m);
    if i, date :| 0 <= i < |rules| && RuleOffOn(rules[i], date, m) {
      DatedHits(rules[i], date, m);
      assert OffOn(rules[i], WeekdayOf(date), w);
    }
    if i, day :| 0 <= i < |rules| && day in rules[i].days && OffOn(rules[i], day, w) {
      var date := HitDated(rules[i], day, m);
      assert RuleOffOn(rules[i], date, m);
    }
  }

  lemma {:induction false} DatedHits(rule: LegacyRule, date: LocalDate, m: int)
    requires RuleOffOn(rule, date, m)
    ensures OffOn(rule, WeekdayOf(date), WeekMinuteOf(m))
  {
    var day := WeekdayOf(date);
    var k := (date + 3) / 7;
    var s := day * DAY + (m - date * DAY);
    assert date + 3 == 7 * k + day;
    assert m + 3 * DAY == WEEK * k + s;
    assert 0 <= s < 2 * WEEK;
    if s < WEEK {
      ModuloIs(m + 3 * DAY, k, s);
    } else {
      ModuloIs(m + 3 * DAY, k + 1, s - WEEK);
    }
  }

  lemma {:induction false} HitDated(rule: LegacyRule, day: DayOfWeek, m: int) returns (date: LocalDate)
    requires day in rule.days && OffOn(rule, day, WeekMinuteOf(m))
    ensures RuleOffOn(rule, date, m)
  {
    var w := WeekMinuteOf(m);
    var k := (m + 3 * DAY) / WEEK;
    assert m + 3 * DAY == WEEK * k + w;
    var first := day * DAY + OffStart(rule) <= w < day * DAY + OffEnd(rule);
    date := (if first then 7 * k else 7 * (k - 1)) + day - 3;
    WeekdayOfSum(if first then k else k - 1, day);
  }

  lemma {:induction false} WeekdayOfSum(k: int, day: DayOfWeek)
    ensures WeekdayOf(7 * k + day - 3) == day
  {}

  // ---------------------------------------------------------------- rows in a fixed-offset zone

  lemma {:induction false} WindowInLocalTime(row: Row, offset: int, date: LocalDate, t: Instant)
    requires row.start % MINUTE == 0 && row.end % MINUTE == 0 && IsValidWindow(row.start, row.end)
    ensures Contains(Window(FixedOffset(offset), date, row.start, row.end), t)
         <==> date * DAY_MS + Minutes(row.start) * MINUTE <= t + offset < date * DAY_MS + EndMinute(row) * MINUTE
  {
    assert row.start == Minutes(row.start) * MINUTE;
    assert row.end != MIDNIGHT ==> row.end == EndMinute(row) * MINUTE;
  }

  /** Whole minutes compare as instants do. */
  lemma {:induction false} MinuteBounds(local: int, date: int, start: nat, end: nat)
    requires end <= DAY
    ensures date * DAY_MS + start * MINUTE <= local < date * DAY_MS + end * MINUTE
       <==> (date == local / DAY_MS && start <= local / MINUTE % DAY < end)
  {
    var m := local / MINUTE;
    assert m * MINUTE <= local < m * MINUTE + MINUTE;
    assert m == m / DAY * DAY + m % DAY;
    assert m / DAY == local / DAY_MS;
  }

  /** A row's window on a date contains an instant exactly when the row covers that instant's minute, on its own date. */
  lemma {:induction false} RowWindowIsCover(row: Row, offset: int, date: LocalDate, t: Instant)
    requires row.start % MINUTE == 0 && row.end % MINUTE == 0 && IsValidWindow(row.start, row.end)
    ensures RuleAllows(FixedOffset(offset), ScheduleRule(row.days, row.start, row.end, true), date, t)
         <==> (date == (t + offset) / DAY_MS && Covers(row, WeekMinuteOf((t + offset) / MINUTE)))
  {
    hide Contains, Window, FixedOffset;
    var m := (t + offset) / MINUTE;
    WindowInLocalTime(row, offset, date, t);
    MinuteBounds(t + offset, date, Minutes(row.start), EndMinute(row));
    WeekMinuteByDay(m);
    SplitWeekMinute(WeekdayOf(m / DAY), m % DAY);
    assert m / DAY == (t + offset) / DAY_MS;
  }

  lemma {:induction false} SplitWeekMinute(day: DayOfWeek, minute: int)
    requires 0 <= minute < DAY
    ensures (day * DAY + minute) / DAY == day && (day * DAY + minute) % DAY == minute
  {}

  lemma {:induction false} AllowedIsCovered(off: seq<bool>, rows: seq<Row>, offset: int, t: Instant)
    requires |off| == WEEK && Exact(off, rows)
    ensures Allowed(FixedOffset(offset), RowsAsRules(rows), [], t) <==> !off[WeekMinuteOf((t + offset) / MINUTE)]
  {
    var zone, rules, w := FixedOffset(offset), RowsAsRules(rows), WeekMinuteOf((t + offset) / MINUTE);
    if day :| AllowedOn(zone, rules, [], day, t) {
      var rule :| rule in rules && RuleAllows(zone, rule, day, t);
      var i :| 0 <= i < |rules| && rules[i] == rule;
      assert GoodRow(off, rows[i]);
      RowWindowIsCover(rows[i], offset, day, t);
      assert !Uncovered(rows, w);
    }
    if !off[w] {
      var i :| 0 <= i < |rows| && Covers(rows[i], w);
      assert GoodRow(off, rows[i]);
      var day := (t + offset) / DAY_MS;
      RowWindowIsCover(rows[i], offset, day, t);
      assert rules[i] in rules && RuleAllows(zone, rules[i], day, t);
      assert AllowedOn(zone, rules, [], day, t);
    }
  }

  /**
    Main result: conversion preserves meaning end to end. For rules that leave some minute of the week allowed,
    resolving the converted rows takes the device off at an instant exactly when some old rule's dated off interval
    contains the instant's local minute.
  */
  lemma {:induction false} ConversionPreservesMeaning(legacy: seq<LegacyRule>, rows: seq<Row>, offset: int, from: Instant, to: Instant, t: Instant)
    requires Exact(OffMinutes(legacy), rows)
    requires exists w: WeekMinute :: !OldOff(legacy, w)
    requires from <= t < to
    ensures InOff(OffWindows(FixedOffset(offset), RowsAsRules(rows), [], from, to), t) <==> DatedOff(legacy, (t + offset) / MINUTE)
  {
    hide OffWindows, OldOff, DatedOff, Exact, Allowed;
    var zone, rules := FixedOffset(offset), RowsAsRules(rows);
    NoRowMeansNeverAllowed(legacy, rows);
    assert rules[0] in rules && rules[0].enabled;
    FixedOffsetLawful(offset);
    OffWindowsExact(zone, rules, [], from, to, t);
    AllowedIsCovered(OffMinutes(legacy), rows, offset, t);
    DatedIsWeekly(legacy, (t + offset) / MINUTE);
  }

  /** What `ToAllowedRows` promises of its result. */
  ghost predicate Converted(legacy: seq<LegacyRule>, rows: seq<Row>) {
    if legacy == [] then rows == [] else Exact(OffMinutes(legacy), rows)
  }

  ghost predicate SameMeaning(legacy: seq<LegacyRule>, rows: seq<Row>, offset: int, from: Instant, to: Instant, t: Instant) {
    from <= t < to ==> (InOff(OffWindows(FixedOffset(offset), RowsAsRules(rows), [], from, to), t) <==> DatedOff(legacy, (t + offset) / MINUTE))
  }

  lemma {:induction false} NoRowsNothingOff(offset: int, from: Instant, to: Instant, t: Instant)
    ensures !InOff(OffWindows(FixedOffset(offset), RowsAsRules([]), [], from, to), t)
  {
    NoEnabledRowNothingOff(FixedOffset(offset), RowsAsRules([]), [], from, to);
    hide OffWindows;
  }

  /**
    Conversion preserves meaning exactly when some minute of the week is allowed: rules that never allow the device on
    turn into no rows, which restrict nothing, so their meaning is reversed at every instant.
  */
  lemma {:induction false} ConversionPreservesExactlyWhen(legacy: seq<LegacyRule>, rows: seq<Row>, offset: int, from: Instant, to: Instant)
    requires Converted(legacy, rows) && from < to
    ensures (forall t :: SameMeaning(legacy, rows, offset, from, to, t)) <==> exists w: WeekMinute :: !OldOff(legacy, w)
  {
    if exists w: WeekMinute :: !OldOff(legacy, w) {
      forall t
        ensures SameMeaning(legacy, rows, offset, from, to, t)
      {
        MeaningKept(legacy, rows, offset, from, to, t);
      }
    } else {
      MeaningReversed(legacy, rows, offset, from, to, from);
    }
  }

  lemma {:induction false} MeaningKept(legacy: seq<LegacyRule>, rows: seq<Row>, offset: int, from: Instant, to: Instant, t: Instant)
    requires Converted(legacy, rows) && exists w: WeekMinute :: !OldOff(legacy, w)
    ensures SameMeaning(legacy, rows, offset, from, to, t)
  {
    hide OffWindows, Exact, InOff, OldOff;
    if from <= t < to {
      if legacy == [] {
        NoRowsNothingOff(offset, from, to, t);
      } else {
        ConversionPreservesMeaning(legacy, rows, offset, from, to, t);
      }
    }
  }

  lemma {:induction false} MeaningReversed(legacy: seq<LegacyRule>, rows: seq<Row>, offset: int, from: Instant, to: Instant, t: Instant)
    requires Converted(legacy, rows) && from <= t < to && forall w: WeekMinute :: OldOff(legacy, w)
    ensures !SameMeaning(legacy, rows, offset, from, to, t)
  {
    hide OffWindows, Exact, InOff, DatedOff;
    var first: WeekMinute := 0;
    assert OldOff(legacy, first);
    assert legacy != [];
    hide OldOff;
    NoRowMeansNeverAllowed(legacy, rows);
    NoRowsNothingOff(offset, from, to, t);
    DatedIsWeekly(legacy, (t + offset) / MINUTE);
  }

  /** Every day off at midnight, and on again at the next midnight: such rules never allow the device on. */
  const ALWAYS_OFF := [LegacyRule({0, 1, 2, 3, 4, 5, 6}, MIDNIGHT, MIDNIGHT)]

  lemma {:induction false} AlwaysOff(w: WeekMinute)
    ensures OldOff(ALWAYS_OFF, w)
  {
    var day: DayOfWeek := w / DAY;
    var rule := ALWAYS_OFF[0];
    assert OffOn(rule, day, w);
  }

  /** Rules whose meaning conversion reverses do exist. */
  lemma {:induction false} SomeMeaningReversed(rows: seq<Row>, offset: int, from: Instant, to: Instant, t: Instant)
    requires Converted(ALWAYS_OFF, rows) && from <= t < to
    ensures DatedOff(ALWAYS_OFF, (t + offset) / MINUTE)
    ensures !InOff(OffWindows(FixedOffset(offset), RowsAsRules(rows), [], from, to), t)
  {
    hide OffWindows, Exact, InOff, DatedOff;
    forall w: WeekMinute
      ensures OldOff(ALWAYS_OFF, w)
    {
      AlwaysOff(w);
    }
    hide OldOff;
    NoRowMeansNeverAllowed(ALWAYS_OFF, rows);
    NoRowsNothingOff(offset, from, to, t);
    DatedIsWeekly(ALWAYS_OFF, (t + offset) / MINUTE);
  }

  // ---------------------------------------------------------------- the old rules, case by case

  /**
    What an old rule meant, with times in minutes: one that comes on no later than it goes off was off until the next
    date; an off time before noon and before the on time was meant for the early hours of the next date; any other was
    off and on again within its own date.
  */
  lemma {:induction false} OldRuleMeans(rule: LegacyRule, date: LocalDate, m: int)
    ensures var off, on := rule.off / 60_000, rule.on / 60_000;
            && (rule.on <= rule.off ==>
                  (RuleOffOn(rule, date, m) <==> WeekdayOf(date) in rule.days && date * 1440 + off <= m < (date + 1) * 1440 + on))
            && (rule.off < rule.on && rule.off < 43_200_000 ==>
                  (RuleOffOn(rule, date, m) <==> WeekdayOf(date) in rule.days && (date + 1) * 1440 + off <= m < (date + 1) * 1440 + on))
            && (43_200_000 <= rule.off < rule.on ==>
                  (RuleOffOn(rule, date, m) <==> WeekdayOf(date) in rule.days && date * 1440 + off <= m < date * 1440 + on))
  {
    assert (date + 1) * 1440 == date * 1440 + 1440;
  }
}
