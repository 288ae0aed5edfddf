/**
  Weekly rows and overrides turned into concrete windows. Instants are milliseconds since the Unix epoch,
  dates are days since the epoch, local times are milliseconds of the day.
*/
module ScheduleResolver {
  import opened Lists

  const MINUTE := 60_000
  const DAY_MS := 86_400_000

  type Instant = int
  type LocalDate = int
  type LocalTime = t: int | 0 <= t < DAY_MS witness 0
  /** Monday is 0. */
  type DayOfWeek = d: int | 0 <= d < 7 witness 0

  const MIDNIGHT: LocalTime := 0

  /** The epoch day 0 was a Thursday. */
  function WeekdayOf(day: LocalDate): DayOfWeek {
    (day + 3) % 7
  }

  /**
    What the program asks of a time zone: the local date of an instant, the first instant of a date, and the
    instant a local date and time denotes. Local times in a daylight-saving gap are moved later and ones in an
    overlap denote the earlier instant, so `at` need not be monotone inside a day.
  */
  datatype Zone = Zone(dateOf: Instant -> LocalDate, startOfDay: LocalDate -> Instant, at: (LocalDate, LocalTime) -> Instant) {
    ghost predicate Lawful() {
      && (forall d, e :: d < e ==> startOfDay(d) < startOfDay(e))
      && (forall d, m: LocalTime :: startOfDay(d) <= at(d, m) <= startOfDay(d + 1))
      && (forall t :: startOfDay(dateOf(t)) <= t < startOfDay(dateOf(t) + 1))
    }
  }

  /** A zone whose clocks never change: local time is UTC plus `offset`. */
  function FixedOffset(offset: int): Zone {
    Zone(t => (t + offset) / DAY_MS, d => d * DAY_MS - offset, (d, m: LocalTime) => d * DAY_MS + m - offset)
  }

  datatype ScheduleRule = ScheduleRule(days: set<DayOfWeek>, startTime: LocalTime, endTime: LocalTime, enabled: bool)
  datatype ScheduleOverride =
    ScheduleOverride(startDate: LocalDate, endDate: LocalDate, startTime: LocalTime, endTime: LocalTime, enabled: bool)

  datatype AllowedWindow = AllowedWindow(onAt: Instant, offAt: Instant)
  datatype OffWindow = OffWindow(offAt: Instant, onAt: Instant)

  function OnAt(w: AllowedWindow): int { w.onAt }

  predicate IsValidWindow(start: LocalTime, end: LocalTime) {
    end == MIDNIGHT || end > start
  }

  function Window(zone: Zone, day: LocalDate, start: LocalTime, end: LocalTime): Option<AllowedWindow> {
    if !IsValidWindow(start, end) then None
    else Some(AllowedWindow(zone.at(day, start), if end == MIDNIGHT then zone.at(day + 1, MIDNIGHT) else zone.at(day, end)))
  }

  function Listed<T>(o: Option<T>): seq<T> {
    if o.Some? then [o.value] else []
  }

  // ---------------------------------------------------------------- what a schedule means

  ghost predicate Contains(w: Option<AllowedWindow>, t: Instant) {
    w.Some? && w.value.onAt <= t < w.value.offAt
  }

  ghost predicate RuleAllows(zone: Zone, rule: ScheduleRule, day: LocalDate, t: Instant) {
    rule.enabled && WeekdayOf(day) in rule.days && Contains(Window(zone, day, rule.startTime, rule.endTime), t)
  }

  ghost predicate OverrideAllows(zone: Zone, o: ScheduleOverride, day: LocalDate, t: Instant) {
    o.enabled && o.startDate <= day <= o.endDate && Contains(Window(zone, day, o.startTime, o.endTime), t)
  }

  ghost predicate AllowedOn(zone: Zone, rules: seq<ScheduleRule>, overrides: seq<ScheduleOverride>, day: LocalDate, t: Instant) {
    || (exists rule :: rule in rules && RuleAllows(zone, rule, day, t))
    || (exists o :: o in overrides && OverrideAllows(zone, o, day, t))
  }

  /** Some enabled row or override has a window, on whatever day, that contains `t`. */
  ghost predicate Allowed(zone: Zone, rules: seq<ScheduleRule>, overrides: seq<ScheduleOverride>, t: Instant) {
    exists day :: AllowedOn(zone, rules, overrides, day, t)
  }

  ghost predicate Restricts(rules: seq<ScheduleRule>) {
    exists rule :: rule in rules && rule.enabled
  }

  /** The device must be off at `t`: the schedule has an enabled row and nothing allows `t`. */
  ghost predicate ScheduleOff(zone: Zone, rules: seq<ScheduleRule>, overrides: seq<ScheduleOverride>, t: Instant) {
    Restricts(rules) && !Allowed(zone, rules, overrides, t)
  }

  ghost predicate InAllowed(ws: seq<AllowedWindow>, t: Instant) {
    exists i :: 0 <= i < |ws| && ws[i].onAt <= t < ws[i].offAt
  }

  ghost predicate InOff(ws: seq<OffWindow>, t: Instant) {
    exists i :: 0 <= i < |ws| && ws[i].offAt <= t < ws[i].onAt
  }

  // ---------------------------------------------------------------- the resolver as functions of its inputs

  function EnabledRule(): ScheduleRule -> bool { (r: ScheduleRule) => r.enabled }
  function EnabledOverride(): ScheduleOverride -> bool { (o: ScheduleOverride) => o.enabled }

  function RuleWindows(zone: Zone, rules: seq<ScheduleRule>, day: LocalDate): seq<AllowedWindow> {
    if rules == [] then []
    else
      var rule := rules[|rules| - 1];
      RuleWindows(zone, rules[..|rules| - 1], day)
      + if WeekdayOf(day) in rule.days then Listed(Window(zone, day, rule.startTime, rule.endTime)) else []
  }

  function OverrideWindows(zone: Zone, overrides: seq<ScheduleOverride>, day: LocalDate): seq<AllowedWindow> {
    if overrides == [] then []
    else
      var o := overrides[|overrides| - 1];
      OverrideWindows(zone, overrides[..|overrides| - 1], day)
      + if o.startDate <= day <= o.endDate then Listed(Window(zone, day, o.startTime, o.endTime)) else []
  }

  /** The windows of the days from `first` up to but excluding `end`. */
  function Expanded(zone: Zone, rules: seq<ScheduleRule>, overrides: seq<ScheduleOverride>, first: LocalDate, end: LocalDate):
    seq<AllowedWindow>
    decreases end - first
  {
    if end <= first then []
    else Expanded(zone, rules, overrides, first, end - 1)
         + RuleWindows(zone, rules, end - 1) + OverrideWindows(zone, overrides, end - 1)
  }

  function MergeInto(merged: seq<AllowedWindow>, w: AllowedWindow): seq<AllowedWindow> {
    if merged != [] && w.onAt <= merged[|merged| - 1].offAt then
      var prev := merged[|merged| - 1];
      merged[..|merged| - 1] + [AllowedWindow(prev.onAt, if w.offAt > prev.offAt then w.offAt else prev.offAt)]
    else merged + [w]
  }

  function Merged(sorted: seq<AllowedWindow>): seq<AllowedWindow> {
    if sorted == [] then [] else MergeInto(Merged(sorted[..|sorted| - 1]), sorted[|sorted| - 1])
  }

  function AllowedOverlapping(from: Instant, to: Instant): AllowedWindow -> bool {
    (w: AllowedWindow) => w.offAt > from && w.onAt < to
  }

  function OffOverlapping(from: Instant, to: Instant): OffWindow -> bool {
    (w: OffWindow) => w.onAt > from && w.offAt < to
  }

  /** The windows of the local dates from the day before `from` to that of `to`. */
  function ScannedWindows(zone: Zone, rules: seq<ScheduleRule>, overrides: seq<ScheduleOverride>, from: Instant, to: Instant):
    seq<AllowedWindow>
  {
    Expanded(zone, Filter(EnabledRule(), rules), Filter(EnabledOverride(), overrides),
             zone.dateOf(from) - 1, zone.dateOf(to) + 1)
  }

  function MergedOverlapping(windows: seq<AllowedWindow>, from: Instant, to: Instant): seq<AllowedWindow> {
    Filter(AllowedOverlapping(from, to), Merged(SortBy(OnAt, windows)))
  }

  function AllowedWindows(zone: Zone, rules: seq<ScheduleRule>, overrides: seq<ScheduleOverride>, from: Instant, to: Instant):
    seq<AllowedWindow>
  {
    MergedOverlapping(ScannedWindows(zone, rules, overrides, from, to), from, to)
  }

  function GapBefore(w: AllowedWindow, cursor: Instant, rangeEnd: Instant): seq<OffWindow> {
    if w.onAt > cursor then [OffWindow(cursor, if w.onAt < rangeEnd then w.onAt else rangeEnd)] else []
  }

  /** How far the allowed windows reach, starting from `rangeStart`. */
  function Cursor(allowed: seq<AllowedWindow>, rangeStart: Instant): Instant {
    if allowed == [] then rangeStart
    else
      var cursor := Cursor(allowed[..|allowed| - 1], rangeStart);
      var w := allowed[|allowed| - 1];
      if w.offAt > cursor then w.offAt else cursor
  }

  function Gaps(allowed: seq<AllowedWindow>, rangeStart: Instant, rangeEnd: Instant): seq<OffWindow> {
    if allowed == [] then []
    else
      var before := allowed[..|allowed| - 1];
      Gaps(before, rangeStart, rangeEnd) + GapBefore(allowed[|allowed| - 1], Cursor(before, rangeStart), rangeEnd)
  }

  function AllGaps(allowed: seq<AllowedWindow>, rangeStart: Instant, rangeEnd: Instant): seq<OffWindow> {
    var cursor := Cursor(allowed, rangeStart);
    Gaps(allowed, rangeStart, rangeEnd) + if cursor < rangeEnd then [OffWindow(cursor, rangeEnd)] else []
  }

  function RangeStart(zone: Zone, from: Instant): Instant { zone.startOfDay(zone.dateOf(from) - 1) }
  function RangeEnd(zone: Zone, to: Instant): Instant { zone.startOfDay(zone.dateOf(to) + 1) }

  /** The off windows of the whole local days around [from, to), before the ones outside it are dropped. */
  function DayGaps(zone: Zone, rules: seq<ScheduleRule>, overrides: seq<ScheduleOverride>, from: Instant, to: Instant):
    seq<OffWindow>
  {
    if Filter(EnabledRule(), rules) == [] then []
    else
      var rangeStart, rangeEnd := RangeStart(zone, from), RangeEnd(zone, to);
      AllGaps(AllowedWindows(zone, rules, overrides, rangeStart, rangeEnd), rangeStart, rangeEnd)
  }

  function OffWindows(zone: Zone, rules: seq<ScheduleRule>, overrides: seq<ScheduleOverride>, from: Instant, to: Instant):
    seq<OffWindow>
  {
    Filter(OffOverlapping(from, to), DayGaps(zone, rules, overrides, from, to))
  }

  // ---------------------------------------------------------------- the resolver's loops

  lemma {:induction false} NothingMerged()
    ensures Merged([]) == []
  {}

  lemma {:induction false} MergedStep(sorted: seq<AllowedWindow>, i: nat)
    requires i < |sorted|
    ensures Merged(sorted[..i + 1]) == MergeInto(Merged(sorted[..i]), sorted[i])
  {
    hide MergeInto;
    assert sorted[..i + 1][..i] == sorted[..i];
  }

  method Merge(windows: seq<AllowedWindow>) returns (merged: seq<AllowedWindow>)
    ensures merged == Merged(SortBy(OnAt, windows))
  {
    hide SortBy, Merged;
    var sorted := SortBy(OnAt, windows);
    merged := [];
    NothingMerged();
    assert sorted[..0] == [];
    for i := 0 to |sorted|
      invariant merged == Merged(sorted[..i])
    {
      var w := sorted[i];
      if merged != [] && !(w.onAt > merged[|merged| - 1].offAt) {
        var prev := merged[|merged| - 1];
        merged := merged[..|merged| - 1];
        merged := merged + [AllowedWindow(prev.onAt, if w.offAt > prev.offAt then w.offAt else prev.offAt)];
      } else {
        merged := merged + [w];
      }
      MergedStep(sorted, i);
    }
    assert sorted[..|sorted|] == sorted;
  }

  /** The windows one local date contributes: those of the weekly rows that tick, then those of the overrides. */
  method DayWindows(zone: Zone, rules: seq<ScheduleRule>, overrides: seq<ScheduleOverride>, day: LocalDate)
    returns (windows: seq<AllowedWindow>)
    ensures windows == RuleWindows(zone, rules, day) + OverrideWindows(zone, overrides, day)
  {
    windows := [];
    for i := 0 to |rules|
      invariant windows == RuleWindows(zone, rules[..i], day)
    {
      var rule := rules[i];
      assert rules[..i + 1][..i] == rules[..i];
      if WeekdayOf(day) in rule.days {
        windows := windows + Listed(Window(zone, day, rule.startTime, rule.endTime));
      }
    }
    assert rules[..|rules|] == rules;
    for i := 0 to |overrides|
      invariant windows == RuleWindows(zone, rules, day) + OverrideWindows(zone, overrides[..i], day)
    {
      var o := overrides[i];
      assert overrides[..i + 1][..i] == overrides[..i];
      if !(day < o.startDate) && !(day > o.endDate) {
        windows := windows + Listed(Window(zone, day, o.startTime, o.endTime));
      }
    }
    assert overrides[..|overrides|] == overrides;
  }

  method Expand(zone: Zone, rules: seq<ScheduleRule>, overrides: seq<ScheduleOverride>, first: LocalDate, last: LocalDate)
    returns (windows: seq<AllowedWindow>)
    ensures windows == Expanded(zone, rules, overrides, first, last + 1)
  {
    hide RuleWindows, OverrideWindows;
    windows := [];
    var day := first;
    while day <= last
      invariant day == first || first < day <= last + 1
      invariant windows == Expanded(zone, rules, overrides, first, day)
    {
      var today := DayWindows(zone, rules, overrides, day);
      windows := windows + today;
      day := day + 1;
    }
  }

  method ResolveAllowed(zone: Zone, rules: seq<ScheduleRule>, overrides: seq<ScheduleOverride>, from: Instant, to: Instant)
    returns (allowed: seq<AllowedWindow>)
    ensures allowed == AllowedWindows(zone, rules, overrides, from, to)
  {
    hide Merged, SortBy, Expanded;
    var windows := Expand(zone, Filter(EnabledRule(), rules), Filter(EnabledOverride(), overrides),
                          zone.dateOf(from) - 1, zone.dateOf(to));
    var merged := Merge(windows);
    allowed := Filter(AllowedOverlapping(from, to), merged);
  }

  method GapsBetween(allowed: seq<AllowedWindow>, rangeStart: Instant, rangeEnd: Instant) returns (gaps: seq<OffWindow>)
    ensures gaps == AllGaps(allowed, rangeStart, rangeEnd)
  {
    gaps := [];
    var cursor := rangeStart;
    for i := 0 to |allowed|
      invariant gaps == Gaps(allowed[..i], rangeStart, rangeEnd)
      invariant cursor == Cursor(allowed[..i], rangeStart)
    {
      var w := allowed[i];
      assert allowed[..i + 1][..i] == allowed[..i];
      if w.onAt > cursor {
        gaps := gaps + [OffWindow(cursor, if w.onAt < rangeEnd then w.onAt else rangeEnd)];
      }
      if w.offAt > cursor {
        cursor := w.offAt;
      }
    }
    assert allowed[..|allowed|] == allowed;
    if cursor < rangeEnd {
      gaps := gaps + [OffWindow(cursor, rangeEnd)];
    }
  }

  method ResolveOff(zone: Zone, rules: seq<ScheduleRule>, overrides: seq<ScheduleOverride>, from: Instant, to: Instant)
    returns (off: seq<OffWindow>)
    ensures off == OffWindows(zone, rules, overrides, from, to)
  {
    hide AllowedWindows, AllGaps;
    if Filter(EnabledRule(), rules) == [] {
      assert DayGaps(zone, rules, overrides, from, to) == [];
      return [];
    }
    var rangeStart := zone.startOfDay(zone.dateOf(from) - 1);
    var rangeEnd := zone.startOfDay(zone.dateOf(to) + 1);
    var allowed := ResolveAllowed(zone, rules, overrides, rangeStart, rangeEnd);
    var gaps := GapsBetween(allowed, rangeStart, rangeEnd);
    assert gaps == DayGaps(zone, rules, overrides, from, to);
    off := Filter(OffOverlapping(from, to), gaps);
  }
}
