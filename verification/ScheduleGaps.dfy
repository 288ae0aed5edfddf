/** Exactly when the off windows are canonical: which windows turned inside out by a clock change show in the answer. */
module ScheduleGaps {
  import opened Lists
  import opened ScheduleResolver
  import opened ScheduleMeaning
  import opened ScheduleCanonical

  /** Windows in order of start, each ending before any later one starts; some may end before they start themselves. */
  ghost predicate Apart(ws: seq<AllowedWindow>) {
    && (forall i, j :: 0 <= i < j < |ws| ==> ws[i].onAt <= ws[j].onAt)
    && (forall i, j :: 0 <= i < j < |ws| ==> ws[i].offAt < ws[j].onAt)
  }

  lemma {:induction false} MergeIntoApart(merged: seq<AllowedWindow>, w: AllowedWindow)
    requires Apart(merged) && (merged != [] ==> merged[|merged| - 1].onAt <= w.onAt)
    ensures Apart(MergeInto(merged, w))
  {
    var r := MergeInto(merged, w);
    if merged != [] {
      var last := merged[|merged| - 1];
      forall i, j | 0 <= i < j < |r|
        ensures r[i].onAt <= r[j].onAt && r[i].offAt < r[j].onAt
      {
        assert i < |merged| - 1 ==> r[i] == merged[i] && merged[i].offAt < last.onAt && merged[i].onAt <= last.onAt;
        assert j < |merged| - 1 ==> r[j] == merged[j];
      }
    }
  }

  /** Whatever the windows, merged ones are apart. */
  lemma {:induction false} MergedApart(sorted: seq<AllowedWindow>)
    requires SortedBy(OnAt, sorted)
    ensures Apart(Merged(sorted))
  {
    if sorted != [] {
      hide MergeInto;
      var front, w := sorted[..|sorted| - 1], sorted[|sorted| - 1];
      MergedApart(front);
      MergedSorted(front);
      assert front != [] ==> OnAt(front[|front| - 1]) <= OnAt(w);
      MergeIntoApart(Merged(front), w);
    }
  }

  lemma {:induction false} FilteredApart(ws: seq<AllowedWindow>, from: Instant, to: Instant)
    requires Apart(ws)
    ensures Apart(Filter(AllowedOverlapping(from, to), ws))
  {
    var f := Filter(AllowedOverlapping(from, to), ws);
    var rel := (a: AllowedWindow, b: AllowedWindow) => a.onAt <= b.onAt && a.offAt < b.onAt;
    FilterKeepsOrder(AllowedOverlapping(from, to), ws, rel);
    hide Filter;
    forall i, j | 0 <= i < j < |f|
      ensures f[i].onAt <= f[j].onAt && f[i].offAt < f[j].onAt
    {
      assert rel(f[i], f[j]);
    }
  }

  /** The allowed windows of a range are apart, and each reaches into the range. */
  lemma {:induction false} AllowedWindowsApart(zone: Zone, rules: seq<ScheduleRule>, overrides: seq<ScheduleOverride>, from: Instant, to: Instant)
    ensures Apart(AllowedWindows(zone, rules, overrides, from, to))
    ensures Overlap(AllowedWindows(zone, rules, overrides, from, to), from, to)
  {
    var ws := ScannedWindows(zone, rules, overrides, from, to);
    SortBySorts(OnAt, ws);
    MergedApart(SortBy(OnAt, ws));
    FilteredApart(Merged(SortBy(OnAt, ws)), from, to);
    AllowedWindowsSorted(zone, rules, overrides, from, to);
    hide Apart, AllowedWindows;
    var allowed := AllowedWindows(zone, rules, overrides, from, to);
    forall i | 0 <= i < |allowed|
      ensures from < allowed[i].offAt && allowed[i].onAt < to
    {
      assert allowed[i] in allowed;
    }
  }

  ghost predicate Overlap(ws: seq<AllowedWindow>, rangeStart: Instant, rangeEnd: Instant) {
    forall i :: 0 <= i < |ws| ==> rangeStart < ws[i].offAt && ws[i].onAt < rangeEnd
  }

  // ---------------------------------------------------------------- gaps, one by one

  /** The gaps before the first `i` windows come first, in the same order. */
  lemma {:induction false} GapsPrefix(allowed: seq<AllowedWindow>, i: nat, rangeStart: Instant, rangeEnd: Instant)
    requires i <= |allowed|
    ensures Gaps(allowed[..i], rangeStart, rangeEnd) <= Gaps(allowed, rangeStart, rangeEnd)
  {
    if i == |allowed| {
      assert allowed[..i] == allowed;
    } else {
      hide Cursor, GapBefore;
      var before := allowed[..|allowed| - 1];
      GapsPrefix(before, i, rangeStart, rangeEnd);
      assert before[..i] == allowed[..i];
    }
  }

  /** No window read so far ends after the cursor, and it is where one of them ends or the range starts. */
  lemma {:induction false} CursorIs(allowed: seq<AllowedWindow>, rangeStart: Instant)
    ensures rangeStart <= Cursor(allowed, rangeStart)
    ensures forall i :: 0 <= i < |allowed| ==> allowed[i].offAt <= Cursor(allowed, rangeStart)
    ensures Cursor(allowed, rangeStart) == rangeStart || exists i :: 0 <= i < |allowed| && allowed[i].offAt == Cursor(allowed, rangeStart)
  {
    if allowed != [] {
      var front := allowed[..|allowed| - 1];
      CursorIs(front, rangeStart);
      forall i | 0 <= i < |front|
        ensures allowed[i].offAt <= Cursor(front, rangeStart)
      {
        assert allowed[i] == front[i];
      }
      if Cursor(front, rangeStart) != rangeStart {
        var i :| 0 <= i < |front| && front[i].offAt == Cursor(front, rangeStart);
        assert allowed[i].offAt == Cursor(front, rangeStart);
      }
      assert allowed[|allowed| - 1].offAt <= Cursor(allowed, rangeStart);
    }
  }

  lemma {:induction false} GapsStep(allowed: seq<AllowedWindow>, i: nat, rangeStart: Instant, rangeEnd: Instant)
    requires i < |allowed|
    ensures Gaps(allowed[..i + 1], rangeStart, rangeEnd)
         == Gaps(allowed[..i], rangeStart, rangeEnd) + GapBefore(allowed[i], Cursor(allowed[..i], rangeStart), rangeEnd)
    ensures Cursor(allowed[..i + 1], rangeStart)
         == if allowed[i].offAt > Cursor(allowed[..i], rangeStart) then allowed[i].offAt else Cursor(allowed[..i], rangeStart)
  {
    assert allowed[..i + 1][..i] == allowed[..i];
  }

  /** Every window but the first starts after the cursor, and so does any that ends before it starts. */
  lemma {:induction false} StartsPastCursor(allowed: seq<AllowedWindow>, i: nat, rangeStart: Instant, rangeEnd: Instant)
    requires Apart(allowed) && Overlap(allowed, rangeStart, rangeEnd) && i < |allowed|
    requires i > 0 || allowed[i].offAt <= allowed[i].onAt
    ensures Cursor(allowed[..i], rangeStart) < allowed[i].onAt
  {
    CursorIs(allowed[..i], rangeStart);
    hide Cursor;
    if i > 0 {
      assert allowed[i - 1].offAt < allowed[i].onAt && rangeStart < allowed[i - 1].offAt;
    }
  }

  /** The gaps on both sides of a window that ends no later than it starts. */
  datatype Around = Around(index: nat, before: OffWindow, after: OffWindow)

  lemma {:induction false} GapsAround(allowed: seq<AllowedWindow>, i: nat, rangeStart: Instant, rangeEnd: Instant) returns (a: Around)
    requires Apart(allowed) && Overlap(allowed, rangeStart, rangeEnd)
    requires i < |allowed| && allowed[i].offAt <= allowed[i].onAt
    ensures var gaps := AllGaps(allowed, rangeStart, rangeEnd);
            && a.index + 1 < |gaps| && gaps[a.index] == a.before && gaps[a.index + 1] == a.after
    ensures a.before.onAt == allowed[i].onAt
    ensures a.after.offAt == Cursor(allowed[..i + 1], rangeStart) <= allowed[i].onAt
    ensures a.before.offAt <= a.after.offAt && allowed[i].onAt <= a.after.onAt
  {
    hide Cursor, Gaps, Apart, Overlap;
    var cursor, next := Cursor(allowed[..i], rangeStart), Cursor(allowed[..i + 1], rangeStart);
    StartsPastCursor(allowed, i, rangeStart, rangeEnd);
    GapsStep(allowed, i, rangeStart, rangeEnd);
    OverlapAt(allowed, i, rangeStart, rangeEnd);
    var upTo := Gaps(allowed[..i + 1], rangeStart, rangeEnd);
    a := Around(|upTo| - 1, OffWindow(cursor, allowed[i].onAt), OffWindow(next, rangeEnd));
    if i + 1 < |allowed| {
      StartsPastCursor(allowed, i + 1, rangeStart, rangeEnd);
      GapsStep(allowed, i + 1, rangeStart, rangeEnd);
      OverlapAt(allowed, i + 1, rangeStart, rangeEnd);
      GapsPrefix(allowed, i + 2, rangeStart, rangeEnd);
      StartsInOrderAt(allowed, i);
      a := a.(after := OffWindow(next, allowed[i + 1].onAt));
    } else {
      assert allowed[..i + 1] == allowed;
    }
  }

  lemma {:induction false} OverlapAt(allowed: seq<AllowedWindow>, i: nat, rangeStart: Instant, rangeEnd: Instant)
    requires Overlap(allowed, rangeStart, rangeEnd) && i < |allowed|
    ensures rangeStart < allowed[i].offAt && allowed[i].onAt < rangeEnd
  {}

  lemma {:induction false} StartsInOrderAt(allowed: seq<AllowedWindow>, i: nat)
    requires Apart(allowed) && i + 1 < |allowed|
    ensures allowed[i].onAt <= allowed[i + 1].onAt
  {}

  // ---------------------------------------------------------------- exactly when the answer is canonical

  /**
    Window `i` does no harm to the gaps that overlap [from, to): it ends after it starts, or starts before the range, or
    the windows up to it reach past the range.
  */
  ghost predicate Harmless(allowed: seq<AllowedWindow>, i: nat, from: Instant, to: Instant)
    requires i < |allowed|
  {
    allowed[i].onAt < allowed[i].offAt || allowed[i].onAt <= from || exists j :: 0 <= j <= i && to <= allowed[j].offAt
  }

  ghost predicate AllHarmless(allowed: seq<AllowedWindow>, from: Instant, to: Instant) {
    forall i :: 0 <= i < |allowed| ==> Harmless(allowed, i, from, to)
  }

  /** Time between the gap and `next`, or one of the two is outside [from, to). */
  predicate Clear(g: OffWindow, next: Instant, from: Instant, to: Instant) {
    g.onAt < next || g.onAt <= from || to <= next
  }

  ghost predicate ClearTo(gaps: seq<OffWindow>, next: Instant, from: Instant, to: Instant) {
    forall k :: 0 <= k < |gaps| ==> Clear(gaps[k], next, from, to)
  }

  ghost predicate AllClear(gaps: seq<OffWindow>, from: Instant, to: Instant) {
    forall k, l :: 0 <= k < l < |gaps| ==> Clear(gaps[k], gaps[l].offAt, from, to)
  }

  lemma {:induction false} CursorPastRange(allowed: seq<AllowedWindow>, i: nat, rangeStart: Instant, from: Instant, to: Instant)
    requires i < |allowed| && Harmless(allowed, i, from, to)
    ensures allowed[i].onAt < Cursor(allowed[..i + 1], rangeStart) || allowed[i].onAt <= from || to <= Cursor(allowed[..i + 1], rangeStart)
  {
    CursorIs(allowed[..i + 1], rangeStart);
    hide Cursor;
    assert allowed[..i + 1][i] == allowed[i];
    if j :| 0 <= j <= i && to <= allowed[j].offAt {
      assert allowed[..i + 1][j] == allowed[j];
    }
  }

  lemma {:induction false} GapsClear(allowed: seq<AllowedWindow>, n: nat, rangeStart: Instant, rangeEnd: Instant, from: Instant, to: Instant)
    requires n <= |allowed| && AllHarmless(allowed, from, to) && Overlap(allowed, rangeStart, rangeEnd)
    ensures AllClear(Gaps(allowed[..n], rangeStart, rangeEnd), from, to)
    ensures ClearTo(Gaps(allowed[..n], rangeStart, rangeEnd), Cursor(allowed[..n], rangeStart), from, to)
  {
    if n > 0 {
      GapsClear(allowed, n - 1, rangeStart, rangeEnd, from, to);
      GapsStep(allowed, n - 1, rangeStart, rangeEnd);
      CursorPastRange(allowed, n - 1, rangeStart, from, to);
      OverlapAt(allowed, n - 1, rangeStart, rangeEnd);
      hide Cursor, Gaps, AllHarmless, Overlap;
      var gaps, cursor := Gaps(allowed[..n - 1], rangeStart, rangeEnd), Cursor(allowed[..n - 1], rangeStart);
      ClearAppend(gaps, GapBefore(allowed[n - 1], cursor, rangeEnd), cursor, Cursor(allowed[..n], rangeStart), from, to);
    }
  }

  lemma {:induction false} ClearAppend(gaps: seq<OffWindow>, more: seq<OffWindow>, cursor: Instant, next: Instant, from: Instant, to: Instant)
    requires AllClear(gaps, from, to) && ClearTo(gaps, cursor, from, to) && cursor <= next
    requires |more| <= 1 && (more != [] ==> more[0].offAt == cursor && Clear(more[0], next, from, to))
    ensures AllClear(gaps + more, from, to) && ClearTo(gaps + more, next, from, to)
  {
    var all := gaps + more;
    forall k | 0 <= k < |all|
      ensures Clear(all[k], next, from, to)
    {
      assert k < |gaps| ==> Clear(gaps[k], cursor, from, to);
    }
    forall k, l | 0 <= k < l < |all|
      ensures Clear(all[k], all[l].offAt, from, to)
    {
      assert k < |gaps|;
      assert l < |gaps| ==> all[l] == gaps[l];
    }
  }

  lemma {:induction false} AllGapsClear(allowed: seq<AllowedWindow>, rangeStart: Instant, rangeEnd: Instant, from: Instant, to: Instant)
    requires AllHarmless(allowed, from, to) && Overlap(allowed, rangeStart, rangeEnd) && to <= rangeEnd
    ensures AllClear(AllGaps(allowed, rangeStart, rangeEnd), from, to)
  {
    GapsClear(allowed, |allowed|, rangeStart, rangeEnd, from, to);
    assert allowed[..|allowed|] == allowed;
    hide Cursor, Gaps, AllHarmless, Overlap;
    var cursor := Cursor(allowed, rangeStart);
    ClearAppend(Gaps(allowed, rangeStart, rangeEnd), if cursor < rangeEnd then [OffWindow(cursor, rangeEnd)] else [],
                cursor, if cursor < rangeEnd then rangeEnd else cursor, from, to);
  }

  lemma {:induction false} OverlappingClear(gaps: seq<OffWindow>, from: Instant, to: Instant)
    requires NonEmpty(gaps) && AllClear(gaps, from, to)
    ensures Canonical(Filter(OffOverlapping(from, to), gaps))
  {
    var f := Filter(OffOverlapping(from, to), gaps);
    FilterMembers(OffOverlapping(from, to), gaps);
    var rel := (g: OffWindow, h: OffWindow) => Clear(g, h.offAt, from, to);
    FilterKeepsOrder(OffOverlapping(from, to), gaps, rel);
    hide Filter;
    forall i | 0 <= i < |f|
      ensures f[i].offAt < f[i].onAt && from < f[i].onAt && f[i].offAt < to
    {
      assert f[i] in f && f[i] in gaps;
    }
    forall i, j | 0 <= i < j < |f|
      ensures f[i].onAt < f[j].offAt
    {
      assert rel(f[i], f[j]);
    }
  }

  lemma {:induction false} FilterKeepsPair<T(!new)>(p: T -> bool, s: seq<T>, i: nat, j: nat) returns (k: nat, l: nat)
    requires i < j < |s| && p(s[i]) && p(s[j])
    ensures k < l < |Filter(p, s)| && Filter(p, s)[k] == s[i] && Filter(p, s)[l] == s[j]
  {
    var a, b := s[..i + 1], s[i + 1..];
    assert s == a + b && a[i] == s[i] && b[j - i - 1] == s[j];
    FilterConcat(p, a, b);
    FilterMembers(p, a);
    FilterMembers(p, b);
    hide Filter;
    assert s[i] in Filter(p, a) && s[j] in Filter(p, b);
    k :| 0 <= k < |Filter(p, a)| && Filter(p, a)[k] == s[i];
    var m :| 0 <= m < |Filter(p, b)| && Filter(p, b)[m] == s[j];
    l := |Filter(p, a)| + m;
  }

  /** A window that does harm shows as two off windows that touch or overlap. */
  lemma {:induction false} HarmShows(allowed: seq<AllowedWindow>, i: nat, rangeStart: Instant, rangeEnd: Instant, from: Instant, to: Instant)
    requires Apart(allowed) && Overlap(allowed, rangeStart, rangeEnd) && rangeStart < to
    requires i < |allowed| && !Harmless(allowed, i, from, to)
    ensures !Canonical(Filter(OffOverlapping(from, to), AllGaps(allowed, rangeStart, rangeEnd)))
  {
    CursorIs(allowed[..i + 1], rangeStart);
    var a := GapsAround(allowed, i, rangeStart, rangeEnd);
    hide Cursor, AllGaps, Filter, Apart, Overlap;
    if Cursor(allowed[..i + 1], rangeStart) != rangeStart {
      var j :| 0 <= j <= i && allowed[..i + 1][j].offAt == Cursor(allowed[..i + 1], rangeStart);
      assert allowed[j].offAt < to;
    }
    var k, l := FilterKeepsPair(OffOverlapping(from, to), AllGaps(allowed, rangeStart, rangeEnd), a.index, a.index + 1);
  }

  /**
    Main result: exactly when the off windows are canonical, in every lawful zone. A window that a clock change leaves
    ending no later than it starts spoils them unless merging absorbed it, it starts before the range, or the allowed
    windows up to it reach past the range.
  */
  lemma {:induction false} OffWindowsCanonicalExactly(zone: Zone, rules: seq<ScheduleRule>, overrides: seq<ScheduleOverride>,
                                                      from: Instant, to: Instant)
    requires zone.Lawful() && from <= to && Restricts(rules)
    ensures Canonical(OffWindows(zone, rules, overrides, from, to))
       <==> AllHarmless(AllowedWindows(zone, rules, overrides, RangeStart(zone, from), RangeEnd(zone, to)), from, to)
  {
    var rangeStart, rangeEnd := RangeStart(zone, from), RangeEnd(zone, to);
    var allowed := AllowedWindows(zone, rules, overrides, rangeStart, rangeEnd);
    RangeEnclosesRequest(zone, from, to);
    RestrictsWhenEnabled(rules);
    AllowedWindowsApart(zone, rules, overrides, rangeStart, rangeEnd);
    DayGapsOrdered(zone, rules, overrides, from, to);
    assert DayGaps(zone, rules, overrides, from, to) == AllGaps(allowed, rangeStart, rangeEnd);
    hide AllowedWindows, AllGaps, DayGaps, Filter, Canonical, Harmless, RangeStart, RangeEnd, Restricts, Apart, Overlap, NonEmpty, AllClear;
    if AllHarmless(allowed, from, to) {
      AllGapsClear(allowed, rangeStart, rangeEnd, from, to);
      OverlappingClear(AllGaps(allowed, rangeStart, rangeEnd), from, to);
    } else {
      var i :| 0 <= i < |allowed| && !Harmless(allowed, i, from, to);
      HarmShows(allowed, i, rangeStart, rangeEnd, from, to);
    }
  }

  /** Before the last filter, in every zone: canonical exactly when every allowed window ends after it starts. */
  lemma {:induction false} DayGapsCanonicalExactly(zone: Zone, rules: seq<ScheduleRule>, overrides: seq<ScheduleOverride>,
                                                   from: Instant, to: Instant)
    requires Restricts(rules)
    ensures Canonical(DayGaps(zone, rules, overrides, from, to))
       <==> Proper(AllowedWindows(zone, rules, overrides, RangeStart(zone, from), RangeEnd(zone, to)))
  {
    var rangeStart, rangeEnd := RangeStart(zone, from), RangeEnd(zone, to);
    var allowed := AllowedWindows(zone, rules, overrides, rangeStart, rangeEnd);
    RestrictsWhenEnabled(rules);
    AllowedWindowsApart(zone, rules, overrides, rangeStart, rangeEnd);
    AllowedWindowsSorted(zone, rules, overrides, rangeStart, rangeEnd);
    assert DayGaps(zone, rules, overrides, from, to) == AllGaps(allowed, rangeStart, rangeEnd);
    hide AllowedWindows, AllGaps, DayGaps, RangeStart, RangeEnd, Restricts, Overlap;
    if Proper(allowed) {
      AllGapsCanonical(allowed, rangeStart, rangeEnd);
    } else {
      var i :| 0 <= i < |allowed| && !(allowed[i].onAt < allowed[i].offAt);
      var a := GapsAround(allowed, i, rangeStart, rangeEnd);
    }
  }

  // ---------------------------------------------------------------- a clock change that spoils them

  const HOUR := 60 * MINUTE

  /** Local time is UTC until 01:00 of day 0, when clocks go forward an hour. */
  function SpringForward(): Zone {
    Zone(t => if t < HOUR then t / DAY_MS else (t + HOUR) / DAY_MS,
         d => if d <= 0 then d * DAY_MS else d * DAY_MS - HOUR,
         (d, m: LocalTime) => if d < 0 || (d == 0 && m < 2 * HOUR) then d * DAY_MS + m else d * DAY_MS + m - HOUR)
  }

  lemma {:induction false} SpringDates(t: Instant)
    ensures var z := SpringForward(); z.startOfDay(z.dateOf(t)) <= t < z.startOfDay(z.dateOf(t) + 1)
  {
    assert t / DAY_MS * DAY_MS <= t < t / DAY_MS * DAY_MS + DAY_MS;
    assert (t + HOUR) / DAY_MS * DAY_MS <= t + HOUR < (t + HOUR) / DAY_MS * DAY_MS + DAY_MS;
  }

  lemma {:induction false} SpringDays(d: LocalDate, e: LocalDate)
    requires d < e
    ensures SpringForward().startOfDay(d) < SpringForward().startOfDay(e)
  {}

  lemma {:induction false} SpringTimes(d: LocalDate, m: LocalTime)
    ensures var z := SpringForward(); z.startOfDay(d) <= z.at(d, m) <= z.startOfDay(d + 1)
  {}

  lemma {:induction false} SpringAllDates()
    ensures var z := SpringForward(); forall t :: z.startOfDay(z.dateOf(t)) <= t < z.startOfDay(z.dateOf(t) + 1)
  {
    hide SpringForward;
    var z := SpringForward();
    forall t
      ensures z.startOfDay(z.dateOf(t)) <= t < z.startOfDay(z.dateOf(t) + 1)
    {
      SpringDates(t);
    }
  }

  lemma {:induction false} SpringAllTimes()
    ensures var z := SpringForward(); forall d, m: LocalTime :: z.startOfDay(d) <= z.at(d, m) <= z.startOfDay(d + 1)
  {
    hide SpringForward;
    var z := SpringForward();
    forall d, m: LocalTime
      ensures z.startOfDay(d) <= z.at(d, m) <= z.startOfDay(d + 1)
    {
      SpringTimes(d, m);
    }
  }

  lemma {:induction false} SpringForwardLawful()
    ensures SpringForward().Lawful()
  {
    hide SpringForward;
    forall d, e | d < e
      ensures SpringForward().startOfDay(d) < SpringForward().startOfDay(e)
    {
      SpringDays(d, e);
    }
    SpringAllTimes();
    SpringAllDates();
  }

  /** Thursdays 00:00 to 02:20, 01:30 to 02:15 and 04:00 to 05:00; day 0 is a Thursday. */
  const SPRING_RULES := [ScheduleRule({3}, 0, 2 * HOUR + 20 * MINUTE, true),
                         ScheduleRule({3}, HOUR + 30 * MINUTE, 2 * HOUR + 15 * MINUTE, true),
                         ScheduleRule({3}, 4 * HOUR, 5 * HOUR, true)]

  const SPRING_WINDOWS := [AllowedWindow(0, 80 * MINUTE), AllowedWindow(90 * MINUTE, 75 * MINUTE), AllowedWindow(3 * HOUR, 4 * HOUR)]

  lemma {:induction false} SpringWindowsOn(day: LocalDate)
    requires -2 <= day <= 1
    ensures RuleWindows(SpringForward(), SPRING_RULES, day) == if day == 0 then SPRING_WINDOWS else []
    ensures OverrideWindows(SpringForward(), [], day) == []
  {
    var zone := SpringForward();
    var r := SPRING_RULES;
    assert r[..3] == r && r[..2][..1] == r[..1] && r[..1][..0] == [];
    assert WeekdayOf(day) == 3 <==> day == 0;
    assert RuleWindows(zone, r[..1], day) == if day == 0 then SPRING_WINDOWS[..1] else [];
    assert r[..2][..|r[..2]| - 1] == r[..1];
    assert RuleWindows(zone, r[..2], day) == if day == 0 then SPRING_WINDOWS[..2] else [];
    assert r[..|r| - 1] == r[..2];
  }

  lemma {:induction false} SpringExpanded(end: LocalDate)
    requires -2 <= end <= 2
    ensures Expanded(SpringForward(), SPRING_RULES, [], -2, end) == if end <= 0 then [] else SPRING_WINDOWS
    decreases end + 2
  {
    if end > -2 {
      SpringExpanded(end - 1);
      SpringWindowsOn(end - 1);
      hide RuleWindows, OverrideWindows, SpringForward;
    }
  }

  lemma {:induction false} SpringEnabled()
    ensures Filter(EnabledRule(), SPRING_RULES) == SPRING_RULES
  {
    FilterLength(EnabledRule(), SPRING_RULES);
    hide Filter;
    assert forall r :: r in SPRING_RULES ==> r.enabled;
  }

  lemma {:induction false} SpringScanned()
    ensures ScannedWindows(SpringForward(), SPRING_RULES, [], -DAY_MS, DAY_MS - HOUR) == SPRING_WINDOWS
  {
    SpringEnabled();
    SpringExpanded(2);
    assert Filter(EnabledOverride(), []) == [];
    hide Filter, Expanded;
    assert SpringForward().dateOf(-DAY_MS) == -1 && SpringForward().dateOf(DAY_MS - HOUR) == 1;
  }

  lemma {:induction false} SpringMerged()
    ensures SortBy(OnAt, SPRING_WINDOWS) == SPRING_WINDOWS && Merged(SPRING_WINDOWS) == SPRING_WINDOWS
  {
    var w := SPRING_WINDOWS;
    assert w[..1] == [w[0]] && w[..2] == [w[0], w[1]] && w[..1][..0] == [] && w[..2][..1] == w[..1] && w[..|w| - 1] == w[..2];
    assert SortBy(OnAt, w[..1]) == w[..1];
    assert SortBy(OnAt, w[..2]) == w[..2];
    assert Merged(w[..1]) == w[..1];
    assert Merged(w[..2]) == w[..2];
  }

  /** The off windows of the first hours of day 0, in minutes: up to 0, 80 to 90, 80 to 180, and from 240 on. */
  lemma {:induction false} SpringGaps()
    ensures AllGaps(SPRING_WINDOWS, -DAY_MS, DAY_MS - HOUR)
         == [OffWindow(-DAY_MS, 0), OffWindow(80 * MINUTE, 90 * MINUTE), OffWindow(80 * MINUTE, 3 * HOUR), OffWindow(4 * HOUR, DAY_MS - HOUR)]
  {
    var w := SPRING_WINDOWS;
    assert w[..1] == [w[0]] && w[..2] == [w[0], w[1]] && w[..1][..0] == [] && w[..2][..1] == w[..1] && w[..|w| - 1] == w[..2];
    assert Cursor(w[..1], -DAY_MS) == 80 * MINUTE && Cursor(w[..2], -DAY_MS) == 80 * MINUTE;
    assert Gaps(w[..1], -DAY_MS, DAY_MS - HOUR) == [OffWindow(-DAY_MS, 0)];
    assert Gaps(w[..2], -DAY_MS, DAY_MS - HOUR) == [OffWindow(-DAY_MS, 0), OffWindow(80 * MINUTE, 90 * MINUTE)];
  }

  lemma {:induction false} SpringRange(from: Instant, to: Instant)
    requires 0 <= from < 90 * MINUTE && 80 * MINUTE < to < DAY_MS - HOUR
    ensures RangeStart(SpringForward(), from) == -DAY_MS && RangeEnd(SpringForward(), to) == DAY_MS - HOUR
  {}

  lemma {:induction false} SpringAllowed()
    ensures AllowedWindows(SpringForward(), SPRING_RULES, [], -DAY_MS, DAY_MS - HOUR) == SPRING_WINDOWS
  {
    SpringScanned();
    SpringMerged();
    FilterLength(AllowedOverlapping(-DAY_MS, DAY_MS - HOUR), SPRING_WINDOWS);
    hide Filter, SortBy, Merged, ScannedWindows;
    assert forall w :: w in SPRING_WINDOWS ==> AllowedOverlapping(-DAY_MS, DAY_MS - HOUR)(w);
  }

  lemma {:induction false} SpringDayGaps(from: Instant, to: Instant)
    requires 0 <= from < 90 * MINUTE && 80 * MINUTE < to < DAY_MS - HOUR
    ensures DayGaps(SpringForward(), SPRING_RULES, [], from, to) == AllGaps(SPRING_WINDOWS, -DAY_MS, DAY_MS - HOUR)
  {
    SpringRange(from, to);
    SpringEnabled();
    SpringAllowed();
    hide AllGaps, Filter, AllowedWindows, RangeStart, RangeEnd, SpringForward;
  }

  ghost predicate TwoStartTogether(off: seq<OffWindow>) {
    exists k, l :: 0 <= k < l < |off| && off[k].offAt == off[l].offAt
  }

  lemma {:induction false} StartTogether(gaps: seq<OffWindow>, k: nat, from: Instant, to: Instant)
    requires k + 1 < |gaps| && gaps[k].offAt == gaps[k + 1].offAt < to && from < gaps[k].onAt && from < gaps[k + 1].onAt
    requires gaps[k].offAt < gaps[k].onAt
    ensures var off := Filter(OffOverlapping(from, to), gaps); TwoStartTogether(off) && !Canonical(off)
  {
    var i, j := FilterKeepsPair(OffOverlapping(from, to), gaps, k, k + 1);
    hide Filter;
  }

  lemma {:induction false} SpringGapsTogether(gaps: seq<OffWindow>, from: Instant, to: Instant)
    requires gaps == AllGaps(SPRING_WINDOWS, -DAY_MS, DAY_MS - HOUR)
    requires 0 <= from < 90 * MINUTE && 80 * MINUTE < to < DAY_MS - HOUR
    ensures TwoStartTogether(Filter(OffOverlapping(from, to), gaps)) && !Canonical(Filter(OffOverlapping(from, to), gaps))
  {
    SpringGaps();
    hide AllGaps, Filter, Canonical, TwoStartTogether;
    StartTogether(gaps, 1, from, to);
  }

  /** With a clock change, off windows can start together and overlap. */
  lemma {:induction false} ClockChangeSpoils(from: Instant, to: Instant)
    requires 0 <= from < 90 * MINUTE && 80 * MINUTE < to < DAY_MS - HOUR
    ensures TwoStartTogether(OffWindows(SpringForward(), SPRING_RULES, [], from, to))
    ensures !Canonical(OffWindows(SpringForward(), SPRING_RULES, [], from, to))
  {
    SpringDayGaps(from, to);
    hide AllGaps, Filter, DayGaps, SpringForward, Canonical, TwoStartTogether;
    SpringGapsTogether(DayGaps(SpringForward(), SPRING_RULES, [], from, to), from, to);
  }
}
