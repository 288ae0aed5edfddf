/** The shape of the resolver's answers: canonical when no window is turned inside out, and stable while time passes. */
module ScheduleCanonical {
  import opened Lists
  import opened ScheduleResolver
  import opened ScheduleMeaning

  ghost predicate Proper(ws: seq<AllowedWindow>) {
    forall i :: 0 <= i < |ws| ==> ws[i].onAt < ws[i].offAt
  }

  /** Each window ends before the next one starts. */
  ghost predicate Separated(ws: seq<AllowedWindow>) {
    Proper(ws) && forall i, j :: 0 <= i < j < |ws| ==> ws[i].offAt < ws[j].onAt
  }

  ghost predicate NonEmpty(ws: seq<OffWindow>) {
    forall i :: 0 <= i < |ws| ==> ws[i].offAt < ws[i].onAt
  }

  /** Non-empty, in order, and with allowed time between any two. */
  ghost predicate Canonical(ws: seq<OffWindow>) {
    NonEmpty(ws) && forall i, j :: 0 <= i < j < |ws| ==> ws[i].onAt < ws[j].offAt
  }

  ghost predicate StartsInOrder(ws: seq<OffWindow>) {
    forall i, j :: 0 <= i < j < |ws| ==> ws[i].offAt <= ws[j].offAt
  }

  lemma {:induction false} MergeIntoSeparated(merged: seq<AllowedWindow>, w: AllowedWindow)
    requires Separated(merged) && w.onAt < w.offAt
    requires merged != [] ==> merged[|merged| - 1].onAt <= w.onAt
    ensures Separated(MergeInto(merged, w))
  {
    var r := MergeInto(merged, w);
    if merged != [] {
      var last := merged[|merged| - 1];
      assert forall i :: 0 <= i < |merged| - 1 ==> merged[i].offAt < last.onAt;
      forall i, j | 0 <= i < j < |r|
        ensures r[i].offAt < r[j].onAt
      {
        assert i < |merged| - 1 ==> r[i] == merged[i];
        assert j < |merged| - 1 ==> r[j] == merged[j];
      }
    }
  }

  lemma {:induction false} MergedSeparated(sorted: seq<AllowedWindow>)
    requires SortedBy(OnAt, sorted) && Proper(sorted)
    ensures Separated(Merged(sorted))
  {
    if sorted != [] {
      var front, w := sorted[..|sorted| - 1], sorted[|sorted| - 1];
      MergedSeparated(front);
      MergedSorted(front);
      assert front != [] ==> OnAt(front[|front| - 1]) <= OnAt(w);
      MergeIntoSeparated(Merged(front), w);
    }
  }

  lemma {:induction false} CursorOfSeparated(allowed: seq<AllowedWindow>, rangeStart: Instant)
    requires Separated(allowed)
    requires forall w :: w in allowed ==> rangeStart < w.offAt
    ensures Cursor(allowed, rangeStart) == if allowed == [] then rangeStart else allowed[|allowed| - 1].offAt
  {
    if allowed != [] {
      CursorOfSeparated(allowed[..|allowed| - 1], rangeStart);
      assert allowed[|allowed| - 1] in allowed;
    }
  }

  lemma {:induction false} GapsCanonical(allowed: seq<AllowedWindow>, rangeStart: Instant, rangeEnd: Instant)
    requires Separated(allowed)
    requires forall w :: w in allowed ==> rangeStart < w.offAt && w.onAt < rangeEnd
    ensures Canonical(Gaps(allowed, rangeStart, rangeEnd))
    ensures forall g :: g in Gaps(allowed, rangeStart, rangeEnd) ==> allowed != [] && g.onAt <= allowed[|allowed| - 1].onAt
  {
    if allowed != [] {
      var front, w := allowed[..|allowed| - 1], allowed[|allowed| - 1];
      GapsCanonical(front, rangeStart, rangeEnd);
      CursorOfSeparated(front, rangeStart);
      assert w in allowed;
      var gs := Gaps(front, rangeStart, rangeEnd);
      hide Gaps, Cursor, Canonical;
      assert Gaps(allowed, rangeStart, rangeEnd) == gs + GapBefore(w, Cursor(front, rangeStart), rangeEnd) by {
        GapsOfFront(allowed, rangeStart, rangeEnd);
      }
      forall i | 0 <= i < |gs|
        ensures front != [] && gs[i].onAt < Cursor(front, rangeStart)
      {
        assert gs[i] in gs;
      }
      CanonicalAppend(gs, GapBefore(w, Cursor(front, rangeStart), rangeEnd));
    }
  }

  lemma {:induction false} GapsOfFront(allowed: seq<AllowedWindow>, rangeStart: Instant, rangeEnd: Instant)
    requires allowed != []
    ensures Gaps(allowed, rangeStart, rangeEnd)
         == Gaps(allowed[..|allowed| - 1], rangeStart, rangeEnd)
            + GapBefore(allowed[|allowed| - 1], Cursor(allowed[..|allowed| - 1], rangeStart), rangeEnd)
  {
    hide Cursor, GapBefore;
  }

  lemma {:induction false} CanonicalAppend(ws: seq<OffWindow>, more: seq<OffWindow>)
    requires Canonical(ws) && |more| <= 1
    requires more != [] ==> more[0].offAt < more[0].onAt && forall i :: 0 <= i < |ws| ==> ws[i].onAt < more[0].offAt
    ensures Canonical(ws + more)
  {}

  /** In every zone the off windows are non-empty and start in order. */
  lemma {:induction false} GapsOrdered(allowed: seq<AllowedWindow>, rangeStart: Instant, rangeEnd: Instant)
    requires forall w :: w in allowed ==> w.onAt < rangeEnd
    ensures NonEmpty(Gaps(allowed, rangeStart, rangeEnd)) && StartsInOrder(Gaps(allowed, rangeStart, rangeEnd))
    ensures forall i :: 0 <= i < |Gaps(allowed, rangeStart, rangeEnd)|
                    ==> Gaps(allowed, rangeStart, rangeEnd)[i].offAt <= Cursor(allowed, rangeStart)
                        && Gaps(allowed, rangeStart, rangeEnd)[i].onAt <= rangeEnd
  {
    if allowed != [] {
      GapsOrdered(allowed[..|allowed| - 1], rangeStart, rangeEnd);
      assert allowed[|allowed| - 1] in allowed;
    }
  }

  lemma {:induction false} AllGapsOrdered(allowed: seq<AllowedWindow>, rangeStart: Instant, rangeEnd: Instant)
    requires forall w :: w in allowed ==> w.onAt < rangeEnd
    ensures NonEmpty(AllGaps(allowed, rangeStart, rangeEnd)) && StartsInOrder(AllGaps(allowed, rangeStart, rangeEnd))
    ensures forall g :: g in AllGaps(allowed, rangeStart, rangeEnd) ==> g.onAt <= rangeEnd
  {
    GapsOrdered(allowed, rangeStart, rangeEnd);
  }

  lemma {:induction false} DayGapsOrdered(zone: Zone, rules: seq<ScheduleRule>, overrides: seq<ScheduleOverride>, from: Instant, to: Instant)
    ensures NonEmpty(DayGaps(zone, rules, overrides, from, to)) && StartsInOrder(DayGaps(zone, rules, overrides, from, to))
    ensures forall g :: g in DayGaps(zone, rules, overrides, from, to) ==> g.onAt <= RangeEnd(zone, to)
  {
    var rangeStart, rangeEnd := RangeStart(zone, from), RangeEnd(zone, to);
    AllowedWindowsSorted(zone, rules, overrides, rangeStart, rangeEnd);
    AllGapsOrdered(AllowedWindows(zone, rules, overrides, rangeStart, rangeEnd), rangeStart, rangeEnd);
  }

  lemma {:induction false} OffWindowsOrdered(zone: Zone, rules: seq<ScheduleRule>, overrides: seq<ScheduleOverride>, from: Instant, to: Instant)
    ensures NonEmpty(OffWindows(zone, rules, overrides, from, to))
    ensures StartsInOrder(OffWindows(zone, rules, overrides, from, to))
    ensures forall w :: w in OffWindows(zone, rules, overrides, from, to)
                    ==> from < w.onAt <= RangeEnd(zone, to) && w.offAt < to && w in DayGaps(zone, rules, overrides, from, to)
  {
    DayGapsOrdered(zone, rules, overrides, from, to);
    FilteredOffOrdered(DayGaps(zone, rules, overrides, from, to), from, to);
  }

  lemma {:induction false} FilteredOffOrdered(gaps: seq<OffWindow>, from: Instant, to: Instant)
    requires NonEmpty(gaps) && StartsInOrder(gaps)
    ensures NonEmpty(Filter(OffOverlapping(from, to), gaps)) && StartsInOrder(Filter(OffOverlapping(from, to), gaps))
    ensures forall w :: w in Filter(OffOverlapping(from, to), gaps) ==> w in gaps && from < w.onAt && w.offAt < to
  {
    var f := Filter(OffOverlapping(from, to), gaps);
    FilterMembers(OffOverlapping(from, to), gaps);
    var rel := (a: OffWindow, b: OffWindow) => a.offAt <= b.offAt;
    FilterKeepsOrder(OffOverlapping(from, to), gaps, rel);
    forall i, j | 0 <= i < j < |f|
      ensures f[i].offAt <= f[j].offAt
    {
      assert rel(f[i], f[j]);
    }
    forall i | 0 <= i < |f|
      ensures f[i].offAt < f[i].onAt
    {
      assert f[i] in gaps;
    }
  }

  lemma {:induction false} FilteredOffCanonical(gaps: seq<OffWindow>, from: Instant, to: Instant)
    requires Canonical(gaps)
    ensures Canonical(Filter(OffOverlapping(from, to), gaps))
  {
    var f := Filter(OffOverlapping(from, to), gaps);
    FilterMembers(OffOverlapping(from, to), gaps);
    var rel := (a: OffWindow, b: OffWindow) => a.onAt < b.offAt;
    FilterKeepsOrder(OffOverlapping(from, to), gaps, rel);
    forall i, j | 0 <= i < j < |f|
      ensures f[i].onAt < f[j].offAt
    {
      assert rel(f[i], f[j]);
    }
    forall i | 0 <= i < |f|
      ensures f[i].offAt < f[i].onAt
    {
      assert f[i] in gaps;
    }
  }

  lemma {:induction false} AllowedWindowsSeparated(zone: Zone, rules: seq<ScheduleRule>, overrides: seq<ScheduleOverride>, from: Instant, to: Instant)
    requires Proper(ScannedWindows(zone, rules, overrides, from, to))
    ensures Separated(AllowedWindows(zone, rules, overrides, from, to))
  {
    var ws := ScannedWindows(zone, rules, overrides, from, to);
    var sorted := SortBy(OnAt, ws);
    SortBySorts(OnAt, ws);
    forall i | 0 <= i < |sorted|
      ensures sorted[i].onAt < sorted[i].offAt
    {
      assert sorted[i] in ws;
    }
    MergedSeparated(sorted);
    FilteredAllowedSeparated(Merged(sorted), from, to);
  }

  lemma {:induction false} FilteredAllowedSeparated(ws: seq<AllowedWindow>, from: Instant, to: Instant)
    requires Separated(ws)
    ensures Separated(Filter(AllowedOverlapping(from, to), ws))
  {
    var f := Filter(AllowedOverlapping(from, to), ws);
    FilterMembers(AllowedOverlapping(from, to), ws);
    var rel := (a: AllowedWindow, b: AllowedWindow) => a.offAt < b.onAt;
    FilterKeepsOrder(AllowedOverlapping(from, to), ws, rel);
    forall i, j | 0 <= i < j < |f|
      ensures f[i].offAt < f[j].onAt
    {
      assert rel(f[i], f[j]);
    }
    forall i | 0 <= i < |f|
      ensures f[i].onAt < f[i].offAt
    {
      assert f[i] in ws;
    }
  }

  lemma {:induction false} AllGapsCanonical(allowed: seq<AllowedWindow>, rangeStart: Instant, rangeEnd: Instant)
    requires Separated(allowed)
    requires forall w :: w in allowed ==> rangeStart < w.offAt && w.onAt < rangeEnd
    ensures Canonical(AllGaps(allowed, rangeStart, rangeEnd))
  {
    GapsCanonical(allowed, rangeStart, rangeEnd);
    CursorOfSeparated(allowed, rangeStart);
    if allowed != [] {
      LastIsProper(allowed);
    }
    hide Gaps, Cursor, Separated, Canonical;
    var gs, cursor := Gaps(allowed, rangeStart, rangeEnd), Cursor(allowed, rangeStart);
    forall i | 0 <= i < |gs|
      ensures gs[i].onAt < cursor
    {
      assert gs[i] in gs;
    }
    CanonicalAppend(gs, if cursor < rangeEnd then [OffWindow(cursor, rangeEnd)] else []);
  }

  lemma {:induction false} LastIsProper(allowed: seq<AllowedWindow>)
    requires Separated(allowed) && allowed != []
    ensures allowed[|allowed| - 1].onAt < allowed[|allowed| - 1].offAt
  {}

  /** When every window of the scanned days ends after it starts, the answer is canonical. */
  lemma {:induction false} OffWindowsCanonical(zone: Zone, rules: seq<ScheduleRule>, overrides: seq<ScheduleOverride>, from: Instant, to: Instant)
    requires Proper(ScannedWindows(zone, rules, overrides, RangeStart(zone, from), RangeEnd(zone, to)))
    ensures Canonical(DayGaps(zone, rules, overrides, from, to)) && Canonical(OffWindows(zone, rules, overrides, from, to))
  {
    var rangeStart, rangeEnd := RangeStart(zone, from), RangeEnd(zone, to);
    AllowedWindowsSeparated(zone, rules, overrides, rangeStart, rangeEnd);
    AllowedWindowsSorted(zone, rules, overrides, rangeStart, rangeEnd);
    AllGapsCanonical(AllowedWindows(zone, rules, overrides, rangeStart, rangeEnd), rangeStart, rangeEnd);
    FilteredOffCanonical(DayGaps(zone, rules, overrides, from, to), from, to);
  }

  // ---------------------------------------------------------------- passing time

  function EndingAfter(t: Instant): OffWindow -> bool {
    (w: OffWindow) => w.onAt > t
  }

  /**
    As the start of the range moves within one local date, the answer only loses the windows that have ended:
    it does not move, split or rename any other window.
  */
  lemma {:induction false} OnlyEndedWindowsDrop(zone: Zone, rules: seq<ScheduleRule>, overrides: seq<ScheduleOverride>,
                             from: Instant, later: Instant, to: Instant)
    requires from <= later && zone.dateOf(from) == zone.dateOf(later)
    ensures OffWindows(zone, rules, overrides, later, to) == Filter(EndingAfter(later), OffWindows(zone, rules, overrides, from, to))
  {
    SameDatesSameGaps(zone, rules, overrides, from, to, later, to);
    FilterTwice(OffOverlapping(from, to), EndingAfter(later), OffOverlapping(later, to), DayGaps(zone, rules, overrides, from, to));
  }

  lemma {:induction false} SameDatesSameGaps(zone: Zone, rules: seq<ScheduleRule>, overrides: seq<ScheduleOverride>,
                          from: Instant, to: Instant, from': Instant, to': Instant)
    requires zone.dateOf(from) == zone.dateOf(from') && zone.dateOf(to) == zone.dateOf(to')
    ensures DayGaps(zone, rules, overrides, from, to) == DayGaps(zone, rules, overrides, from', to')
  {
    assert RangeStart(zone, from) == RangeStart(zone, from');
    assert RangeEnd(zone, to) == RangeEnd(zone, to');
  }

  /** As both ends move within their local dates, the answers differ only by windows outside one of the ranges. */
  lemma {:induction false} SameDatesSameWindows(zone: Zone, rules: seq<ScheduleRule>, overrides: seq<ScheduleOverride>,
                             from: Instant, to: Instant, from': Instant, to': Instant)
    requires zone.dateOf(from) == zone.dateOf(from') && zone.dateOf(to) == zone.dateOf(to')
    ensures Filter(OffOverlapping(from', to'), OffWindows(zone, rules, overrides, from, to))
         == Filter(OffOverlapping(from, to), OffWindows(zone, rules, overrides, from', to'))
  {
    SameDatesSameGaps(zone, rules, overrides, from, to, from', to');
    FilterCommutes(OffOverlapping(from, to), OffOverlapping(from', to'), DayGaps(zone, rules, overrides, from, to));
  }

  // ---------------------------------------------------------------- fixed-offset zones meet the hypotheses

  lemma {:induction false} FixedOffsetLawful(offset: int)
    ensures FixedOffset(offset).Lawful()
  {
    var z := FixedOffset(offset);
    forall t
      ensures z.startOfDay(z.dateOf(t)) <= t < z.startOfDay(z.dateOf(t) + 1)
    {
      assert (t + offset) / DAY_MS * DAY_MS <= t + offset < (t + offset) / DAY_MS * DAY_MS + DAY_MS;
    }
  }

  lemma {:induction false} FixedOffsetRuleWindowsProper(offset: int, rules: seq<ScheduleRule>, day: LocalDate)
    ensures Proper(RuleWindows(FixedOffset(offset), rules, day))
  {
    if rules != [] {
      FixedOffsetRuleWindowsProper(offset, rules[..|rules| - 1], day);
    }
  }

  lemma {:induction false} FixedOffsetOverrideWindowsProper(offset: int, overrides: seq<ScheduleOverride>, day: LocalDate)
    ensures Proper(OverrideWindows(FixedOffset(offset), overrides, day))
  {
    if overrides != [] {
      FixedOffsetOverrideWindowsProper(offset, overrides[..|overrides| - 1], day);
    }
  }

  lemma {:induction false} FixedOffsetExpandedProper(offset: int, rules: seq<ScheduleRule>, overrides: seq<ScheduleOverride>,
                                                     first: LocalDate, end: LocalDate)
    ensures Proper(Expanded(FixedOffset(offset), rules, overrides, first, end))
    decreases end - first
  {
    if first < end {
      FixedOffsetExpandedProper(offset, rules, overrides, first, end - 1);
      FixedOffsetRuleWindowsProper(offset, rules, end - 1);
      FixedOffsetOverrideWindowsProper(offset, overrides, end - 1);
    }
  }

  /** Without clock changes the answer is always canonical. */
  lemma {:induction false} FixedOffsetCanonical(offset: int, rules: seq<ScheduleRule>, overrides: seq<ScheduleOverride>, from: Instant, to: Instant)
    ensures Canonical(DayGaps(FixedOffset(offset), rules, overrides, from, to))
    ensures Canonical(OffWindows(FixedOffset(offset), rules, overrides, from, to))
  {
    var zone := FixedOffset(offset);
    FixedOffsetExpandedProper(offset, Filter(EnabledRule(), rules), Filter(EnabledOverride(), overrides),
                              zone.dateOf(RangeStart(zone, from)) - 1, zone.dateOf(RangeEnd(zone, to)) + 1);
    OffWindowsCanonical(zone, rules, overrides, from, to);
  }
}
