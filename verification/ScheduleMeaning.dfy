/** What the resolver's answers mean: off windows are the exact complement of the rows and overrides. */
module ScheduleMeaning {
  import opened Lists
  import opened ScheduleResolver

  // ---------------------------------------------------------------- expanding days

  ghost predicate RulesAllowOn(zone: Zone, rules: seq<ScheduleRule>, day: LocalDate, t: Instant) {
    exists rule :: rule in rules && WeekdayOf(day) in rule.days && Contains(Window(zone, day, rule.startTime, rule.endTime), t)
  }

  ghost predicate OverridesAllowOn(zone: Zone, overrides: seq<ScheduleOverride>, day: LocalDate, t: Instant) {
    exists o :: o in overrides && o.startDate <= day <= o.endDate && Contains(Window(zone, day, o.startTime, o.endTime), t)
  }

  lemma {:induction false} InAllowedConcat(a: seq<AllowedWindow>, b: seq<AllowedWindow>, t: Instant)
    ensures InAllowed(a + b, t) <==> InAllowed(a, t) || InAllowed(b, t)
  {
    if InAllowed(a, t) {
      var i :| 0 <= i < |a| && a[i].onAt <= t < a[i].offAt;
      assert (a + b)[i] == a[i];
    }
    if InAllowed(b, t) {
      var i :| 0 <= i < |b| && b[i].onAt <= t < b[i].offAt;
      assert (a + b)[|a| + i] == b[i];
    }
  }

  lemma {:induction false} InAllowedListed(w: Option<AllowedWindow>, t: Instant)
    ensures InAllowed(Listed(w), t) <==> Contains(w, t)
  {
    if Contains(w, t) {
      assert Listed(w)[0] == w.value;
    }
  }

  lemma {:induction false} RuleWindowsCover(zone: Zone, rules: seq<ScheduleRule>, day: LocalDate, t: Instant)
    ensures InAllowed(RuleWindows(zone, rules, day), t) <==> RulesAllowOn(zone, rules, day, t)
  {
    if rules != [] {
      var front, rule := rules[..|rules| - 1], rules[|rules| - 1];
      RuleWindowsCover(zone, front, day, t);
      var w := Window(zone, day, rule.startTime, rule.endTime);
      InAllowedListed(w, t);
      InAllowedConcat(RuleWindows(zone, front, day), if WeekdayOf(day) in rule.days then Listed(w) else [], t);
      assert rules == front + [rule];
    }
  }

  lemma {:induction false} OverrideWindowsCover(zone: Zone, overrides: seq<ScheduleOverride>, day: LocalDate, t: Instant)
    ensures InAllowed(OverrideWindows(zone, overrides, day), t) <==> OverridesAllowOn(zone, overrides, day, t)
  {
    if overrides != [] {
      var front, o := overrides[..|overrides| - 1], overrides[|overrides| - 1];
      OverrideWindowsCover(zone, front, day, t);
      var w := Window(zone, day, o.startTime, o.endTime);
      InAllowedListed(w, t);
      InAllowedConcat(OverrideWindows(zone, front, day), if o.startDate <= day <= o.endDate then Listed(w) else [], t);
      assert overrides == front + [o];
    }
  }

  lemma {:induction false} ExpandedCovers(zone: Zone, rules: seq<ScheduleRule>, overrides: seq<ScheduleOverride>,
                                          first: LocalDate, end: LocalDate, t: Instant)
    ensures InAllowed(Expanded(zone, rules, overrides, first, end), t)
       <==> exists day :: first <= day < end && (RulesAllowOn(zone, rules, day, t) || OverridesAllowOn(zone, overrides, day, t))
    decreases end - first
  {
    if first < end {
      var day := end - 1;
      ExpandedCovers(zone, rules, overrides, first, day, t);
      RuleWindowsCover(zone, rules, day, t);
      OverrideWindowsCover(zone, overrides, day, t);
      var earlier := Expanded(zone, rules, overrides, first, day);
      InAllowedConcat(earlier, RuleWindows(zone, rules, day), t);
      InAllowedConcat(earlier + RuleWindows(zone, rules, day), OverrideWindows(zone, overrides, day), t);
    }
  }

  // ---------------------------------------------------------------- sorting and merging

  lemma {:induction false} SortedCovers(ws: seq<AllowedWindow>, t: Instant)
    ensures InAllowed(SortBy(OnAt, ws), t) <==> InAllowed(ws, t)
  {
    SortBySorts(OnAt, ws);
    var s := SortBy(OnAt, ws);
    if InAllowed(s, t) {
      var i :| 0 <= i < |s| && s[i].onAt <= t < s[i].offAt;
      assert s[i] in ws;
    }
    if InAllowed(ws, t) {
      var i :| 0 <= i < |ws| && ws[i].onAt <= t < ws[i].offAt;
      assert ws[i] in s;
    }
  }

  lemma {:induction false} MergeIntoCovers(merged: seq<AllowedWindow>, w: AllowedWindow, t: Instant)
    requires merged != [] ==> merged[|merged| - 1].onAt <= w.onAt
    ensures InAllowed(MergeInto(merged, w), t) <==> InAllowed(merged, t) || InAllowed([w], t)
  {
    if merged != [] && w.onAt <= merged[|merged| - 1].offAt {
      var front, prev := merged[..|merged| - 1], merged[|merged| - 1];
      var both := AllowedWindow(prev.onAt, if w.offAt > prev.offAt then w.offAt else prev.offAt);
      InAllowedConcat(front, [prev], t);
      assert merged == front + [prev];
      InAllowedConcat(front, [both], t);
      InAllowedListed(Some(prev), t);
      InAllowedListed(Some(both), t);
      InAllowedListed(Some(w), t);
    } else {
      InAllowedConcat(merged, [w], t);
    }
  }

  lemma {:induction false} MergeIntoSorted(merged: seq<AllowedWindow>, w: AllowedWindow)
    requires SortedBy(OnAt, merged)
    requires merged != [] ==> merged[|merged| - 1].onAt <= w.onAt
    ensures SortedBy(OnAt, MergeInto(merged, w))
    ensures MergeInto(merged, w) != [] && MergeInto(merged, w)[|MergeInto(merged, w)| - 1].onAt <= w.onAt
  {
    var r := MergeInto(merged, w);
    if merged != [] {
      var last := merged[|merged| - 1];
      forall i | 0 <= i < |r|
        ensures OnAt(r[i]) <= OnAt(r[|r| - 1])
      {
        assert i < |merged| - 1 ==> r[i] == merged[i] && OnAt(merged[i]) <= OnAt(last);
      }
      forall i, j | 0 <= i < j < |r|
        ensures OnAt(r[i]) <= OnAt(r[j])
      {
        assert j < |r| - 1 ==> OnAt(merged[i]) <= OnAt(merged[j]);
      }
    }
  }

  /** Merging keeps the windows ordered by start, and no merged window starts after the last one read. */
  lemma {:induction false} MergedSorted(sorted: seq<AllowedWindow>)
    requires SortedBy(OnAt, sorted)
    ensures SortedBy(OnAt, Merged(sorted))
    ensures sorted != [] ==> Merged(sorted) != [] && Merged(sorted)[|Merged(sorted)| - 1].onAt <= sorted[|sorted| - 1].onAt
  {
    if sorted != [] {
      var front, w := sorted[..|sorted| - 1], sorted[|sorted| - 1];
      MergedSorted(front);
      assert front != [] ==> OnAt(front[|front| - 1]) <= OnAt(w);
      MergeIntoSorted(Merged(front), w);
    }
  }

  lemma {:induction false} MergedCovers(sorted: seq<AllowedWindow>, t: Instant)
    requires SortedBy(OnAt, sorted)
    ensures InAllowed(Merged(sorted), t) <==> InAllowed(sorted, t)
  {
    NothingInEmpty(t);
    if sorted != [] {
      hide MergeInto, InAllowed;
      var front, w := sorted[..|sorted| - 1], sorted[|sorted| - 1];
      MergedCovers(front, t);
      MergedSorted(front);
      if front != [] {
        assert OnAt(front[|front| - 1]) <= OnAt(w);
      }
      MergeIntoCovers(Merged(front), w, t);
      InAllowedConcat(front, [w], t);
      assert sorted == front + [w];
    }
  }

  lemma {:induction false} OverlappingCovers(ws: seq<AllowedWindow>, from: Instant, to: Instant, t: Instant)
    requires from <= t < to
    ensures InAllowed(Filter(AllowedOverlapping(from, to), ws), t) <==> InAllowed(ws, t)
  {
    var f := Filter(AllowedOverlapping(from, to), ws);
    FilterMembers(AllowedOverlapping(from, to), ws);
    if InAllowed(f, t) {
      var i :| 0 <= i < |f| && f[i].onAt <= t < f[i].offAt;
      assert f[i] in ws;
    }
    if InAllowed(ws, t) {
      var i :| 0 <= i < |ws| && ws[i].onAt <= t < ws[i].offAt;
      assert ws[i] in f;
    }
  }

  // ---------------------------------------------------------------- the days that are not scanned

  lemma {:induction false} EnabledRowsDecide(zone: Zone, rules: seq<ScheduleRule>, overrides: seq<ScheduleOverride>, day: LocalDate, t: Instant)
    ensures AllowedOn(zone, rules, overrides, day, t)
         <==> (RulesAllowOn(zone, Filter(EnabledRule(), rules), day, t)
               || OverridesAllowOn(zone, Filter(EnabledOverride(), overrides), day, t))
  {
    FilterMembers(EnabledRule(), rules);
    FilterMembers(EnabledOverride(), overrides);
    forall rule | rule in rules
      ensures RuleAllows(zone, rule, day, t) <==> (rule in Filter(EnabledRule(), rules) && WeekdayOf(day) in rule.days
                && Contains(Window(zone, day, rule.startTime, rule.endTime), t))
    {}
    forall o | o in overrides
      ensures OverrideAllows(zone, o, day, t) <==> (o in Filter(EnabledOverride(), overrides) && o.startDate <= day <= o.endDate
                && Contains(Window(zone, day, o.startTime, o.endTime), t))
    {}
  }

  /** A window that contains `t` belongs to a date next to `t`'s own. */
  lemma {:induction false} WindowNearItsDay(zone: Zone, day: LocalDate, start: LocalTime, end: LocalTime, t: Instant)
    requires zone.Lawful()
    requires Contains(Window(zone, day, start, end), t)
    ensures zone.startOfDay(day) <= t < zone.startOfDay(day + 2)
  {
    assert zone.startOfDay(day) <= zone.at(day, start);
    assert zone.at(day, end) <= zone.startOfDay(day + 1) < zone.startOfDay(day + 2);
    assert zone.at(day + 1, MIDNIGHT) <= zone.startOfDay(day + 1 + 1);
  }

  /** No date outside the scanned ones can allow an instant of the range. */
  lemma {:induction false} ScannedDaysSuffice(zone: Zone, rules: seq<ScheduleRule>, overrides: seq<ScheduleOverride>,
                           from: Instant, to: Instant, day: LocalDate, t: Instant)
    requires zone.Lawful() && zone.startOfDay(zone.dateOf(from)) <= t < to
    requires RulesAllowOn(zone, rules, day, t) || OverridesAllowOn(zone, overrides, day, t)
    ensures zone.dateOf(from) - 1 <= day < zone.dateOf(to) + 1
  {
    if RulesAllowOn(zone, rules, day, t) {
      var rule :| rule in rules && Contains(Window(zone, day, rule.startTime, rule.endTime), t);
      WindowNearItsDay(zone, day, rule.startTime, rule.endTime, t);
    } else {
      var o :| o in overrides && Contains(Window(zone, day, o.startTime, o.endTime), t);
      WindowNearItsDay(zone, day, o.startTime, o.endTime, t);
    }
    assert t < zone.startOfDay(zone.dateOf(to) + 1);
    var d := zone.dateOf(from);
    assert day + 2 <= d ==> zone.startOfDay(day + 2) <= zone.startOfDay(d);
  }

  lemma {:induction false} MergeOfSortedCovers(ws: seq<AllowedWindow>, from: Instant, to: Instant, t: Instant)
    requires from <= t < to
    ensures InAllowed(MergedOverlapping(ws, from, to), t) <==> InAllowed(ws, t)
  {
    var sorted := SortBy(OnAt, ws);
    SortBySorts(OnAt, ws);
    SortedCovers(ws, t);
    MergedCovers(sorted, t);
    OverlappingCovers(Merged(sorted), from, to, t);
  }

  lemma {:induction false} ScannedDaysExact(zone: Zone, rules: seq<ScheduleRule>, overrides: seq<ScheduleOverride>,
                         from: Instant, to: Instant, t: Instant)
    requires zone.Lawful() && zone.startOfDay(zone.dateOf(from)) <= t < to
    ensures InAllowed(ScannedWindows(zone, rules, overrides, from, to), t) <==> Allowed(zone, rules, overrides, t)
  {
    hide Filter, Expanded, InAllowed, RulesAllowOn, OverridesAllowOn, AllowedOn;
    var rs, os := Filter(EnabledRule(), rules), Filter(EnabledOverride(), overrides);
    var first, end := zone.dateOf(from) - 1, zone.dateOf(to) + 1;
    ExpandedCovers(zone, rs, os, first, end, t);
    forall day
      ensures AllowedOn(zone, rules, overrides, day, t)
           <==> (first <= day < end && (RulesAllowOn(zone, rs, day, t) || OverridesAllowOn(zone, os, day, t)))
    {
      EnabledRowsDecide(zone, rules, overrides, day, t);
      if RulesAllowOn(zone, rs, day, t) || OverridesAllowOn(zone, os, day, t) {
        ScannedDaysSuffice(zone, rs, os, from, to, day, t);
      }
    }
  }

  lemma {:induction false} AllowedWindowsExact(zone: Zone, rules: seq<ScheduleRule>, overrides: seq<ScheduleOverride>,
                            from: Instant, to: Instant, t: Instant)
    requires zone.Lawful() && from <= t < to
    ensures InAllowed(AllowedWindows(zone, rules, overrides, from, to), t) <==> Allowed(zone, rules, overrides, t)
  {
    MergeOfSortedCovers(ScannedWindows(zone, rules, overrides, from, to), from, to, t);
    ScannedDaysExact(zone, rules, overrides, from, to, t);
  }

  // ---------------------------------------------------------------- gaps

  lemma {:induction false} InOffConcat(a: seq<OffWindow>, b: seq<OffWindow>, t: Instant)
    ensures InOff(a + b, t) <==> InOff(a, t) || InOff(b, t)
  {
    if InOff(a, t) {
      var i :| 0 <= i < |a| && a[i].offAt <= t < a[i].onAt;
      assert (a + b)[i] == a[i];
    }
    if InOff(b, t) {
      var i :| 0 <= i < |b| && b[i].offAt <= t < b[i].onAt;
      assert (a + b)[|a| + i] == b[i];
    }
  }

  lemma {:induction false} CursorReaches(allowed: seq<AllowedWindow>, rangeStart: Instant, t: Instant)
    ensures rangeStart <= Cursor(allowed, rangeStart)
    ensures InAllowed(allowed, t) ==> t < Cursor(allowed, rangeStart)
  {
    if allowed != [] {
      var front, w := allowed[..|allowed| - 1], allowed[|allowed| - 1];
      CursorReaches(front, rangeStart, t);
      InAllowedConcat(front, [w], t);
      InAllowedListed(Some(w), t);
      assert allowed == front + [w];
    }
  }

  lemma {:induction false} InOffSingle(w: OffWindow, t: Instant)
    ensures InOff([w], t) <==> w.offAt <= t < w.onAt
  {
    if w.offAt <= t < w.onAt {
      assert [w][0] == w;
    }
  }

  lemma {:induction false} NothingInEmpty(t: Instant)
    ensures !InOff([], t) && !InAllowed([], t)
  {}

  /**
    The gaps contain what lies before the cursor and in no window. They may reach past the cursor when a window
    ends before it starts, but never past the start of the last window read, so no later window meets them.
  */
  lemma {:induction false} GapsCover(allowed: seq<AllowedWindow>, rangeStart: Instant, rangeEnd: Instant, t: Instant)
    requires SortedBy(OnAt, allowed)
    requires forall i :: 0 <= i < |allowed| ==> allowed[i].onAt < rangeEnd
    ensures rangeStart <= t < Cursor(allowed, rangeStart) && !InAllowed(allowed, t) ==> InOff(Gaps(allowed, rangeStart, rangeEnd), t)
    ensures InOff(Gaps(allowed, rangeStart, rangeEnd), t)
        ==> !InAllowed(allowed, t) && allowed != [] && t < allowed[|allowed| - 1].onAt
  {
    hide InAllowed, InOff;
    if allowed == [] {
      NothingInEmpty(t);
    } else {
      var front, w := allowed[..|allowed| - 1], allowed[|allowed| - 1];
      GapsCover(front, rangeStart, rangeEnd, t);
      CursorReaches(front, rangeStart, t);
      var c := Cursor(front, rangeStart);
      InOffConcat(Gaps(front, rangeStart, rangeEnd), GapBefore(w, c, rangeEnd), t);
      InOffSingle(OffWindow(c, w.onAt), t);
      NothingInEmpty(t);
      InAllowedConcat(front, [w], t);
      InAllowedListed(Some(w), t);
      assert allowed == front + [w];
      if front != [] {
        assert OnAt(front[|front| - 1]) <= OnAt(w);
      }
    }
  }

  lemma {:induction false} AllGapsExact(allowed: seq<AllowedWindow>, rangeStart: Instant, rangeEnd: Instant, t: Instant)
    requires SortedBy(OnAt, allowed)
    requires forall i :: 0 <= i < |allowed| ==> allowed[i].onAt < rangeEnd
    requires rangeStart <= t < rangeEnd
    ensures InOff(AllGaps(allowed, rangeStart, rangeEnd), t) <==> !InAllowed(allowed, t)
  {
    var c := Cursor(allowed, rangeStart);
    GapsCover(allowed, rangeStart, rangeEnd, t);
    CursorReaches(allowed, rangeStart, t);
    InOffConcat(Gaps(allowed, rangeStart, rangeEnd), if c < rangeEnd then [OffWindow(c, rangeEnd)] else [], t);
    InOffSingle(OffWindow(c, rangeEnd), t);
  }

  /** The allowed windows of any two instants are ordered by start and overlap the range asked for. */
  lemma {:induction false} AllowedWindowsSorted(zone: Zone, rules: seq<ScheduleRule>, overrides: seq<ScheduleOverride>, from: Instant, to: Instant)
    ensures SortedBy(OnAt, AllowedWindows(zone, rules, overrides, from, to))
    ensures forall w :: w in AllowedWindows(zone, rules, overrides, from, to) ==> from < w.offAt && w.onAt < to
  {
    var ws := ScannedWindows(zone, rules, overrides, from, to);
    SortBySorts(OnAt, ws);
    MergedSorted(SortBy(OnAt, ws));
    var merged := Merged(SortBy(OnAt, ws));
    var rel := (a: AllowedWindow, b: AllowedWindow) => OnAt(a) <= OnAt(b);
    assert forall i, j :: 0 <= i < j < |merged| ==> rel(merged[i], merged[j]);
    FilterKeepsOrder(AllowedOverlapping(from, to), merged, rel);
    FilterMembers(AllowedOverlapping(from, to), merged);
    var f := Filter(AllowedOverlapping(from, to), merged);
    forall i, j | 0 <= i < j < |f|
      ensures OnAt(f[i]) <= OnAt(f[j])
    {
      assert rel(f[i], f[j]);
    }
  }

  lemma {:induction false} StartOfDayIsItsDate(zone: Zone, day: LocalDate)
    requires zone.Lawful()
    ensures zone.dateOf(zone.startOfDay(day)) == day
  {
    var t := zone.startOfDay(day);
    var d := zone.dateOf(t);
    assert zone.startOfDay(d) <= t < zone.startOfDay(d + 1);
  }

  lemma {:induction false} RestrictsWhenEnabled(rules: seq<ScheduleRule>)
    ensures Restricts(rules) <==> Filter(EnabledRule(), rules) != []
  {
    FilterMembers(EnabledRule(), rules);
    var f := Filter(EnabledRule(), rules);
    if f != [] {
      assert f[0] in f;
    }
  }

  /** Before the final filter: exact on the whole of the days around the range. */
  lemma {:induction false} DayGapsExact(zone: Zone, rules: seq<ScheduleRule>, overrides: seq<ScheduleOverride>,
                                        from: Instant, to: Instant, t: Instant)
    requires zone.Lawful()
    requires RangeStart(zone, from) <= t < RangeEnd(zone, to)
    ensures InOff(DayGaps(zone, rules, overrides, from, to), t) <==> ScheduleOff(zone, rules, overrides, t)
  {
    RestrictsWhenEnabled(rules);
    if Restricts(rules) {
      var rangeStart, rangeEnd := RangeStart(zone, from), RangeEnd(zone, to);
      StartOfDayIsItsDate(zone, zone.dateOf(from) - 1);
      AllowedWindowsSorted(zone, rules, overrides, rangeStart, rangeEnd);
      AllowedWindowsExact(zone, rules, overrides, rangeStart, rangeEnd, t);
      AllGapsExact(AllowedWindows(zone, rules, overrides, rangeStart, rangeEnd), rangeStart, rangeEnd, t);
    }
  }

  lemma {:induction false} OffOverlappingCovers(ws: seq<OffWindow>, from: Instant, to: Instant, t: Instant)
    requires from <= t < to
    ensures InOff(Filter(OffOverlapping(from, to), ws), t) <==> InOff(ws, t)
  {
    var f := Filter(OffOverlapping(from, to), ws);
    FilterMembers(OffOverlapping(from, to), ws);
    if InOff(f, t) {
      var i :| 0 <= i < |f| && f[i].offAt <= t < f[i].onAt;
      assert f[i] in ws;
    }
    if InOff(ws, t) {
      var i :| 0 <= i < |ws| && ws[i].offAt <= t < ws[i].onAt;
      assert ws[i] in f;
    }
  }

  lemma {:induction false} RangeEnclosesRequest(zone: Zone, from: Instant, to: Instant)
    requires zone.Lawful()
    ensures RangeStart(zone, from) < from && to < RangeEnd(zone, to)
  {
    assert zone.startOfDay(zone.dateOf(from)) <= from;
    assert to < zone.startOfDay(zone.dateOf(to) + 1);
  }

  /**
    Main result: off windows are the exact complement. Within the range asked for, an instant is in a returned
    off window exactly when the schedule has an enabled row and no row or override window of any date contains it.
  */
  lemma {:induction false} OffWindowsExact(zone: Zone, rules: seq<ScheduleRule>, overrides: seq<ScheduleOverride>,
                                           from: Instant, to: Instant, t: Instant)
    requires zone.Lawful()
    requires from <= t < to
    ensures InOff(OffWindows(zone, rules, overrides, from, to), t) <==> ScheduleOff(zone, rules, overrides, t)
  {
    RangeEnclosesRequest(zone, from, to);
    DayGapsExact(zone, rules, overrides, from, to, t);
    OffOverlappingCovers(DayGaps(zone, rules, overrides, from, to), from, to, t);
  }

  /** With every row disabled nothing is off, whatever the overrides say. */
  lemma {:induction false} NoEnabledRowNothingOff(zone: Zone, rules: seq<ScheduleRule>, overrides: seq<ScheduleOverride>, from: Instant, to: Instant)
    ensures !Restricts(rules) ==> OffWindows(zone, rules, overrides, from, to) == []
  {
    RestrictsWhenEnabled(rules);
  }

  lemma {:induction false} MoreOverridesAllowMore(zone: Zone, rules: seq<ScheduleRule>, overrides: seq<ScheduleOverride>,
                                                  extra: ScheduleOverride, t: Instant)
    ensures Allowed(zone, rules, overrides, t) ==> Allowed(zone, rules, overrides + [extra], t)
  {
    if day :| AllowedOn(zone, rules, overrides, day, t) {
      assert forall o :: o in overrides ==> o in overrides + [extra];
      assert AllowedOn(zone, rules, overrides + [extra], day, t);
    }
  }

  /** An added override never adds off time. */
  lemma {:induction false} OverrideNeverAddsOffTime(zone: Zone, rules: seq<ScheduleRule>, overrides: seq<ScheduleOverride>, extra: ScheduleOverride,
                                 from: Instant, to: Instant, t: Instant)
    requires zone.Lawful()
    requires from <= t < to
    requires InOff(OffWindows(zone, rules, overrides + [extra], from, to), t)
    ensures InOff(OffWindows(zone, rules, overrides, from, to), t)
  {
    OffWindowsExact(zone, rules, overrides + [extra], from, to, t);
    OffWindowsExact(zone, rules, overrides, from, to, t);
    MoreOverridesAllowMore(zone, rules, overrides, extra, t);
  }
}
