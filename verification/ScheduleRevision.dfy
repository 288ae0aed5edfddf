/** The revision of a schedule as time passes within one UTC day. */
module ScheduleRevision {
  import opened Lists
  import opened ScheduleResolver
  import opened ScheduleMeaning
  import opened ScheduleCanonical
  import opened ScheduleGaps
  import opened ScheduleCut
  import opened DeviceService
  import opened DeviceProperties

  // ---------------------------------------------------------------- delaying, filtering and extending commute

  lemma {:induction false} DelayingKeepsEnds(ws: seq<OffWindow>, until: Instant, t: Instant)
    ensures Filter(EndingAfter(t), DelayAll(ws, until)) == DelayAll(Filter(EndingAfter(t), ws), until)
  {
    if ws != [] {
      var front := ws[..|ws| - 1];
      DelayingKeepsEnds(front, until, t);
      var f := Filter(EndingAfter(t), front);
      assert (f + [ws[|ws| - 1]])[..|f|] == f;
    }
  }

  lemma {:induction false} ExtensionThenLater(ws: seq<OffWindow>, until: Option<Instant>, t: Instant)
    ensures ApplyExtension(Filter(EndingAfter(t), ws), until) == Filter(EndingAfter(t), ApplyExtension(ws, until))
  {
    if until.Some? {
      FilterCommutes(EndingAfter(t), EndingAfter(until.value), ws);
      DelayingKeepsEnds(Filter(EndingAfter(until.value), ws), until.value, t);
    }
  }

  lemma {:induction false} DelayTwice(ws: seq<OffWindow>, a: Instant, b: Instant)
    ensures DelayAll(DelayAll(ws, a), b) == DelayAll(DelayAll(ws, b), a)
  {
    if ws != [] {
      var front := ws[..|ws| - 1];
      DelayTwice(front, a, b);
      var fa, fb := DelayAll(front, a), DelayAll(front, b);
      assert (fa + [Delay(ws[|ws| - 1], a)])[..|fa|] == fa && (fb + [Delay(ws[|ws| - 1], b)])[..|fb|] == fb;
    }
  }

  lemma {:induction false} DelayThenOverlap(ws: seq<OffWindow>, r: Instant, from: Instant, to: Instant)
    requires r < to
    ensures Filter(OffOverlapping(from, to), DelayAll(ws, r)) == DelayAll(Filter(OffOverlapping(from, to), ws), r)
  {
    if ws != [] {
      var front := ws[..|ws| - 1];
      DelayThenOverlap(front, r, from, to);
      var f := Filter(OffOverlapping(from, to), front);
      assert (f + [ws[|ws| - 1]])[..|f|] == f;
    }
  }

  lemma {:induction false} DelayThenExtension(ws: seq<OffWindow>, r: Instant, until: Option<Instant>)
    ensures ApplyExtension(DelayAll(ws, r), until) == DelayAll(ApplyExtension(ws, until), r)
  {
    if until.Some? {
      DelayingKeepsEnds(ws, r, until.value);
      DelayTwice(Filter(EndingAfter(until.value), ws), r, until.value);
    }
  }

  lemma {:induction false} UndelayedExactly(ws: seq<OffWindow>, r: Instant)
    ensures DelayAll(ws, r) == ws <==> forall w :: w in ws ==> r <= w.offAt
  {
    if ws != [] {
      var front, last := ws[..|ws| - 1], ws[|ws| - 1];
      UndelayedExactly(front, r);
      assert ws == front + [last];
      assert DelayAll(ws, r) == DelayAll(front, r) + [Delay(last, r)];
      hide DelayAll;
      if DelayAll(ws, r) == ws {
        assert DelayAll(front, r) == (DelayAll(front, r) + [Delay(last, r)])[..|front|];
        assert Delay(last, r) == (DelayAll(front, r) + [Delay(last, r)])[|front|];
      }
    }
  }

  /** Dropping the windows that end by `later` and delaying the rest to `r` changes nothing exactly when there is nothing to do. */
  lemma {:induction false} UnchangedExactly(ws: seq<OffWindow>, later: Instant, r: Instant)
    ensures DelayAll(Filter(EndingAfter(later), ws), r) == ws <==> forall w :: w in ws ==> later < w.onAt && r <= w.offAt
  {
    FilterLength(EndingAfter(later), ws);
    UndelayedExactly(ws, r);
    hide Filter, DelayAll;
  }

  // ---------------------------------------------------------------- a later start of the range

  lemma {:induction false} GapsAfterStart(allowed: seq<AllowedWindow>, rangeStart: Instant, rangeEnd: Instant)
    ensures forall g :: g in AllGaps(allowed, rangeStart, rangeEnd) ==> rangeStart <= g.offAt
  {
    CursorIs(allowed, rangeStart);
    GapsFrom(allowed, rangeStart, rangeEnd);
    hide Cursor, Gaps;
  }

  lemma {:induction false} GapsFrom(allowed: seq<AllowedWindow>, rangeStart: Instant, rangeEnd: Instant)
    ensures forall g :: g in Gaps(allowed, rangeStart, rangeEnd) ==> rangeStart <= g.offAt
  {
    if allowed != [] {
      var front := allowed[..|allowed| - 1];
      GapsFrom(front, rangeStart, rangeEnd);
      CursorIs(front, rangeStart);
      hide Cursor;
    }
  }

  // ---------------------------------------------------------------- the revision

  /** A later answer is the earlier one without the windows that have ended, cut where the later range starts. */
  lemma {:induction false} LaterOff(zone: Zone, rules: seq<ScheduleRule>, overrides: seq<ScheduleOverride>, now: Instant, later: Instant, to: Instant)
    requires now <= later < to && (zone.dateOf(now) == zone.dateOf(later) || zone.Lawful())
    ensures OffWindows(zone, rules, overrides, later, to)
         == DelayAll(Filter(EndingAfter(later), OffWindows(zone, rules, overrides, now, to)), RangeStart(zone, later))
  {
    if zone.dateOf(now) == zone.dateOf(later) {
      SameDateOff(zone, rules, overrides, now, later, to);
    } else {
      var r := RangeStart(zone, later);
      RangeStartMoves(zone, now, later);
      LaterGapsAhead(zone, rules, overrides, now, later, to);
      hide DayGaps, RangeStart, Filter, DelayAll, Zone.Lawful;
      var before, after := DayGaps(zone, rules, overrides, now, to), DayGaps(zone, rules, overrides, later, to);
      FilterTwice(EndingAfter(later), OffOverlapping(later, to), OffOverlapping(later, to), after);
      DelayThenOverlap(Ahead(before, later), r, later, to);
      FilterTwice(EndingAfter(later), OffOverlapping(later, to), OffOverlapping(later, to), before);
      FilterTwice(OffOverlapping(now, to), EndingAfter(later), OffOverlapping(later, to), before);
    }
  }

  lemma {:induction false} SameDateOff(zone: Zone, rules: seq<ScheduleRule>, overrides: seq<ScheduleOverride>, now: Instant, later: Instant, to: Instant)
    requires now <= later && zone.dateOf(now) == zone.dateOf(later)
    ensures OffWindows(zone, rules, overrides, later, to)
         == DelayAll(Filter(EndingAfter(later), OffWindows(zone, rules, overrides, now, to)), RangeStart(zone, later))
  {
    OnlyEndedWindowsDrop(zone, rules, overrides, now, later, to);
    OffWindowsOrdered(zone, rules, overrides, later, to);
    assert forall g :: g in DayGaps(zone, rules, overrides, later, to) ==> RangeStart(zone, later) <= g.offAt by {
      GapsAfterStart(AllowedWindows(zone, rules, overrides, RangeStart(zone, later), RangeEnd(zone, to)), RangeStart(zone, later), RangeEnd(zone, to));
    }
    hide OffWindows, DayGaps, Filter, DelayAll;
    UndelayedExactly(OffWindows(zone, rules, overrides, later, to), RangeStart(zone, later));
  }

  lemma {:induction false} LaterWindows(schedule: Schedule, until: Option<Instant>, now: Instant, later: Instant, horizon: Instant)
    requires now <= later < horizon && (schedule.zone.dateOf(now) == schedule.zone.dateOf(later) || schedule.zone.Lawful())
    ensures ApplyExtension(Resolve(schedule, later, horizon), until)
         == DelayAll(Filter(EndingAfter(later), ApplyExtension(Resolve(schedule, now, horizon), until)), RangeStart(schedule.zone, later))
  {
    LaterOff(schedule.zone, schedule.rules, schedule.overrides, now, later, horizon);
    hide OffWindows, RangeStart, DelayAll, Filter, ApplyExtension, Zone.Lawful;
    var before := Resolve(schedule, now, horizon);
    DelayThenExtension(Filter(EndingAfter(later), before), RangeStart(schedule.zone, later), until);
    ExtensionThenLater(before, until, later);
  }

  /**
    Main result: the revision and the passing of time within one UTC day. The later answer is the earlier one without
    the windows that have ended, cut at the local midnight a day back; so the revision stays the same exactly when no
    window has ended and none starts before that midnight, and then the whole answer is the same.
  */
  lemma {:induction false} RevisionStaysExactlyWhen(repo: Repository, id: ScheduleId, until: Option<Instant>, now: Instant, later: Instant)
    requires id in repo && now <= later && now / DAY_MS == later / DAY_MS
    requires repo[id].zone.dateOf(now) == repo[id].zone.dateOf(later) || repo[id].zone.Lawful()
    ensures var before, after := ScheduleFor(repo, Some(id), until, now).value, ScheduleFor(repo, Some(id), until, later).value;
            var midnight := RangeStart(repo[id].zone, later);
            && after.windows == DelayAll(Filter(EndingAfter(later), before.windows), midnight)
            && (after.revision == before.revision <==> forall w :: w in before.windows ==> later < w.onAt && midnight <= w.offAt)
            && (after.revision == before.revision <==> after == before)
  {
    hide OffWindows, Filter, DelayAll, RangeStart, ApplyExtension, Zone.Lawful;
    LaterWindows(repo[id], until, now, later, HorizonAt(now));
    UnchangedExactly(ApplyExtension(Resolve(repo[id], now, HorizonAt(now)), until), later, RangeStart(repo[id].zone, later));
  }

  lemma {:induction false} FixedOffsetGaps(offset: int, rules: seq<ScheduleRule>, overrides: seq<ScheduleOverride>, from: Instant, to: Instant)
    ensures Canonical(DayGaps(FixedOffset(offset), rules, overrides, from, to))
  {
    var zone := FixedOffset(offset);
    var rangeStart, rangeEnd := RangeStart(zone, from), RangeEnd(zone, to);
    FixedOffsetExpandedProper(offset, Filter(EnabledRule(), rules), Filter(EnabledOverride(), overrides),
                              zone.dateOf(rangeStart) - 1, zone.dateOf(rangeEnd) + 1);
    hide Filter, Expanded, Proper, RangeStart, RangeEnd, Gaps, Cursor;
    AllowedWindowsSeparated(zone, rules, overrides, rangeStart, rangeEnd);
    AllowedWindowsSorted(zone, rules, overrides, rangeStart, rangeEnd);
    hide AllowedWindows, FixedOffset;
    AllGapsCanonical(AllowedWindows(zone, rules, overrides, rangeStart, rangeEnd), rangeStart, rangeEnd);
  }

  // ---------------------------------------------------------------- a revision that changes while no window ends

  /** A schedule an hour ahead of UTC, with one row: Mondays 09:00 to 17:00. */
  const MONDAYS := Schedule(FixedOffset(HOUR), "UTC+1", SLEEP, [ScheduleRule({0}, 9 * HOUR, 17 * HOUR, true)], [])
  /** Saturday 3 January 1970, 22:30 and 23:30 UTC: either side of local midnight. */
  const SATURDAY_2230 := 2 * DAY_MS + 22 * HOUR + 30 * MINUTE
  const SATURDAY_2330 := SATURDAY_2230 + HOUR
  /** Monday 5 January 1970, 09:00 local time. */
  const MONDAY_0900 := 4 * DAY_MS + 9 * HOUR - HOUR

  lemma {:induction false} WeekendOff(t: Instant)
    requires DAY_MS - HOUR <= t < MONDAY_0900
    ensures ScheduleOff(MONDAYS.zone, MONDAYS.rules, MONDAYS.overrides, t)
  {
    var row := MONDAYS.rules[0];
    assert row in MONDAYS.rules && row.enabled;
    forall day
      ensures !AllowedOn(MONDAYS.zone, MONDAYS.rules, MONDAYS.overrides, day, t)
    {
      assert WeekdayOf(day) == 0 ==> day <= -3 || day >= 4;
    }
  }

  lemma {:induction false} NotOffAtEnd(ws: seq<OffWindow>, i: nat)
    requires Canonical(ws) && i < |ws|
    ensures !InOff(ws, ws[i].onAt)
  {
    forall j | 0 <= j < |ws|
      ensures !(ws[j].offAt <= ws[i].onAt < ws[j].onAt)
    {
      assert i < j ==> ws[i].onAt < ws[j].offAt;
      assert j < i ==> ws[j].onAt < ws[i].offAt;
    }
  }

  /** An unbroken stretch of off time is within one window. */
  lemma {:induction false} WithinOne(ws: seq<OffWindow>, start: Instant, end: Instant) returns (w: OffWindow)
    requires Canonical(ws) && start < end && forall t :: start <= t < end ==> InOff(ws, t)
    ensures w in ws && w.offAt <= start && end <= w.onAt
  {
    assert InOff(ws, start);
    var i :| 0 <= i < |ws| && ws[i].offAt <= start < ws[i].onAt;
    w := ws[i];
    NotOffAtEnd(ws, i);
    hide InOff, Canonical;
    assert !(start <= w.onAt < end);
  }

  /** A stretch of off time within the days around a range is within one off window; the others end before or after it. */
  lemma {:induction false} OffStretch(zone: Zone, rules: seq<ScheduleRule>, overrides: seq<ScheduleOverride>, now: Instant, to: Instant,
                                      start: Instant, end: Instant) returns (w: OffWindow)
    requires zone.Lawful() && Canonical(DayGaps(zone, rules, overrides, now, to))
    requires RangeStart(zone, now) <= start <= now < end <= RangeEnd(zone, to) && now < to && start < to
    requires forall t :: start <= t < end ==> ScheduleOff(zone, rules, overrides, t)
    ensures w in OffWindows(zone, rules, overrides, now, to) && w.offAt <= start && end <= w.onAt
    ensures forall v :: v in OffWindows(zone, rules, overrides, now, to) ==> end <= v.onAt
  {
    hide DayGaps, Filter, ScheduleOff, RangeStart, RangeEnd, Canonical, InOff, Zone.Lawful;
    var gaps := DayGaps(zone, rules, overrides, now, to);
    StretchInGaps(zone, rules, overrides, now, to, start, end);
    w := WithinOne(gaps, start, end);
    OthersElsewhere(gaps, w);
    FilterMembers(OffOverlapping(now, to), gaps);
  }

  lemma {:induction false} StretchInGaps(zone: Zone, rules: seq<ScheduleRule>, overrides: seq<ScheduleOverride>, now: Instant, to: Instant,
                                         start: Instant, end: Instant)
    requires zone.Lawful() && RangeStart(zone, now) <= start && end <= RangeEnd(zone, to)
    requires forall t :: start <= t < end ==> ScheduleOff(zone, rules, overrides, t)
    ensures forall t :: start <= t < end ==> InOff(DayGaps(zone, rules, overrides, now, to), t)
  {
    hide DayGaps, ScheduleOff, InOff, RangeStart, RangeEnd, Zone.Lawful;
    forall t | start <= t < end
      ensures InOff(DayGaps(zone, rules, overrides, now, to), t)
    {
      DayGapsExact(zone, rules, overrides, now, to, t);
    }
  }

  lemma {:induction false} OthersElsewhere(ws: seq<OffWindow>, w: OffWindow)
    requires Canonical(ws) && w in ws
    ensures forall v :: v in ws && v != w ==> v.onAt < w.offAt || w.onAt < v.onAt
  {
    var i :| 0 <= i < |ws| && ws[i] == w;
    forall v | v in ws && v != w
      ensures v.onAt < w.offAt || w.onAt < v.onAt
    {
      var j :| 0 <= j < |ws| && ws[j] == v;
    }
  }

  lemma {:induction false} WeekendRange()
    ensures var zone, to := FixedOffset(HOUR), HorizonAt(SATURDAY_2230);
            && RangeStart(zone, SATURDAY_2230) == DAY_MS - HOUR && MONDAY_0900 <= RangeEnd(zone, to) && MONDAY_0900 < to
            && RangeStart(zone, SATURDAY_2330) == 2 * DAY_MS - HOUR
  {}

  /** The window of the weekend, as the first answer has it: from local midnight of Friday or before, to Monday 09:00 or later. */
  lemma {:induction false} WeekendWindow() returns (w: OffWindow)
    ensures var before := Resolve(MONDAYS, SATURDAY_2230, HorizonAt(SATURDAY_2230));
            && w in before && w.offAt <= DAY_MS - HOUR
            && forall v :: v in before ==> MONDAY_0900 <= v.onAt
  {
    var zone, rules, overrides, to := MONDAYS.zone, MONDAYS.rules, MONDAYS.overrides, HorizonAt(SATURDAY_2230);
    WeekendRange();
    FixedOffsetLawful(HOUR);
    FixedOffsetGaps(HOUR, rules, overrides, SATURDAY_2230, to);
    forall t | DAY_MS - HOUR <= t < MONDAY_0900
      ensures ScheduleOff(zone, rules, overrides, t)
    {
      WeekendOff(t);
    }
    hide OffWindows, DayGaps, ScheduleOff, RangeStart, RangeEnd, FixedOffset, HorizonAt, Canonical;
    w := OffStretch(zone, rules, overrides, SATURDAY_2230, to, DAY_MS - HOUR, MONDAY_0900);
  }

  lemma {:induction false} MondaysHandedOut(repo: Repository, id: ScheduleId, now: Instant)
    requires id in repo && repo[id] == MONDAYS
    ensures ScheduleFor(repo, Some(id), None, now).value.windows == Resolve(MONDAYS, now, HorizonAt(now))
  {
    hide OffWindows;
  }

  lemma {:induction false} CutChangesRevision(repo: Repository, id: ScheduleId, now: Instant, later: Instant, w: OffWindow)
    requires id in repo && now <= later && now / DAY_MS == later / DAY_MS
    requires repo[id].zone.Lawful() && w in Resolve(repo[id], now, HorizonAt(now)) && w.offAt < RangeStart(repo[id].zone, later)
    ensures ScheduleFor(repo, Some(id), None, later).value.revision != ScheduleFor(repo, Some(id), None, now).value.revision
  {
    hide RangeStart, OffWindows, HorizonAt, DelayAll, Filter, Zone.Lawful;
    RevisionStaysExactlyWhen(repo, id, None, now, later);
    assert w in ScheduleFor(repo, Some(id), None, now).value.windows;
  }

  /** Within one UTC day, and with no window ended, local midnight alone changes the revision. */
  lemma {:induction false} MidnightChangesRevision(repo: Repository, id: ScheduleId)
    requires id in repo && repo[id] == MONDAYS
    ensures SATURDAY_2230 / DAY_MS == SATURDAY_2330 / DAY_MS
    ensures forall w :: w in ScheduleFor(repo, Some(id), None, SATURDAY_2230).value.windows ==> SATURDAY_2330 < w.onAt
    ensures ScheduleFor(repo, Some(id), None, SATURDAY_2330).value.revision != ScheduleFor(repo, Some(id), None, SATURDAY_2230).value.revision
  {
    hide RangeStart, OffWindows, FixedOffset, HorizonAt, DelayAll, Filter, ScheduleFor, Resolve, ScheduleOff, Zone.Lawful;
    var w := WeekendWindow();
    WeekendRange();
    MondaysHandedOut(repo, id, SATURDAY_2230);
    FixedOffsetLawful(HOUR);
    CutChangesRevision(repo, id, SATURDAY_2230, SATURDAY_2330, w);
  }
}
