/** What rows and overrides mean by the clock on the wall: dates, weekdays and times of day. */
module LocalClock {
  import opened ScheduleResolver
  import opened ScheduleMeaning
  import opened ScheduleCanonical

  /** Days are counted from Thursday, 1 January 1970, and weekdays from Monday. */
  lemma {:induction false} WeekdaysKnown(day: LocalDate)
    ensures WeekdayOf(0) == 3 && WeekdayOf(4) == 0 && WeekdayOf(-1) == 2
    ensures WeekdayOf(day + 1) == if WeekdayOf(day) == 6 then 0 else WeekdayOf(day) + 1
  {}

  /** A row's window on a date runs from its start to its end, or to the next date's midnight if it ends at 00:00. */
  lemma {:induction false} RowWindowExact(zone: Zone, rule: ScheduleRule, day: LocalDate, t: Instant)
    ensures rule.endTime == 0 ==>
              (RuleAllows(zone, rule, day, t)
               <==> rule.enabled && WeekdayOf(day) in rule.days && zone.at(day, rule.startTime) <= t < zone.at(day + 1, 0))
    ensures rule.endTime > rule.startTime ==>
              (RuleAllows(zone, rule, day, t)
               <==> rule.enabled && WeekdayOf(day) in rule.days && zone.at(day, rule.startTime) <= t < zone.at(day, rule.endTime))
    ensures 0 < rule.endTime <= rule.startTime ==> !RuleAllows(zone, rule, day, t)
  {}

  /** And so does an override's, on each of its dates, whatever the weekday. */
  lemma {:induction false} OverrideWindowExact(zone: Zone, o: ScheduleOverride, day: LocalDate, t: Instant)
    ensures o.endTime == 0 ==>
              (OverrideAllows(zone, o, day, t)
               <==> o.enabled && o.startDate <= day <= o.endDate && zone.at(day, o.startTime) <= t < zone.at(day + 1, 0))
    ensures o.endTime > o.startTime ==>
              (OverrideAllows(zone, o, day, t)
               <==> o.enabled && o.startDate <= day <= o.endDate && zone.at(day, o.startTime) <= t < zone.at(day, o.endTime))
    ensures 0 < o.endTime <= o.startTime ==> !OverrideAllows(zone, o, day, t)
  {}

  // ---------------------------------------------------------------- without clock changes

  function DateAt(offset: int, t: Instant): LocalDate {
    (t + offset) / 86_400_000
  }

  /** Milliseconds since midnight, by the local clock. */
  function TimeAt(offset: int, t: Instant): LocalTime {
    (t + offset) % 86_400_000
  }

  ghost predicate RowCovers(rule: ScheduleRule, date: LocalDate, time: LocalTime) {
    rule.enabled && WeekdayOf(date) in rule.days && rule.startTime <= time && (rule.endTime == 0 || time < rule.endTime)
  }

  ghost predicate OverrideCovers(o: ScheduleOverride, date: LocalDate, time: LocalTime) {
    o.enabled && o.startDate <= date <= o.endDate && o.startTime <= time && (o.endTime == 0 || time < o.endTime)
  }

  lemma {:induction false} WithinDate(offset: int, t: Instant, day: LocalDate, start: LocalTime, end: int)
    requires 0 < end <= 86_400_000
    ensures day * 86_400_000 + start - offset <= t < day * 86_400_000 + end - offset
       <==> DateAt(offset, t) == day && start <= TimeAt(offset, t) < end
  {
    var date, time := DateAt(offset, t), TimeAt(offset, t);
    assert t + offset == date * 86_400_000 + time;
  }

  lemma {:induction false} RowByLocalClock(offset: int, rule: ScheduleRule, day: LocalDate, t: Instant)
    ensures RuleAllows(FixedOffset(offset), rule, day, t) <==> DateAt(offset, t) == day && RowCovers(rule, day, TimeAt(offset, t))
  {
    RowWindowExact(FixedOffset(offset), rule, day, t);
    WithinDate(offset, t, day, rule.startTime, if rule.endTime == 0 then 86_400_000 else rule.endTime);
    hide RuleAllows, WeekdayOf, DateAt, TimeAt;
    assert (day + 1) * 86_400_000 == day * 86_400_000 + 86_400_000;
  }

  lemma {:induction false} OverrideByLocalClock(offset: int, o: ScheduleOverride, day: LocalDate, t: Instant)
    ensures OverrideAllows(FixedOffset(offset), o, day, t) <==> DateAt(offset, t) == day && OverrideCovers(o, day, TimeAt(offset, t))
  {
    OverrideWindowExact(FixedOffset(offset), o, day, t);
    WithinDate(offset, t, day, o.startTime, if o.endTime == 0 then 86_400_000 else o.endTime);
    hide OverrideAllows, DateAt, TimeAt;
    assert (day + 1) * 86_400_000 == day * 86_400_000 + 86_400_000;
  }

  lemma {:induction false} AllowedByLocalClock(offset: int, rules: seq<ScheduleRule>, overrides: seq<ScheduleOverride>, t: Instant)
    ensures var date, time := DateAt(offset, t), TimeAt(offset, t);
            Allowed(FixedOffset(offset), rules, overrides, t)
            <==> || (exists rule :: rule in rules && RowCovers(rule, date, time))
                 || (exists o :: o in overrides && OverrideCovers(o, date, time))
  {
    hide RuleAllows, OverrideAllows, RowCovers, OverrideCovers, DateAt, TimeAt, FixedOffset;
    var zone, date := FixedOffset(offset), DateAt(offset, t);
    forall day, rule
      ensures RuleAllows(zone, rule, day, t) <==> day == date && RowCovers(rule, day, TimeAt(offset, t))
    {
      RowByLocalClock(offset, rule, day, t);
    }
    forall day, o
      ensures OverrideAllows(zone, o, day, t) <==> day == date && OverrideCovers(o, day, TimeAt(offset, t))
    {
      OverrideByLocalClock(offset, o, day, t);
    }
    assert Allowed(zone, rules, overrides, t) <==> AllowedOn(zone, rules, overrides, date, t);
  }

  /**
    Main result: where the clocks never change, the off windows of any range contain exactly its instants at which, some
    row being enabled, no enabled row is on at that time of that weekday and no enabled override at that time of that date.
  */
  lemma {:induction false} OffByLocalClock(offset: int, rules: seq<ScheduleRule>, overrides: seq<ScheduleOverride>,
                                           from: Instant, to: Instant, t: Instant)
    requires from <= t < to
    ensures var date, time := DateAt(offset, t), TimeAt(offset, t);
            InOff(OffWindows(FixedOffset(offset), rules, overrides, from, to), t)
            <==> && (exists rule :: rule in rules && rule.enabled)
                 && (forall rule :: rule in rules ==> !RowCovers(rule, date, time))
                 && (forall o :: o in overrides ==> !OverrideCovers(o, date, time))
  {
    hide OffWindows, RowCovers, OverrideCovers, DateAt, TimeAt, Allowed, FixedOffset, InOff;
    FixedOffsetLawful(offset);
    OffWindowsExact(FixedOffset(offset), rules, overrides, from, to, t);
    AllowedByLocalClock(offset, rules, overrides, t);
  }
}
