/** What the notifier warns of over whole runs of polls. */
module NotifierRuns {
  import opened Lists
  import opened ScheduleResolver
  import opened DeviceService
  import opened NotifierEngine

  /** What the engine is given at one poll. */
  datatype Poll = Poll(actions: seq<PendingAction>, now: Instant)

  function StateBefore(polls: seq<Poll>, n: nat): EngineState
    requires n <= |polls|
  {
    if n == 0 then EngineState({}, {}) else Updated(StateBefore(polls, n - 1), polls[n - 1].actions, polls[n - 1].now)
  }

  /** The thresholds of the warnings for `x`, in order. */
  function ThresholdsFor(x: ActionId, toasts: seq<ToastDue>): seq<int> {
    if toasts == [] then []
    else
      var toast := toasts[|toasts| - 1];
      ThresholdsFor(x, toasts[..|toasts| - 1]) + if toast.action.id == x then [toast.threshold] else []
  }

  function HeardAt(polls: seq<Poll>, x: ActionId, k: nat): seq<int>
    requires k < |polls|
  {
    ThresholdsFor(x, TickFor(StateBefore(polls, k), polls[k].actions, polls[k].now).toasts)
  }

  /** The thresholds warned of for `x` from poll `i` up to but not including poll `j`. */
  function HeardBetween(polls: seq<Poll>, x: ActionId, i: nat, j: nat): seq<int>
    requires i <= j <= |polls|
  {
    if i == j then [] else HeardBetween(polls, x, i, j - 1) + HeardAt(polls, x, j - 1)
  }

  predicate Present(polls: seq<Poll>, x: ActionId, k: nat)
    requires k < |polls|
  {
    exists i :: 0 <= i < |polls[k].actions| && polls[k].actions[i].id == x
  }

  ghost predicate PresentBetween(polls: seq<Poll>, x: ActionId, i: nat, j: nat)
    requires i <= j <= |polls|
  {
    forall k :: i <= k < j ==> Present(polls, x, k)
  }

  /** Whenever `x` is reported, it is for the instant `at`. */
  ghost predicate FixedAt(polls: seq<Poll>, x: ActionId, at: Instant) {
    forall k :: 0 <= k < |polls| ==> AlwaysAt(polls[k].actions, x, at)
  }

  ghost predicate AlwaysAt(actions: seq<PendingAction>, x: ActionId, at: Instant) {
    forall i :: 0 <= i < |actions| && actions[i].id == x ==> actions[i].at == at
  }

  ghost predicate TimeMoves(polls: seq<Poll>, maxGap: int) {
    forall k :: 0 <= k < |polls| - 1 ==> 0 <= polls[k + 1].now - polls[k].now <= maxGap
  }

  ghost predicate TimeNeverGoesBack(polls: seq<Poll>) {
    forall i, j :: 0 <= i <= j < |polls| ==> polls[i].now <= polls[j].now
  }

  // ---------------------------------------------------------------- one poll, as one action sees it

  lemma {:induction false} ThresholdsAppend(x: ActionId, a: seq<ToastDue>, more: seq<ToastDue>)
    requires |more| <= 1
    ensures ThresholdsFor(x, a + more) == ThresholdsFor(x, a) + if |more| == 1 && more[0].action.id == x then [more[0].threshold] else []
  {
    if more == [] {
      assert a + more == a;
    } else {
      assert (a + more)[..|a|] == a;
    }
  }

  lemma {:induction false} MarkedOnce(actions: seq<PendingAction>, now: Instant, x: ActionId, at: Instant, threshold: int)
    requires AlwaysAt(actions, x, at)
    ensures Mark(x, threshold) in MarksAt(actions, now) <==> x in Live(actions) && Crossed(NumSeconds(at - now)) == Some(threshold)
  {
    hide Crossed, NumSeconds;
    if x in Live(actions) {
      var a :| a in actions && a.id == x;
      assert a.at == at;
    }
  }

  /** However often an action is listed, one poll warns of it at most once, and exactly when it stands at a new mark. */
  lemma {:induction false} OneWarning(kept: set<Mark>, actions: seq<PendingAction>, now: Instant, x: ActionId, at: Instant)
    requires AlwaysAt(actions, x, at)
    ensures var t := Crossed(NumSeconds(at - now));
            ThresholdsFor(x, ToastsDue(kept, actions, now))
            == if x in Live(actions) && t.Some? && Mark(x, t.value) !in kept then [t.value] else []
  {
    hide Crossed, NumSeconds, MarksAt, ThresholdsFor, Live;
    if actions == [] {
      NoneLive(x);
    } else {
      var front, a := actions[..|actions| - 1], actions[|actions| - 1];
      assert AlwaysAt(front, x, at);
      OneWarning(kept, front, now, x, at);
      assert actions == front + [a];
      LiveAppend(front, a);
      var t, mine := Crossed(NumSeconds(at - now)), Crossed(Remaining(a, now));
      var more := if mine.Some? && Mark(a.id, mine.value) !in kept + MarksAt(front, now)
                  then [ToastDue(a, mine.value, Remaining(a, now))] else [];
      ThresholdsAppend(x, ToastsDue(kept, front, now), more);
      if a.id == x && t.Some? {
        MarkedOnce(front, now, x, at, t.value);
      }
    }
  }

  lemma {:induction false} NoneLive(x: ActionId)
    ensures Live([]) == {} && ThresholdsFor(x, []) == []
  {}

  lemma {:induction false} LiveAppend(front: seq<PendingAction>, a: PendingAction)
    ensures Live(front + [a]) == Live(front) + {a.id}
  {
    forall b | b in front
      ensures b in front + [a]
    {}
    assert a in front + [a];
  }

  lemma {:induction false} PresentIsLive(polls: seq<Poll>, x: ActionId, k: nat)
    requires k < |polls|
    ensures Present(polls, x, k) <==> x in Live(polls[k].actions)
  {
    if x in Live(polls[k].actions) {
      var a :| a in polls[k].actions && a.id == x;
    }
  }

  function CrossedAt(polls: seq<Poll>, at: Instant, k: nat): Option<int>
    requires k < |polls|
  {
    Crossed(NumSeconds(at - polls[k].now))
  }

  /** The marks remembered for `x` before poll `n`. */
  function Fired(polls: seq<Poll>, x: ActionId, n: nat): set<int>
    requires n <= |polls|
  {
    set m | m in StateBefore(polls, n).fired && m.id == x :: m.threshold
  }

  lemma {:induction false} FiredIs(polls: seq<Poll>, x: ActionId, n: nat, u: int)
    requires n <= |polls|
    ensures u in Fired(polls, x, n) <==> Mark(x, u) in StateBefore(polls, n).fired
  {
    if Mark(x, u) in StateBefore(polls, n).fired {
      assert Mark(x, u).threshold == u;
    }
  }

  function Singleton(t: Option<int>): set<int> {
    if t.Some? then {t.value} else {}
  }

  lemma {:induction false} PollWarns(polls: seq<Poll>, x: ActionId, at: Instant, k: nat)
    requires k < |polls| && FixedAt(polls, x, at)
    ensures var t := CrossedAt(polls, at, k);
            HeardAt(polls, x, k) == if Present(polls, x, k) && t.Some? && t.value !in Fired(polls, x, k) then [t.value] else []
  {
    hide Crossed, NumSeconds, MarksAt, ToastsDue, ThresholdsFor, Present, StateBefore;
    var s, actions := StateBefore(polls, k), polls[k].actions;
    PresentIsLive(polls, x, k);
    assert AlwaysAt(actions, x, at);
    OneWarning(Kept(s.fired, Live(actions)), actions, polls[k].now, x, at);
    if CrossedAt(polls, at, k).Some? {
      FiredIs(polls, x, k, CrossedAt(polls, at, k).value);
    }
  }

  lemma {:induction false} PollRemembers(polls: seq<Poll>, x: ActionId, at: Instant, k: nat, u: int)
    requires k < |polls| && FixedAt(polls, x, at)
    ensures u in Fired(polls, x, k + 1) <==> Present(polls, x, k) && (u in Fired(polls, x, k) || CrossedAt(polls, at, k) == Some(u))
  {
    hide Crossed, NumSeconds, MarksAt, Present;
    PresentIsLive(polls, x, k);
    assert AlwaysAt(polls[k].actions, x, at);
    MarkedOnce(polls[k].actions, polls[k].now, x, at, u);
    FiredIs(polls, x, k, u);
    FiredIs(polls, x, k + 1, u);
  }

  /** What poll `k` does for `x`: whether it warns, and which marks are remembered afterwards. */
  lemma {:induction false} PollStep(polls: seq<Poll>, x: ActionId, at: Instant, k: nat)
    requires k < |polls| && FixedAt(polls, x, at)
    ensures var t := CrossedAt(polls, at, k);
            HeardAt(polls, x, k) == if Present(polls, x, k) && t.Some? && t.value !in Fired(polls, x, k) then [t.value] else []
    ensures Fired(polls, x, k + 1) == if !Present(polls, x, k) then {} else Fired(polls, x, k) + Singleton(CrossedAt(polls, at, k))
  {
    hide Fired, HeardAt, CrossedAt, FixedAt, Present;
    PollWarns(polls, x, at, k);
    var now := if !Present(polls, x, k) then {} else Fired(polls, x, k) + Singleton(CrossedAt(polls, at, k));
    forall u
      ensures u in Fired(polls, x, k + 1) <==> u in now
    {
      PollRemembers(polls, x, at, k, u);
    }
  }

  // ---------------------------------------------------------------- warnings get strictly tighter

  ghost predicate Decreasing(s: seq<int>) {
    forall i, j :: 0 <= i < j < |s| ==> s[j] < s[i]
  }

  predicate IsThreshold(t: int) {
    t in THRESHOLDS
  }

  /** A mark of the engine, remembered after poll `j - 1`, and no tighter than the one the action stands at there. */
  predicate Behind(polls: seq<Poll>, x: ActionId, at: Instant, j: nat, t: int)
    requires 0 < j <= |polls|
  {
    t in Fired(polls, x, j) && IsThreshold(t) && CrossedAt(polls, at, j - 1).Some? && CrossedAt(polls, at, j - 1).value <= t
  }

  ghost predicate HeardOk(polls: seq<Poll>, x: ActionId, at: Instant, heard: seq<int>, j: nat)
    requires 0 < j <= |polls|
  {
    Decreasing(heard) && forall k :: 0 <= k < |heard| ==> Behind(polls, x, at, j, heard[k])
  }

  lemma {:induction false} CrossedTightens(polls: seq<Poll>, at: Instant, i: nat, j: nat)
    requires i <= j < |polls| && polls[i].now <= polls[j].now
    ensures CrossedAt(polls, at, i).Some? ==> CrossedAt(polls, at, j).Some? && CrossedAt(polls, at, j).value <= CrossedAt(polls, at, i).value
    ensures CrossedAt(polls, at, j).Some? ==> IsThreshold(CrossedAt(polls, at, j).value)
  {
    hide Crossed;
    CrossedIs(NumSeconds(at - polls[i].now));
    CrossedIs(NumSeconds(at - polls[j].now));
  }

  /** One more poll with the action still pending. */
  lemma {:induction false} HeardGrows(polls: seq<Poll>, x: ActionId, at: Instant, heard: seq<int>, j: nat)
    requires 0 < j < |polls| && FixedAt(polls, x, at) && polls[j - 1].now <= polls[j].now && Present(polls, x, j)
    requires HeardOk(polls, x, at, heard, j)
    ensures HeardOk(polls, x, at, heard + HeardAt(polls, x, j), j + 1)
  {
    hide Fired, HeardAt, CrossedAt, FixedAt, Present, IsThreshold;
    PollStep(polls, x, at, j);
    CrossedTightens(polls, at, j - 1, j);
  }

  lemma {:induction false} HeardStarts(polls: seq<Poll>, x: ActionId, at: Instant, j: nat)
    requires j < |polls| && FixedAt(polls, x, at) && Present(polls, x, j)
    ensures HeardOk(polls, x, at, HeardAt(polls, x, j), j + 1)
  {
    hide Fired, HeardAt, CrossedAt, FixedAt, Present, IsThreshold;
    PollStep(polls, x, at, j);
    CrossedTightens(polls, at, j, j);
  }

  lemma {:induction false} HeardSoFar(polls: seq<Poll>, x: ActionId, at: Instant, i: nat, j: nat)
    requires i < j <= |polls| && FixedAt(polls, x, at) && TimeNeverGoesBack(polls) && PresentBetween(polls, x, i, j)
    ensures HeardOk(polls, x, at, HeardBetween(polls, x, i, j), j)
    decreases j
  {
    hide HeardOk, HeardAt, FixedAt, Present;
    if i < j - 1 {
      HeardSoFar(polls, x, at, i, j - 1);
      HeardGrows(polls, x, at, HeardBetween(polls, x, i, j - 1), j - 1);
    } else {
      assert HeardBetween(polls, x, i, j) == HeardAt(polls, x, i);
      HeardStarts(polls, x, at, i);
    }
  }

  function Rank(t: int): nat {
    if t == 900 then 0 else if t == 300 then 1 else if t == 60 then 2 else 3
  }

  lemma {:induction false} RankGrows(s: seq<int>, i: nat)
    requires i < |s| && Decreasing(s) && forall k :: 0 <= k < |s| ==> IsThreshold(s[k])
    ensures Rank(s[i]) >= i
  {
    if i > 0 {
      RankGrows(s, i - 1);
      assert IsThreshold(s[i]) && IsThreshold(s[i - 1]) && s[i] < s[i - 1];
    }
  }

  lemma {:induction false} AtMostFour(s: seq<int>)
    requires Decreasing(s) && forall i :: 0 <= i < |s| ==> IsThreshold(s[i])
    ensures |s| <= 4
  {
    if |s| > 4 {
      RankGrows(s, 4);
    }
  }

  /**
    Main result: for any polls whose time never goes back, the warnings for an action that stays pending are for
    strictly decreasing thresholds, so there are at most four.
  */
  lemma {:induction false} WarningsTighten(polls: seq<Poll>, x: ActionId, at: Instant, i: nat, j: nat)
    requires i <= j <= |polls| && FixedAt(polls, x, at) && TimeNeverGoesBack(polls) && PresentBetween(polls, x, i, j)
    ensures Decreasing(HeardBetween(polls, x, i, j)) && |HeardBetween(polls, x, i, j)| <= 4
  {
    if i < j {
      HeardSoFar(polls, x, at, i, j);
      hide HeardBetween, Fired, CrossedAt, IsThreshold;
      AtMostFour(HeardBetween(polls, x, i, j));
    }
  }

  lemma {:induction false} FiredStays(polls: seq<Poll>, x: ActionId, at: Instant, i: nat, j: nat, threshold: int)
    requires i <= j <= |polls| && FixedAt(polls, x, at) && PresentBetween(polls, x, i, j) && threshold in Fired(polls, x, i)
    ensures threshold in Fired(polls, x, j)
    decreases j
  {
    hide Fired, HeardAt, CrossedAt, FixedAt, Present;
    if i < j {
      FiredStays(polls, x, at, i, j - 1, threshold);
      PollStep(polls, x, at, j - 1);
    }
  }

  /** A warning is repeated only for an action that was reported gone in between. */
  lemma {:induction false} RepeatedOnlyAfterAbsence(polls: seq<Poll>, x: ActionId, at: Instant, i: nat, j: nat, threshold: int)
    requires i < j < |polls| && FixedAt(polls, x, at) && threshold in HeardAt(polls, x, i) && threshold in HeardAt(polls, x, j)
    ensures exists k :: i < k < j && !Present(polls, x, k)
  {
    hide Fired, HeardAt, CrossedAt, FixedAt, Present;
    PollStep(polls, x, at, i);
    PollStep(polls, x, at, j);
    if PresentBetween(polls, x, i + 1, j) {
      FiredStays(polls, x, at, i + 1, j, threshold);
    }
  }

  // ---------------------------------------------------------------- every warning is given

  const MAX_GAP := 30_000

  /** The marks an action with so many seconds left has passed, widest first. */
  function Passed(remaining: int): seq<int> {
    if remaining <= 30 then [900, 300, 60, 30] else if remaining <= 60 then [900, 300, 60]
    else if remaining <= 300 then [900, 300] else if remaining <= 900 then [900] else []
  }

  /** All marks passed have been warned of, in order, and nothing else is remembered. */
  ghost predicate AllWarned(polls: seq<Poll>, x: ActionId, heard: seq<int>, left: int, j: nat)
    requires j <= |polls|
  {
    heard == Passed(NumSeconds(left)) && forall u :: u in Fired(polls, x, j) <==> u in Passed(NumSeconds(left))
  }

  lemma {:induction false} WarnedNext(polls: seq<Poll>, x: ActionId, at: Instant, heard: seq<int>, j: nat)
    requires 0 < j < |polls| && FixedAt(polls, x, at) && TimeMoves(polls, MAX_GAP) && Present(polls, x, j)
    requires AllWarned(polls, x, heard, at - polls[j - 1].now, j)
    ensures AllWarned(polls, x, heard + HeardAt(polls, x, j), at - polls[j].now, j + 1)
  {
    hide Fired, HeardAt, FixedAt, Present, Crossed, Passed, NumSeconds;
    PollStep(polls, x, at, j);
    NextMark(at - polls[j - 1].now, at - polls[j].now);
    var before, after, t := Passed(NumSeconds(at - polls[j - 1].now)), Passed(NumSeconds(at - polls[j].now)), CrossedAt(polls, at, j);
    assert after == if t.Some? && t.value !in before then before + [t.value] else before;
    assert forall u :: u in after <==> u in before || t == Some(u);
    assert forall u :: u in Fired(polls, x, j) <==> u in before;
    assert heard + HeardAt(polls, x, j) == after;
  }

  lemma {:induction false} WarnedFirst(polls: seq<Poll>, x: ActionId, at: Instant, j: nat)
    requires j < |polls| && FixedAt(polls, x, at) && Present(polls, x, j)
    requires NumSeconds(at - polls[j].now) > 900 && Fired(polls, x, j) == {}
    ensures AllWarned(polls, x, HeardAt(polls, x, j), at - polls[j].now, j + 1)
  {
    hide Fired, HeardAt, FixedAt, Present, Crossed, Passed, NumSeconds;
    PollStep(polls, x, at, j);
    FirstMark(at - polls[j].now);
  }

  lemma {:induction false} WarnedSoFar(polls: seq<Poll>, x: ActionId, at: Instant, i: nat, j: nat)
    requires i < j <= |polls| && FixedAt(polls, x, at) && TimeMoves(polls, MAX_GAP) && PresentBetween(polls, x, i, j)
    requires NumSeconds(at - polls[i].now) > 900 && Fired(polls, x, i) == {}
    ensures AllWarned(polls, x, HeardBetween(polls, x, i, j), at - polls[j - 1].now, j)
    decreases j
  {
    hide Fired, HeardAt, FixedAt, Present, AllWarned, NumSeconds;
    if i < j - 1 {
      WarnedSoFar(polls, x, at, i, j - 1);
      WarnedNext(polls, x, at, HeardBetween(polls, x, i, j - 1), j - 1);
    } else {
      assert HeardBetween(polls, x, i, j) == HeardAt(polls, x, i);
      WarnedFirst(polls, x, at, i);
    }
  }

  /** Within 30 seconds an action reaches at most the next mark. */
  lemma {:induction false} NextMark(before: int, after: int)
    requires 0 <= before - after <= MAX_GAP
    ensures var t := Crossed(NumSeconds(after));
            && Passed(NumSeconds(after)) == Passed(NumSeconds(before)) + (if t.Some? && t.value !in Passed(NumSeconds(before)) then [t.value] else [])
            && (t.Some? ==> t.value in Passed(NumSeconds(after)))
  {
    hide Crossed;
    CrossedIs(NumSeconds(after));
  }

  lemma {:induction false} FirstMark(left: int)
    requires NumSeconds(left) > 900
    ensures Passed(NumSeconds(left)) == [] && Crossed(NumSeconds(left)) == None
  {
    hide Crossed;
    CrossedIs(NumSeconds(left));
  }

  /** With polls at most 30 seconds apart an action first seen with over 900 seconds left is warned of at every mark it reaches. */
  lemma {:induction false} EveryMarkWarned(polls: seq<Poll>, x: ActionId, at: Instant, i: nat, j: nat)
    requires i < j <= |polls| && FixedAt(polls, x, at) && TimeMoves(polls, MAX_GAP) && PresentBetween(polls, x, i, j)
    requires i > 0 ==> !Present(polls, x, i - 1)
    requires NumSeconds(at - polls[i].now) > 900
    ensures HeardBetween(polls, x, i, j) == Passed(NumSeconds(at - polls[j - 1].now))
  {
    hide Passed, NumSeconds, Present, HeardBetween, Fired, CrossedAt, HeardAt, FixedAt;
    if i > 0 {
      PollStep(polls, x, at, i - 1);
    } else {
      NothingFiredYet(polls, x);
    }
    WarnedSoFar(polls, x, at, i, j);
  }

  lemma {:induction false} NothingFiredYet(polls: seq<Poll>, x: ActionId)
    ensures Fired(polls, x, 0) == {}
  {}

  /** Each poll comes no later than the one before it asked for. */
  ghost predicate PolledInTime(polls: seq<Poll>) {
    forall k :: 0 <= k < |polls| - 1 ==>
      0 <= polls[k + 1].now - polls[k].now <= TickFor(StateBefore(polls, k), polls[k].actions, polls[k].now).nextPoll
  }

  lemma {:induction false} PromptPollsAreClose(polls: seq<Poll>)
    requires PolledInTime(polls)
    ensures TimeMoves(polls, MAX_GAP)
  {
    hide StateBefore, ToastsDue, CountdownOf, Least, MarksAt, Crossed;
  }

  /**
    Main result: an action first seen with more than 900 seconds left and still pending at a poll with 30 or fewer
    left gets exactly the warnings 900, 300, 60 and 30, in that order, whatever else comes and goes.
  */
  lemma {:induction false} FourWarnings(polls: seq<Poll>, x: ActionId, at: Instant, i: nat, j: nat)
    requires i < j <= |polls| && FixedAt(polls, x, at) && PolledInTime(polls) && PresentBetween(polls, x, i, j)
    requires i > 0 ==> !Present(polls, x, i - 1)
    requires NumSeconds(at - polls[i].now) > 900 && NumSeconds(at - polls[j - 1].now) <= 30
    ensures HeardBetween(polls, x, i, j) == [900, 300, 60, 30]
  {
    PromptPollsAreClose(polls);
    EveryMarkWarned(polls, x, at, i, j);
  }

  // ---------------------------------------------------------------- from the agent's schedule to the warnings

  /** The polls of a notifier whose agent has `schedules[k]` cached at poll `k`. */
  function PollsOf(schedules: seq<Option<AgentSchedule>>, nows: seq<Instant>): (r: seq<Poll>)
    requires |schedules| == |nows|
    ensures |r| == |nows| && forall k :: 0 <= k < |r| ==> r[k] == Poll(UpcomingActions(schedules[k], nows[k]), nows[k])
  {
    seq(|nows|, k requires 0 <= k < |nows| => Poll(UpcomingActions(schedules[k], nows[k]), nows[k]))
  }

  predicate Announces(schedule: Option<AgentSchedule>, action: ScheduleAction, at: Instant) {
    schedule.Some? && schedule.value.action == action
    && exists i :: 0 <= i < |schedule.value.windows| && schedule.value.windows[i].offAt == at
  }

  /** An action is reported exactly when a window of the schedule starts within the next half hour. */
  lemma {:induction false} ReportedExactly(schedule: Option<AgentSchedule>, now: Instant, action: ScheduleAction, at: Instant)
    ensures AlwaysAt(UpcomingActions(schedule, now), ActionId(action, at), at)
    ensures (exists i :: 0 <= i < |UpcomingActions(schedule, now)| && UpcomingActions(schedule, now)[i].id == ActionId(action, at))
       <==> Announces(schedule, action, at) && now < at <= now + HORIZON_MS
  {
    if schedule.Some? {
      var p, windows := StartingWithin(now, HORIZON_MS), schedule.value.windows;
      FilterMembers(p, windows);
      hide Filter;
      var kept, r := Filter(p, windows), UpcomingActions(schedule, now);
      forall i | 0 <= i < |r| && r[i].id == ActionId(action, at)
        ensures Announces(schedule, action, at) && now < at <= now + HORIZON_MS
      {
        assert kept[i] in kept;
      }
      if Announces(schedule, action, at) && now < at <= now + HORIZON_MS {
        var i :| 0 <= i < |windows| && windows[i].offAt == at;
        assert windows[i] in kept;
        var k :| 0 <= k < |kept| && kept[k] == windows[i];
        assert r[k].id == ActionId(action, at);
      }
    }
  }

  ghost predicate NowsMove(nows: seq<Instant>, maxGap: int) {
    forall k :: 0 <= k < |nows| - 1 ==> 0 <= nows[k + 1] - nows[k] <= maxGap
  }

  lemma {:induction false} PresentExactly(schedules: seq<Option<AgentSchedule>>, nows: seq<Instant>, action: ScheduleAction, at: Instant)
    requires |schedules| == |nows|
    ensures FixedAt(PollsOf(schedules, nows), ActionId(action, at), at)
    ensures forall k :: 0 <= k < |nows| ==>
              (Present(PollsOf(schedules, nows), ActionId(action, at), k)
               <==> Announces(schedules[k], action, at) && nows[k] < at <= nows[k] + HORIZON_MS)
  {
    hide UpcomingActions, Announces;
    var polls := PollsOf(schedules, nows);
    forall k | 0 <= k < |nows|
      ensures AlwaysAt(polls[k].actions, ActionId(action, at), at)
      ensures Present(polls, ActionId(action, at), k) <==> Announces(schedules[k], action, at) && nows[k] < at <= nows[k] + HORIZON_MS
    {
      ReportedExactly(schedules[k], nows[k], action, at);
    }
  }

  lemma {:induction false} SilentBefore(polls: seq<Poll>, x: ActionId, at: Instant, i: nat)
    requires i <= |polls| && FixedAt(polls, x, at) && forall k :: 0 <= k < i ==> !Present(polls, x, k)
    ensures HeardBetween(polls, x, 0, i) == []
  {
    hide HeardAt, Fired, Present, CrossedAt, FixedAt;
    if i > 0 {
      SilentBefore(polls, x, at, i - 1);
      PollStep(polls, x, at, i - 1);
    }
  }

  lemma {:induction false} HeardSplits(polls: seq<Poll>, x: ActionId, i: nat, j: nat)
    requires i <= j <= |polls|
    ensures HeardBetween(polls, x, 0, j) == HeardBetween(polls, x, 0, i) + HeardBetween(polls, x, i, j)
  {
    hide HeardAt;
    if i < j {
      HeardSplits(polls, x, i, j - 1);
    }
  }

  lemma {:induction false} Ordered(nows: seq<Instant>, maxGap: int, i: nat, j: nat)
    requires NowsMove(nows, maxGap) && i <= j < |nows|
    ensures nows[i] <= nows[j]
    decreases j
  {
    if i < j {
      Ordered(nows, maxGap, i, j - 1);
    }
  }

  function FirstWithin(nows: seq<Instant>, at: Instant): (i: nat)
    ensures i <= |nows|
    ensures forall k :: 0 <= k < i ==> at > nows[k] + HORIZON_MS
    ensures i < |nows| ==> at <= nows[i] + HORIZON_MS
  {
    if nows == [] || at <= nows[0] + HORIZON_MS then 0 else
    var rest := FirstWithin(nows[1..], at);
    assert forall k :: 1 <= k < |nows| ==> nows[k] == nows[1..][k - 1];
    1 + rest
  }

  /** From the first poll within the half hour on, the action is pending at every poll; before it, at none. */
  lemma {:induction false} PendingFrom(schedules: seq<Option<AgentSchedule>>, nows: seq<Instant>, action: ScheduleAction, at: Instant, i: nat)
    requires |schedules| == |nows| > 0 && NowsMove(nows, MAX_GAP) && i == FirstWithin(nows, at) < |nows| && nows[|nows| - 1] < at
    requires forall k :: 0 <= k < |nows| ==> Announces(schedules[k], action, at)
    ensures PresentBetween(PollsOf(schedules, nows), ActionId(action, at), i, |nows|)
    ensures forall k :: 0 <= k < i ==> !Present(PollsOf(schedules, nows), ActionId(action, at), k)
  {
    hide Announces, UpcomingActions, Present, FixedAt;
    PresentExactly(schedules, nows, action, at);
    forall k | i <= k < |nows|
      ensures Present(PollsOf(schedules, nows), ActionId(action, at), k)
    {
      Ordered(nows, MAX_GAP, i, k);
      Ordered(nows, MAX_GAP, k, |nows| - 1);
    }
  }

  /**
    Main result, from schedule to warnings: as long as the agent's cached schedules keep a window starting at `at`,
    a notifier polling at least every 30 seconds, from over 900 seconds before `at` until the last 30, warns of it at
    exactly 900, 300, 60 and 30 seconds, however long before it started and whatever else the schedules hold.
  */
  lemma {:induction false} EveryOffTimeAnnounced(schedules: seq<Option<AgentSchedule>>, nows: seq<Instant>, action: ScheduleAction, at: Instant)
    requires |schedules| == |nows| > 0 && NowsMove(nows, MAX_GAP)
    requires forall k :: 0 <= k < |nows| ==> Announces(schedules[k], action, at)
    requires NumSeconds(at - nows[0]) > 900 && NumSeconds(at - nows[|nows| - 1]) <= 30 && nows[|nows| - 1] < at
    ensures HeardBetween(PollsOf(schedules, nows), ActionId(action, at), 0, |nows|) == [900, 300, 60, 30]
  {
    hide HeardBetween, Announces, UpcomingActions, Present, FixedAt, NumSeconds, Passed, StateBefore, TimeMoves, NowsMove, PresentBetween;
    var polls, x, i := PollsOf(schedules, nows), ActionId(action, at), FirstWithin(nows, at);
    LastIsNear(at - nows[|nows| - 1]);
    PollsMove(schedules, nows);
    PresentExactly(schedules, nows, action, at);
    PendingFrom(schedules, nows, action, at, i);
    SilentBefore(polls, x, at, i);
    HeardSplits(polls, x, i, |nows|);
    StillFarOff(nows, at, i);
    EveryMarkWarned(polls, x, at, i, |nows|);
    LastMark(NumSeconds(at - nows[|nows| - 1]));
  }

  lemma {:induction false} PollsMove(schedules: seq<Option<AgentSchedule>>, nows: seq<Instant>)
    requires |schedules| == |nows| && NowsMove(nows, MAX_GAP)
    ensures TimeMoves(PollsOf(schedules, nows), MAX_GAP)
  {
    hide UpcomingActions;
  }

  lemma {:induction false} LastIsNear(left: int)
    requires NumSeconds(left) <= 30
    ensures left <= HORIZON_MS
  {}

  lemma {:induction false} LastMark(remaining: int)
    requires remaining <= 30
    ensures Passed(remaining) == [900, 300, 60, 30]
  {}

  /** The first poll within the half hour still has more than 900 seconds left. */
  lemma {:induction false} StillFarOff(nows: seq<Instant>, at: Instant, i: nat)
    requires i < |nows| && NowsMove(nows, MAX_GAP) && NumSeconds(at - nows[0]) > 900
    requires i > 0 ==> at > nows[i - 1] + HORIZON_MS
    ensures NumSeconds(at - nows[i]) > 900
  {
    if i > 0 {
      assert nows[i] - nows[i - 1] <= MAX_GAP;
    }
  }
}
