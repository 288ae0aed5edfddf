/** The notifier's warnings: which are due at each poll, given what the agent reports as coming up. Times are milliseconds. */
module NotifierEngine {
  import opened Lists
  import opened ScheduleResolver
  import opened DeviceService

  /** A warning falls due as the seconds left come down to each of these. */
  const THRESHOLDS := [900, 300, 60, 30]
  const COUNTDOWN_SECONDS := 60
  const FAST_POLL_WITHIN_SECONDS := 90
  const FAST_POLL := 2_000
  const SLOW_POLL := 10_000
  const HORIZON_MS := 30 * 60_000

  /** Derived by the agent from the action and its time by hashing; the hash is taken to be injective. */
  datatype ActionId = ActionId(action: ScheduleAction, offAt: Instant)
  datatype PendingAction = PendingAction(id: ActionId, at: Instant)

  // ---------------------------------------------------------------- what the agent reports

  function StartingWithin(now: Instant, ms: int): OffWindow -> bool {
    (w: OffWindow) => now < w.offAt <= now + ms
  }

  function PendingOf(action: ScheduleAction, windows: seq<OffWindow>): (r: seq<PendingAction>)
    ensures |r| == |windows|
    ensures forall i :: 0 <= i < |r| ==> r[i] == PendingAction(ActionId(action, windows[i].offAt), windows[i].offAt)
  {
    seq(|windows|, i requires 0 <= i < |windows| => PendingAction(ActionId(action, windows[i].offAt), windows[i].offAt))
  }

  function UpcomingActions(schedule: Option<AgentSchedule>, now: Instant): seq<PendingAction> {
    if schedule.None? then []
    else PendingOf(schedule.value.action, Filter(StartingWithin(now, HORIZON_MS), schedule.value.windows))
  }

  // ---------------------------------------------------------------- which warning an action has reached

  /** Whole seconds, truncated toward zero. */
  function NumSeconds(ms: int): int {
    if ms >= 0 then ms / 1000 else -((-ms) / 1000)
  }

  function Remaining(a: PendingAction, now: Instant): int {
    NumSeconds(a.at - now)
  }

  function AtLeast(x: int): int -> bool {
    (t: int) => x <= t
  }

  function Least(s: seq<int>): (r: Option<int>)
    ensures r.None? <==> s == []
    ensures r.Some? ==> r.value in s && forall x :: x in s ==> r.value <= x
  {
    if s == [] then None
    else
      var front := Least(s[..|s| - 1]);
      assert s == s[..|s| - 1] + [s[|s| - 1]];
      if front.Some? && front.value <= s[|s| - 1] then front else Some(s[|s| - 1])
  }

  /** The tightest threshold already crossed. */
  function Crossed(remaining: int): Option<int> {
    Least(Filter(AtLeast(remaining), THRESHOLDS))
  }

  lemma {:induction false} CrossedIs(remaining: int)
    ensures Crossed(remaining) == if remaining <= 30 then Some(30) else if remaining <= 60 then Some(60)
                                  else if remaining <= 300 then Some(300) else if remaining <= 900 then Some(900) else None
  {
    FilterMembers(AtLeast(remaining), THRESHOLDS);
    hide Filter;
    var f := Filter(AtLeast(remaining), THRESHOLDS);
    assert forall x :: x in f <==> (x == 900 || x == 300 || x == 60 || x == 30) && remaining <= x;
    assert remaining <= 900 ==> 900 in f;
    assert remaining <= 300 ==> 300 in f;
    assert remaining <= 60 ==> 60 in f;
    assert remaining <= 30 ==> 30 in f;
  }

  // ---------------------------------------------------------------- the engine

  datatype Mark = Mark(id: ActionId, threshold: int)
  datatype EngineState = EngineState(fired: set<Mark>, known: set<ActionId>)
  datatype ToastDue = ToastDue(action: PendingAction, threshold: int, remaining: int)
  datatype Tick = Tick(toasts: seq<ToastDue>, cancelled: set<ActionId>, countdown: seq<ActionId>, nextPoll: int)

  function Live(actions: seq<PendingAction>): set<ActionId> {
    set a | a in actions :: a.id
  }

  function Kept(fired: set<Mark>, live: set<ActionId>): set<Mark> {
    set m | m in fired && m.id in live
  }

  /** The marks the actions stand at. */
  function MarksAt(actions: seq<PendingAction>, now: Instant): set<Mark> {
    set a | a in actions && Crossed(Remaining(a, now)).Some? :: Mark(a.id, Crossed(Remaining(a, now)).value)
  }

  /** One warning for each action standing at a mark that neither a kept mark nor an earlier action has covered. */
  function ToastsDue(kept: set<Mark>, actions: seq<PendingAction>, now: Instant): seq<ToastDue> {
    if actions == [] then []
    else
      var front, a := actions[..|actions| - 1], actions[|actions| - 1];
      var threshold := Crossed(Remaining(a, now));
      ToastsDue(kept, front, now)
      + if threshold.Some? && Mark(a.id, threshold.value) !in kept + MarksAt(front, now)
        then [ToastDue(a, threshold.value, Remaining(a, now))] else []
  }

  function CountdownOf(actions: seq<PendingAction>, now: Instant): seq<ActionId> {
    if actions == [] then []
    else
      CountdownOf(actions[..|actions| - 1], now)
      + if Remaining(actions[|actions| - 1], now) <= COUNTDOWN_SECONDS then [actions[|actions| - 1].id] else []
  }

  function SecondsLeft(actions: seq<PendingAction>, now: Instant): (r: seq<int>)
    ensures |r| == |actions| && forall i :: 0 <= i < |r| ==> r[i] == Remaining(actions[i], now)
  {
    seq(|actions|, i requires 0 <= i < |actions| => Remaining(actions[i], now))
  }

  function NextPoll(soonest: Option<int>): int {
    if soonest.Some? && soonest.value <= FAST_POLL_WITHIN_SECONDS then FAST_POLL else SLOW_POLL
  }

  function Updated(s: EngineState, actions: seq<PendingAction>, now: Instant): EngineState {
    EngineState(Kept(s.fired, Live(actions)) + MarksAt(actions, now), Live(actions))
  }

  /** Ids pending before and no longer pending are cancelled. */
  function TickFor(s: EngineState, actions: seq<PendingAction>, now: Instant): Tick {
    Tick(ToastsDue(Kept(s.fired, Live(actions)), actions, now), s.known - Live(actions), CountdownOf(actions, now),
         NextPoll(Least(SecondsLeft(actions, now))))
  }

  lemma {:induction false} MarksAtAppend(front: seq<PendingAction>, a: PendingAction, now: Instant)
    ensures MarksAt(front + [a], now)
         == MarksAt(front, now) + if Crossed(Remaining(a, now)).Some? then {Mark(a.id, Crossed(Remaining(a, now)).value)} else {}
  {
    hide Crossed, Remaining;
    forall m
      ensures m in MarksAt(front + [a], now)
         <==> (m in MarksAt(front, now) + if Crossed(Remaining(a, now)).Some? then {Mark(a.id, Crossed(Remaining(a, now)).value)} else {})
    {
      if m in MarksAt(front, now) {
        var b :| b in front && Crossed(Remaining(b, now)).Some? && m == Mark(b.id, Crossed(Remaining(b, now)).value);
        assert b in front + [a];
      }
      assert a in front + [a];
    }
  }

  lemma {:induction false} DueStep(kept: set<Mark>, actions: seq<PendingAction>, i: nat, now: Instant)
    requires i < |actions|
    ensures var threshold := Crossed(Remaining(actions[i], now));
            && ToastsDue(kept, actions[..i + 1], now)
               == ToastsDue(kept, actions[..i], now)
                  + (if threshold.Some? && Mark(actions[i].id, threshold.value) !in kept + MarksAt(actions[..i], now)
                     then [ToastDue(actions[i], threshold.value, Remaining(actions[i], now))] else [])
            && MarksAt(actions[..i + 1], now)
               == MarksAt(actions[..i], now) + (if threshold.Some? then {Mark(actions[i].id, threshold.value)} else {})
  {
    hide Crossed, Remaining, MarksAt;
    assert actions[..i + 1] == actions[..i] + [actions[i]] && actions[..i + 1][..i] == actions[..i];
    MarksAtAppend(actions[..i], actions[i], now);
  }

  lemma {:induction false} CountdownStep(actions: seq<PendingAction>, i: nat, now: Instant)
    requires i < |actions|
    ensures CountdownOf(actions[..i + 1], now)
         == CountdownOf(actions[..i], now) + if Remaining(actions[i], now) <= COUNTDOWN_SECONDS then [actions[i].id] else []
  {
    hide Remaining;
    assert actions[..i + 1][..i] == actions[..i];
  }

  lemma {:induction false} LeastStep(s: seq<int>, i: nat)
    requires i < |s|
    ensures Least(s[..i + 1]) == Some(if Least(s[..i]).Some? && Least(s[..i]).value <= s[i] then Least(s[..i]).value else s[i])
  {
    assert s[..i + 1][..i] == s[..i];
  }

  lemma {:induction false} NothingDue(kept: set<Mark>, now: Instant)
    ensures ToastsDue(kept, [], now) == [] && CountdownOf([], now) == [] && MarksAt([], now) == {} && Least([]) == None
  {}

  lemma {:induction false} CountdownMembers(actions: seq<PendingAction>, now: Instant)
    ensures forall id :: id in CountdownOf(actions, now) <==> exists a :: a in actions && a.id == id && Remaining(a, now) <= COUNTDOWN_SECONDS
  {
    hide Remaining;
    if actions != [] {
      var front, last := actions[..|actions| - 1], actions[|actions| - 1];
      assert actions == front + [last];
      CountdownMembers(front, now);
    }
  }

  /**
    Beside the warnings, a poll cancels exactly the actions known before and no longer pending, counts down exactly
    those with a minute or less left, and asks for a fast poll exactly when some action has 90 seconds or less.
  */
  lemma {:induction false} TickExact(s: EngineState, actions: seq<PendingAction>, now: Instant)
    ensures var tick := TickFor(s, actions, now);
            && (forall id :: id in tick.cancelled <==> id in s.known && forall a :: a in actions ==> a.id != id)
            && (forall id :: id in tick.countdown <==> exists a :: a in actions && a.id == id && Remaining(a, now) <= COUNTDOWN_SECONDS)
            && (tick.nextPoll == FAST_POLL <==> exists a :: a in actions && Remaining(a, now) <= FAST_POLL_WITHIN_SECONDS)
            && (tick.nextPoll == FAST_POLL || tick.nextPoll == SLOW_POLL)
  {
    hide Remaining, CountdownOf, ToastsDue, Kept;
    CountdownMembers(actions, now);
    var left := SecondsLeft(actions, now);
    if a :| a in actions && Remaining(a, now) <= FAST_POLL_WITHIN_SECONDS {
      var i :| 0 <= i < |actions| && actions[i] == a;
      assert left[i] in left;
    }
    if NextPoll(Least(left)) == FAST_POLL {
      var i :| 0 <= i < |left| && left[i] == Least(left).value;
      assert actions[i] in actions;
    }
  }

  class Engine {
    var fired: set<Mark>
    var known: set<ActionId>

    ghost function State(): EngineState
      reads this
    {
      EngineState(fired, known)
    }

    constructor ()
      ensures State() == EngineState({}, {})
    {
      fired, known := {}, {};
    }

    method Update(actions: seq<PendingAction>, now: Instant) returns (tick: Tick)
      modifies this
      ensures State() == Updated(old(State()), actions, now)
      ensures tick == TickFor(old(State()), actions, now)
    {
      hide Crossed, Remaining, NextPoll, ToastsDue, CountdownOf, Least, MarksAt;
      var live := Live(actions);
      var cancelled := known - live;
      fired := Kept(fired, live);
      known := live;
      ghost var kept, left := fired, SecondsLeft(actions, now);
      var toasts: seq<ToastDue> := [];
      var countdown: seq<ActionId> := [];
      var soonest: Option<int> := None;
      NothingDue(kept, now);
      assert actions[..0] == [] && left[..0] == [];
      for i := 0 to |actions|
        invariant known == live
        invariant fired == kept + MarksAt(actions[..i], now)
        invariant toasts == ToastsDue(kept, actions[..i], now)
        invariant countdown == CountdownOf(actions[..i], now)
        invariant soonest == Least(left[..i])
      {
        DueStep(kept, actions, i, now);
        CountdownStep(actions, i, now);
        LeastStep(left, i);
        var action := actions[i];
        var remaining := Remaining(action, now);
        soonest := Some(if soonest.Some? && soonest.value <= remaining then soonest.value else remaining);
        var threshold := Crossed(remaining);
        if threshold.Some? {
          var mark := Mark(action.id, threshold.value);
          if mark !in fired {
            toasts := toasts + [ToastDue(action, threshold.value, remaining)];
          }
          fired := fired + {mark};
        }
        if remaining <= COUNTDOWN_SECONDS {
          countdown := countdown + [action.id];
        }
      }
      assert actions[..|actions|] == actions && left[..|actions|] == left;
      tick := Tick(toasts, cancelled, countdown, NextPoll(soonest));
    }
  }

  // ---------------------------------------------------------------- the numbers of a poll

  lemma {:induction false} SecondsLeftExact(a: PendingAction, now: Instant)
    ensures var left, ms := Remaining(a, now), a.at - now;
            && (ms >= 0 ==> left * 1000 <= ms < left * 1000 + 1000)
            && (ms <= 0 ==> left * 1000 - 1000 < ms <= left * 1000)
  {}

  /** An action is counted down in its last minute, and a poll is due in 2 seconds if one has 90 seconds or less, else in 10. */
  lemma {:induction false} PollExact(s: EngineState, actions: seq<PendingAction>, now: Instant)
    ensures var tick := TickFor(s, actions, now);
            && (forall id :: id in tick.countdown <==> exists a :: a in actions && a.id == id && a.at - now < 61_000)
            && tick.nextPoll == if exists a :: a in actions && a.at - now < 91_000 then 2_000 else 10_000
  {
    TickExact(s, actions, now);
    hide TickFor, Remaining;
    forall a
      ensures Remaining(a, now) <= 60 <==> a.at - now < 61_000
      ensures Remaining(a, now) <= 90 <==> a.at - now < 91_000
    {
      SecondsLeftExact(a, now);
    }
  }

  /** A warning is of an action reported, at the tightest mark of 900, 300, 60 and 30 seconds it has come to. */
  lemma {:induction false} WarningExact(kept: set<Mark>, actions: seq<PendingAction>, now: Instant, toast: ToastDue)
    requires toast in ToastsDue(kept, actions, now)
    ensures toast.action in actions && toast.remaining == Remaining(toast.action, now)
    ensures Mark(toast.action.id, toast.threshold) !in kept
    ensures var ms := toast.action.at - now;
            && ms < 901_000
            && toast.threshold == if ms < 31_000 then 30 else if ms < 61_000 then 60 else if ms < 301_000 then 300 else 900
  {
    hide Crossed, Remaining, MarksAt;
    var front, a := actions[..|actions| - 1], actions[|actions| - 1];
    assert actions == front + [a];
    if toast in ToastsDue(kept, front, now) {
      WarningExact(kept, front, now, toast);
    } else {
      CrossedIs(Remaining(a, now));
      SecondsLeftExact(a, now);
    }
  }

  /** What is reported of a schedule: its windows that start within the next 30 minutes, under its own action. */
  lemma {:induction false} UpcomingExact(schedule: AgentSchedule, now: Instant, a: PendingAction)
    ensures a in UpcomingActions(Some(schedule), now)
       <==> && a.at == a.id.offAt && a.id.action == schedule.action && now < a.at <= now + 1_800_000
            && exists w :: w in schedule.windows && w.offAt == a.at
  {
    var p, windows := StartingWithin(now, HORIZON_MS), schedule.windows;
    FilterMembers(p, windows);
    hide Filter;
    var kept, r := Filter(p, windows), UpcomingActions(Some(schedule), now);
    if a in r {
      var i :| 0 <= i < |r| && r[i] == a;
      assert kept[i] in kept;
    }
    if w :| w in windows && w.offAt == a.at && now < a.at <= now + 1_800_000 {
      var k :| 0 <= k < |kept| && kept[k] == w;
      assert r[k] == PendingAction(ActionId(schedule.action, a.at), a.at);
    }
  }
}
