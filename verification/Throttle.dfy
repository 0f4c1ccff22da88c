/**
 * Coalescing sends: a timed state machine (live/src/lib/presence.ts, `createThrottle`).
 */
module Throttle {
  import opened Wrappers
  import opened Text

  type TimerId = nat

  /**
   * The closure's variables, then the clock and the running timers with their deadlines.
   * An absent `lastSent` is minus infinity, an absent `due` is infinity.
   */
  datatype State = State(lastSent: Option<int>, timer: Option<TimerId>, due: Option<int>,
                         clock: int, timers: map<TimerId, int>, nextTimer: TimerId)

  function Start(clock: int): State {
    State(None, None, None, clock, map[], 0)
  }

  datatype Step = Request(now: int, ms: int) | Cancel(now: int) | Fire(timer: TimerId, now: int)

  /** Time does not run backwards, and timers do not fire early. */
  predicate Legal(s: State, step: Step) {
    && s.clock <= step.now
    && (step.Fire? ==> step.timer in s.timers && s.timers[step.timer] <= step.now)
  }

  /** When a request made at `now` may be sent. */
  function Allowed(lastSent: Option<int>, now: int, ms: int): int {
    match lastSent case None => now case Some(t) => Max(now, t + ms)
  }

  function ClearTimer(s: State): State {
    if s.timer.Some? then s.(timers := s.timers - {s.timer.value}) else s
  }

  function Apply(s: State, step: Step): State {
    match step
    case Request(now, ms) =>
      var at := Allowed(s.lastSent, now, ms);
      if s.timer.Some? && s.due.Some? && at >= s.due.value then s.(clock := now)
      else
        var t := ClearTimer(s);
        t.(due := Some(at), timer := Some(t.nextTimer), timers := t.timers[t.nextTimer := at], nextTimer := t.nextTimer + 1, clock := now)
    case Cancel(now) => ClearTimer(s).(timer := None, due := None, clock := now)
    case Fire(timer, now) =>
      s.(timers := s.timers - {timer}, timer := None, due := None, lastSent := Some(now), clock := now)
  }

  // --- The class ----------------------------------------------------------------------

  class ThrottledSender {
    var lastSent: Option<int>
    var timer: Option<TimerId>
    var due: Option<int>

    var clock: int
    var timers: map<TimerId, int>
    var nextTimer: TimerId
    ghost var sends: seq<int>

    ghost function Model(): State
      reads this
    {
      State(lastSent, timer, due, clock, timers, nextTimer)
    }

    constructor (now: int)
      ensures Model() == Start(now) && sends == []
    {
      lastSent, timer, due := None, None, None;
      clock, timers, nextTimer, sends := now, map[], 0, [];
    }

    method ClearTimeout()
      modifies `timers
      ensures Model() == ClearTimer(old(Model()))
    {
      if timer.Some? {
        timers := timers - {timer.value};
      }
    }

    method Request(now: int, ms: int)
      requires Legal(Model(), Step.Request(now, ms))
      modifies this
      ensures Model() == Apply(old(Model()), Step.Request(now, ms)) && sends == old(sends)
    {
      clock := now;
      var at := Allowed(lastSent, now, ms);
      if timer.Some? {
        if due.Some? && at >= due.value {
          return;
        }
        ClearTimeout();
      }
      due := Some(at);
      timers := timers[nextTimer := now + (at - now)];
      timer := Some(nextTimer);
      nextTimer := nextTimer + 1;
    }

    method Cancel(now: int)
      requires Legal(Model(), Step.Cancel(now))
      modifies this
      ensures Model() == Apply(old(Model()), Step.Cancel(now)) && sends == old(sends)
    {
      clock := now;
      ClearTimeout();
      timer, due := None, None;
    }

    method Fire(id: TimerId, now: int)
      requires Legal(Model(), Step.Fire(id, now))
      modifies this
      ensures Model() == Apply(old(Model()), Step.Fire(id, now)) && sends == old(sends) + [now]
    {
      clock := now;
      timers := timers - {id};
      timer, due := None, None;
      lastSent := Some(now);
      sends := sends + [now];
    }
  }

  // --- Runs with their history --------------------------------------------------------------

  datatype Asked = Asked(at: int, ms: int)

  /** A send, and the requests it answered: those made since the send or cancel before it. */
  datatype Send = Send(at: int, answers: seq<Asked>)

  /** What happened so far: all sends, and the requests since the last send or cancel. */
  datatype History = History(sends: seq<Send>, waiting: seq<Asked>)

  function Record(h: History, step: Step): History {
    match step
    case Request(now, ms) => h.(waiting := h.waiting + [Asked(now, ms)])
    case Cancel(_) => h.(waiting := [])
    case Fire(_, now) => History(h.sends + [Send(now, h.waiting)], [])
  }

  ghost predicate AllLegal(s: State, steps: seq<Step>)
    decreases |steps|
  {
    steps != [] ==> Legal(s, steps[0]) && AllLegal(Apply(s, steps[0]), steps[1..])
  }

  function RunAll(s: State, steps: seq<Step>): State
    decreases |steps|
  {
    if steps == [] then s else RunAll(Apply(s, steps[0]), steps[1..])
  }

  function RecordAll(h: History, steps: seq<Step>): History
    decreases |steps|
  {
    if steps == [] then h else RecordAll(Record(h, steps[0]), steps[1..])
  }

  /** A request may go out when it is made, or, if that is later, `ms` after the last send. */
  function Soonest(lastSent: Option<int>, r: Asked): int {
    if lastSent.Some? && lastSent.value + r.ms > r.at then lastSent.value + r.ms else r.at
  }

  /** `due` is the earliest time any waiting request may go out. */
  ghost predicate Earliest(due: int, lastSent: Option<int>, waiting: seq<Asked>) {
    && (exists r | r in waiting :: Soonest(lastSent, r) == due)
    && (forall r | r in waiting :: due <= Soonest(lastSent, r))
  }

  /** A send comes at least as long after the one before as one of the requests it answers asked for. */
  ghost predicate Spaced(earlier: Send, later: Send) {
    exists r | r in later.answers :: later.at - earlier.at >= r.ms
  }

  /** A send comes no earlier than some request it answers was made. */
  ghost predicate Answered(send: Send) {
    exists r | r in send.answers :: r.at <= send.at
  }

  ghost predicate Inv(s: State, h: History) {
    && (s.timer.Some? <==> s.due.Some?)
    && s.timers == (if s.timer.Some? then map[s.timer.value := s.due.value] else map[])
    && (forall t | t in s.timers :: t < s.nextTimer)
    && (s.due.None? <==> h.waiting == [])
    && (s.due.Some? ==> Earliest(s.due.value, s.lastSent, h.waiting))
    && s.lastSent == (if h.sends == [] then None else Some(h.sends[|h.sends| - 1].at))
    && (forall i | 0 < i < |h.sends| :: Spaced(h.sends[i - 1], h.sends[i]))
    && (forall i | 0 <= i < |h.sends| :: Answered(h.sends[i]))
  }

  lemma RequestKeeps(s: State, h: History, now: int, ms: int)
    requires Inv(s, h) && Legal(s, Request(now, ms))
    ensures Inv(Apply(s, Request(now, ms)), Record(h, Request(now, ms)))
  {
    var r, at, waiting := Asked(now, ms), Allowed(s.lastSent, now, ms), h.waiting + [Asked(now, ms)];
    assert r in waiting;
    assert forall x :: x in waiting <==> x in h.waiting || x == r;
    assert Soonest(s.lastSent, r) == at;
    if s.due.Some? && at >= s.due.value {
      var x :| x in h.waiting && Soonest(s.lastSent, x) == s.due.value;
      assert x in waiting;
      assert Earliest(s.due.value, s.lastSent, waiting);
    } else {
      assert Earliest(at, s.lastSent, waiting);
    }
  }

  lemma FireKeeps(s: State, h: History, timer: TimerId, now: int)
    requires Inv(s, h) && Legal(s, Fire(timer, now))
    ensures Inv(Apply(s, Fire(timer, now)), Record(h, Fire(timer, now)))
  {
    var r := Record(h, Fire(timer, now));
    var send := Send(now, h.waiting);
    var x :| x in h.waiting && Soonest(s.lastSent, x) == s.due.value;
    assert x in send.answers && x.at <= now;
    assert Answered(send);
    if h.sends != [] {
      assert Spaced(h.sends[|h.sends| - 1], send);
    }
    forall i | 0 < i < |r.sends| ensures Spaced(r.sends[i - 1], r.sends[i]) {
      assert i < |h.sends| ==> r.sends[i - 1] == h.sends[i - 1] && r.sends[i] == h.sends[i];
    }
  }

  lemma StepKeeps(s: State, h: History, step: Step)
    requires Inv(s, h) && Legal(s, step)
    ensures Inv(Apply(s, step), Record(h, step))
  {
    match step
    case Request(now, ms) => RequestKeeps(s, h, now, ms);
    case Cancel(_) =>
    case Fire(timer, now) => FireKeeps(s, h, timer, now);
  }

  lemma {:induction false} RunKeeps(s: State, h: History, steps: seq<Step>)
    requires Inv(s, h) && AllLegal(s, steps)
    ensures Inv(RunAll(s, steps), RecordAll(h, steps))
    decreases |steps|
  {
    if steps != [] {
      StepKeeps(s, h, steps[0]);
      RunKeeps(Apply(s, steps[0]), Record(h, steps[0]), steps[1..]);
    }
  }

  /**
   * In every reachable state: one timer runs exactly when a request waits; it is due at the minimum,
   * over the requests since the last send or cancel, of max(request time, last send + ms); and
   * consecutive sends are at least the smallest delay asked for apart.
   */
  lemma EveryRun(clock: int, steps: seq<Step>)
    requires AllLegal(Start(clock), steps)
    ensures var s, h := RunAll(Start(clock), steps), RecordAll(History([], []), steps);
            && (s.timer.Some? <==> s.due.Some?)
            && (s.timer.Some? <==> h.waiting != [])
            && (s.timer.Some? ==> s.timers == map[s.timer.value := s.due.value] && Earliest(s.due.value, s.lastSent, h.waiting))
            && (s.timer.None? ==> s.timers == map[])
            && forall i | 0 < i < |h.sends| :: Spaced(h.sends[i - 1], h.sends[i])
  {
    RunKeeps(Start(clock), History([], []), steps);
  }

  /** A request that may go out no sooner than the pending send leaves its timer alone; a sooner one pulls it forward. */
  lemma PulledForward(s: State, h: History, now: int, ms: int)
    requires Inv(s, h) && Legal(s, Request(now, ms)) && s.timer.Some?
    ensures var r, soonest := Apply(s, Request(now, ms)), Soonest(s.lastSent, Asked(now, ms));
            && r.lastSent == s.lastSent
            && if soonest >= s.due.value then r.timer == s.timer && r.timers == s.timers && r.due == s.due
               else r.timer.Some? && r.timer != s.timer && r.timers == map[r.timer.value := soonest] && r.due == Some(soonest)
  {
    RequestKeeps(s, h, now, ms);
    assert s.timer.value in s.timers;
  }

  /**
   * No request is forgotten: after a request, as long as nothing is cancelled, a send comes or one
   * is pending that is due no later than the request allows.
   */
  lemma {:induction false} RequestServed(s: State, h: History, steps: seq<Step>, r: Asked)
    requires Inv(s, h) && AllLegal(s, steps) && r in h.waiting
    requires forall step | step in steps :: !step.Cancel?
    ensures (exists step | step in steps :: step.Fire?)
            || (RunAll(s, steps).due.Some? && RunAll(s, steps).due.value <= Soonest(s.lastSent, r))
    decreases |steps|
  {
    if steps != [] {
      var first, rest := steps[0], steps[1..];
      StepKeeps(s, h, first);
      if first.Request? {
        assert r in Record(h, first).waiting;
        RequestServed(Apply(s, first), Record(h, first), rest, r);
        if step :| step in rest && step.Fire? {
          assert step in steps;
        }
      } else {
        assert first in steps && first.Fire?;
      }
    }
  }
}
