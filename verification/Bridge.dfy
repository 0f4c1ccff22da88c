/**
 * The host's side of the comment overlay in an HTML preview frame
 * (live/src/lib/html-comment-bridge.ts, `createHtmlCommentBridge`).
 */
module Bridge {
  import opened Wrappers

  /** A well-formed overlay message. `Other` stands for selection, activate and hover messages. */
  datatype FrameMessage = Hello(path: string) | Bye | PageText(text: string) | Other(content: string)

  /** A message from this host to the overlay. */
  datatype HostMessage = Host | Command(content: string)

  /** What the bridge hands to its owner, and what it posts into the frame. */
  datatype Output = Reset | DeliverText(text: string) | Deliver(content: string) | Posted(msg: HostMessage)

  /** The closure's variables, and how many scheduled callbacks have not run yet. */
  datatype State = State(hosted: bool, helloSinceLoad: bool, pendingText: Option<string>, disposed: bool, scheduled: nat)

  const Start := State(false, false, None, false, 0)

  datatype Event =
    | Message(msg: FrameMessage)
    | Foreign          // from another window, or malformed
    | Load
    | Tick             // a scheduled callback runs
    | Post(order: HostMessage)
    | Dispose

  /** Only a scheduled callback can run. */
  predicate Legal(s: State, e: Event) {
    e.Tick? ==> s.scheduled > 0
  }

  // --- The code -------------------------------------------------------------------------

  function Unhost(s: State): (State, seq<Output>) {
    if s.hosted then (s.(pendingText := None, hosted := false), [Reset]) else (s.(pendingText := None), [])
  }

  function OnMessage(s: State, path: string, msg: FrameMessage): (State, seq<Output>) {
    match msg
    case Hello(p) =>
      if p == path then (s.(hosted := true, helloSinceLoad := true), [Posted(Host)])
      else Unhost(s.(helloSinceLoad := false))
    case Bye => Unhost(s.(helloSinceLoad := false))
    case PageText(text) =>
      if !s.hosted then (s, [])
      else (s.(pendingText := Some(text), scheduled := if s.pendingText.None? then s.scheduled + 1 else s.scheduled), [])
    case Other(content) => if !s.hosted then (s, []) else (s, [Deliver(content)])
  }

  function OnLoad(s: State): (State, seq<Output>) {
    var (t, out) := if s.helloSinceLoad then (s, []) else Unhost(s);
    (t.(helloSinceLoad := false), out)
  }

  function OnTick(s: State): (State, seq<Output>)
    requires s.scheduled > 0
  {
    (s.(pendingText := None, scheduled := s.scheduled - 1),
     if !s.disposed && s.hosted && s.pendingText.Some? then [DeliverText(s.pendingText.value)] else [])
  }

  /** Disposing removes both listeners: later messages and loads are not seen. */
  function Step(s: State, path: string, e: Event): (State, seq<Output>)
    requires Legal(s, e)
  {
    match e
    case Message(msg) => if s.disposed then (s, []) else OnMessage(s, path, msg)
    case Foreign => (s, [])
    case Load => if s.disposed then (s, []) else OnLoad(s)
    case Tick => OnTick(s)
    case Post(order) => (s, if order.Host? || s.hosted then [Posted(order)] else [])
    case Dispose => (s.(disposed := true), [])
  }

  class HtmlCommentBridge {
    const path: string
    var hosted: bool
    var helloSinceLoad: bool
    var pendingText: Option<string>
    var disposed: bool
    var scheduled: nat
    var outputs: seq<Output>

    ghost function Model(): State
      reads this
    {
      State(hosted, helloSinceLoad, pendingText, disposed, scheduled)
    }

    constructor (path: string)
      ensures Model() == Start && outputs == [] && this.path == path
    {
      this.path := path;
      hosted, helloSinceLoad, pendingText, disposed, scheduled, outputs := false, false, None, false, 0, [];
    }

    method UnhostFrame()
      modifies `pendingText, `hosted, `outputs
      ensures Model() == Unhost(old(Model())).0 && outputs == old(outputs) + Unhost(old(Model())).1
    {
      pendingText := None;
      if !hosted {
        return;
      }
      hosted := false;
      outputs := outputs + [Reset];
    }

    method PostMessage(msg: HostMessage)
      modifies `outputs
      ensures outputs == old(outputs) + Step(old(Model()), path, Post(msg)).1
    {
      if !msg.Host? && !hosted {
        return;
      }
      outputs := outputs + [Posted(msg)];
    }

    method Listen(msg: FrameMessage)
      requires !disposed
      modifies this
      ensures Model() == Step(old(Model()), path, Message(msg)).0 && outputs == old(outputs) + Step(old(Model()), path, Message(msg)).1
    {
      if msg.Hello? && msg.path == path {
        hosted, helloSinceLoad := true, true;
        PostMessage(Host);
        return;
      }
      if msg.Hello? || msg.Bye? {
        helloSinceLoad := false;
        UnhostFrame();
        return;
      }
      if !hosted {
        return;
      }
      if !msg.PageText? {
        outputs := outputs + [Deliver(msg.content)];
        return;
      }
      if pendingText.None? {
        scheduled := scheduled + 1;
      }
      pendingText := Some(msg.text);
    }

    method Loaded()
      requires !disposed
      modifies this
      ensures Model() == Step(old(Model()), path, Load).0 && outputs == old(outputs) + Step(old(Model()), path, Load).1
    {
      if !helloSinceLoad {
        UnhostFrame();
      }
      helloSinceLoad := false;
    }

    method RunCallback()
      requires scheduled > 0
      modifies this
      ensures Model() == Step(old(Model()), path, Tick).0 && outputs == old(outputs) + Step(old(Model()), path, Tick).1
    {
      scheduled := scheduled - 1;
      var text := pendingText;
      pendingText := None;
      if !disposed && hosted && text.Some? {
        outputs := outputs + [DeliverText(text.value)];
      }
    }

    method DisposeBridge()
      modifies `disposed
      ensures Model() == Step(old(Model()), path, Dispose).0 && outputs == old(outputs)
    {
      disposed := true;
    }
  }

  // --- Sessions, read off the events alone -----------------------------------------------------

  /** The frame's page said hello, with this path. */
  predicate IsHello(e: Event, path: string) {
    e == Message(Hello(path))
  }

  /** The page said it is leaving, or another page said hello. */
  predicate IsFarewell(e: Event, path: string) {
    e == Message(Bye) || (e.Message? && e.msg.Hello? && e.msg.path != path)
  }

  predicate Disposed(events: seq<Event>) {
    exists e | e in events :: e.Dispose?
  }

  /** Everything that happened before the bridge was disposed. */
  function Heard(events: seq<Event>): seq<Event> {
    if events == [] then []
    else
      var init, e := events[..|events| - 1], events[|events| - 1];
      if Disposed(events) then Heard(init) else Heard(init) + [e]
  }

  function Loads(events: seq<Event>): nat {
    if events == [] then 0
    else Loads(events[..|events| - 1]) + if events[|events| - 1].Load? then 1 else 0
  }

  /** After the matching hello at `k` there was no farewell, and at most `loads` documents were loaded. */
  predicate Since(heard: seq<Event>, path: string, k: nat, loads: nat) {
    && k < |heard| && IsHello(heard[k], path)
    && (forall j | k < j < |heard| :: !IsFarewell(heard[j], path))
    && Loads(heard[k + 1..]) <= loads
  }

  /** A matching hello since the last load, which nothing ended. */
  predicate FreshHello(heard: seq<Event>, path: string) {
    exists k | 0 <= k < |heard| :: Since(heard, path, k, 0)
  }

  /** A session is open: a matching hello that no farewell followed, and one load at most (that of the page that said it). */
  predicate SessionOpen(heard: seq<Event>, path: string) {
    exists k | 0 <= k < |heard| :: Since(heard, path, k, 1)
  }

  /** The last page text sent in the session that is open. */
  function LatestText(heard: seq<Event>, path: string): Option<string> {
    if heard == [] || !SessionOpen(heard, path) then None
    else
      var e, before := heard[|heard| - 1], heard[..|heard| - 1];
      if e.Message? && e.msg.PageText? then Some(e.msg.text) else LatestText(before, path)
  }

  lemma SinceNext(heard: seq<Event>, e: Event, path: string, k: nat, loads: nat)
    requires k < |heard|
    ensures Since(heard + [e], path, k, loads)
            <==> !IsFarewell(e, path) && (if e.Load? then loads > 0 && Since(heard, path, k, loads - 1) else Since(heard, path, k, loads))
  {
    var more := heard + [e];
    assert more[k + 1..] == heard[k + 1..] + [e];
    assert (heard[k + 1..] + [e])[..|heard| - k - 1] == heard[k + 1..];
    assert more[|heard|] == e;
    assert forall j | 0 <= j < |heard| :: more[j] == heard[j];
  }

  /** How one more event changes whether a session is open, and whether the hello is fresh. */
  lemma SessionNext(heard: seq<Event>, e: Event, path: string)
    ensures FreshHello(heard + [e], path) <==> IsHello(e, path) || (!IsFarewell(e, path) && !e.Load? && FreshHello(heard, path))
    ensures SessionOpen(heard + [e], path)
            <==> IsHello(e, path) || (!IsFarewell(e, path) && (if e.Load? then FreshHello(heard, path) else SessionOpen(heard, path)))
  {
    var more := heard + [e];
    if IsHello(e, path) {
      assert Since(more, path, |heard|, 0) && Since(more, path, |heard|, 1);
    } else {
      forall k | 0 <= k < |heard|
        ensures Since(more, path, k, 0) <==> !IsFarewell(e, path) && !e.Load? && Since(heard, path, k, 0)
        ensures Since(more, path, k, 1)
                <==> !IsFarewell(e, path) && (if e.Load? then Since(heard, path, k, 0) else Since(heard, path, k, 1))
      {
        SinceNext(heard, e, path, k, 0);
        SinceNext(heard, e, path, k, 1);
      }
      assert !Since(more, path, |heard|, 0) && !Since(more, path, |heard|, 1);
    }
  }

  // --- Every run -----------------------------------------------------------------------------------

  ghost predicate AllLegal(events: seq<Event>, path: string)
    decreases |events|, 0
  {
    events != [] ==>
      var init := events[..|events| - 1];
      AllLegal(init, path) && Legal(After(init, path), events[|events| - 1])
  }

  ghost function After(events: seq<Event>, path: string): State
    requires AllLegal(events, path)
    decreases |events|, 1
  {
    if events == [] then Start else Step(After(events[..|events| - 1], path), path, events[|events| - 1]).0
  }

  /** What event number `i` made the bridge hand out. */
  ghost function Outputs(events: seq<Event>, path: string, i: nat): seq<Output>
    requires AllLegal(events, path) && i < |events|
  {
    PrefixLegal(events, path, i);
    PrefixLegal(events, path, i + 1);
    assert events[..i + 1][..i] == events[..i];
    Step(After(events[..i], path), path, events[i]).1
  }

  lemma {:induction false} PrefixLegal(events: seq<Event>, path: string, n: nat)
    requires AllLegal(events, path) && n <= |events|
    ensures AllLegal(events[..n], path)
  {
    if n == |events| {
      assert events[..n] == events;
    } else {
      PrefixLegal(events[..|events| - 1], path, n);
      assert events[..|events| - 1][..n] == events[..n];
    }
  }

  /** The closure's variables mean what the events say. */
  ghost predicate Meaning(s: State, events: seq<Event>, path: string) {
    && s.disposed == Disposed(events)
    && s.hosted == SessionOpen(Heard(events), path)
    && s.helloSinceLoad == FreshHello(Heard(events), path)
    && (s.helloSinceLoad ==> s.hosted)
    && (s.pendingText.Some? ==> s.hosted && s.scheduled > 0 && s.pendingText == LatestText(Heard(events), path))
  }

  lemma {:induction false} EveryRun(events: seq<Event>, path: string)
    requires AllLegal(events, path)
    ensures Meaning(After(events, path), events, path)
  {
    if events != [] {
      var init, e := events[..|events| - 1], events[|events| - 1];
      EveryRun(init, path);
      assert events == init + [e];
      MeaningNext(After(init, path), init, e, path);
    }
  }

  lemma MeaningNext(s: State, init: seq<Event>, e: Event, path: string)
    requires Meaning(s, init, path) && Legal(s, e)
    ensures Meaning(Step(s, path, e).0, init + [e], path)
  {
    HeardNext(init, e);
    if !Disposed(init + [e]) {
      SessionNext(Heard(init), e, path);
      LatestNext(Heard(init), e, path);
    }
  }

  lemma HeardNext(init: seq<Event>, e: Event)
    ensures Disposed(init + [e]) <==> Disposed(init) || e.Dispose?
    ensures Heard(init + [e]) == if Disposed(init + [e]) then Heard(init) else Heard(init) + [e]
  {
    var events := init + [e];
    assert events[..|events| - 1] == init && events[|events| - 1] == e;
  }

  lemma LatestNext(heard: seq<Event>, e: Event, path: string)
    ensures LatestText(heard + [e], path)
            == if !SessionOpen(heard + [e], path) then None
               else if e.Message? && e.msg.PageText? then Some(e.msg.text)
               else LatestText(heard, path)
  {
    assert (heard + [e])[..|heard + [e]| - 1] == heard;
  }

  // --- What is handed out ----------------------------------------------------------------------------

  lemma StepOutputs(s: State, r: State, path: string, e: Event, out: Output)
    requires Legal(s, e) && r == Step(s, path, e).0
    ensures var o := Step(s, path, e).1;
            && |o| <= 1
            && (out in o && (out.Deliver? || out.DeliverText?) ==> !s.disposed && s.hosted)
            && (out in o && out.DeliverText? ==> s.pendingText == Some(out.text))
            && (out in o && out.Posted? && !out.msg.Host? ==> s.hosted)
            && (Reset in o <==> s.hosted && !r.hosted)
  {
  }

  /**
   * Nothing but `reset` is delivered outside an open session or after dispose; a delivered text is
   * the latest sent in the session; and `reset` is delivered exactly when the session ends.
   */
  lemma DeliveredOnlyInSession(events: seq<Event>, path: string, i: nat, out: Output)
    requires AllLegal(events, path) && i < |events|
    ensures out in Outputs(events, path, i) && (out.Deliver? || out.DeliverText?) ==>
              !Disposed(events[..i]) && SessionOpen(Heard(events[..i]), path)
    ensures out in Outputs(events, path, i) && out.DeliverText? ==> LatestText(Heard(events[..i]), path) == Some(out.text)
    ensures out in Outputs(events, path, i) && out.Posted? && !out.msg.Host? ==> SessionOpen(Heard(events[..i]), path)
    ensures Reset in Outputs(events, path, i) <==>
              SessionOpen(Heard(events[..i]), path) && !SessionOpen(Heard(events[..i + 1]), path)
  {
    PrefixLegal(events, path, i);
    PrefixLegal(events, path, i + 1);
    EveryRun(events[..i], path);
    EveryRun(events[..i + 1], path);
    assert events[..i + 1][..i] == events[..i] && events[..i + 1][i] == events[i];
    StepOutputs(After(events[..i], path), After(events[..i + 1], path), path, events[i], out);
  }

  /** Between two resets the page said hello again. */
  lemma {:induction false} ResetsSeparated(events: seq<Event>, path: string, i: nat, j: nat)
    requires AllLegal(events, path) && i < j < |events|
    requires Reset in Outputs(events, path, i) && Reset in Outputs(events, path, j)
    ensures exists k | i < k < j :: IsHello(events[k], path)
  {
    DeliveredOnlyInSession(events, path, i, Reset);
    DeliveredOnlyInSession(events, path, j, Reset);
    HelloReopens(events, path, i + 1, j);
  }

  lemma {:induction false} HelloReopens(events: seq<Event>, path: string, i: nat, j: nat)
    requires i <= j <= |events|
    requires !SessionOpen(Heard(events[..i]), path) && SessionOpen(Heard(events[..j]), path)
    ensures exists k | i <= k < j :: IsHello(events[k], path)
    decreases j
  {
    var before, e := events[..j - 1], events[j - 1];
    assert events[..j][..j - 1] == before && events[..j][j - 1] == e;
    if Disposed(events[..j]) {
      HelloReopens(events, path, i, j - 1);
    } else if !IsHello(e, path) {
      SessionNext(Heard(before), e, path);
      FreshIsOpen(Heard(before), path);
      HelloReopens(events, path, i, j - 1);
    }
  }

  lemma FreshIsOpen(heard: seq<Event>, path: string)
    ensures FreshHello(heard, path) ==> SessionOpen(heard, path)
  {
    if k :| 0 <= k < |heard| && Since(heard, path, k, 0) {
      assert Since(heard, path, k, 1);
    }
  }

  /** A load keeps the session only if the page said hello since the load before, and nothing ended that. */
  lemma LoadKeepsFreshSession(events: seq<Event>, path: string)
    requires AllLegal(events + [Load], path) && !Disposed(events)
    ensures AllLegal(events, path)
    ensures After(events + [Load], path).hosted <==> FreshHello(Heard(events), path)
  {
    var more := events + [Load];
    assert more[..|more| - 1] == events;
    EveryRun(events, path);
  }

  // --- Nothing is lost ---------------------------------------------------------------------------------

  /** The page sent a text as event `i`; since then the session stayed open and no scheduled callback has run. */
  ghost predicate Waiting(events: seq<Event>, path: string, i: nat) {
    && i < |events| && events[i].Message? && events[i].msg.PageText? && !Disposed(events[..i])
    && (forall j | i < j < |events| :: !events[j].Tick?)
    && (forall j | i < j <= |events| :: SessionOpen(Heard(events[..j]), path))
  }

  lemma WaitingBefore(events: seq<Event>, path: string, i: nat)
    requires Waiting(events, path, i) && i < |events| - 1
    ensures Waiting(events[..|events| - 1], path, i)
  {
    var init := events[..|events| - 1];
    assert init[..i] == events[..i];
    forall j | i < j <= |init| ensures SessionOpen(Heard(init[..j]), path) {
      assert init[..j] == events[..j];
    }
  }

  /** What the bridge keeps through one event in a session that stays open. */
  lemma StepKeepsText(s: State, path: string, e: Event)
    requires Legal(s, e) && s.hosted && Step(s, path, e).0.hosted && !e.Tick? && (s.helloSinceLoad ==> s.hosted)
    ensures var r := Step(s, path, e).0;
            if !s.disposed && e.Message? && e.msg.PageText? then r.pendingText == Some(e.msg.text) else r.pendingText == s.pendingText
  {
  }

  /** A text that waits is kept until a callback runs, or a later one of the session takes its place. */
  lemma {:induction false} TextWaits(events: seq<Event>, path: string, i: nat)
    requires AllLegal(events, path) && Waiting(events, path, i)
    ensures After(events, path).pendingText.Some? && After(events, path).pendingText == LatestText(Heard(events), path)
    ensures After(events, path).scheduled > 0
    decreases |events|
  {
    var init, e := events[..|events| - 1], events[|events| - 1];
    EveryRun(events, path);
    EveryRun(init, path);
    assert events[..|events|] == events;
    if i < |events| - 1 {
      WaitingBefore(events, path, i);
      TextWaits(init, path, i);
      StepKeepsText(After(init, path), path, e);
    } else {
      TextHeard(After(init, path), init, e, path);
    }
  }

  /** A page text that keeps the session open was sent in it. */
  lemma TextHeard(s: State, init: seq<Event>, e: Event, path: string)
    requires Meaning(s, init, path) && !Disposed(init) && e.Message? && e.msg.PageText? && SessionOpen(Heard(init + [e]), path)
    ensures s.hosted && Step(s, path, e).0.pendingText == Some(e.msg.text)
  {
    HeardNext(init, e);
    SessionNext(Heard(init), e, path);
  }

  /** So the next callback hands out exactly the latest text of the session, and there is one to come. */
  lemma TextDelivered(events: seq<Event>, path: string, i: nat)
    requires AllLegal(events, path) && Waiting(events, path, i) && !Disposed(events)
    ensures AllLegal(events + [Tick], path) && LatestText(Heard(events), path).Some?
    ensures Outputs(events + [Tick], path, |events|) == [DeliverText(LatestText(Heard(events), path).value)]
  {
    var more := events + [Tick];
    TextWaits(events, path, i);
    EveryRun(events, path);
    assert events[..|events|] == events;
    assert more[..|events|] == events && more[|events|] == Tick;
  }

  /** What every other event hands out, read off the events before it. */
  function Handed(before: seq<Event>, path: string, e: Event): seq<Output>
    requires !e.Tick?
  {
    var open := SessionOpen(Heard(before), path);
    match e
    case Post(order) => if order == Host || open then [Posted(order)] else []
    case Message(Other(content)) => if open && !Disposed(before) then [Deliver(content)] else []
    case Message(PageText(_)) => []
    case Message(Hello(p)) => if Disposed(before) then [] else if p == path then [Posted(Host)] else if open then [Reset] else []
    case Message(Bye) => if open && !Disposed(before) then [Reset] else []
    case Load => if open && !Disposed(before) && !FreshHello(Heard(before), path) then [Reset] else []
    case _ => []
  }

  lemma HandedOut(events: seq<Event>, path: string, e: Event)
    requires AllLegal(events, path) && !e.Tick?
    ensures AllLegal(events + [e], path) && Outputs(events + [e], path, |events|) == Handed(events, path, e)
  {
    var more := events + [e];
    EveryRun(events, path);
    assert more[..|events|] == events && more[|events|] == e;
  }

  /** A text schedules a callback only if none waits: the page's texts are handed out at most once a frame. */
  lemma OneCallbackAText(events: seq<Event>, path: string, text: string)
    requires AllLegal(events, path)
    ensures var more, s := events + [Message(PageText(text))], After(events, path);
            && AllLegal(more, path)
            && After(more, path).scheduled
               == s.scheduled + if !Disposed(events) && SessionOpen(Heard(events), path) && s.pendingText.None? then 1 else 0
  {
    var more := events + [Message(PageText(text))];
    EveryRun(events, path);
    assert more[..|events|] == events && more[|more| - 1] == Message(PageText(text));
  }

  /** A callback leaves no text waiting, and without one waiting it hands out nothing. */
  lemma CallbackClears(events: seq<Event>, path: string)
    requires AllLegal(events + [Tick], path)
    ensures AllLegal(events, path)
    ensures After(events + [Tick], path).pendingText == None
    ensures After(events + [Tick], path).scheduled + 1 == After(events, path).scheduled
    ensures After(events, path).pendingText.None? || Disposed(events) ==> Outputs(events + [Tick], path, |events|) == []
  {
    var more := events + [Tick];
    assert more[..|more| - 1] == events && more[|more| - 1] == Tick;
    assert more[..|events|] == events && more[|events|] == Tick;
    EveryRun(events, path);
  }
}
