/** Every client that has drained its queue has been told the current state,
    whatever happened in between. */
module HubLaws {
  import opened Bytes
  import opened HubModel

  // --- what every step keeps ---------------------------------------------------------

  predicate Genuine<S(==)>(m: Message<S>, history: seq<S>) {
    m.number < |history| && m.state == history[m.number]
  }

  predicate AllGenuine<S(==)>(ms: seq<Message<S>>, history: seq<S>) {
    forall i | 0 <= i < |ms| :: Genuine(ms[i], history)
  }

  predicate Increasing<S>(ms: seq<Message<S>>) {
    forall i, j | 0 <= i < j < |ms| :: ms[i].number < ms[j].number
  }

  predicate HubInv<S(==)>(h: Hub<S>) {
    && |h.history| == h.number + 1 && h.history[h.number] == h.state
    && (h.half.Some? ==> h.half.value == Current(h))
    && AllGenuine(h.log, h.history)
    && Increasing(h.log)
    && (h.half.Some? && h.log != [] ==> h.log[|h.log| - 1].number < h.number)
  }

  /** Every message the client will be, or has been, told is one that was published. */
  predicate Honest<S(==)>(s: System<S>) {
    && AllGenuine(s.client.sent, s.hub.history)
    && (s.client.held.Holding? ==> Genuine(s.client.held.message, s.hub.history))
  }

  predicate Placed<S>(s: System<S>) {
    var c := s.client;
    && c.start <= c.from <= c.next <= |s.hub.log|
    && (c.phase.Fresh? ==> c.next == 0)
    && (c.phase.Fresh? || c.phase.Subscribed? ==> c.held.Nothing? && c.next == c.from == c.start)
    && (c.phase.Fresh? || c.phase.Subscribed? ==> c.sent == [] && c.live == [] && !c.lagged)
    && (c.phase.Owing? ==> c.held.Nothing?)
    && (!c.writable ==> c.held.Nothing?)
    && (c.phase.Fresh? || c.phase.Subscribed? ==> c.writable)
  }

  /** The newest queued message the client has yet to read is the current state,
      and once it has read them all the current state is the last it was told. */
  predicate UpToDate<S(==)>(s: System<S>) {
    var h, c := s.hub, s.client;
    h.half.None? && !c.phase.Fresh? ==>
      if c.next < |h.log| then h.log[|h.log| - 1] == Current(h)
      else if c.phase.Ready? && c.writable then
        match c.held {
          case Holding(m, _) => m == Current(h)
          case Nothing => c.sent != [] && c.sent[|c.sent| - 1] == Current(h)
        }
      else true
  }

  /** What the client has been told from the queue, and what it is about to be. */
  function Told<S>(c: Client<S>): seq<Message<S>> {
    if c.held.Holding? && c.held.live then c.live + [c.held.message] else c.live
  }

  /** Since its last jump the client has been told every queued message, in order. */
  predicate Gapless<S(==)>(s: System<S>) {
    var c := s.client;
    c.from <= c.next <= |s.hub.log| && c.writable ==>
      && |Told(c)| >= c.next - c.from
      && Told(c)[|Told(c)| - (c.next - c.from)..] == s.hub.log[c.from..c.next]
      && (!c.lagged ==> c.from == c.start && |Told(c)| == c.next - c.from)
  }

  predicate Inv<S(==)>(s: System<S>) {
    HubInv(s.hub) && Honest(s) && Placed(s) && UpToDate(s) && Gapless(s)
  }

  lemma StepKeepsHub<S>(s: System<S>, e: Event<S>)
    requires HubInv(s.hub) && UpToDate(s)
    ensures HubInv(Step(s, e).hub)
  {
  }

  lemma StepKeepsHonest<S>(s: System<S>, e: Event<S>)
    requires HubInv(s.hub) && Honest(s)
    ensures Honest(Step(s, e))
  {
  }

  lemma StepKeepsPlaced<S>(s: System<S>, e: Event<S>)
    requires Placed(s)
    ensures Placed(Step(s, e))
  {
  }

  lemma StepKeepsUpToDate<S>(s: System<S>, e: Event<S>)
    requires HubInv(s.hub) && Placed(s) && UpToDate(s)
    ensures UpToDate(Step(s, e))
  {
  }

  lemma SameTold<S>(s: System<S>, t: System<S>)
    requires Gapless(s) && s.hub.log <= t.hub.log
    requires t.client.writable ==> Told(t.client) == Told(s.client)
    requires t.client.from == s.client.from && t.client.next == s.client.next <= |s.hub.log|
    requires t.client.start == s.client.start && t.client.lagged == s.client.lagged
    requires t.client.writable ==> s.client.writable
    ensures Gapless(t)
  {
    var c := s.client;
    if c.from <= c.next {
      assert t.hub.log[c.from..c.next] == s.hub.log[c.from..c.next];
    }
  }

  lemma SuffixGrows<T>(told: seq<T>, log: seq<T>, from: nat, next: nat)
    requires from <= next < |log| && |told| >= next - from
    requires told[|told| - (next - from)..] == log[from..next]
    ensures (told + [log[next]])[|told| - (next - from)..] == log[from..next + 1]
  {
    var k := |told| - (next - from);
    assert (told + [log[next]])[k..] == told[k..] + [log[next]];
    assert log[from..next + 1] == log[from..next] + [log[next]];
  }

  lemma ReceiveKeepsGapless<S>(s: System<S>)
    requires Placed(s) && Gapless(s)
    requires s.client.phase.Ready? && s.client.held.Nothing? && s.client.writable && s.client.next < |s.hub.log|
    ensures Gapless(s.(client := Received(s.client, s.hub.log)))
  {
    var c, log := s.client, s.hub.log;
    if c.next + CAPACITY >= |log| {
      SuffixGrows(Told(c), log, c.from, c.next);
    }
  }

  lemma StepKeepsGapless<S>(s: System<S>, e: Event<S>)
    requires Placed(s) && Gapless(s)
    ensures Gapless(Step(s, e))
  {
    hide Gapless;
    match e {
      case Receive =>
        var c := s.client;
        if c.phase.Ready? && c.held.Nothing? && c.writable && c.next < |s.hub.log| {
          ReceiveKeepsGapless(s);
        }
      case Subscribe =>
        if s.client.phase.Fresh? { SubscribeIsGapless(s); }
      case _ =>
        SameTold(s, Step(s, e));
    }
  }

  lemma SubscribeIsGapless<S>(s: System<S>)
    requires Placed(s) && s.client.phase.Fresh?
    ensures Gapless(Step(s, Subscribe))
  {
    var n := |s.hub.log|;
    assert Told(s.client) == [] && s.hub.log[n..n] == [];
  }

  lemma StepKeeps<S>(s: System<S>, e: Event<S>)
    requires Inv(s)
    ensures Inv(Step(s, e))
  {
    hide Step, HubInv, Honest, Placed, UpToDate, Gapless;
    StepKeepsHub(s, e);
    StepKeepsHonest(s, e);
    StepKeepsPlaced(s, e);
    StepKeepsUpToDate(s, e);
    StepKeepsGapless(s, e);
  }

  lemma {:induction false} RunKeeps<S>(s: System<S>, es: seq<Event<S>>)
    requires Inv(s)
    ensures Inv(Run(s, es))
  {
    hide Step, Inv;
    if es != [] {
      RunKeeps(s, es[..|es| - 1]);
      StepKeeps(Run(s, es[..|es| - 1]), es[|es| - 1]);
    }
  }

  lemma InitInv<S>(s: S)
    ensures Inv(Init(s))
  {
  }

  // --- convergence ---------------------------------------------------------------------

  /** Connected, reading, nothing in hand, and the queue read to its end. */
  predicate Drained<S>(s: System<S>) {
    var c := s.client;
    c.phase.Ready? && c.writable && c.held.Nothing? && c.next == |s.hub.log|
  }

  /** In any run, a drained client was last told the hub's current state, unless
      that state is still between its two steps. */
  lemma Converged<S>(s0: S, es: seq<Event<S>>)
    ensures var s := Run(Init(s0), es);
      Drained(s) && s.hub.half.None? ==>
        s.client.sent != [] && s.client.sent[|s.client.sent| - 1] == Current(s.hub)
  {
    hide Step, Run;
    InitInv(s0);
    RunKeeps(Init(s0), es);
  }

  /** The states recorded by a run, the first being the one it started with. */
  function Published<S>(s0: S, es: seq<Event<S>>): seq<S> {
    Run(Init(s0), es).hub.history
  }

  /** Every line a client is ever sent carries a published state under its own
      number: nothing is invented, mixed or renumbered. */
  lemma NothingInvented<S>(s0: S, es: seq<Event<S>>, i: nat)
    requires i < |Run(Init(s0), es).client.sent|
    ensures var m := Run(Init(s0), es).client.sent[i];
      m.number < |Published(s0, es)| && m.state == Published(s0, es)[m.number]
  {
    hide Step, Run;
    InitInv(s0);
    RunKeeps(Init(s0), es);
  }

  /** A client that never lagged has been told every message queued since it
      subscribed, in order, whatever snapshots it asked for in between. */
  lemma NothingMissed<S>(s0: S, es: seq<Event<S>>)
    ensures var s := Run(Init(s0), es);
      s.client.start <= s.client.next <= |s.hub.log|
    ensures var s := Run(Init(s0), es);
      s.client.writable && !s.client.lagged ==>
        Told(s.client) == s.hub.log[s.client.start..s.client.next]
  {
    hide Step, Run;
    InitInv(s0);
    RunKeeps(Init(s0), es);
  }

  // --- what is published, and what reaches the queue ------------------------------------

  /** A publication is between its two steps. */
  predicate Halfway<S>(es: seq<Event<S>>) {
    es != [] && match es[|es| - 1]
                case Record(_) => true
                case Broadcast(_) => false
                case _ => Halfway(es[..|es| - 1])
  }

  /** The states handed to the publisher, each while no publication was half done. */
  function HandedIn<S>(es: seq<Event<S>>): seq<S> {
    if es == [] then []
    else
      var init := es[..|es| - 1];
      if es[|es| - 1].Record? && !Halfway(init) then HandedIn(init) + [es[|es| - 1].state] else HandedIn(init)
  }

  /** What is published is exactly what was handed in, in order, and the current state
      and its number are those of the last. */
  lemma {:induction false} PublishedIsHandedIn<S>(s0: S, es: seq<Event<S>>)
    ensures Published(s0, es) == [s0] + HandedIn(es)
    ensures var h := Run(Init(s0), es).hub;
      (h.half.Some? <==> Halfway(es)) && h.number == |HandedIn(es)| && h.state == ([s0] + HandedIn(es))[h.number]
  {
    if es != [] {
      PublishedIsHandedIn(s0, es[..|es| - 1]);
    }
  }

  /** Counting back from the last publication that was broadcast, the queue holds every
      one there has been since the client subscribed. */
  predicate QueueHasAll<S>(s: System<S>) {
    var h, c := s.hub, s.client;
    var last := h.number - if h.half.Some? then 1 else 0;
    (h.half.Some? ==> h.half.value.number == h.number)
    && (c.phase != Fresh ==> forall i | c.start <= i < |h.log| :: h.log[i].number == last - (|h.log| - 1 - i))
  }

  lemma {:induction false} QueueMissesNothing<S>(s0: S, es: seq<Event<S>>)
    ensures QueueHasAll(Run(Init(s0), es))
  {
    hide Step;
    if es != [] {
      QueueMissesNothing(s0, es[..|es| - 1]);
      StepQueues(Run(Init(s0), es[..|es| - 1]), es[|es| - 1]);
    }
  }

  lemma StepQueues<S>(s: System<S>, e: Event<S>)
    requires QueueHasAll(s)
    ensures QueueHasAll(Step(s, e))
  {
  }

  /** A client that is never more than the queue's capacity behind never lags. */
  lemma {:induction false} KeepingUpNeverLags<S>(s0: S, es: seq<Event<S>>)
    requires forall n | 0 <= n <= |es| ::
      var s := Run(Init(s0), es[..n]); s.client.phase != Fresh ==> |s.hub.log| <= s.client.next + CAPACITY
    ensures !Run(Init(s0), es).client.lagged
  {
    hide Step;
    if es != [] {
      var init := es[..|es| - 1];
      forall n | 0 <= n <= |init| ensures
        var s := Run(Init(s0), init[..n]); s.client.phase != Fresh ==> |s.hub.log| <= s.client.next + CAPACITY
      {
        assert init[..n] == es[..n];
      }
      KeepingUpNeverLags(s0, init);
      assert es[..|init|] == init;
      StepLags(Run(Init(s0), init), es[|es| - 1]);
    }
  }

  /** A client lags, and is moved to the oldest message still held, only when it reads
      more than the queue's capacity behind. */
  lemma StepLags<S>(s: System<S>, e: Event<S>)
    requires !s.client.lagged
    ensures var c, t := s.client, Step(s, e).client;
      t.lagged <==>
        e == Receive && c.phase.Ready? && c.held.Nothing? && c.writable && c.next + CAPACITY < |s.hub.log|
    ensures Step(s, e).client.lagged ==> Step(s, e).client.next == |s.hub.log| - CAPACITY
  {
  }

  /** A client that asks is answered with the current state. */
  lemma AskingIsAnswered<S>(s: System<S>)
    requires s.client.phase.Ready? && s.client.held.Nothing? && s.client.writable
    ensures var t := Step(Step(Step(s, GetState), Snapshot), Write(true));
      t.hub == s.hub && t.client.phase.Ready? && t.client.sent == s.client.sent + [Current(s.hub)]
      && t.client.next == s.client.next
  {
  }

  // --- catching up ---------------------------------------------------------------------

  predicate Connected<S>(s: System<S>) {
    (s.client.phase.Ready? || s.client.phase.Owing?) && s.client.writable
  }

  /** The client's own next step, when its socket keeps accepting. */
  function Next<S>(c: Client<S>): Event<S> {
    if c.held.Holding? then Write(true) else if c.phase.Owing? then Snapshot else Receive
  }

  function CatchUp<S>(s: System<S>, n: nat): System<S>
    decreases n
  {
    if n == 0 then s else CatchUp(Step(s, Next(s.client)), n - 1)
  }

  /** Exactly how many steps of its own separate a client from the end of its queue. */
  function Work<S>(s: System<S>): nat
    requires Placed(s)
  {
    var waiting := |s.hub.log| - s.client.next;
    (if s.client.held.Holding? then 1 else 0)
    + (if s.client.phase.Owing? then 2 else 0)
    + (if waiting > CAPACITY then 3 + 2 * CAPACITY else 2 * waiting)
  }

  lemma StepWorks<S>(s: System<S>)
    requires Placed(s) && Connected(s) && Work(s) > 0
    ensures var t := Step(s, Next(s.client));
      Placed(t) && Connected(t) && t.hub == s.hub && Work(t) == Work(s) - 1
  {
    StepKeepsPlaced(s, Next(s.client));
  }

  lemma {:induction false} CatchUpDrains<S>(s: System<S>)
    requires Inv(s) && Connected(s)
    ensures var t := CatchUp(s, Work(s));
      Inv(t) && Connected(t) && t.hub == s.hub && Work(t) == 0
    decreases Work(s)
  {
    hide Step, Inv, Connected;
    InvPlaced(s);
    if Work(s) > 0 {
      StepWorks(s);
      StepKeeps(s, Next(s.client));
      CatchUpDrains(Step(s, Next(s.client)));
    }
  }

  lemma InvPlaced<S>(s: System<S>)
    requires Inv(s)
    ensures Placed(s)
  {
  }

  /** From any reachable point, once publishing pauses, a connected client is told
      the current state within 133 steps of its own, however far behind it was. */
  lemma CatchesUp<S>(s0: S, es: seq<Event<S>>)
    requires Connected(Run(Init(s0), es)) && Run(Init(s0), es).hub.half.None?
    ensures var s := Run(Init(s0), es);
      && Placed(s) && Work(s) <= 5 + 2 * CAPACITY
      && var t := CatchUp(s, Work(s));
      t.hub == s.hub && t.client.sent != [] && t.client.sent[|t.client.sent| - 1] == Current(s.hub)
  {
    hide Step, Run, CatchUp;
    var s := Run(Init(s0), es);
    InitInv(s0);
    RunKeeps(Init(s0), es);
    CatchUpDrains(s);
    WorkBound(s);
    NoWorkMeansTold(CatchUp(s, Work(s)));
  }

  lemma WorkBound<S>(s: System<S>)
    requires Placed(s)
    ensures Work(s) <= 5 + 2 * CAPACITY
  {
  }

  lemma NoWorkMeansTold<S>(s: System<S>)
    requires Inv(s) && Connected(s) && Work(s) == 0 && s.hub.half.None?
    ensures s.client.sent != [] && s.client.sent[|s.client.sent| - 1] == Current(s.hub)
  {
  }

  lemma {:induction false} RunFrom<S>(s: System<S>, e: Event<S>, es: seq<Event<S>>)
    ensures Run(s, [e] + es) == Run(Step(s, e), es)
  {
    hide Step;
    var all := [e] + es;
    if es == [] {
      assert all[..|all| - 1] == [];
      assert Run(s, []) == s;
    } else {
      assert all[..|all| - 1] == [e] + es[..|es| - 1];
      RunFrom(s, e, es[..|es| - 1]);
    }
  }

  lemma RunTwo<S>(s: System<S>, a: Event<S>, b: Event<S>, es: seq<Event<S>>)
    ensures Run(s, [a, b] + es) == Run(Step(Step(s, a), b), es)
  {
    hide Step, Run;
    RunFrom(s, a, [b] + es);
    RunFrom(Step(s, a), b, es);
    assert [a, b] + es == [a] + ([b] + es);
  }

  lemma RunFour<S>(s: System<S>, a: Event<S>, b: Event<S>, c: Event<S>, d: Event<S>, es: seq<Event<S>>)
    ensures Run(s, [a, b, c, d] + es) == Run(Step(Step(Step(Step(s, a), b), c), d), es)
  {
    hide Step, Run;
    RunTwo(s, a, b, [c, d] + es);
    RunTwo(Step(Step(s, a), b), c, d, es);
    assert [a, b, c, d] + es == [a, b] + ([c, d] + es);
  }

  function Reader<S>(held: Held<S>, sent: seq<Message<S>>, live: seq<Message<S>>, next: nat): Client<S> {
    Client(Ready, next, held, true, sent, live, 0, 0, false)
  }

  function TwoPublished<S>(s0: S, s1: S, s2: S): Hub<S> {
    Hub(2, s2, None, [Message(1, s1), Message(2, s2)], [s0, s1, s2])
  }

  lemma GreetRun<S>(s0: S)
    ensures Step(Step(Step(Step(Init(s0), Subscribe), Hello(true)), Snapshot), Write(true))
         == System(Hub(0, s0, None, [], [s0]), Reader(Nothing, [Message(0, s0)], [], 0))
  {
  }

  lemma PublishRun<S>(s0: S, s1: S, s2: S, c: Client<S>)
    requires c.phase.Ready?
    ensures var s := System(Hub(0, s0, None, [], [s0]), c);
      Step(Step(Step(Step(s, Record(s1)), Broadcast(true)), Record(s2)), Broadcast(true))
      == System(TwoPublished(s0, s1, s2), c)
  {
    var h := Step(Step(System(Hub(0, s0, None, [], [s0]), c), Record(s1)), Broadcast(true)).hub;
    assert h == Hub(1, s1, None, [Message(1, s1)], [s0, s1]);
    assert h.log + [Message(2, s2)] == [Message(1, s1), Message(2, s2)];
    assert h.history + [s2] == [s0, s1, s2];
  }

  lemma AskRun<S>(h: Hub<S>, m0: Message<S>)
    requires |h.log| == 2
    ensures var s := System(h, Reader(Nothing, [m0], [], 0));
      Step(Step(Step(Step(s, GetState), Snapshot), Write(true)), Receive)
      == System(h, Reader(Holding(h.log[0], true), [m0, Current(h)], [], 1))
  {
    assert [m0] + [Current(h)] == [m0, Current(h)];
  }

  lemma ReadRun<S>(h: Hub<S>, a: Message<S>, b: Message<S>)
    requires |h.log| == 2
    ensures var s := System(h, Reader(Holding(h.log[0], true), [a, b], [], 1));
      Step(Step(Step(Step(s, Write(true)), Receive), Write(true)), Receive)
      == System(h, Reader(Nothing, [a, b, h.log[0], h.log[1]], [h.log[0], h.log[1]], 2))
  {
    assert [a, b] + [h.log[0]] == [a, b, h.log[0]];
    assert [a, b, h.log[0]] + [h.log[1]] == [a, b, h.log[0], h.log[1]];
    assert [h.log[0]] + [h.log[1]] == [h.log[0], h.log[1]];
  }

  /** On the way there an older state can follow a newer one: asking for the state
      with two updates still queued is answered with the newest, and then the
      queued ones follow. */
  lemma OlderCanFollowNewer<S>(s0: S, s1: S, s2: S) returns (es: seq<Event<S>>)
    ensures Run(Init(s0), es).client.sent
         == [Message(0, s0), Message(2, s2), Message(1, s1), Message(2, s2)]
  {
    hide Step, Run, Init;
    var read := [Write(true), Receive, Write(true), Receive];
    var ask := [GetState, Snapshot, Write(true), Receive] + read;
    var publish := [Record(s1), Broadcast(true), Record(s2), Broadcast(true)] + ask;
    es := [Subscribe, Hello(true), Snapshot, Write(true)] + publish;
    var m0, h := Message(0, s0), TwoPublished(s0, s1, s2);
    var client := Reader(Nothing, [m0], [], 0);
    GreetRun(s0);
    RunFour(Init(s0), Subscribe, Hello(true), Snapshot, Write(true), publish);
    PublishRun(s0, s1, s2, client);
    RunFour(System(Hub(0, s0, None, [], [s0]), client), Record(s1), Broadcast(true), Record(s2), Broadcast(true), ask);
    AskRun(h, m0);
    RunFour(System(h, client), GetState, Snapshot, Write(true), Receive, read);
    var asked := System(h, Reader(Holding(h.log[0], true), [m0, Current(h)], [], 1));
    ReadRun(h, m0, Current(h));
    RunFour(asked, Write(true), Receive, Write(true), Receive, []);
    assert read + [] == read;
    NoEvents(System(h, Reader(Nothing, [m0, Current(h), h.log[0], h.log[1]], [h.log[0], h.log[1]], 2)));
  }

  lemma NoEvents<S>(s: System<S>)
    ensures Run(s, []) == s
  {
  }
}
