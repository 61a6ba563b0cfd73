/** One publisher, one client of the Unix socket, and the bounded broadcast
    queue between them, as a transition system. A publication is two steps: the
    state and its number change under the lock, and the message is broadcast
    after the lock is released. A client subscribes, greets with a snapshot, then
    forwards what it receives; a client that has fallen behind the queue's
    capacity is moved to the oldest retained message and given a snapshot. */
module HubModel {
  import opened Bytes

  const CAPACITY: nat := 64

  datatype Message<S> = Message(number: nat, state: S)

  /** `log` is everything ever put on the queue; only the last CAPACITY entries
      are still held by it. `half` is a publication between its two steps.
      `history` gives the state each sequence number was assigned to. */
  datatype Hub<S> = Hub(number: nat, state: S, half: Option<Message<S>>, log: seq<Message<S>>, history: seq<S>)

  datatype Phase = Fresh | Subscribed | Owing | Ready

  /** `held` is a message taken but not yet written; `live` marks one that came
      off the queue. `start` is where the subscription began, `from` where the
      client last jumped to, and `lagged` whether it ever jumped. */
  datatype Held<S> = Nothing | Holding(message: Message<S>, live: bool)

  datatype Client<S> = Client(
    phase: Phase, next: nat, held: Held<S>, writable: bool,
    sent: seq<Message<S>>, live: seq<Message<S>>,
    start: nat, from: nat, lagged: bool)

  datatype System<S> = System(hub: Hub<S>, client: Client<S>)

  datatype Event<S> =
    | Record(state: S)
    | Broadcast(heard: bool)
    | Subscribe
    | Hello(ok: bool)
    | GetState
    | Snapshot
    | Receive
    | Write(ok: bool)

  function Current<S>(h: Hub<S>): Message<S> {
    Message(h.number, h.state)
  }

  function Init<S>(s: S): System<S> {
    System(Hub(0, s, None, [], [s]), Client(Fresh, 0, Nothing, true, [], [], 0, 0, false))
  }

  function Recorded<S>(h: Hub<S>, s: S): Hub<S> {
    h.(number := h.number + 1, state := s, half := Some(Message(h.number + 1, s)), history := h.history + [s])
  }

  /** Broadcasting to nobody drops the message. */
  function Sent<S>(h: Hub<S>, heard: bool): Hub<S>
    requires h.half.Some?
  {
    if heard then h.(half := None, log := h.log + [h.half.value]) else h.(half := None)
  }

  function Received<S>(c: Client<S>, log: seq<Message<S>>): Client<S>
    requires c.next < |log|
  {
    if c.next + CAPACITY < |log| then
      c.(next := |log| - CAPACITY, from := |log| - CAPACITY, lagged := true, phase := Owing)
    else
      c.(next := c.next + 1, held := Holding(log[c.next], true))
  }

  function Written<S>(c: Client<S>, ok: bool): Client<S>
    requires c.held.Holding?
  {
    var c := if ok then c.(sent := c.sent + [c.held.message],
                           live := if c.held.live then c.live + [c.held.message] else c.live)
             else c.(writable := false);
    c.(held := Nothing)
  }

  /** What an event does. One that cannot happen now changes nothing. */
  function Step<S>(s: System<S>, e: Event<S>): System<S> {
    var h, c := s.hub, s.client;
    match e
    case Record(state) =>
      if h.half.None? then s.(hub := Recorded(h, state)) else s
    case Broadcast(heard) =>
      if h.half.Some? then s.(hub := Sent(h, heard || c.phase != Fresh)) else s
    case Subscribe =>
      if c.phase.Fresh? then s.(client := c.(phase := Subscribed, next := |h.log|, start := |h.log|, from := |h.log|))
      else s
    case Hello(ok) =>
      if c.phase.Subscribed? then s.(client := c.(phase := Owing, writable := ok)) else s
    case GetState =>
      if c.phase.Ready? && c.held.Nothing? then s.(client := c.(phase := Owing)) else s
    case Snapshot =>
      if !c.phase.Owing? then s
      else if c.writable then s.(client := c.(phase := Ready, held := Holding(Current(h), false)))
      else s.(client := c.(phase := Ready))
    case Receive =>
      if c.phase.Ready? && c.held.Nothing? && c.writable && c.next < |h.log| then
        s.(client := Received(c, h.log))
      else s
    case Write(ok) =>
      if c.held.Holding? then s.(client := Written(c, ok)) else s
  }

  function Run<S>(s: System<S>, es: seq<Event<S>>): System<S> {
    if es == [] then s else Step(Run(s, es[..|es| - 1]), es[|es| - 1])
  }
}
