/** The publication point and a client's connection, as the objects that are
    updated. Each method is proved to be the transition of the same name. */
module Publication {
  import opened Bytes
  import opened HubModel

  class Hub<S> {
    var number: nat
    var state: S
    var half: Option<Message<S>>
    var log: seq<Message<S>>
    var notes: seq<string>
    const noteCapacity: nat
    ghost var history: seq<S>

    ghost function View(): HubModel.Hub<S>
      reads this
    {
      HubModel.Hub(number, state, half, log, history)
    }

    constructor (initial: S, capacity: nat)
      ensures View() == Init(initial).hub && notes == [] && noteCapacity >= 1
      ensures capacity >= 1 ==> noteCapacity == capacity
    {
      number, state, half, log, notes, history := 0, initial, None, [], [], [initial];
      noteCapacity := if capacity >= 1 then capacity else 1;
    }

    /** Under the lock: number and keep the new state. */
    method Record(s: S) returns (given: nat)
      requires half.None?
      modifies this
      ensures View() == Recorded(old(View()), s) && notes == old(notes)
      ensures given == old(number) + 1
    {
      number := number + 1;
      state := s;
      half := Some(Message(number, s));
      history := history + [s];
      given := number;
    }

    /** After the lock: broadcast it to whoever is listening. */
    method Broadcast(heard: bool)
      requires half.Some?
      modifies this
      ensures View() == Sent(old(View()), heard) && notes == old(notes)
      ensures half.None? && log == if heard then old(log) + [old(half).value] else old(log)
    {
      if heard {
        log := log + [half.value];
      }
      half := None;
    }

    /** Newest first, the oldest falling off the end. */
    method PushNote(note: string)
      requires |notes| <= noteCapacity && noteCapacity >= 1
      modifies this`notes
      ensures |notes| <= noteCapacity && notes <= [note] + old(notes)
      ensures |notes| == if |old(notes)| < noteCapacity then |old(notes)| + 1 else noteCapacity
    {
      notes := [note] + notes;
      if |notes| > noteCapacity {
        notes := notes[..noteCapacity];
      }
    }
  }

  class Connection<S> {
    const hub: Hub<S>
    var phase: Phase
    var next: nat
    var held: Held<S>
    var writable: bool
    ghost var sent: seq<Message<S>>
    ghost var live: seq<Message<S>>
    ghost var start: nat
    ghost var from: nat
    ghost var lagged: bool

    ghost function View(): System<S>
      reads this, hub
    {
      System(hub.View(), Client(phase, next, held, writable, sent, live, start, from, lagged))
    }

    constructor (hub: Hub<S>)
      ensures this.hub == hub && View() == System(hub.View(), Init(hub.state).client)
    {
      this.hub := hub;
      phase, next, held, writable := Fresh, 0, Nothing, true;
      sent, live, start, from, lagged := [], [], 0, 0, false;
    }

    method Subscribe()
      requires phase.Fresh?
      modifies this
      ensures View() == Step(old(View()), HubModel.Subscribe)
    {
      phase, next := Subscribed, |hub.log|;
      start, from := |hub.log|, |hub.log|;
    }

    method Hello(ok: bool)
      requires phase.Subscribed?
      modifies this
      ensures View() == Step(old(View()), HubModel.Hello(ok))
    {
      phase, writable := Owing, ok;
    }

    method GetState()
      requires phase.Ready? && held.Nothing?
      modifies this
      ensures View() == Step(old(View()), HubModel.GetState)
    {
      phase := Owing;
    }

    method Snapshot()
      requires phase.Owing?
      modifies this
      ensures View() == Step(old(View()), HubModel.Snapshot)
    {
      if writable {
        held := Holding(Message(hub.number, hub.state), false);
      }
      phase := Ready;
    }

    /** One receive: nothing yet, the next message, or the news that some were lost. */
    method Receive()
      requires phase.Ready? && held.Nothing? && writable
      modifies this
      ensures View() == Step(old(View()), HubModel.Receive)
      ensures |hub.log| <= old(next) ==> View() == old(View())
      ensures old(next) < |hub.log| <= old(next) + CAPACITY ==>
        held == Holding(hub.log[old(next)], true) && next == old(next) + 1 && phase.Ready?
      ensures old(next) + CAPACITY < |hub.log| ==>
        held.Nothing? && next == |hub.log| - CAPACITY && phase.Owing?
    {
      if next >= |hub.log| {
      } else if next + CAPACITY < |hub.log| {
        next := |hub.log| - CAPACITY;
        from, lagged := next, true;
        phase := Owing;
      } else {
        held := Holding(hub.log[next], true);
        next := next + 1;
      }
    }

    /** Write what is in hand; a failed write stops all further writing. */
    method Write(ok: bool)
      requires held.Holding?
      modifies this
      ensures View() == Step(old(View()), HubModel.Write(ok))
    {
      if ok {
        sent := sent + [held.message];
        live := if held.live then live + [held.message] else live;
      } else {
        writable := false;
      }
      held := Nothing;
    }
  }
}
