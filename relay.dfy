/** The live-event relay: an object holding the registry of connected
    client handles and the readiness flag of its broker subscription, and
    fanning every inbound broker message out to the registered handles.
    The broker and the websocket transport are reduced to outcomes the
    caller supplies. */
module Relay {
  import opened Registry
  import opened Fanout

  datatype Option<T> = None | Some(value: T)

  /** How a call ended: normally, or by an exception propagating out of it. */
  datatype Outcome = Returned | Raised

  type Bytes = seq<bv8>

  /** A message delivered by the broker; only its body is used. */
  datatype IncomingMessage = IncomingMessage(body: Bytes)

  /** The broker calls `setup` makes, in the order it makes them. */
  datatype BrokerStep =
    | OpenConnection | OpenChannel | DeclareExchange | DeclareQueue | BindQueue | StartConsuming

  function StepIndex(step: BrokerStep): nat
  {
    match step
    case OpenConnection => 0
    case OpenChannel => 1
    case DeclareExchange => 2
    case DeclareQueue => 3
    case BindQueue => 4
    case StartConsuming => 5
  }

  /** Whether `setup` gets as far as attempting `step` when `failure` names
      the broker call that raises (None: every call succeeds). */
  predicate Attempted(step: BrokerStep, failure: Option<BrokerStep>)
  {
    failure.None? || StepIndex(step) <= StepIndex(failure.value)
  }

  /** The queue name the startup hook subscribes with. */
  const StartupQueueName: string := "warpgate"

  class Consumer<H(==)> {
    /** The registered client handles, in connection order. */
    var connections: seq<H>
    /** Set once the broker subscription is in place. */
    var isReady: bool
    /** The queue name, once `setup` has got far enough to record it. */
    var queueName: Option<string>
    /** Every completed `send_text`, in order. */
    ghost var sent: seq<Delivery<H>>
    /** Every `ack()` issued on an inbound message. */
    ghost var acks: nat

    constructor ()
      ensures connections == [] && !isReady && queueName == None
      ensures sent == [] && acks == 0
    {
      connections := [];
      isReady := false;
      queueName := None;
      sent := [];
      acks := 0;
    }

    /** `setup`: the broker calls in order; the first one that raises ends
        the call. The queue name is recorded between declaring the exchange
        and declaring the queue, and the ready flag is set only after the
        last call has succeeded. */
    method Setup(name: string, failure: Option<BrokerStep>) returns (outcome: Outcome)
      modifies this`isReady, this`queueName
      ensures outcome == (if failure.None? then Returned else Raised)
      ensures isReady == (old(isReady) || failure.None?)
      ensures queueName == if Attempted(DeclareQueue, failure) then Some(name) else old(queueName)
    {
      if failure == Some(OpenConnection) || failure == Some(OpenChannel)
        || failure == Some(DeclareExchange)
      {
        return Raised;
      }
      queueName := Some(name);
      if failure.Some? {
        return Raised;
      }
      isReady := true;
      return Returned;
    }

    /** The startup hook: it runs `setup` only while the relay is not
        ready, so a repeated hook after a successful setup changes nothing. */
    method Startup(failure: Option<BrokerStep>) returns (outcome: Outcome)
      modifies this`isReady, this`queueName
      ensures old(isReady) ==> outcome == Returned && isReady && queueName == old(queueName)
      ensures !old(isReady) ==>
        outcome == (if failure.None? then Returned else Raised) &&
        isReady == failure.None? &&
        queueName == if Attempted(DeclareQueue, failure) then Some(StartupQueueName) else old(queueName)
    {
      outcome := Returned;
      if !isReady {
        outcome := Setup(StartupQueueName, failure);
      }
    }

    /** `connect`: accept the websocket, then append its handle. If the
        accept raises, nothing is registered. */
    method Connect(h: H, acceptFails: bool) returns (outcome: Outcome)
      modifies this`connections
      ensures outcome == (if acceptFails then Raised else Returned)
      ensures connections == if acceptFails then old(connections) else old(connections) + [h]
    {
      if acceptFails {
        return Raised;
      }
      connections := connections + [h];
      return Returned;
    }

    /** `remove`: delete the first occurrence of the handle. Like
        `list.remove` it raises, and changes nothing, when the handle is
        not registered. */
    method Remove(h: H) returns (outcome: Outcome)
      modifies this`connections
      ensures outcome == (if h in old(connections) then Returned else Raised)
      ensures connections == if h in old(connections) then RemoveFirst(old(connections), h)
                             else old(connections)
    {
      if h !in connections {
        return Raised;
      }
      connections := RemoveFirst(connections, h);
      return Returned;
    }

    /** Removal that tolerates an absent handle: the registry loses the
        first occurrence of `h` if there is one and is otherwise unchanged. */
    method Discard(h: H)
      modifies this`connections
      ensures connections == if h in old(connections) then RemoveFirst(old(connections), h)
                             else old(connections)
      ensures h in old(connections) ==> |connections| + 1 == |old(connections)|
    {
      if h in connections {
        connections := RemoveFirst(connections, h);
      }
    }

    /** `_send`, the broadcast callback: pop handles off the end of the
        registry, send each the rendered body, acknowledge, and keep the
        handle in a local list that becomes the registry at the end. The
        handles in `failing` are those whose `send_text` raises; such an
        exception is not caught, so it ends the call with the popped
        handles gone and the rest still registered. */
    method Send(message: IncomingMessage, render: Bytes -> string, failing: set<H>)
      returns (outcome: Outcome)
      modifies this`connections, this`sent, this`acks
      ensures var p := Drain(old(connections), failing, render(message.body));
        outcome == (if p.raised then Raised else Returned) &&
        connections == (if p.raised then p.remaining else p.living) &&
        sent == old(sent) + p.sent && acks == old(acks) + p.acks
    {
      ghost var text := render(message.body);
      var living: seq<H> := [];
      while |connections| > 0
        invariant var p0 := Drain(old(connections), failing, text);
          var p := Drain(connections, failing, text);
          p0.raised == p.raised && p0.remaining == p.remaining &&
          p0.living == living + p.living &&
          old(sent) + p0.sent == sent + p.sent && old(acks) + p0.acks == acks + p.acks
        decreases |connections|
      {
        ghost var before := connections;
        var h := connections[|connections| - 1];
        connections := connections[..|connections| - 1];
        if h in failing {
          return Raised;
        }
        sent := sent + [Delivery(h, render(message.body))];
        acks := acks + 1;
        assert Drain(before, failing, text).living == [h] + Drain(connections, failing, text).living;
        living := living + [h];
      }
      connections := living;
      return Returned;
    }

    /** The broadcast with each failing send caught: the failing handle is
        dropped and every other handle is served, acknowledged and kept. */
    method SendPruning(message: IncomingMessage, render: Bytes -> string, failing: set<H>)
      modifies this`connections, this`sent, this`acks
      ensures var p := DrainPruning(old(connections), failing, render(message.body));
        connections == p.living && sent == old(sent) + p.sent && acks == old(acks) + p.acks
    {
      ghost var text := render(message.body);
      ghost var p0 := DrainPruning(connections, failing, text);
      ghost var sent0, acks0 := sent, acks;
      var living: seq<H> := [];
      while |connections| > 0
        invariant p0.living == living + DrainPruning(connections, failing, text).living
        invariant sent0 + p0.sent == sent + DrainPruning(connections, failing, text).sent
        invariant acks0 + p0.acks == acks + DrainPruning(connections, failing, text).acks
        decreases |connections|
      {
        PruningStep(connections, failing, text, living, sent);
        var h := connections[|connections| - 1];
        connections := connections[..|connections| - 1];
        if h !in failing {
          sent := sent + [Delivery(h, render(message.body))];
          acks := acks + 1;
          living := living + [h];
        }
      }
      connections := living;
    }
  }

  /** Clients a and b connect in that order, a broadcast goes out, a's
      socket closes, and a second broadcast goes out. The first pass leaves
      the registry as [b, a], so the second pass pops a first; its send
      raises and b, still connected, never gets the second message. */
  method ClientClosedBetweenBroadcasts<H(==)>(a: H, b: H, m1: IncomingMessage, m2: IncomingMessage,
                                              render: Bytes -> string)
    returns (outcome: Outcome, registry: seq<H>, ghost texts: seq<string>)
    requires a != b
    ensures outcome == Raised && registry == [b]
    ensures texts == [render(m1.body)]
  {
    var c := new Consumer<H>();
    outcome := c.Connect(a, false);
    outcome := c.Connect(b, false);
    outcome := c.Send(m1, render, {});
    assert [a, b][..1] == [a];
    assert c.connections == [b, a];
    ghost var t1 := render(m1.body);
    assert c.sent == [Delivery(b, t1), Delivery(a, t1)];
    outcome := c.Send(m2, render, {a});
    assert [b, a][..1] == [b];
    assert c.sent == [Delivery(b, t1), Delivery(a, t1)];
    registry := c.connections;
    texts := TextsTo(c.sent, b);
    assert c.sent[1..] == [Delivery(a, t1)];
    assert TextsTo([Delivery(a, t1)], b) == [];
  }

  /** The same scenario with failing sends caught: a is pruned, b stays
      registered and receives both messages in order. */
  method ClientClosedBetweenPrunedBroadcasts<H(==)>(a: H, b: H, m1: IncomingMessage,
                                                    m2: IncomingMessage, render: Bytes -> string)
    returns (registry: seq<H>, ghost texts: seq<string>)
    requires a != b
    ensures registry == [b]
    ensures texts == [render(m1.body), render(m2.body)]
  {
    var c := new Consumer<H>();
    var outcome := c.Connect(a, false);
    outcome := c.Connect(b, false);
    c.SendPruning(m1, render, {});
    assert [a, b][..1] == [a];
    assert c.connections == [b, a];
    ghost var t1, t2 := render(m1.body), render(m2.body);
    assert c.sent == [Delivery(b, t1), Delivery(a, t1)];
    c.SendPruning(m2, render, {a});
    assert [b, a][..1] == [b];
    assert c.sent == [Delivery(b, t1), Delivery(a, t1), Delivery(b, t2)];
    registry := c.connections;
    texts := TextsTo(c.sent, b);
    assert TextsTo([Delivery(b, t2)], b) == [t2];
    assert TextsTo([Delivery(a, t1), Delivery(b, t2)], b) == [t2];
  }

  /** Clients a and b connect, a broadcast goes out while a's socket is
      closed: the pass serves b, raises at a and leaves the registry empty.
      When b then disconnects, the handler's call to `remove` raises,
      because b is no longer registered. */
  method DroppedClientDisconnects<H(==)>(a: H, b: H, m: IncomingMessage, render: Bytes -> string)
    returns (outcome: Outcome, registry: seq<H>)
    requires a != b
    ensures outcome == Raised && registry == []
  {
    var c := new Consumer<H>();
    outcome := c.Connect(a, false);
    outcome := c.Connect(b, false);
    outcome := c.Send(m, render, {a});
    assert [a, b][..1] == [a];
    outcome := c.Remove(b);
    registry := c.connections;
  }
}
