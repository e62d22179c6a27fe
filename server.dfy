/** The RPC server (Server/Program.cs): the handler run for each delivery from
    the request queue, and the broker's prefetch-1 dispatch that feeds it.
    The handler captures the correlation id, tries to decode the request and
    draw a response id, and in its `finally` block publishes the reply and
    then acknowledges the delivery. Its effects are recorded as a trace. */
module Server {
  import opened Protocol

  /** A message taken from the request queue: its delivery tag, the two
      envelope properties, and what deserialising its body yields. */
  datatype Delivery = Delivery(
    deliveryTag: nat,
    correlationId: Option<string>,
    replyTo: Option<string>,
    body: Decoded<Request>)

  /** What the server's channel sees: the broker hands over a delivery, the
      handler publishes a reply, the handler acknowledges a delivery. */
  datatype Action =
    | Deliver(deliveryTag: nat)
    | Publish(message: Message<Option<Response>>)
    | Ack(deliveryTag: nat, multiple: bool)

  /** BasicQosAsync(prefetchCount: 1). */
  const PrefetchCount: nat := 1

  /** The bounds of `rand.Next(1, 1000000)`; the upper one is exclusive. */
  const MinId: int32 := 1
  const MaxIdExclusive: int32 := 1000000

  /** `m` is the reply the handler owes delivery `d`: on the default exchange,
      routed to d's ReplyTo, mandatory, carrying d's CorrelationId and no
      ReplyTo of its own, with a response exactly when d's body decoded to a
      request, and then with an id drawn from [1, 999999]. */
  predicate IsReplyFor(m: Message<Option<Response>>, d: Delivery)
  {
    m.exchange == DefaultExchange && m.routingKey == d.replyTo && m.mandatory &&
    m.correlationId == d.correlationId && m.replyTo.None? &&
    (m.body.Some? <==> d.body.Value?) &&
    (m.body.Some? ==> MinId <= m.body.value.id < MaxIdExclusive)
  }

  /** The `ReceivedAsync` handler for one delivery. `publishThrows` says
      whether BasicPublishAsync threw inside `finally`, which skips the ack.
      A body that fails to decode, or decodes to null so that reading
      `request.amount` throws, is caught and leaves `response` null. The
      random draw is a nondeterministic choice within its bounds. */
  method HandleDelivery(d: Delivery, publishThrows: bool) returns (effects: seq<Action>)
    ensures |effects| == if publishThrows then 1 else 2
    ensures effects[0].Publish? && IsReplyFor(effects[0].message, d)
    ensures !publishThrows ==> effects[1] == Ack(d.deliveryTag, false)
  {
    var response: Option<Response> := None;
    var replyCorrelationId := d.correlationId;
    match d.body {
      case Value(request) =>
        var id: int32 :| MinId <= id < MaxIdExclusive;
        response := Some(Response(id));
      case Null =>
      case Malformed =>
    }
    effects := [Publish(Message(DefaultExchange, d.replyTo, true, replyCorrelationId, None, response))];
    if !publishThrows {
      effects := effects + [Ack(d.deliveryTag, false)];
    }
  }

  // ---------------------------------------------------------------------
  // The consumer under prefetch 1

  /** The consumer either holds no unacknowledged delivery or exactly one. */
  datatype ConsumerState = Idle | Busy(deliveryTag: nat)

  /** One action as the channel allows it under prefetch 1 and manual acks:
      a delivery only while nothing is unacknowledged, a reply only from a
      running handler, an ack only of the delivery in hand and never with
      `multiple`. `None` marks a violation. */
  function Next(s: ConsumerState, a: Action): (t: Option<ConsumerState>)
  {
    match a
    case Deliver(tag) => if s.Idle? then Some(Busy(tag)) else None
    case Publish(_) => if s.Busy? then Some(s) else None
    case Ack(tag, multiple) => if s == Busy(tag) && !multiple then Some(Idle) else None
  }

  /** The state after a whole trace, or `None` if some action violates the discipline. */
  function Replay(s: ConsumerState, trace: seq<Action>): (t: Option<ConsumerState>)
    decreases |trace|
  {
    if trace == [] then Some(s)
    else match Next(s, trace[0])
      case None => None
      case Some(t) => Replay(t, trace[1..])
  }

  lemma {:induction false} ReplayAppend(s: ConsumerState, a: seq<Action>, b: seq<Action>)
    ensures Replay(s, a + b) == match Replay(s, a) case None => None case Some(t) => Replay(t, b)
    decreases |a|
  {
    if a == [] {
      assert a + b == b;
    } else {
      assert (a + b)[0] == a[0];
      assert (a + b)[1..] == a[1..] + b;
      match Next(s, a[0]) {
        case None =>
        case Some(t) => ReplayAppend(t, a[1..], b);
      }
    }
  }

  /** Every prefix of an accepted trace is accepted: at no moment does the
      consumer hold more than one unacknowledged delivery. */
  lemma AcceptedPrefixes(s: ConsumerState, trace: seq<Action>, n: nat)
    requires Replay(s, trace).Some? && n <= |trace|
    ensures Replay(s, trace[..n]).Some?
  {
    assert trace == trace[..n] + trace[n..];
    ReplayAppend(s, trace[..n], trace[n..]);
  }

  function Flatten(log: seq<seq<Action>>): (flat: seq<Action>)
    decreases |log|
  {
    if log == [] then [] else log[0] + Flatten(log[1..])
  }

  lemma {:induction false} FlattenAppend(log: seq<seq<Action>>, block: seq<Action>)
    ensures Flatten(log + [block]) == Flatten(log) + block
    decreases |log|
  {
    if log == [] {
      assert [block][1..] == [];
    } else {
      assert (log + [block])[1..] == log[1..] + [block];
      FlattenAppend(log[1..], block);
    }
  }

  /** `block` is the whole handling of delivery `d`: the broker hands it
      over, the handler publishes its reply, and then acknowledges it unless
      the publish threw. */
  predicate HandledOnce(d: Delivery, publishThrows: bool, block: seq<Action>)
  {
    |block| == (if publishThrows then 2 else 3) &&
    block[0] == Deliver(d.deliveryTag) &&
    block[1].Publish? && IsReplyFor(block[1].message, d) &&
    (!publishThrows ==> block[2] == Ack(d.deliveryTag, false))
  }

  /** One handled delivery, replayed from an idle consumer, ends idle when
      it was acknowledged and busy with that delivery when it was not. */
  lemma HandledBlockReplay(d: Delivery, publishThrows: bool, block: seq<Action>)
    requires HandledOnce(d, publishThrows, block)
    ensures Replay(Idle, block) == Some(if publishThrows then Busy(d.deliveryTag) else Idle)
  {
    var busy := Busy(d.deliveryTag);
    assert block[1..][1..] == block[2..];
    assert Replay(Idle, block) == Replay(busy, block[1..]);
    assert Replay(busy, block[1..]) == Replay(busy, block[2..]);
    if !publishThrows {
      assert block[2..][1..] == [];
      assert Replay(busy, block[2..]) == Replay(Idle, []);
    } else {
      assert block[2..] == [];
    }
  }

  /** The broker's dispatch to the handler under BasicQos(prefetchCount: 1)
      and manual acknowledgement: deliveries are handed over in queue order,
      the next one only once the previous one is acknowledged, and each
      handler invocation runs to completion before the next starts. Returns
      one block of actions per delivery handed over. A publish that throws
      leaves its delivery unacknowledged, after which nothing more is
      delivered. */
  method Consume(deliveries: seq<Delivery>, publishThrows: seq<bool>) returns (log: seq<seq<Action>>)
    requires |publishThrows| == |deliveries|
    ensures |log| <= |deliveries|
    ensures forall k :: 0 <= k < |log| ==> HandledOnce(deliveries[k], publishThrows[k], log[k])
    ensures forall k :: 0 <= k < |log| - 1 ==> !publishThrows[k]
    ensures |log| < |deliveries| ==> 0 < |log| && publishThrows[|log| - 1]
    ensures Replay(Idle, Flatten(log)) ==
      Some(if 0 < |log| && publishThrows[|log| - 1] then Busy(deliveries[|log| - 1].deliveryTag) else Idle)
  {
    log := [];
    var unacked: nat := 0;
    while |log| < |deliveries| && unacked < PrefetchCount
      invariant |log| <= |deliveries|
      invariant forall k :: 0 <= k < |log| ==> HandledOnce(deliveries[k], publishThrows[k], log[k])
      invariant forall k :: 0 <= k < |log| - 1 ==> !publishThrows[k]
      invariant unacked == if 0 < |log| && publishThrows[|log| - 1] then 1 else 0
      invariant Replay(Idle, Flatten(log)) ==
        Some(if unacked == 0 then Idle else Busy(deliveries[|log| - 1].deliveryTag))
    {
      var d := deliveries[|log|];
      var effects := HandleDelivery(d, publishThrows[|log|]);
      var block := [Deliver(d.deliveryTag)] + effects;
      unacked := unacked + 1;
      if effects[|effects| - 1].Ack? {
        unacked := unacked - 1;
      }
      HandledBlockReplay(d, publishThrows[|log|], block);
      FlattenAppend(log, block);
      ReplayAppend(Idle, Flatten(log), block);
      log := log + [block];
    }
  }
}
