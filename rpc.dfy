/** The client program's InvokeAsync (Client/Program.cs) run against the
    server's handler, with the broker's routing written out: the request
    goes to the server with the client's envelope, the reply comes back to
    the client's consumer with the server's. */
module Rpc {
  import opened Protocol
  import opened Correlation
  import opened Client
  import opened Server

  /** What the server's consumer receives for a request the client
      published: the request queue's delivery, with the body coming back as
      the request object (the JSON round trip is assumed exact). */
  function Route(sent: Message<Request>, deliveryTag: nat): (d: Delivery)
    ensures d.correlationId == sent.correlationId && d.replyTo == sent.replyTo
    ensures d.body == Value(sent.body) && d.deliveryTag == deliveryTag
  {
    Delivery(deliveryTag, sent.correlationId, sent.replyTo, Value(sent.body))
  }

  /** A fresh client is started, issues one call, the server handles the
      request and its reply reaches the client's consumer: the call returns
      exactly the response the server published, whose id lies in
      [1, 999999]. */
  method InvokeAsync(request: Request, replyQueue: string, id: string, deliveryTag: nat)
    returns (result: Option<CallResult>, reply: Message<Option<Response>>)
    requires id != ""
    ensures reply.routingKey == Some(replyQueue) && reply.correlationId == Some(id)
    ensures reply.body.Some? && result == Some(Returned(reply.body.value))
    ensures MinId <= result.value.response.id < MaxIdExclusive
  {
    var client := new RpcClient();
    client.StartAsync(replyQueue);
    var outcome := client.CallAsync(request, id);
    var _ := client.PublishReturned(id, outcome.slot, false, false);
    var effects := HandleDelivery(Route(outcome.request, deliveryTag), false);
    reply := effects[0].message;
    var _ := client.OnReply(reply.correlationId, Transmit(reply.body));
    result := client.Await(id, outcome.slot);
  }

  /** The server answers while the client's publish is still in progress, and
      the caller's token is cancelled before the publish returns. The reply
      resolves the slot; Register then runs the cancellation callback at
      once, whose SetCanceled throws out of CallAsync. The call never awaits
      and the response stays in its slot. */
  method ReplyDuringPublishThenCancelledToken(request: Request, replyQueue: string, id: string, deliveryTag: nat)
    returns (outcome: PublishOutcome, reply: Message<Option<Response>>, slot: CompletionSlot)
    requires id != ""
    ensures outcome == CallbackThrew
    ensures reply.body.Some? && slot.state == Resolved(reply.body.value)
  {
    var client := new RpcClient();
    client.StartAsync(replyQueue);
    var call := client.CallAsync(request, id);
    var effects := HandleDelivery(Route(call.request, deliveryTag), false);
    reply := effects[0].message;
    var _ := client.OnReply(reply.correlationId, Transmit(reply.body));
    slot := call.slot;
    outcome := client.PublishReturned(id, slot, false, true);
  }

  /** A call cancelled before its reply arrives completes with the
      cancellation; the reply that then arrives is dropped without effect. */
  method CancelThenLateReply(request: Request, replyQueue: string, id: string, deliveryTag: nat)
    returns (result: Option<CallResult>, lateReplyThrew: bool, cancelThrew: bool)
    ensures result == Some(Canceled)
    ensures !lateReplyThrew && !cancelThrew
  {
    var client := new RpcClient();
    client.StartAsync(replyQueue);
    var outcome := client.CallAsync(request, id);
    var _ := client.PublishReturned(id, outcome.slot, false, false);
    cancelThrew := client.Cancel(id, outcome.slot);
    var effects := HandleDelivery(Route(outcome.request, deliveryTag), false);
    var reply := effects[0].message;
    ghost var before := client.View();
    lateReplyThrew := client.OnReply(reply.correlationId, Transmit(reply.body));
    assert client.View() == before;
    result := client.Await(id, outcome.slot);
  }
}
