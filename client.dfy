/** RpcClient (Client/Program.cs): the callback table from correlation id to
    result slot, changed in place by CallAsync, by the reply consumer and by
    the cancellation callback. Every method is proved to move the abstract
    state View() exactly as the corresponding function of module Correlation
    does, so the lemmas proved there hold of every interleaving of these
    methods. The broker, the JSON codec and Guid.NewGuid are parameters. */
module Client {
  import opened Protocol
  import opened Correlation

  /** A TaskCompletionSource<Response>: a one-shot slot shared by the awaiting
      CallAsync, the callback table and the cancellation callback. */
  class CompletionSlot {
    var state: Slot

    constructor ()
      ensures state == Pending
    {
      state := Pending;
    }

    /** Completes a pending slot with `res`; reports false and changes nothing otherwise. */
    method TrySetResult(res: Response) returns (completed: bool)
      modifies this
      ensures completed == old(state).Pending?
      ensures state == Correlation.TrySetResult(old(state), res)
    {
      completed := state.Pending?;
      if completed {
        state := Resolved(res);
      }
    }

    /** Cancels a pending slot; on a slot already completed it throws
      InvalidOperationException (`thrown`) and changes nothing. */
    method SetCanceled() returns (thrown: bool)
      modifies this
      ensures thrown == !old(state).Pending?
      ensures state == if thrown then old(state) else Cancelled
    {
      thrown := !state.Pending?;
      if !thrown {
        state := Cancelled;
      }
    }
  }

  /** How CallAsync stands once its id is registered: InvalidOperationException
      before anything happens, or suspended in the publish of `request`, the
      message handed to the broker, for call `id` with result slot `slot`. */
  datatype CallOutcome =
    | NotStarted
    | Publishing(request: Message<Request>, id: string, slot: CompletionSlot)

  class RpcClient {
    var hasChannel: bool                        // `_channel` is not null
    var channelClosed: bool                     // DisposeAsync closed the channel; the field stays set
    var replyQueueName: Option<string>          // `_replyQueueName`
    var callbackMapper: map<string, CompletionSlot>
    var registrations: set<string>              // cancellation registrations not yet fired nor disposed, by call id
    ghost var publishing: set<string>           // calls suspended in `await BasicPublishAsync`
    ghost var awaiting: set<string>             // calls suspended in `await tcs.Task`
    ghost var issued: map<string, CompletionSlot>  // the slot created by every call so far

    /** Every call has its own slot; the table maps an id only to that call's slot. */
    ghost predicate Valid()
      reads this, issued.Values
    {
      (forall a, b :: a in issued && b in issued && a != b ==> issued[a] != issued[b]) &&
      (forall id :: id in callbackMapper ==> id in issued && callbackMapper[id] == issued[id]) &&
      Correlation.Valid(View())
    }

    ghost function View(): Registry
      reads this, issued.Values
    {
      Registry(callbackMapper.Keys, map id | id in issued :: issued[id].state, publishing, registrations, awaiting)
    }

    constructor ()
      ensures Valid() && View() == Empty && issued == map[]
      ensures !hasChannel && !channelClosed && replyQueueName == None
    {
      hasChannel, channelClosed, replyQueueName := false, false, None;
      callbackMapper, registrations := map[], {};
      publishing, awaiting, issued := {}, {}, map[];
    }

    /** StartAsync: opens the channel and records the name the broker gave the
      reply queue. The table is untouched. */
    method StartAsync(replyQueue: string)
      requires Valid()
      modifies this
      ensures Valid() && issued == old(issued) && View() == old(View())
      ensures hasChannel && !channelClosed && replyQueueName == Some(replyQueue)
    {
      hasChannel, channelClosed := true, false;
      replyQueueName := Some(replyQueue);
    }

    /** CallAsync up to its publish. `id` is what Guid.NewGuid returned. The
      new id maps to a fresh pending slot before the request is published. */
    method CallAsync(message: Request, id: string) returns (outcome: CallOutcome)
      requires Valid() && id !in issued
      modifies this
      ensures Valid()
      ensures hasChannel == old(hasChannel) && channelClosed == old(channelClosed)
      ensures replyQueueName == old(replyQueueName)
      ensures !old(hasChannel) ==> outcome == NotStarted && issued == old(issued) && View() == old(View())
      ensures old(hasChannel) ==>
        && id in issued && fresh(issued[id]) && issued == old(issued)[id := issued[id]]
        && View() == Correlation.Call(old(View()), id)
        && outcome == Publishing(Message(DefaultExchange, Some(QueueName), true, Some(id), replyQueueName, message), id, issued[id])
    {
      if !hasChannel {
        return NotStarted;
      }
      ghost var before := View();
      var tcs := new CompletionSlot();
      if id !in callbackMapper {
        callbackMapper := callbackMapper[id := tcs];
      }
      issued := issued[id := tcs];
      assert (map k | k in issued :: issued[k].state) == before.slots[id := Pending];
      publishing := publishing + {id};
      assert View() == Correlation.Call(before, id);
      var request := Message(DefaultExchange, Some(QueueName), true, Some(id), replyQueueName, message);
      outcome := Publishing(request, id, tcs);
    }

    /** CallAsync when the publish of call `id` returns: `publishThrows` says
      whether BasicPublishAsync threw, and a closed channel always makes it
      throw. Otherwise the cancellation callback is registered; Register runs
      it at once when `tokenCancelled`, and an exception from that callback
      leaves CallAsync. */
    method PublishReturned(id: string, tcs: CompletionSlot, publishThrows: bool, tokenCancelled: bool)
      returns (outcome: PublishOutcome)
      requires Valid() && id in issued && issued[id] == tcs && id in publishing
      modifies this, tcs
      ensures Valid() && issued == old(issued)
      ensures hasChannel == old(hasChannel) && channelClosed == old(channelClosed)
      ensures replyQueueName == old(replyQueueName)
      ensures View() == Published(old(View()), id, publishThrows || channelClosed, tokenCancelled)
      ensures outcome == PublishResult(old(View()), id, publishThrows || channelClosed, tokenCancelled)
    {
      ghost var before := View();
      publishing := publishing - {id};
      if publishThrows || channelClosed {
        assert View() == Published(before, id, true, tokenCancelled);
        return PublishThrew;
      }
      if !tokenCancelled {
        registrations := registrations + {id};
        awaiting := awaiting + {id};
        assert View() == Published(before, id, false, false);
        return Suspended;
      }
      callbackMapper := callbackMapper - {id};
      var thrown := tcs.SetCanceled();
      if thrown {
        assert View() == Published(before, id, false, true);
        return CallbackThrew;
      }
      assert (map k | k in issued :: issued[k].state) == before.slots[id := Cancelled];
      awaiting := awaiting + {id};
      assert View() == Published(before, id, false, true);
      outcome := Suspended;
    }

    /** The reply consumer's handler, given the reply's CorrelationId property
      and what deserialising its body yields. */
    method OnReply(correlationId: Option<string>, body: Decoded<Response>) returns (thrown: bool)
      requires Valid()
      modifies this, issued.Values
      ensures Valid() && issued == old(issued)
      ensures hasChannel == old(hasChannel) && channelClosed == old(channelClosed)
      ensures replyQueueName == old(replyQueueName)
      ensures View() == Reply(old(View()), correlationId, body)
      ensures thrown == ReplyThrows(old(View()), correlationId, body)
    {
      thrown := false;
      if correlationId.Some? && correlationId.value != "" {
        var id := correlationId.value;
        if id in callbackMapper {
          var tcs := callbackMapper[id];
          callbackMapper := callbackMapper - {id};
          match body {
            case Value(res) =>
              var _ := tcs.TrySetResult(res);
            case Null =>
            case Malformed =>
              thrown := true;
          }
        }
      }
    }

    /** The cancellation callback registered by call `id` for its slot `tcs`,
      run when the caller's token is cancelled; it does nothing once it has
      fired or its registration has been disposed. */
    method Cancel(id: string, tcs: CompletionSlot) returns (thrown: bool)
      requires Valid() && id in issued && issued[id] == tcs
      modifies this, tcs
      ensures Valid() && issued == old(issued)
      ensures hasChannel == old(hasChannel) && channelClosed == old(channelClosed)
      ensures replyQueueName == old(replyQueueName)
      ensures View() == Correlation.Cancel(old(View()), id)
      ensures thrown == CancelThrows(old(View()), id)
    {
      thrown := false;
      if id in registrations {
        registrations := registrations - {id};
        callbackMapper := callbackMapper - {id};
        thrown := tcs.SetCanceled();
      }
    }

    /** CallAsync after its `await`: it resumes only once the slot is
      completed, returning the response or throwing the cancellation, and
      disposes its cancellation registration on the way out. */
    method Await(id: string, tcs: CompletionSlot) returns (result: Option<CallResult>)
      requires Valid() && id in issued && issued[id] == tcs && id in awaiting
      modifies this
      ensures Valid() && issued == old(issued)
      ensures hasChannel == old(hasChannel) && channelClosed == old(channelClosed)
      ensures replyQueueName == old(replyQueueName)
      ensures View() == Return(old(View()), id)
      ensures result == ReturnValue(old(View()), id)
    {
      match tcs.state {
        case Pending =>
          result := None;
        case Resolved(res) =>
          registrations, awaiting := registrations - {id}, awaiting - {id};
          result := Some(Returned(res));
        case Cancelled =>
          registrations, awaiting := registrations - {id}, awaiting - {id};
          result := Some(Canceled);
      }
    }

    /** DisposeAsync: closes the channel if there is one. The field keeps
      pointing at it, so a later CallAsync still registers its id and then
      fails in the publish; calls in flight are abandoned. */
    method DisposeAsync()
      requires Valid()
      modifies this
      ensures Valid() && issued == old(issued) && View() == old(View())
      ensures hasChannel == old(hasChannel) && replyQueueName == old(replyQueueName)
      ensures channelClosed == (old(channelClosed) || old(hasChannel))
    {
      if hasChannel {
        channelClosed := true;
      }
    }
  }
}
