/** The client's correlation bookkeeping as a value: which correlation ids are
    registered in the callback table, what state the result slot of every call
    is in, which calls still have a live cancellation callback and which are
    still suspended awaiting their slot. Each event that changes the client's
    state is a function on this value; the RpcClient class is proved to follow
    these functions, and the lemmas below state what any interleaving of the
    events guarantees. */
module Correlation {
  import opened Protocol

  /** The state of one TaskCompletionSource<Response>. */
  datatype Slot = Pending | Resolved(response: Response) | Cancelled

  /** What an awaiting CallAsync finally does: return the response or throw
      the cancellation exception. */
  datatype CallResult = Returned(response: Response) | Canceled

  /** How CallAsync goes on when its publish returns: the publish threw, the
      cancellation callback run by Register threw, or the call is suspended
      in `await tcs.Task`. */
  datatype PublishOutcome = PublishThrew | CallbackThrew | Suspended

  datatype Registry = Registry(
    pending: set<string>,       // the keys of the callback table
    slots: map<string, Slot>,   // the slot of every call issued so far, by its correlation id
    publishing: set<string>,    // calls suspended in `await BasicPublishAsync`
    armed: set<string>,         // calls whose cancellation callback is registered, not yet fired nor disposed
    awaiting: set<string>)      // calls suspended in `await tcs.Task`

  /** A registered id always has a slot that nothing has completed yet: slots
      are completed only after their id has been removed from the table. */
  predicate Valid(reg: Registry)
  {
    reg.pending <= reg.slots.Keys &&
    (forall id :: id in reg.pending ==> reg.slots[id] == Pending) &&
    reg.publishing <= reg.slots.Keys && reg.publishing !! reg.awaiting &&
    reg.armed <= reg.awaiting && reg.awaiting <= reg.slots.Keys
  }

  const Empty: Registry := Registry({}, map[], {}, {}, {})

  /** TaskCompletionSource.TrySetResult: completes a pending slot, leaves a completed one alone. */
  function TrySetResult(s: Slot, res: Response): (t: Slot)
    ensures s.Pending? ==> t == Resolved(res)
    ensures !s.Pending? ==> t == s
  {
    if s.Pending? then Resolved(res) else s
  }

  /** `string.IsNullOrEmpty` is false. */
  predicate HasCorrelationId(correlationId: Option<string>)
  {
    correlationId.Some? && correlationId.value != ""
  }

  /** The reply handler's TryRemove succeeds. */
  predicate Matches(reg: Registry, correlationId: Option<string>)
  {
    HasCorrelationId(correlationId) && correlationId.value in reg.pending
  }

  /** CallAsync on a started client, up to its publish: a fresh pending slot
      is registered under the new id before the request is published. */
  function Call(reg: Registry, id: string): (r: Registry)
    requires Valid(reg) && id !in reg.slots
    ensures Valid(r)
  {
    reg.(pending := reg.pending + {id}, slots := reg.slots[id := Pending], publishing := reg.publishing + {id})
  }

  /** CallAsync when its publish returns. A publish that throws leaves the
      registration in place. Otherwise the cancellation callback is
      registered; if the token is already cancelled, Register runs the
      callback at once: TryRemove, then SetCanceled, which cancels a pending
      slot and throws on a slot a reply has already resolved, in which case
      the exception leaves CallAsync. */
  function Published(reg: Registry, id: string, publishThrows: bool, tokenCancelled: bool): (r: Registry)
    requires Valid(reg)
    ensures Valid(r)
  {
    if id !in reg.publishing then reg
    else
      var returned := reg.(publishing := reg.publishing - {id});
      if publishThrows then returned
      else if !tokenCancelled then returned.(armed := reg.armed + {id}, awaiting := reg.awaiting + {id})
      else if reg.slots[id].Pending? then
        returned.(pending := reg.pending - {id}, slots := reg.slots[id := Cancelled], awaiting := reg.awaiting + {id})
      else returned.(pending := reg.pending - {id})
  }

  /** How the call of `id` goes on when its publish returns. */
  function PublishResult(reg: Registry, id: string, publishThrows: bool, tokenCancelled: bool): (o: PublishOutcome)
    requires Valid(reg) && id in reg.publishing
    ensures o == Suspended <==> id in Published(reg, id, publishThrows, tokenCancelled).awaiting
  {
    if publishThrows then PublishThrew
    else if tokenCancelled && !reg.slots[id].Pending? then CallbackThrew
    else Suspended
  }

  /** The reply consumer: a reply without a correlation id, or whose id is not
      registered, is dropped; otherwise the id is removed, and the slot is
      completed only when the body decodes to a response. */
  function Reply(reg: Registry, correlationId: Option<string>, body: Decoded<Response>): (r: Registry)
    requires Valid(reg)
    ensures Valid(r)
  {
    if !Matches(reg, correlationId) then reg
    else
      var id := correlationId.value;
      var removed := reg.(pending := reg.pending - {id});
      match body
      case Value(res) => removed.(slots := reg.slots[id := TrySetResult(reg.slots[id], res)])
      case _ => removed
  }

  /** The reply consumer throws when DeserializeObject does, which it reaches
      only after a successful TryRemove. */
  predicate ReplyThrows(reg: Registry, correlationId: Option<string>, body: Decoded<Response>)
  {
    Matches(reg, correlationId) && body.Malformed?
  }

  /** The cancellation callback of call `id`, if it is still registered: it
      removes `id` from the table whatever TryRemove finds, then calls
      SetCanceled, which changes only a pending slot. */
  function Cancel(reg: Registry, id: string): (r: Registry)
    requires Valid(reg)
    ensures Valid(r)
  {
    if id !in reg.armed then reg
    else
      reg.(pending := reg.pending - {id},
           armed := reg.armed - {id},
           slots := if reg.slots[id].Pending? then reg.slots[id := Cancelled] else reg.slots)
  }

  /** SetCanceled throws InvalidOperationException on a slot that is already completed. */
  predicate CancelThrows(reg: Registry, id: string)
    requires Valid(reg)
  {
    id in reg.armed && !reg.slots[id].Pending?
  }

  /** `await tcs.Task` resumes once the slot is completed, and leaving the
      `using` block disposes the cancellation registration. */
  function Return(reg: Registry, id: string): (r: Registry)
    requires Valid(reg)
    ensures Valid(r)
  {
    if id in reg.awaiting && !reg.slots[id].Pending? then
      reg.(awaiting := reg.awaiting - {id}, armed := reg.armed - {id})
    else reg
  }

  /** What the awaiting CallAsync of `id` completes with, if it can resume. */
  function ReturnValue(reg: Registry, id: string): (v: Option<CallResult>)
    requires Valid(reg)
  {
    if id !in reg.awaiting then None
    else match reg.slots[id]
      case Pending => None
      case Resolved(res) => Some(Returned(res))
      case Cancelled => Some(Canceled)
  }

  datatype Event =
    | CallEvent(id: string)
    | PublishEvent(id: string, publishThrows: bool, tokenCancelled: bool)
    | ReplyEvent(correlationId: Option<string>, body: Decoded<Response>)
    | CancelEvent(id: string)
    | ReturnEvent(id: string)

  /** Guid.NewGuid never returns an id that was issued before. */
  predicate Enabled(reg: Registry, e: Event)
  {
    e.CallEvent? ==> e.id !in reg.slots
  }

  function Step(reg: Registry, e: Event): (r: Registry)
    requires Valid(reg) && Enabled(reg, e)
    ensures Valid(r)
  {
    match e
    case CallEvent(id) => Call(reg, id)
    case PublishEvent(id, publishThrows, tokenCancelled) => Published(reg, id, publishThrows, tokenCancelled)
    case ReplyEvent(correlationId, body) => Reply(reg, correlationId, body)
    case CancelEvent(id) => Cancel(reg, id)
    case ReturnEvent(id) => Return(reg, id)
  }

  /** Every call event in `events` draws an id not issued before it. */
  predicate Fresh(reg: Registry, events: seq<Event>)
    requires Valid(reg)
    decreases |events|
  {
    events == [] || (Enabled(reg, events[0]) && Fresh(Step(reg, events[0]), events[1..]))
  }

  /** The state after an interleaving of events. */
  function Run(reg: Registry, events: seq<Event>): (r: Registry)
    requires Valid(reg) && Fresh(reg, events)
    ensures Valid(r)
    decreases |events|
  {
    if events == [] then reg else Run(Step(reg, events[0]), events[1..])
  }

  // ---------------------------------------------------------------------
  // One event at a time

  /** A reply with no correlation id, or one that matches no registered call,
      changes nothing and does not throw. */
  lemma UnmatchedReplyIsDiscarded(reg: Registry, correlationId: Option<string>, body: Decoded<Response>)
    requires Valid(reg) && !Matches(reg, correlationId)
    ensures Reply(reg, correlationId, body) == reg
    ensures !ReplyThrows(reg, correlationId, body)
  {
  }

  /** A matching reply removes exactly its own id from the table; its slot
      becomes Resolved(res) exactly when the body decodes to res, and stays
      Pending when the body decodes to null or fails to decode. No other
      registration, slot or callback changes. */
  lemma MatchedReplyEffect(reg: Registry, id: string, body: Decoded<Response>)
    requires Valid(reg) && Matches(reg, Some(id))
    ensures var r := Reply(reg, Some(id), body);
      && r.pending == reg.pending - {id}
      && r.slots.Keys == reg.slots.Keys
      && (forall other :: other in reg.slots && other != id ==> r.slots[other] == reg.slots[other])
      && (body.Value? ==> r.slots[id] == Resolved(body.value))
      && (!body.Value? ==> r.slots[id] == Pending)
      && r.armed == reg.armed && r.awaiting == reg.awaiting
    ensures ReplyThrows(reg, Some(id), body) <==> body.Malformed?
  {
  }

  /** A second reply carrying the same correlation id finds nothing. */
  lemma DuplicateReplyIsDiscarded(reg: Registry, correlationId: Option<string>, first: Decoded<Response>, second: Decoded<Response>)
    requires Valid(reg)
    ensures var r := Reply(reg, correlationId, first);
      Reply(r, correlationId, second) == r && !ReplyThrows(r, correlationId, second)
  {
  }

  /** A reply that arrives after the call was cancelled is discarded, and the
      slot stays Cancelled. */
  lemma ReplyAfterCancelIsDiscarded(reg: Registry, id: string, body: Decoded<Response>)
    requires Valid(reg) && id in reg.armed && reg.slots[id] == Pending
    ensures var c := Cancel(reg, id);
      && Reply(c, Some(id), body) == c
      && !ReplyThrows(c, Some(id), body)
      && c.slots[id] == Cancelled
      && !CancelThrows(reg, id)
  {
  }

  /** Reply and cancellation race on one pending call: whichever comes first
      completes the slot and the other completes nothing. When the reply won
      with a value, the late SetCanceled throws; when the reply decoded to null,
      the cancellation is the one that completes the slot. */
  lemma CancelAfterReply(reg: Registry, id: string, body: Decoded<Response>)
    requires Valid(reg) && id != "" && id in reg.armed && id in reg.pending
    ensures var r := Reply(reg, Some(id), body);
      var c := Cancel(r, id);
      && c.pending == reg.pending - {id}
      && (body.Value? ==> c.slots[id] == Resolved(body.value) && CancelThrows(r, id))
      && (!body.Value? ==> c.slots[id] == Cancelled && !CancelThrows(r, id))
  {
  }

  /** The id is registered before the publish, so a reply that arrives while
      the publish is still in progress is not lost: once the publish returns,
      the call awaits a slot that already holds the response. */
  lemma ReplyDuringPublish(reg: Registry, id: string, res: Response)
    requires Valid(reg) && id != "" && id in reg.publishing && id in reg.pending
    ensures var r := Reply(reg, Some(id), Value(res));
      && PublishResult(r, id, false, false) == Suspended
      && ReturnValue(Published(r, id, false, false), id) == Some(Returned(res))
  {
  }

  /** A token already cancelled when the publish returns makes Register run
      the callback at once. Without a reply in between, the call awaits a
      cancelled slot. If a reply resolved the slot during the publish,
      SetCanceled throws out of CallAsync: the call never awaits, and its
      slot keeps the response nobody reads. */
  lemma CancelledTokenAtRegister(reg: Registry, id: string, res: Response)
    requires Valid(reg) && id != "" && id in reg.publishing && id in reg.pending
    ensures var p := Published(reg, id, false, true);
      && PublishResult(reg, id, false, true) == Suspended
      && id !in p.pending && id !in p.armed
      && ReturnValue(p, id) == Some(Canceled)
    ensures var r := Reply(reg, Some(id), Value(res));
      var p := Published(r, id, false, true);
      && PublishResult(r, id, false, true) == CallbackThrew
      && id !in p.awaiting && p.slots[id] == Resolved(res)
  {
  }

  /** The awaiting call resumes with exactly what its slot holds. */
  lemma ReturnDeliversSlot(reg: Registry, id: string)
    requires Valid(reg) && id in reg.awaiting
    ensures ReturnValue(reg, id).Some? <==> !reg.slots[id].Pending?
    ensures reg.slots[id].Resolved? ==> ReturnValue(reg, id) == Some(Returned(reg.slots[id].response))
    ensures reg.slots[id].Cancelled? ==> ReturnValue(reg, id) == Some(Canceled)
    ensures !reg.slots[id].Pending? ==> id !in Return(reg, id).armed && id !in Return(reg, id).awaiting
  {
  }

  // ---------------------------------------------------------------------
  // Any interleaving

  lemma StepKeepsSettled(reg: Registry, e: Event, id: string)
    requires Valid(reg) && Enabled(reg, e)
    requires id in reg.slots && !reg.slots[id].Pending?
    ensures id in Step(reg, e).slots && Step(reg, e).slots[id] == reg.slots[id]
  {
  }

  /** A result slot is written at most once: once it holds a response or a
      cancellation, no later event changes it. */
  lemma {:induction false} SettledIsFinal(reg: Registry, events: seq<Event>, id: string)
    requires Valid(reg) && Fresh(reg, events)
    requires id in reg.slots && !reg.slots[id].Pending?
    ensures id in Run(reg, events).slots && Run(reg, events).slots[id] == reg.slots[id]
    decreases |events|
  {
    if events != [] {
      StepKeepsSettled(reg, events[0], id);
      SettledIsFinal(Step(reg, events[0]), events[1..], id);
    }
  }

  /** Slots are never forgotten and ids are never reissued. */
  lemma {:induction false} RunKeepsSlots(reg: Registry, events: seq<Event>)
    requires Valid(reg) && Fresh(reg, events)
    ensures reg.slots.Keys <= Run(reg, events).slots.Keys
    decreases |events|
  {
    if events != [] {
      RunKeepsSlots(Step(reg, events[0]), events[1..]);
    }
  }

  /** No cross-talk: a slot ends up Resolved(res) only if a reply carrying its
      own correlation id and decoding to res was delivered. */
  lemma {:induction false} ResolvedOnlyByItsReply(reg: Registry, events: seq<Event>, id: string, res: Response)
    requires Valid(reg) && Fresh(reg, events)
    requires id in reg.slots ==> reg.slots[id] != Resolved(res)
    requires id in Run(reg, events).slots && Run(reg, events).slots[id] == Resolved(res)
    ensures ReplyEvent(Some(id), Value(res)) in events
    decreases |events|
  {
    if events == [] {
    } else {
      var next := Step(reg, events[0]);
      if id in next.slots && next.slots[id] == Resolved(res) {
        assert events[0] == ReplyEvent(Some(id), Value(res));
      } else {
        ResolvedOnlyByItsReply(next, events[1..], id, res);
        assert events == [events[0]] + events[1..];
      }
    }
  }

  /** A slot ends up Cancelled only if the cancellation of that very call
      fired: through its registered callback, or through Register on a token
      that was already cancelled when the publish returned. */
  lemma {:induction false} CancelledOnlyByItsCancel(reg: Registry, events: seq<Event>, id: string)
    requires Valid(reg) && Fresh(reg, events)
    requires id in reg.slots ==> reg.slots[id] != Cancelled
    requires id in Run(reg, events).slots && Run(reg, events).slots[id] == Cancelled
    ensures CancelEvent(id) in events || PublishEvent(id, false, true) in events
    decreases |events|
  {
    if events == [] {
    } else {
      var next := Step(reg, events[0]);
      if id in next.slots && next.slots[id] == Cancelled {
        assert events[0] == CancelEvent(id) || events[0] == PublishEvent(id, false, true);
      } else {
        CancelledOnlyByItsCancel(next, events[1..], id);
        assert events == [events[0]] + events[1..];
      }
    }
  }

  /** A call whose id left the table without its slot being completed (its
      reply decoded to null or failed to decode) is never resolved by any
      later reply: only its cancellation can still complete it. */
  lemma {:induction false} OrphanedNeverResolved(reg: Registry, events: seq<Event>, id: string)
    requires Valid(reg) && Fresh(reg, events)
    requires id in reg.slots && id !in reg.pending && !reg.slots[id].Resolved?
    ensures id in Run(reg, events).slots && !Run(reg, events).slots[id].Resolved?
    decreases |events|
  {
    if events != [] {
      var next := Step(reg, events[0]);
      assert id in next.slots && id !in next.pending && !next.slots[id].Resolved?;
      OrphanedNeverResolved(next, events[1..], id);
    }
  }

  /** A call whose publish has returned and that has no live cancellation
      callback (its publish threw, or its callback already fired or was
      disposed) is never cancelled afterwards. */
  lemma {:induction false} UnarmedNeverCancelled(reg: Registry, events: seq<Event>, id: string)
    requires Valid(reg) && Fresh(reg, events)
    requires id in reg.slots && id !in reg.publishing && id !in reg.armed && !reg.slots[id].Cancelled?
    ensures id in Run(reg, events).slots && !Run(reg, events).slots[id].Cancelled?
    decreases |events|
  {
    if events != [] {
      var next := Step(reg, events[0]);
      assert id in next.slots && id !in next.publishing && id !in next.armed && !next.slots[id].Cancelled?;
      UnarmedNeverCancelled(next, events[1..], id);
    }
  }

  /** Correlation ids drawn by the calls of one interleaving are pairwise
      distinct, and distinct from every id issued before it. */
  lemma {:induction false} FreshCallsDistinct(reg: Registry, events: seq<Event>)
    requires Valid(reg) && Fresh(reg, events)
    ensures forall k :: 0 <= k < |events| && events[k].CallEvent? ==> events[k].id !in reg.slots
    ensures forall i, j :: 0 <= i < j < |events| && events[i].CallEvent? && events[j].CallEvent? ==>
      events[i].id != events[j].id
    decreases |events|
  {
    if events != [] {
      var next := Step(reg, events[0]);
      var rest := events[1..];
      FreshCallsDistinct(next, rest);
      assert reg.slots.Keys <= next.slots.Keys;
      assert events[0].CallEvent? ==> events[0].id in next.slots;
      forall k | 0 <= k < |events| && events[k].CallEvent?
        ensures events[k].id !in reg.slots
      {
        if k > 0 {
          assert events[k] == rest[k - 1];
        }
      }
      forall i, j | 0 <= i < j < |events| && events[i].CallEvent? && events[j].CallEvent?
        ensures events[i].id != events[j].id
      {
        assert events[j] == rest[j - 1];
        if i > 0 {
          assert events[i] == rest[i - 1];
        }
      }
    }
  }
}
