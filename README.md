# RPC over a shared queue: correlation and reply discipline

A Dafny model of the core of a RabbitMQ request/reply pair.

- **The client's callback table** (`RpcClient`).
  - It maps each correlation id to the one-shot result slot (`TaskCompletionSource<Response>`) of the call that issued it.
  - `CallAsync` registers a fresh id before publishing the request.
  - The reply consumer removes an id and completes its slot.
  - The cancellation callback removes an id and cancels its slot.
- **The server's per-delivery handler.** It captures the correlation id, tries to decode the request and draw a response id, then publishes exactly one reply in its `finally` block and acknowledges the delivery. The broker hands deliveries over with prefetch 1 and manual acknowledgement.
- **The client's currency prompt.** It loops until the upper-cased input is one of USD, EUR, QAR, LBP.

Files:

- `protocol.dfy` holds the shared records, the message envelope and the outcome of deserialising a body (`Value`, `Null`, or `Malformed`, which means the deserialiser throws).
- `correlation.dfy` states the client's bookkeeping as a value (`Registry`), with one function per event.
- `client.dfy` has the imperative `RpcClient`. Each method is proved to move `View()` exactly as the matching `Correlation` function does. The slots are objects (`CompletionSlot`) shared between the table and the caller.
- The lemmas in `correlation.dfy` are about arbitrary interleavings of those events (`Run`). So they hold for any interleaving of the reply callback and the cancellation callback.
- `server.dfy` models the handler as a method that returns its trace of broker actions. The prefetch-1 dispatch is a loop whose whole trace is accepted by a small automaton (`Next`/`Replay`). That automaton admits a delivery only while nothing is unacknowledged, and an ack only of the delivery in hand.
- `rpc.dfy` composes client and server the way `InvokeAsync` uses them.

Where the code and the intended protocol differ, the model follows the code:

- When the client's publish throws, the callback-table entry is not removed. It stays registered with a pending slot, and no cancellation callback is registered for it.
- `SetCanceled` is called without checking what `TryRemove` found. A cancellation callback that fires after a reply has already resolved the slot therefore throws `InvalidOperationException`. This can happen before the `using` registration is disposed. The model reports this as `thrown` (`Correlation.CancelThrows`).
- The same holds when the token is already cancelled as the publish returns: `Register` runs the callback at once. If a reply resolved the slot during the publish, `SetCanceled` throws out of `CallAsync` itself, so the caller gets `InvalidOperationException` and never sees the response that arrived (`Correlation.CancelledTokenAtRegister`).
- A reply that decodes to null removes its id without completing the slot. Only the call's own cancellation can then complete it (`OrphanedNeverResolved`).
- `DisposeAsync` closes the channel but leaves the `_channel` field set. A later `CallAsync` still registers its id and then fails in the publish.
- On the server, a publish that throws inside `finally` skips the ack. Under prefetch 1 the consumer then receives nothing more (`Consume`). So "exactly one reply and one ack per delivery" holds for every delivery whose publish returns.

## Model

| member | source | states |
|---|---|---|
| `Correlation.Call` | Client/Program.cs:65-79 | registering a fresh id with a pending slot before the publish keeps the table invariant: every registered id has a slot that nothing has completed |
| `Correlation.Published` | Client/Program.cs:78-86 | the publish returning, with or without throwing, and registering the cancellation callback (run at once on a cancelled token) keeps that invariant |
| `Correlation.PublishResult` | Client/Program.cs:78-88 | after its publish returns, the call goes on to `await` exactly when neither the publish nor a callback that `Register` ran at once threw |
| `Correlation.Reply` | Client/Program.cs:37-53 | the reply handler keeps that invariant |
| `Correlation.Cancel` | Client/Program.cs:81-86 | the cancellation callback keeps that invariant |
| `Correlation.Return` | Client/Program.cs:81-88 | resuming from `await` and disposing the registration keeps that invariant |
| `Correlation.Step` | Client/Program.cs:37-88 | every client event keeps that invariant |
| `Correlation.Run` | Client/Program.cs:37-88 | any interleaving of calls, replies, cancellations and returns keeps that invariant |
| `Correlation.UnmatchedReplyIsDiscarded` | Client/Program.cs:39-43 | a reply with no or an empty correlation id, or with an id not in the table, changes nothing and does not throw |
| `Correlation.MatchedReplyEffect` | Client/Program.cs:43-48 | a matching reply removes exactly its id; its slot becomes `Resolved(res)` exactly when the body decodes to `res`, and otherwise stays `Pending`; no other entry, slot or callback changes; the handler throws exactly when the body fails to decode |
| `Correlation.DuplicateReplyIsDiscarded` | Client/Program.cs:43 | a second reply with the same correlation id finds nothing, changes nothing and does not throw |
| `Correlation.ReplyAfterCancelIsDiscarded` | Client/Program.cs:81-86 | after cancelling a pending call, its slot is `Cancelled`, the cancellation did not throw, and a reply with that id is discarded |
| `Correlation.CancelAfterReply` | Client/Program.cs:84-85 | after a matching reply, cancellation removes nothing more; if the reply resolved the slot, it stays resolved and `SetCanceled` throws; if the reply decoded to null, cancellation completes the slot |
| `Correlation.ReplyDuringPublish` | Client/Program.cs:72-79 | a reply that arrives while the publish is in progress is not lost: once the publish returns, the call awaits and returns exactly that response |
| `Correlation.CancelledTokenAtRegister` | Client/Program.cs:81-86 | with the token already cancelled when the publish returns, the call awaits a cancelled slot; if a reply resolved the slot during the publish, `CallAsync` throws instead, never awaits, and the slot keeps the response |
| `Correlation.ReturnDeliversSlot` | Client/Program.cs:81-88 | the awaiting call resumes exactly when its slot is completed, returns the resolved response or the cancellation, and disposes its registration |
| `Correlation.StepKeepsSettled` | Client/Program.cs:43-48 | no single event changes a completed slot |
| `Correlation.SettledIsFinal` | Client/Program.cs:43-48 | a slot is written at most once: after any interleaving, a completed slot still holds what it held |
| `Correlation.RunKeepsSlots` | Client/Program.cs:72-74 | no call's slot is ever forgotten |
| `Correlation.ResolvedOnlyByItsReply` | Client/Program.cs:43-48 | a slot ends up `Resolved(res)` only if a reply carrying its own correlation id and decoding to `res` was delivered (no cross-talk) |
| `Correlation.CancelledOnlyByItsCancel` | Client/Program.cs:81-86 | a slot ends up `Cancelled` only if that call's own cancellation fired, through its registered callback or through `Register` on a token already cancelled when the publish returned |
| `Correlation.OrphanedNeverResolved` | Client/Program.cs:43-48 | once an id has left the table without its slot being resolved (null or undecodable reply), no later event resolves it |
| `Correlation.UnarmedNeverCancelled` | Client/Program.cs:78-86 | a call whose publish has returned and that has no live cancellation registration (its publish threw, or its callback fired or was disposed) is never cancelled afterwards |
| `Correlation.FreshCallsDistinct` | Client/Program.cs:65 | the correlation ids of the calls in any interleaving are pairwise distinct and were never issued before |
| `Client.CompletionSlot.constructor` | Client/Program.cs:72-73 | a new slot is pending |
| `Client.CompletionSlot.TrySetResult` | Client/Program.cs:48 | completes only a pending slot, and reports whether it did |
| `Client.CompletionSlot.SetCanceled` | Client/Program.cs:85 | cancels a pending slot; on a completed slot it throws and changes nothing |
| `Client.RpcClient.constructor` | Client/Program.cs:21-24 | a new client has no channel, no reply queue and an empty table |
| `Client.RpcClient.StartAsync` | Client/Program.cs:26-56 | sets the channel and the reply queue name and leaves the table and every slot unchanged |
| `Client.RpcClient.CallAsync` | Client/Program.cs:58-79 | without a channel: `NotStarted` and nothing changes; otherwise the new id maps to a fresh pending slot before the publish; the published message goes to `rpc_queue` on the default exchange, mandatory, with that id as `CorrelationId` and the reply queue as `ReplyTo`; the new state is `Correlation.Call` of the old |
| `Client.RpcClient.PublishReturned` | Client/Program.cs:78-86 | the new state is `Correlation.Published` of the old (a closed channel makes the publish throw), and the call goes on as `PublishResult` says |
| `Client.RpcClient.OnReply` | Client/Program.cs:37-53 | the new state is `Correlation.Reply` of the old, and the handler throws exactly as `ReplyThrows` says |
| `Client.RpcClient.Cancel` | Client/Program.cs:81-86 | the new state is `Correlation.Cancel` of the old, and `SetCanceled` throws exactly as `CancelThrows` says |
| `Client.RpcClient.Await` | Client/Program.cs:81-88 | returns `ReturnValue` of the old state, and the new state is `Correlation.Return` of the old |
| `Client.RpcClient.DisposeAsync` | Client/Program.cs:91-102 | closes the channel if one is set, keeps the field set, and leaves the table and slots unchanged |
| `Currency.ToUpper` | Client/Program.cs:126 | keeps the length and upper-cases every character; together with `AcceptedIffCaseVariant` this makes the prompt case-insensitive |
| `Currency.ValidCodesAreUpperCase` | Client/Program.cs:116-122 | the table holds exactly USD, EUR, QAR and LBP, all upper case |
| `Currency.AcceptedIffCaseVariant` | Client/Program.cs:126-128 | a line is accepted if and only if it equals one of the four codes ignoring case |
| `Currency.ReadCurrency` | Client/Program.cs:124-137 | returns the upper-cased form of the first accepted line; every earlier line was rejected; with no accepted line, all input is consumed and the prompt fails (end of input) |
| `Currency.AcceptedCurrencyIsUpperCase` | Client/Program.cs:126-131 | the stored currency is already in upper case |
| `Server.HandleDelivery` | Server/Program.cs:19-55 | exactly one reply is published first; it goes on the default exchange, mandatory, to the request's `ReplyTo`, with the request's `CorrelationId`; it carries a response with id in [1, 999999] exactly when the body decoded to a request, and null otherwise; the reply is followed by exactly one ack of this delivery's tag with `multiple: false` unless the publish threw |
| `Server.ReplayAppend` | Server/Program.cs:16 | proof helper for `Server.Consume`: replaying a trace in two parts equals replaying it whole |
| `Server.AcceptedPrefixes` | Server/Program.cs:16 | every prefix of an accepted trace is accepted: at no moment is more than one delivery unacknowledged |
| `Server.FlattenAppend` | Server/Program.cs:57 | proof helper for `Server.Consume`: appending one delivery's actions appends them to the channel trace |
| `Server.HandledBlockReplay` | Server/Program.cs:47-54 | one handled delivery takes an idle consumer back to idle when acknowledged, and leaves it holding that delivery when the publish threw |
| `Server.Consume` | Server/Program.cs:16-57 | deliveries are handled in order, one at a time, each as `HandledOnce`; the next is delivered only after the previous is acknowledged, so dispatch stops only at a delivery whose publish threw; the whole trace is accepted by the prefetch-1 automaton |
| `Rpc.InvokeAsync` | Client/Program.cs:156-164 | one call from a freshly started client, answered by the server, returns exactly the response the server published to the client's reply queue under the call's id, and that id is in [1, 999999] |
| `Rpc.ReplyDuringPublishThenCancelledToken` | Client/Program.cs:72-86 | a reply that resolves the slot during the publish, followed by a token cancelled before `Register`, makes `CallAsync` throw from the callback while the slot holds the server's response |
| `Rpc.CancelThenLateReply` | Client/Program.cs:81-86 | a call cancelled before its reply completes with the cancellation; the late reply is discarded without throwing |

## Left out

- Connection and channel creation, queue declaration, `BasicConsumeAsync` and `BasicQosAsync` wiring are left out. They are broker I/O; only their effects appear, as the `hasChannel` and `replyQueueName` fields and the dispatch loop `Server.Consume`.
- Console prompts and printing are left out. So are `Convert.ToInt32` parsing and logging in `Main`, `InvokeAsync` and the server handler.
- The JSON codec and UTF-8 encoding are not modelled. A deserialised body is a parameter of type `Decoded`. `Protocol.Transmit` assumes the serialise/deserialise round trip is exact.
- The broker's routing from the client's publish to the server's consumer is not modelled. `Rpc.Route` stands for it: the delivery carries the client's `CorrelationId`, `ReplyTo` and request unchanged, under a delivery tag given as a parameter.
- `Guid.NewGuid` is a parameter, assumed never to repeat an id (`requires id !in issued`, `Correlation.Enabled`). So the ignored failure of `TryAdd` on a duplicate id never arises in the model.
- `Random.Next(1, 1000000)` is a nondeterministic choice within its bounds.
- Threads, `TaskCompletionSource` continuations and the cancellation token are modelled as interleavings of atomic methods.
  - `CallAsync` has two steps: up to the publish (`CallAsync`), and from the publish returning to registering the cancellation callback (`PublishReturned`).
  - Replies and cancellations may interleave between the two.
  - A cancellation before `Register` is the `tokenCancelled` flag of `PublishReturned`.
- Failures of `BasicAckAsync` are not modelled, since the ack is the last action of the handler.
- Server: a request without `ReplyTo` is published with routing key `None`. Whatever the client library then does is folded into `publishThrows`.
- Currency.ToUpper: upper-cases ASCII letters only (`Currency.UpperChar`). `String.ToUpper`'s culture-dependent mapping of other characters is not modelled. For example, U+017F becomes 'S', so .NET also accepts some non-ASCII spellings of the codes.
- `DisposeAsync` closing the connection is not modelled. Calls in flight are simply abandoned, as in the code.
