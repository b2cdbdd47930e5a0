# Soft PLC: a verified model

The soft PLC runs its scan engine in one process and each fieldbus stack in another. The two
meet at a pair of single-producer single-consumer rings and a pair of doorbell semaphores.
This project models the parts of it whose correctness cannot be read off one function and
proves them for all inputs, all runs and all interleavings. `dafny verify dfyconfig.toml`
checks every file.

**The exchange protocol.** `SpscRing` is the ring as the C code has it, cursors modulo 2^32 and
an array of slots. `RingSteps` takes the same ring one shared load or store at a time, with both
sides running at once and either stopping for good anywhere, and refines it to a bounded FIFO.
`Exchange` puts the core's proxy, the adapter's service loop, both rings and both doorbells into
one transition system in which the adapter may crash and restart between any two steps and every
wait may time out; unbounded request numbers stand behind the 32-bit sequence number, and no step
decides anything on them. `ExchangeTheorems` holds what is true of every run, and `Recovery` when
a restarted adapter is heard again. `AdapterService` is the service loop on the real rings and shows
that one turn of it is a run of those steps. `ReplyWait` is the proxy's nested wait and pop loop
against a peer that may show it anything, with every verdict read off what the rounds showed.
`ProxyCall` puts a call of the proxy into a run of the exchange: its outcome, status and image are
those the run gives it, up to the end-to-end promise that a successful call over the mirror returns
its own outputs. `AdapterCall` runs proxy, rings and service loop together for one call.

**Failsafe.** `Failsafe` gives the input image, the reported state and the counters as functions
of the whole history of outcomes. `Adapters` holds the three implementations as classes whose
invariant is that they agree with those functions.

**The scanner.** `ScannerDevice` is one device's 16-bit filter and connection generations,
`ScannerTable` the table parser and its packing, `ScannerExchange` the aggregate image up to the
reply, and `ScannerCall` the whole exchange, up to the image the scan reads.

**Scan engine and program.** `FunctionBlocks` gives each IEC 61131-3 block in closed form over its
whole input trace (section 2.5.2.3 of IEC 61131-3:2003), `ScanEngine` the elapsed time handed to
programs and the pacing, `Conveyor` the interlock built from them.

**Algorithms.** `Checksums` is the checksum repair (section 1 of RFC 1071), `Settings` the settings
file and `SettingsText` what every kind of line in it does, `Probe` the streaming statistics.

Where a promise turned out to be conditional, the exact condition is proved and a concrete
counterexample given:

- A reply accepted by a call is that call's own if and only if fewer than 2^32 calls were begun
  since its request (`AcceptedReplyIsOwn`). In what a caller can see, a bound on the calls missed in
  a row rules out foreign replies in every run if and only if it is below 2^32
  (`MissesBoundIsExact`). An adapter that is dead for exactly 2^32 calls and then restarts answers a
  request whose sequence number has come round again, and the core accepts it
  (`ForeignReplyAccepted`).
- The protocol-error branch on a sequence mismatch is dead after at most 2^31 calls missed in a row
  (`FewMissesNeverMismatch`, `NoProtocolError`), and reachable after one more (`MismatchReachable`).
- A stack process that dies and is restarted is said to bring the adapter back ONLINE
  (docs/adr/0010-single-container-role-switch.md:79-83). Between calls, whatever happened before,
  some later call can be answered by its own reply if and only if no more requests are queued than
  pending posts and a woken adapter account for, and then already the next call can be
  (`RecoversExactly`). The excess never falls (`DebtNeverFalls`). A process that dies between taking
  the post and popping the request makes it one, already in the first call (`DebtIsReachable`), and
  from then on every call is missed unless 2^32 are missed in a row (`IndebtedAllMiss`).
- The scanner's filter has the newest frame in the image after every arrival if and only if each
  arrival, set against the newest before it, is 1 to 32767 ahead modulo 65536 exactly when it is
  newer (`KeptIsNewestExactly`); being within -32768..+32767 of the last frame kept is enough
  (`KeptIsNewest`). Some frames can be delivered in any order and however often, with the newest
  kept, if and only if of any two the newer is 1 to 32767 ahead modulo 65536
  (`EveryOrderKeepsNewest`). From every sequence number on there are deliveries of two frames that
  keep the older one (`FilterMisjudges`).
- A table of settings printed as `KEY = "value"` lines is read back unchanged if and only if no
  value holds a comment character behind a space or tab at a place where the quotes in the value
  have closed the printed ones (`PrintedReadsBack`). Values without a double quote always qualify;
  `a" #b`, which a line in single quotes stores, does not (`QuoteLosesTail`).

Assumptions: shared loads and stores are sequentially consistent, with the slot written before
the head is stored. In `Exchange` ring operations are atomic, each at its last store; the core's
drain leaves any number of replies that came in after it had read the head. The service loops also
call the drain from the producer side when the response ring is full; the ring's own discipline
(include/softplc/ipc/spsc_ring.h:110-112) excludes that call, so `RingSteps` does not cover it and it
is taken as one atomic emptying. The core process does not restart. The clock is positive and never
goes back. A closed CIP connection delivers nothing. `PT` is constant and not negative, and
`ET + dt` does not overflow. Event counters are unbounded except where a width matters (cursors,
sequence numbers, checksums, `CV`). `unsigned long` has 64 bits.

## Model

| member | source | states |
|---|---|---|
| SpscRing.Ring.constructor | src/ipc/spsc_ring.c:6-11 | A new ring is empty. |
| SpscRing.Ring.Push | src/ipc/spsc_ring.c:18-39 | Appends exactly the given frame, or refuses an oversized one, or reports a full ring at four frames and changes nothing; for all cursor values. |
| SpscRing.Ring.Pop | src/ipc/spsc_ring.c:41-68 | Hands out the oldest frame cut to the caller's room and removes it; a malformed one is removed and reported; an empty ring is left alone. |
| SpscRing.Ring.Count | src/ipc/spsc_ring.c:70-75 | The number of queued frames, across the wrap of the cursors. |
| SpscRing.Ring.Drain | src/ipc/spsc_ring.c:77-81 | Leaves the ring empty. |
| SpscRing.IndexAcrossWrap | src/ipc/spsc_ring.c:26-29 | A cursor that wraps modulo 2^32 keeps naming the same slot. |
| SpscRing.WriteKeepsWindow | src/ipc/spsc_ring.c:26-33 | Filling the slot behind fewer than four frames leaves every queued frame as it was. |
| SpscRing.PublishGrowsWindow | src/ipc/spsc_ring.c:35-37 | Storing the head makes exactly the filled slot the newest frame. |
| SpscRing.RetireShrinksWindow | src/ipc/spsc_ring.c:66-81 | Advancing the tail by k removes exactly the k oldest frames. |
| RingSteps.StepRefines | src/ipc/spsc_ring.c:18-81 | Every single load or store, with both sides in flight, is a step of a FIFO of four: head store appends one whole frame, tail store removes, all else is invisible. |
| RingSteps.StoreRefines | src/ipc/spsc_ring.c:29-33 | No store of a frame in progress is visible in the queue, so a producer may stop anywhere. |
| RingSteps.LoadRefines | src/ipc/spsc_ring.c:48-64 | What the consumer has copied so far is always a part of the oldest queued frame, however the producer moves. |
| RingSteps.QueueIsFifo | src/ipc/spsc_ring.c:18-81 | In every run the visible queue is the published frames minus the removed ones, in order, at most four. |
| RingSteps.PopReturnsNextPushed | src/ipc/spsc_ring.c:41-68 | In every run a pop returns exactly the next published frame, never torn, lost or repeated. |
| Exchange.OrderedStep | src/adapters/eip/eip_adapter_proxy.c:248-303 | Every step of either process keeps the pending requests in the order they were asked, all younger than the last accepted reply. |
| Exchange.TaggedStep | src/adapters/eip/eip_adapter_main.c:253-296 | Every step keeps each request's payload that of its call and each queued reply the one its request was served with. |
| Exchange.NotStrandedStep | src/adapters/eip/eip_adapter_proxy.c:280-302 | Every step keeps a doorbell post, or a producer about to post or dead before posting, behind a reply the core waits for. |
| Exchange.CountedStep | src/adapters/eip/eip_adapter_proxy.c:256-303 | Every step keeps the count of failed calls equal to the calls begun since the last match, while no foreign reply was accepted. |
| Exchange.InvStep | src/adapters/eip/eip_adapter_proxy.c:248-303 | Every step of core, adapter, crash and restart keeps all four invariants. |
| Exchange.InvOnRun | src/adapters/eip/eip_adapter_main.c:228-296 | They hold in every state of every run. |
| ExchangeTheorems.FrameFate | src/adapters/eip/eip_adapter_proxy.c:293-299 | What the 32-bit comparison does with a popped frame, by the number of calls begun since its request: match, late or mismatch, exactly. |
| ExchangeTheorems.AcceptedReplyIsOwn | src/adapters/eip/eip_adapter_proxy.c:286-303 | An accepted reply was produced for this very call if and only if its request is younger than 2^32 calls; both rings are then empty and the adapter holds nothing. |
| ExchangeTheorems.NoForeignReply | src/adapters/eip/eip_adapter_proxy.c:286-303 | Over a whole run no foreign reply is accepted if and only if every accepted one is younger than 2^32 calls. |
| ExchangeTheorems.ForeignStep | src/adapters/eip/eip_adapter_proxy.c:286-303 | A step accepts a foreign reply exactly when it matches a frame that is not the call's own. |
| ExchangeTheorems.AgeWithinMisses | src/adapters/eip/eip_adapter_proxy.c:248-303 | A reply at hand is no older than the calls failed since the last match. |
| ExchangeTheorems.OwnAfterFewMisses | src/adapters/eip/eip_adapter_proxy.c:286-303 | After fewer than 2^32 failed calls in a row, an accepted reply is the call's own. |
| ExchangeTheorems.FewMissesNoForeign | src/adapters/eip/eip_adapter_proxy.c:286-303 | Over a whole run with fewer than 2^32 failed calls before each answer, every accepted reply is the call's own. |
| ExchangeTheorems.MissesBoundIsExact | src/adapters/eip/eip_adapter_proxy.c:286-303 | A bound on the failed calls before each answer rules out foreign replies in every run if and only if it is below 2^32. |
| ExchangeTheorems.YoungFrameNeverMismatches | src/adapters/eip/eip_adapter_proxy.c:293-302 | Up to 2^31 calls old, an older frame is dropped as late, the own one is accepted, and the mismatch branch is unreachable. |
| ExchangeTheorems.FewMissesNeverMismatch | src/adapters/eip/eip_adapter_proxy.c:293-302 | The same in what a caller can see: after at most 2^31 failed calls in a row. |
| ExchangeTheorems.MismatchReachable | src/adapters/eip/eip_adapter_proxy.c:293-302 | After 2^31 + 1 failed calls in a row a popped reply can be neither late nor a match. |
| ExchangeTheorems.ServedOnceInOrder | src/adapters/eip/eip_adapter_main.c:253-265 | Requests are served at most once and in the order asked, across crashes and restarts. |
| ExchangeTheorems.BacklogNeedsMisses | src/adapters/eip/eip_adapter_proxy.c:256-262 | Outstanding requests never exceed the misses since the last match by more than one; a full request ring or a full response ring takes at least four misses. |
| ExchangeTheorems.LostMeansDiedBeforePost | src/adapters/eip/eip_adapter_main.c:287-295 | A reply is recorded as lost exactly when its producer died between push and post. |
| ExchangeTheorems.NoStrandedReply | src/adapters/eip/eip_adapter_proxy.c:280-302 | When the core waits with its own reply queued, a post is pending, or the adapter is between push and post, or it died there. |
| ExchangeTheorems.LoopStep | src/adapters/eip/eip_adapter_proxy.c:269-303 | Each step of the core in the loop decreases a measure on requests, replies and posts that no adapter step, crash or restart increases. |
| ExchangeTheorems.LoopIsBounded | src/adapters/eip/eip_adapter_proxy.c:269-303 | Within one call the nested wait and pop loop makes at most 22 steps, without appeal to the clock. |
| ExchangeTheorems.MirrorServes | src/adapters/eip/eip_backend_loopback.c:45-65 | Over the mirror, in every state of every run, the reply kept for a request is the mirror image of that call's outputs. |
| ExchangeTheorems.MirrorEcho | src/adapters/eip/eip_backend_loopback.c:45-65 | Over the mirror, in every interleaving, an accepted reply younger than 2^32 calls is the mirror image of the accepting call's own outputs. |
| ExchangeTheorems.MirrorEchoSeen | src/adapters/eip/eip_backend_loopback.c:45-65 | The same in every run with fewer than 2^32 failed calls before each answer. |
| ExchangeTheorems.StalledReachable | src/adapters/eip/eip_adapter_proxy.c:256-274 | With no adapter alive, any number of calls can fail in a row while the first four requests stay queued. |
| ExchangeTheorems.RevivedAnswers | src/adapters/eip/eip_adapter_main.c:253-295 | After any number of calls from four on, a restarted adapter can answer the very first request to the current call. |
| ExchangeTheorems.ForeignReplyAccepted | src/adapters/eip/eip_adapter_proxy.c:293-302 | There is a run in which call 2^32 + 1, after exactly 2^32 failed ones, accepts the reply to call 1. |
| ExchangeTheorems.ForeignRun | src/adapters/eip/eip_adapter_proxy.c:293-302 | That run, in which no answer comes after more than 2^32 failed calls. |
| Recovery.DebtStep | src/adapters/eip/eip_adapter_main.c:232-253 | Requests queued beyond those announced: no step lowers their number, and it grows exactly when a woken adapter dies or finds an empty ring. |
| Recovery.DebtNeverFalls | src/adapters/eip/eip_adapter_main.c:228-296 | Along every run it never falls, through crashes and restarts. |
| Recovery.IndebtedNeverAnswered | src/adapters/eip/eip_adapter_proxy.c:286-303 | Once it is positive, a reply that is accepted is never the call's own: its request is 2^32 calls old or older. |
| Recovery.IndebtedAllMiss | src/adapters/eip/eip_adapter_proxy.c:286-303 | So every later call fails, in every run with fewer than 2^32 failed calls before each answer. |
| Recovery.ComesToWait | src/adapters/eip/eip_adapter_main.c:228-296 | Between calls, from wherever it stands, the adapter can come back to its wait. |
| Recovery.Settles | src/adapters/eip/eip_adapter_main.c:228-296 | Without excess it can work off every queued request. |
| Recovery.Asks | src/adapters/eip/eip_adapter_proxy.c:248-263 | From there a call gets its request queued and announced, whatever stale replies and posts it finds. |
| Recovery.IsAnswered | src/adapters/eip/eip_adapter_proxy.c:269-303 | And the answer to it can be popped and accepted. |
| Recovery.RecoversExactly | docs/adr/0010-single-container-role-switch.md:79-83 | Between calls, in every run: some continuation ends with a call accepting its own reply if and only if there is no excess, and then one without a crash ends so with the very next call. |
| Recovery.DebtIsReachable | src/adapters/eip/eip_adapter_main.c:232-253 | One call, one wake-up and one crash reach a state with an excess of one. |
| MirrorBackend.Mirror.constructor | src/adapters/eip/eip_backend_loopback.c:32-41 | Nothing is published at first. |
| MirrorBackend.MirrorReply | src/adapters/eip/eip_backend_loopback.c:54-65 | The reply to published bytes: its length, and every byte of it. |
| MirrorBackend.Mirror.Publish | src/adapters/eip/eip_backend_loopback.c:45-52 | Keeps exactly the outputs, at most a frame of them. |
| MirrorBackend.Mirror.Fetch | src/adapters/eip/eip_backend_loopback.c:54-65 | Returns the published outputs at the configured length, byte by byte, zero-extended, and leaves the rest of the buffer alone. |
| AdapterService.Service.constructor | src/adapters/eip/eip_adapter_main.c:221-226 | The service attaches to the rings as it finds them. |
| AdapterService.Service.ServeOnce | src/adapters/eip/eip_adapter_main.c:228-308 | One turn on the real rings: one post and the oldest request are taken; a proper one is answered behind the queued replies with its own sequence number and bytes, flag word 1 without a connection or with an idle peer and 0 otherwise, and one post; a full ring of four is emptied with no post; a malformed one only sets the error. It stops exactly on a broken doorbell or when the core has been silent for the timeout. |
| AdapterService.Service.AnswerFrame | src/adapters/eip/eip_adapter_main.c:264-306 | A popped request is answered with its own sequence number, its bytes at the configured length and flag word 1 without a connection or with an idle peer, 0 otherwise; or a full ring is emptied; the status block records the cycle. |
| AdapterService.Service.Mirrored | src/adapters/eip/eip_adapter_main.c:264-265 | Publishing and fetching yields the mirror image of the request. |
| AdapterService.Service.Reply | src/adapters/eip/eip_adapter_main.c:285-296 | The reply is queued and its post made, or a full ring is emptied and no post made. |
| AdapterService.TurnRefines | src/adapters/eip/eip_adapter_main.c:228-296 | An uninterrupted turn is a run of enabled steps of the exchange, from the top of the loop to its top, with the same effect on rings and posts. |
| AdapterService.AnswerReflects | src/adapters/eip/eip_adapter_main.c:264-286 | The specified answer is the request's sequence number, its bytes one by one at the configured length, and flag word 1 or 0. |
| AdapterCall.ReadsWire | src/adapters/eip/eip_adapter_proxy.c:304-308 | What the proxy reads off the slot of a frame of the exchange is that frame. |
| AdapterCall.OnlyFrameAnswers | src/adapters/eip/eip_adapter_proxy.c:269-303 | A frame with the awaited number, popped alone and in time, answers the call. |
| AdapterCall.CallService | src/adapters/eip/eip_adapter_proxy.c:239-331 | Proxy, rings and service loop together: a call answered in time returns PLC_ERR_AGAIN without a connection or with an idle peer, and otherwise PLC_OK with its own outputs in the image. |
| AdapterCall.Take | src/adapters/eip/eip_adapter_proxy.c:304-331 | The proxy's half of it. |
| AdapterCall.Ask | src/adapters/eip/eip_adapter_main.c:253-296 | The rings' half of it: what comes off the response ring, byte by byte. |
| ReplyWait.InRoundIsFirstNotLate | src/adapters/eip/eip_adapter_proxy.c:286-302 | A round is decided by the first frame that is not late, and by nothing after it. |
| ReplyWait.AwaitIsFirstDecision | src/adapters/eip/eip_adapter_proxy.c:269-303 | The wait is decided by the first round that decides anything. |
| ReplyWait.ReplyAccepted | src/adapters/eip/eip_adapter_proxy.c:265-303 | For arbitrary ring contents, which frame of which round ends the wait and with which verdict. |
| ReplyWait.LateExactly | src/adapters/eip/eip_adapter_proxy.c:293-295 | A frame is late exactly if its number is 1 to 2^31 behind the awaited one modulo 2^32. |
| ReplyWait.AwaitExactly | src/adapters/eip/eip_adapter_proxy.c:265-303 | The wait runs out, fails, is misled or is answered exactly if, after rounds that woke in time with late frames only, the budget is found spent or the wait times out; the wait errs; a malformed or foreign frame comes first; or the awaited one does. |
| ReplyWait.AwaitReply | src/adapters/eip/eip_adapter_proxy.c:265-303 | The nested loop returns that verdict; it waits once in every round begun in time until a round decides, and every wait ends exactly at t0 + budget. |
| ProxyCall.StillUndecided | src/adapters/eip/eip_adapter_proxy.c:269-303 | In every run, until a call ends, every wait has woken it and every frame it popped was late; its counters do not move. |
| ProxyCall.VerdictOf | src/adapters/eip/eip_adapter_proxy.c:269-303 | On what the run shows it, the proxy's loop returns the frame that the run's last step accepts, and no reply otherwise. |
| ProxyCall.CallInRun | src/adapters/eip/eip_adapter_proxy.c:248-303 | What one whole call does to the counters of the run. |
| ProxyCall.CallEnds | src/adapters/eip/eip_adapter_proxy.c:248-331 | The outcome of a proxy call is that of the call in the run: fresh or invalid exactly when the run accepts a reply, a protocol error exactly when a frame ends it without a match, an I/O error exactly when the wait itself fails, a timeout otherwise. |
| ProxyCall.EndsReturns | src/adapters/eip/eip_adapter_proxy.c:216-331 | So each status a call can return, by the step of the run that ends it. |
| ProxyCall.AdapterKeepsTrack | src/adapters/eip/eip_adapter_main.c:228-296 | Nothing the adapter does between calls disturbs the correspondence between proxy and run. |
| ProxyCall.CallTracks | src/adapters/eip/eip_adapter_proxy.c:248-331 | With fewer than 2^32 calls missed in a row, an answered call was answered with its own reply and the proxy's history goes on matching the run. |
| ProxyCall.NoProtocolError | src/adapters/eip/eip_adapter_proxy.c:289-299 | After at most 2^31 calls missed in a row no call ends with PLC_ERR_PROTO. |
| ProxyCall.CallEchoes | src/adapters/eip/eip_backend_loopback.c:45-65 | Over the mirror, the payload of a successful call shows that call's outputs. |
| ProxyCall.CallReturns | src/adapters/eip/eip_adapter_proxy.c:239-331 | The status and image of a tracked call, as the run fixes them. |
| ProxyCall.EchoCall | src/adapters/eip/eip_adapter_proxy.c:239-331 | End to end: over the mirror, through crashes, restarts and timeouts, every call that returns PLC_OK returns its own outputs in the image, cut or zero-extended, after fewer than 2^32 misses in a row; after at most 2^31 it never returns PLC_ERR_PROTO; and each status is returned exactly for the step of the run that ended the call so. |
| Failsafe.AnchorWithin | src/core/protocol_adapter.c:24-38 | Staleness is measured from the opening or from an answer, never from later than the last event. |
| Failsafe.AnchorIsLatest | src/core/protocol_adapter.c:24-38 | No answer is later than the instant staleness is measured from. |
| Failsafe.HeldByte | src/adapters/eip/eip_adapter_proxy.c:309-317 | Each held byte is that of the last fresh payload long enough to cover it, or zero; invalid and missed exchanges never touch it. |
| Failsafe.HeldImage | src/adapters/eip/eip_adapter_proxy.c:216-237 | For calls of any fixed length, before and after the first fresh reply: a miss inside the window returns the last fresh payload, or zeros, whatever the policy; past it, and at once on invalid data, the policy applies. |
| Failsafe.FaultedExactly | src/adapters/eip/eip_adapter_proxy.c:216-237 | FAULTED holds exactly after a miss that comes a whole window after the opening and after every answer so far. |
| Failsafe.StateExactly | src/adapters/eip/eip_adapter_proxy.c:216-331 | Every reported state, exactly: by the last event, and after a miss by the instants of the opening and of the answers before it. |
| Failsafe.ImageByte | src/adapters/eip/eip_adapter_proxy.c:216-331 | Every byte of the image of every call, with calls of any lengths: the reply's own, or zero under CLEAR past the window or on invalid data, or the byte of the last fresh payload that reached it. |
| Failsafe.ActivationsAreOnsets | src/adapters/eip/eip_adapter_proxy.c:222-230 | Failsafe activations are the events that are such a fault while the one before was not. |
| Failsafe.CountersExactly | src/adapters/eip/eip_adapter_proxy.c:216-331 | Every counter is the number of events of its kind, and the reported staleness is the time since the last answer or the opening. |
| Failsafe.OverdueLasts | src/adapters/eip/eip_adapter_proxy.c:222-235 | A fault lasts through every further miss; only an answer ends it. |
| Failsafe.ActivationsBounded | src/adapters/eip/eip_adapter_proxy.c:222-230 | Failsafe activations are at most the answered exchanges, plus one while faulted. |
| Failsafe.CountersAddUp | src/adapters/eip/eip_adapter_proxy.c:216-331 | Exchanges, timeouts and invalid replies add up to the accepted calls; protocol errors are at most the timeouts. |
| Adapters.ApplyFailsafe | src/core/protocol_adapter.c:51-59 | The image in place is all zeros or the held bytes, as the policy says. |
| Adapters.TakePayload | src/adapters/eip/eip_adapter_proxy.c:309-317 | The image and the held bytes become the payload, cut or zero-extended; held bytes past the image stay. |
| Adapters.AgeIsSinceAnchor | src/core/protocol_adapter.c:30-38 | The computed age is the time since the peer last answered, or since the opening. |
| Adapters.StateAfterMiss | src/adapters/eip/eip_adapter_proxy.c:222-235 | The state a miss leads to, decided from the current state and the age alone, is the one the whole history prescribes. |
| Adapters.MissAgrees | src/adapters/eip/eip_adapter_proxy.c:216-237 | The update made on a miss keeps state, counters and image in agreement with the history. |
| Adapters.FreshAgrees | src/adapters/eip/eip_adapter_proxy.c:309-330 | The same for a fresh reply. |
| Adapters.InvalidAgrees | src/adapters/eip/eip_adapter_proxy.c:76-93 | The same for a reply flagged invalid, which refreshes liveness and leaves the held image. |
| Adapters.StatusByRounds | src/adapters/eip/eip_adapter_proxy.c:256-331 | Which status a call returns, read off what the push, the clock, the doorbell and the rings showed it. |
| Adapters.AnsweredCall | src/adapters/eip/eip_adapter_proxy.c:304-331 | A frame that answers the call decides status and image: flagged invalid, PLC_ERR_AGAIN; else PLC_OK and its data, cut or zero-extended. |
| Adapters.MovesByStatus | src/adapters/eip/eip_adapter_proxy.c:216-331 | Counters and state after a call, by the status it returned. |
| Adapters.Moves | src/adapters/eip/eip_adapter_proxy.c:216-331 | What one more outcome does to every counter, the staleness and the state, told from the events alone. |
| Adapters.EipProxy.constructor | src/adapters/eip/eip_adapter_proxy.c:180-188 | A freshly opened proxy agrees with the empty history. |
| Adapters.EipProxy.Close | src/adapters/eip/eip_adapter_proxy.c:197-203 | Leaves the proxy CLOSED and all else as it was. |
| Adapters.EipProxy.Fail | src/adapters/eip/eip_adapter_proxy.c:216-237 | Records one miss; the image is the one its history fixes. |
| Adapters.EipProxy.Unusable | src/adapters/eip/eip_adapter_proxy.c:76-93 | Records one invalid reply; the image is the one its history fixes. |
| Adapters.EipProxy.Succeed | src/adapters/eip/eip_adapter_proxy.c:309-330 | Records one fresh reply; the image is its payload. |
| Adapters.EipProxy.Conclude | src/adapters/eip/eip_adapter_proxy.c:248-331 | An accepted call records the outcome its rounds stand for and returns its status and image. |
| Adapters.EipProxy.Exchange | src/adapters/eip/eip_adapter_proxy.c:239-331 | For arbitrary clock, doorbell and ring contents: a rejected call changes nothing; any other returns each status exactly for what the rounds showed, the image its history fixes, counts and times itself accordingly, is FAULTED exactly a whole window after the opening and every answer, and the sequence counter is one more than the accepted calls modulo 2^32. |
| Adapters.ScannerProxy.constructor | src/adapters/eip_scanner/eip_scanner_proxy.c:152-157 | A freshly opened proxy agrees with the empty history. |
| Adapters.ScannerProxy.Close | src/adapters/eip_scanner/eip_scanner_proxy.c:177-183 | Leaves the proxy CLOSED and all else as it was. |
| Adapters.ScannerProxy.Fail | src/adapters/eip_scanner/eip_scanner_proxy.c:197-221 | Records one miss; the image is the one its history fixes. |
| Adapters.ScannerProxy.Succeed | src/adapters/eip_scanner/eip_scanner_proxy.c:275-318 | Records one fresh reply; DEGRADED when no device is online. |
| Adapters.ScannerProxy.Conclude | src/adapters/eip_scanner/eip_scanner_proxy.c:229-319 | An accepted call records the outcome its rounds stand for and returns its status and image. |
| Adapters.ScannerProxy.Exchange | src/adapters/eip_scanner/eip_scanner_proxy.c:223-319 | The same promises as the adapter proxy's, without the invalid flag; ONLINE or DEGRADED after an answer as devices are online. |
| Adapters.Loopback.constructor | src/adapters/loopback/loopback_adapter.c:53-85 | A freshly opened loopback agrees with the empty history. |
| Adapters.Loopback.Close | src/adapters/loopback/loopback_adapter.c:87-91 | Leaves the adapter CLOSED and all else as it was. |
| Adapters.Loopback.Fail | src/adapters/loopback/loopback_adapter.c:102-123 | An injected timeout is one miss of the same specification. |
| Adapters.Loopback.Succeed | src/adapters/loopback/loopback_adapter.c:126-135 | A success is one fresh reply, the mirrored outputs. |
| Adapters.Loopback.Exchange | src/adapters/loopback/loopback_adapter.c:93-136 | The third implementation refines the same specification, error paths, mirror contents and injected timeouts included. |
| FunctionBlocks.RTrig.Run | src/core/std_fb.c:6-10 | Q holds exactly in scans whose input rose, over every input trace. |
| FunctionBlocks.Rs.Run | src/core/std_fb.c:20-23 | Q1 holds exactly when some scan set it and no scan from then on reset it. |
| FunctionBlocks.LatchedNext | src/core/std_fb.c:20-23 | The reset-dominant update is that closed form, one scan further. |
| FunctionBlocks.ElapsedAdds | src/core/std_fb.c:37-42 | Time adds up over stretches of scans, and a step of the clock backwards counts as none. |
| FunctionBlocks.RunStart | src/core/std_fb.c:44-49 | The unbroken stretch of true inputs that ends in the last scan, as long as possible. |
| FunctionBlocks.Ton.Run | src/core/std_fb.c:37-49 | ET is the time summed over the current unbroken run of IN, capped at PT; Q holds exactly if IN was true in every scan of some stretch up to now that covers PT. |
| FunctionBlocks.TonExactly | src/core/std_fb.c:37-49 | The on-delay's output, by any stretch of true inputs that covers PT. |
| FunctionBlocks.LastOn | src/core/std_fb.c:51-76 | The last scan with IN true, if there was one. |
| FunctionBlocks.Tof.Run | src/core/std_fb.c:51-76 | Q holds exactly when IN is true, or was in some scan since which less than PT has passed; ET is the time since the last such scan, capped. |
| FunctionBlocks.TofExactly | src/core/std_fb.c:51-76 | The off-delay's output, by any scan with the input true less than PT ago. |
| FunctionBlocks.Tp.Run | src/core/std_fb.c:78-90 | Q holds exactly while the latest pulse lasts; ET is the time since its start, then PT until the input is released, then zero. |
| FunctionBlocks.PulseNext | src/core/std_fb.c:78-90 | Pulses start only at rising edges seen with Q off and nothing retriggers one under way. |
| FunctionBlocks.PulseLasts | src/core/std_fb.c:78-90 | A pulse lasts until the first later scan whose time since the start reaches PT. |
| FunctionBlocks.RestNext | src/core/std_fb.c:81-87 | Between pulses ET stays at PT until a scan with the input off, and is zero from then on. |
| FunctionBlocks.Ctu.Run | src/core/std_fb.c:94-103 | CV is the number of scans in which the input rose and from which on none reset, capped at 32767, and Q whether it has reached PV. |
| FunctionBlocks.EdgesExactly | src/core/std_fb.c:94-103 | The count is the number of scans that rose and were not reset from then on. |
| ScanEngine.Runtime.constructor | src/core/plc_runtime.c:165-172 | No scan completed yet. |
| ScanEngine.Runtime.ScanOnce | src/core/plc_runtime.c:165-225 | The elapsed time handed to programs is the gap to the completed scan before, whatever scans were aborted between; an abort leaves the time base alone. |
| ScanEngine.ElapsedTelescopes | src/core/plc_runtime.c:185-193 | Elapsed times summed over any stretch of completed scans are the real time across it. |
| ScanEngine.TonMeasuresRealTime | src/core/plc_runtime.c:185-193 | An on-delay whose input rose in scan a has timed from the start of scan a - 1 to the start of the last scan, whatever was lost between. |
| ScanEngine.Pace | src/core/plc_runtime.c:230-266 | Every deadline slept for is the latest of the first one moved on by whole periods and the end of each scan so far moved on by the periods since; none is already past. |
| ScanEngine.DeadlinesApart | src/core/plc_runtime.c:250-260 | Deadlines are at least a period apart per cycle. |
| ScanEngine.DeadlineIsLatest | src/core/plc_runtime.c:250-260 | The specified deadline is that latest instant, and one of these instants. |
| ScanEngine.RebasedToEnd | src/core/plc_runtime.c:253-260 | A re-based deadline is the end of the scan before it, any other a period after the one before. |
| ScanEngine.NoBurst | src/core/plc_runtime.c:241-266 | For any scan durations and wake-up delays, scan j starts no earlier than (j - i - 1) periods after scan i. |
| ScanEngine.OnGridUntilRebase | src/core/plc_runtime.c:250-260 | The n-th deadline is exactly n periods after the first if and only if none was re-based. |
| Conveyor.EdgeIsCompletion | examples/demo_program.c:35-47 | The start edge fires exactly in the first scan at which the unbroken hold of START has accumulated 500 ms. |
| Conveyor.MotorIsLatch | examples/demo_program.c:46-51 | The latch is on exactly when a hold was completed in some scan and STOP has not been pressed from that scan on. |
| Conveyor.RestartNeedsRelease | examples/demo_program.c:39-51 | Between two scans that set the latch, START was released. |
| Conveyor.CountIsParts | examples/demo_program.c:53-63 | The counter's edge detector behind the program's neither loses nor adds a part. |
| Conveyor.PartCountSinceStop | examples/demo_program.c:60-67 | The count is the number of scans in which a part arrived after the last scan with STOP pressed. |
| Conveyor.LampIsPulse | examples/demo_program.c:53-59 | The lamp is on exactly in the scan of a part that came while it was dark and until the time since then has reached 200 ms. |
| Conveyor.LampInRealTime | examples/demo_program.c:53-59 | The same in start times of completed scans. |
| Conveyor.CompletionInRealTime | examples/demo_program.c:35-47 | In start times of completed scans, when a hold of START completes. |
| Conveyor.MotorInRealTime | examples/demo_program.c:35-51 | Sampled once per completed scan, the motor is on exactly when START was held for a real 500 ms and STOP has not been pressed since. |
| Conveyor.DemoProgram.constructor | examples/demo_program.h:8-18 | The zero-initialised program, before any scan. |
| Conveyor.DemoProgram.Run | examples/demo_program.c:24-68 | Over every sequence of scans, MOTOR, LAMP and PART_COUNT are what the operator is promised: held start and no stop since, 200 ms after a part that came in the dark, parts since the last stop up to 32767. |
| Conveyor.ScanProgram | src/core/plc_runtime.c:165-225 | Run by the engine, whatever scans overran or were aborted, the program has seen exactly the completed scans with their real times, and motor and lamp follow real time. |
| ScannerDevice.FilterFate | src/adapters/eip_scanner/eip_scanner_backend_eipscanner.cpp:237-246 | What the 16-bit comparison does with a frame, by its unbounded distance from the last one kept. |
| ScannerDevice.WindowIsExact | src/adapters/eip_scanner/eip_scanner_backend_eipscanner.cpp:237-246 | Within -32768..+32767 a frame is accepted exactly when it is newer. |
| ScannerDevice.WindowIsTight | src/adapters/eip_scanner/eip_scanner_backend_eipscanner.cpp:237-246 | Whatever was kept last, one step outside either end of the window the filter is wrong. |
| ScannerDevice.KeptIsNewest | src/adapters/eip_scanner/eip_scanner_backend_eipscanner.cpp:230-256 | After any reordered, repeated or replayed delivery the frame kept is the first arrival with the greatest unbounded number. |
| ScannerDevice.KeptIsNewestExactly | src/adapters/eip_scanner/eip_scanner_backend_eipscanner.cpp:230-256 | The newest frame is in the image after every arrival if and only if each arrival is ahead in 16 bits of the newest before it exactly when it is newer. |
| ScannerDevice.OrderDoesNotMatter | src/adapters/eip_scanner/eip_scanner_backend_eipscanner.cpp:230-256 | Two deliveries of the same frames in any order keep the same frame. |
| ScannerDevice.EveryOrderInWindow | src/adapters/eip_scanner/eip_scanner_backend_eipscanner.cpp:237-246 | Every arrival of every delivery of some frames is within -32768..+32767 of the last one kept if and only if no two of them are 32768 or more apart. |
| ScannerDevice.EveryOrderKeepsNewest | src/adapters/eip_scanner/eip_scanner_backend_eipscanner.cpp:230-256 | Every delivery of some frames, in any order and however often, keeps the newest if and only if of any two the newer is 1 to 32767 ahead modulo 65536. |
| ScannerDevice.CloseFramesCompare | src/adapters/eip_scanner/eip_scanner_backend_eipscanner.cpp:237-246 | Frames less than 32768 apart meet that condition. |
| ScannerDevice.FilterMisjudges | src/adapters/eip_scanner/eip_scanner_backend_eipscanner.cpp:237-246 | From every sequence number on, deliveries of two frames that keep the older one. |
| ScannerDevice.AnyOrderKeepsTheSame | src/adapters/eip_scanner/eip_scanner_backend_eipscanner.cpp:230-256 | Frames that compare rightly in 16 bits leave the same one in the image in whatever order they all arrive. |
| ScannerDevice.DropsAreNoNews | src/adapters/eip_scanner/eip_scanner_backend_eipscanner.cpp:240-244 | The out-of-order count is the arrivals minus those newer than all before them. |
| ScannerDevice.OnlineMeansThisConnection | src/adapters/eip_scanner/eip_scanner_backend_eipscanner.cpp:220-256 | Once the current connection has delivered, the image is the frame kept from that connection, not from an earlier one. |
| ScannerDevice.OnlineShowsNewest | src/adapters/eip_scanner/eip_scanner_backend_eipscanner.cpp:400-402 | While every arrival is within the window, the slice of an ONLINE device is the newest frame of the open connection. |
| ScannerDevice.HeldAcrossReconnects | src/adapters/eip_scanner/eip_scanner_backend_eipscanner.cpp:220-228 | Through losses and reconnects that deliver nothing, the image stays the frame kept on the last connection that delivered. |
| ScannerDevice.NeverDeliveredIsZero | src/adapters/eip_scanner/eip_scanner_backend_eipscanner.cpp:403-420 | A device that never delivered reads OFFLINE and all zeros. |
| ScannerDevice.HistoryNext | src/adapters/eip_scanner/eip_scanner_backend_eipscanner.cpp:220-265 | What one open, arrival or loss does to the connection: an open starts it with nothing received, a loss ends it. |
| ScannerDevice.ImageNext | src/adapters/eip_scanner/eip_scanner_backend_eipscanner.cpp:240-255 | Only a frame the filter takes changes the image, and every other arrival is counted out of order. |
| ScannerDevice.ArrivalsSinceOpened | src/adapters/eip_scanner/eip_scanner_backend_eipscanner.cpp:220-256 | The frames the filter compares are those received since the connection was last opened. |
| ScannerDevice.HealthExactly | src/adapters/eip_scanner/eip_scanner_backend_eipscanner.cpp:400-420 | ONLINE exactly while a connection is open that has delivered, FAILSAFE exactly if none is but something was once received, OFFLINE exactly if nothing ever was. |
| ScannerDevice.SliceExactly | src/adapters/eip_scanner/eip_scanner_backend_eipscanner.cpp:400-420 | Zeros exactly when CLEAR meets a device without such a connection, the kept image otherwise. |
| ScannerDevice.Device.constructor | src/adapters/eip_scanner/eip_scanner_backend_eipscanner.cpp:54-87 | A device before its first connection. |
| ScannerDevice.Device.Open | src/adapters/eip_scanner/eip_scanner_backend_eipscanner.cpp:220-228 | A new connection has nothing received and no sequence baseline, and keeps the image. |
| ScannerDevice.Device.Receive | src/adapters/eip_scanner/eip_scanner_backend_eipscanner.cpp:230-256 | Every field stays the specified function of the history of opens, arrivals and losses; `latest` equals `last_good`. |
| ScannerDevice.Device.Close | src/adapters/eip_scanner/eip_scanner_backend_eipscanner.cpp:258-265 | A lost connection keeps image and counts. |
| ScannerTable.Parse | src/adapters/eip_scanner/eip_scanner_config.c:52-131 | A table is accepted exactly if its lines that are not blank describe 1 to 16 devices, field by field, that fit 496 bytes each way; what comes back is those devices in order, packed. |
| ScannerTable.ParseLines | src/adapters/eip_scanner/eip_scanner_config.c:52-131 | Line by line, the devices of the lines so far, until one does not parse or does not fit. |
| ScannerTable.StrtoulExactly | src/adapters/eip_scanner/eip_scanner_config.c:12-18 | A number field is skipped blanks, at most one sign and digits only; its value is clamped, and under a minus sign taken from 2^64. |
| ScannerTable.DigitsDenote | src/adapters/eip_scanner/eip_scanner_config.c:12-18 | A number written out in decimal denotes itself. |
| ScannerTable.ZerosCountNothing | src/adapters/eip_scanner/eip_scanner_config.c:12-18 | Leading zeros change nothing. |
| ScannerTable.RowExactly | src/adapters/eip_scanner/eip_scanner_config.c:62-109 | Nine fields are accepted exactly if they are an address, three assemblies, the two lengths, the interval, the multiplier and "hold" or "clear", each within its limit, and become those members of the device. |
| ScannerTable.WrittenRowRead | src/adapters/eip_scanner/eip_scanner_config.c:62-109 | A device written out in the order of the columns is read back. |
| ScannerTable.DevicesExactly | src/adapters/eip_scanner/eip_scanner_config.c:52-109 | The devices of a text are described by its lines one by one. |
| ScannerTable.BlankLineSkipped | src/adapters/eip_scanner/eip_scanner_config.c:60-60 | A blank line makes no difference, wherever it is. |
| ScannerTable.AppendPacks | src/adapters/eip_scanner/eip_scanner_config.c:111-124 | Placing one more row at the running totals keeps every offset the sum of the rows before. |
| ScannerTable.SliceEnds | src/adapters/eip_scanner/eip_scanner_config.c:111-124 | Every slice ends where the next begins and inside the image. |
| ScannerTable.SlicesDisjoint | src/adapters/eip_scanner/eip_scanner_config.c:111-124 | No byte belongs to two devices. |
| ScannerTable.SlicesCover | src/adapters/eip_scanner/eip_scanner_config.c:111-124 | Every byte of the image belongs to a device. |
| ScannerExchange.AggregateAt | src/adapters/eip_scanner/eip_scanner_main.c:254-264 | The reply shows every device's health byte and slice exactly where the table places them. |
| ScannerExchange.AgreedExactly | src/adapters/eip_scanner/eip_scanner_main.c:162-170 | Core and scanner both start exactly if the image fits a frame and the two tables agree in count and totals, and on which layout. |
| ScannerExchange.AggregateTold | src/adapters/eip_scanner/eip_scanner_backend_eipscanner.cpp:388-421 | In the aggregate every device's health byte and slice stand at the device's place and say what happened to it. |
| ScannerExchange.LiveIsShown | src/adapters/eip_scanner/eip_scanner_backend_eipscanner.cpp:425-433 | The devices with an open connection that delivered are those the image shows ONLINE. |
| ScannerExchange.OnlyOwnBytes | src/adapters/eip_scanner/eip_scanner_backend_eipscanner.cpp:388-421 | One device's state affects only its own health byte and slice. |
| ScannerExchange.AllShown | src/adapters/eip_scanner/eip_scanner_backend_eipscanner.cpp:388-421 | A buffer that shows every device is the aggregate, so every reply byte has been written. |
| ScannerExchange.Look | src/adapters/eip_scanner/eip_scanner_backend_eipscanner.cpp:400-420 | A device's health byte is 1, 2 or 0 exactly by whether an open connection has delivered, something once arrived, or nothing did; its slice is zeros under CLEAR without such a connection, and the kept image otherwise. |
| ScannerExchange.WriteView | src/adapters/eip_scanner/eip_scanner_backend_eipscanner.cpp:397-420 | One device's slice and health byte, and no other byte, as its history prescribes. |
| ScannerExchange.ExchangeDevice | src/adapters/eip_scanner/eip_scanner_backend_eipscanner.cpp:389-420 | Stages the device's outputs and shows its inputs, or skips a slice that does not fit. |
| ScannerExchange.ExchangeImages | src/adapters/eip_scanner/eip_scanner_backend_eipscanner.cpp:381-423 | The whole loop writes the aggregate when the buffer holds it and stages every device's outputs. |
| ScannerExchange.Answer | src/adapters/eip_scanner/eip_scanner_main.c:254-264 | After the core's size check and the scanner's table check, even on two different tables, no slice is skipped, the reply tells every device's health and slice at its place, and its length is the core's input size. |
| ScannerExchange.Online | src/adapters/eip_scanner/eip_scanner_backend_eipscanner.cpp:425-433 | The reported number is that of the devices with an open connection that delivered, and of the ONLINE health bytes in the image. |
| ScannerCall.ReplyAfterLate | src/adapters/eip_scanner/eip_scanner_proxy.c:242-273 | After late frames only, the frame with the own sequence number is the reply. |
| ScannerCall.TakeReply | src/adapters/eip_scanner/eip_scanner_proxy.c:275-318 | A reply of the image's length in time is the image, and the number of devices online decides between ONLINE and DEGRADED. |
| ScannerCall.ScanDevices | src/adapters/eip_scanner/eip_scanner_proxy.c:223-319 | End to end: a call that the scanner answers in time returns PLC_OK with every device told of in the image, stages every device's outputs, and is ONLINE exactly if some device has an open connection that delivered. |
| Checksums.Fold | tools/cip_impair.c:157-157 | The carry fold ends within 16 bits, at zero only for zero. |
| Checksums.FoldKeepsResidue | tools/cip_impair.c:157-157 | It keeps the value modulo 65535. |
| Checksums.FoldCarries | tools/cip_impair.c:157-157 | The loop computes that fold of a 32-bit sum. |
| Checksums.VerifiesExactly | tools/cip_impair.c:153-159 | Re-summing gives 0 exactly when the sum is a positive multiple of 65535. |
| Checksums.WordSumIsNumber | tools/cip_impair.c:153-156 | The word sum is the bytes' big-endian number modulo 65535; an odd length counts as padded with a zero byte. |
| Checksums.VerifiesByNumber | tools/cip_impair.c:153-159 | Data re-sums to 0 exactly if its big-endian number is a positive multiple of 65535. |
| Checksums.WordSumBound | tools/cip_impair.c:154-156 | The sum of n bytes, odd n included, is at most 65535 per word. |
| Checksums.OnesComplement | tools/cip_impair.c:153-159 | The loop computes the checksum without its accumulator leaving 32 bits. |
| Checksums.WordSumWith | tools/cip_impair.c:186-187 | Writing an aligned word changes the sum by exactly the difference. |
| Checksums.RepairVerifies | tools/cip_impair.c:211-217 | Storing the checksum of data whose field is zero makes it verify, also where UDP stores 0xFFFF for zero. |
| Checksums.FixHeader | tools/cip_impair.c:179-187 | The IPv4 header then verifies, carries the corrected length, and only its length and checksum bytes changed. |
| Checksums.PseudoSum | tools/cip_impair.c:204-209 | The folded sum of the pseudo-header: addresses, protocol and segment length. |
| Checksums.PseudoIsHeader | tools/cip_impair.c:204-209 | That sum is the one of the twelve bytes of the pseudo-header written out. |
| Checksums.VerifiesWithHeader | tools/cip_impair.c:204-217 | A segment verifies with the pseudo-header's sum exactly if pseudo-header and segment verify as one string of bytes. |
| Checksums.ZeroField | tools/cip_impair.c:195-202 | UDP length set and the checksum field zeroed, nothing else. |
| Checksums.FieldVerifies | tools/cip_impair.c:211-217 | The written field makes the segment verify with its pseudo-header. |
| Checksums.FixSegment | tools/cip_impair.c:195-217 | The UDP or TCP segment is repaired and only its repairable bytes changed. |
| Checksums.FixChecksums | tools/cip_impair.c:161-218 | For every frame, in its bytes: one that is not an IPv4 datagram is untouched; otherwise the header re-sums to 0 and claims the bytes left, pseudo-header and segment re-sum to 0 as one string, the UDP checksum is not 0, a padded frame keeps its length, and no other byte changed. |
| Checksums.RepairDatagram | tools/cip_impair.c:179-217 | Header and segment of an IPv4 frame are repaired and nothing but lengths and checksums changed. |
| Checksums.RepairInOrder | tools/cip_impair.c:161-218 | The repaired frame, told in its bytes alone. |
| Settings.NamesStay | src/core/plc_config.c:87-100 | Normalising a name in the environment spelling changes nothing. |
| Settings.NormaliseExactly | src/core/plc_config.c:87-100 | A text normalises to a name exactly if it is a way to write it. |
| Settings.QualifyPlaces | src/core/plc_config.c:110-131 | Where the naming rule puts every key of every section, and when it refuses. |
| Settings.QualifiedStays | src/core/plc_config.c:110-131 | A qualified key qualifies to itself in every section. |
| Settings.TextStores | src/core/plc_config.c:142-228 | Whatever any text stores has distinct keys that qualify to themselves and values that fit. |
| Settings.StoredIsFound | src/core/plc_config.c:310-321 | Every stored non-empty value is found under every spelling with the same qualified form unless the environment overrides it; nothing else is found. |
| Settings.UnquotedSurvives | src/core/plc_config.c:56-69 | A quoted value without a double quote is never cut as a comment. |
| Settings.SurvivesUncut | src/core/plc_config.c:56-69 | The comment cutter leaves a quoted value alone if and only if no position of the value holds a comment character behind a space or tab with no quote open. |
| Settings.RereadExactly | src/core/plc_config.c:56-78 | A quoted value is read back as itself if and only if no comment starts inside its quotes. |
| Settings.LineStores | src/core/plc_config.c:168-225 | A printed line stores its key with the value read back. |
| Settings.PrintedReadsBack | src/core/plc_config.c:142-228 | Printing a stored table and parsing it gives the same keys in order, and the same table if and only if every value survives its quotes. |
| Settings.TextReadsBack | src/core/plc_config.c:142-228 | The same for the table of any text; in particular whenever no value holds a double quote. |
| Settings.SingleQuotedStores | src/core/plc_config.c:168-225 | A line with a value in single quotes stores it as it is, if it holds no single quote. |
| Settings.SingleQuotedText | src/core/plc_config.c:142-228 | So every such value is what some text stores. |
| Settings.QuoteLosesTail | src/core/plc_config.c:56-69 | A text whose stored table does not survive printing and parsing. |
| Settings.TrimScan | src/core/plc_config.c:41-47 | The two loops compute the specified trim. |
| Settings.StripScan | src/core/plc_config.c:56-69 | The loop cuts at the specified comment. |
| Settings.NormaliseScan | src/core/plc_config.c:87-100 | The loop accepts exactly the ways to write a name of 1 to 63 characters, lower case and '-', '.' or space for '_' included, and yields that name. |
| Settings.QualifyKey | src/core/plc_config.c:110-131 | A key named K under section S becomes SOFTPLC_S_K; without a section, under CORE or under SOFTPLC it becomes SOFTPLC_K; one that carries the prefix stays; nothing comes back if a name is missing or the result has 64 characters or more. |
| Settings.Store.Find | src/core/plc_config.c:135-140 | The first entry under a key, or none. |
| Settings.Store.Parse | src/core/plc_config.c:142-228 | Does to a text what ParseText says, also when a line is rejected; what that is, line by line and for whole texts, is stated in SettingsText. |
| Settings.Store.ParseLine | src/core/plc_config.c:168-225 | One line does what the specification of a line says. |
| Settings.Store.Value | src/core/plc_config.c:310-321 | The lookup is the specified one. |
| SettingsText.TrimWraps | src/core/plc_config.c:41-47 | Trimming takes away the spaces, tabs and carriage returns at both ends and nothing else. |
| SettingsText.WrittenSkips | src/core/plc_config.c:56-69 | A value in quotes, or without quotes and comment starts, is passed over by the comment cutter. |
| SettingsText.EntryExactly | src/core/plc_config.c:189-225 | A line that gives a key a value, however spaced, quoted and commented, stores the value under SOFTPLC_SECTION_KEY and keeps section and other entries; it is rejected exactly if that name has 64 characters or more, the value 256 or more, the name is taken or the table holds 64. |
| SettingsText.NamelessKeyRejected | src/core/plc_config.c:189-203 | A key that writes no name is rejected. |
| SettingsText.HeaderExactly | src/core/plc_config.c:173-187 | A header opens the section it names, keeps the entries, and is rejected exactly if it writes no name. |
| SettingsText.EmptyLineSkipped | src/core/plc_config.c:168-171 | A line with nothing but space and a comment changes nothing. |
| SettingsText.StrayRejected | src/core/plc_config.c:158-194 | A line of 328 characters or more, an unclosed header and a line without an equals sign are rejected in every state. |
| SettingsText.LinesAppend | src/core/plc_config.c:153-166 | The lines of a text ended by a newline come before the lines of what follows it. |
| SettingsText.BadLineStops | src/core/plc_config.c:142-228 | A text is rejected at its first bad line, and what the lines before it stored is what is left. |
| SettingsText.UnderHeaderFound | src/core/plc_config.c:110-131 | A key under a header, in any spelling and spacing of both, is found under SOFTPLC_S_K, SOFTPLC_K or itself. |
| SettingsText.NoHeaderFound | src/core/plc_config.c:110-131 | The same without a header. |
| SettingsText.RepeatedKeyRejected | src/core/plc_config.c:209-216 | A key set twice, in whatever spellings, is rejected and the first value stays. |
| SettingsText.SectionedIsFound | src/core/plc_config.c:142-228 | The text `[s]`, newline, `k = "value"` makes a lookup of SOFTPLC_S_K return the value. |
| SettingsText.UnsectionedIsFound | src/core/plc_config.c:142-228 | With no header, `[core]` or `[softplc]` it is found under SOFTPLC_K. |
| SettingsText.LookupExactly | src/core/plc_config.c:310-321 | A lookup in any spelling returns the environment's value if there is one, else the entry under the full name if it is not empty, else the fallback. |
| Probe.LongestDrops | tools/eip_probe.c:121-123 | A gap no longer than the shortest kept may be dropped. |
| Probe.LongestPlaces | tools/eip_probe.c:124-131 | Replacing the shortest by a longer gap at its sorted place keeps the longest twenty. |
| Probe.Insert | tools/eip_probe.c:124-131 | The bubbling loop puts the new gap at its sorted place, in place. |
| Probe.TopGaps.constructor | tools/eip_probe.c:121-123 | Twenty zero gaps. |
| Probe.TopGaps.NoteGap | tools/eip_probe.c:121-132 | After every gap the twenty kept are sorted, and each gap noted so far is among them or is no longer than any of them. |
| Probe.TopGaps.Note | tools/eip_probe.c:121-132 | As multisets: kept and dropped gaps together are those noted, blanks included. |
| Probe.Recentre | tools/eip_probe.c:260-263 | How the sum of squared deviations moves with its centre. |
| Probe.UpdateKeeps | tools/eip_probe.c:260-263 | One streaming update keeps mean and m2 equal to their batch definitions. |
| Probe.Running.constructor | tools/eip_probe.c:258-263 | No deltas yet. |
| Probe.Running.Update | tools/eip_probe.c:258-263 | After any stream of deltas, mean is their sum over their number and m2 the sum of their squared deviations from it. |

## Left out

- OpENer, EIPScanner and src/adapters/eip/eip_backend_opener.c: foreign stacks; only what they may call is modelled.
- src/ipc/shm.c: semaphores are counters with wait, try-wait and post; shared memory set-up is not modelled.
- Termination against a peer that pushes frames forever: not guaranteed by the code.
- Opening an adapter twice or again after closing it: each adapter object stands for one opening.
- Jitter, overrun and scan-duration statistics of the engine: counters no other code reads.
- scan_io, the process image accessors and the output shadow: range checks and copies; the input phase is its worst status.
- F_TRIG, SR, CTD and CTUD: the same shapes as the blocks modelled.
- Splitting the device table's text into lines and tokens, its overlong-line error and error texts: the parser starts from the tokens of each line.
- The scanner's reconnect gate and connection counters: an open or a loss may come at any time instead.
- The scanner's service loop as ring code: its reply is modelled, its wait, pop, push and post are those of the adapter's loop.
- plc_config_load, plc_cfg_u32 and plc_cfg_bool, error texts and line numbers; settings are characters, not bytes, and hold no NUL.
- The probe's histogram, minimum, maximum and loss accounting; its doubles are reals, so rounding is not modelled.
- src/app, logging, registry, role table and name builders: I/O and lookup.
- ScannerDevice.Device.Receive: is called only while the connection is open, because a closed connection delivers nothing.
- Exchange.InvStep: the core itself does not crash or restart.
