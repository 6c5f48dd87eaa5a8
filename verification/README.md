# Verified core of an HTTP client

This project models the parts of the `rquest` HTTP client whose correctness is hardest to see by
reading, and proves what their comments and assertions promise. `dafny verify dfyconfig.toml`
checks all of it with Dafny 4.11.

| file | models |
|---|---|
| `PoolState.dfy` | the connection pool as a value: each critical section, and the invariant they all keep |
| `PoolInner.dfy` | `PoolInner` as an object whose methods do to their fields what `PoolState` says |
| `PoolRun.dfy` | every run of the pool: checkouts, waiters, connection attempts, drops, sweeps and the clock |
| `Dispatch.dfy` | the request hand-off with its one-shot callbacks and destructors, and every run of it |
| `DispatchAnswers.dfy`, `DispatchOrder.dfy` | what each promise is answered with; what is accepted, and the order in which it is received |
| `RequestHolders.dfy`, `QueueLoad.dfy` | where a request is in every run of the hand-off, and how many can be queued |
| `DispatchObjects.dfy` | the same hand-off as objects with slots that are emptied in place |
| `SendRequest.dfy` | sending over pooled connections with retries and in-place URI rewriting |
| `Redirect.dfy` | the redirect and retry loop of a pending request, and the loop as an object |
| `MultipartText.dfy`, `Multipart.dfy`, `MultipartFields.dfy` | the multipart printer, its escapings, readers for its output and for its header blocks, and the announced length |
| `SessionCache.dfy` | the TLS session cache and its reverse index, as a value and as an object |
| `BufList.dfy`, `Watch.dfy`, `ContentLength.dfy` | the buffer list, the watch channel, the Content-Length parser |

How the outside world enters. Clocks, `is_open`, the answers of one-shot channels, server responses, custom
redirect policies and the connection task are parameters or events with arbitrary values. Locks are
critical sections taken as one step; a receiver may be dropped at any moment without the lock. A run is a
list of events, each enabled where it happens, and the theorems about runs hold for all of them.

What the code does not do, although it looks as if it should:

- `Checkout::checkout` releases the lock before it asserts that the first poll of its new receiver is
  pending (`src/core/client/pool.rs:645-649`). `FirstPollMayFindAnAnswer` gives a run in which a connection
  is put back in between and the assertion fails. `FirstPollPendingIff` says exactly when it holds: when none of
  the events in between is a shared connection coming up under the key, a lock on the key being given up, or an
  open connection of the key being put back while every waiter in front of the new one is gone.
- A bounded `Sender` is meant to have one request queued. `Receiver::poll_recv` finds the queue empty and
  raises the want signal in two steps; `TwoRequestsQueued` shows two requests queued, and `TwoRequestsQueuedAtMost`
  that there are never more. `TwoQueuedIffAcceptedInGap` gives the exact condition: the bound of one is broken
  exactly when a send is accepted between the two steps.
- The session cache's indexes drift apart when one session id is filed under two keys: `SameIdUnderTwoKeys`
  ends with a TLS 1.3 session that `get` returns for ever. `InsertConsistentIff` gives the exact condition for the
  indexes after one insert and `StaysInverseIff` over a run. `UsedOnceIff` gives the exact condition for single use:
  when `get` returns the session, its id is filed under that key and stored under no other.
- A multipart form without percent encoding is not readable when a field name has an empty line in it
  (`RawNameMayBreakAForm`); `FormReadsBackIff` gives the exact condition for all forms.
- File names are escaped with backslashes, so a reader must undo them; but the default encoding prints a backslash
  in a field name as it is, and a semicolon in an extended one (`src/client/multipart.rs:509`, `537-549`).
  `BackslashIsLost` and `SemicolonEndsName` show names that are not read back; `DispositionReadsBackIff` gives the
  exact condition for a block, `PlainNamesSurvive` in terms of the name alone, `FieldsReadBackIff` for whole forms.

## Model

| member | source | states |
|---|---|---|
| PoolState.PopFindsNewestUsable | src/core/client/pool.rs:265-302 | a checkout gets the newest idle entry that is open and not expired, keeps the older ones, and gets nothing exactly when none is usable |
| PoolState.GivingUpIsSafe | src/core/client/pool.rs:273-282 | the shortcut the comment asks about (drop the list at the first expired entry) gives the same result and list on every sorted list, with the clock running during the scan |
| PoolState.OldestOpenWaiterFirst | src/core/client/pool.rs:315-340 | a unique connection goes to the first waiter in the queue that can take it; those before it were closed, those behind keep their places |
| PoolState.EveryOpenWaiterServed | src/core/client/pool.rs:315-345 | a shared connection goes to every waiter that can take it, empties the queue and stays with the pool |
| PoolState.ServeSendsOnce | src/core/client/pool.rs:313-337 | the value is gone exactly when it is unique and was sent, and then it was sent once |
| PoolState.ServePartitions | src/core/client/pool.rs:314-345 | each queued waiter stays queued, is answered or was found closed, and only one of the three |
| PoolState.PutLosesNothing | src/core/client/pool.rs:306-369 | a unique connection put back goes to the first waiter that is there, if there is one, and those behind it stay queued; otherwise it goes to its idle list |
| PoolState.PushIsExact | src/core/client/pool.rs:347-363 | it is appended if the list has room; the key becomes most recently used; no other list appears or changes, and the only one that goes is the least recently used, exactly when a new key comes at full key capacity |
| PoolState.PutKeepsInv | src/core/client/pool.rs:306-369 | `put` keeps the pool invariant: lists non-empty, sorted, bounded, at most one shared entry, no key both idle and waited for, LRU order and capacity |
| PoolState.EarlyReturnStrandsNobody | src/core/client/pool.rs:307-310 | the early return for an existing idle HTTP/2 entry leaves nobody waiting |
| PoolState.CheckoutKeepsInv | src/core/client/pool.rs:607-657 | the locked part of a checkout keeps the pool invariant |
| PoolState.CheckoutQueuesLast | src/core/client/pool.rs:607-657 | a checkout that finds something changes no queue, one that finds nothing queues last behind an empty idle list; other keys are untouched |
| PoolState.CheckoutTakesBest | src/core/client/pool.rs:265-302 | a checkout takes the newest entry that is open and within the timeout; the older ones stay, a shared one behind them with the time of the scan; the key stays exactly while it has entries, as most recently used, and the other keys keep their order |
| PoolState.CheckoutFindsNothing | src/core/client/pool.rs:625-643 | without such an entry the idle list of the key goes and the sender is queued last; nothing else changes |
| PoolState.PushKeepsOrder | src/core/client/pool.rs:347-363 | a push puts its key in front and leaves the order of the others alone |
| PoolState.CleanIsExact | src/core/client/pool.rs:417-427 | cleaning leaves exactly the waiters with a receiver, in order, no empty queue, and nothing else changed |
| PoolState.SweepKeepsOrder | src/core/client/pool.rs:437-463 | a sweep only takes keys out of the order |
| PoolState.SweepKeepsInv | src/core/client/pool.rs:431-463 | the idle sweep keeps the pool invariant and leaves waiters and locks alone |
| PoolState.SweepReachesEveryKey | src/core/client/pool.rs:437-463 | the sweep prunes the list of every key and removes the keys left without entries |
| PoolState.FreshEntriesStay | src/core/client/pool.rs:439-453 | an entry that is open and not expired survives the sweep |
| PoolState.StaleEntriesGo | src/core/client/pool.rs:439-453 | only such entries survive it |
| PoolState.CleaningKeepsOrder | src/core/client/pool.rs:417-427 | cleaning a queue keeps the waiters' order |
| PoolState.StillOpenMembers | src/core/client/pool.rs:417-427 | cleaning keeps exactly the waiters whose receiver is still there |
| PoolInner.PopIdle | src/core/client/pool.rs:265-302 | the pop loop computes `Pop` |
| PoolInner.PoolInner.Put | src/core/client/pool.rs:306-369 | `put` updates the fields as `Put` says and serves the waiters it names; "value already sent" is asserted never to happen |
| PoolInner.PoolInner.Connected | src/core/client/pool.rs:373-380 | the lock and the waiters of the key go; tells whether the lock existed and whom it cancelled |
| PoolInner.PoolInner.CleanWaiters | src/core/client/pool.rs:417-427 | the retain loop updates the queue as `CleanWaiters` says |
| PoolInner.PoolInner.Checkout | src/core/client/pool.rs:607-654 | the locked part of `checkout` updates the fields as `Checkout` says |
| PoolInner.PoolInner.ClearExpired | src/core/client/pool.rs:431-463 | the sweep loops update the fields as `Sweep` says |
| PoolRun.RunKeepsInv | src/core/client/pool.rs:152-717 | every step of every run keeps the pool invariant, the lock, waiter and place invariants |
| PoolRun.IdleOrWaitedForNeverBoth | src/core/client/pool.rs:306-369 | in every run, whenever the lock is free: no key is idle and waited for, no stored list is empty, idle lists are sorted, within `max_idle_per_host`, with at most one shared entry, and keys within capacity |
| PoolRun.ConnectRefusedIff | src/core/client/pool.rs:165-189 | in every run a connect is refused exactly if it is for HTTP/2 and another attempt holds the lock; otherwise there is one new attempt, with the lock exactly if it is for HTTP/2 |
| PoolRun.EstablishedIs | src/core/client/mod.rs:541-560 | a connection that is HTTP/2 unasked is given up exactly if another attempt holds the lock by then; otherwise it goes on, with the lock exactly if it is HTTP/2 |
| PoolRun.FinishHandsOver | src/core/client/pool.rs:191-229 | a finished connect hands over a new connection that was nowhere before; a shared one also becomes the only idle entry of a key that had none |
| PoolRun.CheckoutHandsOver | src/core/client/pool.rs:607-657 | in every run a checkout hands over the best idle entry, leaves the older ones under the key and touches nothing else |
| PoolRun.CheckoutWaits | src/core/client/pool.rs:636-643 | in every run a checkout that finds nothing leaves a pending receiver with its sender last in the queue |
| PoolRun.WaiterHandsOver | src/core/client/pool.rs:581-605 | a waiter that polls gets the connection sent to it exactly if that is still open, and unless pending waits no longer |
| PoolRun.FirstPollIs | src/core/client/pool.rs:645-650 | the first poll registers a receiver whose sender is queued, and otherwise the receiver goes with what was sent to it |
| PoolRun.HandedOverIsGood | src/core/client/pool.rs:265-302 | in every run a connection handed over is new, or was the best idle entry of its key, or was sent to that waiter and is open |
| PoolRun.PutBackIdles | src/core/client/pool.rs:514-533 | in every run a connection put back with no waiter there becomes the newest idle one if there is room; a closed one just goes |
| PoolRun.SweepKeepsExactlyFresh | src/core/client/pool.rs:431-463 | in every run a sweep leaves in each list exactly the entries that are open and within the timeout |
| PoolRun.CleanKeepsExactlyLive | src/core/client/pool.rs:417-427 | in every run a cleaning leaves queued exactly those that were and still have a receiver |
| PoolRun.UniqueConnectionHasOneSpot | src/core/client/pool.rs:191-229 | in every run an HTTP/1 connection is in one idle slot, one channel or one checked-out value, never two |
| PoolRun.PutBackServesOldest | src/core/client/pool.rs:514-533 | in every run a connection put back goes to the oldest waiter of its key that is still there, and the others keep waiting in order |
| PoolRun.LockAssertionsHold | src/core/client/pool.rs:699-717 | in every run one attempt holds the lock of a key; a connection attempt ends with its lock exactly when it is HTTP/2; so `existed` holds and `alpn_h2` never meets a holder |
| PoolRun.ConnectKeepsLocks | src/core/client/mod.rs:514-560 | taking the lock at the start of a connect or after ALPN keeps the lock set equal to the keys of the holders |
| PoolRun.FinishKeepsLocks | src/core/client/pool.rs:191-206 | when `pooled` is done its attempt is gone and the lock of its key, which was held, is freed exactly if the connection is HTTP/2; every other lock stays with its holder |
| PoolRun.SharedConnectCancelsNobody | src/core/client/pool.rs:194-206 | in every run a shared connection that comes up reaches every waiter of its key that is still there and cancels none |
| PoolRun.RefusedConnectMayWait | src/core/client/mod.rs:527-556 | in every run a connect refused because of a lock finds exactly one attempt holding it, and no waiter of the key that is pending then is still pending once that attempt is gone |
| PoolRun.PutKeepsChannels | src/core/client/pool.rs:312-345 | after `put` a receiver is pending exactly while its sender is queued, once |
| PoolRun.GivingUpIsSafeInRuns | src/core/client/pool.rs:273-278 | in every run the shortcut of the comment is safe for every idle list |
| PoolRun.FirstPollPendingWhileQueued | src/core/client/pool.rs:636-651 | the first poll of a new receiver is pending exactly while its sender is still queued |
| PoolRun.FirstPollMayFindAnAnswer | src/core/client/pool.rs:645-649 | a run exists in which the assertion on the first poll fails |
| PoolRun.StepEndsWaitIff | src/core/client/pool.rs:306-380 | the events that end the wait of a new receiver, exactly: a shared connection under its key, a lock on its key given up, an open connection put back with nobody in front of it, its own poll or drop |
| PoolRun.FirstPollPendingIff | src/core/client/pool.rs:636-651 | in every run the asserted first poll is pending exactly when no such event lies between the release of the lock and the poll |
| Dispatch.PromisesStep | src/core/client/dispatch.rs:142-253 | every event keeps: a promise waits exactly while one live callback can answer it, and none is broken |
| Dispatch.EveryPromiseIsAnswered | src/core/client/conn/http1.rs:132-140 | in every run awaiting a promise never finds its sender dropped, every callback held or queued still has its sender, and a promise without a callback has its answer |
| Dispatch.AnswerIsFinal | src/core/client/dispatch.rs:176-253 | a promise that has been answered is never answered again, and one whose receiver is gone does not come back |
| Dispatch.DropQueueAnswers | src/core/client/dispatch.rs:176-187 | dropping the receiver answers every queued promise with its own request, and no other promise |
| DispatchAnswers.DroppedCallbackFails | src/core/client/dispatch.rs:196-214 | a callback dropped unused answers with an error and no request; a used one does nothing |
| DispatchAnswers.AnswerIsWhatHappened | src/core/client/dispatch.rs:143-252 | in every run a promise has an answer exactly if an event gave it: a response by a reply only, an error with the request if that was still in hand or queued, an error without one otherwise |
| DispatchAnswers.OwnRequestComesBack | src/core/client/dispatch.rs:176-187 | in every run the request that an answer hands back is the one sent with that promise |
| DispatchAnswers.AwaitGivesBack | src/core/client/conn/http1.rs:128-151 | awaiting an answer gives its request back to the caller, and no other |
| DispatchOrder.DroppedPromiseTakesAnswer | src/core/client/dispatch.rs:176-187 | a dropped promise takes its answer with it, and a request in it is gone |
| DispatchOrder.SendIsExact | src/core/client/dispatch.rs:78-125 | a send is accepted exactly while the receiver is open and the sender is unbounded, wanted or unused; it is queued last with a new promise and uses the want up, and a refusal returns the request |
| DispatchOrder.UnboundedStaysSo | src/core/client/dispatch.rs:103-125 | an unbounded sender stays one and is refused by nothing but a closed receiver |
| DispatchOrder.OldestIsReceived | src/core/client/dispatch.rs:143-153 | in every run the receiver takes the request sent first among those queued, with its own callback, and leaves the others |
| DispatchOrder.ClosedStaysClosed | src/core/client/dispatch.rs:155-158 | after a close or a drop of the receiver nothing is accepted any more |
| RequestHolders.RequestHasOneHolder | src/core/client/dispatch.rs:91-187 | in every run each request is held by exactly one of: a caller, the queue, the connection task, an answer, or nobody |
| RequestHolders.WrittenOutNeverReturns | src/core/client/dispatch.rs:284-319 | once a request has been written to a connection, no continuation brings it back to a caller, the queue, a connection task or an answer |
| QueueLoad.TwoQueuedIffAcceptedInGap | src/core/client/dispatch.rs:78-153 | in every bounded run more than one request is queued or wanted at some point exactly when a send was accepted between the two steps of a `poll_recv` that has ended |
| QueueLoad.OneRequestQueued | src/core/client/dispatch.rs:78-100 | so without such a send, in particular if `poll_recv` is one step, a bounded sender has at most one request queued or wanted throughout |
| QueueLoad.TwoRequestsQueuedAtMost | src/core/client/dispatch.rs:143-153 | with `poll_recv` in two steps, at most two |
| QueueLoad.TwoRequestsQueued | src/core/client/dispatch.rs:143-153 | and two are reached |
| DispatchObjects.CallbackSlot.Drop | src/core/client/dispatch.rs:196-214 | a dropped callback uses its sender for a last answer |
| DispatchObjects.CallbackSlot.Send | src/core/client/dispatch.rs:243-252 | a sent answer arrives unless the receiver is gone, and the drop that follows adds nothing |
| DispatchObjects.SendWhen.Poll | src/core/client/dispatch.rs:290-318 | it is done with its promise answered or abandoned, or keeps its callback and changes nothing |
| DispatchObjects.Link.CanSend | src/core/client/dispatch.rs:78-89 | a send is allowed when wanted or when nothing was sent before, and uses that up |
| DispatchObjects.Link.TrySend | src/core/client/dispatch.rs:91-125 | the request is queued with a new promise exactly when sending is allowed and the receiver is open |
| DispatchObjects.Link.PollRecv | src/core/client/dispatch.rs:143-153 | the oldest message as one `Recv`, or on an empty open queue the want signal as `FindEmpty` and `Want` |
| DispatchObjects.Link.Close | src/core/client/dispatch.rs:155-158 | the signal is cancelled and the queue accepts nothing more, as the event `Close` |
| DispatchObjects.Link.DropReceiver | src/core/client/dispatch.rs:168-187 | every queued envelope is dropped in order, each handing its request back, as the event `DropReceiver` |
| SendRequest.MakeAbsolute | src/core/client/dst.rs:27-51 | a request is refused exactly without an authority, or without a scheme unless it is CONNECT; otherwise its URI is absolute with the same authority, and a missing scheme becomes https for port 443 and http for any other |
| SendRequest.EveryAttemptIsAlike | src/core/client/mod.rs:249-349 | a request is sent again only if every earlier attempt returned it from a reused connection with retries enabled; each HTTP/1 attempt prepares exactly what it would prepare from the original request |
| SendRequest.VerdictIs | src/core/client/mod.rs:249-280 | attempts go on exactly while each returns its request from a reused connection with retries on; the first that does not decides, with the response or an error, and counts as sent unless it had no fit connection |
| SendRequest.RunKeepsRequest | src/core/client/mod.rs:254-279 | between attempts the request is the original one with its original absolute URI, but for a Host header already set |
| SendRequest.TargetForms | src/core/client/mod.rs:831-878 | the target is the authority alone for CONNECT, the whole URI for a proxied non-https request, and otherwise the path with its query, or a slash; HTTP/2 requests are left alone |
| SendRequest.HostNamesTheAuthority | src/core/client/mod.rs:306-318 | the Host header is the caller's, or the authority with its port left out exactly when it is the default of the scheme, and untouched if the client does not set it; nothing else but the target changes |
| SendRequest.Send | src/core/client/mod.rs:249-280 | the retry loop, with its in-place rewriting, sends what `Run` says |
| Redirect.MergeDefaults | src/client/client.rs:1395-1403 | a default header counts only where the request has none of that name |
| Redirect.SendsAreBounded | src/client/client.rs:1919-2201 | under a limit every run sends at most 1 + max + retries requests and is over after max + retries outcomes |
| Redirect.EveryRequestIsExpected | src/client/client.rs:2018-2201 | every request of every run: its method, body, URL and headers as a function of the original request and the outcomes before it; a one-shot body is sent once; only supported schemes, only https under `https_only`, and always a valid URI |
| Redirect.ExecutedIff | src/client/client.rs:1384-1430 | a request is dispatched exactly if its URL is a URI with a scheme the client allows and it builds |
| Redirect.ReplyVerdict | src/client/client.rs:2044-2200 | in every run a reply is followed exactly if it is a 301, 302 or 303, or a 307 or 308 with a body that can be repeated, has a valid Location with an allowed scheme, the request builds and the policy permits one more; it is an error exactly if the policy forbids it or the request cannot be made; otherwise it is the answer |
| Redirect.FailureVerdict | src/client/client.rs:1919-1969 | in every run a failure is retried exactly if it may be, the body can be sent again, retries are left and the request builds |
| Redirect.NoRedirectsAnswersAtOnce | src/redirect.rs:131-144 | without redirects every reply is the answer, and only retries send again |
| Redirect.HeaderIsKeptIff | src/client/client.rs:2046-2073 | every other header of a request: there exactly if the original had it, no hop has crossed hosts if it is a secret and no body was dropped if it is about content; with the original values |
| Redirect.NextHeaders | src/client/client.rs:2103-2164 | from one request to the next: a retry has the same headers; a redirect a new Referer unless it goes from https to http, and under a cookie store the new cookies behind those kept |
| Redirect.UrlsAreEarlierHops | src/client/client.rs:2108-2121 | the list given to the policy is the ordered list of the earlier hops |
| Redirect.CredentialsStayBehind | src/redirect.rs:164-176 | each sensitive header is carried exactly if the original request had it and no hop so far changed host or port (Cookie only without a cookie store) |
| Redirect.PendingRequest.RetryError | src/client/client.rs:1919-1969 | the retry decision and dispatch, on the fields |
| Redirect.PendingRequest.OnReply | src/client/client.rs:2044-2200 | the handling of a response, on the fields, is one `Step` |
| Redirect.PendingRequest.Poll | src/client/client.rs:2018-2201 | the loop, on the fields, does what `Run` says |
| MultipartText.FourReplacesAreOnePass | src/client/multipart.rs:553-562 | the four successive replaces equal one pass that escapes backslash, quote, CR and LF |
| MultipartText.FileNameReadsBack | src/client/multipart.rs:553-562 | a quoted-string reader recovers every file name and stops exactly at the closing quote |
| MultipartText.NameReadsBack | src/client/multipart.rs:499-524 | under both percent encodings a name decodes to itself and has no line break or quote in it |
| MultipartText.EncodedIsPlain | src/client/multipart.rs:499-524 | encoded text has only the bytes that the set leaves alone and percent signs, and a name of such bytes is printed as it is |
| Multipart.BlockIsClean | src/client/multipart.rs:533-576 | a header block never ends in a line end, and holds an empty line exactly when a raw name does |
| Multipart.DelimiterHasNoBorder | src/client/multipart.rs:187-205 | two occurrences of the delimiter in any text never overlap |
| Multipart.FormReadsBackIff | src/client/multipart.rs:151-205 | reading the printed form gives the same ordered header blocks and values exactly when no value holds the delimiter and, without percent encoding, no name holds an empty line |
| Multipart.RawNameMayBreakAForm | src/client/multipart.rs:578-586 | a form without percent encoding that is not read back |
| MultipartFields.NameReadsBackIff | src/client/multipart.rs:537-549 | the name parameter is read back and ends where it should exactly when the name has no character that is special to the reader and left alone by the encoding; always so with the attr-char set |
| MultipartFields.DispositionReadsBackIff | src/client/multipart.rs:533-562 | the same condition, for field name and file name read together from a printed header block with anything behind them |
| MultipartFields.HeadersReadBackIff | src/client/multipart.rs:564-574 | the lines behind the disposition, split at line ends and at the first colon, are Content-Type with the MIME string, if any, and then the part's headers in order; and no other text is read as these |
| MultipartFields.FieldsReadBackIff | src/client/multipart.rs:151-205 | a whole printed form gives back, in order, each field's name, file name, other headers and value exactly when every name survives, no value holds the delimiter and no raw name holds an empty line |
| MultipartFields.NamesDecode | src/client/multipart.rs:151-205 | the names read back from such a form decode to the names of the parts |
| MultipartFields.PlainNamesSurvive | src/client/multipart.rs:509 | under the default encoding a name is read back in both forms of its parameter exactly when it has neither backslash nor semicolon |
| MultipartFields.BackslashIsLost | src/client/multipart.rs:509 | a quoted name under the default encoding that is not read back |
| MultipartFields.SemicolonEndsName | src/client/multipart.rs:544-549 | an extended name under the default encoding that is not read back |
| Multipart.BoundaryShape | src/client/multipart.rs:589-598 | every generated boundary has 67 bytes and no CR |
| Multipart.BoundaryReadsBack | src/client/multipart.rs:589-598 | the boundary is the four numbers in sixteen hexadecimal digits each, with dashes between, so different numbers give different boundaries |
| Multipart.ComputeLength | src/client/multipart.rs:406-436 | a length is announced exactly when every part has one, and with true lengths it is the number of bytes printed, in 64-bit arithmetic |
| SessionState.InsertQueues | src/tls/conn/cache.rs:55-69 | an insert stores the session, evicts the oldest of a full queue and nothing else, and keeps queues non-empty and within max(capacity, 1) |
| SessionState.InsertIsExact | src/tls/conn/cache.rs:55-69 | a new session goes last in the queue of its key and into the reverse index; from a full queue the oldest leaves both; nothing else changes |
| SessionState.InsertAgainMovesLast | src/tls/conn/cache.rs:55-69 | an id that the queue has keeps its stored session, which moves to the end |
| SessionState.GetReturnsOldest | src/tls/conn/cache.rs:71-85 | `get` returns the oldest session of the key; one that is not TLS 1.3 stays first, one that is leaves both indexes |
| SessionState.RemoveIsExact | src/tls/conn/cache.rs:87-99 | a removal closes the gap in the queue, keeps the order, drops a queue left empty and changes nothing else |
| SessionState.InsertConsistentIff | src/tls/conn/cache.rs:55-69 | the indexes stay inverse exactly when the id is not filed under another key |
| SessionState.StaysInverseIff | src/tls/conn/cache.rs:55-99 | over any operations the indexes are inverse at every point exactly when no insert files an id that is filed under another key |
| SessionState.RemoveConsistent | src/tls/conn/cache.rs:87-99 | a removal takes the id out of both indexes and nothing else |
| SessionState.IndexesStayInverse | src/tls/conn/cache.rs:55-99 | after any operations in which each id has one key, the indexes are exact inverses and the queues within bounds |
| SessionState.RemoveTakes | src/tls/conn/cache.rs:87-99 | whatever the indexes say, a removal takes the id from the queue of the key it is filed under and from no other queue |
| SessionState.UsedOnceIff | src/tls/conn/cache.rs:71-85 | a TLS 1.3 session returned by `get` is never returned again, under any key and after any operations without a new insert of it, exactly when its id was filed under that key and stored under no other |
| SessionState.UsedOnceInRunsIff | src/tls/conn/cache.rs:55-99 | the same for every cache that any sequence of operations can reach |
| SessionState.Tls13SessionUsedOnce | src/tls/conn/cache.rs:55-99 | so it is used once if no earlier insert filed an id away from another key, whatever is done later |
| SessionState.SameIdUnderTwoKeys | src/tls/conn/cache.rs:55-99 | with one id under two keys `get` returns the same TLS 1.3 session for ever |
| SessionCache.SessionCache.Insert | src/tls/conn/cache.rs:55-69 | the two maps are updated as `Insert` says |
| SessionCache.SessionCache.Get | src/tls/conn/cache.rs:71-85 | the result and the maps are as `Get` says |
| SessionCache.SessionCache.Remove | src/tls/conn/cache.rs:87-99 | the two maps are updated as `Remove` says |
| BufList.BufList.Push | src/core/common/buf.rs:18-21 | appends to the content and keeps every buffer non-empty |
| BufList.BufList.Remaining | src/core/common/buf.rs:31-33 | the length of the content |
| BufList.BufList.Chunk | src/core/common/buf.rs:36-38 | a prefix of the content, empty only at its end |
| BufList.BufList.Advance | src/core/common/buf.rs:41-56 | drops exactly that many bytes and keeps every buffer non-empty |
| BufList.BufList.ChunksVectored | src/core/common/buf.rs:59-71 | slices that are a prefix of the content, and all of it when a slot is left over, for inner buffers that fill any number of slots; none is empty if the inner buffers give no empty ones |
| BufList.BufList.CopyToBytes | src/core/common/buf.rs:74-91 | all three paths return the first bytes and leave the rest |
| Watch.RunKeepsInv | src/core/common/watch.rs:50-68 | every interleaving of swap, wake, register and load keeps the wakeup invariant |
| Watch.NoWakeupIsLost | src/core/common/watch.rs:50-68 | a parked task whose value is out of date has been woken or is about to be, also on close |
| Watch.LoadSeesLastSent | src/core/common/watch.rs:65-68 | in every run a load sees the value sent last, or the reserved one after a close |
| Watch.WakesIffChanged | src/core/common/watch.rs:51-55 | a send wakes the receiver exactly if it changes the value and the receiver has registered |
| Watch.Shared.Send | src/core/common/watch.rs:51-55 | a send is a swap, and a wake when the value changed |
| Watch.Shared.Load | src/core/common/watch.rs:65-68 | a load is a registration and then a read |
| ContentLength.DecimalGrows | src/core/headers.rs:72-75 | a prefix of a digit string never has a greater value, so a step that overflows decides the whole |
| ContentLength.FromDigits | src/core/headers.rs:59-84 | a number exactly for a non-empty digit string whose decimal value is below 2^64 |
| ContentLength.WrittenLengthIsRead | src/core/headers.rs:32-84 | every length below 2^64, written in decimal digits, is read back |
| ContentLength.SplitThenJoin | src/core/headers.rs:40 | splitting at commas loses nothing and leaves no comma |
| ContentLength.TrimTakesSpaces | src/core/headers.rs:41 | trimming takes the spaces off both ends, all of them and nothing else |
| ContentLength.ParseAll | src/core/headers.rs:32-57 | n exactly when there is a line and every item of every line is a number equal to n |

## Left out

- Sockets, DNS, TLS handshakes, SOCKS, WebSocket framing, JSON, decompression and the runtime adapters: I/O or thin wrappers over libraries.
- The HTTP/1 and HTTP/2 protocol engines: the connection task is any party that takes a request with its callback and later answers or drops it.
- Builders and configuration: only field setters.
- Header ordering (`sort_headers`) and proxy choice: the code makes no promise about them.
- A pool that is disabled, and a pool dropped while connections are out: no shared state is left to speak of.
- The LRU map, the one-shot and unbounded channels, the want signal, the waker cell and the linked hash set are libraries: each of their operations is one atomic step with its documented effect.
- `Callback::NoRetry` is never constructed; only `Callback::Retry` is modelled.
- `Connecting` and `Pooled` are not classes of their own: their fields are kept by `PoolRun.World`, and their drop handlers are events.
- The choice between `name="..."` and `name*=utf-8''...` is made inside the percent-encoding crate: it is a parameter of each part, and the results hold for both.
- Redirect.EveryRequestIsExpected: says nothing about Referer, nor about Cookie when a cookie store is set; `Redirect.NextHeaders` says what they are from one request to the next, where earlier values may be kept or appended to.
- Redirect.SendsAreBounded: does not cover custom redirect policies, which may follow for ever.
- Multipart.ComputeLength: speaks of parts whose declared lengths are true; the code trusts the caller for that.
- Body streams are whole byte strings; how they are cut into chunks is not modelled.
