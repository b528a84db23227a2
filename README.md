# The UDF bridge client, modelled in Dafny

TDengine runs user-defined functions (UDFs) in a separate worker process, `udfd`. A query
thread reaches it through the client side of the bridge in
`source/libs/function/src/tudf.c`. A blocking call (`setupUdf`, `callUdf`, `teardownUdf`)
turns into one or more *bridge tasks*. The caller appends each task to a submit queue
and waits on the task's semaphore. A reactor thread drains that queue and moves each
task to an in-flight queue. It then connects a pipe, writes a request frame or closes
the pipe, and finally wakes the caller with the result: the response frame (which the
caller decodes itself), the bridge's own error code, or the code a stop or restart sweep gives it.

This project models that client and proves what it promises:

- `wire.dfy` (module `Wire`): the little-endian two's-complement stores and loads the
  C code does through pointer casts (`*(int32_t *) buf = ...`). It proves both round trips.
- `codec.dfy` (module `UdfCodec`): the frame codec (`encodeRequest`, `decodeRequest`,
  `encodeResponse`, `decodeResponse`).
  - A request is `[msgLen:i32][seqNum:i64][type:i8]` followed by its payload. A response
    adds `[code:i32]` after the type.
  - Decoding checks the leading `msgLen` against the buffer length, then checks that the
    fields end exactly there.
  - It proves that decoding an encoding gives back every field, empty paths, inputs and
    states included. It also proves that every frame that decodes is exactly the encoding
    of what it decodes to.
- `conn.dfy` (module `Reassembly`): one pipe connection, as a class. It has the
  read buffer `len`/`cap`/`total` that reassembles a frame from the byte stream (12
  bytes first, then grown to the announced `msgLen`), and the queue of tasks waiting
  there for their reply. A complete frame goes to the first waiting task with its
  sequence number. It also models the source's scan loop as written, which never
  finishes when two waiting tasks share the sequence number.
- `queue.dfy` (module `IntrusiveQueue`): the intrusive circular doubly-linked `QUEUE`
  macros, as a class of `next`/`prev` maps. Each macro is proved to turn the list,
  read as a sequence of members, into the expected sequence. `DrainSubmitted` runs
  the reactor's drain on the links themselves.
- `client.dfy` (module `UdfClientState`): the client's runtime state as a class. It holds
  - the lifecycle state `gUdfcState`;
  - the sequence-number counter;
  - the submit queue and in-flight queue, as sequences of task ids;
  - the task records.

  Each reactor callback is a method that keeps one invariant: every queued task exists
  and is still waiting, no list holds a task twice, no task is in both lists, and
  request sequence numbers are below the counter and pairwise distinct (in this
  sequential model; the source's unlocked increment can repeat one). The sweep of
  `cleanUpUvTasks` is specified by `SweepAll`, and the lifecycle by the transition
  function `NextState`.
- `api.dfy` (module `UdfApi`): how a finished task's result is read
  (`udfcGetUvTaskResponseResult`), and the three blocking calls. Each call is a function
  of the finished task records the reactor hands back.
- `catalog.dfy` (module `CatalogFlags`): the catalog's table-type flag macros in
  `source/libs/catalog/inc/catalogInt.h`, on `bv32`.

Threads, the mutex, the semaphores and libuv are not modelled. Submission, the drain and
each completion callback are method calls made one after the other, and waking a task
sets its `released` flag.

Two behaviours of the source worth knowing:

- `queueUvUdfTask` queues a task whatever state the client is in; it does not refuse
  work when the client is not ready.
- `udfcUvHandleRsp` returns before resetting the read buffer when no task waits on the
  connection; it does not reset the buffer in every case.

## Model

| member | source | states |
|---|---|---|
| Wire.EncodeI32 | source/libs/function/src/tudf.c:289-290 | the 4 stored bytes load back as the same int32 (`msgLen` at offset 0) |
| Wire.DecodeI32 | source/libs/function/src/tudf.c:299 | the int32 loaded from 4 bytes is the one whose store gives exactly those bytes |
| Wire.EncodeI64 | source/libs/function/src/tudf.c:241-242 | the 8 stored bytes of `seqNum` load back as the same int64 |
| Wire.DecodeI64 | source/libs/function/src/tudf.c:308 | the int64 loaded from 8 bytes is the one whose store gives exactly those bytes |
| Wire.DecodeEncodeInt | source/libs/function/src/tudf.c:241-244 | loading a stored signed value of any width gives it back |
| Wire.EncodeDecodeInt | source/libs/function/src/tudf.c:306-311 | storing a loaded signed value gives back the same bytes |
| UdfCodec.EncodeRequest | source/libs/function/src/tudf.c:211-295 | the frame is 13 bytes plus the payload size, and its leading `msgLen` equals its length |
| UdfCodec.DecodeRequestBody | source/libs/function/src/tudf.c:313-366 | a decoded payload has the type that was asked for and uses up the bytes exactly |
| UdfCodec.DecodeRequest | source/libs/function/src/tudf.c:297-369 | decoding succeeds only when the leading `msgLen` equals the buffer length, and the request's type is the type byte |
| UdfCodec.SetupBodyRoundTrip | source/libs/function/src/tudf.c:247-260 | a setup payload (name, script type, udf type, `pathSize`, path) decodes back to itself |
| UdfCodec.CallBodyRoundTrip | source/libs/function/src/tudf.c:262-277 | a call payload (handle, step, input and state with their lengths) decodes back to itself |
| UdfCodec.RequestBodyRoundTrip | source/libs/function/src/tudf.c:246-287 | every payload decodes back to itself under its own type byte |
| UdfCodec.RequestRoundTrip | source/libs/function/src/tudf.c:211-369 | every encodable request, zero-length path, input and state included, decodes back to its seqNum, type and every field |
| UdfCodec.CallBodyCanonical | source/libs/function/src/tudf.c:331-349 | a call payload that decodes is exactly the encoding of what it decodes to |
| UdfCodec.RequestBodyCanonical | source/libs/function/src/tudf.c:313-360 | any payload that decodes is encodable and re-encodes to the same bytes |
| UdfCodec.RequestDecodeCanonical | source/libs/function/src/tudf.c:297-369 | a request frame that decodes is exactly the encoding of the request it decodes to |
| UdfCodec.EncodeResponse | source/libs/function/src/tudf.c:371-439 | the frame is 17 bytes plus the payload size, and its leading `msgLen` equals its length |
| UdfCodec.DecodeResponseBody | source/libs/function/src/tudf.c:459-497 | a decoded response payload has the asked-for type and uses up the bytes exactly |
| UdfCodec.DecodeResponse | source/libs/function/src/tudf.c:441-500 | decoding succeeds only when `msgLen` equals the buffer length, and the response's type is the type byte |
| UdfCodec.ResponseBodyRoundTrip | source/libs/function/src/tudf.c:407-433 | every response payload decodes back to itself |
| UdfCodec.ResponseRoundTrip | source/libs/function/src/tudf.c:371-500 | every response, zero-length output and state included, decodes back to its seqNum, type, code and payload |
| UdfCodec.ResponseBodyCanonical | source/libs/function/src/tudf.c:459-491 | a response payload that decodes re-encodes to the same bytes |
| UdfCodec.ResponseDecodeCanonical | source/libs/function/src/tudf.c:441-500 | a response frame that decodes is exactly the encoding of what it decodes to |
| UdfCodec.TeardownResponseIsHeaderOnly | source/libs/function/src/tudf.c:427-430 | a teardown response has an empty payload: its frame is the 17-byte header |
| Reassembly.FirstMatch | source/libs/function/src/tudf.c:618-636 | the result is the position of the first waiting task with the sequence number, and None exactly when no task has it |
| Reassembly.RemoveAt | source/libs/function/src/tudf.c:107-112 | the queue loses the one entry and keeps the others in order |
| Reassembly.ClientConn.constructor | source/libs/function/src/tudf.c:764-770 | a new connection has no buffer, `total` unknown (-1) and no waiting task |
| Reassembly.ClientConn.AllocateBuffer | source/libs/function/src/tudf.c:562-598 | the first allocation offers 12 bytes at offset 0 with `len` 0 and `total` -1; later ones set `cap` to the larger of `total` and `cap` and offer `cap - len` bytes at offset `len` |
| Reassembly.ClientConn.IsMsgComplete | source/libs/function/src/tudf.c:600-608 | `total` is taken from the first 4 bytes once there are 4; complete iff `len == cap == total`, so a complete frame has at least 12 bytes and its own length in `msgLen` |
| Reassembly.ClientConn.HandleRsp | source/libs/function/src/tudf.c:610-649 | the first waiting task with the frame's seqNum (offset 4) gets the frame and leaves the queue; with no match the frame is dropped; either way the buffer is reset, except that an empty queue returns early with the buffer kept |
| Reassembly.ClientConn.OnRead | source/libs/function/src/tudf.c:655-676 | 0 bytes or an error changes nothing here; otherwise the bytes are appended and `total` is read from the first 4 bytes once there are 4; an incomplete frame leaves the queue alone; a complete frame (its length equals its own `msgLen`) with no waiting task keeps the buffer; otherwise the buffer is reset and the first task with the frame's seqNum gets the frame and leaves the queue, or, with none, the frame is dropped and the queue kept |
| Reassembly.ClientConn.AddPending | source/libs/function/src/tudf.c:684 | the task joins the tail of the connection's queue |
| Reassembly.ClientConn.PipeCloseHead | source/libs/function/src/tudf.c:504-506 | the task at the head of the queue, if any |
| Reassembly.ScanStepAsWritten | source/libs/function/src/tudf.c:623-635 | one turn of the scan loop as written: on a second match it does not advance |
| Reassembly.StallInvariantKept | source/libs/function/src/tudf.c:623-635 | once a second matching task lies ahead, the as-written loop never passes it |
| Reassembly.DuplicateSeqNumHangs | source/libs/function/src/tudf.c:629-630 | with two waiting tasks sharing the frame's seqNum, the as-written loop has not reached the end of the queue after any number of turns |
| Reassembly.ScanAsWrittenUnique | source/libs/function/src/tudf.c:618-636 | with unique sequence numbers the as-written loop ends and finds the same task as FirstMatch |
| UdfClientState.SweepCode | source/libs/function/src/tudf.c:829-833 | the code is `UDFC_CODE_STOPPING` when stopping, `UDFC_CODE_RESTARTING` when restarting, and unchanged otherwise |
| UdfClientState.SweptTwice | source/libs/function/src/tudf.c:842-847 | sweeping a task twice in one state is the same as sweeping it once |
| UdfClientState.SweepAll | source/libs/function/src/tudf.c:818-849 | sweeping keeps the set of tasks |
| UdfClientState.SweepAllEffect | source/libs/function/src/tudf.c:825-835 | every listed task is swept once, however often it is listed, and every other task is unchanged |
| UdfClientState.SweepAllKeepsIdentity | source/libs/function/src/tudf.c:825-848 | no task changes kind or sequence number in a sweep |
| UdfClientState.TwoSweeps | source/libs/function/src/tudf.c:818-849 | after sweeping the submit queue and then the in-flight queue, every task in either is swept exactly once, the others are unchanged, and the set of tasks is the same |
| UdfClientState.SweepKeepsTasksValid | source/libs/function/src/tudf.c:818-849 | after both sweeps the queue invariant holds with both queues empty, and the sequence numbers stay below the counter and distinct |
| UdfClientState.NewTask | source/libs/function/src/tudf.c:705-740 | a new task has code 0, no response and is not woken; a request task carries its sequence number and a request frame that decodes to exactly that sequence number and request |
| UdfClientState.AddTaskKeepsSeqNums | source/libs/function/src/tudf.c:714 | a task that takes the counter's value keeps the request sequence numbers below the counter and pairwise distinct |
| UdfClientState.DrainStepKeepsQueues | source/libs/function/src/tudf.c:808-814 | moving the head of the drained list to the tail of the in-flight list keeps the queue invariant |
| UdfClientState.ReleaseKeepsQueues | source/libs/function/src/tudf.c:637-641 | waking a task and taking it off the in-flight list keeps the queue invariant |
| UdfClientState.SameIdentityKeepsSeqNums | source/libs/function/src/tudf.c:732 | changing task records without changing kind or sequence number keeps the sequence numbers valid |
| UdfClientState.Without | source/libs/function/src/tudf.c:107-112 | the list keeps exactly its members other than the removed task |
| UdfClientState.WithoutKeepsNoDup | source/libs/function/src/tudf.c:107-112 | removing a task from a list with no duplicates leaves a list with no duplicates |
| UdfClientState.NextStateCases | source/libs/function/src/tudf.c:858-940 | the `gUdfcState` transitions: only startUdfService reaches READY, only stopUdfService reaches FINAL (which a worker exit then keeps), only a worker exit reaches RESTARTING, and a worker exit outside READY changes nothing |
| UdfClientState.OnlyStartReachesReady | source/libs/function/src/tudf.c:867-872 | from any state but READY, no sequence of stops and worker exits reaches READY: nothing leads from RESTARTING back to READY |
| UdfClientState.StopIsFinal | source/libs/function/src/tudf.c:921-940 | start then stop ends in FINAL, and later stops and worker exits leave it there |
| UdfClientState.FinalAbsorbs | source/libs/function/src/tudf.c:858-872 | in FINAL, stops and worker exits change nothing |
| UdfClientState.UdfClient.constructor | source/libs/function/src/tudf.c:192-209 | INITIAL, counter 0, both queues empty, no task |
| UdfClientState.UdfClient.StartUdfd | source/libs/function/src/tudf.c:876-901 | the worker is spawned once more |
| UdfClientState.UdfClient.ConstructUdfService | source/libs/function/src/tudf.c:903-918 | the loop runs, the worker is spawned, both queues are (re)initialised empty; tasks, counters, started list and kill flag unchanged |
| UdfClientState.UdfClient.StartUdfService | source/libs/function/src/tudf.c:921-927 | STARTING then READY (the StartService transition), with the reactor initialised; tasks, counters, started list and kill flag unchanged |
| UdfClientState.UdfClient.CreateUvTask | source/libs/function/src/tudf.c:705-740 | a fresh task is added as NewTask describes; only a request task takes the counter, which goes up by one; the invariant is kept |
| UdfClientState.UdfClient.QueueUvTask | source/libs/function/src/tudf.c:742-754 | the task joins the tail of the submit queue, whatever the client state |
| UdfClientState.UdfClient.UdfClientAsyncCb | source/libs/function/src/tudf.c:801-816 | the whole submit queue is taken at once, its tasks are started in submission order and appended in that order to the in-flight queue, and the submit queue is left empty |
| UdfClientState.UdfClient.OnClientConnect | source/libs/function/src/tudf.c:693-703 | the connect status becomes the task's code, the task is woken and leaves the in-flight queue |
| UdfClientState.UdfClient.OnClientWrite | source/libs/function/src/tudf.c:678-691 | the request frame is freed; the task waits for a reply iff the write succeeded |
| UdfClientState.UdfClient.OnUdfcWrite | source/libs/function/src/tudf.c:678-691 | after a successful write the task joins its connection's queue with its sequence number; after a failed one the queue is unchanged |
| UdfClientState.UdfClient.StartDisconnect | source/libs/function/src/tudf.c:787-792 | a disconnect task joins the tail of its connection's queue before the close |
| UdfClientState.UdfClient.DeliverResponse | source/libs/function/src/tudf.c:637-641 | the task gets the frame, is woken and leaves the in-flight queue |
| UdfClientState.UdfClient.OnUdfcRead | source/libs/function/src/tudf.c:655-676 | the connection's buffer and queue change exactly as OnRead says (append, `total`, keep on no waiter, reset and first-match delivery or drop); a delivered frame goes to its task, which is woken and leaves the in-flight queue; any other read changes no task |
| UdfClientState.UdfClient.OnUdfcPipeClose | source/libs/function/src/tudf.c:502-516 | only the task at the head of the closed connection's queue is woken, and with code 0 whatever closed the pipe |
| UdfClientState.UdfClient.SweepSubmitQueue | source/libs/function/src/tudf.c:819-835 | the submit queue is emptied and its tasks are swept in order |
| UdfClientState.UdfClient.SweepProcQueue | source/libs/function/src/tudf.c:837-848 | the in-flight queue is emptied and its tasks are swept in order |
| UdfClientState.UdfClient.CleanUpUvTasks | source/libs/function/src/tudf.c:818-849 | both queues end empty and the tasks are the two sweeps of TwoSweeps; the invariant is kept |
| UdfClientState.UdfClient.UdfStopAsyncCb | source/libs/function/src/tudf.c:851-856 | every queued or in-flight task is swept, every other task is unchanged, the set of tasks is kept, both queues are empty, and the loop stops iff the client is stopping |
| UdfClientState.UdfClient.StopUdfService | source/libs/function/src/tudf.c:929-940 | SIGINT is sent, every queued or in-flight task is woken with `UDFC_CODE_STOPPING`, every other task is unchanged, the loop stops, the state ends FINAL, and the counters, spawn count and started list are unchanged |
| UdfClientState.UdfClient.OnUdfdExit | source/libs/function/src/tudf.c:858-874 | in READY: RESTARTING, every queued or in-flight task is woken with `UDFC_CODE_RESTARTING`, every other task is unchanged, and the worker is respawned; in any other state nothing changes and there is no respawn; the counters, the kill flag and the loop flag never change |
| UdfApi.GetUvTaskResponseResult | source/libs/function/src/tudf.c:518-560 | without a frame, or for a connect or disconnect task, the result is the bridge error code; a payload read comes from a frame that decodes, with the frame's code and the task's type |
| UdfApi.ResultOfEncodedResponse | source/libs/function/src/tudf.c:520-545 | a task whose frame encodes a response of its type ends with that response's code and payload |
| UdfApi.ResultFromEncodedResponse | source/libs/function/src/tudf.c:520-545 | conversely, a payload read came from a frame that is exactly the encoding of a valid response with that code |
| UdfApi.ShortFrameResultUndefined | source/libs/function/src/tudf.c:522-524 | a 12-byte frame with a correct `msgLen` passes the reassembly, but the result read from it is undefined, because the decode result is ignored |
| UdfApi.SetupRequest | source/libs/function/src/tudf.c:963-968 | the setup request carries the name, and the path with its terminating zero (`pathSize` is `strlen + 1`) |
| UdfApi.SetupUdf | source/libs/function/src/tudf.c:956-984 | a failed connect returns -1 with no session; otherwise the setup task's code is returned and the session holds the handle of the setup response |
| UdfApi.SetupSkipsRequestAfterFailedConnect | source/libs/function/src/tudf.c:970-974 | after a failed connect the setup task plays no part in the result |
| UdfApi.SetupUdfReturnsWorkerHandle | source/libs/function/src/tudf.c:976-983 | a setup answered with handle h returns the response code and a session holding h |
| UdfApi.CallRequest | source/libs/function/src/tudf.c:995-1002 | the call request is encodable and carries the session's handle (whatever the field held when no setup response set it), the step, the input and the state |
| UdfApi.CallUdf | source/libs/function/src/tudf.c:986-1014 | the task's code is returned, with the call response's output and new state when one was read |
| UdfApi.CallUdfReturnsOutput | source/libs/function/src/tudf.c:1004-1013 | a call answered with a call response returns its code, output and new state |
| UdfApi.TeardownRequest | source/libs/function/src/tudf.c:1024-1025 | the teardown request is encodable and carries the session's handle, set or not |
| UdfApi.TeardownUdf | source/libs/function/src/tudf.c:1016-1040 | the teardown task's code is returned |
| UdfApi.TeardownIgnoresDisconnect | source/libs/function/src/tudf.c:1032-1034 | the disconnect's outcome never changes what teardownUdf returns |
| UdfApi.TeardownAfterSweepOrClose | source/libs/function/src/tudf.c:502-510 | a teardown swept by a stop or a restart returns the sweep code; one whose pipe closed before the answer returns 0, as if it had succeeded |
| IntrusiveQueue.QueueLinks.Init | source/libs/function/src/tudf.c:51-56 | the head becomes an empty list |
| IntrusiveQueue.QueueLinks.IsEmpty | source/libs/function/src/tudf.c:45-46 | true iff the list has no member |
| IntrusiveQueue.QueueLinks.Head | source/libs/function/src/tudf.c:48-49 | the first member |
| IntrusiveQueue.QueueLinks.InsertTail | source/libs/function/src/tudf.c:98-105 | the list gains q after its last member; only q, the old last member and the head change links |
| IntrusiveQueue.QueueLinks.InsertHead | source/libs/function/src/tudf.c:89-96 | q becomes the first member; only q, the old first member and the head change links |
| IntrusiveQueue.QueueLinks.Remove | source/libs/function/src/tudf.c:107-112 | the member is unlinked, the rest keep their order, and only its two neighbours change |
| IntrusiveQueue.QueueLinks.Move | source/libs/function/src/tudf.c:67-87 | every member moves, in order, to the new head, the old head is left empty, and no other node changes |
| IntrusiveQueue.QueueLinks.Add | source/libs/function/src/tudf.c:58-65 | the members of n are appended, in order, to h; exactly four links change (h's last member's `next`, n's last member's `next`, n's first member's `prev`, h's `prev`), and n keeps its stale links |
| IntrusiveQueue.DrainSubmitted | source/libs/function/src/tudf.c:801-815 | on the links themselves, the submit list ends empty and the in-flight list ends with its own members followed by the submitted ones in order |
| IntrusiveQueue.NeighboursOf | source/libs/function/src/tudf.c:30-33 | a member's `prev` and `next` are its neighbours in the ring |
| IntrusiveQueue.InsertTailShape | source/libs/function/src/tudf.c:98-105 | the four pointer writes of `QUEUE_INSERT_TAIL` yield the list with q appended |
| IntrusiveQueue.InsertHeadShape | source/libs/function/src/tudf.c:89-96 | the four pointer writes of `QUEUE_INSERT_HEAD` yield the list with q in front |
| IntrusiveQueue.RemoveShape | source/libs/function/src/tudf.c:107-112 | the two pointer writes of `QUEUE_REMOVE` yield the list without the member |
| IntrusiveQueue.MoveShape | source/libs/function/src/tudf.c:67-76 | the pointer writes of `QUEUE_SPLIT` at the first member leave h empty and n holding all the members |
| IntrusiveQueue.AddShape | source/libs/function/src/tudf.c:58-65 | the pointer writes of `QUEUE_ADD` yield the concatenation |
| CatalogFlags.FlagSet | source/libs/catalog/inc/catalogInt.h:405 | the bits of v are set, and every other bit is as before |
| CatalogFlags.TestsAreWholeBits | source/libs/catalog/inc/catalogInt.h:406-411 | each `CTG_FLAG_IS_*` test holds exactly when its whole bit is set |
| CatalogFlags.FlagsAreDistinctBits | source/libs/catalog/inc/catalogInt.h:399-403 | the five flags are pairwise disjoint single bits |
| CatalogFlags.SetLeavesOtherTests | source/libs/catalog/inc/catalogInt.h:405-411 | setting one flag leaves the `CTG_FLAG_IS_*` tests of the other four unchanged |
| CatalogFlags.SetSysDb | source/libs/catalog/inc/catalogInt.h:412 | the system-database test holds afterwards, and every other bit is unchanged |
| CatalogFlags.SetSysDbIdempotent | source/libs/catalog/inc/catalogInt.h:412 | setting it twice is setting it once, and it changes nothing when already set |
| CatalogFlags.StbBitFor | source/libs/catalog/inc/catalogInt.h:413 | STB for the super-table type, NOT_STB for a larger type, UNKNOWN_STB for a smaller one |
| CatalogFlags.SetStb | source/libs/catalog/inc/catalogInt.h:413 | the bit for the table type is set, and every other bit is unchanged |
| CatalogFlags.MakeStb | source/libs/catalog/inc/catalogInt.h:414 | STB (0x1) for 1, NOT_STB (0x2) for 0, UNKNOWN_STB (0x4) otherwise |
| CatalogFlags.MatchStbCases | source/libs/catalog/inc/catalogInt.h:415 | a super table is accepted by the "unknown" or "is a super table" bit, any other table by "unknown" or "is not a super table"; a flag with none of the three accepts nothing |
| CatalogFlags.MatchMadeStb | source/libs/catalog/inc/catalogInt.h:414-415 | a made "yes" flag matches only super tables, "no" only the others, "unknown" everything |
| CatalogFlags.SetStbMatches | source/libs/catalog/inc/catalogInt.h:413-415 | a flag that recorded a table type matches that type |
| CatalogFlags.SetStbMatchesExactly | source/libs/catalog/inc/catalogInt.h:413-415 | after recording a type on a plain system-database flag, a flag matches exactly the tables of the same kind |
| CatalogFlags.IsSysDbName | source/libs/catalog/inc/catalogInt.h:417 | the test holds only for the information-schema and performance-schema names |
| CatalogFlags.SysDbNameExactly | source/libs/catalog/inc/catalogInt.h:417 | the test holds exactly for the information-schema and performance-schema names; the first-character shortcut rejects neither |
| CatalogFlags.MetaSize | source/libs/catalog/inc/catalogInt.h:419 | at least the table-meta size, plus one schema entry per tag and column |
| CatalogFlags.MetaSizeMonotone | source/libs/catalog/inc/catalogInt.h:419 | monotone in the tag and column counts, growing by one schema size per extra entry |

## Left out

- libuv I/O (pipe connect, write, read start, close, process spawn), threads, the
  mutex, the semaphores, the barrier and the async wake-ups: the model is a sequential
  interleaving of submission, drain and completion callbacks, and waking a task sets
  `released`.
- Allocation failures and debug logging.
- The path `startUdfd` builds with `uv_cwd`, and its spawn errors, which the source
  only logs. `StartUdfd` counts spawns.
- `udfcRunUvTask`, which copies the connect task's pipe into the session and frees
  the bridge task. The three calls take the finished task records as parameters.
- `QUEUE_DATA` and `QUEUE_FOREACH`: a node is a task id, so no container pointer has to
  be recovered.
- The cleanup sweep on the links themselves. The links version is `DrainSubmitted` for
  the drain; the cleanup loops are modelled on the sequence view of the same lists.
- Constants that come from headers that are not part of this model:
  - `UDF_TASK_SETUP`/`CALL`/`TEARDOWN` = 0/1/2;
  - `UDFC_CODE_STOPPING`/`RESTARTING` = -1/-2;
  - `TSDB_SUPER_TABLE` = 1;
  - the two system database names.

  `sizeof(STableMeta)` and `sizeof(SSchema)` are parameters of `MetaSize`.
- UdfClientState.UdfClient.CreateUvTask: requires the counter to be below 2^63 - 1, so
  the wrap-around of `gUdfTaskSeqNum++` past the int64 range is not modelled.
  Also, the counter is incremented on the calling query thread outside any lock
  (tudf.c:714; the only lock, at tudf.c:745-747, guards the queue insert), so concurrent
  callers can draw the same sequence number; SeqNumsBelow and AddTaskKeepsSeqNums hold
  only in the sequential model.
- UdfCodec.DecodeRequest: fails on every read beyond the buffer and on a negative
  embedded length. The C decoder moves its cursor by the embedded lengths unchecked and
  may read out of bounds, and it accepts a negative length when the cursor still ends
  at the frame's end: a call request whose `inputBytes` is -2 has its `stateBytes`
  field read two bytes early. The two agree on frames whose reads stay in bounds and
  whose embedded lengths are non-negative.
- UdfCodec.DecodeRequestBody: as for DecodeRequest, a negative `pathSize`,
  `inputBytes` or `stateBytes` is rejected, where the C decoder moves its cursor back.
- UdfCodec.DecodeResponseBody: a call response with a negative `outputBytes` or
  `newStateBytes` is rejected, where the C decoder (tudf.c:465-480) moves its cursor
  back and accepts the frame if the cursor ends at its end.
- UdfCodec.DecodeResponse: rejects the same call-response frames as
  DecodeResponseBody, which the C decoder accepts.
- UdfApi.SetupRequest: requires a path shorter than 32767 bytes, because `pathSize`
  (tudf.c:966) is an int16 and `strlen + 1` is truncated into it for longer paths; the
  truncation is not modelled. SetupUdf takes the same requirement through ValidUdfInfo.
- UdfApi.CallRequest: requires the frame to fit in the int32 `msgLen`; the source's
  length sum overflows for larger inputs and states, which is not modelled.
- UdfApi.GetUvTaskResponseResult: where the source reads memory that no response wrote
  (an undecodable frame, or a payload of another type than the task's), the result is
  `Undefined` rather than a value.
- UdfApi.CallUdf: the output and new-state pointers the source hands back point into a
  buffer it has already freed. The model returns the bytes.
- Callbacks that reach a task already woken. OnClientConnect, DeliverResponse,
  OnUdfcRead and OnUdfcPipeClose require their task to be in the client's records and
  not yet woken. In the source a swept task stays on its connection's queue (the sweep
  at tudf.c:818-849 does not touch that queue) and its caller frees it (tudf.c:951), so
  a later response or pipe close (tudf.c:502-510, 618-641) reaches freed memory. That
  use after free is not modelled.

## Findings

| source | as written | input that shows it | evidently intended | confidence | as-written member | corrected member |
|---|---|---|---|---|---|---|
| source/libs/function/src/tudf.c:629-630 | in the scan of the connection's waiting tasks, a second task with the frame's seqNum hits `continue` before `h` advances, so the loop spins on it forever | a connection queue holding two waiting tasks that share sequence number s, and a complete frame with seqNum s; such a queue arises from the unlocked `gUdfTaskSeqNum++` at tudf.c:714 (two query threads drawing the same value) or from its int64 wrap-around | first match wins: take the first task with the seqNum and keep scanning, or stop | not executed | Reassembly.DuplicateSeqNumHangs | Reassembly.ClientConn.HandleRsp |
