/**
 * The client side of the UDF bridge as one runtime object (source/libs/function/src/tudf.c):
 * the lifecycle state `gUdfcState`, the sequence-number counter `gUdfTaskSeqNum`, the
 * submit queue `gUdfTaskQueue` that caller threads append to, the reactor's in-flight
 * queue `gUvProcTaskQueue`, and the bridge tasks (SClientUvTaskNode) they hold.
 *
 * The C lists are intrusive and circular; here each list is a sequence of task ids and
 * the task nodes live in a map from id to record. Threads, the mutex, the semaphores
 * and libuv are not modelled: submission, the reactor's drain and each completion
 * callback are methods called one after the other, and posting a task's semaphore sets
 * its `released` flag. The libuv operation a drained task starts (pipe connect, write,
 * close) is recorded in `started`; its completion is the matching callback method.
 */
module UdfClientState {
  import opened Wire
  import opened UdfCodec
  import opened Reassembly

  /** UDFC_STATE_INITAL ... UDFC_STATUS_FINAL. */
  datatype UdfcState = Initial | Starting | Ready | Restarting | Stopping | Final

  /** UV_TASK_CONNECT, UV_TASK_REQ_RSP, UV_TASK_DISCONNECT. */
  datatype UvTaskKind = Connect | ReqRsp | Disconnect

  /** UDFC_CODE_STOPPING and UDFC_CODE_RESTARTING: the error a task swept by a stop or a
    * worker restart ends with. */
  const UdfcCodeStopping: int := -1
  const UdfcCodeRestarting: int := -2

  const MaxSeqNum: int := 0x7fff_ffff_ffff_ffff

  /** A bridge task: what the reactor works on for one blocking call. */
  datatype UvTask = UvTask(
    kind: UvTaskKind,
    seqNum: int,
    reqBuf: seq<byte>,
    errCode: int,
    rspBuf: Option<seq<byte>>,
    released: bool)

  /** The error code cleanUpUvTasks gives a task, by the state the client is in. */
  function SweepCode(s: UdfcState, errCode: int): (code: int)
    ensures s == Stopping ==> code == UdfcCodeStopping
    ensures s == Restarting ==> code == UdfcCodeRestarting
    ensures s != Stopping && s != Restarting ==> code == errCode
  {
    if s == Stopping then UdfcCodeStopping
    else if s == Restarting then UdfcCodeRestarting
    else errCode
  }

  /** A task after cleanUpUvTasks has set its code and posted its semaphore. */
  function Swept(t: UvTask, s: UdfcState): UvTask
  {
    t.(errCode := SweepCode(s, t.errCode), released := true)
  }

  /** Sweeping is idempotent: a task swept twice in one state is swept once. */
  lemma SweptTwice(t: UvTask, s: UdfcState)
    ensures Swept(Swept(t, s), s) == Swept(t, s)
  {
  }

  /** The tasks after cleanUpUvTasks has swept the tasks ids, in order. */
  function SweepAll(m: map<TaskId, UvTask>, ids: seq<TaskId>, s: UdfcState): (r: map<TaskId, UvTask>)
    ensures r.Keys == m.Keys
    decreases |ids|
  {
    if ids == [] then m
    else
      var r0 := SweepAll(m, ids[..|ids| - 1], s);
      var x := ids[|ids| - 1];
      if x in r0 then r0[x := Swept(r0[x], s)] else r0
  }

  /** Exactly the listed tasks are swept, each once whatever how often it is listed, and
    * every other task is left as it was. */
  lemma {:induction false} SweepAllEffect(m: map<TaskId, UvTask>, ids: seq<TaskId>, s: UdfcState)
    ensures forall id :: id in m && id in ids ==> SweepAll(m, ids, s)[id] == Swept(m[id], s)
    ensures forall id :: id in m && id !in ids ==> SweepAll(m, ids, s)[id] == m[id]
    decreases |ids|
  {
    if ids != [] {
      var init := ids[..|ids| - 1];
      var x := ids[|ids| - 1];
      SweepAllEffect(m, init, s);
      assert forall id :: id in ids <==> id in init || id == x by {
        assert ids == init + [x];
      }
      if x in m {
        SweptTwice(m[x], s);
      }
    }
  }

  /** Sweeping keeps every task's identity. */
  lemma SweepAllKeepsIdentity(m: map<TaskId, UvTask>, ids: seq<TaskId>, s: UdfcState)
    ensures forall id :: id in m ==> SameIdentity(SweepAll(m, ids, s)[id], m[id])
  {
    SweepAllEffect(m, ids, s);
  }

  /** cleanUpUvTasks sweeps the submit queue, then the in-flight list: every task in either
    * is swept once, the others are untouched, and no task changes identity. */
  lemma TwoSweeps(m: map<TaskId, UvTask>, a: seq<TaskId>, b: seq<TaskId>, s: UdfcState)
    ensures SweepAll(SweepAll(m, a, s), b, s).Keys == m.Keys
    ensures forall id :: id in m && (id in a || id in b) ==> SweepAll(SweepAll(m, a, s), b, s)[id] == Swept(m[id], s)
    ensures forall id :: id in m && id !in a && id !in b ==> SweepAll(SweepAll(m, a, s), b, s)[id] == m[id]
    ensures forall id :: id in m ==> SameIdentity(SweepAll(SweepAll(m, a, s), b, s)[id], m[id])
  {
    var middle := SweepAll(m, a, s);
    SweepAllEffect(m, a, s);
    SweepAllEffect(middle, b, s);
    forall id | id in m {
      SweptTwice(m[id], s);
    }
  }

  /** The task table's invariant: each task waits in at most one of the two queues, at
    * most once, and has not been woken yet; sequence numbers come from the counter, so
    * they are below it and pairwise distinct; ids come from their own counter. */
  ghost predicate TasksOk(tasks: map<TaskId, UvTask>, submit: seq<TaskId>, proc: seq<TaskId>, next: int, nextId: TaskId)
  {
    && QueuesOk(tasks, submit, proc)
    && SeqNumsBelow(tasks, next)
    && (forall id :: id in tasks ==> id < nextId)
  }

  /** After both sweeps the queues are empty, so the queue invariant holds trivially, and
    * the sequence numbers and ids the counters bound are unchanged. */
  lemma SweepKeepsTasksValid(m: map<TaskId, UvTask>, a: seq<TaskId>, b: seq<TaskId>, s: UdfcState, next: int, nextId: TaskId,
                             r: map<TaskId, UvTask>)
    requires TasksOk(m, a, b, next, nextId)
    requires r == SweepAll(SweepAll(m, a, s), b, s)
    ensures TasksOk(r, [], [], next, nextId)
  {
    TwoSweeps(m, a, b, s);
    SameIdentityKeepsSeqNums(m, r, next);
  }

  /** Two records of the same task: same kind and same sequence number. */
  predicate SameIdentity(t: UvTask, u: UvTask)
  {
    t.kind == u.kind && t.seqNum == u.seqNum
  }

  /** The task record createUdfcUvTask fills in: nothing sent or received yet, and for a
    * request/response task the sequence number and the encoded request frame. */
  function NewTask(kind: UvTaskKind, seqNum: int, body: RequestBody): (t: UvTask)
    requires kind == ReqRsp ==> ValidRequest(Request(0, body)) && 0 <= seqNum <= MaxSeqNum
    ensures t.kind == kind && t.errCode == 0 && t.rspBuf == None && !t.released
    ensures kind == ReqRsp ==> t.seqNum == seqNum && DecodeRequest(t.reqBuf) == Some(Request(seqNum, body))
    ensures kind != ReqRsp ==> t.reqBuf == []
  {
    if kind == ReqRsp then
      var request := Request(seqNum, body);
      RequestRoundTrip(request);
      UvTask(kind, seqNum, EncodeRequest(request), 0, None, false)
    else
      UvTask(kind, 0, [], 0, None, false)
  }

  /** Sequence numbers below the counter and pairwise distinct among request tasks. */
  ghost predicate SeqNumsBelow(tasks: map<TaskId, UvTask>, next: int)
  {
    && (forall id :: id in tasks && tasks[id].kind == ReqRsp ==> 0 <= tasks[id].seqNum < next)
    && (forall a, b :: a in tasks && b in tasks && a != b && tasks[a].kind == ReqRsp && tasks[b].kind == ReqRsp
          ==> tasks[a].seqNum != tasks[b].seqNum)
  }

  /** A new task that takes the counter's value keeps the sequence numbers distinct. */
  lemma AddTaskKeepsSeqNums(tasks: map<TaskId, UvTask>, id: TaskId, t: UvTask, next: int)
    requires id !in tasks
    requires SeqNumsBelow(tasks, if t.kind == ReqRsp then next - 1 else next)
    requires t.kind == ReqRsp ==> t.seqNum == next - 1 && 0 <= t.seqNum
    ensures SeqNumsBelow(tasks[id := t], next)
  {
    var m := tasks[id := t];
    forall a, b | a in m && b in m && a != b && m[a].kind == ReqRsp && m[b].kind == ReqRsp
      ensures m[a].seqNum != m[b].seqNum
    {
      if a != id && b != id {
        assert m[a] == tasks[a] && m[b] == tasks[b];
      }
    }
  }

  /** The queue invariant on values: every queued task exists and is still waiting, no
    * list holds a task twice, and no task is in both. */
  ghost predicate QueuesOk(tasks: map<TaskId, UvTask>, submit: seq<TaskId>, proc: seq<TaskId>)
  {
    && (forall id :: id in submit ==> id in tasks && !tasks[id].released)
    && (forall id :: id in proc ==> id in tasks && !tasks[id].released)
    && NoDup(submit) && NoDup(proc)
    && (forall id :: id in submit ==> id !in proc)
  }

  /** Taking the head of the drained list and appending it to the in-flight list keeps
    * the queue invariant. */
  lemma DrainStepKeepsQueues(tasks: map<TaskId, UvTask>, wq: seq<TaskId>, proc: seq<TaskId>)
    requires QueuesOk(tasks, wq, proc) && wq != []
    ensures QueuesOk(tasks, wq[1..], proc + [wq[0]])
  {
    NoDupTail(wq);
    NoDupSnoc(proc, wq[0]);
    assert forall x :: x in wq[1..] ==> x in wq;
  }

  /** Waking a task that is not in the submit queue and taking it out of the in-flight
    * list keeps the queue invariant. */
  lemma ReleaseKeepsQueues(tasks: map<TaskId, UvTask>, submit: seq<TaskId>, proc: seq<TaskId>, id: TaskId, t: UvTask)
    requires QueuesOk(tasks, submit, proc) && id in tasks && id !in submit
    ensures QueuesOk(tasks[id := t], submit, Without(proc, id))
  {
    WithoutKeepsNoDup(proc, id);
  }

  /** Changing a task's record without changing its kind or sequence number keeps the
    * sequence numbers below the counter and distinct. */
  lemma SameIdentityKeepsSeqNums(before: map<TaskId, UvTask>, after: map<TaskId, UvTask>, next: int)
    requires SeqNumsBelow(before, next) && after.Keys == before.Keys
    requires forall id :: id in after ==> SameIdentity(after[id], before[id])
    ensures SeqNumsBelow(after, next)
  {
  }

  predicate NoDup(q: seq<TaskId>)
  {
    forall i, j :: 0 <= i < j < |q| ==> q[i] != q[j]
  }

  /** q with id taken out (QUEUE_REMOVE on a list that holds each task at most once). */
  function Without(q: seq<TaskId>, id: TaskId): (r: seq<TaskId>)
    ensures forall x :: x in r <==> x in q && x != id
  {
    if q == [] then []
    else if q[0] == id then Without(q[1..], id)
    else [q[0]] + Without(q[1..], id)
  }

  lemma NoDupTail(q: seq<TaskId>)
    requires NoDup(q) && q != []
    ensures NoDup(q[1..]) && q[0] !in q[1..]
  {
    forall i, j | 0 <= i < j < |q[1..]| ensures q[1..][i] != q[1..][j] {
      assert q[1..][i] == q[i + 1] && q[1..][j] == q[j + 1];
    }
  }

  lemma NoDupCons(x: TaskId, q: seq<TaskId>)
    requires NoDup(q) && x !in q
    ensures NoDup([x] + q)
  {
    forall i, j | 0 <= i < j < |[x] + q| ensures ([x] + q)[i] != ([x] + q)[j] {
      assert ([x] + q)[j] == q[j - 1];
      if i > 0 {
        assert ([x] + q)[i] == q[i - 1];
      }
    }
  }

  lemma NoDupSnoc(q: seq<TaskId>, x: TaskId)
    requires NoDup(q) && x !in q
    ensures NoDup(q + [x])
  {
    forall i, j | 0 <= i < j < |q + [x]| ensures (q + [x])[i] != (q + [x])[j] {
      assert (q + [x])[i] == q[i];
    }
  }

  /** Taking a task out of a list that holds no task twice leaves such a list. */
  lemma {:induction false} WithoutKeepsNoDup(q: seq<TaskId>, id: TaskId)
    requires NoDup(q)
    ensures NoDup(Without(q, id))
    decreases |q|
  {
    if q != [] {
      NoDupTail(q);
      WithoutKeepsNoDup(q[1..], id);
      if q[0] != id {
        NoDupCons(q[0], Without(q[1..], id));
      }
    }
  }

  // ----- the lifecycle as a transition function -----

  /** What moves gUdfcState: startUdfService, stopUdfService, and the worker's exit. */
  datatype ClientEvent = StartService | StopService | WorkerExit

  /** The state after a whole call of the operation behind e. startUdfService passes
    * through Starting and stopUdfService through Stopping on the way. */
  function NextState(s: UdfcState, e: ClientEvent): UdfcState
  {
    match e
    case StartService => Ready
    case StopService => Final
    case WorkerExit => if s == Ready then Restarting else s
  }

  /** Which events lead where: only a start reaches Ready, only a stop reaches Final (or
    * a worker exit once there), only a worker exit reaches Restarting, and a worker exit
    * outside Ready changes nothing. */
  lemma NextStateCases(s: UdfcState, e: ClientEvent)
    ensures NextState(s, e) == Ready <==> e == StartService
    ensures NextState(s, e) == Final <==> e == StopService || (e == WorkerExit && s == Final)
    ensures NextState(s, e) == Restarting <==> e == WorkerExit && (s == Ready || s == Restarting)
    ensures e == WorkerExit && s != Ready ==> NextState(s, e) == s
  {
  }

  function RunEvents(s: UdfcState, es: seq<ClientEvent>): UdfcState
    decreases |es|
  {
    if es == [] then s else RunEvents(NextState(s, es[0]), es[1..])
  }

  /** Once the client has left Ready, only a new startUdfService brings it back: in
    * particular nothing moves it from Restarting to Ready after a worker restart. */
  lemma {:induction false} OnlyStartReachesReady(s: UdfcState, es: seq<ClientEvent>)
    requires s != Ready
    requires StartService !in es
    ensures RunEvents(s, es) != Ready
    decreases |es|
  {
    if es != [] {
      assert es[0] != StartService;
      assert StartService !in es[1..] by {
        forall k | 0 <= k < |es[1..]| ensures es[1..][k] != StartService {
          assert es[1..][k] == es[k + 1];
        }
      }
      OnlyStartReachesReady(NextState(s, es[0]), es[1..]);
    }
  }

  /** Start then stop ends in Final, and a worker that exits afterwards changes nothing. */
  lemma {:induction false} StopIsFinal(es: seq<ClientEvent>)
    requires StartService !in es
    ensures RunEvents(RunEvents(Initial, [StartService, StopService]), es) == Final
  {
    assert RunEvents(Initial, [StartService, StopService]) == Final by {
      assert [StartService, StopService][1..] == [StopService];
      assert [StopService][1..] == [];
    }
    FinalAbsorbs(es);
  }

  lemma {:induction false} FinalAbsorbs(es: seq<ClientEvent>)
    requires StartService !in es
    ensures RunEvents(Final, es) == Final
    decreases |es|
  {
    if es != [] {
      assert es[0] != StartService;
      assert StartService !in es[1..] by {
        forall k | 0 <= k < |es[1..]| ensures es[1..][k] != StartService {
          assert es[1..][k] == es[k + 1];
        }
      }
      FinalAbsorbs(es[1..]);
    }
  }

  class UdfClient {
    var state: UdfcState
    /** gUdfTaskSeqNum: the sequence number the next request gets. */
    var nextSeqNum: int
    var tasks: map<TaskId, UvTask>
    var nextId: TaskId
    /** gUdfTaskQueue: tasks submitted by callers and not yet taken by the reactor. */
    var submitQueue: seq<TaskId>
    /** gUvProcTaskQueue: tasks the reactor has started and not yet resolved. */
    var procQueue: seq<TaskId>
    /** The libuv operations the reactor started (startUvUdfTask), in order. */
    var started: seq<TaskId>
    /** How many times the worker was spawned (startUdfd). */
    var spawns: nat
    var killSent: bool
    var loopRunning: bool

    ghost predicate Valid()
      reads this
    {
      && 0 <= nextSeqNum <= MaxSeqNum
      && TasksOk(tasks, submitQueue, procQueue, nextSeqNum, nextId)
    }

    /** The process image before startUdfService: state INITIAL, counter 0, no tasks. */
    constructor ()
      ensures Valid()
      ensures state == Initial && nextSeqNum == 0 && tasks == map[] && submitQueue == [] && procQueue == []
      ensures started == [] && spawns == 0 && !killSent && !loopRunning
    {
      state := Initial;
      nextSeqNum := 0;
      tasks := map[];
      nextId := 0;
      submitQueue, procQueue, started := [], [], [];
      spawns := 0;
      killSent, loopRunning := false, false;
    }

    /** startUdfd: spawns the worker. A spawn error is only logged by the source. */
    method StartUdfd()
      modifies this`spawns
      ensures spawns == old(spawns) + 1
    {
      spawns := spawns + 1;
    }

    /** constructUdfService, up to running the loop: the reactor's initialisation, which
      * spawns the worker and (re)initialises both queues. */
    method ConstructUdfService()
      requires Valid() && state == Starting
      modifies this`loopRunning, this`spawns, this`submitQueue, this`procQueue
      ensures Valid()
      ensures state == Starting && loopRunning && spawns == old(spawns) + 1
      ensures submitQueue == [] && procQueue == []
      ensures tasks == old(tasks) && nextSeqNum == old(nextSeqNum) && started == old(started)
      ensures killSent == old(killSent) && nextId == old(nextId)
    {
      loopRunning := true;
      StartUdfd();
      submitQueue := [];
      procQueue := [];
    }

    /** startUdfService: STARTING, wait until the reactor is initialised, then READY. */
    method StartUdfService()
      requires Valid()
      modifies this`state, this`loopRunning, this`spawns, this`submitQueue, this`procQueue
      ensures Valid()
      ensures state == NextState(old(state), StartService) && state == Ready
      ensures loopRunning && spawns == old(spawns) + 1 && submitQueue == [] && procQueue == []
      ensures tasks == old(tasks) && nextSeqNum == old(nextSeqNum)
      ensures killSent == old(killSent) && started == old(started) && nextId == old(nextId)
    {
      state := Starting;
      ConstructUdfService();
      state := Ready;
    }

    /** createUdfcUvTask: a new bridge task. A request/response task takes the next
      * sequence number and carries its encoded request frame. */
    method CreateUvTask(kind: UvTaskKind, body: RequestBody) returns (id: TaskId)
      requires Valid()
      requires kind == ReqRsp ==> ValidRequest(Request(0, body)) && nextSeqNum < MaxSeqNum
      modifies this`tasks, this`nextId, this`nextSeqNum
      ensures Valid()
      ensures id !in old(tasks) && tasks == old(tasks)[id := NewTask(kind, old(nextSeqNum), body)]
      ensures nextSeqNum == if kind == ReqRsp then old(nextSeqNum) + 1 else old(nextSeqNum)
    {
      var task := NewTask(kind, nextSeqNum, body);
      if kind == ReqRsp {
        nextSeqNum := nextSeqNum + 1;
      }
      id := nextId;
      nextId := nextId + 1;
      AddTaskKeepsSeqNums(tasks, id, task, nextSeqNum);
      tasks := tasks[id := task];
    }

    /** queueUvUdfTask, up to the caller's wait: appends the task to the submit queue.
      * The source does this whatever the client state is. */
    method QueueUvTask(id: TaskId)
      requires Valid()
      requires id in tasks && !tasks[id].released && id !in submitQueue && id !in procQueue
      modifies this`submitQueue
      ensures Valid()
      ensures submitQueue == old(submitQueue) + [id]
    {
      submitQueue := submitQueue + [id];
    }

    /** udfClientAsyncCb: takes the whole submit queue at once (QUEUE_MOVE), then starts
      * the tasks in submission order, each joining the in-flight queue. */
    method UdfClientAsyncCb()
      requires Valid()
      modifies this`submitQueue, this`procQueue, this`started
      ensures Valid()
      ensures submitQueue == []
      ensures procQueue == old(procQueue) + old(submitQueue)
      ensures started == old(started) + old(submitQueue)
    {
      var wq := submitQueue;
      submitQueue := [];
      assert QueuesOk(tasks, wq, procQueue);
      ghost var k := 0;
      while wq != []
        invariant 0 <= k <= |old(submitQueue)| && wq == old(submitQueue)[k..]
        invariant procQueue == old(procQueue) + old(submitQueue)[..k]
        invariant started == old(started) + old(submitQueue)[..k]
        invariant submitQueue == []
        invariant QueuesOk(tasks, wq, procQueue)
        decreases |wq|
      {
        var id := wq[0];
        DrainStepKeepsQueues(tasks, wq, procQueue);
        wq := wq[1..];
        started := started + [id];
        procQueue := procQueue + [id];
        k := k + 1;
        assert old(submitQueue)[..k] == old(submitQueue)[..k - 1] + [id];
      }
    }

    /** onUdfClientConnect: the connect status becomes the task's error code, the caller
      * is woken and the task leaves the in-flight queue. */
    method OnClientConnect(id: TaskId, status: int)
      requires Valid() && id in tasks && id !in submitQueue && !tasks[id].released
      modifies this`tasks, this`procQueue
      ensures Valid()
      ensures tasks == old(tasks)[id := old(tasks)[id].(errCode := status, released := true)]
      ensures procQueue == Without(old(procQueue), id)
    {
      var t := tasks[id].(errCode := status, released := true);
      ReleaseKeepsQueues(tasks, submitQueue, procQueue, id, t);
      SameIdentityKeepsSeqNums(tasks, tasks[id := t], nextSeqNum);
      tasks := tasks[id := t];
      procQueue := Without(procQueue, id);
    }

    /** onUdfClientWrite: frees the request frame; after a successful write the task
      * waits on its connection (see OnUdfcWrite). A failed write leaves it in flight. */
    method OnClientWrite(id: TaskId, status: int) returns (awaitReply: bool)
      requires Valid() && id in tasks
      modifies this`tasks
      ensures Valid()
      ensures awaitReply <==> status == 0
      ensures tasks == old(tasks)[id := old(tasks)[id].(reqBuf := [])]
    {
      tasks := tasks[id := tasks[id].(reqBuf := [])];
      awaitReply := status == 0;
    }

    /** The write callback together with the connection it wrote on. */
    method OnUdfcWrite(conn: ClientConn, id: TaskId, status: int)
      requires Valid() && conn.Valid() && id in tasks
      modifies this`tasks, conn`taskQueue
      ensures Valid() && conn.Valid()
      ensures tasks == old(tasks)[id := old(tasks)[id].(reqBuf := [])]
      ensures conn.taskQueue ==
        if status == 0 then old(conn.taskQueue) + [PendingTask(id, old(tasks)[id].seqNum)] else old(conn.taskQueue)
    {
      var awaitReply := OnClientWrite(id, status);
      if awaitReply {
        conn.AddPending(id, tasks[id].seqNum);
      }
    }

    /** The disconnect branch of startUvUdfTask: the task joins the tail of its
      * connection's queue before the pipe is closed, so the close callback wakes it only
      * if no request is still waiting there ahead of it. */
    method StartDisconnect(conn: ClientConn, id: TaskId)
      requires Valid() && conn.Valid() && id in tasks && tasks[id].kind == Disconnect
      modifies conn`taskQueue
      ensures conn.Valid()
      ensures conn.taskQueue == old(conn.taskQueue) + [PendingTask(id, tasks[id].seqNum)]
    {
      conn.AddPending(id, tasks[id].seqNum);
    }

    /** The part of udfcUvHandleRsp that touches the task: it gets the frame, its caller
      * is woken, and it leaves the in-flight queue. */
    method DeliverResponse(id: TaskId, frame: seq<byte>)
      requires Valid() && id in tasks && id !in submitQueue && !tasks[id].released
      modifies this`tasks, this`procQueue
      ensures Valid()
      ensures tasks == old(tasks)[id := old(tasks)[id].(rspBuf := Some(frame), released := true)]
      ensures procQueue == Without(old(procQueue), id)
    {
      var t := tasks[id].(rspBuf := Some(frame), released := true);
      ReleaseKeepsQueues(tasks, submitQueue, procQueue, id, t);
      SameIdentityKeepsSeqNums(tasks, tasks[id := t], nextSeqNum);
      tasks := tasks[id := t];
      procQueue := Without(procQueue, id);
    }

    /** onUdfcRead with its effect on the tasks: a complete frame goes to the first task
      * on the connection that waits for its sequence number. */
    method OnUdfcRead(conn: ClientConn, nread: int, bytes: seq<byte>) returns (ev: ReadEvent)
      requires Valid() && conn.Valid()
      requires forall p :: p in conn.taskQueue ==> p.id in tasks && p.id !in submitQueue && !tasks[p.id].released
      requires nread > 0 ==> |bytes| == nread && conn.len + nread <= conn.cap
      requires nread <= 0 ==> bytes == []
      modifies this`tasks, this`procQueue, conn
      ensures Valid() && conn.Valid()
      ensures nread <= 0 ==>
        && ev == (if nread == 0 then NoData else ReadError)
        && conn.buf == old(conn.buf) && conn.len == old(conn.len) && conn.cap == old(conn.cap)
        && conn.total == old(conn.total) && conn.taskQueue == old(conn.taskQueue)
      ensures nread > 0 && ev == Partial ==>
        && conn.buf == old(conn.buf) + bytes && conn.len == old(conn.len) + nread
        && conn.cap == old(conn.cap) && conn.taskQueue == old(conn.taskQueue)
        && !(conn.len == conn.cap && conn.total == conn.cap)
      ensures nread > 0 && ev != Partial ==>
        && |old(conn.buf) + bytes| == old(conn.cap) >= MsgHeadSize
        && DecodeI32((old(conn.buf) + bytes)[..4]) == old(conn.cap)
      ensures nread > 0 && ev != Partial && old(conn.taskQueue) == [] ==>
        && ev == NoPending && conn.taskQueue == []
        && conn.buf == old(conn.buf) + bytes && conn.len == old(conn.cap) && conn.total == old(conn.cap)
      ensures nread > 0 && ev != Partial && old(conn.taskQueue) != [] ==>
        && conn.buf == [] && conn.len == 0 && conn.cap == 0 && conn.total == -1
        && match FirstMatch(old(conn.taskQueue), FrameSeqNum(old(conn.buf) + bytes))
           case Some(i) =>
             ev == Delivered(old(conn.taskQueue)[i].id, old(conn.buf) + bytes)
             && conn.taskQueue == RemoveAt(old(conn.taskQueue), i)
           case None =>
             ev == Unmatched(FrameSeqNum(old(conn.buf) + bytes)) && conn.taskQueue == old(conn.taskQueue)
      ensures ev.Delivered? ==>
        && ev.id in old(tasks)
        && tasks == old(tasks)[ev.id := old(tasks)[ev.id].(rspBuf := Some(ev.frame), released := true)]
        && procQueue == Without(old(procQueue), ev.id)
      ensures !ev.Delivered? ==> tasks == old(tasks) && procQueue == old(procQueue)
    {
      ev := conn.OnRead(nread, bytes);
      if ev.Delivered? {
        ghost var q := old(conn.taskQueue);
        ghost var i := FirstMatch(q, FrameSeqNum(ev.frame)).value;
        assert q[i] in q;
        DeliverResponse(ev.id, ev.frame);
      }
    }

    /** onUdfcPipeClose: the task at the head of the closed connection's queue is woken
      * with error code 0, whatever made the pipe close; the other queued tasks are not. */
    method OnUdfcPipeClose(conn: ClientConn)
      requires Valid() && conn.Valid()
      requires forall p :: p in conn.taskQueue ==> p.id in tasks && p.id !in submitQueue && !tasks[p.id].released
      modifies this`tasks, this`procQueue
      ensures Valid()
      ensures conn.taskQueue == [] ==> tasks == old(tasks) && procQueue == old(procQueue)
      ensures conn.taskQueue != [] ==>
        var id := conn.taskQueue[0].id;
        && tasks == old(tasks)[id := old(tasks)[id].(errCode := 0, released := true)]
        && procQueue == Without(old(procQueue), id)
    {
      var head := conn.PipeCloseHead();
      if head.Some? {
        assert conn.taskQueue[0] in conn.taskQueue;
        var id := head.value;
        var t := tasks[id].(errCode := 0, released := true);
        ReleaseKeepsQueues(tasks, submitQueue, procQueue, id, t);
        SameIdentityKeepsSeqNums(tasks, tasks[id := t], nextSeqNum);
        tasks := tasks[id := t];
        procQueue := Without(procQueue, id);
      }
    }

    /** The first half of cleanUpUvTasks: takes the whole submit queue and wakes each of
      * its tasks with the sweep code. */
    method SweepSubmitQueue()
      modifies this`tasks, this`submitQueue
      ensures submitQueue == []
      ensures tasks == SweepAll(old(tasks), old(submitQueue), state)
    {
      var wq := submitQueue;
      submitQueue := [];
      var i := 0;
      while i < |wq|
        invariant 0 <= i <= |wq| && wq == old(submitQueue) && submitQueue == []
        invariant tasks == SweepAll(old(tasks), wq[..i], state)
      {
        var id := wq[i];
        assert wq[..i + 1][..i] == wq[..i];
        if id in tasks {
          tasks := tasks[id := Swept(tasks[id], state)];
        }
        i := i + 1;
      }
      assert wq[..i] == wq;
    }

    /** The second half of cleanUpUvTasks: pops every in-flight task and wakes it with
      * the sweep code. */
    method SweepProcQueue()
      modifies this`tasks, this`procQueue
      ensures procQueue == []
      ensures tasks == SweepAll(old(tasks), old(procQueue), state)
    {
      ghost var k := 0;
      while procQueue != []
        invariant 0 <= k <= |old(procQueue)| && procQueue == old(procQueue)[k..]
        invariant tasks == SweepAll(old(tasks), old(procQueue)[..k], state)
        decreases |procQueue|
      {
        var id := procQueue[0];
        assert old(procQueue)[..k + 1][..k] == old(procQueue)[..k];
        procQueue := procQueue[1..];
        if id in tasks {
          tasks := tasks[id := Swept(tasks[id], state)];
        }
        k := k + 1;
      }
      assert old(procQueue)[..k] == old(procQueue);
    }

    /** cleanUpUvTasks: wakes every task still in the submit queue or in flight, with the
      * code for a stop or a restart, and empties both queues. */
    method CleanUpUvTasks()
      requires Valid()
      modifies this`tasks, this`submitQueue, this`procQueue
      ensures Valid()
      ensures submitQueue == [] && procQueue == []
      ensures tasks == SweepAll(SweepAll(old(tasks), old(submitQueue), state), old(procQueue), state)
    {
      SweepSubmitQueue();
      SweepProcQueue();
      SweepKeepsTasksValid(old(tasks), old(submitQueue), old(procQueue), state, nextSeqNum, nextId, tasks);
    }

    /** udfStopAsyncCb: sweep the queues, then stop the loop if the client is stopping. */
    method UdfStopAsyncCb()
      requires Valid()
      modifies this`tasks, this`submitQueue, this`procQueue, this`loopRunning
      ensures Valid()
      ensures submitQueue == [] && procQueue == []
      ensures tasks == SweepAll(SweepAll(old(tasks), old(submitQueue), state), old(procQueue), state)
      ensures tasks.Keys == old(tasks).Keys
      ensures forall id :: id in old(submitQueue) || id in old(procQueue) ==>
        tasks[id] == Swept(old(tasks)[id], state)
      ensures forall id :: id in old(tasks) && id !in old(submitQueue) && id !in old(procQueue) ==>
        tasks[id] == old(tasks)[id]
      ensures loopRunning == (old(loopRunning) && state != Stopping)
    {
      TwoSweeps(tasks, submitQueue, procQueue, state);
      CleanUpUvTasks();
      if state == Stopping {
        loopRunning := false;
      }
    }

    /** stopUdfService: STOPPING, SIGINT to the worker, sweep everything with the
      * stopping code, stop the reactor, FINAL. */
    method StopUdfService()
      requires Valid()
      modifies this`state, this`killSent, this`tasks, this`submitQueue, this`procQueue, this`loopRunning
      ensures Valid()
      ensures state == NextState(old(state), StopService) && state == Final
      ensures killSent && !loopRunning && submitQueue == [] && procQueue == []
      ensures tasks == SweepAll(SweepAll(old(tasks), old(submitQueue), Stopping), old(procQueue), Stopping)
      ensures tasks.Keys == old(tasks).Keys
      ensures forall id :: id in old(submitQueue) || id in old(procQueue) ==>
        tasks[id] == Swept(old(tasks)[id], Stopping)
      ensures forall id :: id in old(tasks) && id !in old(submitQueue) && id !in old(procQueue) ==>
        tasks[id] == old(tasks)[id]
      ensures spawns == old(spawns) && nextSeqNum == old(nextSeqNum) && nextId == old(nextId)
      ensures started == old(started)
    {
      state := Stopping;
      killSent := true;
      UdfStopAsyncCb();
      state := Final;
    }

    /** onUdfdExit: a worker that dies while the client is READY moves it to RESTARTING,
      * every queued and in-flight task is swept with the restarting code, and a new
      * worker is spawned. In any other state (a stop in progress) nothing happens. */
    method OnUdfdExit(termSignal: int)
      requires Valid()
      modifies this`state, this`tasks, this`submitQueue, this`procQueue, this`spawns
      ensures Valid()
      ensures state == NextState(old(state), WorkerExit)
      ensures nextSeqNum == old(nextSeqNum) && nextId == old(nextId) && started == old(started)
      ensures killSent == old(killSent) && loopRunning == old(loopRunning)
      ensures old(state) == Ready ==>
        && state == Restarting && spawns == old(spawns) + 1
        && submitQueue == [] && procQueue == []
        && tasks == SweepAll(SweepAll(old(tasks), old(submitQueue), Restarting), old(procQueue), Restarting)
        && tasks.Keys == old(tasks).Keys
        && (forall id :: id in old(submitQueue) || id in old(procQueue) ==>
             tasks[id] == Swept(old(tasks)[id], Restarting))
        && (forall id :: id in old(tasks) && id !in old(submitQueue) && id !in old(procQueue) ==>
             tasks[id] == old(tasks)[id])
      ensures old(state) != Ready ==>
        && spawns == old(spawns) && tasks == old(tasks)
        && submitQueue == old(submitQueue) && procQueue == old(procQueue)
    {
      if state == Ready {
        state := Restarting;
        TwoSweeps(tasks, submitQueue, procQueue, state);
        CleanUpUvTasks();
        StartUdfd();
      }
    }
  }
}
