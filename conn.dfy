/**
 * One client connection to the UDF worker (source/libs/function/src/tudf.c,
 * SClientUvConn and SClientConnBuf): the read buffer that reassembles frames from the
 * byte stream, and the queue of tasks whose request was written on this connection and
 * that wait for their reply.
 *
 * The buffer starts sized for `msgLen` and `seqNum` (12 bytes); once four bytes are in,
 * the announced `msgLen` becomes `total` and the next allocation grows the buffer to it.
 * A frame is complete when `len == cap == total`. Its `seqNum` (offset 4) picks the
 * waiting task that receives it.
 */
module Reassembly {
  import opened Wire
  import opened UdfCodec

  /** Identity of a bridge task (an SClientUvTaskNode). */
  type TaskId = nat

  /** An entry of the connection's task queue: the task and the sequence number its
    * request carried. */
  datatype PendingTask = PendingTask(id: TaskId, seqNum: int)

  /** sizeof(int32_t) + sizeof(int64_t): the first allocation holds msgLen and seqNum. */
  const MsgHeadSize: nat := 12

  /** What a read callback did with the bytes it was given. */
  datatype ReadEvent =
    | NoData                                 // nread == 0
    | Partial                                // frame not complete yet
    | Delivered(id: TaskId, frame: seq<byte>) // complete frame handed to its task
    | Unmatched(seqNum: int)                 // complete frame, no task waits for it: dropped
    | NoPending                              // complete frame on a connection with no waiting task
    | ReadError                              // nread < 0: the connection is being closed

  /** The position of the first queued task waiting for sequence number s. */
  function FirstMatch(q: seq<PendingTask>, s: int): (r: Option<nat>)
    ensures r.Some? ==> r.value < |q| && q[r.value].seqNum == s
    ensures r.Some? ==> forall j :: 0 <= j < r.value ==> q[j].seqNum != s
    ensures r.None? <==> forall j :: 0 <= j < |q| ==> q[j].seqNum != s
  {
    if q == [] then None
    else if q[0].seqNum == s then Some(0)
    else
      match FirstMatch(q[1..], s)
      case None => None
      case Some(i) => Some(i + 1)
  }

  /** q without its element at position i, the others in their order (QUEUE_REMOVE). */
  function RemoveAt(q: seq<PendingTask>, i: nat): (r: seq<PendingTask>)
    requires i < |q|
    ensures |r| == |q| - 1
    ensures forall j :: 0 <= j < i ==> r[j] == q[j]
    ensures forall j :: i <= j < |r| ==> r[j] == q[j + 1]
  {
    q[..i] + q[i + 1..]
  }

  /** The sequence number a frame carries after its length. */
  function FrameSeqNum(frame: seq<byte>): i64
    requires |frame| >= MsgHeadSize
  {
    DecodeI64(frame[4..12])
  }

  class ClientConn {
    /** The bytes received into the read buffer so far (the first `len` bytes of `buf`). */
    var buf: seq<byte>
    var len: int
    var cap: int
    var total: int
    /** Tasks waiting for a reply on this connection, oldest first. */
    var taskQueue: seq<PendingTask>

    ghost predicate Valid()
      reads this
    {
      && 0 <= len == |buf| <= cap
      && (cap == 0 ==> total == -1)
      && (cap != 0 ==> cap >= MsgHeadSize)
      // the buffer only grows beyond the head to the announced frame length
      && (cap > MsgHeadSize ==> cap == total)
      // once known, total is the msgLen at the front of the buffer
      && (total != -1 ==> len >= 4 && total == DecodeI32(buf[..4]))
    }

    /** A fresh connection as the Connect task builds it: no buffer, total unknown. */
    constructor ()
      ensures Valid()
      ensures buf == [] && len == 0 && cap == 0 && total == -1 && taskQueue == []
    {
      buf, len, cap, total := [], 0, 0, -1;
      taskQueue := [];
    }

    /** udfcAllocateBuffer: the window of the buffer the next read may fill, as an
      * offset and a size. Allocation failure is not modelled. */
    method AllocateBuffer() returns (offset: int, size: int)
      requires Valid()
      modifies this
      ensures Valid() && taskQueue == old(taskQueue)
      ensures old(cap) == 0 ==>
        buf == [] && len == 0 && cap == MsgHeadSize && total == -1 && offset == 0 && size == MsgHeadSize
      ensures old(cap) != 0 ==>
        && buf == old(buf) && len == old(len) && total == old(total)
        && cap == (if old(total) > old(cap) then old(total) else old(cap))
        && offset == len && size == cap - len
    {
      if cap == 0 {
        buf := [];
        len := 0;
        cap := MsgHeadSize;
        total := -1;
        offset, size := 0, cap;
      } else {
        cap := if total > cap then total else cap;
        offset, size := len, cap - len;
      }
    }

    /** isUdfcUvMsgComplete: learns `total` from the first four bytes once they are in,
      * and reports whether the buffer holds exactly one whole frame. */
    method IsMsgComplete() returns (complete: bool)
      requires 0 <= len == |buf| <= cap
      requires cap == 0 ==> total == -1
      requires cap != 0 ==> cap >= MsgHeadSize
      requires cap > MsgHeadSize ==> cap == total
      requires total != -1 ==> len >= 4 && total == DecodeI32(buf[..4])
      modifies this`total
      ensures Valid()
      ensures total == if old(total) == -1 && len >= 4 then DecodeI32(buf[..4]) else old(total)
      ensures complete <==> len == cap && total == cap
      ensures complete ==> len >= MsgHeadSize && DecodeI32(buf[..4]) == len
    {
      if total == -1 && len >= 4 {
        total := DecodeI32(buf[..4]);
      }
      complete := len == cap && total == cap;
    }

    /** udfcUvHandleRsp: hands a complete frame to the first waiting task with the
      * frame's sequence number and resets the buffer. With no task waiting at all it
      * returns before the reset, as the source does. A second waiting task with the same
      * sequence number is skipped here; the source's loop stops advancing at it (see
      * ScanStepAsWritten). */
    method HandleRsp() returns (ev: ReadEvent)
      requires Valid() && len >= MsgHeadSize
      modifies this
      ensures Valid()
      ensures old(taskQueue) == [] ==>
        ev == NoPending && buf == old(buf) && len == old(len) && cap == old(cap)
        && total == old(total) && taskQueue == []
      ensures old(taskQueue) != [] ==> buf == [] && len == 0 && cap == 0 && total == -1
      ensures old(taskQueue) != [] ==>
        match FirstMatch(old(taskQueue), FrameSeqNum(old(buf)))
        case Some(i) => ev == Delivered(old(taskQueue)[i].id, old(buf)) && taskQueue == RemoveAt(old(taskQueue), i)
        case None => ev == Unmatched(FrameSeqNum(old(buf))) && taskQueue == old(taskQueue)
    {
      var seqNum := FrameSeqNum(buf);
      if taskQueue == [] {
        return NoPending;
      }
      var found: Option<nat> := None;
      var h := 0;
      while h < |taskQueue|
        invariant 0 <= h <= |taskQueue|
        invariant found.Some? ==> found.value < h && taskQueue[found.value].seqNum == seqNum
        invariant found.Some? ==> forall j :: 0 <= j < found.value ==> taskQueue[j].seqNum != seqNum
        invariant found.None? ==> forall j :: 0 <= j < h ==> taskQueue[j].seqNum != seqNum
      {
        if taskQueue[h].seqNum == seqNum && found.None? {
          found := Some(h);
        }
        h := h + 1;
      }
      if found.Some? {
        ev := Delivered(taskQueue[found.value].id, buf);
        taskQueue := RemoveAt(taskQueue, found.value);
      } else {
        ev := Unmatched(seqNum);
      }
      buf, total, len, cap := [], -1, 0, 0;
    }

    /** onUdfcRead: appends what the read delivered into the offered window and, when a
      * frame is complete, dispatches it. A negative `nread` (an error or end of stream)
      * makes the source close the pipe; the close itself is OnUdfcPipeClose in UdfClient. */
    method OnRead(nread: int, bytes: seq<byte>) returns (ev: ReadEvent)
      requires Valid()
      requires nread > 0 ==> |bytes| == nread && len + nread <= cap
      requires nread <= 0 ==> bytes == []
      modifies this
      ensures Valid()
      ensures nread <= 0 ==>
        ev == (if nread == 0 then NoData else ReadError)
        && buf == old(buf) && len == old(len) && cap == old(cap) && total == old(total)
        && taskQueue == old(taskQueue)
      ensures nread > 0 && ev == Partial ==>
        && buf == old(buf) + bytes && len == old(len) + nread && cap == old(cap) && taskQueue == old(taskQueue)
        && total == (if old(total) == -1 && len >= 4 then DecodeI32(buf[..4]) else old(total))
        && !(len == cap && total == cap)
      ensures nread > 0 && ev != Partial ==>
        && |old(buf) + bytes| == old(cap) >= MsgHeadSize
        && DecodeI32((old(buf) + bytes)[..4]) == old(cap)
      ensures nread > 0 && ev != Partial && old(taskQueue) == [] ==>
        && ev == NoPending && taskQueue == []
        && buf == old(buf) + bytes && len == old(cap) && cap == old(cap) && total == old(cap)
      ensures nread > 0 && ev != Partial && old(taskQueue) != [] ==>
        && buf == [] && len == 0 && cap == 0 && total == -1
        && match FirstMatch(old(taskQueue), FrameSeqNum(old(buf) + bytes))
           case Some(i) => ev == Delivered(old(taskQueue)[i].id, old(buf) + bytes) && taskQueue == RemoveAt(old(taskQueue), i)
           case None => ev == Unmatched(FrameSeqNum(old(buf) + bytes)) && taskQueue == old(taskQueue)
      ensures ev.Delivered? ==>
        && ev.frame == old(buf) + bytes
        && match FirstMatch(old(taskQueue), FrameSeqNum(ev.frame))
           case Some(i) => ev.id == old(taskQueue)[i].id && taskQueue == RemoveAt(old(taskQueue), i)
           case None => false
      ensures ev.Unmatched? ==> taskQueue == old(taskQueue)
    {
      if nread == 0 {
        return NoData;
      }
      if nread > 0 {
        buf := buf + bytes;
        len := len + nread;
        assert old(len) >= 4 ==> buf[..4] == old(buf)[..4];
        var complete := IsMsgComplete();
        if complete {
          ev := HandleRsp();
        } else {
          ev := Partial;
        }
      } else {
        ev := ReadError;
      }
    }

    /** Queues a task to wait for its reply (QUEUE_INSERT_TAIL on the connection's task
      * queue, by onUdfClientWrite after a successful write and by a Disconnect task). */
    method AddPending(id: TaskId, seqNum: int)
      requires Valid()
      modifies this`taskQueue
      ensures Valid()
      ensures taskQueue == old(taskQueue) + [PendingTask(id, seqNum)]
    {
      taskQueue := taskQueue + [PendingTask(id, seqNum)];
    }

    /** onUdfcPipeClose, connection side: only the task at the head of the queue is
      * released (by UdfClient.OnUdfcPipeClose); the connection and the rest of its queue are
      * freed with it. */
    method PipeCloseHead() returns (head: Option<TaskId>)
      requires Valid()
      ensures head.None? <==> taskQueue == []
      ensures head.Some? ==> head.value == taskQueue[0].id
    {
      if taskQueue == [] {
        head := None;
      } else {
        head := Some(taskQueue[0].id);
      }
    }
  }

  // ----- the scan loop of udfcUvHandleRsp as written -----

  datatype ScanState = ScanState(h: nat, found: Option<nat>)

  /** One iteration of the scan loop as the source writes it: on a task whose seqNum
    * matches after a match was already found, it `continue`s without advancing h. */
  function ScanStepAsWritten(q: seq<PendingTask>, s: int, st: ScanState): (next: ScanState)
    requires st.h < |q|
    ensures next.h == st.h || next.h == st.h + 1
  {
    if q[st.h].seqNum == s then
      if st.found.None? then ScanState(st.h + 1, Some(st.h)) else st
    else ScanState(st.h + 1, st.found)
  }

  /** The loop state after n iterations (or earlier, once h reaches the end). */
  function ScanAsWritten(q: seq<PendingTask>, s: int, st: ScanState, n: nat): ScanState
    decreases n
  {
    if n == 0 || st.h >= |q| then st else ScanAsWritten(q, s, ScanStepAsWritten(q, s, st), n - 1)
  }

  ghost predicate StallInvariant(q: seq<PendingTask>, s: int, j: nat, st: ScanState)
  {
    && j < |q| && q[j].seqNum == s
    && st.h <= j
    && (st.found.None? ==> exists m :: st.h <= m < j && q[m].seqNum == s)
  }

  lemma {:induction false} StallInvariantKept(q: seq<PendingTask>, s: int, j: nat, st: ScanState, n: nat)
    requires StallInvariant(q, s, j, st)
    ensures StallInvariant(q, s, j, ScanAsWritten(q, s, st, n))
    decreases n
  {
    if n > 0 {
      var next := ScanStepAsWritten(q, s, st);
      if st.found.None? {
        var m :| st.h <= m < j && q[m].seqNum == s;
        if q[st.h].seqNum != s {
          assert st.h + 1 <= m < j && q[m].seqNum == s;
        }
      }
      assert StallInvariant(q, s, j, next);
      StallInvariantKept(q, s, j, next, n - 1);
    }
  }

  /** With two waiting tasks that share the frame's sequence number, the source's scan
    * loop never reaches the end of the queue, however many iterations it runs. */
  lemma DuplicateSeqNumHangs(q: seq<PendingTask>, s: int, i: nat, j: nat, n: nat)
    requires i < j < |q| && q[i].seqNum == s && q[j].seqNum == s
    ensures ScanAsWritten(q, s, ScanState(0, None), n).h < |q|
  {
    StallInvariantKept(q, s, j, ScanState(0, None), n);
  }

  /** With sequence numbers unique in the queue the as-written loop does finish, and it
    * finds the same task as FirstMatch. */
  lemma {:induction false} ScanAsWrittenUnique(q: seq<PendingTask>, s: int, st: ScanState)
    requires st.h <= |q|
    requires forall a, b :: 0 <= a < b < |q| && q[a].seqNum == s ==> q[b].seqNum != s
    requires st.found.Some? ==> st.found == FirstMatch(q, s) && st.found.value < st.h
    requires st.found.None? ==> forall j :: 0 <= j < st.h ==> q[j].seqNum != s
    ensures ScanAsWritten(q, s, st, |q| - st.h) == ScanState(|q|, FirstMatch(q, s))
    decreases |q| - st.h
  {
    if st.h < |q| {
      var next := ScanStepAsWritten(q, s, st);
      assert next.h == st.h + 1;
      ScanAsWrittenUnique(q, s, next);
    }
  }
}
