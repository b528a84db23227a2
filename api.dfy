/**
 * The blocking calls a query worker makes (source/libs/function/src/tudf.c): setupUdf,
 * callUdf and teardownUdf, each of which runs one or two bridge tasks through the
 * reactor and then reads the result off the finished task (udfcGetUvTaskResponseResult).
 *
 * A call blocks on its task's semaphore until the reactor has finished with it; here
 * the finished task record (a `UvTask` as the client state leaves it) is a parameter,
 * and what the call submits is returned as a list of steps. Where the C code reads
 * memory that no response wrote (an undecodable frame, a response of another type) the
 * result is `Undefined`.
 */
module UdfApi {
  import opened Wire
  import opened UdfCodec
  import opened UdfClientState

  /** What udfcGetUvTaskResponseResult leaves in the client task: its error code and the
    * decoded response payload, when a frame arrived. */
  datatype TaskResult = TaskResult(errCode: int, rsp: Option<ResponseBody>) | Undefined

  /** udfcGetUvTaskResponseResult for a client task of type taskType. A request/response
    * task that received a frame takes the code and the payload from the decoded frame;
    * any other task takes the bridge error code. The source ignores whether the frame
    * decoded and reads the payload as the structure its own task type expects. */
  function GetUvTaskResponseResult(taskType: i8, uv: UvTask): (r: TaskResult)
    ensures uv.kind != ReqRsp || uv.rspBuf.None? ==> r == TaskResult(uv.errCode, None)
    ensures r.TaskResult? && r.rsp.Some? ==>
      && uv.kind == ReqRsp && uv.rspBuf.Some?
      && ResponseType(r.rsp.value) == taskType
      && DecodeResponse(uv.rspBuf.value).Some?
      && DecodeResponse(uv.rspBuf.value).value.code == r.errCode
      && DecodeResponse(uv.rspBuf.value).value.body == r.rsp.value
  {
    if uv.kind == ReqRsp && uv.rspBuf.Some? then
      match DecodeResponse(uv.rspBuf.value)
      case None => Undefined
      case Some(rsp) =>
        if ResponseType(rsp.body) == taskType then TaskResult(rsp.code, Some(rsp.body)) else Undefined
    else
      TaskResult(uv.errCode, None)
  }

  /** A task whose frame is the encoding of the worker's response ends with that
    * response's code and payload, zero-length call output and state included. */
  lemma ResultOfEncodedResponse(taskType: i8, uv: UvTask, rsp: Response)
    requires ValidResponse(rsp) && ResponseType(rsp.body) == taskType
    requires uv.kind == ReqRsp && uv.rspBuf == Some(EncodeResponse(rsp))
    ensures GetUvTaskResponseResult(taskType, uv) == TaskResult(rsp.code, Some(rsp.body))
  {
    ResponseRoundTrip(rsp);
  }

  /** Conversely, a payload the client reads came from a frame that is exactly the
    * encoding of a valid response carrying that code and payload. */
  lemma ResultFromEncodedResponse(taskType: i8, uv: UvTask)
    requires GetUvTaskResponseResult(taskType, uv).TaskResult?
    requires GetUvTaskResponseResult(taskType, uv).rsp.Some?
    ensures exists rsp: Response ::
      && ValidResponse(rsp) && rsp.code == GetUvTaskResponseResult(taskType, uv).errCode
      && rsp.body == GetUvTaskResponseResult(taskType, uv).rsp.value
      && uv.rspBuf == Some(EncodeResponse(rsp))
  {
    var rsp := DecodeResponse(uv.rspBuf.value).value;
    ResponseDecodeCanonical(uv.rspBuf.value);
    assert ValidResponse(rsp) && uv.rspBuf == Some(EncodeResponse(rsp));
  }

  /** The unchecked decode: the reassembly hands over any frame of at least 12 bytes whose
    * length field is right, but a 12-byte frame has no room for the response code, so the
    * result the source reads is not defined by the frame. */
  lemma ShortFrameResultUndefined()
    ensures var frame := EncodeI32(12) + EncodeI64(0);
      && |frame| == 12 && DecodeI32(frame[..4]) == |frame|
      && GetUvTaskResponseResult(SetupType, UvTask(ReqRsp, 0, [], 0, Some(frame), true)).Undefined?
  {
    var frame := EncodeI32(12) + EncodeI64(0);
    assert frame[..4] == EncodeI32(12);
  }

  // ----- the three blocking calls -----

  /** SUdfUvSession: what a setup hands back. `serverHandle` is None when no setup
    * response was read, so the C field stays as malloc left it. */
  datatype Session = Session(serverHandle: Option<i64>)

  /** The handle a request built from the session carries: the worker's handle, or
    * `uninit`, whatever the allocator left in the field, when no setup response set it. */
  function SessionHandle(session: Session, uninit: i64): i64
  {
    if session.serverHandle.Some? then session.serverHandle.value else uninit
  }

  /** The caller-side description of a function: its 16-byte name, its library path as a
    * C string (no NUL inside), and its script and output types. */
  datatype UdfInfo = UdfInfo(udfName: seq<byte>, path: seq<byte>, scriptType: i8, udfType: i8)

  predicate ValidUdfInfo(info: UdfInfo)
  {
    |info.udfName| == 16 && 0 !in info.path && |info.path| + 1 < 0x8000
  }

  /** The setup request setupUdf fills in: the path is sent with its terminating NUL
    * (pathSize is strlen + 1). */
  function SetupRequest(info: UdfInfo): (b: RequestBody)
    requires ValidUdfInfo(info)
    ensures ValidRequest(Request(0, b))
    ensures b.SetupReq? && b.udfName == info.udfName && |b.path| == |info.path| + 1
    ensures b.path[..|info.path|] == info.path && b.path[|info.path|] == 0
  {
    SetupReq(info.udfName, info.scriptType, info.udfType, info.path + [0])
  }

  /** What a call returns: its return code, the session it hands back (setup only) and
    * the response payload it read. */
  datatype ApiResult = ApiResult(ret: int, session: Option<Session>, rsp: Option<ResponseBody>) | UndefinedResult

  /** setupUdf. A failed connect returns -1 at once and hands back no session; otherwise
    * the setup task's error code is returned and the session carries the handle from
    * the setup response. */
  function SetupUdf(info: UdfInfo, connect: UvTask, setup: UvTask): (r: ApiResult)
    requires ValidUdfInfo(info) && connect.kind == Connect
    ensures connect.errCode != 0 ==> r == ApiResult(-1, None, None)
    ensures connect.errCode == 0 ==> (r.UndefinedResult? <==> GetUvTaskResponseResult(SetupType, setup).Undefined?)
    ensures connect.errCode == 0 && r.ApiResult? ==>
      && r.ret == GetUvTaskResponseResult(SetupType, setup).errCode
      && r.session.Some?
      && (r.session.value.serverHandle.Some? <==> r.rsp.Some?)
      && (r.rsp.Some? ==> r.rsp.value.SetupRsp? && r.session.value.serverHandle == Some(r.rsp.value.udfHandle))
  {
    if GetUvTaskResponseResult(SetupType, connect).errCode != 0 then ApiResult(-1, None, None)
    else
      match GetUvTaskResponseResult(SetupType, setup)
      case Undefined => UndefinedResult
      case TaskResult(code, rsp) =>
        var handle := if rsp.Some? && rsp.value.SetupRsp? then Some(rsp.value.udfHandle) else None;
        ApiResult(code, Some(Session(handle)), rsp)
  }

  /** After a failed connect the setup request is never sent: whatever the setup task
    * would have held, the result is the same. */
  lemma SetupSkipsRequestAfterFailedConnect(info: UdfInfo, connect: UvTask, s1: UvTask, s2: UvTask)
    requires ValidUdfInfo(info) && connect.kind == Connect && connect.errCode != 0
    ensures SetupUdf(info, connect, s1) == SetupUdf(info, connect, s2)
  {
  }

  /** A setup whose connect succeeds and whose worker answers with a setup response
    * returns the response code and a session holding the worker's handle. */
  lemma SetupUdfReturnsWorkerHandle(info: UdfInfo, connect: UvTask, setup: UvTask, seqNum: i64, code: i32, handle: i64)
    requires ValidUdfInfo(info) && connect.kind == Connect && connect.errCode == 0
    requires setup.kind == ReqRsp && setup.rspBuf == Some(EncodeResponse(Response(seqNum, code, SetupRsp(handle))))
    ensures SetupUdf(info, connect, setup) == ApiResult(code, Some(Session(Some(handle))), Some(SetupRsp(handle)))
  {
    ResultOfEncodedResponse(SetupType, setup, Response(seqNum, code, SetupRsp(handle)));
  }

  /** The call request callUdf fills in from the session and its arguments. A session
    * whose setup read no response sends whatever its handle field held. */
  function CallRequest(session: Session, uninit: i64, step: i8, state: seq<byte>, input: seq<byte>): (b: RequestBody)
    requires RequestHeaderSize + 17 + |input| + |state| <= MaxFrameSize
    ensures ValidRequest(Request(0, b))
    ensures b.CallReq? && b.udfHandle == (if session.serverHandle.Some? then session.serverHandle.value else uninit)
    ensures b.step == step && b.input == input && b.state == state
  {
    CallReq(SessionHandle(session, uninit), step, input, state)
  }

  /** callUdf: one request/response task. It returns the task's error code and hands back
    * the output and new state of the call response, when one was read. */
  function CallUdf(call: UvTask): (r: ApiResult)
    ensures r.UndefinedResult? <==> GetUvTaskResponseResult(CallType, call).Undefined?
    ensures r.ApiResult? ==> r.session.None? && r.ret == GetUvTaskResponseResult(CallType, call).errCode
    ensures r.ApiResult? && r.rsp.Some? ==> r.rsp.value.CallRsp?
    ensures call.kind == ReqRsp && call.rspBuf.None? ==> r == ApiResult(call.errCode, None, None)
  {
    match GetUvTaskResponseResult(CallType, call)
    case Undefined => UndefinedResult
    case TaskResult(code, rsp) => ApiResult(code, None, rsp)
  }

  /** A call answered with a call response returns its code, output and new state. */
  lemma CallUdfReturnsOutput(call: UvTask, seqNum: i64, code: i32, output: seq<byte>, newState: seq<byte>)
    requires ValidResponse(Response(seqNum, code, CallRsp(output, newState)))
    requires call.kind == ReqRsp && call.rspBuf == Some(EncodeResponse(Response(seqNum, code, CallRsp(output, newState))))
    ensures CallUdf(call) == ApiResult(code, None, Some(CallRsp(output, newState)))
  {
    ResultOfEncodedResponse(CallType, call, Response(seqNum, code, CallRsp(output, newState)));
  }

  /** The teardown request teardownUdf fills in: the session's handle, as for a call. */
  function TeardownRequest(session: Session, uninit: i64): (b: RequestBody)
    ensures ValidRequest(Request(0, b))
    ensures b.TeardownReq? && b.udfHandle == (if session.serverHandle.Some? then session.serverHandle.value else uninit)
  {
    TeardownReq(SessionHandle(session, uninit))
  }

  /** teardownUdf: returns the teardown task's error code; the disconnect runs after the
    * code is taken, and its outcome is never looked at. */
  function TeardownUdf(teardown: UvTask, disconnect: UvTask): (r: ApiResult)
    ensures r.UndefinedResult? <==> GetUvTaskResponseResult(TeardownType, teardown).Undefined?
    ensures r.ApiResult? ==> r.ret == GetUvTaskResponseResult(TeardownType, teardown).errCode && r.session.None?
  {
    match GetUvTaskResponseResult(TeardownType, teardown)
    case Undefined => UndefinedResult
    case TaskResult(code, rsp) => ApiResult(code, None, rsp)
  }

  /** Nothing the disconnect does changes what teardownUdf returns. This holds by the
    * model's construction: the source takes the code (tudf.c:1032) before it submits
    * the disconnect (tudf.c:1034), so TeardownUdf never reads its disconnect task. */
  lemma TeardownIgnoresDisconnect(teardown: UvTask, d1: UvTask, d2: UvTask)
    ensures TeardownUdf(teardown, d1) == TeardownUdf(teardown, d2)
  {
  }

  /** A teardown swept by a stop or a restart returns the sweep code; one whose pipe
    * closed before the answer returns 0, as if it had succeeded. */
  lemma TeardownAfterSweepOrClose(teardown: UvTask, s: UdfcState, d: UvTask)
    requires teardown.kind == ReqRsp && teardown.rspBuf.None?
    ensures s == Stopping ==> TeardownUdf(Swept(teardown, s), d).ret == UdfcCodeStopping
    ensures s == Restarting ==> TeardownUdf(Swept(teardown, s), d).ret == UdfcCodeRestarting
    ensures TeardownUdf(teardown.(errCode := 0, released := true), d) == ApiResult(0, None, None)
  {
  }
}
