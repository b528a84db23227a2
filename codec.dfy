/**
 * The wire codec of the UDF bridge (source/libs/function/src/tudf.c, encodeRequest,
 * decodeRequest, encodeResponse, decodeResponse).
 *
 * A request frame is `[msgLen:i32][seqNum:i64][type:i8]` followed by a payload that
 * depends on the type; a response frame adds `[code:i32]` after the type. `msgLen`
 * counts the whole frame and is written last, once the body is in place. Decoding
 * first compares the leading `msgLen` with the length of the buffer and finally checks
 * that the fields read end exactly at that length.
 *
 * Decoding here fails on every read that would leave the buffer and on a negative
 * embedded length; the C decoder does not check those (it moves its cursor by whatever
 * `pathSize`, `inputBytes`, `stateBytes`, `outputBytes` or `newStateBytes` say).
 */
module UdfCodec {
  import opened Wire

  datatype Option<T> = None | Some(value: T)

  // UDF_TASK_SETUP, UDF_TASK_CALL and UDF_TASK_TEARDOWN, the values of the `type` byte.
  const SetupType: i8 := 0
  const CallType: i8 := 1
  const TeardownType: i8 := 2

  /** sizeof(msgLen) + sizeof(seqNum) + sizeof(type). */
  const RequestHeaderSize: nat := 13
  /** The request header plus sizeof(code). */
  const ResponseHeaderSize: nat := 17
  /** Largest frame whose length an int32 `msgLen` can announce. */
  const MaxFrameSize: nat := 0x7fff_ffff

  /** The payload of a request, one variant per task type. A type byte the codec does
    * not know is carried with an empty payload, as both C switches fall through for it. */
  datatype RequestBody =
    | SetupReq(udfName: seq<byte>, scriptType: i8, udfType: i8, path: seq<byte>)
    | CallReq(udfHandle: i64, step: i8, input: seq<byte>, state: seq<byte>)
    | TeardownReq(udfHandle: i64)
    | UnknownReq(typeCode: i8)

  datatype Request = Request(seqNum: i64, body: RequestBody)

  datatype ResponseBody =
    | SetupRsp(udfHandle: i64)
    | CallRsp(output: seq<byte>, newState: seq<byte>)
    | TeardownRsp
    | UnknownRsp(typeCode: i8)

  datatype Response = Response(seqNum: i64, code: i32, body: ResponseBody)

  predicate KnownType(t: i8) {
    t == SetupType || t == CallType || t == TeardownType
  }

  function RequestType(b: RequestBody): (t: i8)
  {
    match b
    case SetupReq(_, _, _, _) => SetupType
    case CallReq(_, _, _, _) => CallType
    case TeardownReq(_) => TeardownType
    case UnknownReq(t) => t
  }

  function ResponseType(b: ResponseBody): (t: i8)
  {
    match b
    case SetupRsp(_) => SetupType
    case CallRsp(_, _) => CallType
    case TeardownRsp => TeardownType
    case UnknownRsp(t) => t
  }

  /** The number of payload bytes the encoder writes for a request of this shape, field
    * by field (the C size estimate uses struct sizes and may be larger). */
  function RequestPayloadSize(b: RequestBody): nat
  {
    match b
    case SetupReq(_, _, _, path) => 16 + 1 + 1 + 2 + |path|
    case CallReq(_, _, input, state) => 8 + 1 + 4 + |input| + 4 + |state|
    case TeardownReq(_) => 8
    case UnknownReq(_) => 0
  }

  function ResponsePayloadSize(b: ResponseBody): nat
  {
    match b
    case SetupRsp(_) => 8
    case CallRsp(output, newState) => 4 + |output| + 4 + |newState|
    case TeardownRsp => 0
    case UnknownRsp(_) => 0
  }

  /** What the encoder can represent: the fixed-size name is 16 bytes, every length fits
    * its field, the frame length fits `msgLen`, and an unknown type is really unknown. */
  predicate ValidRequest(r: Request)
  {
    && RequestHeaderSize + RequestPayloadSize(r.body) <= MaxFrameSize
    && match r.body
       case SetupReq(name, _, _, path) => |name| == 16 && |path| < 0x8000
       case CallReq(_, _, _, _) => true
       case TeardownReq(_) => true
       case UnknownReq(t) => !KnownType(t)
  }

  predicate ValidResponse(r: Response)
  {
    && ResponseHeaderSize + ResponsePayloadSize(r.body) <= MaxFrameSize
    && (r.body.UnknownRsp? ==> !KnownType(r.body.typeCode))
  }

  // ----- requests -----

  function EncodeRequestBody(b: RequestBody): (p: seq<byte>)
    requires ValidRequest(Request(0, b))
  {
    match b
    case SetupReq(name, scriptType, udfType, path) =>
      name + EncodeI8(scriptType) + EncodeI8(udfType) + EncodeI16(|path|) + path
    case CallReq(handle, step, input, state) =>
      EncodeI64(handle) + EncodeI8(step) + EncodeI32(|input|) + input + EncodeI32(|state|) + state
    case TeardownReq(handle) => EncodeI64(handle)
    case UnknownReq(_) => []
  }

  /** encodeRequest: header, payload, and `msgLen` equal to the number of bytes written. */
  function EncodeRequest(r: Request): (f: seq<byte>)
    requires ValidRequest(r)
    ensures |f| == RequestHeaderSize + RequestPayloadSize(r.body)
    ensures DecodeI32(f[..4]) == |f|
  {
    var p := EncodeRequestBody(r.body);
    var f := EncodeI32(RequestHeaderSize + |p|) + EncodeI64(r.seqNum) + EncodeI8(RequestType(r.body)) + p;
    assert f[..4] == EncodeI32(RequestHeaderSize + |p|);
    f
  }

  /** The payload of a request of type t, which must take up all of p. */
  function DecodeRequestBody(t: i8, p: seq<byte>): (b: Option<RequestBody>)
    ensures b.Some? ==> RequestType(b.value) == t && RequestPayloadSize(b.value) == |p|
  {
    if t == SetupType then
      if |p| < 20 then None
      else
        var pathSize := DecodeI16(p[18..20]);
        if pathSize < 0 || |p| != 20 + pathSize then None
        else Some(SetupReq(p[..16], DecodeI8(p[16..17]), DecodeI8(p[17..18]), p[20..]))
    else if t == CallType then
      if |p| < 13 then None
      else
        var inputBytes := DecodeI32(p[9..13]);
        if inputBytes < 0 || |p| < 17 + inputBytes then None
        else
          var stateBytes := DecodeI32(p[13 + inputBytes..17 + inputBytes]);
          if stateBytes < 0 || |p| != 17 + inputBytes + stateBytes then None
          else Some(CallReq(DecodeI64(p[..8]), DecodeI8(p[8..9]), p[13..13 + inputBytes], p[17 + inputBytes..]))
    else if t == TeardownType then
      if |p| != 8 then None else Some(TeardownReq(DecodeI64(p)))
    else
      if |p| != 0 then None else Some(UnknownReq(t))
  }

  /** decodeRequest: fails unless the leading `msgLen` equals the buffer length and the
    * fields end exactly at the end of the buffer. */
  function DecodeRequest(s: seq<byte>): (r: Option<Request>)
    ensures r.Some? ==> |s| >= RequestHeaderSize && DecodeI32(s[..4]) == |s|
    ensures r.Some? ==> RequestType(r.value.body) == DecodeI8(s[12..13])
  {
    if |s| < 4 || DecodeI32(s[..4]) != |s| then None
    else if |s| < RequestHeaderSize then None
    else
      match DecodeRequestBody(DecodeI8(s[12..13]), s[13..])
      case None => None
      case Some(b) => Some(Request(DecodeI64(s[4..12]), b))
  }

  lemma SetupBodyRoundTrip(b: RequestBody)
    requires b.SetupReq? && ValidRequest(Request(0, b))
    ensures DecodeRequestBody(SetupType, EncodeRequestBody(b)) == Some(b)
  {
    var p := EncodeRequestBody(b);
    assert p[..16] == b.udfName;
    assert p[16..17] == EncodeI8(b.scriptType);
    assert p[17..18] == EncodeI8(b.udfType);
    assert p[18..20] == EncodeI16(|b.path|);
    assert p[20..] == b.path;
  }

  lemma CallBodyRoundTrip(b: RequestBody)
    requires b.CallReq? && ValidRequest(Request(0, b))
    ensures DecodeRequestBody(CallType, EncodeRequestBody(b)) == Some(b)
  {
    var p := EncodeRequestBody(b);
    var n := |b.input|;
    assert p[..8] == EncodeI64(b.udfHandle);
    assert p[8..9] == EncodeI8(b.step);
    assert p[9..13] == EncodeI32(n);
    assert p[13..13 + n] == b.input;
    assert p[13 + n..17 + n] == EncodeI32(|b.state|);
    assert p[17 + n..] == b.state;
  }

  lemma RequestBodyRoundTrip(b: RequestBody)
    requires ValidRequest(Request(0, b))
    ensures DecodeRequestBody(RequestType(b), EncodeRequestBody(b)) == Some(b)
  {
    if b.SetupReq? {
      SetupBodyRoundTrip(b);
    } else if b.CallReq? {
      CallBodyRoundTrip(b);
    }
  }

  /** Every request the encoder accepts, zero-length path, input and state included,
    * decodes back to itself. */
  lemma RequestRoundTrip(r: Request)
    requires ValidRequest(r)
    ensures DecodeRequest(EncodeRequest(r)) == Some(r)
  {
    var f := EncodeRequest(r);
    var p := EncodeRequestBody(r.body);
    assert f[4..12] == EncodeI64(r.seqNum);
    assert f[12..13] == EncodeI8(RequestType(r.body));
    assert f[13..] == p;
    RequestBodyRoundTrip(r.body);
  }

  lemma CallBodyCanonical(p: seq<byte>)
    requires DecodeRequestBody(CallType, p).Some?
    requires RequestHeaderSize + |p| <= MaxFrameSize
    ensures EncodeRequestBody(DecodeRequestBody(CallType, p).value) == p
  {
    var b := DecodeRequestBody(CallType, p).value;
    var n := DecodeI32(p[9..13]);
    assert 0 <= n && 17 + n <= |p|;
    var input, stateBytes, state := p[13..13 + n], p[13 + n..17 + n], p[17 + n..];
    assert b == CallReq(DecodeI64(p[..8]), DecodeI8(p[8..9]), input, state);
    assert EncodeI32(|input|) == p[9..13];
    assert EncodeI32(|state|) == stateBytes;
    SplitCallPayload(p, n);
  }

  /** The call payload is the concatenation of its fields. */
  lemma SplitCallPayload(p: seq<byte>, n: nat)
    requires 17 + n <= |p|
    ensures p == p[..8] + p[8..9] + p[9..13] + p[13..13 + n] + p[13 + n..17 + n] + p[17 + n..]
  {
    assert p[13..] == p[13..13 + n] + p[13 + n..17 + n] + p[17 + n..];
    assert p == p[..8] + p[8..9] + p[9..13] + p[13..];
  }

  lemma RequestBodyCanonical(t: i8, p: seq<byte>)
    requires DecodeRequestBody(t, p).Some?
    requires RequestHeaderSize + |p| <= MaxFrameSize
    ensures ValidRequest(Request(0, DecodeRequestBody(t, p).value))
    ensures EncodeRequestBody(DecodeRequestBody(t, p).value) == p
  {
    if t == SetupType {
      assert p == p[..16] + p[16..17] + p[17..18] + p[18..20] + p[20..];
    } else if t == CallType {
      CallBodyCanonical(p);
    }
  }

  /** Decoding accepts nothing but encoder output: a frame that decodes is exactly the
    * encoding of what it decodes to, so the codec is a bijection on valid requests. */
  lemma RequestDecodeCanonical(s: seq<byte>)
    requires DecodeRequest(s).Some?
    ensures ValidRequest(DecodeRequest(s).value)
    ensures EncodeRequest(DecodeRequest(s).value) == s
  {
    var r := DecodeRequest(s).value;
    var p := s[13..];
    assert r.seqNum == DecodeI64(s[4..12]) && r.body == DecodeRequestBody(DecodeI8(s[12..13]), p).value;
    RequestBodyCanonical(DecodeI8(s[12..13]), p);
    assert EncodeI32(RequestHeaderSize + |p|) == s[..4];
    assert EncodeI64(r.seqNum) == s[4..12];
    assert EncodeI8(RequestType(r.body)) == s[12..13];
    SplitHeader(s, 13);
  }

  /** A frame is its length field, its sequence number, its type byte and the rest. */
  lemma SplitHeader(s: seq<byte>, n: nat)
    requires 13 <= n <= |s|
    ensures s == s[..4] + s[4..12] + s[12..13] + s[13..n] + s[n..]
  {
    assert s[..13] == s[..4] + s[4..12] + s[12..13];
    assert s == s[..13] + s[13..n] + s[n..];
  }

  // ----- responses -----

  function EncodeResponseBody(b: ResponseBody): (p: seq<byte>)
    requires ResponseHeaderSize + ResponsePayloadSize(b) <= MaxFrameSize
  {
    match b
    case SetupRsp(handle) => EncodeI64(handle)
    case CallRsp(output, newState) =>
      EncodeI32(|output|) + output + EncodeI32(|newState|) + newState
    case TeardownRsp => []
    case UnknownRsp(_) => []
  }

  /** encodeResponse: header with `code`, payload, and `msgLen` equal to the bytes written. */
  function EncodeResponse(r: Response): (f: seq<byte>)
    requires ValidResponse(r)
    ensures |f| == ResponseHeaderSize + ResponsePayloadSize(r.body)
    ensures DecodeI32(f[..4]) == |f|
  {
    var p := EncodeResponseBody(r.body);
    var f := EncodeI32(ResponseHeaderSize + |p|) + EncodeI64(r.seqNum) + EncodeI8(ResponseType(r.body))
             + EncodeI32(r.code) + p;
    assert f[..4] == EncodeI32(ResponseHeaderSize + |p|);
    f
  }

  function DecodeResponseBody(t: i8, p: seq<byte>): (b: Option<ResponseBody>)
    ensures b.Some? ==> ResponseType(b.value) == t && ResponsePayloadSize(b.value) == |p|
  {
    if t == SetupType then
      if |p| != 8 then None else Some(SetupRsp(DecodeI64(p)))
    else if t == CallType then
      if |p| < 4 then None
      else
        var outputBytes := DecodeI32(p[..4]);
        if outputBytes < 0 || |p| < 8 + outputBytes then None
        else
          var newStateBytes := DecodeI32(p[4 + outputBytes..8 + outputBytes]);
          if newStateBytes < 0 || |p| != 8 + outputBytes + newStateBytes then None
          else Some(CallRsp(p[4..4 + outputBytes], p[8 + outputBytes..]))
    else if t == TeardownType then
      if |p| != 0 then None else Some(TeardownRsp)
    else
      if |p| != 0 then None else Some(UnknownRsp(t))
  }

  /** decodeResponse: the same two framing checks as for requests. */
  function DecodeResponse(s: seq<byte>): (r: Option<Response>)
    ensures r.Some? ==> |s| >= ResponseHeaderSize && DecodeI32(s[..4]) == |s|
    ensures r.Some? ==> ResponseType(r.value.body) == DecodeI8(s[12..13])
  {
    if |s| < 4 || DecodeI32(s[..4]) != |s| then None
    else if |s| < ResponseHeaderSize then None
    else
      match DecodeResponseBody(DecodeI8(s[12..13]), s[17..])
      case None => None
      case Some(b) => Some(Response(DecodeI64(s[4..12]), DecodeI32(s[13..17]), b))
  }

  lemma ResponseBodyRoundTrip(b: ResponseBody)
    requires ValidResponse(Response(0, 0, b))
    ensures DecodeResponseBody(ResponseType(b), EncodeResponseBody(b)) == Some(b)
  {
    var p := EncodeResponseBody(b);
    match b
    case SetupRsp(handle) =>
    case CallRsp(output, newState) =>
      var n := |output|;
      assert p[..4] == EncodeI32(n);
      assert p[4..4 + n] == output;
      assert p[4 + n..8 + n] == EncodeI32(|newState|);
      assert p[8 + n..] == newState;
    case TeardownRsp =>
    case UnknownRsp(t) =>
  }

  /** Every response, zero-length output and new state included, decodes back to itself. */
  lemma ResponseRoundTrip(r: Response)
    requires ValidResponse(r)
    ensures DecodeResponse(EncodeResponse(r)) == Some(r)
  {
    var f := EncodeResponse(r);
    var p := EncodeResponseBody(r.body);
    assert f[4..12] == EncodeI64(r.seqNum);
    assert f[12..13] == EncodeI8(ResponseType(r.body));
    assert f[13..17] == EncodeI32(r.code);
    assert f[17..] == p;
    ResponseBodyRoundTrip(r.body);
  }

  lemma ResponseBodyCanonical(t: i8, p: seq<byte>)
    requires DecodeResponseBody(t, p).Some?
    requires ResponseHeaderSize + |p| <= MaxFrameSize
    ensures ValidResponse(Response(0, 0, DecodeResponseBody(t, p).value))
    ensures EncodeResponseBody(DecodeResponseBody(t, p).value) == p
  {
    if t == CallType {
      var n := DecodeI32(p[..4]);
      assert p == p[..4] + p[4..4 + n] + p[4 + n..8 + n] + p[8 + n..];
    }
  }

  lemma ResponseDecodeCanonical(s: seq<byte>)
    requires DecodeResponse(s).Some?
    ensures ValidResponse(DecodeResponse(s).value)
    ensures EncodeResponse(DecodeResponse(s).value) == s
  {
    var r := DecodeResponse(s).value;
    var p := s[17..];
    assert r.seqNum == DecodeI64(s[4..12]) && r.code == DecodeI32(s[13..17]);
    assert r.body == DecodeResponseBody(DecodeI8(s[12..13]), p).value;
    ResponseBodyCanonical(DecodeI8(s[12..13]), p);
    assert EncodeI32(ResponseHeaderSize + |p|) == s[..4];
    assert EncodeI64(r.seqNum) == s[4..12];
    assert EncodeI8(ResponseType(r.body)) == s[12..13];
    assert EncodeI32(r.code) == s[13..17];
    SplitHeader(s, 17);
  }

  /** A Teardown response carries nothing after the header. */
  lemma TeardownResponseIsHeaderOnly(seqNum: i64, code: i32)
    ensures ValidResponse(Response(seqNum, code, TeardownRsp))
    ensures |EncodeResponse(Response(seqNum, code, TeardownRsp))| == ResponseHeaderSize
  {
  }
}
