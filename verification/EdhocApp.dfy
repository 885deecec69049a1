/** The EDHOC programs' protected application request and response. */
module EdhocApp {
  import opened Bytes
  import opened Transcript
  import opened AppLayouts

  const APP_REQ_VERSION: byte := 1
  const APP_RESP_VERSION: byte := 1
  const REQUEST_LABEL := Ascii("edhoc-app-request-v1")
  const RESPONSE_LABEL := Ascii("edhoc-app-response-v1")
  const MAX_FRAME: nat := 4096

  /** The library functions the codec calls. */
  datatype Lib = Lib(hmac: (Bytes32, seq<byte>) -> Bytes32, sha256: seq<byte> -> Bytes32, utf8: seq<byte> -> bool)

  datatype AppError =
    | BadDeviceId
    | PayloadTooLarge
    | TooShort
    | BadVersion
    | Truncated
    | BadTag
    | NotUtf8
    | LengthMismatch
    | WrongRequest

  // The request.

  /** What the client sends under its key. */
  datatype Message = Message(deviceId: seq<byte>, timestamp: u64, nonce: Bytes32, payload: seq<byte>)

  /** What the server takes out of it. */
  datatype ProtectedRequest = ProtectedRequest(deviceId: seq<byte>, timestamp: u64, payloadLen: nat)

  predicate Encodable(m: Message) {
    1 <= |m.deviceId| <= 64 && |m.payload| <= 0xFFFF
  }

  function Body(m: Message): seq<byte>
    requires Encodable(m)
  {
    Layout(APP_REQ_VERSION, m.deviceId, LeBytes(m.timestamp, 8), m.nonce, LeBytes(|m.payload|, 2), m.payload)
  }

  function Request(lib: Lib, key: Bytes32, m: Message): seq<byte>
    requires Encodable(m)
  {
    Body(m) + lib.hmac(key, REQUEST_LABEL + Body(m))
  }

  method BuildProtectedRequest(lib: Lib, deviceId: seq<byte>, payload: seq<byte>, key: Bytes32, timestamp: u64, nonce: Bytes32)
    returns (r: Result<seq<byte>, AppError>)
    ensures var m := Message(deviceId, timestamp, nonce, payload);
            && (r.Ok? <==> Encodable(m))
            && (r.Ok? ==> r.value == Request(lib, key, m))
            && (r.Err? ==> r.error == if 1 <= |deviceId| <= 64 then PayloadTooLarge else BadDeviceId)
  {
    if |deviceId| == 0 || |deviceId| > 64 {
      return Err(BadDeviceId);
    }
    if |payload| > 0xFFFF {
      return Err(PayloadTooLarge);
    }
    var body: seq<byte> := [APP_REQ_VERSION];
    body := body + [|deviceId|];
    body := body + deviceId;
    body := body + LeBytes(timestamp, 8);
    body := body + nonce;
    body := body + LeBytes(|payload|, 2);
    body := body + payload;
    assert [APP_REQ_VERSION] + [|deviceId|] == [APP_REQ_VERSION, |deviceId|];
    assert body == Body(Message(deviceId, timestamp, nonce, payload));
    var tag := lib.hmac(key, REQUEST_LABEL + body);
    return Ok(body + tag);
  }

  /** The server's checks in order. */
  function ParseRequest(lib: Lib, request: seq<byte>, key: Bytes32): Result<ProtectedRequest, AppError> {
    if |request| < 76 then Err(TooShort)
    else if request[0] != APP_REQ_VERSION then Err(BadVersion)
    else
      var l := request[1];
      if l == 0 || l > 64 then Err(BadDeviceId)
      else if |request| < 76 + l then Err(Truncated)
      else
        var tagStart := |request| - 32;
        if request[tagStart..] != lib.hmac(key, REQUEST_LABEL + request[..tagStart]) then Err(BadTag)
        else if !lib.utf8(request[2..2 + l]) then Err(NotUtf8)
        else
          var n := LeValue(request[42 + l..44 + l]);
          TimestampFits(request[2 + l..10 + l]);
          if 44 + l + n != tagStart then Err(LengthMismatch)
          else Ok(ProtectedRequest(request[2..2 + l], LeValue(request[2 + l..10 + l]), n))
  }

  lemma TimestampFits(s: seq<byte>)
    requires |s| == 8
    ensures LeValue(s) < 0x1_0000_0000_0000_0000
  {
    LeCanonical(s);
    Pow256Small();
  }

  /** The parser as it runs, its offset moving through the buffer; no read is ever out of range. */
  method ParseAndVerifyRequest(lib: Lib, request: seq<byte>, key: Bytes32) returns (r: Result<ProtectedRequest, AppError>)
    ensures r == ParseRequest(lib, request, key)
  {
    hide LeValue;
    if |request| < 1 + 1 + 8 + 32 + 2 + 32 {
      return Err(TooShort);
    }
    if request[0] != APP_REQ_VERSION {
      return Err(BadVersion);
    }
    var deviceLen: nat := request[1];
    if deviceLen == 0 || deviceLen > 64 {
      return Err(BadDeviceId);
    }
    if |request| < 1 + 1 + 8 + 32 + 2 + 32 + deviceLen {
      return Err(Truncated);
    }
    var tagStart := |request| - 32;
    var expectedTag := lib.hmac(key, REQUEST_LABEL + request[..tagStart]);
    if request[tagStart..] != expectedTag {
      return Err(BadTag);
    }
    var offset: nat := 2;
    var deviceId := request[offset..offset + deviceLen];
    if !lib.utf8(deviceId) {
      return Err(NotUtf8);
    }
    offset := offset + deviceLen;
    TimestampFits(request[offset..offset + 8]);
    var timestamp := LeValue(request[offset..offset + 8]);
    offset := offset + 8;
    offset := offset + 32; // client nonce
    var payloadLen := LeValue(request[offset..offset + 2]);
    offset := offset + 2;
    if offset + payloadLen != tagStart {
      return Err(LengthMismatch);
    }
    return Ok(ProtectedRequest(deviceId, timestamp, payloadLen));
  }

  /** The server recovers what the client put in. */
  lemma ParseInvertsBuild(lib: Lib, key: Bytes32, m: Message)
    requires Encodable(m) && lib.utf8(m.deviceId)
    ensures ParseRequest(lib, Request(lib, key, m), key) == Ok(ProtectedRequest(m.deviceId, m.timestamp, |m.payload|))
  {
    hide LeBytes, LeValue, Layout;
    var ts, len := LeBytes(m.timestamp, 8), LeBytes(|m.payload|, 2);
    var body, l := Body(m), |m.deviceId|;
    var request := Request(lib, key, m);
    LayoutSlices(APP_REQ_VERSION, m.deviceId, ts, m.nonce, len, m.payload);
    LeRoundTrip(m.timestamp, 8);
    LeRoundTrip(|m.payload|, 2);
    Pow256Small();
    assert request[..|body|] == body && request[|body|..] == lib.hmac(key, REQUEST_LABEL + body);
    assert request[2..2 + l] == body[2..2 + l] && request[2 + l..10 + l] == body[2 + l..10 + l];
    assert request[42 + l..44 + l] == body[42 + l..44 + l];
  }

  /** The message an accepted buffer carries. */
  function Carried(request: seq<byte>): Message
    requires |request| >= 76 && |request| - 76 >= request[1]
  {
    var l: nat := request[1];
    TimestampFits(request[2 + l..10 + l]);
    Message(request[2..2 + l], LeValue(request[2 + l..10 + l]), request[10 + l..42 + l], request[44 + l..|request| - 32])
  }

  /** An accepted buffer is exactly the encoding of the message it carries, under a UTF-8 id and the right tag. */
  lemma BuildInvertsParse(lib: Lib, request: seq<byte>, key: Bytes32)
    requires ParseRequest(lib, request, key).Ok?
    ensures var m, p := Carried(request), ParseRequest(lib, request, key).value;
            && Encodable(m) && lib.utf8(m.deviceId)
            && p == ProtectedRequest(m.deviceId, m.timestamp, |m.payload|)
            && request == Request(lib, key, m)
  {
    hide LeBytes, LeValue, Layout;
    var l: nat, tagStart := request[1], |request| - 32;
    var body := request[..tagStart];
    var ts, len := request[2 + l..10 + l], request[42 + l..44 + l];
    assert body[2..2 + l] == request[2..2 + l] && body[2 + l..10 + l] == ts;
    assert body[10 + l..42 + l] == request[10 + l..42 + l] && body[42 + l..44 + l] == len;
    assert body[44 + l..] == request[44 + l..tagStart];
    LeCanonical(ts);
    LeCanonical(len);
    Pow256Small();
    SlicesLayout(body, l);
    assert request == body + request[tagStart..];
  }

  /** Where each part of a request stands, its numbers little-endian, the tag last. */
  lemma RequestLayout(lib: Lib, key: Bytes32, m: Message)
    requires Encodable(m)
    ensures var b, l, t := Request(lib, key, m), |m.deviceId|, 44 + |m.deviceId| + |m.payload|;
            && |b| == t + 32 && b[0] == 1 && b[1] == l && b[2..2 + l] == m.deviceId
            && LeValue(b[2 + l..10 + l]) == m.timestamp && b[10 + l..42 + l] == m.nonce
            && LeValue(b[42 + l..44 + l]) == |m.payload| && b[44 + l..t] == m.payload
            && b[t..] == lib.hmac(key, REQUEST_LABEL + b[..t])
  {
    hide LeBytes, LeValue, Layout;
    var body, l := Body(m), |m.deviceId|;
    LayoutSlices(APP_REQ_VERSION, m.deviceId, LeBytes(m.timestamp, 8), m.nonce, LeBytes(|m.payload|, 2), m.payload);
    LeRoundTrip(m.timestamp, 8);
    LeRoundTrip(|m.payload|, 2);
    Pow256Small();
    var b := Request(lib, key, m);
    assert b[..|body|] == body && b[|body|..] == lib.hmac(key, REQUEST_LABEL + body);
    assert b[2..2 + l] == body[2..2 + l] && b[2 + l..10 + l] == body[2 + l..10 + l] && b[10 + l..42 + l] == body[10 + l..42 + l];
    assert b[42 + l..44 + l] == body[42 + l..44 + l] && b[44 + l..|body|] == body[44 + l..];
  }

  /** Two inputs under one key on which HMAC collides. */
  predicate MacCollision(lib: Lib, key: Bytes32, a: seq<byte>, b: seq<byte>) {
    a != b && lib.hmac(key, a) == lib.hmac(key, b)
  }

  /** The request's tag covers all of it: one tag on two accepted requests means one message, or HMAC collides on the two. */
  lemma RequestTagCovers(lib: Lib, key: Bytes32, a: seq<byte>, b: seq<byte>)
    requires ParseRequest(lib, a, key).Ok? && ParseRequest(lib, b, key).Ok?
    requires a[|a| - 32..] == b[|b| - 32..]
    ensures a == b || MacCollision(lib, key, REQUEST_LABEL + a[..|a| - 32], REQUEST_LABEL + b[..|b| - 32])
  {
    hide LeValue;
    var x, y := a[..|a| - 32], b[..|b| - 32];
    assert a == x + a[|a| - 32..] && b == y + b[|b| - 32..];
    assert (REQUEST_LABEL + x)[|REQUEST_LABEL|..] == x && (REQUEST_LABEL + y)[|REQUEST_LABEL|..] == y;
  }

  /** A request the client builds is one frame of the server's only if id and payload together stay within 4020 bytes. */
  lemma FitsFrameIff(lib: Lib, key: Bytes32, m: Message)
    requires Encodable(m)
    ensures |Request(lib, key, m)| <= MAX_FRAME <==> |m.deviceId| + |m.payload| <= 4020
  {
    LayoutSlices(APP_REQ_VERSION, m.deviceId, LeBytes(m.timestamp, 8), m.nonce, LeBytes(|m.payload|, 2), m.payload);
  }

  // The response: 98 bytes, bound to the request by its hash.

  function Response(lib: Lib, key: Bytes32, status: byte, nonce: Bytes32, request: seq<byte>): seq<byte> {
    var body := [APP_RESP_VERSION, status] + nonce + lib.sha256(request);
    body + lib.hmac(key, RESPONSE_LABEL + body)
  }

  method BuildResponse(lib: Lib, status: byte, request: seq<byte>, key: Bytes32, nonce: Bytes32) returns (response: seq<byte>)
    ensures response == Response(lib, key, status, nonce, request)
  {
    var body: seq<byte> := [APP_RESP_VERSION];
    body := body + [status];
    body := body + nonce;
    body := body + lib.sha256(request);
    assert [APP_RESP_VERSION] + [status] == [APP_RESP_VERSION, status];
    var tag := lib.hmac(key, RESPONSE_LABEL + body);
    response := body + tag;
  }

  function ParseResponse(lib: Lib, response: seq<byte>, request: seq<byte>, key: Bytes32): Result<byte, AppError> {
    if |response| != 98 then Err(TooShort)
    else if response[0] != APP_RESP_VERSION then Err(BadVersion)
    else if response[66..98] != lib.hmac(key, RESPONSE_LABEL + response[..66]) then Err(BadTag)
    else if response[34..66] != lib.sha256(request) then Err(WrongRequest)
    else Ok(response[1])
  }

  /** The client accepts the server's response to its request, and to another request only if their hashes collide. */
  lemma ResponseAnswersItsRequest(lib: Lib, key: Bytes32, status: byte, nonce: Bytes32, request: seq<byte>, asked: seq<byte>)
    ensures ParseResponse(lib, Response(lib, key, status, nonce, request), asked, key)
            == if lib.sha256(request) == lib.sha256(asked) then Ok(status) else Err(WrongRequest)
  {
    var body := [APP_RESP_VERSION, status] + nonce + lib.sha256(request);
    var response := Response(lib, key, status, nonce, request);
    assert response[..66] == body && response[66..98] == lib.hmac(key, RESPONSE_LABEL + body);
    assert response[34..66] == body[34..66] == lib.sha256(request);
    assert response[0] == body[0] && response[1] == body[1];
  }

  /** An accepted response is the encoding of its status and nonce for that request. */
  lemma AcceptedResponse(lib: Lib, response: seq<byte>, request: seq<byte>, key: Bytes32)
    requires ParseResponse(lib, response, request, key).Ok?
    ensures response == Response(lib, key, ParseResponse(lib, response, request, key).value, response[2..34], request)
  {
    var body := [APP_RESP_VERSION, response[1]] + response[2..34] + lib.sha256(request);
    assert response[..66] == body;
    assert response == response[..66] + response[66..98];
  }

  /** The response's tag covers its status, nonce and request hash, unless HMAC collides. */
  lemma ResponseTagCovers(lib: Lib, key: Bytes32, a: seq<byte>, b: seq<byte>, asked: seq<byte>, asked': seq<byte>)
    requires ParseResponse(lib, a, asked, key).Ok? && ParseResponse(lib, b, asked', key).Ok?
    requires a[66..] == b[66..]
    ensures a == b || MacCollision(lib, key, RESPONSE_LABEL + a[..66], RESPONSE_LABEL + b[..66])
  {
    assert a == a[..66] + a[66..98] && b == b[..66] + b[66..98];
    assert (RESPONSE_LABEL + a[..66])[|RESPONSE_LABEL|..] == a[..66] && (RESPONSE_LABEL + b[..66])[|RESPONSE_LABEL|..] == b[..66];
  }

  /** What is tagged as a request is never what is tagged as a response. */
  lemma LabelsDiffer(x: seq<byte>, y: seq<byte>)
    ensures REQUEST_LABEL + x != RESPONSE_LABEL + y
  {
    assert (REQUEST_LABEL + x)[12] == REQUEST_LABEL[12] && (RESPONSE_LABEL + y)[12] == RESPONSE_LABEL[12];
    assert REQUEST_LABEL[12] == 'q' as int && RESPONSE_LABEL[12] == 's' as int;
  }
}
