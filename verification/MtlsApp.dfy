/** The mTLS programs' application request and response. */
module MtlsApp {
  import opened Bytes
  import opened AppLayouts

  const MTLS_REQ_V1: byte := 0x41
  const MTLS_RESP_V1: byte := 0x42
  const MAX_CLOCK_SKEW_MS: nat := 300_000

  datatype Lib = Lib(sha256: seq<byte> -> Bytes32, utf8: seq<byte> -> bool)

  datatype AppError =
    | IdTooLong
    | PayloadTooLarge
    | TooShort
    | BadType
    | Malformed
    | NotUtf8
    | LengthMismatch
    | ClockSkew
    | BadStatus
    | WrongRequest

  datatype AuthRequest = AuthRequest(deviceId: seq<byte>, timestamp: u64, nonce: Bytes32, payload: seq<byte>)

  predicate Encodable(m: AuthRequest) {
    |m.deviceId| <= 255 && |m.payload| <= 0xFFFF
  }

  function Request(m: AuthRequest): seq<byte>
    requires Encodable(m)
  {
    Layout(MTLS_REQ_V1, m.deviceId, BeBytes(m.timestamp, 8), m.nonce, BeBytes(|m.payload|, 2), m.payload)
  }

  method BuildAuthRequest(deviceId: seq<byte>, payload: seq<byte>, timestamp: u64, nonce: Bytes32) returns (r: Result<seq<byte>, AppError>)
    ensures var m := AuthRequest(deviceId, timestamp, nonce, payload);
            && (r.Ok? <==> Encodable(m))
            && (r.Ok? ==> r.value == Request(m))
            && (r.Err? ==> r.error == if |deviceId| <= 255 then PayloadTooLarge else IdTooLong)
  {
    if |deviceId| > 0xFF {
      return Err(IdTooLong);
    }
    if |payload| > 0xFFFF {
      return Err(PayloadTooLarge);
    }
    var out: seq<byte> := [MTLS_REQ_V1];
    out := out + [|deviceId|];
    assert out == [MTLS_REQ_V1, |deviceId|];
    out := out + deviceId;
    out := out + BeBytes(timestamp, 8);
    out := out + nonce;
    out := out + BeBytes(|payload|, 2);
    out := out + payload;
    return Ok(out);
  }

  function Skew(now: u64, timestamp: u64): nat {
    if now >= timestamp then now - timestamp else timestamp - now
  }

  function ParseRequest(lib: Lib, buf: seq<byte>, now: u64): Result<AuthRequest, AppError> {
    if |buf| < 44 then Err(TooShort)
    else if buf[0] != MTLS_REQ_V1 then Err(BadType)
    else
      var l := buf[1];
      if |buf| < 44 + l then Err(Malformed)
      else if !lib.utf8(buf[2..2 + l]) then Err(NotUtf8)
      else
        TimestampFits(buf[2 + l..10 + l]);
        var timestamp := BeValue(buf[2 + l..10 + l]);
        if |buf| != 44 + l + BeValue(buf[42 + l..44 + l]) then Err(LengthMismatch)
        else if Skew(now, timestamp) > MAX_CLOCK_SKEW_MS then Err(ClockSkew)
        else Ok(AuthRequest(buf[2..2 + l], timestamp, buf[10 + l..42 + l], buf[44 + l..]))
  }

  lemma TimestampFits(s: seq<byte>)
    requires |s| == 8
    ensures BeValue(s) < 0x1_0000_0000_0000_0000
  {
    BeCanonical(s);
    Pow256Small();
  }

  /** The parser as it runs, its offset moving through the buffer; no read is ever out of range. */
  method ParseAuthRequest(lib: Lib, buf: seq<byte>, now: u64) returns (r: Result<AuthRequest, AppError>)
    ensures r == ParseRequest(lib, buf, now)
  {
    hide BeValue;
    if |buf| < 1 + 1 + 8 + 32 + 2 {
      return Err(TooShort);
    }
    if buf[0] != MTLS_REQ_V1 {
      return Err(BadType);
    }
    var idLen: nat := buf[1];
    var offset: nat := 2;
    if |buf| < offset + idLen + 8 + 32 + 2 {
      return Err(Malformed);
    }
    var deviceId := buf[offset..offset + idLen];
    if !lib.utf8(deviceId) {
      return Err(NotUtf8);
    }
    offset := offset + idLen;
    TimestampFits(buf[offset..offset + 8]);
    var timestamp := BeValue(buf[offset..offset + 8]);
    offset := offset + 8;
    var nonce: Bytes32 := buf[offset..offset + 32];
    offset := offset + 32;
    var payloadLen := BeValue(buf[offset..offset + 2]);
    offset := offset + 2;
    if |buf| != offset + payloadLen {
      return Err(LengthMismatch);
    }
    if Skew(now, timestamp) > MAX_CLOCK_SKEW_MS {
      return Err(ClockSkew);
    }
    return Ok(AuthRequest(deviceId, timestamp, nonce, buf[offset..]));
  }

  /** The server recovers the whole request exactly when its clock is close enough. */
  lemma ParseInvertsBuild(lib: Lib, m: AuthRequest, now: u64)
    requires Encodable(m) && lib.utf8(m.deviceId)
    ensures ParseRequest(lib, Request(m), now) == if -300_000 <= now - m.timestamp <= 300_000 then Ok(m) else Err(ClockSkew)
  {
    hide BeBytes, BeValue, Layout;
    LayoutSlices(MTLS_REQ_V1, m.deviceId, BeBytes(m.timestamp, 8), m.nonce, BeBytes(|m.payload|, 2), m.payload);
    BeRoundTrip(m.timestamp, 8);
    BeRoundTrip(|m.payload|, 2);
    Pow256Small();
  }

  /** An accepted buffer is the encoding of the request parsed from it. */
  lemma BuildInvertsParse(lib: Lib, buf: seq<byte>, now: u64)
    requires ParseRequest(lib, buf, now).Ok?
    ensures var m := ParseRequest(lib, buf, now).value;
            Encodable(m) && lib.utf8(m.deviceId) && -300_000 <= now - m.timestamp <= 300_000 && buf == Request(m)
  {
    hide BeBytes, BeValue, Layout;
    var l := buf[1];
    BeCanonical(buf[2 + l..10 + l]);
    BeCanonical(buf[42 + l..44 + l]);
    Pow256Small();
    SlicesLayout(buf, l);
  }

  /** Where each part of a request stands, its numbers big-endian. */
  lemma RequestLayout(m: AuthRequest)
    requires Encodable(m)
    ensures var b, l := Request(m), |m.deviceId|;
            && |b| == 44 + l + |m.payload| && b[0] == 0x41 && b[1] == l && b[2..2 + l] == m.deviceId
            && BeValue(b[2 + l..10 + l]) == m.timestamp && b[10 + l..42 + l] == m.nonce
            && BeValue(b[42 + l..44 + l]) == |m.payload| && b[44 + l..] == m.payload
  {
    hide BeBytes, BeValue, Layout;
    LayoutSlices(MTLS_REQ_V1, m.deviceId, BeBytes(m.timestamp, 8), m.nonce, BeBytes(|m.payload|, 2), m.payload);
    BeRoundTrip(m.timestamp, 8);
    BeRoundTrip(|m.payload|, 2);
    Pow256Small();
  }

  // The response.

  function Response(lib: Lib, nonce: Bytes32, request: seq<byte>): seq<byte> {
    [MTLS_RESP_V1, 0x00] + nonce + lib.sha256(request)
  }

  method BuildAuthResponse(lib: Lib, request: seq<byte>, nonce: Bytes32) returns (out: seq<byte>)
    ensures out == Response(lib, nonce, request)
  {
    out := [MTLS_RESP_V1];
    out := out + [0x00];
    out := out + nonce;
    out := out + lib.sha256(request);
    assert [MTLS_RESP_V1] + [0x00] == [MTLS_RESP_V1, 0x00];
  }

  function ParseResponse(lib: Lib, resp: seq<byte>, request: seq<byte>): Result<(), AppError> {
    if |resp| != 66 then Err(TooShort)
    else if resp[0] != MTLS_RESP_V1 then Err(BadType)
    else if resp[1] != 0x00 then Err(BadStatus)
    else if resp[34..66] != lib.sha256(request) then Err(WrongRequest)
    else Ok(())
  }

  /** A buffer is accepted for a request exactly when it is the server's response to one with the same hash. */
  lemma AcceptedIffResponse(lib: Lib, resp: seq<byte>, request: seq<byte>)
    ensures ParseResponse(lib, resp, request).Ok? <==> |resp| == 66 && resp == Response(lib, resp[2..34], request)
  {
    if |resp| == 66 {
      var r := Response(lib, resp[2..34], request);
      assert r[34..66] == lib.sha256(request) && r[2..34] == resp[2..34];
      assert resp == [resp[0], resp[1]] + resp[2..34] + resp[34..66];
    }
  }

  /** The server's response to one request is accepted for exactly the requests with the same hash. */
  lemma ResponseAnswersItsRequest(lib: Lib, nonce: Bytes32, request: seq<byte>, asked: seq<byte>)
    ensures var r := Response(lib, nonce, request);
            && |r| == 66 && r[0] == 0x42 && r[1] == 0 && r[2..34] == nonce && r[34..66] == lib.sha256(request)
            && ParseResponse(lib, r, asked) == if lib.sha256(request) == lib.sha256(asked) then Ok(()) else Err(WrongRequest)
  {
  }
}
