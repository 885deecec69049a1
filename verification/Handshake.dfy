/**
 The online handshake of the Rust client and server: the bytes of both messages, what each
 side checks and in which order, the key schedule, and that an honest run always completes.
 */
module Handshake {
  import opened Bytes
  import opened PrimeField
  import opened Transcript
  import opened Suites
  import opened Sigma
  import opened RoleMembership
  import Hkdf
  import Registries
  import Replay

  // Key schedule.

  function SharedPoint(S: Suite, ephSecret: Scalar, peerEph: Point): Point
    requires S.q > 0
  {
    S.Mul(peerEph, ephSecret)
  }

  function SessionKey(S: Suite, shared: Point, n: Session, nonceS: Bytes32, ephS: Point): Bytes32 {
    Hkdf.Expand32(S.hmac, Hkdf.Extract(S.hmac, n.nonceC + nonceS, S.compress(shared)),
                  Ascii("session key v2") + n.pid + S.compress(n.ephC) + S.compress(ephS))
  }

  /** Everything the key confirmation covers. */
  datatype KcState = KcState(n: Session, aC: Point, sC: Scalar, serverPub: Point, aS: Point, sS: Scalar, nonceS: Bytes32, ephS: Point)

  predicate ScalarsIn(S: Suite, k: KcState) {
    S.In(k.sC) && S.In(k.sS)
  }

  /** The confirmation's fields, the client's response as the bytes it was sent as. */
  function KcFieldsOver(S: Suite, n: Session, aC: Point, sC: Bytes32, serverPub: Point, aS: Point, sS: Bytes32, nonceS: Bytes32, ephS: Point): seq<Field> {
    [Field(Ascii("pid"), n.pid),
     Field(Ascii("a_c"), S.compress(aC)),
     Field(Ascii("s_c"), sC),
     Field(Ascii("nonce_c"), n.nonceC),
     Field(Ascii("eph_c"), S.compress(n.ephC)),
     Field(Ascii("server_pub"), S.compress(serverPub)),
     Field(Ascii("a_s"), S.compress(aS)),
     Field(Ascii("s_s"), sS),
     Field(Ascii("nonce_s"), nonceS),
     Field(Ascii("eph_s"), S.compress(ephS))]
  }

  function KcFields(S: Suite, k: KcState): seq<Field>
    requires ScalarsIn(S, k)
  {
    KcFieldsOver(S, k.n, k.aC, S.ScalarBytes(k.sC), k.serverPub, k.aS, S.ScalarBytes(k.sS), k.nonceS, k.ephS)
  }

  function KcTranscriptHash(S: Suite, k: KcState): Bytes32
    requires ScalarsIn(S, k)
  {
    S.sha256(Encode(T_KC_V2, KcFields(S, k)))
  }

  const S2C := Ascii("kc s2c")
  const C2S := Ascii("kc c2s")
  const SERVER_FINISHED := Ascii("server finished")
  const CLIENT_FINISHED := Ascii("client finished")

  function KcKey(S: Suite, sessionKey: Bytes32, th: Bytes32, direction: seq<byte>): Bytes32 {
    Hkdf.Expand32(S.hmac, Hkdf.Extract(S.hmac, th, sessionKey), direction)
  }

  function FinishedTag(S: Suite, sessionKey: Bytes32, th: Bytes32, direction: seq<byte>, finished: seq<byte>): Bytes32 {
    S.hmac(KcKey(S, sessionKey, th, direction), finished + th)
  }

  function TagS(S: Suite, sessionKey: Bytes32, k: KcState): Bytes32
    requires ScalarsIn(S, k)
  {
    FinishedTag(S, sessionKey, KcTranscriptHash(S, k), S2C, SERVER_FINISHED)
  }

  function TagC(S: Suite, sessionKey: Bytes32, k: KcState): Bytes32
    requires ScalarsIn(S, k)
  {
    FinishedTag(S, sessionKey, KcTranscriptHash(S, k), C2S, CLIENT_FINISHED)
  }

  // The first message.

  const MSG_AUTH_V2: byte := 0x03
  const MSG_AUTH_V3: byte := 0x04
  const FLAG_DEVICE_ONLY: byte := 0x01
  const FLAG_HANDLE_LOOKUP: byte := 0x02

  predicate HasFlag(flags: byte, flag: byte)
    requires flag > 0
  {
    (flags / flag) % 2 == 1
  }

  datatype RolePart = RolePart(cPrime: Point, rerandA: Point, rerandS: Scalar, orProof: seq<Branch>)

  /** A decoded authentication request; the role part is absent in device-only mode. */
  datatype Request = Request(handle: Option<Bytes16>, n: Session, aC: Point, sC: Scalar, role: Option<RolePart>)

  /** Every point and scalar is one the group has, and the OR-proof has a branch for each role. */
  predicate WellFormedRequest(S: Suite, nRoles: nat, r: Request) {
    && S.In(r.aC) && S.In(r.sC) && S.In(r.n.ephC)
    && (r.role.Some? ==>
          && S.In(r.role.value.cPrime) && S.In(r.role.value.rerandA) && S.In(r.role.value.rerandS)
          && |r.role.value.orProof| == nRoles && WellFormed(S, r.role.value.orProof))
  }

  /** None of the points that the decoder rejects when they are the identity. */
  predicate PointsProper(r: Request) {
    && r.aC != IDENTITY && r.n.ephC != IDENTITY
    && (r.role.Some? ==> r.role.value.cPrime != IDENTITY && r.role.value.rerandA != IDENTITY)
  }

  function Flatten(chunks: seq<Bytes32>): (s: seq<byte>)
    ensures |s| == 32 * |chunks|
  {
    if chunks == [] then [] else Flatten(chunks[..|chunks| - 1]) + chunks[|chunks| - 1]
  }

  lemma {:induction false} FlattenSlice(chunks: seq<Bytes32>, i: nat)
    requires i < |chunks|
    ensures Flatten(chunks)[32 * i..32 * i + 32] == chunks[i]
  {
    var m := |chunks| - 1;
    var head := Flatten(chunks[..m]);
    if i < m {
      FlattenSlice(chunks[..m], i);
      assert (head + chunks[m])[32 * i..32 * i + 32] == head[32 * i..32 * i + 32];
    } else {
      assert (head + chunks[m])[32 * m..32 * m + 32] == chunks[m];
    }
  }

  function BranchChunks(S: Suite, proof: seq<Branch>): (c: seq<Bytes32>)
    requires WellFormed(S, proof)
    ensures |c| == 3 * |proof|
  {
    if proof == [] then []
    else
      var b := proof[|proof| - 1];
      assert b in proof;
      BranchChunks(S, proof[..|proof| - 1]) + [S.compress(b.a), S.ScalarBytes(b.c), S.ScalarBytes(b.s)]
  }

  function RequestChunks(S: Suite, nRoles: nat, r: Request): seq<Bytes32>
    requires WellFormedRequest(S, nRoles, r)
  {
    [r.n.pid, S.compress(r.aC), S.ScalarBytes(r.sC), r.n.nonceC, S.compress(r.n.ephC)]
    + match r.role
      case None => []
      case Some(p) => [S.compress(p.cPrime), S.compress(p.rerandA), S.ScalarBytes(p.rerandS)] + BranchChunks(S, p.orProof)
  }

  function Header(r: Request): seq<byte> {
    if r.handle.None? && r.role.Some? then [MSG_AUTH_V2]
    else
      [MSG_AUTH_V3, (if r.role.None? then FLAG_DEVICE_ONLY else 0) + (if r.handle.Some? then FLAG_HANDLE_LOOKUP else 0)]
      + if r.handle.Some? then r.handle.value else []
  }

  /** The client's first flight. */
  function WireBytes(S: Suite, nRoles: nat, r: Request): seq<byte>
    requires WellFormedRequest(S, nRoles, r)
  {
    Header(r) + Flatten(RequestChunks(S, nRoles, r))
  }

  method Extend(buf: seq<byte>, ghost sent: seq<Bytes32>, chunk: Bytes32) returns (out: seq<byte>, ghost now: seq<Bytes32>)
    requires buf == Flatten(sent)
    ensures out == buf + chunk && now == sent + [chunk] && out == Flatten(now)
  {
    out, now := buf + chunk, sent + [chunk];
    assert now[..|sent|] == sent;
  }

  method BuildPayload1(S: Suite, nRoles: nat, r: Request) returns (payload1: seq<byte>)
    requires WellFormedRequest(S, nRoles, r)
    ensures payload1 == Flatten(RequestChunks(S, nRoles, r))
  {
    hide Flatten, LeBytes;
    ghost var sent: seq<Bytes32> := [];
    assert Flatten(sent) == [];
    payload1, sent := Extend([], sent, r.n.pid);
    payload1, sent := Extend(payload1, sent, S.compress(r.aC));
    payload1, sent := Extend(payload1, sent, S.ScalarBytes(r.sC));
    payload1, sent := Extend(payload1, sent, r.n.nonceC);
    payload1, sent := Extend(payload1, sent, S.compress(r.n.ephC));
    assert sent == [r.n.pid, S.compress(r.aC), S.ScalarBytes(r.sC), r.n.nonceC, S.compress(r.n.ephC)];
    if r.role.Some? {
      ghost var five := sent;
      var p := r.role.value;
      payload1, sent := Extend(payload1, sent, S.compress(p.cPrime));
      payload1, sent := Extend(payload1, sent, S.compress(p.rerandA));
      payload1, sent := Extend(payload1, sent, S.ScalarBytes(p.rerandS));
      assert sent == five + [S.compress(p.cPrime), S.compress(p.rerandA), S.ScalarBytes(p.rerandS)];
      payload1, sent := ExtendBranches(S, payload1, sent, p.orProof);
      assert sent == five + ([S.compress(p.cPrime), S.compress(p.rerandA), S.ScalarBytes(p.rerandS)] + BranchChunks(S, p.orProof));
    }
    assert sent == RequestChunks(S, nRoles, r);
  }

  method ExtendBranches(S: Suite, buf: seq<byte>, ghost sent: seq<Bytes32>, proof: seq<Branch>) returns (out: seq<byte>, ghost done: seq<Bytes32>)
    requires buf == Flatten(sent) && WellFormed(S, proof)
    ensures done == sent + BranchChunks(S, proof) && out == Flatten(done)
  {
    hide Flatten, LeBytes;
    out, done := buf, sent;
    for i := 0 to |proof|
      invariant WellFormed(S, proof[..i])
      invariant out == Flatten(done) && done == sent + BranchChunks(S, proof[..i])
    {
      var b := proof[i];
      assert b in proof;
      assert proof[..i + 1][..i] == proof[..i];
      out, done := Extend(out, done, S.compress(b.a));
      out, done := Extend(out, done, S.ScalarBytes(b.c));
      out, done := Extend(out, done, S.ScalarBytes(b.s));
    }
    assert proof[..|proof|] == proof;
  }

  // The server's decoder.

  datatype AuthError =
    | ShortRead
    | UnknownMsgType
    | DeviceOnlyRefused
    | InvalidPoint
    | IdentityPoint
    | NonCanonicalScalar
    | ReplayDetected
    | PersistFailed
    | UnknownHandle
    | HandlePidMismatch
    | UnknownPid
    | AuthProofInvalid
    | RerandProofInvalid
    | MembershipProofInvalid

  function DecodeAnyPoint(S: Suite, b: Bytes32): Result<Point, AuthError> {
    match S.decompress(b)
    case None => Err(InvalidPoint)
    case Some(p) => Ok(p)
  }

  function DecodePoint(S: Suite, b: Bytes32): Result<Point, AuthError> {
    var p :- DecodeAnyPoint(S, b);
    if p == IDENTITY then Err(IdentityPoint) else Ok(p)
  }

  function DecodeScalar(S: Suite, b: Bytes32): Result<Scalar, AuthError> {
    match S.ScalarFromCanonical(b)
    case None => Err(NonCanonicalScalar)
    case Some(s) => Ok(s)
  }

  function ParseBranches(S: Suite, pt: seq<byte>, n: nat): Result<seq<Branch>, AuthError>
    requires 256 + 96 * n <= |pt|
  {
    if n == 0 then Ok([])
    else
      var before :- ParseBranches(S, pt, n - 1);
      var off := 256 + (n - 1) * 96;
      var a :- DecodeAnyPoint(S, pt[off..off + 32]);
      var c :- DecodeScalar(S, pt[off + 32..off + 64]);
      var s :- DecodeScalar(S, pt[off + 64..off + 96]);
      Ok(before + [Branch(a, c, s)])
  }

  /** An error in one branch is the answer, however many branches follow. */
  lemma {:induction false} ParseBranchesStops(S: Suite, pt: seq<byte>, i: nat, n: nat)
    requires i <= n && 256 + 96 * n <= |pt| && ParseBranches(S, pt, i).Err?
    ensures ParseBranches(S, pt, n) == ParseBranches(S, pt, i)
  {
    if i < n {
      ParseBranchesStops(S, pt, i, n - 1);
    }
  }

  /** The decoding loop over the branches, which gives up at the first bad one. */
  method ReadOrProof(S: Suite, pt: seq<byte>, nRoles: nat) returns (r: Result<seq<Branch>, AuthError>)
    requires 256 + 96 * nRoles <= |pt|
    ensures r == ParseBranches(S, pt, nRoles)
  {
    hide DecodeAnyPoint, DecodeScalar;
    var orProof: seq<Branch> := [];
    for i := 0 to nRoles
      invariant ParseBranches(S, pt, i) == Ok(orProof)
    {
      var off := 256 + i * 96;
      var aI := DecodeAnyPoint(S, pt[off..off + 32]);
      var cI := DecodeScalar(S, pt[off + 32..off + 64]);
      var sI := DecodeScalar(S, pt[off + 64..off + 96]);
      if aI.Err? || cI.Err? || sI.Err? {
        ParseBranchesStops(S, pt, i + 1, nRoles);
        return Err(if aI.Err? then aI.error else if cI.Err? then cI.error else sI.error);
      }
      orProof := orProof + [Branch(aI.value, cI.value, sI.value)];
    }
    return Ok(orProof);
  }

  function ParseRolePart(S: Suite, nRoles: nat, pt: seq<byte>): Result<RolePart, AuthError>
    requires |pt| == 256 + 96 * nRoles
  {
    var cPrime :- DecodePoint(S, pt[160..192]);
    var rerandA :- DecodePoint(S, pt[192..224]);
    var rerandS :- DecodeScalar(S, pt[224..256]);
    var orProof :- ParseBranches(S, pt, nRoles);
    Ok(RolePart(cPrime, rerandA, rerandS, orProof))
  }

  /** A message cut open: the flags and handle of V3, and the fixed-size body. */
  datatype Envelope = Envelope(deviceOnly: bool, handle: Option<Bytes16>, body: seq<byte>)

  function BodyLength(nRoles: nat, deviceOnly: bool): nat {
    if deviceOnly then 160 else 256 + 96 * nRoles
  }

  function ReadBody(nRoles: nat, deviceOnly: bool, handle: Option<Bytes16>, rest: seq<byte>): Result<Envelope, AuthError> {
    if |rest| < BodyLength(nRoles, deviceOnly) then Err(ShortRead)
    else Ok(Envelope(deviceOnly, handle, rest[..BodyLength(nRoles, deviceOnly)]))
  }

  /** Both servers read the message type, the flags and handle of V3, and then the body; undefined flag bits are ignored. */
  function ReadEnvelope(nRoles: nat, allowDeviceOnly: bool, wire: seq<byte>): (r: Result<Envelope, AuthError>)
    ensures r.Ok? ==> |r.value.body| == BodyLength(nRoles, r.value.deviceOnly)
  {
    if |wire| < 1 then Err(ShortRead)
    else if wire[0] == MSG_AUTH_V2 then ReadBody(nRoles, false, None, wire[1..])
    else if wire[0] != MSG_AUTH_V3 then Err(UnknownMsgType)
    else if |wire| < 2 then Err(ShortRead)
    else
      var flags := wire[1];
      var withHandle := HasFlag(flags, FLAG_HANDLE_LOOKUP);
      if withHandle && |wire| < 18 then Err(ShortRead)
      else
        var handle: Option<Bytes16> := if withHandle then Some(wire[2..18]) else None;
        var deviceOnly := HasFlag(flags, FLAG_DEVICE_ONLY);
        if deviceOnly && !allowDeviceOnly then Err(DeviceOnlyRefused)
        else ReadBody(nRoles, deviceOnly, handle, wire[if withHandle then 18 else 2..])
  }

  /** The Rust server decodes every point and scalar of the body. */
  function ParseBody(S: Suite, nRoles: nat, e: Envelope): Result<Request, AuthError>
    requires |e.body| == BodyLength(nRoles, e.deviceOnly)
  {
    var pt := e.body;
    var aC :- DecodePoint(S, pt[32..64]);
    var sC :- DecodeScalar(S, pt[64..96]);
    var ephC :- DecodePoint(S, pt[128..160]);
    var n := Session(pt[0..32], pt[96..128], ephC);
    if e.deviceOnly then Ok(Request(e.handle, n, aC, sC, None))
    else
      var role :- ParseRolePart(S, nRoles, pt);
      Ok(Request(e.handle, n, aC, sC, Some(role)))
  }

  function ParseWire(S: Suite, nRoles: nat, allowDeviceOnly: bool, wire: seq<byte>): Result<Request, AuthError> {
    var e :- ReadEnvelope(nRoles, allowDeviceOnly, wire);
    ParseBody(S, nRoles, e)
  }

  lemma DecodesBack(S: Suite, p: Point, s: Scalar)
    requires S.Valid() && S.In(p) && S.In(s)
    ensures DecodeAnyPoint(S, S.compress(p)) == Ok(p)
    ensures DecodePoint(S, S.compress(p)) == if p == IDENTITY then Err(IdentityPoint) else Ok(p)
    ensures DecodeScalar(S, S.ScalarBytes(s)) == Ok(s)
  {
    ScalarRoundTrip(S, s);
    assert S.decompress(S.compress(p)) == Some(p);
  }

  lemma {:induction false} BranchChunkAt(S: Suite, proof: seq<Branch>, i: nat)
    requires WellFormed(S, proof) && i < |proof|
    ensures proof[i] in proof
    ensures BranchChunks(S, proof)[3 * i..3 * i + 3] == [S.compress(proof[i].a), S.ScalarBytes(proof[i].c), S.ScalarBytes(proof[i].s)]
  {
    var m := |proof| - 1;
    if i < m {
      assert proof[..m][i] == proof[i];
      BranchChunkAt(S, proof[..m], i);
    }
  }

  lemma BranchSlices(S: Suite, head: seq<Bytes32>, proof: seq<Branch>, i: nat)
    requires |head| == 8 && WellFormed(S, proof) && i < |proof|
    ensures proof[i] in proof
    ensures var pt, off := Flatten(head + BranchChunks(S, proof)), 256 + i * 96;
            && |pt| == 256 + 96 * |proof|
            && pt[off..off + 32] == S.compress(proof[i].a)
            && pt[off + 32..off + 64] == S.ScalarBytes(proof[i].c)
            && pt[off + 64..off + 96] == S.ScalarBytes(proof[i].s)
  {
    hide Flatten, LeBytes;
    var chunks, j := head + BranchChunks(S, proof), 8 + 3 * i;
    BranchChunkAt(S, proof, i);
    FlattenSlice(chunks, j);
    FlattenSlice(chunks, j + 1);
    FlattenSlice(chunks, j + 2);
    var three := BranchChunks(S, proof)[3 * i..3 * i + 3];
    assert chunks[j] == three[0] && chunks[j + 1] == three[1] && chunks[j + 2] == three[2];
  }

  lemma {:induction false} BranchesParse(S: Suite, head: seq<Bytes32>, proof: seq<Branch>, n: nat)
    requires S.Valid() && |head| == 8 && WellFormed(S, proof) && n <= |proof|
    ensures ParseBranches(S, Flatten(head + BranchChunks(S, proof)), n) == Ok(proof[..n])
  {
    hide Flatten, BranchChunks, DecodeAnyPoint, DecodeScalar, LeBytes;
    if n > 0 {
      var b := proof[n - 1];
      BranchesParse(S, head, proof, n - 1);
      BranchSlices(S, head, proof, n - 1);
      DecodesBack(S, b.a, b.c);
      DecodesBack(S, b.a, b.s);
      assert proof[..n - 1] + [Branch(b.a, b.c, b.s)] == proof[..n];
    }
  }

  /** The server's offsets read back exactly what the client laid out, unless an identity point is in it. */
  lemma BodyParses(S: Suite, nRoles: nat, r: Request)
    requires S.Valid() && WellFormedRequest(S, nRoles, r)
    ensures var body := Flatten(RequestChunks(S, nRoles, r));
            && |body| == BodyLength(nRoles, r.role.None?)
            && ParseBody(S, nRoles, Envelope(r.role.None?, r.handle, body)) == if PointsProper(r) then Ok(r) else Err(IdentityPoint)
  {
    hide Flatten, BranchChunks, ParseBranches, DecodePoint, DecodeScalar;
    var chunks := RequestChunks(S, nRoles, r);
    var pt := Flatten(chunks);
    assert pt[..|pt|] == pt;
    FlattenSlice(chunks, 0);
    FlattenSlice(chunks, 1);
    FlattenSlice(chunks, 2);
    FlattenSlice(chunks, 3);
    FlattenSlice(chunks, 4);
    DecodesBack(S, r.aC, r.sC);
    DecodesBack(S, r.n.ephC, r.sC);
    if r.role.Some? {
      var p := r.role.value;
      FlattenSlice(chunks, 5);
      FlattenSlice(chunks, 6);
      FlattenSlice(chunks, 7);
      DecodesBack(S, p.cPrime, p.rerandS);
      DecodesBack(S, p.rerandA, p.rerandS);
      assert chunks == chunks[..8] + BranchChunks(S, p.orProof);
      BranchesParse(S, chunks[..8], p.orProof, nRoles);
      assert p.orProof[..nRoles] == p.orProof;
    }
  }

  /** A V3 message with any flags byte that agrees with the request, whatever its undefined bits are. */
  function V3Bytes(S: Suite, nRoles: nat, flags: byte, r: Request): seq<byte>
    requires WellFormedRequest(S, nRoles, r)
  {
    [MSG_AUTH_V3, flags] + (if r.handle.Some? then r.handle.value else []) + Flatten(RequestChunks(S, nRoles, r))
  }

  /** The body is cut out of the stream; what follows it is not read. */
  lemma V3EnvelopeReads(nRoles: nat, allowDeviceOnly: bool, flags: byte, handle: Option<Bytes16>, body: seq<byte>, tail: seq<byte>)
    requires HasFlag(flags, FLAG_HANDLE_LOOKUP) == handle.Some?
    requires |body| == BodyLength(nRoles, HasFlag(flags, FLAG_DEVICE_ONLY))
    ensures var deviceOnly := HasFlag(flags, FLAG_DEVICE_ONLY);
            ReadEnvelope(nRoles, allowDeviceOnly, [MSG_AUTH_V3, flags] + (if handle.Some? then handle.value else []) + body + tail)
            == if deviceOnly && !allowDeviceOnly then Err(DeviceOnlyRefused) else Ok(Envelope(deviceOnly, handle, body))
  {
    var head := [MSG_AUTH_V3, flags] + if handle.Some? then handle.value else [];
    var wire := head + body + tail;
    assert wire[|head|..] == body + tail && (body + tail)[..|body|] == body;
    if handle.Some? {
      assert wire[2..18] == handle.value;
    }
  }

  lemma V2EnvelopeReads(nRoles: nat, allowDeviceOnly: bool, body: seq<byte>, tail: seq<byte>)
    requires |body| == BodyLength(nRoles, false)
    ensures ReadEnvelope(nRoles, allowDeviceOnly, [MSG_AUTH_V2] + body + tail) == Ok(Envelope(false, None, body))
  {
    var wire := [MSG_AUTH_V2] + body + tail;
    assert wire[1..] == body + tail && (body + tail)[..|body|] == body;
  }

  /** What the server makes of a well-formed request. */
  function Verdict(allowDeviceOnly: bool, r: Request): Result<Request, AuthError> {
    if r.role.None? && !allowDeviceOnly then Err(DeviceOnlyRefused)
    else if PointsProper(r) then Ok(r)
    else Err(IdentityPoint)
  }

  /** Every V3 message: any flags byte, with or without role part and handle. */
  lemma V3Parses(S: Suite, nRoles: nat, allowDeviceOnly: bool, flags: byte, r: Request)
    requires S.Valid() && WellFormedRequest(S, nRoles, r)
    requires HasFlag(flags, FLAG_HANDLE_LOOKUP) == r.handle.Some? && HasFlag(flags, FLAG_DEVICE_ONLY) == r.role.None?
    ensures ParseWire(S, nRoles, allowDeviceOnly, V3Bytes(S, nRoles, flags, r)) == Verdict(allowDeviceOnly, r)
  {
    hide Flatten, RequestChunks, ParseBody, ReadEnvelope, HasFlag;
    BodyParses(S, nRoles, r);
    V3EnvelopeReads(nRoles, allowDeviceOnly, flags, r.handle, Flatten(RequestChunks(S, nRoles, r)), []);
    assert V3Bytes(S, nRoles, flags, r) + [] == V3Bytes(S, nRoles, flags, r);
  }

  /** The client's message in either form. */
  lemma WireParses(S: Suite, nRoles: nat, allowDeviceOnly: bool, r: Request)
    requires S.Valid() && WellFormedRequest(S, nRoles, r)
    ensures ParseWire(S, nRoles, allowDeviceOnly, WireBytes(S, nRoles, r)) == Verdict(allowDeviceOnly, r)
    ensures r.handle.Some? || r.role.None? ==> exists flags: byte :: WireBytes(S, nRoles, r) == V3Bytes(S, nRoles, flags, r)
  {
    hide Flatten, RequestChunks, ParseBody, ReadEnvelope;
    BodyParses(S, nRoles, r);
    if r.handle.None? && r.role.Some? {
      V2EnvelopeReads(nRoles, allowDeviceOnly, Flatten(RequestChunks(S, nRoles, r)), []);
      assert WireBytes(S, nRoles, r) + [] == WireBytes(S, nRoles, r);
    } else {
      var flags := (if r.role.None? then FLAG_DEVICE_ONLY else 0) + (if r.handle.Some? then FLAG_HANDLE_LOOKUP else 0);
      V3Parses(S, nRoles, allowDeviceOnly, flags, r);
      assert WireBytes(S, nRoles, r) == V3Bytes(S, nRoles, flags, r);
    }
  }

  // The two sides.

  datatype Device = Device(x: Scalar, roleCode: u64, blind: Scalar)

  function DevicePub(S: Suite, d: Device): (p: Point)
    requires S.q > 0
    ensures S.In(p)
  {
    S.Mul(BASE, d.x)
  }

  function DeviceCommitment(S: Suite, d: Device): (p: Point)
    requires S.q > 0
    ensures S.In(p)
  {
    MakeRoleCommitment(S, d.roleCode, d.blind)
  }

  datatype Mode = Mode(fastLookup: bool, deviceOnly: bool)

  datatype ClientRandomness = ClientRandomness(nonceC: Bytes32, ephSecret: Scalar, authR: Scalar, delta: Scalar, rerandR: Scalar, orRnd: OrRandomness)

  /** What the role proofs need: a listed role, and reduced scalars. */
  predicate GoodRoleRandomness(S: Suite, roles: seq<u64>, d: Device, cr: ClientRandomness) {
    && d.roleCode in roles && S.In(cr.rerandR)
    && GoodRandomness(S, |roles|, Position(roles, d.roleCode), cr.orRnd)
  }

  /** What one run of the client draws; a device-only run has no use for roles. */
  predicate GoodClientRandomness(S: Suite, roles: seq<u64>, d: Device, mode: Mode, cr: ClientRandomness) {
    S.In(cr.authR) && (!mode.deviceOnly ==> GoodRoleRandomness(S, roles, d, cr))
  }

  function ClientSession(S: Suite, d: Device, serverPub: Point, cr: ClientRandomness): Session
    requires S.q > 0
  {
    var ephC := S.Mul(BASE, cr.ephSecret);
    Session(ComputePid(S, DevicePub(S, d), cr.nonceC, ephC, serverPub), cr.nonceC, ephC)
  }

  function ClientRolePart(S: Suite, roles: seq<u64>, d: Device, n: Session, cr: ClientRandomness): RolePart
    requires S.q > 0 && GoodRoleRandomness(S, roles, d, cr)
  {
    var commitment := DeviceCommitment(S, d);
    var cPrime := RerandomizedCommitment(S, commitment, cr.delta);
    var blindPrime := S.Add(d.blind, cr.delta);
    var (rerandA, rerandS) := ProveRoleRerandomization(S, n, commitment, cPrime, cr.delta, cr.rerandR);
    RolePart(cPrime, rerandA, rerandS, OrProof(S, n, cPrime, roles, Position(roles, d.roleCode), blindPrime, cr.orRnd))
  }

  function ClientRequest(S: Suite, roles: seq<u64>, d: Device, mode: Mode, serverPub: Point, cr: ClientRandomness): Request
    requires S.q > 0 && GoodClientRandomness(S, roles, d, mode, cr)
  {
    var n := ClientSession(S, d, serverPub, cr);
    var (aC, sC) := ProveAuth(S, d.x, n.pid, n.nonceC, n.ephC, cr.authR);
    Request(if mode.fastLookup then Some(DeviceHandle(S, DevicePub(S, d))) else None, n, aC, sC,
            if mode.deviceOnly then None else Some(ClientRolePart(S, roles, d, n, cr)))
  }

  lemma BlindedOpening(S: Suite, roles: seq<u64>, d: Device, delta: Scalar)
    requires S.q > 0 && d.roleCode in roles
    ensures var cPrime := RerandomizedCommitment(S, DeviceCommitment(S, d), delta);
            S.In(cPrime) && OpensAt(S, cPrime, roles, Position(roles, d.roleCode), S.Add(d.blind, delta))
  {
    hide Mod;
    var cPrime := RerandomizedCommitment(S, DeviceCommitment(S, d), delta);
    RerandomizedOpening(S, d.roleCode, d.blind, delta);
    CommitmentOpens(S, cPrime, roles, Position(roles, d.roleCode), S.Add(d.blind, delta));
  }

  /** What the honest client sends is well formed. */
  lemma ClientRequestWellFormed(S: Suite, roles: seq<u64>, d: Device, mode: Mode, serverPub: Point, cr: ClientRandomness)
    requires S.q > 0 && GoodClientRandomness(S, roles, d, mode, cr)
    ensures WellFormedRequest(S, |roles|, ClientRequest(S, roles, d, mode, serverPub, cr))
  {
    hide Mod, MasterChallenge, OrProof;
    if !mode.deviceOnly {
      var n := ClientSession(S, d, serverPub, cr);
      BlindedOpening(S, roles, d, cr.delta);
      OrProofComplete(S, n, RerandomizedCommitment(S, DeviceCommitment(S, d), cr.delta), roles,
                      Position(roles, d.roleCode), S.Add(d.blind, cr.delta), cr.orRnd);
    }
  }

  /** The client's opening as it runs; it gives up right after the header when its own key is the identity. */
  method StartSession(S: Suite, roles: seq<u64>, d: Device, mode: Mode, serverPub: Point, cr: ClientRandomness) returns (ok: bool, wire: seq<byte>)
    requires S.q > 0 && GoodClientRandomness(S, roles, d, mode, cr) && |roles| < 0x1_0000_0000_0000_0000
    ensures ok <==> DevicePub(S, d) != IDENTITY
    ensures ok ==> var r := ClientRequest(S, roles, d, mode, serverPub, cr);
                   WellFormedRequest(S, |roles|, r) && wire == WireBytes(S, |roles|, r)
    ensures !ok ==> |wire| <= 2
  {
    hide Flatten, LeBytes, OrProof, RequestChunks, WellFormedRequest, Mod, MasterChallenge;
    var devicePub := DevicePub(S, d);
    ClientRequestWellFormed(S, roles, d, mode, serverPub, cr);
    if mode.fastLookup || mode.deviceOnly {
      var flags := 0;
      if mode.deviceOnly {
        flags := flags + FLAG_DEVICE_ONLY;
      }
      if mode.fastLookup {
        flags := flags + FLAG_HANDLE_LOOKUP;
      }
      wire := [MSG_AUTH_V3, flags];
    } else {
      wire := [MSG_AUTH_V2];
    }
    if devicePub == IDENTITY {
      return false, wire;
    }
    var handle: Option<Bytes16> := None;
    if mode.fastLookup {
      handle := Some(DeviceHandle(S, devicePub));
      wire := wire + handle.value;
    }
    var ephC := S.Mul(BASE, cr.ephSecret);
    var n := Session(ComputePid(S, devicePub, cr.nonceC, ephC, serverPub), cr.nonceC, ephC);
    var (aC, sC) := ProveAuth(S, d.x, n.pid, n.nonceC, n.ephC, cr.authR);
    var role: Option<RolePart> := None;
    if !mode.deviceOnly {
      var commitment := DeviceCommitment(S, d);
      var cPrime := RerandomizedCommitment(S, commitment, cr.delta);
      var blindPrime := S.Add(d.blind, cr.delta);
      var (rerandA, rerandS) := ProveRoleRerandomization(S, n, commitment, cPrime, cr.delta, cr.rerandR);
      var orProof := ProveRoleSetMembership(S, n, cPrime, roles, d.roleCode, blindPrime, cr.orRnd);
      role := Some(RolePart(cPrime, rerandA, rerandS, orProof));
    }
    var request := Request(handle, n, aC, sC, role);
    assert request == ClientRequest(S, roles, d, mode, serverPub, cr);
    assert wire == Header(request);
    var payload1 := BuildPayload1(S, |roles|, request);
    return true, wire + payload1;
  }

  /** No point that the decoder or the role verifier rejects. */
  predicate NoIdentities(r: Request) {
    PointsProper(r) && (r.role.Some? ==> NoIdentityCommitment(r.role.value.orProof))
  }

  // The server's verdict.

  /** The proofs in the order the server checks them. */
  function CheckProofs(S: Suite, roles: seq<u64>, rec: Registries.DeviceRecord, r: Request): Result<(), AuthError>
    requires S.q > 0
  {
    if !VerifyAuth(S, rec.pubkey, r.n.pid, r.aC, r.sC, r.n.nonceC, r.n.ephC) then Err(AuthProofInvalid)
    else if r.role.Some? && !VerifyRoleRerandomization(S, r.n, rec.roleCommitment, r.role.value.cPrime, r.role.value.rerandA, r.role.value.rerandS)
      then Err(RerandProofInvalid)
    else if r.role.Some? && !RustAccepts(S, r.n, r.role.value.cPrime, roles, r.role.value.orProof) then Err(MembershipProofInvalid)
    else Ok(())
  }

  /** All three proofs of an honest device verify against its own record. */
  lemma HonestProofsVerify(S: Suite, roles: seq<u64>, d: Device, mode: Mode, serverPub: Point, cr: ClientRandomness)
    requires S.q > 0 && GoodClientRandomness(S, roles, d, mode, cr)
    requires NoIdentities(ClientRequest(S, roles, d, mode, serverPub, cr))
    ensures CheckProofs(S, roles, Registries.DeviceRecord(DevicePub(S, d), DeviceCommitment(S, d)),
                        ClientRequest(S, roles, d, mode, serverPub, cr)) == Ok(())
  {
    hide Mod, MasterChallenge, OrProof, RerandChallenge, VerifyAuth, ProveAuth, VerifyRoleRerandomization, ProveRoleRerandomization, OrEquations;
    var n := ClientSession(S, d, serverPub, cr);
    OnlineProofsVerify(S, d.x, n.pid, n.nonceC, n.ephC, cr.authR, 0, n.nonceC, n.ephC, cr.authR);
    if !mode.deviceOnly {
      var commitment := DeviceCommitment(S, d);
      var cPrime := RerandomizedCommitment(S, commitment, cr.delta);
      RerandomizationProofVerifies(S, n, commitment, cr.delta, cr.rerandR);
      BlindedOpening(S, roles, d, cr.delta);
      OrProofComplete(S, n, cPrime, roles, Position(roles, d.roleCode), S.Add(d.blind, cr.delta), cr.orRnd);
    }
  }

  datatype ServerRandomness = ServerRandomness(nonceS: Bytes32, ephSecret: Scalar, r: Scalar)

  /** What the server consults: its remembered keys, its registry and index, and what a scan of the registry returned. */
  datatype ServerView = ServerView(cache: Replay.Generations, st: Registries.State, scan: Option<(Bytes32, Registries.DeviceRecord)>)

  function PidContextOf(n: Session, serverPub: Point): Registries.PidContext {
    Registries.PidContext(n.nonceC, n.ephC, serverPub)
  }

  function FindRecord(S: Suite, serverPub: Point, v: ServerView, r: Request): Result<Registries.DeviceRecord, AuthError> {
    match r.handle
    case Some(h) =>
      (match Registries.LookupByHandle(S, PidContextOf(r.n, serverPub), v.st.index, h, r.n.pid)
       case Ok((_, rec)) => Ok(rec)
       case Err(e) => Err(if e.UnknownHandle? then UnknownHandle else HandlePidMismatch))
    case None =>
      match v.scan
      case Some((_, rec)) => Ok(rec)
      case None => Err(UnknownPid)
  }

  datatype Answer = Answer(payload2: seq<byte>, sessionKey: Bytes32, expectedTagC: Bytes32)

  function ServerKcState(S: Suite, sk: Scalar, r: Request, sr: ServerRandomness): (k: KcState)
    requires S.q > 0
    ensures S.In(r.sC) ==> ScalarsIn(S, k)
  {
    var ephS := S.Mul(BASE, sr.ephSecret);
    var (aS, sS) := ProveServer(S, sk, sr.nonceS, ephS, sr.r);
    KcState(r.n, r.aC, r.sC, S.Mul(BASE, sk), aS, sS, sr.nonceS, ephS)
  }

  function AnswerChunks(S: Suite, k: KcState, tagS: Bytes32): seq<Bytes32>
    requires ScalarsIn(S, k)
  {
    [S.compress(k.serverPub), S.compress(k.aS), S.ScalarBytes(k.sS), k.nonceS, S.compress(k.ephS), tagS]
  }

  /** The server after decoding: replay stage, lookup, proofs, and then its own half of the handshake. */
  function ServerAnswer(S: Suite, roles: seq<u64>, sk: Scalar, v: ServerView, r: Request, sr: ServerRandomness): Result<Answer, AuthError>
    requires S.q > 0 && S.In(r.sC)
  {
    if Replay.Remembered(v.cache, r.n.pid + r.n.nonceC) then Err(ReplayDetected)
    else
      var rec :- FindRecord(S, S.Mul(BASE, sk), v, r);
      var _ :- CheckProofs(S, roles, rec, r);
      var k := ServerKcState(S, sk, r, sr);
      var sessionKey := SessionKey(S, SharedPoint(S, sr.ephSecret, r.n.ephC), r.n, sr.nonceS, k.ephS);
      Ok(Answer(Flatten(AnswerChunks(S, k, TagS(S, sessionKey, k))), sessionKey, TagC(S, sessionKey, k)))
  }

  lemma ParsedResponseIn(S: Suite, nRoles: nat, allowDeviceOnly: bool, wire: seq<byte>)
    ensures var r := ParseWire(S, nRoles, allowDeviceOnly, wire); r.Ok? ==> S.In(r.value.sC)
  {
    hide DecodePoint, ParseRolePart, LeBytes, LeValue;
  }

  /** Whether the write that follows an insertion is due: after 64 insertions, or two seconds. */
  predicate WriteDue(benchMode: bool, pendingInserts: nat, lastPersist: Option<nat>, now: nat) {
    && !benchMode
    && (pendingInserts + 1 >= 64 || lastPersist == None || now - lastPersist.value >= 2)
  }

  /**
   The server's handler up to its answer. A request that does not decode leaves the replay cache
   alone; any other leaves its key there, whether or not the lookup and the proofs then succeed.
   A fresh key whose due write of the replay file fails ends the request.
   */
  method HandleAuth(S: Suite, roles: seq<u64>, sk: Scalar, allowDeviceOnly: bool, cache: Replay.ReplayCache, st: Registries.State,
                    wire: seq<byte>, sr: ServerRandomness, benchMode: bool, now: nat, saves: bool)
    returns (a: Result<Answer, AuthError>, file: Option<seq<byte>>, ghost scan: Option<(Bytes32, Registries.DeviceRecord)>)
    requires S.q > 0 && |roles| < 0x1_0000_0000_0000_0000
    modifies cache
    ensures var p := ParseWire(S, |roles|, allowDeviceOnly, wire);
            && (p.Err? ==> a == Err(p.error) && cache.State() == old(cache.State()) && file == None)
            && (p.Ok? ==>
                  && S.In(p.value.sC)
                  && Registries.IsScanResult(S, PidContextOf(p.value.n, S.Mul(BASE, sk)), st.reg, p.value.n.pid, scan)
                  && cache.State() == Replay.Insert(Replay.REPLAY_GEN_MAX, old(cache.State()), p.value.n.pid + p.value.n.nonceC)
                  && var firstSeen := !Replay.Remembered(old(cache.State()), p.value.n.pid + p.value.n.nonceC);
                     var due := WriteDue(benchMode, old(cache.pendingInserts), old(cache.lastPersist), now);
                     && (file.Some? <==> firstSeen && due && saves)
                     && (file.Some? ==> Replay.IsImageOf(file.value, cache.State()))
                     && a == if firstSeen && due && !saves then Err(PersistFailed)
                             else ServerAnswer(S, roles, sk, ServerView(old(cache.State()), st, scan), p.value, sr))
  {
    hide ParseWire, Mod, VerifyAuth, VerifyRoleRerandomization, RustAccepts, Flatten, ServerKcState, SessionKey, TagS, TagC, DeviceHandle, ComputePid;
    scan, file := None, None;
    var p := ParseWire(S, |roles|, allowDeviceOnly, wire);
    if p.Err? {
      return Err(p.error), None, scan;
    }
    ParsedResponseIn(S, |roles|, allowDeviceOnly, wire);
    var r := p.value;
    var serverPub := S.Mul(BASE, sk);
    var known := Registries.LookupRecordByPid(S, PidContextOf(r.n, serverPub), st.reg, r.n.pid);
    scan := known;
    var passed;
    passed, file := ReplayStage(cache, r.n.pid, r.n.nonceC, benchMode, now, saves);
    if passed.Err? {
      return Err(passed.error), file, scan;
    }
    AnswerIgnoresOtherKeys(S, roles, sk, ServerView(old(cache.State()), st, known), Replay.EMPTY, r, sr);
    a := CheckAndAnswer(S, roles, sk, ServerView(Replay.EMPTY, st, known), r, sr);
  }

  /** The key is claimed and, when a write is due, the file written; its error ends the request like a replay. */
  method ReplayStage(cache: Replay.ReplayCache, pid: Bytes32, nonceC: Bytes32, benchMode: bool, now: nat, saves: bool)
    returns (passed: Result<(), AuthError>, file: Option<seq<byte>>)
    modifies cache
    ensures cache.State() == Replay.Insert(Replay.REPLAY_GEN_MAX, old(cache.State()), pid + nonceC)
    ensures var firstSeen := !Replay.Remembered(old(cache.State()), pid + nonceC);
            var due := WriteDue(benchMode, old(cache.pendingInserts), old(cache.lastPersist), now);
            && (file.Some? <==> firstSeen && due && saves)
            && (file.Some? ==> Replay.IsImageOf(file.value, cache.State()))
            && passed == if !firstSeen then Err(ReplayDetected) else if due && !saves then Err(PersistFailed) else Ok(())
  {
    hide Replay.IsImageOf, Replay.Insert;
    var firstSeen := cache.CheckAndInsert(pid, nonceC);
    if !firstSeen {
      return Err(ReplayDetected), None;
    }
    var blob: Option<seq<byte>> := None;
    if !benchMode {
      blob := cache.TakePersistBlob(false, now);
    }
    if blob.Some? && !saves {
      return Err(PersistFailed), None;
    }
    return Ok(()), blob;
  }

  /** Lookup, proofs in order, and the server's half, for a request past the replay stage. */
  method CheckAndAnswer(S: Suite, roles: seq<u64>, sk: Scalar, v: ServerView, r: Request, sr: ServerRandomness) returns (a: Result<Answer, AuthError>)
    requires S.q > 0 && |roles| < 0x1_0000_0000_0000_0000 && S.In(r.sC)
    requires !Replay.Remembered(v.cache, r.n.pid + r.n.nonceC)
    ensures a == ServerAnswer(S, roles, sk, v, r, sr)
  {
    hide Mod, VerifyAuth, VerifyRoleRerandomization, RustAccepts, Flatten, ServerKcState, SessionKey, TagS, TagC, FindRecord;
    var found := FindRecord(S, S.Mul(BASE, sk), v, r);
    if found.Err? {
      return Err(found.error);
    }
    var rec := found.value;
    if !VerifyAuth(S, rec.pubkey, r.n.pid, r.aC, r.sC, r.n.nonceC, r.n.ephC) {
      return Err(AuthProofInvalid);
    }
    if r.role.Some? {
      if !VerifyRoleRerandomization(S, r.n, rec.roleCommitment, r.role.value.cPrime, r.role.value.rerandA, r.role.value.rerandS) {
        return Err(RerandProofInvalid);
      }
      var member := VerifyRoleSetMembership(S, r.n, r.role.value.cPrime, roles, r.role.value.orProof);
      if !member {
        return Err(MembershipProofInvalid);
      }
    }
    var k := ServerKcState(S, sk, r, sr);
    var sessionKey := SessionKey(S, SharedPoint(S, sr.ephSecret, r.n.ephC), r.n, sr.nonceS, k.ephS);
    var tagS := TagS(S, sessionKey, k);
    return Ok(Answer(Flatten(AnswerChunks(S, k, tagS)), sessionKey, TagC(S, sessionKey, k)));
  }

  /** The view's cache matters only through whether it remembers the key. */
  lemma AnswerIgnoresOtherKeys(S: Suite, roles: seq<u64>, sk: Scalar, v: ServerView, cache: Replay.Generations, r: Request, sr: ServerRandomness)
    requires S.q > 0 && S.In(r.sC)
    requires Replay.Remembered(v.cache, r.n.pid + r.n.nonceC) == Replay.Remembered(cache, r.n.pid + r.n.nonceC)
    ensures ServerAnswer(S, roles, sk, v, r, sr) == ServerAnswer(S, roles, sk, v.(cache := cache), r, sr)
  {
    hide Mod, CheckProofs, Flatten, ServerKcState, SessionKey, TagS, TagC;
  }

  /** The server answers only where a registered key gives the request's pseudonym and every proof holds against that key's record. */
  lemma AnsweredMeansEnrolled(S: Suite, roles: seq<u64>, sk: Scalar, v: ServerView, r: Request, sr: ServerRandomness) returns (id: Bytes32)
    requires S.q > 0 && S.In(r.sC) && Registries.IndexAgrees(S, v.st)
    requires Registries.IsScanResult(S, PidContextOf(r.n, S.Mul(BASE, sk)), v.st.reg, r.n.pid, v.scan)
    requires ServerAnswer(S, roles, sk, v, r, sr).Ok?
    ensures !Replay.Remembered(v.cache, r.n.pid + r.n.nonceC)
    ensures id in v.st.reg && ComputePid(S, v.st.reg[id].pubkey, r.n.nonceC, r.n.ephC, S.Mul(BASE, sk)) == r.n.pid
    ensures r.handle.Some? ==> r.handle.value == DeviceHandle(S, v.st.reg[id].pubkey)
    ensures VerifyAuth(S, v.st.reg[id].pubkey, r.n.pid, r.aC, r.sC, r.n.nonceC, r.n.ephC)
    ensures r.role.Some? ==>
              var p := r.role.value;
              && VerifyRoleRerandomization(S, r.n, v.st.reg[id].roleCommitment, p.cPrime, p.rerandA, p.rerandS)
              && RustAccepts(S, r.n, p.cPrime, roles, p.orProof)
  {
    hide Mod, VerifyAuth, VerifyRoleRerandomization, RustAccepts, Flatten, ServerKcState, SessionKey, TagS, TagC, DeviceHandle, ComputePid;
    var c := PidContextOf(r.n, S.Mul(BASE, sk));
    var found := v.scan;
    if r.handle.Some? {
      Registries.HandleLookupIsSound(S, c, v.st, r.handle.value, r.n.pid);
      found := Some(v.st.index[r.handle.value]);
    }
    id := found.value.0;
    assert v.st.reg[id] == found.value.1 && Registries.PidOf(S, c, v.st.reg[id].pubkey) == r.n.pid;
  }

  /**
   A request whose key was accepted is refused in every later state of the cache until more than a
   full generation of other keys has been accepted, whatever the rest of it says.
   */
  lemma ReplayedRequestRefused(S: Suite, roles: seq<u64>, sk: Scalar, v: ServerView, before: Replay.Generations,
                               later: seq<Replay.Key>, r: Request, sr: ServerRandomness)
    requires S.q > 0 && S.In(r.sC)
    requires Replay.ValidGenerations(Replay.REPLAY_GEN_MAX, before)
    requires var key := r.n.pid + r.n.nonceC;
             var after := Replay.Insert(Replay.REPLAY_GEN_MAX, before, key);
             && !Replay.Remembered(before, key)
             && |Replay.Accepted(Replay.REPLAY_GEN_MAX, after, later)| <= 25_000
             && v.cache == Replay.Run(Replay.REPLAY_GEN_MAX, after, later)
    ensures ServerAnswer(S, roles, sk, v, r, sr) == Err(ReplayDetected)
  {
    hide Mod;
    Replay.ExactWindow(Replay.REPLAY_GEN_MAX, before, r.n.pid + r.n.nonceC, later);
  }

  // The client's second half.

  datatype ClientError = BadEncoding(e: AuthError) | ServerKeyMismatch | ServerProofInvalid | ServerTagMismatch

  function Decoded<T>(r: Result<T, AuthError>): Result<T, ClientError> {
    match r
    case Ok(x) => Ok(x)
    case Err(e) => Err(BadEncoding(e))
  }

  datatype Confirmed = Confirmed(tagC: Bytes32, sessionKey: Bytes32, k: KcState)

  /** The client reads 192 bytes, compares the pinned key, checks the proof, derives the keys and checks the tag. */
  function ClientFinish(S: Suite, pinned: Point, ephSecret: Scalar, r: Request, pt2: seq<byte>): Result<Confirmed, ClientError>
    requires S.q > 0 && S.In(r.sC) && |pt2| == 192
  {
    var serverPub :- Decoded(DecodePoint(S, pt2[0..32]));
    var aS :- Decoded(DecodePoint(S, pt2[32..64]));
    var sS :- Decoded(DecodeScalar(S, pt2[64..96]));
    var ephS :- Decoded(DecodePoint(S, pt2[128..160]));
    var nonceS: Bytes32, tagS: Bytes32 := pt2[96..128], pt2[160..192];
    if S.compress(pinned) != S.compress(serverPub) then Err(ServerKeyMismatch)
    else if !VerifyServer(S, serverPub, aS, sS, nonceS, ephS) then Err(ServerProofInvalid)
    else
      var k := KcState(r.n, r.aC, r.sC, serverPub, aS, sS, nonceS, ephS);
      var sessionKey := SessionKey(S, SharedPoint(S, ephSecret, ephS), r.n, nonceS, ephS);
      if TagS(S, sessionKey, k) != tagS then Err(ServerTagMismatch)
      else Ok(Confirmed(TagC(S, sessionKey, k), sessionKey, k))
  }

  /** Both sides compute the same Diffie-Hellman point. */
  lemma SharedPointsAgree(S: Suite, x: Scalar, y: Scalar)
    requires S.q > 0
    ensures SharedPoint(S, x, S.Mul(BASE, y)) == SharedPoint(S, y, S.Mul(BASE, x))
  {
    hide Mod;
    ReduceMul(S.q, y, x);
    ReduceMul(S.q, x, y);
    assert BASE * x == x && BASE * y == y;
    assert x * y == y * x;
  }

  /** The server's answer is accepted by the client, which ends with the same keys and the tag the server expects. */
  lemma AnswerConfirms(S: Suite, sk: Scalar, ephSecret: Scalar, r: Request, sr: ServerRandomness)
    requires S.Valid() && S.In(r.sC) && r.n.ephC == S.Mul(BASE, ephSecret) && S.In(sr.r)
    requires var k := ServerKcState(S, sk, r, sr);
             k.serverPub != IDENTITY && k.aS != IDENTITY && k.ephS != IDENTITY
    ensures var k := ServerKcState(S, sk, r, sr);
            var sessionKey := SessionKey(S, SharedPoint(S, sr.ephSecret, r.n.ephC), r.n, sr.nonceS, k.ephS);
            ClientFinish(S, S.Mul(BASE, sk), ephSecret, r, Flatten(AnswerChunks(S, k, TagS(S, sessionKey, k))))
            == Ok(Confirmed(TagC(S, sessionKey, k), sessionKey, k))
  {
    hide Flatten, Mod, LeBytes, TagS, TagC, SessionKey, VerifyServer, DecodePoint, DecodeScalar;
    var k := ServerKcState(S, sk, r, sr);
    assert S.In(k.serverPub) && S.In(k.aS) && S.In(k.ephS) && S.In(k.sS);
    var sessionKey := SessionKey(S, SharedPoint(S, sr.ephSecret, r.n.ephC), r.n, sr.nonceS, k.ephS);
    var chunks := AnswerChunks(S, k, TagS(S, sessionKey, k));
    FlattenSlice(chunks, 0);
    FlattenSlice(chunks, 1);
    FlattenSlice(chunks, 2);
    FlattenSlice(chunks, 3);
    FlattenSlice(chunks, 4);
    FlattenSlice(chunks, 5);
    DecodesBack(S, k.serverPub, k.sS);
    DecodesBack(S, k.aS, k.sS);
    DecodesBack(S, k.ephS, k.sS);
    OnlineProofsVerify(S, 0, r.n.pid, r.n.nonceC, r.n.ephC, sr.r, sk, sr.nonceS, k.ephS, sr.r);
    hide ProveServer, ProveAuth;
    SharedPointsAgree(S, ephSecret, sr.ephSecret);
  }

  /** An enrolled device: its record is the one it would present, and lookups cannot confuse it with another. */
  ghost predicate Enrolled(S: Suite, d: Device, id: Bytes32, serverPub: Point, n: Session, v: ServerView)
    requires S.q > 0
  {
    && id in v.st.reg && v.st.reg[id] == Registries.DeviceRecord(DevicePub(S, d), DeviceCommitment(S, d))
    && Registries.IndexAgrees(S, v.st)
    && Registries.CollisionFree(S, PidContextOf(n, serverPub), v.st.reg)
    && Registries.IsScanResult(S, PidContextOf(n, serverPub), v.st.reg, n.pid, v.scan)
  }

  /**
   Completeness of the whole handshake, for any list of roles and any randomness that gives no
   identity point: the bytes the client sends parse back, the proofs verify, the client accepts
   the answer, the finished tags match on both sides and so do the session keys.
   */
  lemma HandshakeCompletes(S: Suite, roles: seq<u64>, d: Device, mode: Mode, sk: Scalar, cr: ClientRandomness,
                           sr: ServerRandomness, id: Bytes32, v: ServerView)
    requires S.Valid() && GoodClientRandomness(S, roles, d, mode, cr) && S.In(sr.r)
    requires var serverPub := S.Mul(BASE, sk);
             var r := ClientRequest(S, roles, d, mode, serverPub, cr);
             var k := ServerKcState(S, sk, r, sr);
             && DevicePub(S, d) != IDENTITY && NoIdentities(r) && k.serverPub != IDENTITY && k.aS != IDENTITY && k.ephS != IDENTITY
             && Enrolled(S, d, id, serverPub, r.n, v)
             && !Replay.Remembered(v.cache, r.n.pid + r.n.nonceC)
    ensures var serverPub := S.Mul(BASE, sk);
            var r := ClientRequest(S, roles, d, mode, serverPub, cr);
            && WellFormedRequest(S, |roles|, r)
            && ParseWire(S, |roles|, mode.deviceOnly, WireBytes(S, |roles|, r)) == Ok(r)
            && var a := ServerAnswer(S, roles, sk, v, r, sr);
               && a.Ok? && |a.value.payload2| == 192
               && var c := ClientFinish(S, serverPub, cr.ephSecret, r, a.value.payload2);
                  && c.Ok?
                  && c.value.tagC == a.value.expectedTagC
                  && c.value.sessionKey == a.value.sessionKey
                  && c.value.k == ServerKcState(S, sk, r, sr)
  {
    var serverPub := S.Mul(BASE, sk);
    var r := ClientRequest(S, roles, d, mode, serverPub, cr);
    ClientRequestWellFormed(S, roles, d, mode, serverPub, cr);
    WireParses(S, |roles|, mode.deviceOnly, r);
    HonestProofsVerify(S, roles, d, mode, serverPub, cr);
    AnswerConfirms(S, sk, cr.ephSecret, r, sr);
    FindsOwnRecord(S, roles, d, mode, sk, cr, id, v);
    hide Mod, ClientRolePart, ProveAuth, ProveServer, CheckProofs, ClientFinish, SessionKey, TagS, TagC, Flatten, ParseWire, WireBytes, FindRecord, Enrolled, DeviceHandle, ComputePid;
  }

  lemma FindsOwnRecord(S: Suite, roles: seq<u64>, d: Device, mode: Mode, sk: Scalar, cr: ClientRandomness, id: Bytes32, v: ServerView)
    requires S.q > 0 && GoodClientRandomness(S, roles, d, mode, cr)
    requires var serverPub := S.Mul(BASE, sk);
             Enrolled(S, d, id, serverPub, ClientSession(S, d, serverPub, cr), v)
    ensures var serverPub := S.Mul(BASE, sk);
            FindRecord(S, serverPub, v, ClientRequest(S, roles, d, mode, serverPub, cr))
            == Ok(Registries.DeviceRecord(DevicePub(S, d), DeviceCommitment(S, d)))
  {
    hide Mod, ClientRolePart, ProveAuth, DeviceHandle, ComputePid, MakeRoleCommitment, Registries.IndexAgrees, Registries.CollisionFree;
    var serverPub := S.Mul(BASE, sk);
    var n := ClientSession(S, d, serverPub, cr);
    Registries.HandleLookupAgreesWithScan(S, PidContextOf(n, serverPub), v.st, id, v.scan);
  }
}
