/**
 What the handshake's parts mean by themselves: the Diffie-Hellman law, exactly which answers the
 client accepts, where everything stands in the two messages, which byte strings the server
 refuses, and that every random draw shows in what is sent.
 */
module HandshakeLaws {
  import opened Bytes
  import opened PrimeField
  import opened Suites
  import opened Sigma
  import opened RoleMembership
  import opened Handshake
  import opened ProofBindings
  import Registries
  import Replay

  // The Diffie-Hellman point is the peer's ephemeral multiplied by the own secret.

  /** The shared point is linear in the peer's ephemeral, and for the base point it is the own ephemeral. */
  lemma SharedPointIsLinear(S: Suite, x: Scalar, p: Point, p': Point)
    requires S.q > 0
    ensures SharedPoint(S, x, BASE) == S.Mul(BASE, x)
    ensures SharedPoint(S, x, S.Add(p, p')) == S.Add(SharedPoint(S, x, p), SharedPoint(S, x, p'))
  {
    hide Mod;
    ReduceMul(S.q, p + p', x);
    assert (p + p') * x == p * x + p' * x;
    ReduceAdd(S.q, Mod(S.q, p * x), p' * x);
    ReduceAdd(S.q, p * x, p' * x);
  }

  lemma MulInjective(q: int, h: int, x: int, y: int)
    requires Prime(q) && Mod(q, h) != 0 && 0 <= x < q && 0 <= y < q
    ensures Mod(q, h * x) == Mod(q, h * y) ==> x == y
  {
    hide Mod, Prime, Inverse;
    if Mod(q, h * x) == Mod(q, h * y) {
      assert h * x == x * h && h * y == y * h;
      DivideCong(q, x, h * x, h);
      DivideCong(q, y, h * x, h);
      Canonical(q, x);
      Canonical(q, y);
    }
  }

  /** Different peers share different points. */
  lemma SharedPointsDiffer(S: Suite, x: Scalar, p: Point, p': Point)
    requires Prime(S.q) && Mod(S.q, x) != 0 && S.In(p) && S.In(p') && p != p'
    ensures SharedPoint(S, x, p) != SharedPoint(S, x, p')
  {
    hide Mod, Prime;
    MulInjective(S.q, x, p, p');
    assert x * p == p * x && x * p' == p' * x;
  }

  // Which answers the client accepts.

  /** The parts of an answer that the client decodes, all of them proper. */
  predicate Decodes(S: Suite, pt2: seq<byte>)
    requires |pt2| == 192
  {
    && S.decompress(pt2[0..32]).Some? && S.decompress(pt2[0..32]).value != IDENTITY
    && S.decompress(pt2[32..64]).Some? && S.decompress(pt2[32..64]).value != IDENTITY
    && S.ScalarFromCanonical(pt2[64..96]).Some?
    && S.decompress(pt2[128..160]).Some? && S.decompress(pt2[128..160]).value != IDENTITY
  }

  /** The server's state as its answer shows it. */
  function ShownState(S: Suite, r: Request, pt2: seq<byte>): KcState
    requires |pt2| == 192 && Decodes(S, pt2)
  {
    KcState(r.n, r.aC, r.sC, S.decompress(pt2[0..32]).value, S.decompress(pt2[32..64]).value,
            S.ScalarFromCanonical(pt2[64..96]).value, pt2[96..128], S.decompress(pt2[128..160]).value)
  }

  lemma ShownIn(S: Suite, r: Request, pt2: seq<byte>)
    requires S.Valid() && S.In(r.sC) && |pt2| == 192 && Decodes(S, pt2)
    ensures var k := ShownState(S, r, pt2); ScalarsIn(S, k) && S.In(k.serverPub) && S.compress(k.serverPub) == pt2[0..32]
  {
    hide LeValue, Prime;
  }

  /**
   The client accepts an answer if and only if all of it decodes, its key is the pinned one byte for
   byte, its proof verifies under the pinned key, and its tag is the one the client computes.
   */
  lemma ClientAcceptsIff(S: Suite, pinned: Point, ephSecret: Scalar, r: Request, pt2: seq<byte>)
    requires S.Valid() && S.In(pinned) && S.In(r.sC) && |pt2| == 192
    ensures Decodes(S, pt2) ==> ScalarsIn(S, ShownState(S, r, pt2))
    ensures ClientFinish(S, pinned, ephSecret, r, pt2).Ok? <==>
            && Decodes(S, pt2)
            && pt2[0..32] == S.compress(pinned)
            && var k := ShownState(S, r, pt2);
               && VerifyServer(S, pinned, k.aS, k.sS, k.nonceS, k.ephS)
               && pt2[160..192] == TagS(S, SessionKey(S, SharedPoint(S, ephSecret, k.ephS), r.n, k.nonceS, k.ephS), k)
    ensures var f := ClientFinish(S, pinned, ephSecret, r, pt2);
            f.Ok? ==> f.value.k == ShownState(S, r, pt2)
                      && f.value.sessionKey == SessionKey(S, SharedPoint(S, ephSecret, f.value.k.ephS), r.n, f.value.k.nonceS, f.value.k.ephS)
                      && f.value.tagC == TagC(S, f.value.sessionKey, f.value.k)
  {
    hide Mod, LeBytes, LeValue, Prime, VerifyServer, TagS, TagC, SessionKey, SharedPoint;
    if Decodes(S, pt2) {
      ShownIn(S, r, pt2);
      EncodingsInjective(S, pinned, ShownState(S, r, pt2).serverPub);
    }
  }

  /** A decodable answer under another key is refused for its key, and one with the pinned key and a false proof for its proof. */
  lemma ClientRefuses(S: Suite, pinned: Point, ephSecret: Scalar, r: Request, pt2: seq<byte>)
    requires S.Valid() && S.In(pinned) && S.In(r.sC) && |pt2| == 192 && Decodes(S, pt2)
    ensures pt2[0..32] != S.compress(pinned) ==> ClientFinish(S, pinned, ephSecret, r, pt2) == Err(ServerKeyMismatch)
    ensures var k := ShownState(S, r, pt2);
            pt2[0..32] == S.compress(pinned) && !VerifyServer(S, pinned, k.aS, k.sS, k.nonceS, k.ephS) ==>
              ClientFinish(S, pinned, ephSecret, r, pt2) == Err(ServerProofInvalid)
  {
    hide Mod, LeBytes, LeValue, Prime, VerifyServer, TagS, TagC, SessionKey, SharedPoint;
    ShownIn(S, r, pt2);
    EncodingsInjective(S, pinned, ShownState(S, r, pt2).serverPub);
  }

  // Where everything stands in the messages.

  /** The body of the first message. */
  lemma BodyLayout(S: Suite, nRoles: nat, r: Request)
    requires WellFormedRequest(S, nRoles, r)
    ensures var b := Flatten(RequestChunks(S, nRoles, r));
            && |b| == (if r.role.None? then 160 else 256 + 96 * nRoles)
            && b[0..32] == r.n.pid && b[32..64] == S.compress(r.aC) && b[64..96] == S.ScalarBytes(r.sC)
            && b[96..128] == r.n.nonceC && b[128..160] == S.compress(r.n.ephC)
            && (r.role.Some? ==>
                  && b[160..192] == S.compress(r.role.value.cPrime) && b[192..224] == S.compress(r.role.value.rerandA)
                  && b[224..256] == S.ScalarBytes(r.role.value.rerandS))
  {
    hide Flatten, BranchChunks, LeBytes;
    var chunks := RequestChunks(S, nRoles, r);
    FlattenSlice(chunks, 0);
    FlattenSlice(chunks, 1);
    FlattenSlice(chunks, 2);
    FlattenSlice(chunks, 3);
    FlattenSlice(chunks, 4);
    if r.role.Some? {
      FlattenSlice(chunks, 5);
      FlattenSlice(chunks, 6);
      FlattenSlice(chunks, 7);
    }
  }

  /** Branch `i` of the membership proof stands at 256 + 96*i. */
  lemma BranchLayout(S: Suite, nRoles: nat, r: Request, i: nat)
    requires WellFormedRequest(S, nRoles, r) && r.role.Some? && i < nRoles
    ensures r.role.value.orProof[i] in r.role.value.orProof
    ensures var b, br, off := Flatten(RequestChunks(S, nRoles, r)), r.role.value.orProof[i], 256 + 96 * i;
            && |b| == 256 + 96 * nRoles
            && b[off..off + 32] == S.compress(br.a) && b[off + 32..off + 64] == S.ScalarBytes(br.c) && b[off + 64..off + 96] == S.ScalarBytes(br.s)
  {
    hide Flatten, BranchChunks, LeBytes;
    var chunks := RequestChunks(S, nRoles, r);
    assert chunks == chunks[..8] + BranchChunks(S, r.role.value.orProof);
    BranchSlices(S, chunks[..8], r.role.value.orProof, i);
  }

  /** The header: type 3 alone, or type 4 with flag 1 for device-only, flag 2 for a handle, and the handle. */
  lemma HeaderLayout(S: Suite, nRoles: nat, r: Request)
    requires WellFormedRequest(S, nRoles, r)
    ensures var w, body := WireBytes(S, nRoles, r), Flatten(RequestChunks(S, nRoles, r));
            if r.handle.None? && r.role.Some? then w == [3] + body
            else
              && |w| == 2 + (if r.handle.Some? then 16 else 0) + |body|
              && w[0] == 4 && w[1] == (if r.role.None? then 1 else 0) + (if r.handle.Some? then 2 else 0)
              && (r.handle.Some? ==> w[2..18] == r.handle.value && w[18..] == body)
              && (r.handle.None? ==> w[2..] == body)
  {
    hide Flatten, RequestChunks;
  }

  /** The answer: key, commitment, response, nonce, ephemeral and tag, 32 bytes each. */
  lemma AnswerLayout(S: Suite, k: KcState, tagS: Bytes32)
    requires ScalarsIn(S, k)
    ensures var b := Flatten(AnswerChunks(S, k, tagS));
            && |b| == 192
            && b[0..32] == S.compress(k.serverPub) && b[32..64] == S.compress(k.aS) && b[64..96] == S.ScalarBytes(k.sS)
            && b[96..128] == k.nonceS && b[128..160] == S.compress(k.ephS) && b[160..192] == tagS
  {
    hide Flatten, LeBytes;
    var chunks := AnswerChunks(S, k, tagS);
    FlattenSlice(chunks, 0);
    FlattenSlice(chunks, 1);
    FlattenSlice(chunks, 2);
    FlattenSlice(chunks, 3);
    FlattenSlice(chunks, 4);
    FlattenSlice(chunks, 5);
  }

  // Which byte strings the server refuses before decoding.

  lemma UnknownTypesRefused(S: Suite, nRoles: nat, allowDeviceOnly: bool, wire: seq<byte>)
    ensures wire == [] ==> ParseWire(S, nRoles, allowDeviceOnly, wire) == Err(ShortRead)
    ensures wire != [] && wire[0] != 3 && wire[0] != 4 ==> ParseWire(S, nRoles, allowDeviceOnly, wire) == Err(UnknownMsgType)
  {
    hide ParseBody;
  }

  lemma CutBody(nRoles: nat, deviceOnly: bool, handle: Option<Bytes16>, rest: seq<byte>, j: nat)
    requires ReadBody(nRoles, deviceOnly, handle, rest).Ok? && j <= |rest|
    ensures ReadBody(nRoles, deviceOnly, handle, rest[..j])
            == if j < BodyLength(nRoles, deviceOnly) then Err(ShortRead) else ReadBody(nRoles, deviceOnly, handle, rest)
  {
    if j >= BodyLength(nRoles, deviceOnly) {
      assert rest[..j][..BodyLength(nRoles, deviceOnly)] == rest[..BodyLength(nRoles, deviceOnly)];
    }
  }

  /** Reading stops at the end of the body: a shorter stream is too short, and a longer one reads the same. */
  lemma CompleteMessage(nRoles: nat, allowDeviceOnly: bool, wire: seq<byte>, k: nat)
    requires ReadEnvelope(nRoles, allowDeviceOnly, wire).Ok? && k < |wire|
    ensures var e := ReadEnvelope(nRoles, allowDeviceOnly, wire).value;
            var header := if wire[0] == 3 then 1 else if e.handle.Some? then 18 else 2;
            ReadEnvelope(nRoles, allowDeviceOnly, wire[..k])
            == if k < header + BodyLength(nRoles, e.deviceOnly) then Err(ShortRead) else Ok(e)
  {
    var e := ReadEnvelope(nRoles, allowDeviceOnly, wire).value;
    var header := if wire[0] == 3 then 1 else if e.handle.Some? then 18 else 2;
    if k >= header {
      assert wire[..k][header..] == wire[header..][..k - header];
      CutBody(nRoles, e.deviceOnly, e.handle, wire[header..], k - header);
      assert wire[0] != 3 ==> wire[..k][1] == wire[1];
      assert header == 18 ==> wire[..k][2..18] == wire[2..18];
    }
    hide ReadBody, HasFlag;
  }

  /** A message cut off anywhere is refused as short, and bytes after a complete one are not read. */
  lemma CutMessages(S: Suite, nRoles: nat, allowDeviceOnly: bool, r: Request, k: nat, tail: seq<byte>)
    requires S.Valid() && WellFormedRequest(S, nRoles, r) && (r.role.None? ==> allowDeviceOnly)
    requires k < |WireBytes(S, nRoles, r)|
    ensures ParseWire(S, nRoles, allowDeviceOnly, WireBytes(S, nRoles, r)[..k]) == Err(ShortRead)
    ensures ParseWire(S, nRoles, allowDeviceOnly, WireBytes(S, nRoles, r) + tail) == ParseWire(S, nRoles, allowDeviceOnly, WireBytes(S, nRoles, r))
  {
    hide Flatten, RequestChunks, ParseBody, ReadEnvelope, LeBytes, Prime;
    var wire := WireBytes(S, nRoles, r);
    EnvelopeOfMessage(S, nRoles, allowDeviceOnly, r, []);
    EnvelopeOfMessage(S, nRoles, allowDeviceOnly, r, tail);
    assert wire + [] == wire;
    CompleteMessage(nRoles, allowDeviceOnly, wire, k);
    HeaderLayout(S, nRoles, r);
  }

  lemma EnvelopeOfMessage(S: Suite, nRoles: nat, allowDeviceOnly: bool, r: Request, tail: seq<byte>)
    requires WellFormedRequest(S, nRoles, r) && (r.role.None? ==> allowDeviceOnly)
    ensures ReadEnvelope(nRoles, allowDeviceOnly, WireBytes(S, nRoles, r) + tail)
            == Ok(Envelope(r.role.None?, r.handle, Flatten(RequestChunks(S, nRoles, r))))
  {
    BodyLayout(S, nRoles, r);
    hide Flatten, RequestChunks, LeBytes, ReadEnvelope;
    var body := Flatten(RequestChunks(S, nRoles, r));
    if r.handle.None? && r.role.Some? {
      V2EnvelopeReads(nRoles, allowDeviceOnly, body, tail);
    } else {
      var flags := (if r.role.None? then FLAG_DEVICE_ONLY else 0) + (if r.handle.Some? then FLAG_HANDLE_LOOKUP else 0);
      V3EnvelopeReads(nRoles, allowDeviceOnly, flags, r.handle, body, tail);
    }
  }

  // Every random draw shows in what is sent.

  lemma BaseMultiples(S: Suite, x: Scalar, y: Scalar)
    requires S.In(x) && S.In(y)
    ensures S.Mul(BASE, x) == x && (S.Mul(BASE, x) == S.Mul(BASE, y) ==> x == y)
  {
    hide Mod;
    assert BASE * x == x && BASE * y == y;
    Canonical(S.q, x);
    Canonical(S.q, y);
  }

  predicate DrawsIn(S: Suite, cr: ClientRandomness) {
    S.In(cr.ephSecret) && S.In(cr.delta)
  }

  /** What one run in role mode sends determines every scalar and nonce it drew. */
  lemma RequestShowsDraws(S: Suite, roles: seq<u64>, d: Device, mode: Mode, serverPub: Point, cr: ClientRandomness, cr': ClientRandomness)
    requires S.Valid() && !mode.deviceOnly
    requires GoodClientRandomness(S, roles, d, mode, cr) && GoodClientRandomness(S, roles, d, mode, cr') && DrawsIn(S, cr) && DrawsIn(S, cr')
    requires ClientRequest(S, roles, d, mode, serverPub, cr) == ClientRequest(S, roles, d, mode, serverPub, cr')
    ensures cr == cr'
  {
    hide Mod, Prime, OrProof, ComputePid, DeviceHandle, AuthChallenge, RerandChallenge, RerandomizedCommitment, GoodRandomness;
    BaseMultiples(S, cr.ephSecret, cr'.ephSecret);
    BaseMultiples(S, cr.authR, cr'.authR);
    var n := ClientSession(S, d, serverPub, cr);
    var commitment := DeviceCommitment(S, d);
    var cPrime := RerandomizedCommitment(S, commitment, cr.delta);
    CommitmentIn(S, commitment, cr.delta);
    RerandomizationHides(S, commitment, cPrime, cr.delta);
    RerandomizationHides(S, commitment, cPrime, cr'.delta);
    Canonical(S.q, S.h);
    MulInjective(S.q, S.h, cr.rerandR, cr'.rerandR);
    var k, blind := Position(roles, d.roleCode), S.Add(d.blind, cr.delta);
    RecoverInvertsProve(S, n, cPrime, roles, k, blind, cr.orRnd);
    RecoverInvertsProve(S, n, cPrime, roles, k, blind, cr'.orRnd);
  }

  lemma CommitmentIn(S: Suite, commitment: Point, delta: Scalar)
    requires S.q > 0
    ensures S.In(RerandomizedCommitment(S, commitment, delta))
  {
    hide Mod;
  }

  /** And so does the server's answer. */
  lemma AnswerShowsDraws(S: Suite, roles: seq<u64>, sk: Scalar, v: ServerView, r: Request, sr: ServerRandomness, sr': ServerRandomness)
    requires S.Valid() && S.In(r.sC) && S.In(sr.r) && S.In(sr.ephSecret) && S.In(sr'.r) && S.In(sr'.ephSecret)
    requires ServerAnswer(S, roles, sk, v, r, sr).Ok? && ServerAnswer(S, roles, sk, v, r, sr') == ServerAnswer(S, roles, sk, v, r, sr)
    ensures sr == sr'
  {
    hide Mod, Prime, Flatten, FindRecord, CheckProofs, SessionKey, SharedPoint, TagS, TagC, ServerChallenge, LeBytes;
    var k, k' := ServerKcState(S, sk, r, sr), ServerKcState(S, sk, r, sr');
    var key, key' := SessionKey(S, SharedPoint(S, sr.ephSecret, r.n.ephC), r.n, sr.nonceS, k.ephS),
                     SessionKey(S, SharedPoint(S, sr'.ephSecret, r.n.ephC), r.n, sr'.nonceS, k'.ephS);
    AnswerLayout(S, k, TagS(S, key, k));
    AnswerLayout(S, k', TagS(S, key', k'));
    EncodingsInjective(S, k.aS, k'.aS);
    EncodingsInjective(S, k.ephS, k'.ephS);
    BaseMultiples(S, sr.ephSecret, sr'.ephSecret);
    BaseMultiples(S, sr.r, sr'.r);
  }
}
