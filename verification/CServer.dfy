/**
 The C server's authentication branch, from the bytes of the message to its answer: it decodes
 points but works on scalars as they were sent, and every product it checks must not be the
 identity.
 */
module CServer {
  import opened Bytes
  import opened PrimeField
  import opened Transcript
  import opened Suites
  import opened Sigma
  import opened RoleMembership
  import opened Handshake
  import opened RegistryC
  import opened Registries
  import Replay
  import ReplayC

  datatype CRolePart = CRolePart(cPrime: Point, rerandA: Point, rerandS: Bytes32, orProof: seq<RawBranch>)

  /** A message after the C server's point tests. */
  datatype CRequest = CRequest(handle: Option<Bytes16>, n: Session, aC: Point, sC: Bytes32, role: Option<CRolePart>)

  function RawBranches(pt: seq<byte>, n: nat): (raw: seq<RawBranch>)
    requires 256 + 96 * n <= |pt|
    ensures |raw| == n
  {
    seq(n, i requires 0 <= i < n =>
      var off := 256 + i * 96;
      RawBranch(pt[off..off + 32], pt[off + 32..off + 64], pt[off + 64..off + 96]))
  }

  function DecodeRolePartC(S: Suite, nRoles: nat, pt: seq<byte>): Option<CRolePart>
    requires |pt| == 256 + 96 * nRoles
  {
    var cPrime, rerandA, raw := S.decompress(pt[160..192]), S.decompress(pt[192..224]), RawBranches(pt, nRoles);
    if cPrime.None? || rerandA.None? || !ValidPoints(S, raw) then None
    else Some(CRolePart(cPrime.value, rerandA.value, pt[224..256], raw))
  }

  /** The point tests of the handler; the identity point passes them, and scalars are not looked at. */
  function DecodeC(S: Suite, nRoles: nat, e: Envelope): Option<CRequest>
    requires |e.body| == BodyLength(nRoles, e.deviceOnly)
  {
    var pt := e.body;
    var aC, ephC := S.decompress(pt[32..64]), S.decompress(pt[128..160]);
    if aC.None? || ephC.None? then None
    else
      var n := Session(pt[0..32], pt[96..128], ephC.value);
      if e.deviceOnly then Some(CRequest(e.handle, n, aC.value, pt[64..96], None))
      else
        var role := DecodeRolePartC(S, nRoles, pt);
        if role.None? then None else Some(CRequest(e.handle, n, aC.value, pt[64..96], role))
  }

  // The proofs.

  /** The product with the key must not be the identity; the product with the base may be. */
  predicate VerifyAuthC(S: Suite, lib: Sodium, pubkey: Point, r: CRequest)
    requires S.q > 0
  {
    var c := AuthChallenge(S, r.n.pid, pubkey, r.aC, r.n.nonceC, r.n.ephC);
    S.Mul(pubkey, c) != IDENTITY && Holds(S, BASE, pubkey, r.aC, c, lib.factor(r.sC))
  }

  predicate VerifyRoleRerandomizationC(S: Suite, lib: Sodium, n: Session, storedC: Point, p: CRolePart)
    requires S.q > 0
  {
    var c, diff, s := RerandChallenge(S, n, storedC, p.cPrime, p.rerandA), S.Sub(p.cPrime, storedC), lib.factor(p.rerandS);
    && S.Mul(S.h, s) != IDENTITY && S.Mul(diff, c) != IDENTITY
    && Holds(S, S.h, diff, p.rerandA, c, s)
  }

  predicate RoleProofsVerifyC(S: Suite, lib: Sodium, roles: seq<u64>, storedC: Point, n: Session, p: CRolePart)
    requires S.q > 0
  {
    VerifyRoleRerandomizationC(S, lib, n, storedC, p) && CAcceptsRaw(S, lib, n, p.cPrime, roles, p.orProof)
  }

  // Lookup and answer.

  /** The record for a request: by handle and then compared, or by scan. */
  function FindEntry(S: Suite, serverPub: Point, arr: seq<Entry>, r: CRequest): Option<Entry> {
    var c := PidContextOf(r.n, serverPub);
    match r.handle
    case None => FirstMatch(S, ByPid(c, r.n.pid), arr)
    case Some(h) =>
      var e := FirstMatch(S, ByHandle(h), arr);
      if e.Some? && Hits(S, ByPid(c, r.n.pid), e.value) then e else None
  }

  /** The stored points, if they are points; enrollment lets no others in. */
  function StoredRecord(S: Suite, e: Entry): Option<DeviceRecord> {
    var pub, commitment := S.decompress(e.pub), S.decompress(e.roleCommitment);
    if pub.None? || commitment.None? then None else Some(DeviceRecord(pub.value, commitment.value))
  }

  /** The server's half of the handshake, confirming the client's response as it was sent. */
  function AnswerC(S: Suite, sk: Scalar, r: CRequest, sr: ServerRandomness): Option<Answer>
    requires S.q > 0
  {
    var serverPub, ephS := S.Mul(BASE, sk), S.Mul(BASE, sr.ephSecret);
    var (aS, sS) := ProveServer(S, sk, sr.nonceS, ephS, sr.r);
    var shared := SharedPoint(S, sr.ephSecret, r.n.ephC);
    if shared == IDENTITY then None
    else
      var sessionKey := SessionKey(S, shared, r.n, sr.nonceS, ephS);
      var th := S.sha256(Encode(T_KC_V2, KcFieldsOver(S, r.n, r.aC, r.sC, serverPub, aS, S.ScalarBytes(sS), sr.nonceS, ephS)));
      var tagS := FinishedTag(S, sessionKey, th, S2C, SERVER_FINISHED);
      Some(Answer(Flatten([S.compress(serverPub), S.compress(aS), S.ScalarBytes(sS), sr.nonceS, S.compress(ephS), tagS]),
                  sessionKey, FinishedTag(S, sessionKey, th, C2S, CLIENT_FINISHED)))
  }

  /** Lookup, proofs and answer for a request past the replay stage. */
  function CheckAndAnswerC(S: Suite, lib: Sodium, roles: seq<u64>, sk: Scalar, arr: seq<Entry>, r: CRequest, sr: ServerRandomness): Option<Answer>
    requires S.q > 0
  {
    var e := FindEntry(S, S.Mul(BASE, sk), arr, r);
    if e.None? then None
    else
      var rec := StoredRecord(S, e.value);
      if rec.None? then None
      else if !VerifyAuthC(S, lib, rec.value.pubkey, r) then None
      else if r.role.Some? && !RoleProofsVerifyC(S, lib, roles, rec.value.roleCommitment, r.n, r.role.value) then None
      else AnswerC(S, sk, r, sr)
  }

  /** What the environment decides during one request. */
  datatype Env = Env(benchMode: bool, allowDeviceOnly: bool, outOfMemory: bool, now: nat, saves: bool)

  /** The whole branch: decode, replay stage unless in bench mode, lookup, proofs, answer. */
  function ServeAuth(S: Suite, lib: Sodium, roles: seq<u64>, sk: Scalar, store: ReplayC.Store, arr: seq<Entry>,
                     wire: seq<byte>, sr: ServerRandomness, env: Env): (ReplayC.Store, Option<Answer>)
    requires S.q > 0
  {
    match ReadEnvelope(|roles|, env.allowDeviceOnly, wire)
    case Err(_) => (store, None)
    case Ok(e) =>
      match DecodeC(S, |roles|, e)
      case None => (store, None)
      case Some(r) =>
        var (after, pass) :=
          if env.benchMode then (store, true)
          else ReplayC.AuthRequest(Replay.REPLAY_GEN_MAX, store, r.n.pid + r.n.nonceC, env.outOfMemory, env.now, env.saves);
        (after, if pass then CheckAndAnswerC(S, lib, roles, sk, arr, r, sr) else None)
  }

  /** The branch as it runs, on the cache's arrays and the registry's array. */
  method HandleAuthC(S: Suite, lib: Sodium, roles: seq<u64>, sk: Scalar, cache: ReplayC.CReplayCache, arr: array<Entry>,
                     wire: seq<byte>, sr: ServerRandomness, env: Env, disk: Option<seq<byte>>)
    returns (a: Option<Answer>, file: Option<seq<byte>>)
    requires S.q > 0 && |roles| < 0x1_0000_0000_0000_0000 && cache.Valid()
    modifies cache, cache.current
    ensures cache.Valid()
    ensures var before := old(cache.View(disk));
            || (cache.View(file), a) == ServeAuth(S, lib, roles, sk, before, arr[..], wire, sr, env.(outOfMemory := false))
            || (env.outOfMemory && (cache.View(file), a) == ServeAuth(S, lib, roles, sk, before, arr[..], wire, sr, env))
  {
    hide Mod, ReadEnvelope, DecodeC, CheckAndAnswerC, ReplayC.AuthRequest;
    var e := ReadEnvelope(|roles|, env.allowDeviceOnly, wire);
    if e.Err? {
      return None, disk;
    }
    var decoded := DecodeC(S, |roles|, e.value);
    if decoded.None? {
      return None, disk;
    }
    var r := decoded.value;
    file := disk;
    if !env.benchMode {
      var pass;
      pass, file := ReplayC.HandleReplayStage(cache, r.n.pid, r.n.nonceC, !env.outOfMemory, env.now, env.saves, disk);
      if !pass {
        return None, file;
      }
    }
    DecodedBranches(S, |roles|, e.value);
    a := CheckRequest(S, lib, roles, sk, arr, r, sr);
  }

  lemma DecodedBranches(S: Suite, nRoles: nat, e: Envelope)
    requires |e.body| == BodyLength(nRoles, e.deviceOnly)
    ensures var r := DecodeC(S, nRoles, e); r.Some? && r.value.role.Some? ==> |r.value.role.value.orProof| == nRoles
  {
  }

  method CheckRequest(S: Suite, lib: Sodium, roles: seq<u64>, sk: Scalar, arr: array<Entry>, r: CRequest, sr: ServerRandomness) returns (a: Option<Answer>)
    requires S.q > 0 && |roles| < 0x1_0000_0000_0000_0000 && (r.role.Some? ==> |r.role.value.orProof| == |roles|)
    ensures a == CheckAndAnswerC(S, lib, roles, sk, arr[..], r, sr)
  {
    hide Mod, FirstMatch, PidFromBytes, HandleFromBytes, CAcceptsRaw, VerifyAuthC, VerifyRoleRerandomizationC, AnswerC;
    var c := PidContextOf(r.n, S.Mul(BASE, sk));
    var found: Option<Entry>;
    if r.handle.Some? {
      found := RegistryC.LookupRecordByHandle(S, arr, r.handle.value);
      if found.None? || PidFromBytes(S, found.value.pub, c.nonceC, c.ephC, c.serverPub) != r.n.pid {
        return None;
      }
    } else {
      found := RegistryC.LookupRecordByPid(S, arr, c, r.n.pid);
      if found.None? {
        return None;
      }
    }
    var rec := StoredRecord(S, found.value);
    if rec.None? || !VerifyAuthC(S, lib, rec.value.pubkey, r) {
      return None;
    }
    if r.role.Some? {
      var p := r.role.value;
      if !VerifyRoleRerandomizationC(S, lib, r.n, rec.value.roleCommitment, p) {
        return None;
      }
      var rc := VerifyRoleSetMembershipC(S, lib, r.n, p.cPrime, roles, p.orProof);
      if rc != 0 {
        return None;
      }
    }
    return AnswerC(S, sk, r, sr);
  }
}
