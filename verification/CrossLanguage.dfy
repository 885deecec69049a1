/**
 A Rust device at a C server. Both servers read the same bytes and check the same equations, but
 the C library reports failure whenever a checked product is the identity point, so the C server
 turns away some messages the Rust server answers: exactly those with a zero in them.
 */
module CrossLanguage {
  import opened Bytes
  import opened PrimeField
  import opened Suites
  import opened Sigma
  import opened RoleMembership
  import opened Handshake
  import opened CServer
  import opened HandshakeLaws
  import Registries
  import RegistryC
  import Replay
  import ReplayC

  // What the C server sees of a message the Rust server decodes.

  function AsRolePartC(S: Suite, p: RolePart): CRolePart
    requires S.In(p.rerandS) && WellFormed(S, p.orProof)
  {
    CRolePart(p.cPrime, p.rerandA, S.ScalarBytes(p.rerandS), RawProof(S, p.orProof))
  }

  function AsRequestC(S: Suite, nRoles: nat, r: Request): CRequest
    requires WellFormedRequest(S, nRoles, r)
  {
    CRequest(r.handle, r.n, r.aC, S.ScalarBytes(r.sC), if r.role.Some? then Some(AsRolePartC(S, r.role.value)) else None)
  }

  /** What decodes is the canonical encoding of what it decodes to. */
  lemma DecodedFrom(S: Suite, b: Bytes32)
    requires S.Valid()
    ensures DecodePoint(S, b).Ok? ==> S.In(DecodePoint(S, b).value) && S.decompress(b) == Some(DecodePoint(S, b).value)
    ensures DecodeAnyPoint(S, b).Ok? ==> S.In(DecodeAnyPoint(S, b).value) && S.decompress(b) == Some(DecodeAnyPoint(S, b).value)
                                         && S.compress(DecodeAnyPoint(S, b).value) == b
    ensures DecodeScalar(S, b).Ok? ==> S.In(DecodeScalar(S, b).value) && S.ScalarBytes(DecodeScalar(S, b).value) == b
  {
    LeCanonical(b);
    hide LeValue, LeBytes, Prime;
  }

  lemma BranchCorresponds(S: Suite, pt: seq<byte>, off: nat)
    requires S.Valid() && off + 96 <= |pt|
    ensures var a, c, s := DecodeAnyPoint(S, pt[off..off + 32]), DecodeScalar(S, pt[off + 32..off + 64]), DecodeScalar(S, pt[off + 64..off + 96]);
            a.Ok? && c.Ok? && s.Ok? ==>
              && S.In(a.value) && S.In(c.value) && S.In(s.value)
              && S.compress(a.value) == pt[off..off + 32]
              && S.ScalarBytes(c.value) == pt[off + 32..off + 64] && S.ScalarBytes(s.value) == pt[off + 64..off + 96]
  {
    hide DecodeAnyPoint, DecodeScalar, LeBytes, Prime;
    DecodedFrom(S, pt[off..off + 32]);
    DecodedFrom(S, pt[off + 32..off + 64]);
    DecodedFrom(S, pt[off + 64..off + 96]);
  }

  /** The branches as decoded by one server and as kept by the other. */
  lemma {:induction false} BranchesCorrespond(S: Suite, pt: seq<byte>, n: nat)
    requires S.Valid() && 256 + 96 * n <= |pt| && ParseBranches(S, pt, n).Ok?
    ensures var proof := ParseBranches(S, pt, n).value;
            |proof| == n && WellFormed(S, proof) && RawProof(S, proof) == RawBranches(pt, n)
  {
    hide DecodeAnyPoint, DecodeScalar, LeBytes, LeValue, Prime;
    if n > 0 {
      BranchesCorrespond(S, pt, n - 1);
      BranchCorresponds(S, pt, 256 + (n - 1) * 96);
      var before, proof := ParseBranches(S, pt, n - 1).value, ParseBranches(S, pt, n).value;
      assert proof == before + [proof[n - 1]];
      assert RawProof(S, proof) == RawProof(S, before) + [RawBranches(pt, n)[n - 1]];
    }
  }

  lemma ProofPointsValid(S: Suite, proof: seq<Branch>)
    requires S.Valid() && WellFormed(S, proof)
    ensures ValidPoints(S, RawProof(S, proof))
  {
    hide LeBytes, Prime;
    forall i | 0 <= i < |proof| ensures S.decompress(RawProof(S, proof)[i].a).Some? {
      assert proof[i] in proof;
    }
  }

  lemma RolePartsCorrespond(S: Suite, nRoles: nat, pt: seq<byte>)
    requires S.Valid() && |pt| == 256 + 96 * nRoles && ParseRolePart(S, nRoles, pt).Ok?
    ensures var p := ParseRolePart(S, nRoles, pt).value;
            && S.In(p.cPrime) && S.In(p.rerandA) && S.In(p.rerandS) && |p.orProof| == nRoles && WellFormed(S, p.orProof)
            && DecodeRolePartC(S, nRoles, pt) == Some(AsRolePartC(S, p))
  {
    hide DecodePoint, DecodeScalar, ParseBranches, RawBranches, RawProof, LeBytes, LeValue, WellFormed, ValidPoints, Prime;
    DecodedFrom(S, pt[160..192]);
    DecodedFrom(S, pt[192..224]);
    DecodedFrom(S, pt[224..256]);
    BranchesCorrespond(S, pt, nRoles);
    ProofPointsValid(S, ParseBranches(S, pt, nRoles).value);
  }

  /** On any bytes: a message the Rust server decodes, the C server decodes to the same request. */
  lemma DecodersAgree(S: Suite, nRoles: nat, e: Envelope)
    requires S.Valid() && |e.body| == BodyLength(nRoles, e.deviceOnly) && ParseBody(S, nRoles, e).Ok?
    ensures var r := ParseBody(S, nRoles, e).value;
            WellFormedRequest(S, nRoles, r) && PointsProper(r) && DecodeC(S, nRoles, e) == Some(AsRequestC(S, nRoles, r))
  {
    hide DecodeScalar, ParseRolePart, DecodeRolePartC, RawProof, LeBytes, LeValue, Prime;
    DecodedFrom(S, e.body[32..64]);
    DecodedFrom(S, e.body[64..96]);
    DecodedFrom(S, e.body[128..160]);
    if !e.deviceOnly {
      RolePartsCorrespond(S, nRoles, e.body);
      RolePointsProper(S, nRoles, e.body);
    }
  }

  lemma RolePointsProper(S: Suite, nRoles: nat, pt: seq<byte>)
    requires |pt| == 256 + 96 * nRoles && ParseRolePart(S, nRoles, pt).Ok?
    ensures var p := ParseRolePart(S, nRoles, pt).value; p.cPrime != IDENTITY && p.rerandA != IDENTITY
  {
    hide ParseBranches, DecodeScalar, DecodeAnyPoint;
  }

  /** The C server decodes every message of group elements, with identity points too, where the Rust server refuses those. */
  lemma CDecodesIdentities(S: Suite, nRoles: nat, r: Request)
    requires S.Valid() && WellFormedRequest(S, nRoles, r)
    ensures var body := Flatten(RequestChunks(S, nRoles, r));
            && |body| == BodyLength(nRoles, r.role.None?)
            && DecodeC(S, nRoles, Envelope(r.role.None?, r.handle, body)) == Some(AsRequestC(S, nRoles, r))
            && (!PointsProper(r) ==> ParseBody(S, nRoles, Envelope(r.role.None?, r.handle, body)) == Err(IdentityPoint))
  {
    BodyParses(S, nRoles, r);
    BodyLayout(S, nRoles, r);
    var body := Flatten(RequestChunks(S, nRoles, r));
    hide Flatten, RequestChunks, LeBytes, Prime, RawProof, RawBranches, ParseBody, ValidPoints;
    assert S.decompress(S.compress(r.aC)) == Some(r.aC) && S.decompress(S.compress(r.n.ephC)) == Some(r.n.ephC);
    if r.role.Some? {
      var p := r.role.value;
      assert S.decompress(S.compress(p.cPrime)) == Some(p.cPrime) && S.decompress(S.compress(p.rerandA)) == Some(p.rerandA);
      BranchesAreRaw(S, nRoles, r);
      ProofPointsValid(S, p.orProof);
    }
  }

  lemma BranchesAreRaw(S: Suite, nRoles: nat, r: Request)
    requires WellFormedRequest(S, nRoles, r) && r.role.Some?
    ensures var body := Flatten(RequestChunks(S, nRoles, r));
            |body| == 256 + 96 * nRoles && RawBranches(body, nRoles) == RawProof(S, r.role.value.orProof)
  {
    hide Flatten, RequestChunks, LeBytes;
    var body, raw := Flatten(RequestChunks(S, nRoles, r)), RawProof(S, r.role.value.orProof);
    BodySize(S, nRoles, r);
    forall i | 0 <= i < nRoles ensures RawBranches(body, nRoles)[i] == raw[i] {
      BranchLayout(S, nRoles, r, i);
    }
  }

  lemma BodySize(S: Suite, nRoles: nat, r: Request)
    requires WellFormedRequest(S, nRoles, r)
    ensures |Flatten(RequestChunks(S, nRoles, r))| == BodyLength(nRoles, r.role.None?)
    ensures r.role.Some? ==> |r.role.value.orProof| == nRoles
  {
    BodyLayout(S, nRoles, r);
  }

  // The proofs: the same equations, and no zero.

  /** No zero challenge, response or difference anywhere in the message. */
  predicate ZeroFree(S: Suite, roles: seq<u64>, rec: Registries.DeviceRecord, r: Request)
    requires S.q > 0
  {
    && AuthChallenge(S, r.n.pid, rec.pubkey, r.aC, r.n.nonceC, r.n.ephC) != 0
    && (r.role.Some? ==>
          var p := r.role.value;
          && p.rerandS != 0 && RerandChallenge(S, r.n, rec.roleCommitment, p.cPrime, p.rerandA) != 0
          && p.cPrime != rec.roleCommitment
          && |p.orProof| == |roles|
          && forall i :: 0 <= i < |roles| ==>
               p.orProof[i].s != 0 && p.orProof[i].c != 0 && Target(S, p.cPrime, roles[i]) != IDENTITY)
  }

  predicate ProperRecord(S: Suite, rec: Registries.DeviceRecord) {
    S.In(rec.pubkey) && S.In(rec.roleCommitment) && rec.pubkey != IDENTITY
  }

  lemma AuthChecksDiffer(S: Suite, lib: Sodium, rec: Registries.DeviceRecord, nRoles: nat, r: Request)
    requires S.Valid() && ReadsScalars(S, lib) && ProperRecord(S, rec) && WellFormedRequest(S, nRoles, r)
    ensures VerifyAuthC(S, lib, rec.pubkey, AsRequestC(S, nRoles, r)) <==>
            && VerifyAuth(S, rec.pubkey, r.n.pid, r.aC, r.sC, r.n.nonceC, r.n.ephC)
            && AuthChallenge(S, r.n.pid, rec.pubkey, r.aC, r.n.nonceC, r.n.ephC) != 0
  {
    hide Mod, LeBytes, Prime, Holds, VartimeSchnorrCheck, RawProof;
    var c := AuthChallenge(S, r.n.pid, rec.pubkey, r.aC, r.n.nonceC, r.n.ephC);
    assert lib.factor(S.ScalarBytes(r.sC)) == r.sC;
    NonzeroProduct(S.q, rec.pubkey, c);
    VartimeCheckIsDirectCheck(S, BASE, rec.pubkey, r.aC, c, r.sC);
  }

  lemma RerandChecksDiffer(S: Suite, lib: Sodium, n: Session, storedC: Point, p: RolePart)
    requires S.Valid() && ReadsScalars(S, lib) && S.In(storedC) && S.In(p.cPrime) && S.In(p.rerandS) && WellFormed(S, p.orProof)
    ensures VerifyRoleRerandomizationC(S, lib, n, storedC, AsRolePartC(S, p)) <==>
            && VerifyRoleRerandomization(S, n, storedC, p.cPrime, p.rerandA, p.rerandS)
            && p.rerandS != 0 && RerandChallenge(S, n, storedC, p.cPrime, p.rerandA) != 0 && p.cPrime != storedC
  {
    hide Mod, LeBytes, Prime, Holds, VartimeSchnorrCheck, RawProof, WellFormed;
    var c, diff := RerandChallenge(S, n, storedC, p.cPrime, p.rerandA), S.Sub(p.cPrime, storedC);
    assert lib.factor(S.ScalarBytes(p.rerandS)) == p.rerandS;
    NonzeroProduct(S.q, S.h, p.rerandS);
    NonzeroProduct(S.q, diff, c);
    VartimeCheckIsDirectCheck(S, S.h, diff, p.rerandA, c, p.rerandS);
    Canonical(S.q, p.cPrime);
    Canonical(S.q, storedC);
    ZeroDifference(S.q, p.cPrime, storedC);
  }

  lemma ProofChecksDiffer(S: Suite, lib: Sodium, roles: seq<u64>, rec: Registries.DeviceRecord, r: Request)
    requires S.Valid() && ReadsScalars(S, lib) && ProperRecord(S, rec) && WellFormedRequest(S, |roles|, r) && NoIdentities(r)
    ensures var c := AsRequestC(S, |roles|, r);
            (&& VerifyAuthC(S, lib, rec.pubkey, c)
             && (c.role.Some? ==> RoleProofsVerifyC(S, lib, roles, rec.roleCommitment, c.n, c.role.value)))
            <==> CheckProofs(S, roles, rec, r).Ok? && ZeroFree(S, roles, rec, r)
  {
    hide VerifyAuthC, VerifyAuth, VerifyRoleRerandomizationC, VerifyRoleRerandomization, AuthChallenge, RerandChallenge, OrEquations, NoIdentityProduct, Target, CAcceptsRaw, RawProof, ReadsScalars;
    AuthChecksDiffer(S, lib, rec, |roles|, r);
    if r.role.Some? {
      var p := r.role.value;
      RerandChecksDiffer(S, lib, r.n, rec.roleCommitment, p);
      RawAcceptsIff(S, lib, r.n, p.cPrime, roles, p.orProof);
      if OrEquations(S, r.n, p.cPrime, roles, p.orProof) {
        VerifiersDifferOnlyOnZeros(S, r.n, p.cPrime, roles, p.orProof);
      }
    }
  }

  /** Ephemeral keys that are not the identity never share the identity: the group has prime order. */
  lemma SharedPointProper(S: Suite, ephSecret: Scalar, peerEph: Point)
    requires S.Valid() && S.In(peerEph) && peerEph != IDENTITY && S.Mul(BASE, ephSecret) != IDENTITY
    ensures SharedPoint(S, ephSecret, peerEph) != IDENTITY
  {
    hide Mod;
    assert BASE * ephSecret == ephSecret;
    Canonical(S.q, peerEph);
    Canonical(S.q, 0);
    ZeroProduct(S.q, peerEph, ephSecret);
  }

  // The lookups.

  lemma StoredRecordReads(S: Suite, id: Bytes32, rec: Registries.DeviceRecord)
    requires S.Valid() && S.In(rec.pubkey) && S.In(rec.roleCommitment)
    ensures StoredRecord(S, RegistryC.EntryOf(S, id, rec)) == Some(rec)
  {
    hide Prime;
  }

  /** The C array and the Rust registry, index and scan agree on whose request it is. */
  ghost predicate SameRegistry(S: Suite, serverPub: Point, v: ServerView, arr: seq<RegistryC.Entry>, n: Session) {
    && RegistryC.SameRecords(S, v.st.reg, arr) && Registries.IndexAgrees(S, v.st)
    && Registries.CollisionFree(S, PidContextOf(n, serverPub), v.st.reg)
    && Registries.IsScanResult(S, PidContextOf(n, serverPub), v.st.reg, n.pid, v.scan)
    && forall id <- v.st.reg :: ProperRecord(S, v.st.reg[id])
  }

  lemma LookupsAgree(S: Suite, serverPub: Point, v: ServerView, arr: seq<RegistryC.Entry>, nRoles: nat, r: Request)
    requires S.Valid() && WellFormedRequest(S, nRoles, r) && SameRegistry(S, serverPub, v, arr, r.n)
    ensures var e, found := FindEntry(S, serverPub, arr, AsRequestC(S, nRoles, r)), FindRecord(S, serverPub, v, r);
            if found.Ok? then e.Some? && StoredRecord(S, e.value) == Some(found.value) && ProperRecord(S, found.value)
            else e.None?
  {
    hide RegistryC.FirstMatch, HandleFromBytes, PidFromBytes, LeBytes, RawProof, Prime, StoredRecord, ProperRecord, Registries.CollisionFree;
    var c := PidContextOf(r.n, serverPub);
    var handle: Bytes16 := if r.handle.Some? then r.handle.value else seq(16, _ => 0);
    RegistryC.SearchesAgree(S, c, v.st, arr, handle, r.n.pid, v.scan);
    hide RegistryC.SameRecords;
    if r.handle.Some? && handle in v.st.index {
      RecordIn(S, v.st.index[handle].0, v.st.index[handle].1);
    }
    if v.scan.Some? {
      RecordIn(S, v.scan.value.0, v.scan.value.1);
    }
  }

  lemma RecordIn(S: Suite, id: Bytes32, rec: Registries.DeviceRecord)
    requires S.Valid()
    ensures ProperRecord(S, rec) ==> StoredRecord(S, RegistryC.EntryOf(S, id, rec)) == Some(rec)
  {
    if ProperRecord(S, rec) {
      StoredRecordReads(S, id, rec);
    }
  }

  // The answers.

  lemma AnswersAreEqual(S: Suite, nRoles: nat, sk: Scalar, r: Request, sr: ServerRandomness)
    requires S.Valid() && WellFormedRequest(S, nRoles, r) && r.n.ephC != IDENTITY && S.Mul(BASE, sr.ephSecret) != IDENTITY
    ensures var k := ServerKcState(S, sk, r, sr);
            var sessionKey := SessionKey(S, SharedPoint(S, sr.ephSecret, r.n.ephC), r.n, sr.nonceS, k.ephS);
            AnswerC(S, sk, AsRequestC(S, nRoles, r), sr)
            == Some(Answer(Flatten(AnswerChunks(S, k, TagS(S, sessionKey, k))), sessionKey, TagC(S, sessionKey, k)))
  {
    hide Mod, Prime, Flatten, SessionKey, FinishedTag, KcFieldsOver, ProveServer, LeBytes, RawProof, SharedPoint;
    SharedPointProper(S, sr.ephSecret, r.n.ephC);
  }

  /**
   On any bytes the Rust server decodes, from the same records and the same remembered keys and
   with the same randomness, the C server answers if and only if its replay stage passes, the Rust
   server answers and the message is free of zeros; and then the answers, keys and tags are equal.
   */
  lemma CServerAnswersIff(S: Suite, lib: Sodium, roles: seq<u64>, sk: Scalar, v: ServerView, store: ReplayC.Store,
                          arr: seq<RegistryC.Entry>, wire: seq<byte>, sr: ServerRandomness, env: Env)
    requires S.Valid() && ReadsScalars(S, lib) && S.Mul(BASE, sr.ephSecret) != IDENTITY && !env.benchMode
    requires ParseWire(S, |roles|, env.allowDeviceOnly, wire).Ok?
    requires var r := ParseWire(S, |roles|, env.allowDeviceOnly, wire).value;
             && (r.role.Some? ==> NoIdentityCommitment(r.role.value.orProof))
             && SameRegistry(S, S.Mul(BASE, sk), v, arr, r.n)
    requires ReplayC.ValidArrays(Replay.REPLAY_GEN_MAX, store.arrays) && v.cache == ReplayC.Sets(store.arrays)
    ensures var r := ParseWire(S, |roles|, env.allowDeviceOnly, wire).value;
            var replay := ReplayC.AuthRequest(Replay.REPLAY_GEN_MAX, store, r.n.pid + r.n.nonceC, env.outOfMemory, env.now, env.saves);
            && WellFormedRequest(S, |roles|, r)
            && var found, rust := FindRecord(S, S.Mul(BASE, sk), v, r), ServerAnswer(S, roles, sk, v, r, sr);
               ServeAuth(S, lib, roles, sk, store, arr, wire, sr, env)
               == (replay.0, if replay.1 && rust.Ok? && ZeroFree(S, roles, found.value, r) then Some(rust.value) else None)
  {
    hide Mod, Prime, ReadEnvelope, ParseBody, DecodeC, ReplayC.AuthRequest, CheckAndAnswerC, ServerAnswer, FindRecord, ZeroFree, SameRegistry, ReplayC.ValidArrays, ReadsScalars, AsRequestC, WellFormedRequest;
    var e := ReadEnvelope(|roles|, env.allowDeviceOnly, wire).value;
    DecodersAgree(S, |roles|, e);
    var r := ParseBody(S, |roles|, e).value;
    AsRequestKeeps(S, |roles|, r);
    PassedIsFresh(store, r.n.pid + r.n.nonceC, env);
    FreshAnswersIff(S, lib, roles, sk, v, arr, r, sr);
  }

  lemma AsRequestKeeps(S: Suite, nRoles: nat, r: Request)
    requires WellFormedRequest(S, nRoles, r)
    ensures AsRequestC(S, nRoles, r).n == r.n && S.In(r.sC)
  {
  }

  /** The C replay stage passes only keys that the sets do not remember. */
  lemma PassedIsFresh(store: ReplayC.Store, key: Replay.Key, env: Env)
    requires ReplayC.ValidArrays(Replay.REPLAY_GEN_MAX, store.arrays)
    ensures ReplayC.AuthRequest(Replay.REPLAY_GEN_MAX, store, key, env.outOfMemory, env.now, env.saves).1 ==>
              !Replay.Remembered(ReplayC.Sets(store.arrays), key)
  {
    ReplayC.InsertRefines(Replay.REPLAY_GEN_MAX, store.arrays, key);
    hide ReplayC.ValidArrays, ReplayC.InsertArrays, ReplayC.PersistIfDue;
  }

  /** Once both servers have found the same record, the C server answers as the Rust server would if nothing is zero. */
  lemma FoundAnswersIff(S: Suite, lib: Sodium, roles: seq<u64>, sk: Scalar, arr: seq<RegistryC.Entry>, rec: Registries.DeviceRecord,
                        r: Request, sr: ServerRandomness)
    requires S.Valid() && ReadsScalars(S, lib) && S.Mul(BASE, sr.ephSecret) != IDENTITY
    requires WellFormedRequest(S, |roles|, r) && NoIdentities(r) && ProperRecord(S, rec)
    requires var e := FindEntry(S, S.Mul(BASE, sk), arr, AsRequestC(S, |roles|, r));
             e.Some? && StoredRecord(S, e.value) == Some(rec)
    ensures var k := ServerKcState(S, sk, r, sr);
            var sessionKey := SessionKey(S, SharedPoint(S, sr.ephSecret, r.n.ephC), r.n, sr.nonceS, k.ephS);
            CheckAndAnswerC(S, lib, roles, sk, arr, AsRequestC(S, |roles|, r), sr)
            == if CheckProofs(S, roles, rec, r).Ok? && ZeroFree(S, roles, rec, r)
               then Some(Answer(Flatten(AnswerChunks(S, k, TagS(S, sessionKey, k))), sessionKey, TagC(S, sessionKey, k)))
               else None
  {
    hide Mod, Prime, CheckProofs, VerifyAuthC, RoleProofsVerifyC, ZeroFree, Flatten, SessionKey, TagS, TagC, ServerKcState, SharedPoint, FindEntry, StoredRecord, ProperRecord, ReadsScalars, AnswerC, AsRequestC;
    ProofChecksDiffer(S, lib, roles, rec, r);
    AnswersAreEqual(S, |roles|, sk, r, sr);
    RoleKept(S, |roles|, r);
  }

  lemma FreshAnswersIff(S: Suite, lib: Sodium, roles: seq<u64>, sk: Scalar, v: ServerView, arr: seq<RegistryC.Entry>,
                        r: Request, sr: ServerRandomness)
    requires S.Valid() && ReadsScalars(S, lib) && S.Mul(BASE, sr.ephSecret) != IDENTITY
    requires WellFormedRequest(S, |roles|, r) && NoIdentities(r) && SameRegistry(S, S.Mul(BASE, sk), v, arr, r.n)
    ensures var found, rust := FindRecord(S, S.Mul(BASE, sk), v, r), ServerAnswer(S, roles, sk, v, r, sr);
            !Replay.Remembered(v.cache, r.n.pid + r.n.nonceC) ==>
              CheckAndAnswerC(S, lib, roles, sk, arr, AsRequestC(S, |roles|, r), sr)
              == if rust.Ok? && ZeroFree(S, roles, found.value, r) then Some(rust.value) else None
  {
    hide Mod, Prime, CheckProofs, VerifyAuthC, RoleProofsVerifyC, ZeroFree, Flatten, SessionKey, TagS, TagC, ServerKcState, SharedPoint, FindRecord, FindEntry, StoredRecord, ProperRecord, SameRegistry, ReadsScalars, AnswerC, AsRequestC;
    var found := FindRecord(S, S.Mul(BASE, sk), v, r);
    LookupsAgree(S, S.Mul(BASE, sk), v, arr, |roles|, r);
    if found.Ok? {
      FoundAnswersIff(S, lib, roles, sk, arr, found.value, r, sr);
    }
  }

  lemma RoleKept(S: Suite, nRoles: nat, r: Request)
    requires WellFormedRequest(S, nRoles, r)
    ensures var c := AsRequestC(S, nRoles, r); c.n == r.n && (c.role.Some? <==> r.role.Some?)
  {
  }

  // An honest device.

  function OwnEntry(S: Suite, d: Device, id: Bytes32): RegistryC.Entry
    requires S.q > 0
  {
    RegistryC.EntryOf(S, id, Registries.DeviceRecord(DevicePub(S, d), DeviceCommitment(S, d)))
  }

  /** The C server has enrolled the device, and no other record has its handle or its pseudonym of this session. */
  predicate EnrolledC(S: Suite, d: Device, id: Bytes32, serverPub: Point, n: Session, arr: seq<RegistryC.Entry>)
    requires S.q > 0
  {
    && OwnEntry(S, d, id) in arr
    && forall e <- arr ::
         || RegistryC.Hits(S, RegistryC.ByHandle(DeviceHandle(S, DevicePub(S, d))), e)
         || RegistryC.Hits(S, RegistryC.ByPid(PidContextOf(n, serverPub), n.pid), e)
         ==> e == OwnEntry(S, d, id)
  }

  lemma FindsOwnEntry(S: Suite, roles: seq<u64>, d: Device, mode: Mode, sk: Scalar, cr: ClientRandomness, id: Bytes32, arr: seq<RegistryC.Entry>)
    requires S.Valid() && GoodClientRandomness(S, roles, d, mode, cr)
    requires EnrolledC(S, d, id, S.Mul(BASE, sk), ClientSession(S, d, S.Mul(BASE, sk), cr), arr)
    ensures var r := ClientRequest(S, roles, d, mode, S.Mul(BASE, sk), cr);
            && WellFormedRequest(S, |roles|, r)
            && FindEntry(S, S.Mul(BASE, sk), arr, AsRequestC(S, |roles|, r)) == Some(OwnEntry(S, d, id))
            && StoredRecord(S, OwnEntry(S, d, id)) == Some(Registries.DeviceRecord(DevicePub(S, d), DeviceCommitment(S, d)))
  {
    hide Mod, Prime, ClientRolePart, ProveAuth, MakeRoleCommitment, HandleFromBytes, PidFromBytes, RegistryC.FirstMatch, RawProof, LeBytes, StoredRecord;
    var serverPub := S.Mul(BASE, sk);
    var r := ClientRequest(S, roles, d, mode, serverPub, cr);
    ClientRequestWellFormed(S, roles, d, mode, serverPub, cr);
    var byHandle, byPid := RegistryC.ByHandle(DeviceHandle(S, DevicePub(S, d))), RegistryC.ByPid(PidContextOf(r.n, serverPub), r.n.pid);
    RegistryC.FirstMatchIsMatch(S, byHandle, arr);
    RegistryC.FirstMatchIsMatch(S, byPid, arr);
    StoredRecordReads(S, id, Registries.DeviceRecord(DevicePub(S, d), DeviceCommitment(S, d)));
  }

  /**
   An honest Rust device at a C server that enrolled it, from the bytes it sends: the server
   answers if and only if its replay stage passes and the message is free of zeros, and the device
   then accepts the answer with equal keys and matching tags.
   */
  lemma RustDeviceAtCServer(S: Suite, lib: Sodium, roles: seq<u64>, d: Device, mode: Mode, sk: Scalar, cr: ClientRandomness,
                            sr: ServerRandomness, id: Bytes32, store: ReplayC.Store, arr: seq<RegistryC.Entry>, env: Env)
    requires S.Valid() && ReadsScalars(S, lib) && GoodClientRandomness(S, roles, d, mode, cr) && S.In(sr.r)
    requires !env.benchMode && (mode.deviceOnly ==> env.allowDeviceOnly)
    requires var serverPub := S.Mul(BASE, sk);
             var r := ClientRequest(S, roles, d, mode, serverPub, cr);
             var k := ServerKcState(S, sk, r, sr);
             && DevicePub(S, d) != IDENTITY && NoIdentities(r) && k.serverPub != IDENTITY && k.aS != IDENTITY && k.ephS != IDENTITY
             && EnrolledC(S, d, id, serverPub, r.n, arr)
    ensures var serverPub := S.Mul(BASE, sk);
            var r := ClientRequest(S, roles, d, mode, serverPub, cr);
            && WellFormedRequest(S, |roles|, r)
            && var replay := ReplayC.AuthRequest(Replay.REPLAY_GEN_MAX, store, r.n.pid + r.n.nonceC, env.outOfMemory, env.now, env.saves);
               var (after, a) := ServeAuth(S, lib, roles, sk, store, arr, WireBytes(S, |roles|, r), sr, env);
               && after == replay.0
               && (a.Some? <==> replay.1 && ZeroFree(S, roles, Registries.DeviceRecord(DevicePub(S, d), DeviceCommitment(S, d)), r))
               && (a.Some? ==>
                     && |a.value.payload2| == 192
                     && var f := ClientFinish(S, serverPub, cr.ephSecret, r, a.value.payload2);
                        f.Ok? && f.value.tagC == a.value.expectedTagC && f.value.sessionKey == a.value.sessionKey)
  {
    hide Mod, Prime, ClientRolePart, ProveAuth, ServerKcState, CheckProofs, ClientFinish, SessionKey, TagS, TagC, Flatten, ReadEnvelope, ParseBody, DecodeC, WireBytes, FindEntry, EnrolledC, OwnEntry, DeviceHandle, ComputePid, ReplayC.AuthRequest, CheckAndAnswerC, ZeroFree, MakeRoleCommitment, ReadsScalars, AsRequestC, WellFormedRequest, NoIdentities, StoredRecord;
    var serverPub := S.Mul(BASE, sk);
    var r := ClientRequest(S, roles, d, mode, serverPub, cr);
    var rec := Registries.DeviceRecord(DevicePub(S, d), DeviceCommitment(S, d));
    ClientRequestWellFormed(S, roles, d, mode, serverPub, cr);
    NoIdentitiesProper(r);
    WireParses(S, |roles|, env.allowDeviceOnly, r);
    DecodersAgree(S, |roles|, ReadEnvelope(|roles|, env.allowDeviceOnly, WireBytes(S, |roles|, r)).value);
    AsRequestKeeps(S, |roles|, r);
    FindsOwnEntry(S, roles, d, mode, sk, cr, id, arr);
    HonestProofsVerify(S, roles, d, mode, serverPub, cr);
    ServerEphemeral(S, sk, r, sr);
    FoundAnswersIff(S, lib, roles, sk, arr, rec, r, sr);
    AnswerConfirms(S, sk, cr.ephSecret, r, sr);
  }

  /** Without re-randomization the commitments coincide, so the message has a zero difference in it. */
  lemma ZeroDeltaIsNotZeroFree(S: Suite, roles: seq<u64>, d: Device, mode: Mode, serverPub: Point, cr: ClientRandomness)
    requires S.q > 0 && GoodClientRandomness(S, roles, d, mode, cr) && !mode.deviceOnly && cr.delta == 0
    ensures !ZeroFree(S, roles, Registries.DeviceRecord(DevicePub(S, d), DeviceCommitment(S, d)),
                      ClientRequest(S, roles, d, mode, serverPub, cr))
  {
    hide Mod, AuthChallenge, RerandChallenge, ProveAuth, ProveRoleRerandomization, OrProof, MakeRoleCommitment, ComputePid, DeviceHandle, Target;
    var commitment := DeviceCommitment(S, d);
    assert S.h * 0 == 0;
    Canonical(S.q, 0);
    Canonical(S.q, commitment);
    assert RerandomizedCommitment(S, commitment, 0) == commitment;
  }

  /**
   Where the two servers part: an honest run whose re-randomization scalar is zero is answered by
   the Rust server and refused by the C server. Such a run exists.
   */
  lemma ZeroDeltaDivides(S: Suite, lib: Sodium, roles: seq<u64>, d: Device, mode: Mode, sk: Scalar, cr: ClientRandomness,
                         sr: ServerRandomness, id: Bytes32, v: ServerView, store: ReplayC.Store, arr: seq<RegistryC.Entry>, env: Env)
    requires HonestRun(S, lib, roles, d, mode, sk, cr, sr, id, v, arr, env) && !mode.deviceOnly && cr.delta == 0
    ensures var r := ClientRequest(S, roles, d, mode, S.Mul(BASE, sk), cr);
            && WellFormedRequest(S, |roles|, r)
            && ServerAnswer(S, roles, sk, v, r, sr).Ok?
            && ServeAuth(S, lib, roles, sk, store, arr, WireBytes(S, |roles|, r), sr, env).1 == None
  {
    hide Mod, Prime, ClientRolePart, ProveAuth, ServerKcState, ServerAnswer, ServeAuth, Enrolled, EnrolledC, NoIdentities, WireBytes, ReadsScalars, ZeroFree, ReplayC.AuthRequest, ClientFinish, WellFormedRequest;
    ZeroDeltaIsNotZeroFree(S, roles, d, mode, S.Mul(BASE, sk), cr);
    HandshakeCompletes(S, roles, d, mode, sk, cr, sr, id, v);
    RustDeviceAtCServer(S, lib, roles, d, mode, sk, cr, sr, id, store, arr, env);
  }

  /** No point of the run that one side sends and the other rejects is the identity. */
  predicate ProperRun(S: Suite, d: Device, sk: Scalar, r: Request, sr: ServerRandomness)
    requires S.q > 0
  {
    var k := ServerKcState(S, sk, r, sr);
    DevicePub(S, d) != IDENTITY && NoIdentities(r) && k.serverPub != IDENTITY && k.aS != IDENTITY && k.ephS != IDENTITY
  }

  ghost predicate EnrolledAtBoth(S: Suite, d: Device, id: Bytes32, serverPub: Point, n: Session, v: ServerView, arr: seq<RegistryC.Entry>)
    requires S.q > 0
  {
    Enrolled(S, d, id, serverPub, n, v) && EnrolledC(S, d, id, serverPub, n, arr) && !Replay.Remembered(v.cache, n.pid + n.nonceC)
  }

  /** An honest run of a device that both servers have enrolled and whose key the Rust cache does not remember. */
  ghost predicate HonestRun(S: Suite, lib: Sodium, roles: seq<u64>, d: Device, mode: Mode, sk: Scalar, cr: ClientRandomness,
                            sr: ServerRandomness, id: Bytes32, v: ServerView, arr: seq<RegistryC.Entry>, env: Env)
  {
    && S.Valid() && ReadsScalars(S, lib) && GoodClientRandomness(S, roles, d, mode, cr) && S.In(sr.r)
    && !env.benchMode && (mode.deviceOnly ==> env.allowDeviceOnly)
    && ProperRun(S, d, sk, ClientRequest(S, roles, d, mode, S.Mul(BASE, sk), cr), sr)
    && EnrolledAtBoth(S, d, id, S.Mul(BASE, sk), ClientSession(S, d, S.Mul(BASE, sk), cr), v, arr)
  }

  lemma NoIdentitiesProper(r: Request)
    requires NoIdentities(r)
    ensures PointsProper(r)
  {
  }

  lemma ServerEphemeral(S: Suite, sk: Scalar, r: Request, sr: ServerRandomness)
    requires S.q > 0
    ensures ServerKcState(S, sk, r, sr).ephS == S.Mul(BASE, sr.ephSecret)
  {
    hide Mod;
  }

  /** Both clients prove membership at the same index when no role is listed twice. */
  lemma ProversAgree(roles: seq<u64>, code: u64)
    requires code in roles && forall i, j :: 0 <= i < j < |roles| ==> roles[i] != roles[j]
    ensures Position(roles, code) == LastPosition(roles, code)
  {
  }
}
