/**
 The device registry: the Rust map with its constant-time handle index and the scan it
 replaces, the C array, and the file both are kept in.
 */
module Registries {
  import opened Bytes
  import opened PrimeField
  import opened Suites
  import opened Sigma
  import opened ProofBindings

  datatype DeviceRecord = DeviceRecord(pubkey: Point, roleCommitment: Point)

  type Registry = map<Bytes32, DeviceRecord>
  type HandleIndex = map<Bytes16, (Bytes32, DeviceRecord)>

  datatype State = State(reg: Registry, index: HandleIndex)

  /** Registered points are decoded points. */
  predicate ValidRegistry(S: Suite, reg: Registry) {
    forall id <- reg :: S.In(reg[id].pubkey) && S.In(reg[id].roleCommitment)
  }

  /** Every entry of the index is a current registration filed under its own handle, and every registration can be found. */
  ghost predicate IndexAgrees(S: Suite, st: State) {
    && (forall h <- st.index :: st.index[h].0 in st.reg && st.reg[st.index[h].0] == st.index[h].1
                                && DeviceHandle(S, st.index[h].1.pubkey) == h)
    && (forall id <- st.reg :: DeviceHandle(S, st.reg[id].pubkey) in st.index)
  }

  method BuildHandleIndex(S: Suite, reg: Registry) returns (index: HandleIndex)
    ensures IndexAgrees(S, State(reg, index))
  {
    index := map[];
    var rest := reg.Keys;
    while rest != {}
      invariant rest <= reg.Keys
      invariant forall h <- index :: index[h].0 in reg && reg[index[h].0] == index[h].1 && DeviceHandle(S, index[h].1.pubkey) == h
      invariant forall id <- reg.Keys - rest :: DeviceHandle(S, reg[id].pubkey) in index
      decreases rest
    {
      var id :| id in rest;
      index := index[DeviceHandle(S, reg[id].pubkey) := (id, reg[id])];
      rest := rest - {id};
    }
  }

  // Enrollment.

  /** The test made under the read lock: a known id must present the key it has. */
  predicate SetupCheck(S: Suite, reg: Registry, id: Bytes32, rec: DeviceRecord) {
    id in reg ==> S.compress(reg[id].pubkey) == S.compress(rec.pubkey)
  }

  /** What is done under the write lock. */
  function SetupWrite(S: Suite, st: State, id: Bytes32, rec: DeviceRecord): State {
    State(st.reg[id := rec], st.index[DeviceHandle(S, rec.pubkey) := (id, rec)])
  }

  function SetupStep(S: Suite, st: State, id: Bytes32, rec: DeviceRecord): State {
    if SetupCheck(S, st.reg, id, rec) then SetupWrite(S, st, id, rec) else st
  }

  /** One enrollment: what the device claims, both sides' nonces and challenge, and the device's proof. */
  datatype SetupRun = SetupRun(id: Bytes32, rec: DeviceRecord, clientNonce: Bytes32, serverNonce: Bytes32, challenge: Bytes16,
                               a: Point, s: Scalar)

  predicate ProofHolds(S: Suite, serverPub: Point, m: SetupRun)
    requires S.q > 0
  {
    VerifySetup(S, m.rec.pubkey, m.id, serverPub, m.clientNonce, m.serverNonce, m.challenge, m.a, m.s)
  }

  /** The server's own proof, sent before the device's is read. */
  function SetupReply(S: Suite, sk: Scalar, m: SetupRun, r: Scalar): (Point, Scalar)
    requires S.q > 0
  {
    ProveSetup(S, T_SETUP_SERVER, "server", sk, m.id, m.rec.pubkey, S.Mul(BASE, sk), m.clientNonce, m.serverNonce, m.challenge, r)
  }

  datatype SetupError = DeviceIdCollision | ProofInvalid | SaveFailed

  class Enrollment {
    var reg: Registry
    var handleIndex: HandleIndex

    ghost function View(): State
      reads this
    {
      State(reg, handleIndex)
    }

    constructor (S: Suite, loaded: Registry)
      ensures reg == loaded && IndexAgrees(S, View())
    {
      reg := loaded;
      handleIndex := map[];
      new;
      var built := BuildHandleIndex(S, loaded);
      handleIndex := built;
    }

    /** One enrollment taken as one step; a failed save still leaves both maps updated. */
    method HandleSetup(S: Suite, sk: Scalar, m: SetupRun, rnd: Scalar, saves: bool)
      returns (reply: Option<(Point, Scalar)>, r: Result<bool, SetupError>)
      requires S.q > 0
      modifies this
      ensures reply == if SetupCheck(S, old(reg), m.id, m.rec) then Some(SetupReply(S, sk, m, rnd)) else None
      ensures r == if !SetupCheck(S, old(reg), m.id, m.rec) then Err(DeviceIdCollision)
                   else if !ProofHolds(S, S.Mul(BASE, sk), m) then Err(ProofInvalid)
                   else if !saves then Err(SaveFailed)
                   else Ok(m.id !in old(reg))
      ensures View() == if ProofHolds(S, S.Mul(BASE, sk), m) then SetupStep(S, old(View()), m.id, m.rec) else old(View())
    {
      hide Mod, VerifySetup, ProveSetup;
      if m.id in reg {
        var existing := reg[m.id];
        if S.compress(existing.pubkey) != S.compress(m.rec.pubkey) {
          return None, Err(DeviceIdCollision);
        }
      }
      reply := Some(SetupReply(S, sk, m, rnd));
      if !ProofHolds(S, S.Mul(BASE, sk), m) {
        return reply, Err(ProofInvalid);
      }
      var existed := m.id in reg;
      reg := reg[m.id := m.rec];
      handleIndex := handleIndex[DeviceHandle(S, m.rec.pubkey) := (m.id, m.rec)];
      if !saves {
        return reply, Err(SaveFailed);
      }
      return reply, Ok(!existed);
    }
  }

  /** An honest enrollment: the server accepts the device's proof, the device the server's reply, and the record can be looked up. */
  lemma HonestSetupEnrolls(S: Suite, x: Scalar, sk: Scalar, st: State, m: SetupRun, r: Scalar, r': Scalar)
    requires S.In(r) && S.In(r') && m.rec.pubkey == S.Mul(BASE, x) && SetupCheck(S, st.reg, m.id, m.rec)
    requires (m.a, m.s) == ProveSetup(S, T_SETUP, "client", x, m.id, m.rec.pubkey, S.Mul(BASE, sk),
                                      m.clientNonce, m.serverNonce, m.challenge, r)
    ensures ProofHolds(S, S.Mul(BASE, sk), m)
    ensures var (a', s') := SetupReply(S, sk, m, r');
            VerifySetupServer(S, S.Mul(BASE, sk), m.id, m.rec.pubkey, m.clientNonce, m.serverNonce, m.challenge, a', s')
    ensures var st' := SetupStep(S, st, m.id, m.rec);
            m.id in st'.reg && st'.reg[m.id] == m.rec
            && DeviceHandle(S, m.rec.pubkey) in st'.index && st'.index[DeviceHandle(S, m.rec.pubkey)] == (m.id, m.rec)
  {
    hide Mod, ProveSetup, VerifySetup, VerifySetupServer;
    SetupProofsVerify(S, x, sk, m.id, m.clientNonce, m.serverNonce, m.challenge, r, r');
  }

  function SessionOf(m: SetupRun, serverPub: Point): SetupSession {
    SetupSession(m.id, m.rec.pubkey, serverPub, m.clientNonce, m.serverNonce, m.challenge)
  }

  /** Enrolling takes the secret: two accepted enrollments that differ only in hash and response compute it. */
  lemma EnrollingTakesTheSecret(S: Suite, S': Suite, serverPub: Point, m: SetupRun, s': Scalar)
    requires Prime(S.q) && S' == S.(sha512 := S'.sha512) && S.In(m.rec.pubkey)
    requires ProofHolds(S, serverPub, m) && ProofHolds(S', serverPub, m.(s := s'))
    requires SetupChallenge(S, T_SETUP, "client", SessionOf(m, serverPub), m.a) != SetupChallenge(S', T_SETUP, "client", SessionOf(m, serverPub), m.a)
    ensures var n := SessionOf(m, serverPub);
            var c, c' := SetupChallenge(S, T_SETUP, "client", n, m.a), SetupChallenge(S', T_SETUP, "client", n, m.a);
            Mod(S.q, c - c') != 0 && m.rec.pubkey == S.Mul(BASE, ExtractWitness(S, c, m.s, c', s'))
  {
    hide Mod, Prime, SetupChallenge;
    SetupExtraction(S, S', SessionOf(m, serverPub), m.a, m.s, s');
  }

  /** The entry of the index that a write for `id` would leave behind pointing at an old record. */
  predicate WriteStrandsEntry(S: Suite, st: State, id: Bytes32, rec: DeviceRecord) {
    && id in st.reg
    && var h := DeviceHandle(S, st.reg[id].pubkey);
       h != DeviceHandle(S, rec.pubkey) && h in st.index && st.index[h].0 == id
  }

  /** The write alone, whatever was checked before it, keeps the index in agreement exactly when it strands no entry. */
  lemma WriteKeepsIndexIff(S: Suite, st: State, id: Bytes32, rec: DeviceRecord)
    requires IndexAgrees(S, st)
    ensures IndexAgrees(S, SetupWrite(S, st, id, rec)) <==> !WriteStrandsEntry(S, st, id, rec)
  {
    var st' := SetupWrite(S, st, id, rec);
    if WriteStrandsEntry(S, st, id, rec) {
      var h := DeviceHandle(S, st.reg[id].pubkey);
      assert h in st'.index && st'.index[h] == st.index[h];
    }
  }

  /** Check and write are under different locks: two enrollments of one new id that both check first leave the index stale. */
  lemma InterleavedSetupsStrandEntry(S: Suite, id: Bytes32, rec: DeviceRecord, rec': DeviceRecord)
    requires DeviceHandle(S, rec.pubkey) != DeviceHandle(S, rec'.pubkey)
    ensures var st := State(map[], map[]);
            && IndexAgrees(S, st) && SetupCheck(S, st.reg, id, rec) && SetupCheck(S, st.reg, id, rec')
            && !IndexAgrees(S, SetupWrite(S, SetupWrite(S, st, id, rec), id, rec'))
  {
    var st := State(map[], map[]);
    WriteKeepsIndexIff(S, st, id, rec);
    WriteKeepsIndexIff(S, SetupWrite(S, st, id, rec), id, rec');
  }

  function RunSetups(S: Suite, st: State, setups: seq<(Bytes32, DeviceRecord)>): State
    decreases |setups|
  {
    if setups == [] then st else RunSetups(S, SetupStep(S, st, setups[0].0, setups[0].1), setups[1..])
  }

  /** Over any run of enrollments, each one step, the index agrees with the registry. */
  lemma {:induction false} IndexAgreesOverRuns(S: Suite, st: State, setups: seq<(Bytes32, DeviceRecord)>)
    requires S.Valid() && ValidRegistry(S, st.reg) && IndexAgrees(S, st)
    requires forall e <- setups :: S.In(e.1.pubkey) && S.In(e.1.roleCommitment)
    ensures ValidRegistry(S, RunSetups(S, st, setups).reg) && IndexAgrees(S, RunSetups(S, st, setups))
    decreases |setups|
  {
    if setups != [] {
      var (id, rec) := setups[0];
      assert setups[0] in setups;
      if SetupCheck(S, st.reg, id, rec) {
        if id in st.reg {
          EncodingsInjective(S, st.reg[id].pubkey, rec.pubkey);
        }
        WriteKeepsIndexIff(S, st, id, rec);
      }
      IndexAgreesOverRuns(S, SetupStep(S, st, id, rec), setups[1..]);
    }
  }

  // Lookups.

  /** One session's public values, from which any key's pseudonym follows. */
  datatype PidContext = PidContext(nonceC: Bytes32, ephC: Point, serverPub: Point)

  function PidOf(S: Suite, c: PidContext, pubkey: Point): Bytes32 {
    ComputePid(S, pubkey, c.nonceC, c.ephC, c.serverPub)
  }

  /** What the scan may return, in any iteration order. */
  predicate IsScanResult(S: Suite, c: PidContext, reg: Registry, pid: Bytes32, r: Option<(Bytes32, DeviceRecord)>) {
    match r
    case None => forall id <- reg :: PidOf(S, c, reg[id].pubkey) != pid
    case Some((id, rec)) => id in reg && reg[id] == rec && PidOf(S, c, rec.pubkey) == pid
  }

  method LookupRecordByPid(S: Suite, c: PidContext, reg: Registry, pid: Bytes32) returns (r: Option<(Bytes32, DeviceRecord)>)
    ensures IsScanResult(S, c, reg, pid, r)
  {
    var rest := reg.Keys;
    while rest != {}
      invariant rest <= reg.Keys
      invariant forall id <- reg.Keys - rest :: PidOf(S, c, reg[id].pubkey) != pid
      decreases rest
    {
      var id :| id in rest;
      if PidOf(S, c, reg[id].pubkey) == pid {
        return Some((id, reg[id]));
      }
      rest := rest - {id};
    }
    return None;
  }

  datatype LookupError = UnknownHandle | HandlePidMismatch | UnknownPid

  function LookupByHandle(S: Suite, c: PidContext, index: HandleIndex, handle: Bytes16, pid: Bytes32): Result<(Bytes32, DeviceRecord), LookupError> {
    if handle !in index then Err(UnknownHandle)
    else if PidOf(S, c, index[handle].1.pubkey) != pid then Err(HandlePidMismatch)
    else Ok(index[handle])
  }

  /** Registered keys differ, and neither their handles nor their pseudonyms of this session collide. */
  predicate CollisionFree(S: Suite, c: PidContext, reg: Registry) {
    forall i, j :: i in reg && j in reg && i != j ==>
      && reg[i].pubkey != reg[j].pubkey
      && DeviceHandle(S, reg[i].pubkey) != DeviceHandle(S, reg[j].pubkey)
      && PidOf(S, c, reg[i].pubkey) != PidOf(S, c, reg[j].pubkey)
  }

  /** For an enrolled device's own handle and pseudonym the index answers, and with the record every scan finds. */
  lemma HandleLookupAgreesWithScan(S: Suite, c: PidContext, st: State, id: Bytes32, r: Option<(Bytes32, DeviceRecord)>)
    requires IndexAgrees(S, st) && CollisionFree(S, c, st.reg) && id in st.reg
    requires IsScanResult(S, c, st.reg, PidOf(S, c, st.reg[id].pubkey), r)
    ensures r == Some((id, st.reg[id]))
    ensures LookupByHandle(S, c, st.index, DeviceHandle(S, st.reg[id].pubkey), PidOf(S, c, st.reg[id].pubkey)) == Ok(r.value)
  {
    var rec := st.reg[id];
    var h := DeviceHandle(S, rec.pubkey);
    assert h in st.index;
    var (id', rec') := st.index[h];
    assert id' == id;
  }

  /** What the index accepts, a scan could have accepted too. */
  lemma HandleLookupIsSound(S: Suite, c: PidContext, st: State, handle: Bytes16, pid: Bytes32)
    requires IndexAgrees(S, st)
    ensures var r := LookupByHandle(S, c, st.index, handle, pid);
            r.Ok? ==> IsScanResult(S, c, st.reg, pid, Some(r.value)) && DeviceHandle(S, r.value.1.pubkey) == handle
  {
  }

  // The registry file: 96 bytes per record.

  datatype RegistryError = CorruptLength | PubkeyInvalid | CommitmentInvalid

  function RecordBytes(S: Suite, id: Bytes32, rec: DeviceRecord): (s: seq<byte>)
    ensures |s| == 96
  {
    id + S.compress(rec.pubkey) + S.compress(rec.roleCommitment)
  }

  function SaveImage(S: Suite, reg: Registry, ids: seq<Bytes32>): (s: seq<byte>)
    requires forall id <- ids :: id in reg
    ensures |s| == 96 * |ids|
  {
    if ids == [] then []
    else
      var last := ids[|ids| - 1];
      assert last in ids;
      SaveImage(S, reg, ids[..|ids| - 1]) + RecordBytes(S, last, reg[last])
  }

  /** One chunk of the file added to the records before it; records with an identity point are skipped. */
  function AddChunk(S: Suite, reg: Registry, chunk: seq<byte>): Result<Registry, RegistryError>
    requires |chunk| == 96
  {
    match S.decompress(chunk[32..64])
    case None => Err(PubkeyInvalid)
    case Some(pubkey) =>
      match S.decompress(chunk[64..96])
      case None => Err(CommitmentInvalid)
      case Some(roleCommitment) =>
        if pubkey == IDENTITY || roleCommitment == IDENTITY then Ok(reg)
        else Ok(reg[chunk[0..32] := DeviceRecord(pubkey, roleCommitment)])
  }

  /** The first `n` records of the file, the first bad one stopping the load. */
  function LoadChunks(S: Suite, data: seq<byte>, n: nat): Result<Registry, RegistryError>
    requires 96 * n <= |data|
  {
    if n == 0 then Ok(map[])
    else
      match LoadChunks(S, data, n - 1)
      case Err(e) => Err(e)
      case Ok(reg) => AddChunk(S, reg, data[96 * (n - 1)..96 * n])
  }

  /** A missing file reads as an empty one. */
  function LoadImage(S: Suite, data: seq<byte>): Result<Registry, RegistryError> {
    if |data| % 96 != 0 then Err(CorruptLength) else LoadChunks(S, data, |data| / 96)
  }

  method LoadRegistry(S: Suite, data: seq<byte>) returns (r: Result<Registry, RegistryError>)
    ensures r == LoadImage(S, data)
  {
    if |data| == 0 {
      return Ok(map[]);
    }
    if |data| % 96 != 0 {
      return Err(CorruptLength);
    }
    var reg: Registry := map[];
    var count := |data| / 96;
    for i := 0 to count
      invariant LoadChunks(S, data, i) == Ok(reg)
    {
      var next := AddChunk(S, reg, data[96 * i..96 * (i + 1)]);
      if next.Err? {
        LoadStopsAtError(S, data, i + 1, count);
        return Err(next.error);
      }
      reg := next.value;
    }
    return Ok(reg);
  }

  lemma {:induction false} LoadStopsAtError(S: Suite, data: seq<byte>, i: nat, n: nat)
    requires i <= n && 96 * n <= |data| && LoadChunks(S, data, i).Err?
    ensures LoadChunks(S, data, n) == LoadChunks(S, data, i)
    decreases n
  {
    if i < n {
      LoadStopsAtError(S, data, i, n - 1);
    }
  }

  lemma {:induction false} LoadIgnoresTail(S: Suite, data: seq<byte>, tail: seq<byte>, n: nat)
    requires 96 * n <= |data|
    ensures LoadChunks(S, data + tail, n) == LoadChunks(S, data, n)
  {
    hide AddChunk;
    if n > 0 {
      LoadIgnoresTail(S, data, tail, n - 1);
      assert (data + tail)[96 * (n - 1)..96 * n] == data[96 * (n - 1)..96 * n];
    }
  }

  // What a file means: 96 bytes per record, an id and two encoded points.

  function IdAt(data: seq<byte>, i: nat): Bytes32
    requires 96 * (i + 1) <= |data|
  {
    data[96 * i..96 * i + 32]
  }

  function PubkeyAt(S: Suite, data: seq<byte>, i: nat): Option<Point>
    requires 96 * (i + 1) <= |data|
  {
    S.decompress(data[96 * i + 32..96 * i + 64])
  }

  function CommitmentAt(S: Suite, data: seq<byte>, i: nat): Option<Point>
    requires 96 * (i + 1) <= |data|
  {
    S.decompress(data[96 * i + 64..96 * i + 96])
  }

  predicate ReadableAt(S: Suite, data: seq<byte>, i: nat)
    requires 96 * (i + 1) <= |data|
  {
    PubkeyAt(S, data, i).Some? && CommitmentAt(S, data, i).Some?
  }

  /** Record `i` is one the loader keeps. */
  predicate ProperAt(S: Suite, data: seq<byte>, i: nat)
    requires 96 * (i + 1) <= |data|
  {
    && ReadableAt(S, data, i)
    && PubkeyAt(S, data, i) != Some(IDENTITY) && CommitmentAt(S, data, i) != Some(IDENTITY)
  }

  lemma ChunkReads(S: Suite, reg: Registry, data: seq<byte>, i: nat)
    requires 96 * (i + 1) <= |data|
    ensures AddChunk(S, reg, data[96 * i..96 * (i + 1)])
            == if PubkeyAt(S, data, i).None? then Err(PubkeyInvalid)
               else if CommitmentAt(S, data, i).None? then Err(CommitmentInvalid)
               else if ProperAt(S, data, i) then Ok(reg[IdAt(data, i) := DeviceRecord(PubkeyAt(S, data, i).value, CommitmentAt(S, data, i).value)])
               else Ok(reg)
  {
    var off := 96 * i;
    SubSlice(data, off, 0);
    SubSlice(data, off, 32);
    SubSlice(data, off, 64);
    var chunk := data[off..off + 96];
    assert data[96 * i..96 * (i + 1)] == chunk;
    assert chunk[0..32] == IdAt(data, i) && S.decompress(chunk[32..64]) == PubkeyAt(S, data, i);
    assert S.decompress(chunk[64..96]) == CommitmentAt(S, data, i);
  }

  lemma SubSlice(data: seq<byte>, off: nat, j: nat)
    requires off + 96 <= |data| && j + 32 <= 96
    ensures data[off..off + 96][j..j + 32] == data[off + j..off + j + 32]
  {
    var chunk := data[off..off + 96];
    var a, b := chunk[j..j + 32], data[off + j..off + j + 32];
    forall k | 0 <= k < 32 ensures a[k] == b[k] {
      assert a[k] == chunk[j + k];
    }
  }

  /** A registry holds a file's first `n` records: the ids of the proper ones, each with its last proper record. */
  predicate HoldsRecords(S: Suite, data: seq<byte>, n: nat, reg: Registry)
    requires 96 * n <= |data|
  {
    && (forall id <- reg :: exists i :: 0 <= i < n && ProperAt(S, data, i) && IdAt(data, i) == id)
    && (forall i :: 0 <= i < n && ProperAt(S, data, i) ==> IdAt(data, i) in reg)
    && (forall i :: 0 <= i < n && ProperAt(S, data, i)
                    && (forall j :: i < j < n && ProperAt(S, data, j) ==> IdAt(data, j) != IdAt(data, i)) ==>
          reg[IdAt(data, i)] == DeviceRecord(PubkeyAt(S, data, i).value, CommitmentAt(S, data, i).value))
  }

  lemma OneMoreRecord(S: Suite, data: seq<byte>, n: nat, reg: Registry)
    requires 96 * (n + 1) <= |data| && HoldsRecords(S, data, n, reg) && ReadableAt(S, data, n)
    ensures var r := AddChunk(S, reg, data[96 * n..96 * (n + 1)]);
            r.Ok? && HoldsRecords(S, data, n + 1, r.value)
  {
    ChunkReads(S, reg, data, n);
    hide AddChunk, IdAt, PubkeyAt, CommitmentAt;
    var reg' := AddChunk(S, reg, data[96 * n..96 * (n + 1)]).value;
    forall id <- reg' ensures exists i :: 0 <= i < n + 1 && ProperAt(S, data, i) && IdAt(data, i) == id {
      if id in reg {
        var i :| 0 <= i < n && ProperAt(S, data, i) && IdAt(data, i) == id;
      } else {
        assert ProperAt(S, data, n) && IdAt(data, n) == id;
      }
    }
    forall i | 0 <= i < n + 1 && ProperAt(S, data, i)
               && (forall j :: i < j < n + 1 && ProperAt(S, data, j) ==> IdAt(data, j) != IdAt(data, i))
      ensures IdAt(data, i) in reg' && reg'[IdAt(data, i)] == DeviceRecord(PubkeyAt(S, data, i).value, CommitmentAt(S, data, i).value)
    {
    }
  }

  lemma {:induction false} ReadableRecordsLoad(S: Suite, data: seq<byte>, n: nat)
    requires 96 * n <= |data| && forall i :: 0 <= i < n ==> ReadableAt(S, data, i)
    ensures LoadChunks(S, data, n).Ok? && HoldsRecords(S, data, n, LoadChunks(S, data, n).value)
  {
    if n > 0 {
      hide AddChunk, ReadableAt, HoldsRecords;
      ReadableRecordsLoad(S, data, n - 1);
      OneMoreRecord(S, data, n - 1, LoadChunks(S, data, n - 1).value);
      ReadableAdds(S, data, n - 1, LoadChunks(S, data, n - 1).value);
    } else {
      EmptyHolds(S, data);
    }
  }

  lemma EmptyHolds(S: Suite, data: seq<byte>)
    ensures HoldsRecords(S, data, 0, map[])
  {
  }

  lemma ReadableAdds(S: Suite, data: seq<byte>, i: nat, reg: Registry)
    requires 96 * (i + 1) <= |data|
    ensures AddChunk(S, reg, data[96 * i..96 * (i + 1)]).Ok? <==> ReadableAt(S, data, i)
  {
    ChunkReads(S, reg, data, i);
  }

  /** The first unreadable record decides the error, whatever stands behind it. */
  lemma FirstBadRecordStops(S: Suite, data: seq<byte>, i: nat)
    requires |data| % 96 == 0 && 96 * (i + 1) <= |data|
    requires (forall j :: 0 <= j < i ==> ReadableAt(S, data, j)) && !ReadableAt(S, data, i)
    ensures LoadImage(S, data) == Err(if PubkeyAt(S, data, i).None? then PubkeyInvalid else CommitmentInvalid)
  {
    hide AddChunk, HoldsRecords, PubkeyAt, CommitmentAt;
    ReadableRecordsLoad(S, data, i);
    ChunkReads(S, LoadChunks(S, data, i).value, data, i);
    LoadStopsAtError(S, data, i + 1, |data| / 96);
  }

  lemma {:induction false} FirstBadRecord(S: Suite, data: seq<byte>, n: nat) returns (i: nat)
    requires 96 * n <= |data| && !(forall j :: 0 <= j < n ==> ReadableAt(S, data, j))
    ensures i < n && !ReadableAt(S, data, i) && forall j :: 0 <= j < i ==> ReadableAt(S, data, j)
  {
    hide ReadableAt;
    if forall j :: 0 <= j < n - 1 ==> ReadableAt(S, data, j) {
      i := n - 1;
    } else {
      i := FirstBadRecord(S, data, n - 1);
    }
  }

  /**
   What the loader makes of any file: it loads exactly a whole number of readable records, and then
   holds the last proper record of each id and nothing else.
   */
  lemma LoadedRegistry(S: Suite, data: seq<byte>)
    ensures LoadImage(S, data).Ok? <==>
            |data| % 96 == 0 && forall i :: 0 <= i < |data| / 96 ==> ReadableAt(S, data, i)
    ensures |data| % 96 != 0 ==> LoadImage(S, data) == Err(CorruptLength)
    ensures LoadImage(S, data).Ok? ==> HoldsRecords(S, data, |data| / 96, LoadImage(S, data).value)
  {
    hide ReadableAt, HoldsRecords, LoadChunks;
    var n := |data| / 96;
    if |data| % 96 == 0 {
      if forall i :: 0 <= i < n ==> ReadableAt(S, data, i) {
        ReadableRecordsLoad(S, data, n);
      } else {
        var i := FirstBadRecord(S, data, n);
        FirstBadRecordStops(S, data, i);
      }
    }
  }

  /** Each key of the map once, in whatever order iteration takes. */
  predicate Lists(ids: seq<Bytes32>, keys: set<Bytes32>) {
    && (forall id <- ids :: id in keys)
    && (forall id <- keys :: id in ids)
    && (forall i, j :: 0 <= i < j < |ids| ==> ids[i] != ids[j])
  }

  method SaveRegistry(S: Suite, reg: Registry) returns (out: seq<byte>, ghost order: seq<Bytes32>)
    ensures Lists(order, reg.Keys) && out == SaveImage(S, reg, order)
  {
    out, order := [], [];
    var rest := reg.Keys;
    while rest != {}
      invariant rest <= reg.Keys && Lists(order, reg.Keys - rest)
      invariant out == SaveImage(S, reg, order)
      decreases rest
    {
      var id :| id in rest;
      out := out + RecordBytes(S, id, reg[id]);
      assert (order + [id])[..|order|] == order;
      order := order + [id];
      rest := rest - {id};
    }
  }

  predicate NoIdentity(rec: DeviceRecord) {
    rec.pubkey != IDENTITY && rec.roleCommitment != IDENTITY
  }

  lemma RecordParses(S: Suite, reg: Registry, id: Bytes32, rec: DeviceRecord)
    requires S.Valid() && S.In(rec.pubkey) && S.In(rec.roleCommitment)
    ensures AddChunk(S, reg, RecordBytes(S, id, rec)) == Ok(if NoIdentity(rec) then reg[id := rec] else reg)
  {
    var b := RecordBytes(S, id, rec);
    assert b[0..32] == id && b[32..64] == S.compress(rec.pubkey) && b[64..96] == S.compress(rec.roleCommitment);
    assert S.decompress(S.compress(rec.pubkey)) == Some(rec.pubkey);
    assert S.decompress(S.compress(rec.roleCommitment)) == Some(rec.roleCommitment);
  }

  /** The registry cut down to some ids and to the records without identity points. */
  function Kept(reg: Registry, ids: set<Bytes32>): Registry {
    map id | id in reg && id in ids && NoIdentity(reg[id]) :: reg[id]
  }

  lemma KeptGrows(reg: Registry, ids: set<Bytes32>, id: Bytes32)
    requires id in reg
    ensures Kept(reg, ids + {id}) == if NoIdentity(reg[id]) then Kept(reg, ids)[id := reg[id]] else Kept(reg, ids)
  {
  }

  function Ids(ids: seq<Bytes32>): set<Bytes32> {
    set id | id in ids
  }

  lemma {:induction false} PrefixRoundTrip(S: Suite, reg: Registry, ids: seq<Bytes32>)
    requires S.Valid() && ValidRegistry(S, reg)
    requires forall id <- ids :: id in reg
    ensures LoadChunks(S, SaveImage(S, reg, ids), |ids|) == Ok(Kept(reg, Ids(ids)))
  {
    hide AddChunk, RecordBytes;
    if ids == [] {
      assert Kept(reg, Ids([])) == map[];
    } else {
      var n := |ids| - 1;
      var front, last := ids[..n], ids[n];
      assert last in ids;
      PrefixRoundTrip(S, reg, front);
      var head, tail := SaveImage(S, reg, front), RecordBytes(S, last, reg[last]);
      LoadIgnoresTail(S, head, tail, n);
      assert (head + tail)[96 * n..96 * |ids|] == tail;
      RecordParses(S, Kept(reg, Ids(front)), last, reg[last]);
      KeptGrows(reg, Ids(front), last);
      assert Ids(ids) == Ids(front) + {last};
    }
  }

  /** Saved in any order, the file loads back as the same map of the records without identity points. */
  lemma RegistryRoundTrip(S: Suite, reg: Registry, ids: seq<Bytes32>)
    requires S.Valid() && ValidRegistry(S, reg) && Lists(ids, reg.Keys)
    ensures LoadImage(S, SaveImage(S, reg, ids)) == Ok(Kept(reg, reg.Keys))
  {
    hide Kept, SaveImage, LoadChunks;
    PrefixRoundTrip(S, reg, ids);
    assert Ids(ids) == reg.Keys;
  }

  predicate AllProper(reg: Registry) {
    forall id <- reg :: NoIdentity(reg[id])
  }

  predicate ProperSetups(S: Suite, setups: seq<(Bytes32, DeviceRecord)>) {
    forall e <- setups :: S.In(e.1.pubkey) && S.In(e.1.roleCommitment) && NoIdentity(e.1)
  }

  lemma {:induction false} RunsKeepPointsProper(S: Suite, st: State, setups: seq<(Bytes32, DeviceRecord)>)
    requires AllProper(st.reg) && ProperSetups(S, setups)
    ensures AllProper(RunSetups(S, st, setups).reg)
    decreases |setups|
  {
    if setups != [] {
      assert setups[0] in setups;
      var st' := SetupStep(S, st, setups[0].0, setups[0].1);
      assert AllProper(st'.reg);
      RunsKeepPointsProper(S, st', setups[1..]);
    }
  }

  lemma AllKept(reg: Registry)
    requires AllProper(reg)
    ensures Kept(reg, reg.Keys) == reg
  {
  }

  /** After any run of enrollments, which never take an identity point, a save and a load give back the very same registry. */
  lemma RegistrySurvivesRestart(S: Suite, setups: seq<(Bytes32, DeviceRecord)>, ids: seq<Bytes32>)
    requires S.Valid() && ProperSetups(S, setups)
    requires Lists(ids, RunSetups(S, State(map[], map[]), setups).reg.Keys)
    ensures var reg := RunSetups(S, State(map[], map[]), setups).reg;
            LoadImage(S, SaveImage(S, reg, ids)) == Ok(reg)
  {
    var st := State(map[], map[]);
    var reg := RunSetups(S, st, setups).reg;
    IndexAgreesOverRuns(S, st, setups);
    RunsKeepPointsProper(S, st, setups);
    hide *;
    RegistryRoundTrip(S, reg, ids);
    AllKept(reg);
  }
}
