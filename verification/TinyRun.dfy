/**
 One run with every value written out, in the group of three elements: what the theorems about
 honest runs require can be met, also with a re-randomization scalar of zero.
 */
module TinyRun {
  import opened Bytes
  import opened PrimeField
  import opened Suites
  import opened Sigma
  import opened RoleMembership
  import opened Handshake
  import opened CServer
  import opened CrossLanguage
  import Registries
  import RegistryC
  import Replay
  import ReplayC

  function Roles(): seq<u64> {
    [1, 2]
  }

  function TinyDevice(): Device {
    Device(1, 1, 0)
  }

  function RoleMode(): Mode {
    Mode(false, false)
  }

  function ClientDraws(): ClientRandomness {
    ClientRandomness(Zeros(), 1, 1, 0, 1, OrRandomness(1, [0, 0], [0, 1]))
  }

  function ServerDraws(): ServerRandomness {
    ServerRandomness(Zeros(), 1, 1)
  }

  function Calm(): Env {
    Env(false, false, false, 0, true)
  }

  function Lib(): Sodium {
    Sodium(b => LeValue(b), b => LeValue(b))
  }

  function Record(): Registries.DeviceRecord {
    Registries.DeviceRecord(1, 1)
  }

  function View(): ServerView {
    ServerView(Replay.EMPTY,
               Registries.State(map[Zeros() := Record()], map[DeviceHandle(TinySuite(), 1) := (Zeros(), Record())]),
               Some((Zeros(), Record())))
  }

  lemma LibReads()
    ensures ReadsScalars(TinySuite(), Lib())
  {
    var S := TinySuite();
    forall s | S.In(s) ensures LeValue(S.ScalarBytes(s)) == s {
      ScalarRoundTrip(S, s);
    }
  }

  lemma RandomnessIsGood()
    ensures GoodClientRandomness(TinySuite(), Roles(), TinyDevice(), RoleMode(), ClientDraws())
    ensures Position(Roles(), 1) == 0
  {
    assert Roles()[0] == 1;
  }

  /** The keys and commitments of the run. */
  lemma RunPoints()
    ensures var S := TinySuite();
            && DevicePub(S, TinyDevice()) == 1 && DeviceCommitment(S, TinyDevice()) == 1 && S.Mul(BASE, 1) == 1
            && ClientSession(S, TinyDevice(), 1, ClientDraws()).ephC == 1
            && RerandomizedCommitment(S, 1, 0) == 1
  {
  }

  lemma ProofPoints(n: Session)
    ensures var S := TinySuite();
            && GoodRandomness(S, 2, 0, ClientDraws().orRnd)
            && NoIdentityCommitment(OrProof(S, n, 1, Roles(), 0, 0, ClientDraws().orRnd))
            && ProveRoleRerandomization(S, n, 1, 1, 0, 1).0 == 2
            && ProveAuth(S, 1, n.pid, n.nonceC, n.ephC, 1).0 == 1
            && ProveServer(S, 1, Zeros(), 1, 1).0 == 1
  {
    hide MasterChallenge, RerandChallenge;
    var S := TinySuite();
    var proof := OrProof(S, n, 1, Roles(), 0, 0, ClientDraws().orRnd);
    assert ProofCommitment(S, 1, Roles(), 0, ClientDraws().orRnd, 0) == 2;
    assert ProofCommitment(S, 1, Roles(), 0, ClientDraws().orRnd, 1) == 2;
    assert proof == [proof[0], proof[1]];
  }

  lemma RequestProper()
    requires GoodClientRandomness(TinySuite(), Roles(), TinyDevice(), RoleMode(), ClientDraws())
    ensures NoIdentities(ClientRequest(TinySuite(), Roles(), TinyDevice(), RoleMode(), 1, ClientDraws()))
  {
    hide MasterChallenge, RerandChallenge, OrProof, ProveAuth, ProveRoleRerandomization, ComputePid, Mod, MakeRoleCommitment, RerandomizedCommitment, NoIdentityCommitment;
    var S := TinySuite();
    RandomnessIsGood();
    RunPoints();
    var n := ClientSession(S, TinyDevice(), 1, ClientDraws());
    ProofPoints(n);
    Blind();
  }

  lemma Blind()
    ensures TinySuite().Add(0, 0) == 0
  {
  }

  lemma EnrolledAtBoth(n: Session)
    requires n.pid == ComputePid(TinySuite(), 1, n.nonceC, n.ephC, 1)
    ensures DevicePub(TinySuite(), TinyDevice()) == 1 && DeviceCommitment(TinySuite(), TinyDevice()) == 1
    ensures Enrolled(TinySuite(), TinyDevice(), Zeros(), 1, n, View())
    ensures EnrolledC(TinySuite(), TinyDevice(), Zeros(), 1, n, [RegistryC.EntryOf(TinySuite(), Zeros(), Record())])
  {
    RunPoints();
    hide Mod, MakeRoleCommitment, PidFromBytes, HandleFromBytes, OneByte, FromOneByte;
  }

  /** An honest run exists, in role mode and without re-randomization. */
  lemma HonestRunExists()
    ensures HonestRun(TinySuite(), Lib(), Roles(), TinyDevice(), RoleMode(), 1, ClientDraws(), ServerDraws(), Zeros(), View(),
                      [RegistryC.EntryOf(TinySuite(), Zeros(), Record())], Calm())
    ensures !RoleMode().deviceOnly && ClientDraws().delta == 0
  {
    hide Mod, Prime, OrProof, ClientRolePart, ProveAuth, ComputePid, DeviceHandle, Enrolled, EnrolledC, NoIdentities, MakeRoleCommitment;
    hide GoodClientRandomness, ReadsScalars, ServerKcState, OneByte, FromOneByte;
    var S := TinySuite();
    TinySuiteIsValid();
    LibReads();
    RandomnessIsGood();
    RunPoints();
    RequestProper();
    var r := ClientRequest(S, Roles(), TinyDevice(), RoleMode(), 1, ClientDraws());
    EnrolledAtBoth(r.n);
    ServerPoints(r);
  }

  /** On this run's message the Rust server answers and the C server does not, whatever its replay cache holds. */
  lemma ServersPart(store: ReplayC.Store)
    ensures var S, arr := TinySuite(), [RegistryC.EntryOf(TinySuite(), Zeros(), Record())];
            && GoodClientRandomness(S, Roles(), TinyDevice(), RoleMode(), ClientDraws())
            && var r := ClientRequest(S, Roles(), TinyDevice(), RoleMode(), S.Mul(BASE, 1), ClientDraws());
               && WellFormedRequest(S, 2, r)
               && ServerAnswer(S, Roles(), 1, View(), r, ServerDraws()).Ok?
               && ServeAuth(S, Lib(), Roles(), 1, store, arr, WireBytes(S, 2, r), ServerDraws(), Calm()).1 == None
  {
    hide HonestRun, GoodClientRandomness, ServerAnswer, ServeAuth, WellFormedRequest, WireBytes, ClientRolePart, ProveAuth, ComputePid, DeviceHandle, Mod;
    RandomnessIsGood();
    HonestRunExists();
    ZeroDeltaDivides(TinySuite(), Lib(), Roles(), TinyDevice(), RoleMode(), 1, ClientDraws(), ServerDraws(), Zeros(), View(),
                     store, [RegistryC.EntryOf(TinySuite(), Zeros(), Record())], Calm());
  }

  lemma ServerPoints(r: Request)
    ensures var k := ServerKcState(TinySuite(), 1, r, ServerDraws()); k.serverPub == 1 && k.aS == 1 && k.ephS == 1
  {
  }
}
