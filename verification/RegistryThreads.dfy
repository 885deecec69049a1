/** Enrollments racing each other: each checks under the read lock and writes under the write lock, in any order. */
module RegistryThreads {
  import opened Bytes
  import opened Suites
  import opened Registries

  /** What one handler thread enrolls, and whether the proof it is sent in between holds. */
  datatype Job = Job(id: Bytes32, rec: DeviceRecord, proofOk: bool)

  /** Where a handler thread stands: before its check, between check and write, and the two outcomes. */
  datatype Stage = Receiving | Checked | Enrolled | Refused

  datatype System = System(st: State, stages: seq<Stage>)

  /** Thread `t` takes its next step: the check, or the proof's verdict and the write. */
  function Step(S: Suite, jobs: seq<Job>, s: System, t: nat): (r: System)
    requires |s.stages| == |jobs|
    ensures |r.stages| == |jobs|
  {
    if t >= |jobs| then s else
    var job := jobs[t];
    match s.stages[t]
    case Receiving => s.(stages := s.stages[t := if SetupCheck(S, s.st.reg, job.id, job.rec) then Checked else Refused])
    case Checked =>
      if job.proofOk then System(SetupWrite(S, s.st, job.id, job.rec), s.stages[t := Enrolled])
      else s.(stages := s.stages[t := Refused])
    case Enrolled => s
    case Refused => s
  }

  function RunSchedule(S: Suite, jobs: seq<Job>, s: System, sched: seq<nat>): (r: System)
    requires |s.stages| == |jobs|
    ensures |r.stages| == |jobs|
  {
    if sched == [] then s else Step(S, jobs, RunSchedule(S, jobs, s, sched[..|sched| - 1]), sched[|sched| - 1])
  }

  function Start(st: State, jobs: seq<Job>): System {
    System(st, seq(|jobs|, _ => Receiving))
  }

  /** Enrollments of one new id whose proofs hold have keys with one handle; true of an id with one key. */
  predicate OneHandlePerNewId(S: Suite, reg: Registry, jobs: seq<Job>) {
    forall t, u :: 0 <= t < |jobs| && 0 <= u < |jobs| && jobs[t].id == jobs[u].id ==>
      jobs[t].id !in reg && jobs[t].proofOk && jobs[u].proofOk ==>
        DeviceHandle(S, jobs[t].rec.pubkey) == DeviceHandle(S, jobs[u].rec.pubkey)
  }

  predicate PointsIn(S: Suite, st: State, jobs: seq<Job>) {
    && (forall id <- st.reg :: S.In(st.reg[id].pubkey))
    && (forall j <- jobs :: S.In(j.rec.pubkey))
  }

  /** The index agrees, and a thread about to write has the handle that is registered for its id, if any is. */
  ghost predicate Safe(S: Suite, reg: Registry, jobs: seq<Job>, s: System) {
    && |s.stages| == |jobs|
    && PointsIn(S, s.st, jobs) && IndexAgrees(S, s.st) && reg.Keys <= s.st.reg.Keys
    && (forall t :: 0 <= t < |jobs| && s.stages[t] == Checked && jobs[t].proofOk && jobs[t].id in s.st.reg ==>
          DeviceHandle(S, s.st.reg[jobs[t].id].pubkey) == DeviceHandle(S, jobs[t].rec.pubkey))
  }

  lemma CheckStaysSafe(S: Suite, reg: Registry, jobs: seq<Job>, s: System, t: nat)
    requires S.Valid() && Safe(S, reg, jobs, s) && t < |jobs| && s.stages[t] == Receiving
    ensures Safe(S, reg, jobs, Step(S, jobs, s, t))
  {
    hide IndexAgrees, DeviceHandle;
    var job := jobs[t];
    assert job in jobs;
    if SetupCheck(S, s.st.reg, job.id, job.rec) && job.id in s.st.reg {
      EncodingsInjective(S, s.st.reg[job.id].pubkey, job.rec.pubkey);
    }
  }

  lemma WriteStaysSafe(S: Suite, reg: Registry, jobs: seq<Job>, s: System, t: nat)
    requires Safe(S, reg, jobs, s) && OneHandlePerNewId(S, reg, jobs)
    requires t < |jobs| && s.stages[t] == Checked && jobs[t].proofOk
    ensures Safe(S, reg, jobs, Step(S, jobs, s, t))
  {
    hide DeviceHandle;
    var job := jobs[t];
    assert job in jobs;
    WriteKeepsIndexIff(S, s.st, job.id, job.rec);
    hide IndexAgrees;
  }

  lemma {:induction false} RunsStaySafe(S: Suite, st: State, jobs: seq<Job>, sched: seq<nat>)
    requires S.Valid() && PointsIn(S, st, jobs) && IndexAgrees(S, st) && OneHandlePerNewId(S, st.reg, jobs)
    ensures Safe(S, st.reg, jobs, RunSchedule(S, jobs, Start(st, jobs), sched))
  {
    if sched != [] {
      hide Safe, IndexAgrees, PointsIn, OneHandlePerNewId, SetupCheck, SetupWrite;
      var n := |sched| - 1;
      RunsStaySafe(S, st, jobs, sched[..n]);
      var s, t := RunSchedule(S, jobs, Start(st, jobs), sched[..n]), sched[n];
      if t < |jobs| && s.stages[t] == Receiving {
        CheckStaysSafe(S, st.reg, jobs, s, t);
      } else if t < |jobs| && s.stages[t] == Checked {
        if jobs[t].proofOk {
          WriteStaysSafe(S, st.reg, jobs, s, t);
        } else {
          RefusalStaysSafe(S, st.reg, jobs, s, t);
        }
      }
    }
  }

  lemma RefusalStaysSafe(S: Suite, reg: Registry, jobs: seq<Job>, s: System, t: nat)
    requires Safe(S, reg, jobs, s) && t < |jobs| && s.stages[t] == Checked && !jobs[t].proofOk
    ensures Safe(S, reg, jobs, Step(S, jobs, s, t))
  {
    hide IndexAgrees, DeviceHandle;
  }

  /** Two threads that both check before either writes end with a stale index entry. */
  lemma BothCheckFirst(S: Suite, st: State, jobs: seq<Job>, t: nat, u: nat)
    requires IndexAgrees(S, st) && t < |jobs| && u < |jobs| && jobs[t].id == jobs[u].id && jobs[t].id !in st.reg
    requires jobs[t].proofOk && jobs[u].proofOk
    requires DeviceHandle(S, jobs[t].rec.pubkey) != DeviceHandle(S, jobs[u].rec.pubkey)
    ensures !IndexAgrees(S, RunSchedule(S, jobs, Start(st, jobs), [t, u, t, u]).st)
  {
    hide DeviceHandle, IndexAgrees;
    var s0 := Start(st, jobs);
    var s1 := Step(S, jobs, s0, t);
    var s2 := Step(S, jobs, s1, u);
    var s3 := Step(S, jobs, s2, t);
    var s4 := Step(S, jobs, s3, u);
    assert [t, u, t, u][..3] == [t, u, t] && [t, u, t][..2] == [t, u] && [t, u][..1] == [t] && [t][..0] == [];
    assert RunSchedule(S, jobs, s0, [t]) == s1;
    assert RunSchedule(S, jobs, s0, [t, u]) == s2;
    assert RunSchedule(S, jobs, s0, [t, u, t]) == s3;
    assert RunSchedule(S, jobs, s0, [t, u, t, u]) == s4;
    WriteKeepsIndexIff(S, st, jobs[t].id, jobs[t].rec);
    WriteKeepsIndexIff(S, s3.st, jobs[u].id, jobs[u].rec);
  }

  /**
   The index agrees with the registry in every interleaving of checks and writes if and only if
   the enrollments of each new id whose proofs hold carry keys with one handle.
   */
  lemma AgreesInEveryInterleavingIff(S: Suite, st: State, jobs: seq<Job>)
    requires S.Valid() && PointsIn(S, st, jobs) && IndexAgrees(S, st)
    ensures (forall sched: seq<nat> :: IndexAgrees(S, RunSchedule(S, jobs, Start(st, jobs), sched).st))
            <==> OneHandlePerNewId(S, st.reg, jobs)
  {
    hide IndexAgrees, DeviceHandle;
    if OneHandlePerNewId(S, st.reg, jobs) {
      forall sched: seq<nat> ensures IndexAgrees(S, RunSchedule(S, jobs, Start(st, jobs), sched).st) {
        RunsStaySafe(S, st, jobs, sched);
      }
    } else {
      var t, u :| 0 <= t < |jobs| && 0 <= u < |jobs| && jobs[t].id == jobs[u].id
                  && jobs[t].id !in st.reg && jobs[t].proofOk && jobs[u].proofOk
                  && DeviceHandle(S, jobs[t].rec.pubkey) != DeviceHandle(S, jobs[u].rec.pubkey);
      BothCheckFirst(S, st, jobs, t, u);
    }
  }
}
