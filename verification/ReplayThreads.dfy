/** Handler threads racing through the replay stage, one atomic critical section each. */
module ReplayThreads {
  import opened Replay

  /** Where a handler thread stands: reading and checking its request, about to lock, and the two outcomes. */
  datatype Stage = Parsing | Claiming | Passed | Rejected

  datatype System = System(cache: Generations, stages: seq<Stage>)

  /** Thread `t` takes its next step; a claim locks, checks, inserts and unlocks in one step. */
  function Step(m: nat, keys: seq<Key>, s: System, t: nat): (r: System)
    requires |s.stages| == |keys|
    ensures |r.stages| == |keys|
  {
    if t >= |keys| then s else
    match s.stages[t]
    case Parsing => s.(stages := s.stages[t := Claiming])
    case Claiming =>
      System(Insert(m, s.cache, keys[t]), s.stages[t := if Remembered(s.cache, keys[t]) then Rejected else Passed])
    case Passed => s
    case Rejected => s
  }

  function RunSchedule(m: nat, keys: seq<Key>, s: System, sched: seq<nat>): (r: System)
    requires |s.stages| == |keys|
    ensures |r.stages| == |keys|
    decreases |sched|
  {
    if sched == [] then s
    else RunSchedule(m, keys, Step(m, keys, s, sched[0]), sched[1..])
  }

  /** How many claims of a schedule are accepted. */
  function AcceptedClaims(m: nat, keys: seq<Key>, s: System, sched: seq<nat>): nat
    requires |s.stages| == |keys|
    decreases |sched|
  {
    if sched == [] then 0
    else
      var t := sched[0];
      (if t < |keys| && s.stages[t] == Claiming && !Remembered(s.cache, keys[t]) then 1 else 0)
      + AcceptedClaims(m, keys, Step(m, keys, s, t), sched[1..])
  }

  /** The position of the first claim on `k`, or the length of the schedule. */
  function FirstClaim(m: nat, keys: seq<Key>, s: System, sched: seq<nat>, k: Key): (f: nat)
    requires |s.stages| == |keys|
    ensures f <= |sched|
    decreases |sched|
  {
    if sched == [] then 0
    else
      var t := sched[0];
      if t < |keys| && s.stages[t] == Claiming && keys[t] == k then 0
      else 1 + FirstClaim(m, keys, Step(m, keys, s, t), sched[1..], k)
  }

  /** No thread presenting `k` has claimed yet. */
  predicate Untouched(keys: seq<Key>, s: System, k: Key) {
    |s.stages| == |keys| && forall t :: 0 <= t < |keys| && keys[t] == k ==> s.stages[t] == Parsing || s.stages[t] == Claiming
  }

  predicate OnlyWinnerPassed(keys: seq<Key>, s: System, k: Key, winner: nat) {
    |s.stages| == |keys| && forall t :: 0 <= t < |keys| && keys[t] == k ==> (s.stages[t] == Passed <==> t == winner)
  }

  lemma {:induction false} BeforeFirstClaim(m: nat, keys: seq<Key>, s: System, sched: seq<nat>, k: Key, n: nat)
    requires ValidGenerations(m, s.cache) && Untouched(keys, s, k) && !Remembered(s.cache, k)
    requires n <= FirstClaim(m, keys, s, sched, k)
    ensures var r := RunSchedule(m, keys, s, sched[..n]);
            && ValidGenerations(m, r.cache) && Untouched(keys, r, k) && !Remembered(r.cache, k)
            && (n < |sched| && n == FirstClaim(m, keys, s, sched, k) ==> sched[n] < |keys| && r.stages[sched[n]] == Claiming && keys[sched[n]] == k)
    decreases |sched|
  {
    if n > 0 {
      var t := sched[0];
      var s' := Step(m, keys, s, t);
      BeforeFirstClaim(m, keys, s', sched[1..], k, n - 1);
      assert sched[..n][1..] == sched[1..][..n - 1];
    }
  }

  lemma {:induction false} AfterFirstClaim(m: nat, keys: seq<Key>, s: System, sched: seq<nat>, k: Key, winner: nat, p: nat, d: nat)
    requires ValidGenerations(m, s.cache) && OnlyWinnerPassed(keys, s, k, winner)
    requires TrackedAt(m, s.cache, k, p, d)
    requires d + AcceptedClaims(m, keys, s, sched) <= 2 * m - p
    ensures OnlyWinnerPassed(keys, RunSchedule(m, keys, s, sched), k, winner)
    decreases |sched|
  {
    if sched != [] {
      var t := sched[0];
      if t < |keys| {
        InsertTracks(m, s.cache, k, p, d, keys[t]);
      }
      var accepted := t < |keys| && s.stages[t] == Claiming && !Remembered(s.cache, keys[t]);
      AfterFirstClaim(m, keys, Step(m, keys, s, t), sched[1..], k, winner, p, if accepted then d + 1 else d);
    }
  }

  lemma {:induction false} RunSplits(m: nat, keys: seq<Key>, s: System, before: seq<nat>, after: seq<nat>)
    requires |s.stages| == |keys|
    ensures RunSchedule(m, keys, s, before + after) == RunSchedule(m, keys, RunSchedule(m, keys, s, before), after)
    decreases |before|
  {
    if before == [] {
      assert before + after == after;
    } else {
      assert (before + after)[1..] == before[1..] + after;
      RunSplits(m, keys, Step(m, keys, s, before[0]), before[1..], after);
    }
  }

  /**
   Single claim: in every interleaving, of all the threads presenting a key the cache does not
   remember, exactly the first to lock passes, provided at most `m` other fresh keys are
   accepted afterwards; if none of them gets to lock, none passes.
   */
  lemma ExactlyOneThreadPasses(m: nat, keys: seq<Key>, s: System, sched: seq<nat>, k: Key)
    requires ValidGenerations(m, s.cache) && Untouched(keys, s, k) && !Remembered(s.cache, k)
    requires var f := FirstClaim(m, keys, s, sched, k);
             f < |sched| ==> AcceptedClaims(m, keys, RunSchedule(m, keys, s, sched[..f + 1]), sched[f + 1..]) <= m
    ensures var f, end := FirstClaim(m, keys, s, sched, k), RunSchedule(m, keys, s, sched);
            if f == |sched| then Untouched(keys, end, k)
            else sched[f] < |keys| && keys[sched[f]] == k && OnlyWinnerPassed(keys, end, k, sched[f])
  {
    var f := FirstClaim(m, keys, s, sched, k);
    BeforeFirstClaim(m, keys, s, sched, k, f);
    if f == |sched| {
      assert sched[..f] == sched;
    } else {
      var winner, r := sched[f], RunSchedule(m, keys, s, sched[..f]);
      var r' := Step(m, keys, r, winner);
      RunSnoc(m, keys, s, sched, f);
      assert OnlyWinnerPassed(keys, r', k, winner);
      assert TrackedAt(m, r'.cache, k, |r'.cache.current|, 0);
      hide *;
      AfterFirstClaim(m, keys, r', sched[f + 1..], k, winner, |r'.cache.current|, 0);
    }
  }

  /** Running a schedule is running its first `f + 1` steps and then the rest. */
  lemma RunSnoc(m: nat, keys: seq<Key>, s: System, sched: seq<nat>, f: nat)
    requires |s.stages| == |keys| && f < |sched|
    ensures RunSchedule(m, keys, s, sched[..f + 1]) == Step(m, keys, RunSchedule(m, keys, s, sched[..f]), sched[f])
    ensures RunSchedule(m, keys, s, sched) == RunSchedule(m, keys, RunSchedule(m, keys, s, sched[..f + 1]), sched[f + 1..])
  {
    hide Step;
    RunSplits(m, keys, s, sched[..f], [sched[f]]);
    assert [sched[f]][1..] == [];
    assert sched[..f] + [sched[f]] == sched[..f + 1];
    RunSplits(m, keys, s, sched[..f + 1], sched[f + 1..]);
    assert sched[..f + 1] + sched[f + 1..] == sched;
  }
}
