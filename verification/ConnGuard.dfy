/**
 The lock-free connection counter: threads load it, try to swap in the next value, and give
 their place back when their guard is dropped, in any interleaving.
 */
module ConnGuards {
  const MAX_ACTIVE_CONNECTIONS: int := 128
  const WORD: int := 0x1_0000_0000_0000_0000

  type Tid = nat

  /** Where a thread stands: about to load, about to compare and exchange, holding a guard, or turned away. */
  datatype Phase = Trying | Loaded(current: int) | Holding | Refused

  datatype World = World(active: int, phases: map<Tid, Phase>)

  datatype Step = Load(tid: Tid) | CompareExchange(tid: Tid) | Drop(tid: Tid)

  const START := World(0, map[])

  function PhaseOf(w: World, t: Tid): Phase {
    if t in w.phases then w.phases[t] else Trying
  }

  predicate Enabled(w: World, s: Step) {
    match s
    case Load(t) => PhaseOf(w, t) == Trying
    case CompareExchange(t) => PhaseOf(w, t).Loaded?
    case Drop(t) => PhaseOf(w, t) == Holding
  }

  /** One atomic step; a thread that is not at that point of its program does nothing. */
  function Next(w: World, s: Step): World {
    if !Enabled(w, s) then w else
    match s
    case Load(t) =>
      w.(phases := w.phases[t := if w.active >= MAX_ACTIVE_CONNECTIONS then Refused else Loaded(w.active)])
    case CompareExchange(t) =>
      var current := PhaseOf(w, t).current;
      if w.active == current then World((current + 1) % WORD, w.phases[t := Holding])
      else w.(phases := w.phases[t := Trying])
    case Drop(t) =>
      World((w.active - 1) % WORD, w.phases[t := Refused])
  }

  function Run(w: World, steps: seq<Step>): World {
    if steps == [] then w else Next(Run(w, steps[..|steps| - 1]), steps[|steps| - 1])
  }

  function Guards(w: World): set<Tid> {
    set t | t in w.phases && w.phases[t] == Holding
  }

  /** The counter is the number of live guards, and within the limit; a loaded value leaves room for one more. */
  predicate Consistent(w: World) {
    && w.active == |Guards(w)| <= MAX_ACTIVE_CONNECTIONS
    && forall t <- w.phases :: w.phases[t].Loaded? ==> 0 <= w.phases[t].current < MAX_ACTIVE_CONNECTIONS
  }

  lemma ExchangeKeepsConsistent(w: World, t: Tid)
    requires Consistent(w) && PhaseOf(w, t) == Loaded(w.active)
    ensures var w' := Next(w, CompareExchange(t));
            Consistent(w') && w'.active == w.active + 1
  {
    var w' := Next(w, CompareExchange(t));
    assert w'.active == w.active + 1;
    assert Guards(w') == Guards(w) + {t} && t !in Guards(w);
  }

  lemma DropKeepsConsistent(w: World, t: Tid)
    requires Consistent(w) && PhaseOf(w, t) == Holding
    ensures Consistent(Next(w, Drop(t))) && w.active > 0
  {
    var w' := Next(w, Drop(t));
    assert t in Guards(w);
    assert w'.active == w.active - 1;
    assert Guards(w') == Guards(w) - {t};
  }

  lemma NextKeepsConsistent(w: World, s: Step)
    requires Consistent(w)
    ensures Consistent(Next(w, s))
    ensures Enabled(w, s) && s.Drop? ==> w.active > 0
    ensures PhaseOf(w, s.tid) != Holding && PhaseOf(Next(w, s), s.tid) == Holding ==>
            s.CompareExchange? && Next(w, s).active == w.active + 1
  {
    if s.CompareExchange? && PhaseOf(w, s.tid) == Loaded(w.active) {
      ExchangeKeepsConsistent(w, s.tid);
    } else if s.Drop? && Enabled(w, s) {
      DropKeepsConsistent(w, s.tid);
    } else {
      assert Guards(Next(w, s)) == Guards(w);
    }
  }

  /** In every interleaving the counter equals the number of live guards, never exceeds the limit, and no drop takes it below zero. */
  lemma {:induction false} CounterCountsGuards(steps: seq<Step>, i: nat)
    requires i <= |steps|
    ensures Consistent(Run(START, steps[..i]))
    ensures Run(START, steps[..i]).active == |Guards(Run(START, steps[..i]))| <= 128
    ensures i < |steps| && steps[i].Drop? && Enabled(Run(START, steps[..i]), steps[i]) ==> Run(START, steps[..i]).active > 0
  {
    if i == 0 {
      assert Guards(START) == {};
    } else {
      CounterCountsGuards(steps, i - 1);
      assert steps[..i][..i - 1] == steps[..i - 1];
      NextKeepsConsistent(Run(START, steps[..i - 1]), steps[i - 1]);
    }
    if i < |steps| {
      NextKeepsConsistent(Run(START, steps[..i]), steps[i]);
    }
  }

  // Lock-freedom: a thread only ever loses to another thread's success.

  /** Step `k` of the run was another thread's and moved the counter. */
  predicate MovedByOther(w: World, steps: seq<Step>, k: nat, t: Tid)
    requires k < |steps|
  {
    steps[k].tid != t && Enabled(Run(w, steps[..k]), steps[k]) && !steps[k].Load?
    && Run(w, steps[..k + 1]).active != Run(w, steps[..k]).active
  }

  lemma {:induction false} Undisturbed(w: World, steps: seq<Step>, t: Tid, i: nat, j: nat)
    requires i <= j <= |steps|
    requires forall k :: i <= k < j ==> steps[k].tid != t && !MovedByOther(w, steps, k, t)
    ensures Run(w, steps[..j]).active == Run(w, steps[..i]).active
    ensures PhaseOf(Run(w, steps[..j]), t) == PhaseOf(Run(w, steps[..i]), t)
  {
    if i < j {
      Undisturbed(w, steps, t, i, j - 1);
      assert steps[..j][..j - 1] == steps[..j - 1];
    }
  }

  /**
   A thread's compare-and-exchange fails only if, since its load, some other thread's
   compare-and-exchange or drop succeeded.
   */
  lemma FailureMeansProgress(w: World, steps: seq<Step>, t: Tid, i: nat, j: nat)
    requires i < j < |steps| && steps[i] == Load(t) && steps[j] == CompareExchange(t)
    requires forall k :: i < k < j ==> steps[k].tid != t
    requires Enabled(Run(w, steps[..i]), steps[i])
    requires Enabled(Run(w, steps[..j]), steps[j])
    requires PhaseOf(Run(w, steps[..j + 1]), t) != Holding
    ensures exists k :: i < k < j && MovedByOther(w, steps, k, t)
  {
    assert steps[..i + 1][..i] == steps[..i];
    assert steps[..j + 1][..j] == steps[..j];
    if forall k :: i < k < j ==> !MovedByOther(w, steps, k, t) {
      LoadKeepsPhaseElse(w, steps, t, i, j);
      assert false;
    }
  }

  lemma LoadKeepsPhaseElse(w: World, steps: seq<Step>, t: Tid, i: nat, j: nat)
    requires i < j < |steps| && steps[i] == Load(t) && Enabled(Run(w, steps[..i]), steps[i])
    requires forall k :: i < k < j ==> steps[k].tid != t && !MovedByOther(w, steps, k, t)
    requires PhaseOf(Run(w, steps[..j]), t).Loaded?
    ensures PhaseOf(Run(w, steps[..j]), t) == Loaded(Run(w, steps[..j]).active)
  {
    Undisturbed(w, steps, t, i + 1, j);
    assert steps[..i + 1][..i] == steps[..i];
  }

  // The acquiring loop of one thread.

  lemma {:induction false} OthersKeepPhase(w: World, steps: seq<Step>, t: Tid)
    requires Consistent(w) && forall s <- steps :: s.tid != t
    ensures PhaseOf(Run(w, steps), t) == PhaseOf(w, t) && Consistent(Run(w, steps))
  {
    if steps != [] {
      var m := |steps| - 1;
      assert forall s <- steps[..m] :: s in steps;
      assert steps[m] in steps;
      OthersKeepPhase(w, steps[..m], t);
      NextKeepsConsistent(Run(w, steps[..m]), steps[m]);
    }
  }

  /**
   Load, compare and exchange, and again if it fails; `others[i]` is what the other threads do
   between this thread's i-th load and its exchange. It ends with a guard, or refused at a
   moment when the limit is reached, and loops at most once more than the others interfere.
   */
  method TryAcquire(w0: World, t: Tid, others: seq<seq<Step>>) returns (guard: bool, w: World, rounds: nat)
    requires Consistent(w0) && PhaseOf(w0, t) == Trying
    requires forall i :: 0 <= i < |others| ==> forall s <- others[i] :: s.tid != t
    ensures Consistent(w) && rounds <= |others| + 1
    ensures guard ==> PhaseOf(w, t) == Holding
    ensures !guard ==> PhaseOf(w, t) == Refused && |Guards(w)| == 128
  {
    w, rounds := w0, 0;
    while true
      invariant Consistent(w) && PhaseOf(w, t) == Trying && rounds <= |others|
      decreases |others| - rounds
    {
      hide Consistent, Run;
      var loaded := Next(w, Load(t));
      NextKeepsConsistent(w, Load(t));
      if PhaseOf(loaded, t) == Refused {
        RefusedMeansFull(w, t);
        return false, loaded, rounds + 1;
      }
      var between := if rounds < |others| then others[rounds] else [];
      var met := Run(loaded, between);
      OthersKeepPhase(loaded, between, t);
      NothingBetween(loaded);
      NextKeepsConsistent(met, CompareExchange(t));
      w := Next(met, CompareExchange(t));
      rounds := rounds + 1;
      if PhaseOf(w, t) == Holding {
        return true, w, rounds;
      }
    }
  }

  lemma NothingBetween(w: World)
    ensures Run(w, []) == w
  {
  }

  lemma RefusedMeansFull(w: World, t: Tid)
    requires Consistent(w) && PhaseOf(w, t) == Trying && PhaseOf(Next(w, Load(t)), t) == Refused
    ensures |Guards(Next(w, Load(t)))| == MAX_ACTIVE_CONNECTIONS
  {
    assert Guards(Next(w, Load(t))) == Guards(w);
  }
}
