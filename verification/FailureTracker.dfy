/**
 The rate limiter: failures per peer in a window, and a temporary ban. The two programs delete
 expired entries at different moments; which moments makes no difference to any answer.
 */
module FailureTrackers {
  import opened Bytes

  const FAILURE_WINDOW: nat := 60
  const FAILURE_BAN: nat := 120
  const MAX_FAILURES_PER_WINDOW: nat := 8

  type Peer = string
  type u32 = n: int | 0 <= n < 0x1_0000_0000

  datatype FailureState = FailureState(firstFailure: int, failures: u32, blockedUntil: Option<int>)

  type Peers = map<Peer, FailureState>

  predicate BlockedAt(st: FailureState, now: int) {
    st.blockedUntil.Some? && st.blockedUntil.value > now
  }

  /** Neither banned nor within its window: what pruning deletes. */
  predicate Stale(st: FailureState, now: int) {
    !BlockedAt(st, now) && now - st.firstFailure > FAILURE_WINDOW
  }

  function Prune(peers: Peers, now: int): Peers {
    map p | p in peers && !Stale(peers[p], now) :: peers[p]
  }

  predicate PeerBlocked(peers: Peers, peer: Peer, now: int) {
    peer in peers && BlockedAt(peers[peer], now)
  }

  function FreshState(now: int): FailureState {
    FailureState(now, 0, None)
  }

  function AfterFailure(st: FailureState, now: int): FailureState {
    var s := if now - st.firstFailure > FAILURE_WINDOW then FreshState(now) else st;
    var n := if s.failures < 0xFFFF_FFFF then s.failures + 1 else s.failures;
    FailureState(s.firstFailure, n, if n >= MAX_FAILURES_PER_WINDOW then Some(now + FAILURE_BAN) else s.blockedUntil)
  }

  function WithFailure(peers: Peers, peer: Peer, now: int): Peers {
    peers[peer := AfterFailure(if peer in peers then peers[peer] else FreshState(now), now)]
  }

  // The Rust tracker.

  class FailureTracker {
    var peers: Peers

    constructor ()
      ensures peers == map[]
    {
      peers := map[];
    }

    method IsBlocked(peer: Peer, now: int) returns (blocked: bool)
      modifies this
      ensures peers == Prune(old(peers), now)
      ensures blocked <==> PeerBlocked(old(peers), peer, now)
    {
      peers := Prune(peers, now);
      return peer in peers && BlockedAt(peers[peer], now);
    }

    method NoteFailure(peer: Peer, now: int)
      modifies this
      ensures peers == WithFailure(old(peers), peer, now)
    {
      if peer !in peers {
        peers := peers[peer := FailureState(now, 0, None)];
      }
      var state := peers[peer];
      if now - state.firstFailure > FAILURE_WINDOW {
        state := FailureState(now, 0, None);
      }
      state := state.(failures := if state.failures < 0xFFFF_FFFF then state.failures + 1 else state.failures);
      if state.failures >= MAX_FAILURES_PER_WINDOW {
        state := state.(blockedUntil := Some(now + FAILURE_BAN));
      }
      peers := peers[peer := state];
    }

    method NoteSuccess(peer: Peer)
      modifies this
      ensures peers == old(peers) - {peer}
    {
      peers := peers - {peer};
    }
  }

  // Runs of operations, and when a tracker prunes.

  datatype Op = Query(peer: Peer, now: int) | Failure(peer: Peer, now: int) | Success(peer: Peer, now: int)

  datatype Policy = Policy(onQuery: bool, onFailure: bool)

  const RUST := Policy(true, false)
  const C := Policy(true, true)
  const KEEP_ALL := Policy(false, false)

  function PruneIf(prune: bool, peers: Peers, now: int): Peers {
    if prune then Prune(peers, now) else peers
  }

  function Step(policy: Policy, peers: Peers, op: Op): Peers {
    match op
    case Query(_, now) => PruneIf(policy.onQuery, peers, now)
    case Failure(peer, now) => WithFailure(PruneIf(policy.onFailure, peers, now), peer, now)
    case Success(peer, _) => peers - {peer}
  }

  function After(policy: Policy, peers: Peers, ops: seq<Op>): Peers {
    if ops == [] then peers else Step(policy, After(policy, peers, ops[..|ops| - 1]), ops[|ops| - 1])
  }

  /** The answer to a query of a run. */
  predicate Answer(policy: Policy, peers: Peers, ops: seq<Op>, i: nat)
    requires i < |ops|
  {
    PeerBlocked(After(policy, peers, ops[..i]), ops[i].peer, ops[i].now)
  }

  predicate Ordered(start: int, ops: seq<Op>) {
    forall i :: 0 <= i < |ops| ==> start <= ops[i].now && (i > 0 ==> ops[i - 1].now <= ops[i].now)
  }

  /** A peer's entry if pruning would keep it. */
  function Live(peers: Peers, peer: Peer, now: int): Option<FailureState> {
    if peer in peers && !Stale(peers[peer], now) then Some(peers[peer]) else None
  }

  /** The same entries, up to those that pruning would delete. */
  ghost predicate Similar(p: Peers, r: Peers, now: int) {
    forall peer: Peer :: Live(p, peer, now) == Live(r, peer, now)
  }

  lemma SimilarLater(p: Peers, r: Peers, now: int, later: int)
    requires Similar(p, r, now) && now <= later
    ensures Similar(p, r, later)
  {
    forall peer: Peer ensures Live(p, peer, later) == Live(r, peer, later) {
      assert Live(p, peer, now) == Live(r, peer, now);
    }
  }

  lemma PruneIsSimilar(prune: bool, peers: Peers, now: int)
    ensures Similar(PruneIf(prune, peers, now), peers, now)
  {
  }

  lemma SimilarTransitive(p: Peers, r: Peers, s: Peers, now: int)
    requires Similar(p, r, now) && Similar(r, s, now)
    ensures Similar(p, s, now)
  {
    forall peer: Peer ensures Live(p, peer, now) == Live(s, peer, now) {
      assert Live(p, peer, now) == Live(r, peer, now);
      assert Live(r, peer, now) == Live(s, peer, now);
    }
  }

  /** An expired entry is overwritten like an absent one. */
  lemma NoteFailureSimilar(p: Peers, r: Peers, peer: Peer, now: int)
    requires Similar(p, r, now)
    ensures WithFailure(p, peer, now)[peer] == WithFailure(r, peer, now)[peer]
    ensures Similar(WithFailure(p, peer, now), WithFailure(r, peer, now), now)
  {
    assert Live(p, peer, now) == Live(r, peer, now);
    var p', r' := WithFailure(p, peer, now), WithFailure(r, peer, now);
    forall other: Peer ensures Live(p', other, now) == Live(r', other, now) {
      assert Live(p, other, now) == Live(r, other, now);
    }
  }

  lemma StepSimilar(a: Policy, b: Policy, p: Peers, r: Peers, op: Op)
    requires Similar(p, r, op.now)
    ensures Similar(Step(a, p, op), Step(b, r, op), op.now)
  {
    var now := op.now;
    match op
    case Query(_, _) =>
      PrunedSimilar(a.onQuery, b.onQuery, p, r, now);
    case Failure(peer, _) =>
      PrunedSimilar(a.onFailure, b.onFailure, p, r, now);
      NoteFailureSimilar(PruneIf(a.onFailure, p, now), PruneIf(b.onFailure, r, now), peer, now);
    case Success(peer, _) =>
      forall other: Peer ensures Live(p - {peer}, other, now) == Live(r - {peer}, other, now) {
        assert Live(p, other, now) == Live(r, other, now);
      }
  }

  lemma PrunedSimilar(a: bool, b: bool, p: Peers, r: Peers, now: int)
    requires Similar(p, r, now)
    ensures Similar(PruneIf(a, p, now), PruneIf(b, r, now), now)
  {
    PruneIsSimilar(a, p, now);
    PruneIsSimilar(b, r, now);
    SimilarTransitive(PruneIf(a, p, now), p, r, now);
    SimilarTransitive(PruneIf(a, p, now), r, PruneIf(b, r, now), now);
  }

  function LastTime(start: int, ops: seq<Op>): int {
    if ops == [] then start else ops[|ops| - 1].now
  }

  lemma {:induction false} RunsSimilar(a: Policy, b: Policy, p: Peers, r: Peers, start: int, ops: seq<Op>)
    requires Ordered(start, ops) && Similar(p, r, start)
    ensures Similar(After(a, p, ops), After(b, r, ops), LastTime(start, ops))
  {
    if ops != [] {
      var m := |ops| - 1;
      RunsSimilar(a, b, p, r, start, ops[..m]);
      SimilarLater(After(a, p, ops[..m]), After(b, r, ops[..m]), LastTime(start, ops[..m]), ops[m].now);
      StepSimilar(a, b, After(a, p, ops[..m]), After(b, r, ops[..m]), ops[m]);
    }
  }

  /**
   Pruning is unobservable: along any operations with non-decreasing time, trackers that prune
   at different moments, or never, answer every query alike.
   */
  lemma PruningUnobservable(a: Policy, b: Policy, p: Peers, r: Peers, start: int, ops: seq<Op>, i: nat)
    requires Ordered(start, ops) && Similar(p, r, start) && i < |ops|
    ensures Answer(a, p, ops, i) == Answer(b, r, ops, i)
  {
    RunsSimilar(a, b, p, r, start, ops[..i]);
    SimilarAnswers(After(a, p, ops[..i]), After(b, r, ops[..i]), LastTime(start, ops[..i]), ops[i].peer, ops[i].now);
  }

  lemma SimilarAnswers(p: Peers, r: Peers, now: int, peer: Peer, later: int)
    requires Similar(p, r, now) && now <= later
    ensures PeerBlocked(p, peer, later) == PeerBlocked(r, peer, later)
  {
    SimilarLater(p, r, now, later);
    assert Live(p, peer, later) == Live(r, peer, later);
  }

  // How long a ban lasts.

  /** An entry carries a ban time exactly when its count has reached the limit. */
  predicate BansMatchCounts(peers: Peers) {
    forall p <- peers :: peers[p].blockedUntil.Some? <==> peers[p].failures >= MAX_FAILURES_PER_WINDOW
  }

  lemma {:induction false} RunsKeepBansMatched(policy: Policy, peers: Peers, ops: seq<Op>)
    requires BansMatchCounts(peers)
    ensures BansMatchCounts(After(policy, peers, ops))
  {
    if ops != [] {
      RunsKeepBansMatched(policy, peers, ops[..|ops| - 1]);
    }
  }

  /** The operations that end a peer's ban: its success, and its own failure after the window that began at `first`. */
  predicate Lifts(op: Op, peer: Peer, first: int) {
    op.peer == peer && (op.Success? || (op.Failure? && op.now - first > 60))
  }

  /** What one operation does to a running ban, in any state. */
  lemma BanStandsIff(policy: Policy, peers: Peers, peer: Peer, op: Op)
    requires PeerBlocked(peers, peer, op.now)
    ensures PeerBlocked(Step(policy, peers, op), peer, op.now) <==> !Lifts(op, peer, peers[peer].firstFailure)
  {
  }

  /** Operation `a` is a failure after which the tracker counts enough for a ban. */
  predicate SetsBan(policy: Policy, peers: Peers, ops: seq<Op>, a: nat)
    requires a < |ops|
  {
    var after := After(policy, peers, ops[..a + 1]);
    ops[a].Failure? && ops[a].peer in after && after[ops[a].peer].failures >= MAX_FAILURES_PER_WINDOW
  }

  /** In a tracker that keeps everything, the banned entry stays, its ban only growing, until an operation lifts it. */
  lemma {:induction false} BannedEntryStays(peers: Peers, start: int, ops: seq<Op>, a: nat, i: nat)
    requires Ordered(start, ops) && a < i <= |ops| && SetsBan(KEEP_ALL, peers, ops, a)
    requires var first := After(KEEP_ALL, peers, ops[..a + 1])[ops[a].peer].firstFailure;
             forall j :: a < j < i ==> !Lifts(ops[j], ops[a].peer, first)
    ensures var peer, before, now := ops[a].peer, After(KEEP_ALL, peers, ops[..a + 1]), After(KEEP_ALL, peers, ops[..i]);
            && peer in now && now[peer].firstFailure == before[peer].firstFailure
            && now[peer].failures >= MAX_FAILURES_PER_WINDOW
            && now[peer].blockedUntil.Some? && now[peer].blockedUntil.value >= ops[a].now + FAILURE_BAN
  {
    assert ops[..i][..i - 1] == ops[..i - 1];
    if a + 1 < i {
      BannedEntryStays(peers, start, ops, a, i - 1);
      TimesOrdered(start, ops, a, i - 1);
    }
  }

  lemma {:induction false} TimesOrdered(start: int, ops: seq<Op>, i: nat, j: nat)
    requires Ordered(start, ops) && i <= j < |ops|
    ensures start <= ops[i].now <= ops[j].now
  {
    if i < j {
      TimesOrdered(start, ops, i, j - 1);
    }
  }

  /** A failure is in the tracker as soon as it is noted, whatever the tracker prunes. */
  lemma NotedAlike(policy: Policy, peers: Peers, start: int, ops: seq<Op>, a: nat)
    requires Ordered(start, ops) && a < |ops| && ops[a].Failure?
    ensures var p, r := After(policy, peers, ops[..a + 1]), After(KEEP_ALL, peers, ops[..a + 1]);
            ops[a].peer in p && ops[a].peer in r && p[ops[a].peer] == r[ops[a].peer]
  {
    var p, r := After(policy, peers, ops[..a]), After(KEEP_ALL, peers, ops[..a]);
    assert ops[..a + 1][..a] == ops[..a];
    RunsSimilar(policy, KEEP_ALL, peers, peers, start, ops[..a]);
    SimilarLater(p, r, LastTime(start, ops[..a]), ops[a].now);
    PrunedSimilar(policy.onFailure, false, p, r, ops[a].now);
    NoteFailureSimilar(PruneIf(policy.onFailure, p, ops[a].now), r, ops[a].peer, ops[a].now);
  }

  /**
   The ban over a run. After a failure at T that reaches the limit, every query of the peer before
   T + 120 answers "blocked" as long as no operation has lifted the ban, and right after the first
   one that does the peer has no ban at all.
   */
  lemma BanOverRun(policy: Policy, peers: Peers, start: int, ops: seq<Op>, a: nat, i: nat)
    requires Ordered(start, ops) && a < i < |ops| && ops[i].peer == ops[a].peer && SetsBan(policy, peers, ops, a)
    requires var first := After(policy, peers, ops[..a + 1])[ops[a].peer].firstFailure;
             forall j :: a < j < i ==> !Lifts(ops[j], ops[a].peer, first)
    ensures ops[i].Query? && ops[i].now < ops[a].now + 120 ==> Answer(policy, peers, ops, i)
    ensures Lifts(ops[i], ops[a].peer, After(policy, peers, ops[..a + 1])[ops[a].peer].firstFailure) ==>
              var after := After(policy, peers, ops[..i + 1]);
              ops[a].peer in after ==> after[ops[a].peer].blockedUntil == None
  {
    var peer := ops[a].peer;
    NotedAlike(policy, peers, start, ops, a);
    BannedEntryStays(peers, start, ops, a, i);
    PruningUnobservable(policy, KEEP_ALL, peers, peers, start, ops, i);
    assert ops[..i + 1][..i] == ops[..i];
    if ops[i].Failure? {
      NotedAlike(policy, peers, start, ops, i);
    }
  }

  /** The run that ends a Rust ban early: eight failures at once, which ban until 120, and a ninth one at 61. */
  function EarlyEnd(peer: Peer): seq<Op> {
    seq(8, _ => Failure(peer, 0)) + [Query(peer, 60), Failure(peer, 61), Query(peer, 62)]
  }

  function AtOnce(peer: Peer, n: u32): Peers {
    if n == 0 then map[] else map[peer := FailureState(0, n, if n == 8 then Some(120) else None)]
  }

  lemma OneMoreAtOnce(policy: Policy, peer: Peer, n: u32)
    requires n < 8
    ensures Step(policy, AtOnce(peer, n), Failure(peer, 0)) == AtOnce(peer, n + 1)
  {
    assert Prune(AtOnce(peer, n), 0) == AtOnce(peer, n);
  }

  lemma {:induction false} FailuresAtOnce(policy: Policy, peer: Peer, n: u32)
    requires n <= 8
    ensures After(policy, map[], seq(n, _ => Failure(peer, 0))) == AtOnce(peer, n)
  {
    if n > 0 {
      hide Step, AtOnce;
      var ops := seq(n, _ => Failure(peer, 0));
      FailuresAtOnce(policy, peer, n - 1);
      OneMoreAtOnce(policy, peer, n - 1);
      assert ops[..n - 1] == seq(n - 1, _ => Failure(peer, 0));
    }
  }

  /** The peer is blocked at 60 and, well before its ban would be over, no longer blocked at 62. */
  lemma RustBanEndsEarly(peer: Peer)
    ensures var ops := EarlyEnd(peer);
            && Ordered(0, ops) && SetsBan(RUST, map[], ops, 7)
            && ops[8].Query? && Answer(RUST, map[], ops, 8)
            && ops[10].Query? && ops[10].now < ops[7].now + FAILURE_BAN && !Answer(RUST, map[], ops, 10)
  {
    var ops := EarlyEnd(peer);
    FailuresAtOnce(RUST, peer, 8);
    assert ops[..8] == seq(8, _ => Failure(peer, 0));
    BanOverRun(RUST, map[], 0, ops, 7, 8);
    BanOverRun(RUST, map[], 0, ops, 7, 9);
  }

  /** The Rust tracker over a whole run. */
  method RunTracker(ops: seq<Op>) returns (answers: seq<bool>)
    ensures |answers| == |ops|
    ensures forall i :: 0 <= i < |ops| && ops[i].Query? ==> answers[i] == Answer(RUST, map[], ops, i)
  {
    var t := new FailureTracker();
    answers := [];
    for i := 0 to |ops|
      invariant |answers| == i && fresh(t) && t.peers == After(RUST, map[], ops[..i])
      invariant forall j :: 0 <= j < i && ops[j].Query? ==> answers[j] == Answer(RUST, map[], ops, j)
    {
      assert ops[..i + 1][..i] == ops[..i];
      var blocked := false;
      if ops[i].Query? {
        blocked := t.IsBlocked(ops[i].peer, ops[i].now);
      } else if ops[i].Failure? {
        t.NoteFailure(ops[i].peer, ops[i].now);
      } else {
        t.NoteSuccess(ops[i].peer);
      }
      answers := answers + [blocked];
    }
    assert ops[..|ops|] == ops;
  }
}
