/**
 The C accept loop, which asks the rate limiter before serving a connection and records the
 outcome after it. What a ban means, and how many failures a peer can make the server record.
 */
module Admission {
  import opened Bytes
  import opened FailureTrackers
  import opened FailureTrackersC

  /** A connection: when it is accepted, when its handler returns, and whether it succeeds if served. */
  datatype Conn = Conn(peer: Peer, began: int, ended: int, ok: bool)

  /** The loop serves one connection at a time and the clock never runs backwards. */
  predicate Sequential(start: int, conns: seq<Conn>) {
    forall i :: 0 <= i < |conns| ==>
      start <= conns[i].began <= conns[i].ended && (i > 0 ==> conns[i - 1].ended <= conns[i].began)
  }

  function Serve(policy: Policy, peers: Peers, c: Conn): Peers {
    var seen := Step(policy, peers, Query(c.peer, c.began));
    if PeerBlocked(peers, c.peer, c.began) then seen
    else Step(policy, seen, if c.ok then Success(c.peer, c.ended) else Failure(c.peer, c.ended))
  }

  function Served(policy: Policy, peers: Peers, conns: seq<Conn>): Peers {
    if conns == [] then peers else Serve(policy, Served(policy, peers, conns[..|conns| - 1]), conns[|conns| - 1])
  }

  predicate Admitted(policy: Policy, peers: Peers, conns: seq<Conn>, i: nat)
    requires i < |conns|
  {
    !PeerBlocked(Served(policy, peers, conns[..i]), conns[i].peer, conns[i].began)
  }

  /** One pass of the accept loop with bench mode off. */
  method ServeConnection(failures: CFailureTracker, c: Conn) returns (blocked: bool)
    requires failures.Valid() && 0 <= c.began <= c.ended
    modifies failures, failures.items
    ensures failures.Valid() && (failures.items == old(failures.items) || fresh(failures.items))
    ensures failures.peers == Serve(C, old(failures.peers), c)
    ensures blocked <==> PeerBlocked(old(failures.peers), c.peer, c.began)
  {
    hide PeerBlocked, Prune, Represents, WithFailure;
    blocked := failures.IsBlocked(c.peer, c.began);
    if !blocked {
      if c.ok {
        failures.NoteSuccess(c.peer);
      } else {
        var _ := failures.NoteFailure(c.peer, c.ended, true);
      }
    }
  }

  method AcceptLoop(conns: seq<Conn>) returns (admitted: seq<bool>)
    requires Sequential(0, conns)
    ensures |admitted| == |conns|
    ensures forall i :: 0 <= i < |conns| ==> admitted[i] == Admitted(C, map[], conns, i)
  {
    hide Serve, PeerBlocked, Represents;
    var failures := new CFailureTracker();
    admitted := [];
    for i := 0 to |conns|
      invariant |admitted| == i && fresh(failures) && fresh(failures.items) && failures.Valid()
      invariant failures.peers == Served(C, map[], conns[..i])
      invariant forall j :: 0 <= j < i ==> admitted[j] == Admitted(C, map[], conns, j)
    {
      assert conns[..i + 1][..i] == conns[..i];
      var blocked := ServeConnection(failures, conns[i]);
      admitted := admitted + [!blocked];
    }
    assert conns[..|conns|] == conns;
  }

  // When entries are pruned does not matter, so the loop can be studied with a tracker that keeps everything.

  function LastEnded(start: int, conns: seq<Conn>): int {
    if conns == [] then start else conns[|conns| - 1].ended
  }

  lemma ServeSimilar(a: Policy, b: Policy, p: Peers, r: Peers, c: Conn)
    requires Similar(p, r, c.began) && c.began <= c.ended
    ensures Similar(Serve(a, p, c), Serve(b, r, c), c.ended)
  {
    hide Step, PeerBlocked, Similar;
    var asked := Query(c.peer, c.began);
    var p', r' := Step(a, p, asked), Step(b, r, asked);
    SimilarAnswers(p, r, c.began, c.peer, c.began);
    StepSimilar(a, b, p, r, asked);
    SimilarLater(p', r', c.began, c.ended);
    StepSimilar(a, b, p', r', if c.ok then Success(c.peer, c.ended) else Failure(c.peer, c.ended));
  }

  lemma {:induction false} ServedSimilar(a: Policy, b: Policy, p: Peers, r: Peers, start: int, conns: seq<Conn>)
    requires Sequential(start, conns) && Similar(p, r, start)
    ensures Similar(Served(a, p, conns), Served(b, r, conns), LastEnded(start, conns))
  {
    if conns != [] {
      hide Serve, Similar;
      var m := |conns| - 1;
      ServedSimilar(a, b, p, r, start, conns[..m]);
      SimilarLater(Served(a, p, conns[..m]), Served(b, r, conns[..m]), LastEnded(start, conns[..m]), conns[m].began);
      ServeSimilar(a, b, Served(a, p, conns[..m]), Served(b, r, conns[..m]), conns[m]);
    }
  }

  // One peer's entry, followed through the connections of everybody.

  function OwnStep(st: Option<FailureState>, c: Conn): Option<FailureState> {
    if st.Some? && BlockedAt(st.value, c.began) then st
    else if c.ok then None
    else Some(AfterFailure(if st.Some? then st.value else FreshState(c.ended), c.ended))
  }

  /** The entry of a peer that starts with `first`, if nothing were ever pruned. */
  function Track(first: Option<FailureState>, peer: Peer, conns: seq<Conn>): Option<FailureState> {
    if conns == [] then first
    else
      var st, c := Track(first, peer, conns[..|conns| - 1]), conns[|conns| - 1];
      if c.peer == peer then OwnStep(st, c) else st
  }

  predicate Banned(st: Option<FailureState>, now: int) {
    st.Some? && BlockedAt(st.value, now)
  }

  function EntryOf(peers: Peers, peer: Peer): Option<FailureState> {
    if peer in peers then Some(peers[peer]) else None
  }

  lemma {:induction false} TrackIsEntry(peers: Peers, peer: Peer, conns: seq<Conn>)
    ensures EntryOf(Served(KEEP_ALL, peers, conns), peer) == Track(EntryOf(peers, peer), peer, conns)
  {
    if conns != [] {
      TrackIsEntry(peers, peer, conns[..|conns| - 1]);
    }
  }

  /** The tracker's entry and the track are the same until pruning would delete them. */
  lemma TrackIsLive(policy: Policy, peers: Peers, start: int, peer: Peer, conns: seq<Conn>)
    requires Sequential(start, conns)
    ensures var served, st := Served(policy, peers, conns), Track(Live(peers, peer, start), peer, conns);
            forall now :: LastEnded(start, conns) <= now ==>
              Live(served, peer, now) == (if st.Some? && !Stale(st.value, now) then st else None)
              && (PeerBlocked(served, peer, now) <==> Banned(st, now))
  {
    var kept := if Live(peers, peer, start) == None then peers - {peer} else peers;
    assert Similar(peers, kept, start) by {
      forall p: Peer ensures Live(peers, p, start) == Live(kept, p, start) {
      }
    }
    ServedSimilar(policy, KEEP_ALL, peers, kept, start, conns);
    TrackIsEntry(kept, peer, conns);
    var served, r := Served(policy, peers, conns), Served(KEEP_ALL, kept, conns);
    forall now | LastEnded(start, conns) <= now
      ensures Live(served, peer, now) == Live(r, peer, now) && PeerBlocked(served, peer, now) == PeerBlocked(r, peer, now)
    {
      SimilarLater(served, r, LastEnded(start, conns), now);
      SimilarAnswers(served, r, LastEnded(start, conns), peer, now);
    }
  }

  /** Admission is decided by the peer's own track alone. */
  lemma AdmittedIffNotBanned(policy: Policy, peers: Peers, start: int, peer: Peer, conns: seq<Conn>, i: nat)
    requires Sequential(start, conns) && i < |conns| && conns[i].peer == peer
    ensures Admitted(policy, peers, conns, i) <==> !Banned(Track(Live(peers, peer, start), peer, conns[..i]), conns[i].began)
  {
    TrackIsLive(policy, peers, start, peer, conns[..i]);
  }

  function Own(peer: Peer, conns: seq<Conn>): (own: seq<Conn>)
    ensures forall c <- own :: c.peer == peer
  {
    if conns == [] then []
    else
      var rest := Own(peer, conns[..|conns| - 1]);
      if conns[|conns| - 1].peer == peer then rest + [conns[|conns| - 1]] else rest
  }

  /** Other peers' connections leave a peer's track alone. */
  lemma {:induction false} OthersDoNotMatter(first: Option<FailureState>, peer: Peer, conns: seq<Conn>)
    ensures Track(first, peer, conns) == Track(first, peer, Own(peer, conns))
  {
    if conns != [] {
      var m := |conns| - 1;
      OthersDoNotMatter(first, peer, conns[..m]);
      var rest := Own(peer, conns[..m]);
      assert (rest + [conns[m]])[..|rest|] == rest;
    }
  }

  lemma SequentialSnoc(start: int, conns: seq<Conn>, c: Conn)
    requires Sequential(start, conns) && start <= LastEnded(start, conns) <= c.began <= c.ended
    ensures Sequential(start, conns + [c]) && LastEnded(start, conns + [c]) == c.ended
  {
    var t := conns + [c];
    forall i | 0 <= i < |t| ensures start <= t[i].began <= t[i].ended && (i > 0 ==> t[i - 1].ended <= t[i].began) {
      if i < |conns| {
        assert t[i] == conns[i];
      }
    }
  }

  lemma {:induction false} OwnSequential(peer: Peer, start: int, conns: seq<Conn>)
    requires Sequential(start, conns)
    ensures Sequential(start, Own(peer, conns))
    ensures start <= LastEnded(start, Own(peer, conns)) <= LastEnded(start, conns)
  {
    if conns != [] {
      var m := |conns| - 1;
      OwnSequential(peer, start, conns[..m]);
      assert LastEnded(start, conns[..m]) <= conns[m].began <= conns[m].ended;
      SequentialSnoc(start, Own(peer, conns[..m]), conns[m]);
      hide Sequential;
    }
  }

  // The ban.

  /** Up to eight failures of one peer, the last within the window of the first. */
  predicate FailingWindow(own: seq<Conn>) {
    && 1 <= |own| <= MAX_FAILURES_PER_WINDOW
    && (forall c <- own :: !c.ok)
    && own[|own| - 1].ended - own[0].ended <= FAILURE_WINDOW
  }

  lemma EarlierInWindow(start: int, own: seq<Conn>)
    requires Sequential(start, own) && FailingWindow(own) && |own| > 1
    ensures var m := |own| - 1;
            Sequential(start, own[..m]) && FailingWindow(own[..m]) && own[..m][0] == own[0]
  {
    var m := |own| - 1;
    assert own[..m][m - 1].ended <= own[m].began;
    assert forall c <- own[..m] :: c in own;
  }

  /** The entry after some of a window's failures. */
  function WindowState(first: int, count: u32, last: int): FailureState {
    FailureState(first, count, if count == MAX_FAILURES_PER_WINDOW then Some(last + FAILURE_BAN) else None)
  }

  lemma OneMoreFailure(first: int, count: u32, last: int, c: Conn)
    requires 1 <= count < MAX_FAILURES_PER_WINDOW && !c.ok && c.ended - first <= FAILURE_WINDOW
    ensures OwnStep(Some(WindowState(first, count, last)), c) == Some(WindowState(first, count + 1, c.ended))
  {
  }

  lemma {:induction false} TrackInWindow(peer: Peer, start: int, own: seq<Conn>)
    requires Sequential(start, own) && FailingWindow(own) && forall c <- own :: c.peer == peer
    ensures Track(None, peer, own) == Some(WindowState(own[0].ended, |own|, own[|own| - 1].ended))
  {
    var m := |own| - 1;
    assert own[m] in own;
    if m == 0 {
      assert Track(None, peer, own[..0]) == None;
    } else {
      EarlierInWindow(start, own);
      hide Sequential, OwnStep, WindowState;
      assert forall c <- own[..m] :: c in own;
      TrackInWindow(peer, start, own[..m]);
      assert Track(None, peer, own) == OwnStep(Track(None, peer, own[..m]), own[m]);
      OneMoreFailure(own[0].ended, m, own[m - 1].ended, own[m]);
    }
  }

  /** While the ban lasts the peer's entry does not change. */
  lemma {:induction false} BanLasts(first: Option<FailureState>, peer: Peer, conns: seq<Conn>, a: nat, i: nat)
    requires a <= i <= |conns|
    requires Track(first, peer, conns[..a]).Some? && Track(first, peer, conns[..a]).value.blockedUntil.Some?
    requires forall j :: a <= j < i && conns[j].peer == peer ==> conns[j].began < Track(first, peer, conns[..a]).value.blockedUntil.value
    ensures Track(first, peer, conns[..i]) == Track(first, peer, conns[..a])
  {
    if a < i {
      BanLasts(first, peer, conns, a, i - 1);
      assert conns[..i][..i - 1] == conns[..i - 1];
    }
  }

  lemma {:induction false} InOrder(start: int, conns: seq<Conn>, i: nat, j: nat)
    requires Sequential(start, conns) && i < j < |conns|
    ensures conns[i].ended <= conns[j].began
  {
    if i + 1 < j {
      InOrder(start, conns, i, j - 1);
    }
  }

  /** Connection `a` was served and failed, and the tracker then counts enough failures for a ban. */
  predicate SetsBan(policy: Policy, peers: Peers, conns: seq<Conn>, a: nat)
    requires a < |conns|
  {
    var served := Served(policy, peers, conns[..a + 1]);
    && Admitted(policy, peers, conns, a) && !conns[a].ok
    && conns[a].peer in served && served[conns[a].peer].failures >= MAX_FAILURES_PER_WINDOW
  }

  /** A failure is in the tracker as soon as it is noted, and as the track has it. */
  lemma NotedFailure(policy: Policy, peers: Peers, start: int, conns: seq<Conn>, a: nat)
    requires Sequential(start, conns) && a < |conns| && Admitted(policy, peers, conns, a) && !conns[a].ok
    ensures var peer := conns[a].peer;
            EntryOf(Served(policy, peers, conns[..a + 1]), peer) == Track(Live(peers, peer, start), peer, conns[..a + 1])
  {
    var peer, now := conns[a].peer, conns[a].ended;
    assert conns[..a + 1][..a] == conns[..a];
    TrackIsLive(policy, peers, start, peer, conns[..a + 1]);
    AdmittedIffNotBanned(policy, peers, start, peer, conns, a);
    var served := Served(policy, peers, conns[..a + 1]);
    assert peer in served && !Stale(served[peer], now) && Live(served, peer, now) == EntryOf(served, peer);
  }

  /**
   The exact ban, in every run from every state of the tracker. Once a failure of a peer that
   reaches the limit is recorded at T, each of the peer's connections before T + 120 is turned
   away whatever other peers do, and its first one from then on is served.
   */
  lemma BanIsExact(policy: Policy, peers: Peers, start: int, conns: seq<Conn>, a: nat, i: nat)
    requires Sequential(start, conns) && a < i < |conns| && conns[i].peer == conns[a].peer
    requires SetsBan(policy, peers, conns, a)
    ensures conns[i].began < conns[a].ended + 120 ==> !Admitted(policy, peers, conns, i)
    ensures (&& conns[i].began >= conns[a].ended + 120
             && forall j :: a < j < i && conns[j].peer == conns[a].peer ==> conns[j].began < conns[a].ended + 120)
            ==> Admitted(policy, peers, conns, i)
  {
    var peer, until := conns[a].peer, conns[a].ended + 120;
    var first := Live(peers, peer, start);
    NotedFailure(policy, peers, start, conns, a);
    AdmittedIffNotBanned(policy, peers, start, peer, conns, a);
    assert conns[..a + 1][..a] == conns[..a];
    assert Track(first, peer, conns[..a + 1]).value.blockedUntil == Some(until);
    AdmittedIffNotBanned(policy, peers, start, peer, conns, i);
    if conns[i].began < until {
      forall j | a < j < i ensures conns[j].began < until {
        InOrder(start, conns, j, i);
      }
    }
    if forall j :: a < j < i && conns[j].peer == peer ==> conns[j].began < until {
      BanLasts(first, peer, conns, a + 1, i);
    }
  }

  /** In particular the eighth failure sets the ban when a peer without a live entry fails eight times within a window. */
  lemma EighthFailureSetsBan(policy: Policy, peers: Peers, start: int, conns: seq<Conn>, a: nat)
    requires Sequential(start, conns) && a < |conns| && Live(peers, conns[a].peer, start) == None
    requires var own := Own(conns[a].peer, conns[..a + 1]); |own| == 8 && own[7].ended - own[0].ended <= 60 && forall c <- own :: !c.ok
    ensures SetsBan(policy, peers, conns, a)
  {
    var peer := conns[a].peer;
    var own, before := Own(peer, conns[..a + 1]), Own(peer, conns[..a]);
    assert conns[..a + 1][..a] == conns[..a];
    assert own == before + [conns[a]] && own[..|before|] == before && conns[a] in own;
    OwnSequential(peer, start, conns[..a + 1]);
    EarlierInWindow(start, own);
    TrackInWindow(peer, start, before);
    TrackInWindow(peer, start, own);
    OthersDoNotMatter(None, peer, conns[..a]);
    OthersDoNotMatter(None, peer, conns[..a + 1]);
    AdmittedIffNotBanned(policy, peers, start, peer, conns, a);
    NotedFailure(policy, peers, start, conns, a);
  }

  // Who is never banned.

  lemma {:induction false} FewFailures(peer: Peer, conns: seq<Conn>)
    requires |Own(peer, conns)| < 8
    ensures var st := Track(None, peer, conns);
            st.Some? ==> st.value.failures <= |Own(peer, conns)| && st.value.blockedUntil == None
  {
    if conns != [] {
      FewFailures(peer, conns[..|conns| - 1]);
    }
  }

  /** A peer without a live entry is served as long as it has had fewer than eight connections, whatever became of them. */
  lemma FewConnectionsAdmitted(policy: Policy, peers: Peers, start: int, conns: seq<Conn>, i: nat)
    requires Sequential(start, conns) && i < |conns| && Live(peers, conns[i].peer, start) == None
    requires |Own(conns[i].peer, conns[..i])| < 8
    ensures Admitted(policy, peers, conns, i)
  {
    FewFailures(conns[i].peer, conns[..i]);
    AdmittedIffNotBanned(policy, peers, start, conns[i].peer, conns, i);
  }

  lemma {:induction false} ServedInParts(policy: Policy, peers: Peers, first: seq<Conn>, second: seq<Conn>)
    ensures Served(policy, peers, first + second) == Served(policy, Served(policy, peers, first), second)
  {
    hide Serve;
    if second == [] {
      assert first + second == first;
    } else {
      var m := |second| - 1;
      ServedInParts(policy, peers, first, second[..m]);
      assert (first + second)[..|first + second| - 1] == first + second[..m];
    }
  }

  /** A success wipes the slate: after it a peer is served again for its next eight connections at least. */
  lemma SuccessClears(policy: Policy, peers: Peers, start: int, conns: seq<Conn>, a: nat, i: nat)
    requires Sequential(start, conns) && a < i < |conns| && conns[i].peer == conns[a].peer
    requires Admitted(policy, peers, conns, a) && conns[a].ok
    requires |Own(conns[a].peer, conns[a + 1..i])| < 8
    ensures Admitted(policy, peers, conns, i)
  {
    var rest, j := conns[a + 1..], i - a - 1;
    var after := Served(policy, peers, conns[..a + 1]);
    assert conns[..a + 1][..a] == conns[..a];
    assert conns[a].peer !in after;
    forall k | 0 <= k < |rest| ensures conns[a].ended <= rest[k].began <= rest[k].ended && (k > 0 ==> rest[k - 1].ended <= rest[k].began) {
      InOrder(start, conns, a, a + 1 + k);
    }
    assert rest[..j] == conns[a + 1..i];
    FewConnectionsAdmitted(policy, after, conns[a].ended, rest, j);
    assert conns[..i] == conns[..a + 1] + rest[..j];
    ServedInParts(policy, peers, conns[..a + 1], rest[..j]);
  }

  // The rate.

  /** The failures of a peer that the loop records with a time in a span. */
  function FailuresIn(policy: Policy, peer: Peer, conns: seq<Conn>, lo: int, hi: int): nat {
    if conns == [] then 0
    else
      var m := |conns| - 1;
      FailuresIn(policy, peer, conns[..m], lo, hi)
      + if conns[m].peer == peer && !conns[m].ok && lo <= conns[m].ended <= hi && Admitted(policy, map[], conns, m) then 1 else 0
  }

  /** Windows start at least 61 seconds apart and hold at most eight failures each. */
  predicate Bounded(st: Option<FailureState>, n: nat, lo: int, last: int) {
    match st
    case None => n == 0
    case Some(s) =>
      && s.firstFailure <= last && 1 <= s.failures <= MAX_FAILURES_PER_WINDOW
      && (s.blockedUntil.Some? <==> s.failures == MAX_FAILURES_PER_WINDOW)
      && (s.blockedUntil.Some? ==> s.blockedUntil.value >= s.firstFailure + FAILURE_BAN)
      && (n > 0 ==>
            && s.firstFailure >= lo - FAILURE_WINDOW
            && n <= 8 * ((s.firstFailure - (lo - FAILURE_WINDOW)) / 61) + s.failures)
  }

  lemma LaterWindow(x: int, y: int, n: int, k: int)
    requires 0 <= x && x + 61 <= y && n <= 8 * (x / 61) + k && k <= 8
    ensures n + 1 <= 8 * (y / 61) + 1
  {
    assert y / 61 >= (x + 61) / 61 == x / 61 + 1;
  }

  lemma OwnStepBounded(st: Option<FailureState>, c: Conn, n: nat, lo: int, last: int)
    requires Bounded(st, n, lo, last) && last <= c.began <= c.ended && !c.ok
    requires n > 0 ==> lo <= last
    ensures !Banned(st, c.began) ==> Bounded(OwnStep(st, c), n + (if lo <= c.ended then 1 else 0), lo, c.ended)
    ensures Banned(st, c.began) ==> Bounded(OwnStep(st, c), n, lo, c.ended)
  {
    if !Banned(st, c.began) && st.Some? && n > 0 && c.ended - st.value.firstFailure > FAILURE_WINDOW {
      var base := lo - FAILURE_WINDOW;
      LaterWindow(st.value.firstFailure - base, c.ended - base, n, st.value.failures);
    }
  }

  lemma {:induction false} RunBounded(policy: Policy, peer: Peer, start: int, conns: seq<Conn>, lo: int, hi: int)
    requires Sequential(start, conns) && forall c <- conns :: c.peer == peer ==> !c.ok
    requires LastEnded(start, conns) <= hi
    ensures Bounded(Track(None, peer, conns), FailuresIn(policy, peer, conns, lo, hi), lo, LastEnded(start, conns))
    ensures FailuresIn(policy, peer, conns, lo, hi) > 0 ==> lo <= LastEnded(start, conns)
  {
    if conns != [] {
      hide Bounded, Banned, OwnStep, Admitted;
      var m := |conns| - 1;
      assert forall c <- conns[..m] :: c in conns;
      assert conns[m] in conns;
      RunBounded(policy, peer, start, conns[..m], lo, hi);
      var n := FailuresIn(policy, peer, conns[..m], lo, hi);
      if conns[m].peer == peer {
        AdmittedIffNotBanned(policy, map[], start, peer, conns, m);
        OwnStepBounded(Track(None, peer, conns[..m]), conns[m], n, lo, LastEnded(start, conns[..m]));
      } else {
        BoundedLater(Track(None, peer, conns[..m]), n, lo, LastEnded(start, conns[..m]), LastEnded(start, conns));
      }
    } else {
      assert Bounded(None, 0, lo, start);
    }
  }

  lemma BoundedLater(st: Option<FailureState>, n: nat, lo: int, last: int, later: int)
    requires Bounded(st, n, lo, last) && last <= later
    ensures Bounded(st, n, lo, later)
  {
  }

  /** A peer that never succeeds gets at most eight failures recorded per 61 seconds of a span lengthened by a window, plus eight. */
  lemma {:induction false} FailureRate(policy: Policy, peer: Peer, start: int, conns: seq<Conn>, lo: int, length: nat)
    requires Sequential(start, conns) && forall c <- conns :: c.peer == peer ==> !c.ok
    ensures FailuresIn(policy, peer, conns, lo, lo + length) <= 8 * ((length + 60) / 61 + 1)
  {
    var hi := lo + length;
    if LastEnded(start, conns) <= hi {
      RunBounded(policy, peer, start, conns, lo, hi);
    } else if conns != [] {
      assert forall c <- conns[..|conns| - 1] :: c in conns;
      FailureRate(policy, peer, start, conns[..|conns| - 1], lo, length);
    }
  }
}
