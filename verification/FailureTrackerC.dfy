/** The C rate limiter: an array of entries, compacted and shifted in place. */
module FailureTrackersC {
  import opened Bytes
  import opened FailureTrackers

  /** An entry of the array; a ban time of zero means none. */
  datatype Entry = Entry(peer: Peer, firstFailure: int, failures: u32, blockedUntil: int)

  function StateOf(e: Entry): FailureState {
    FailureState(e.firstFailure, e.failures, if e.blockedUntil == 0 then None else Some(e.blockedUntil))
  }

  /** The array lists each entry of the map once. */
  ghost predicate Represents(s: seq<Entry>, peers: Peers) {
    && (forall i, j :: 0 <= i < j < |s| ==> s[i].peer != s[j].peer)
    && (forall i :: 0 <= i < |s| ==> s[i].peer in peers && peers[s[i].peer] == StateOf(s[i]))
    && (forall p <- peers :: exists i :: 0 <= i < |s| && s[i].peer == p)
  }

  predicate Keep(e: Entry, now: int) {
    (e.blockedUntil != 0 && e.blockedUntil > now) || now - e.firstFailure <= FAILURE_WINDOW
  }

  function Kept(s: seq<Entry>, now: int): (k: seq<Entry>)
    ensures |k| <= |s|
  {
    if s == [] then []
    else
      var m := |s| - 1;
      if Keep(s[m], now) then Kept(s[..m], now) + [s[m]] else Kept(s[..m], now)
  }

  /** The index in the longer sequence of the entry at `j` in the shorter one. */
  function Shifted(i: nat, j: nat): nat {
    if j < i then j else j + 1
  }

  lemma ShiftedAt(s: seq<Entry>, i: nat, j: nat)
    requires i < |s| && j < |s| - 1
    ensures (s[..i] + s[i + 1..])[j] == s[Shifted(i, j)]
  {
  }

  /** `t` is `s` without its entry at `i`. */
  predicate Omits(t: seq<Entry>, s: seq<Entry>, i: nat) {
    i < |s| && |t| == |s| - 1 && forall a :: 0 <= a < |t| ==> t[a] == s[Shifted(i, a)]
  }

  lemma OmittedEntries(t: seq<Entry>, s: seq<Entry>, peers: Peers, i: nat)
    requires Represents(s, peers) && Omits(t, s, i)
    ensures forall a :: 0 <= a < |t| ==> t[a].peer != s[i].peer && t[a].peer in peers && peers[t[a].peer] == StateOf(t[a])
    ensures forall p <- peers :: p != s[i].peer ==> exists j :: 0 <= j < |t| && t[j].peer == p
  {
    forall a | 0 <= a < |t| ensures t[a].peer != s[i].peer && t[a].peer in peers && peers[t[a].peer] == StateOf(t[a]) {
      var k := Shifted(i, a);
      assert t[a] == s[k] && k != i;
    }
    forall p | p in peers && p != s[i].peer ensures exists j :: 0 <= j < |t| && t[j].peer == p {
      var k :| 0 <= k < |s| && s[k].peer == p;
      var j := if k < i then k else k - 1;
      assert t[j] == s[Shifted(i, j)] == s[k];
    }
  }

  lemma OmittedDistinct(t: seq<Entry>, s: seq<Entry>, peers: Peers, i: nat)
    requires Represents(s, peers) && Omits(t, s, i)
    ensures forall a, b :: 0 <= a < b < |t| ==> t[a].peer != t[b].peer
  {
    forall a, b | 0 <= a < b < |t| ensures t[a].peer != t[b].peer {
      assert Shifted(i, a) < Shifted(i, b);
    }
  }

  lemma WithoutEntry(s: seq<Entry>, peers: Peers, i: nat)
    requires Represents(s, peers) && i < |s|
    ensures Represents(s[..i] + s[i + 1..], peers - {s[i].peer})
  {
    var t := s[..i] + s[i + 1..];
    forall a | 0 <= a < |t| ensures t[a] == s[Shifted(i, a)] {
      ShiftedAt(s, i, a);
    }
    OmittedEntries(t, s, peers, i);
    OmittedDistinct(t, s, peers, i);
    hide Omits;
  }

  lemma WithEntry(s: seq<Entry>, peers: Peers, e: Entry)
    requires Represents(s, peers) && e.peer !in peers
    ensures Represents(s + [e], peers[e.peer := StateOf(e)])
  {
    var t, peers' := s + [e], peers[e.peer := StateOf(e)];
    forall p <- peers' ensures exists j :: 0 <= j < |t| && t[j].peer == p {
      if p == e.peer {
        assert t[|s|].peer == p;
      } else {
        var k :| 0 <= k < |s| && s[k].peer == p;
        assert t[k].peer == p;
      }
    }
  }

  lemma ReplacedEntry(s: seq<Entry>, peers: Peers, i: nat, e: Entry)
    requires Represents(s, peers) && i < |s| && e.peer == s[i].peer
    ensures Represents(s[i := e], peers[e.peer := StateOf(e)])
  {
    var t, peers' := s[i := e], peers[e.peer := StateOf(e)];
    forall p <- peers' ensures exists j :: 0 <= j < |t| && t[j].peer == p {
      var k :| 0 <= k < |s| && s[k].peer == p;
      assert t[k].peer == p;
    }
  }

  lemma EntryAt(s: seq<Entry>, peers: Peers, i: nat)
    requires Represents(s, peers) && i < |s|
    ensures s[i].peer in peers && peers[s[i].peer] == StateOf(s[i])
  {
  }

  lemma NoEntries(peers: Peers)
    requires Represents([], peers)
    ensures peers == map[]
  {
  }

  lemma PruneNothing(now: int)
    ensures Prune(map[], now) == map[]
  {
  }

  lemma PruneWithout(peers: Peers, peer: Peer, now: int)
    requires peer in peers
    ensures var rest := Prune(peers - {peer}, now);
            && peer !in rest
            && Prune(peers, now) == if Stale(peers[peer], now) then rest else rest[peer := peers[peer]]
  {
  }

  /** Filtering the array prunes the map it represents. */
  lemma {:induction false} KeptRepresents(s: seq<Entry>, peers: Peers, now: int)
    requires Represents(s, peers) && now >= 0
    ensures Represents(Kept(s, now), Prune(peers, now))
  {
    hide Represents, Prune;
    if s == [] {
      NoEntries(peers);
      PruneNothing(now);
    } else {
      var m := |s| - 1;
      var e, rest := s[m], peers - {s[m].peer};
      EntryAt(s, peers, m);
      WithoutEntry(s, peers, m);
      assert s[..m] + s[m + 1..] == s[..m];
      KeptRepresents(s[..m], rest, now);
      PruneWithout(peers, e.peer, now);
      assert Stale(StateOf(e), now) <==> !Keep(e, now);
      if Keep(e, now) {
        WithEntry(Kept(s[..m], now), Prune(rest, now), e);
      }
    }
  }

  function FailedEntry(e: Entry, now: int): (r: Entry)
    requires now >= 0
    ensures r.peer == e.peer && StateOf(r) == AfterFailure(StateOf(e), now)
  {
    var s := if now - e.firstFailure > FAILURE_WINDOW then Entry(e.peer, now, 0, 0) else e;
    var n := if s.failures < 0xFFFF_FFFF then s.failures + 1 else s.failures;
    s.(failures := n, blockedUntil := if n >= MAX_FAILURES_PER_WINDOW then now + FAILURE_BAN else s.blockedUntil)
  }

  class CFailureTracker {
    var items: array<Entry>
    var n: nat
    ghost var peers: Peers

    ghost predicate Valid()
      reads this, items
    {
      n <= items.Length && Represents(items[..n], peers)
    }

    constructor ()
      ensures Valid() && fresh(items) && peers == map[]
    {
      items := new Entry[0];
      n := 0;
      peers := map[];
    }

    method Compact(now: int) returns (w: nat)
      requires n <= items.Length
      modifies items
      ensures w <= n && items[..w] == Kept(old(items[..n]), now)
    {
      w := 0;
      ghost var was := items[..n];
      for r := 0 to n
        invariant w <= r
        invariant items[..w] == Kept(was[..r], now)
        invariant forall k :: r <= k < n ==> items[k] == was[k]
      {
        assert was[..r + 1][..r] == was[..r];
        ghost var before := items[..w];
        var keep := (items[r].blockedUntil != 0 && items[r].blockedUntil > now) || now - items[r].firstFailure <= FAILURE_WINDOW;
        assert Kept(was[..r + 1], now) == if keep then before + [was[r]] else before;
        if keep {
          if w != r {
            items[w] := items[r];
          }
          w := w + 1;
        }
      }
      assert was[..n] == was;
    }

    method Prune(now: int)
      requires Valid() && now >= 0
      modifies this, items
      ensures Valid() && items == old(items)
      ensures peers == FailureTrackers.Prune(old(peers), now)
      ensures items[..n] == Kept(old(items[..n]), now)
    {
      KeptRepresents(items[..n], peers, now);
      n := Compact(now);
      peers := FailureTrackers.Prune(peers, now);
    }

    method Find(peer: Peer) returns (idx: int)
      requires Valid()
      ensures -1 <= idx < n
      ensures idx == -1 ==> peer !in peers
      ensures idx >= 0 ==> items[idx].peer == peer && peer in peers && peers[peer] == StateOf(items[idx])
    {
      for i := 0 to n
        invariant forall j :: 0 <= j < i ==> items[j].peer != peer
      {
        if items[i].peer == peer {
          assert items[..n][i].peer == peer;
          return i;
        }
      }
      assert forall j :: 0 <= j < n ==> items[..n][j].peer != peer;
      return -1;
    }

    method IsBlocked(peer: Peer, now: int) returns (blocked: bool)
      requires Valid() && now >= 0
      modifies this, items
      ensures Valid() && items == old(items)
      ensures peers == FailureTrackers.Prune(old(peers), now)
      ensures blocked <==> PeerBlocked(old(peers), peer, now)
    {
      Prune(now);
      var idx := Find(peer);
      if idx < 0 {
        return false;
      }
      return items[idx].blockedUntil != 0 && items[idx].blockedUntil > now;
    }

    /** The tail of the array moves down over the removed entry. */
    method NoteSuccess(peer: Peer)
      requires Valid()
      modifies this, items
      ensures Valid() && items == old(items)
      ensures peers == old(peers) - {peer}
    {
      hide Represents;
      var idx := Find(peer);
      if idx < 0 {
        return;
      }
      ghost var was := items[..n];
      MoveDown(idx);
      WithoutEntry(was, peers, idx);
      n := n - 1;
      assert items[..n] == was[..idx] + was[idx + 1..];
      peers := peers - {peer};
    }

    method MoveDown(idx: nat)
      requires idx < n <= items.Length
      modifies items
      ensures items[..n - 1] == old(items[..idx]) + old(items[idx + 1..n])
    {
      ghost var was := items[..n];
      for i := idx + 1 to n
        invariant forall k :: 0 <= k < i - 1 ==> items[k] == was[Shifted(idx, k)]
        invariant forall k :: i <= k < n ==> items[k] == was[k]
      {
        items[i - 1] := items[i];
      }
      ghost var moved := was[..idx] + was[idx + 1..];
      forall k | 0 <= k < n - 1 ensures items[k] == moved[k] {
        ShiftedAt(was, idx, k);
      }
      assert items[..n - 1] == moved;
    }

    method Grown() returns (tmp: array<Entry>)
      requires n == items.Length
      ensures fresh(tmp) && tmp.Length > n && tmp[..n] == items[..n]
    {
      var cap := if items.Length != 0 then items.Length * 2 else 64;
      tmp := new Entry[cap](_ => Entry("", 0, 0, 0));
      for i := 0 to n
        invariant tmp[..i] == items[..i]
      {
        tmp[i] := items[i];
      }
    }

    /** Appends an entry without failures for a peer that has none, unless the full array cannot grow. */
    method AddFresh(peer: Peer, now: int, memory: bool) returns (idx: int)
      requires Valid() && peer !in peers && now >= 0
      modifies this, items
      ensures Valid() && (items == old(items) || fresh(items))
      ensures -1 <= idx < n
      ensures idx == -1 ==> !memory && peers == old(peers)
      ensures idx >= 0 ==> items[idx] == Entry(peer, now, 0, 0) && peers == old(peers)[peer := FreshState(now)]
    {
      if n == items.Length {
        if !memory {
          return -1;
        }
        items := Grown();
      }
      idx := n;
      ghost var was := items[..n];
      assert was == old(items[..n]);
      items[n] := Entry(peer, now, 0, 0);
      WithEntry(was, peers, items[n]);
      n := n + 1;
      assert items[..n] == was + [items[idx]];
      peers := peers[peer := FreshState(now)];
    }

    /** 0, or -1 when a new entry was needed and memory ran out: then only the pruning has happened. */
    method NoteFailure(peer: Peer, now: int, memory: bool) returns (rc: int)
      requires Valid() && now >= 0
      modifies this, items
      ensures Valid() && (items == old(items) || fresh(items))
      ensures rc == 0 || rc == -1
      ensures rc == 0 ==> peers == WithFailure(FailureTrackers.Prune(old(peers), now), peer, now)
      ensures rc == -1 ==> !memory && peer !in FailureTrackers.Prune(old(peers), now) && peers == FailureTrackers.Prune(old(peers), now)
    {
      hide Represents, FailureTrackers.Prune, Kept;
      Prune(now);
      var idx := Find(peer);
      if idx < 0 {
        idx := AddFresh(peer, now, memory);
        if idx < 0 {
          return -1;
        }
      }
      var st := items[idx];
      if now - st.firstFailure > FAILURE_WINDOW {
        st := Entry(peer, now, 0, 0);
      }
      if st.failures < 0xFFFF_FFFF {
        st := st.(failures := st.failures + 1);
      }
      if st.failures >= MAX_FAILURES_PER_WINDOW {
        st := st.(blockedUntil := now + FAILURE_BAN);
      }
      assert st == FailedEntry(items[idx], now);
      Store(idx, st);
      return 0;
    }

    method Store(idx: nat, e: Entry)
      requires Valid() && idx < n && e.peer == items[idx].peer
      modifies this, items
      ensures Valid() && items == old(items)
      ensures peers == old(peers)[e.peer := StateOf(e)]
    {
      ghost var was := items[..n];
      assert was[idx] == items[idx];
      items[idx] := e;
      ReplacedEntry(was, peers, idx, e);
      assert items[..n] == was[idx := e];
      peers := peers[e.peer := StateOf(e)];
    }
  }

  method Perform(t: CFailureTracker, op: Op) returns (blocked: bool)
    requires t.Valid() && op.now >= 0
    modifies t, t.items
    ensures t.Valid() && (t.items == old(t.items) || fresh(t.items))
    ensures t.peers == Step(C, old(t.peers), op)
    ensures op.Query? ==> (blocked <==> PeerBlocked(old(t.peers), op.peer, op.now))
  {
    hide Represents, FailureTrackers.Prune, PeerBlocked, WithFailure;
    blocked := false;
    if op.Query? {
      blocked := t.IsBlocked(op.peer, op.now);
    } else if op.Failure? {
      var _ := t.NoteFailure(op.peer, op.now, true);
    } else {
      t.NoteSuccess(op.peer);
    }
  }

  /** The C tracker over a whole run answers every query as the Rust tracker does. */
  method RunTrackerC(ops: seq<Op>) returns (answers: seq<bool>)
    requires Ordered(0, ops)
    ensures |answers| == |ops|
    ensures forall i :: 0 <= i < |ops| && ops[i].Query? ==> answers[i] == Answer(RUST, map[], ops, i)
  {
    hide Represents, PeerBlocked, Step;
    var t := new CFailureTracker();
    answers := [];
    for i := 0 to |ops|
      invariant |answers| == i && fresh(t) && fresh(t.items) && t.Valid() && t.peers == After(C, map[], ops[..i])
      invariant forall j :: 0 <= j < i && ops[j].Query? ==> answers[j] == Answer(RUST, map[], ops, j)
    {
      assert ops[..i + 1][..i] == ops[..i];
      PruningUnobservable(C, RUST, map[], map[], 0, ops, i);
      var blocked := Perform(t, ops[i]);
      answers := answers + [blocked];
    }
    assert ops[..|ops|] == ops;
  }
}
