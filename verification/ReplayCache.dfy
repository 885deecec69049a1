/**
 The replay cache: two generations of 64-byte keys, of which the older is dropped when the
 newer one is full. The window of a key is exact and counted in accepted keys.
 */
module Replay {
  import opened Bytes

  type Key = s: seq<byte> | |s| == 64 witness seq(64, _ => 0)

  const REPLAY_GEN_MAX: nat := 25_000
  const REPLAY_PERSIST_EVERY_INSERTS: nat := 64
  const REPLAY_PERSIST_INTERVAL: nat := 2 // seconds

  datatype Generations = Generations(current: set<Key>, previous: set<Key>)

  const EMPTY := Generations({}, {})

  predicate Remembered(g: Generations, k: Key) {
    k in g.current || k in g.previous
  }

  predicate ValidGenerations(m: nat, g: Generations) {
    m >= 1 && |g.current| <= m && |g.previous| <= m && g.current !! g.previous
  }

  /** One presentation of a key: nothing happens to a remembered key, and a full generation rotates first. */
  function Insert(m: nat, g: Generations, k: Key): Generations {
    if Remembered(g, k) then g
    else if |g.current| >= m then Generations({k}, g.current)
    else Generations(g.current + {k}, g.previous)
  }

  function Run(m: nat, g: Generations, ks: seq<Key>): Generations
    decreases |ks|
  {
    if ks == [] then g else Run(m, Insert(m, g, ks[0]), ks[1..])
  }

  /** The keys of a run that were accepted, in order. */
  function Accepted(m: nat, g: Generations, ks: seq<Key>): seq<Key>
    decreases |ks|
  {
    if ks == [] then []
    else
      var rest := Accepted(m, Insert(m, g, ks[0]), ks[1..]);
      if Remembered(g, ks[0]) then rest else [ks[0]] + rest
  }

  /** Over any run the generations stay disjoint and never hold more than `2*m` keys. */
  lemma {:induction false} RunKeepsGenerations(m: nat, g: Generations, ks: seq<Key>)
    requires ValidGenerations(m, g)
    ensures ValidGenerations(m, Run(m, g, ks))
    ensures |Run(m, g, ks).current + Run(m, g, ks).previous| <= 2 * m
    decreases |ks|
  {
    if ks != [] {
      RunKeepsGenerations(m, Insert(m, g, ks[0]), ks[1..]);
    }
  }

  /** Where a key accepted as the `p`-th of its generation sits after `d` more keys were accepted. */
  predicate TrackedAt(m: nat, g: Generations, k: Key, p: nat, d: nat) {
    && 1 <= p <= m && d <= 2 * m - p
    && (if p + d <= m
        then k in g.current && |g.current| == p + d
        else k in g.previous && k !in g.current && |g.current| == p + d - m)
  }

  lemma InsertTracks(m: nat, g: Generations, k: Key, p: nat, d: nat, x: Key)
    requires ValidGenerations(m, g) && TrackedAt(m, g, k, p, d)
    ensures Remembered(g, x) ==> TrackedAt(m, Insert(m, g, x), k, p, d)
    ensures !Remembered(g, x) && d < 2 * m - p ==> TrackedAt(m, Insert(m, g, x), k, p, d + 1)
    ensures !Remembered(g, x) && d == 2 * m - p ==> !Remembered(Insert(m, g, x), k)
  {
  }

  lemma {:induction false} NothingAccepted(m: nat, g: Generations, ks: seq<Key>)
    requires Accepted(m, g, ks) == []
    ensures Run(m, g, ks) == g
    decreases |ks|
  {
    if ks != [] {
      NothingAccepted(m, Insert(m, g, ks[0]), ks[1..]);
    }
  }

  lemma {:induction false} RunTracks(m: nat, g: Generations, k: Key, p: nat, d: nat, ks: seq<Key>)
    requires ValidGenerations(m, g) && TrackedAt(m, g, k, p, d)
    ensures var total := d + |Accepted(m, g, ks)|;
            && (total <= 2 * m - p ==> TrackedAt(m, Run(m, g, ks), k, p, total))
            && (total == 2 * m - p + 1 ==> !Remembered(Run(m, g, ks), k))
    ensures forall t :: 0 <= t < |Accepted(m, g, ks)| && d + t <= 2 * m - p ==> Accepted(m, g, ks)[t] != k
    decreases |ks|
  {
    if ks != [] {
      var x, g' := ks[0], Insert(m, g, ks[0]);
      InsertTracks(m, g, k, p, d, x);
      if Remembered(g, x) {
        RunTracks(m, g', k, p, d, ks[1..]);
      } else if d < 2 * m - p {
        RunTracks(m, g', k, p, d + 1, ks[1..]);
      } else if |Accepted(m, g, ks)| == 1 {
        NothingAccepted(m, g', ks[1..]);
      }
    }
  }

  /**
   The exact window, from any valid cache: a key accepted as the `p`-th of its generation is
   still remembered, and so rejected, while at most `2*m - p` further keys have been accepted,
   and is forgotten as soon as one more is.
   */
  lemma ExactWindow(m: nat, g: Generations, k: Key, ks: seq<Key>)
    requires ValidGenerations(m, g) && !Remembered(g, k)
    ensures var g' := Insert(m, g, k);
            var p, further := |g'.current|, |Accepted(m, g', ks)|;
            && 1 <= p <= m
            && (further <= 2 * m - p ==> Remembered(Run(m, g', ks), k))
            && (further == 2 * m - p + 1 ==> !Remembered(Run(m, g', ks), k))
  {
    RunTracks(m, Insert(m, g, k), k, |Insert(m, g, k).current|, 0, ks);
  }

  /** Any `m + 2` consecutively accepted keys are pairwise distinct. */
  lemma {:induction false} AcceptedKeysDistinct(m: nat, g: Generations, ks: seq<Key>, i: nat, j: nat)
    requires ValidGenerations(m, g)
    requires i < j < |Accepted(m, g, ks)| && j - i <= m + 1
    ensures Accepted(m, g, ks)[i] != Accepted(m, g, ks)[j]
    decreases |ks|
  {
    var g' := Insert(m, g, ks[0]);
    if Remembered(g, ks[0]) {
      AcceptedKeysDistinct(m, g', ks[1..], i, j);
    } else if i > 0 {
      AcceptedKeysDistinct(m, g', ks[1..], i - 1, j - 1);
    } else {
      RunTracks(m, g', ks[0], |g'.current|, 0, ks[1..]);
    }
  }

  /** The bound is tight: the last key of a full generation can be accepted again after `m + 1` others. */
  lemma WindowIsTight(m: nat, g: Generations, k: Key, ks: seq<Key>)
    requires ValidGenerations(m, g) && !Remembered(g, k) && |Insert(m, g, k).current| == m
    requires |Accepted(m, Insert(m, g, k), ks)| == m + 1
    ensures Accepted(m, Run(m, Insert(m, g, k), ks), [k]) == [k]
  {
    ExactWindow(m, g, k, ks);
    var r := Run(m, Insert(m, g, k), ks);
    assert Accepted(m, Insert(m, r, k), []) == [];
    assert [k][1..] == [];
  }

  /** The server's window in numbers: at most 25,000 keys a generation, and a key is remembered for 25,000 to 49,999 more. */
  lemma ServerWindow(g: Generations, k: Key, ks: seq<Key>)
    requires ValidGenerations(REPLAY_GEN_MAX, g) && !Remembered(g, k)
    ensures |g.current| <= 25_000 && |g.previous| <= 25_000
    ensures var g' := Insert(REPLAY_GEN_MAX, g, k);
            var p, further := |g'.current|, |Accepted(REPLAY_GEN_MAX, g', ks)|;
            && 1 <= p <= 25_000 && ValidGenerations(REPLAY_GEN_MAX, g')
            && (|g.current| < 25_000 ==> p == |g.current| + 1) && (|g.current| == 25_000 ==> p == 1)
            && (further <= 50_000 - p ==> Remembered(Run(REPLAY_GEN_MAX, g', ks), k))
            && (further == 50_001 - p ==> !Remembered(Run(REPLAY_GEN_MAX, g', ks), k))
  {
    ExactWindow(REPLAY_GEN_MAX, g, k, ks);
  }

  // The file format.

  function Concat(keys: seq<Key>): (s: seq<byte>)
    ensures |s| == 64 * |keys|
  {
    if keys == [] then [] else Concat(keys[..|keys| - 1]) + keys[|keys| - 1]
  }

  function Image(current: seq<Key>, previous: seq<Key>): seq<byte> {
    LeBytes(|current|, 4) + LeBytes(|previous|, 4) + Concat(current) + Concat(previous)
  }

  function ParseKeys(s: seq<byte>): (keys: seq<Key>)
    requires |s| % 64 == 0
    ensures |s| == 64 * |keys|
  {
    if s == [] then [] else ParseKeys(s[..|s| - 64]) + [s[|s| - 64..]]
  }

  datatype LoadError = Truncated | LengthMismatch

  function ParseImage(data: seq<byte>): Result<(seq<Key>, seq<Key>), LoadError> {
    if |data| < 8 then Err(Truncated)
    else
      var currentCount, previousCount := LeValue(data[0..4]), LeValue(data[4..8]);
      if |data| != 8 + (currentCount + previousCount) * 64 then Err(LengthMismatch)
      else
        var split := 8 + 64 * currentCount;
        assert |data[8..split]| == 64 * currentCount && |data[split..]| == 64 * previousCount;
        Ok((ParseKeys(data[8..split]), ParseKeys(data[split..])))
  }

  lemma {:induction false} ParseKeysInverts(keys: seq<Key>)
    ensures ParseKeys(Concat(keys)) == keys
  {
    if keys != [] {
      var front, last := keys[..|keys| - 1], keys[|keys| - 1];
      var s := Concat(keys);
      ParseKeysInverts(front);
      assert s[..|s| - 64] == Concat(front) && s[|s| - 64..] == last;
    }
  }

  lemma {:induction false} ConcatInverts(s: seq<byte>)
    requires |s| % 64 == 0
    ensures Concat(ParseKeys(s)) == s
  {
    if s != [] {
      ConcatInverts(s[..|s| - 64]);
      var keys := ParseKeys(s);
      assert keys[..|keys| - 1] == ParseKeys(s[..|s| - 64]);
      assert s[..|s| - 64] + s[|s| - 64..] == s;
    }
  }

  /** Loading a written image gives back both generations. */
  lemma ParseImageInverts(current: seq<Key>, previous: seq<Key>)
    requires |current| < 0x1_0000_0000 && |previous| < 0x1_0000_0000
    ensures ParseImage(Image(current, previous)) == Ok((current, previous))
  {
    hide Concat, ParseKeys, LeBytes, LeValue;
    var c, p := Concat(current), Concat(previous);
    var head := LeBytes(|current|, 4) + LeBytes(|previous|, 4);
    var data := head + (c + p);
    Assoc(head, c, p);
    assert data == Image(current, previous);
    Pow256Small();
    LeRoundTrip(|current|, 4);
    LeRoundTrip(|previous|, 4);
    assert data[0..4] == LeBytes(|current|, 4) && data[4..8] == LeBytes(|previous|, 4);
    assert data[8..8 + |c|] == c && data[8 + |c|..] == p;
    ParseKeysInverts(current);
    ParseKeysInverts(previous);
  }

  /** A file that loads is exactly the image of what it loads as. */
  lemma ImageInvertsParse(data: seq<byte>)
    requires ParseImage(data).Ok?
    ensures Image(ParseImage(data).value.0, ParseImage(data).value.1) == data
  {
    hide Concat, ParseKeys, LeBytes, LeValue;
    var cc, pc := LeValue(data[0..4]), LeValue(data[4..8]);
    LeCanonical(data[0..4]);
    LeCanonical(data[4..8]);
    ConcatInverts(data[8..8 + 64 * cc]);
    ConcatInverts(data[8 + 64 * cc..]);
    var (current, previous) := ParseImage(data).value;
    assert |current| == cc && |previous| == pc;
    var rest := data[8..];
    assert rest == data[8..8 + 64 * cc] + data[8 + 64 * cc..];
    assert data == data[0..4] + data[4..8] + rest;
    Assoc(data[0..4] + data[4..8], Concat(current), Concat(previous));
  }

  lemma {:induction false} KeySlice(keys: seq<Key>, i: nat)
    requires i < |keys|
    ensures Concat(keys)[64 * i..64 * i + 64] == keys[i]
  {
    var m := |keys| - 1;
    var head := Concat(keys[..m]);
    if i < m {
      KeySlice(keys[..m], i);
      assert (head + keys[m])[64 * i..64 * i + 64] == head[64 * i..64 * i + 64];
    } else {
      assert (head + keys[m])[64 * m..64 * m + 64] == keys[m];
    }
  }

  lemma SliceOfRest(head: seq<byte>, rest: seq<byte>, a: nat, b: nat)
    requires a <= b <= |rest|
    ensures (head + rest)[|head| + a..|head| + b] == rest[a..b]
  {
  }

  lemma SliceOfHead(head: seq<byte>, rest: seq<byte>, a: nat, b: nat)
    requires a <= b <= |head|
    ensures (head + rest)[a..b] == head[a..b]
  {
  }

  /** Two counts of four bytes, little-endian, and then 64 bytes per key, the current generation first. */
  lemma ImageLayout(current: seq<Key>, previous: seq<Key>, i: nat)
    requires |current| < 0x1_0000_0000 && |previous| < 0x1_0000_0000
    ensures var b, split := Image(current, previous), 8 + 64 * |current|;
            && |b| == split + 64 * |previous|
            && LeValue(b[0..4]) == |current| && LeValue(b[4..8]) == |previous|
            && (i < |current| ==> b[8 + 64 * i..8 + 64 * i + 64] == current[i])
            && (i < |previous| ==> b[split + 64 * i..split + 64 * i + 64] == previous[i])
  {
    hide Concat, LeBytes, LeValue;
    var n, m, cs, ps := LeBytes(|current|, 4), LeBytes(|previous|, 4), Concat(current), Concat(previous);
    Pow256Small();
    LeRoundTrip(|current|, 4);
    LeRoundTrip(|previous|, 4);
    assert (n + m)[0..4] == n && (n + m)[4..8] == m;
    SliceOfHead(n + m, cs, 0, 4);
    SliceOfHead(n + m, cs, 4, 8);
    SliceOfHead(n + m + cs, ps, 0, 4);
    SliceOfHead(n + m + cs, ps, 4, 8);
    if i < |current| {
      KeySlice(current, i);
      SliceOfRest(n + m, cs, 64 * i, 64 * i + 64);
      SliceOfHead(n + m + cs, ps, 8 + 64 * i, 8 + 64 * i + 64);
    }
    if i < |previous| {
      KeySlice(previous, i);
      SliceOfRest(n + m + cs, ps, 64 * i, 64 * i + 64);
    }
  }

  function Elements(keys: seq<Key>): set<Key> {
    set k | k in keys
  }

  /** `keys` lists the set once each, in whatever order iteration happens to take. */
  predicate Enumerates(keys: seq<Key>, s: set<Key>) {
    Elements(keys) == s && |keys| == |s|
  }

  ghost predicate IsImageOf(data: seq<byte>, g: Generations) {
    exists c, p :: Enumerates(c, g.current) && Enumerates(p, g.previous) && data == Image(c, p)
  }

  /** Whatever the iteration order was, loading gives back the two generations. */
  lemma AnyImageLoads(data: seq<byte>, g: Generations)
    requires IsImageOf(data, g) && |g.current| < 0x1_0000_0000 && |g.previous| < 0x1_0000_0000
    ensures ParseImage(data).Ok?
    ensures Generations(Elements(ParseImage(data).value.0), Elements(ParseImage(data).value.1)) == g
  {
    var c, p :| Enumerates(c, g.current) && Enumerates(p, g.previous) && data == Image(c, p);
    ParseImageInverts(c, p);
  }

  /** The Rust cache. The lock around it makes each method one step. */
  class ReplayCache {
    var current: set<Key>
    var previous: set<Key>
    var dirty: bool
    var pendingInserts: nat
    var lastPersist: Option<nat>

    function State(): Generations
      reads this
    {
      Generations(current, previous)
    }

    constructor Default()
      ensures State() == EMPTY && !dirty && pendingInserts == 0 && lastPersist == None
    {
      current, previous, dirty, pendingInserts, lastPersist := {}, {}, false, 0, None;
    }

    constructor Loaded(currentKeys: seq<Key>, previousKeys: seq<Key>, now: nat)
      ensures State() == Generations(Elements(currentKeys), Elements(previousKeys))
      ensures !dirty && pendingInserts == 0 && lastPersist == Some(now)
    {
      current, previous := Elements(currentKeys), Elements(previousKeys);
      dirty, pendingInserts, lastPersist := false, 0, Some(now);
    }

    method CheckAndInsert(id: Bytes32, nonceC: Bytes32) returns (isFresh: bool)
      modifies this
      ensures isFresh <==> !Remembered(old(State()), id + nonceC)
      ensures State() == Insert(REPLAY_GEN_MAX, old(State()), id + nonceC)
      ensures isFresh ==> dirty && pendingInserts == (if old(pendingInserts) < 0xFFFF_FFFF_FFFF_FFFF then old(pendingInserts) + 1 else old(pendingInserts))
      ensures !isFresh ==> dirty == old(dirty) && pendingInserts == old(pendingInserts)
      ensures lastPersist == old(lastPersist)
    {
      var k: Key := id + nonceC;
      if k in current || k in previous {
        return false;
      }
      if |current| >= REPLAY_GEN_MAX {
        previous := current;
        current := {};
        dirty := true;
      }
      current := current + {k};
      dirty := true;
      pendingInserts := if pendingInserts < 0xFFFF_FFFF_FFFF_FFFF then pendingInserts + 1 else pendingInserts;
      return true;
    }

    method Serialize() returns (out: seq<byte>)
      ensures IsImageOf(out, State())
    {
      out := LeBytes(|current|, 4) + LeBytes(|previous|, 4);
      var head := out;
      var cs := ListSet(current);
      var ps := ListSet(previous);
      out := AppendKeys(out, cs);
      out := AppendKeys(out, ps);
      assert Enumerates(cs, State().current) && Enumerates(ps, State().previous) && out == Image(cs, ps);
    }

    /** Hands out the bytes to write when a write is due, and counts them as written. */
    method TakePersistBlob(force: bool, now: nat) returns (blob: Option<seq<byte>>)
      modifies this
      ensures State() == old(State())
      ensures blob.Some? <==> old(dirty) && (|| force || old(pendingInserts) >= REPLAY_PERSIST_EVERY_INSERTS
                                             || old(lastPersist) == None || now - old(lastPersist).value >= REPLAY_PERSIST_INTERVAL)
      ensures blob.Some? ==> IsImageOf(blob.value, State()) && !dirty && pendingInserts == 0 && lastPersist == Some(now)
      ensures blob.None? ==> dirty == old(dirty) && pendingInserts == old(pendingInserts) && lastPersist == old(lastPersist)
    {
      var due := force || pendingInserts >= REPLAY_PERSIST_EVERY_INSERTS
                 || lastPersist.None? || now - lastPersist.value >= REPLAY_PERSIST_INTERVAL;
      if !dirty || !due {
        return None;
      }
      var bytes := Serialize();
      dirty, pendingInserts, lastPersist := false, 0, Some(now);
      return Some(bytes);
    }
  }

  method ListSet(s: set<Key>) returns (keys: seq<Key>)
    ensures Enumerates(keys, s)
  {
    keys := [];
    var rest := s;
    while rest != {}
      invariant rest <= s && Enumerates(keys, s - rest)
      decreases rest
    {
      var k :| k in rest;
      assert Elements(keys + [k]) == Elements(keys) + {k};
      assert s - (rest - {k}) == (s - rest) + {k};
      keys := keys + [k];
      rest := rest - {k};
    }
    assert s - {} == s;
  }

  method AppendKeys(prefix: seq<byte>, keys: seq<Key>) returns (out: seq<byte>)
    ensures out == prefix + Concat(keys)
  {
    out := prefix;
    for i := 0 to |keys|
      invariant out == prefix + Concat(keys[..i])
    {
      assert keys[..i + 1][..i] == keys[..i];
      Assoc(prefix, Concat(keys[..i]), keys[i]);
      out := out + keys[i];
    }
    assert keys[..|keys|] == keys;
  }

  method LoadReplayCache(file: Option<seq<byte>>, now: nat) returns (r: Result<ReplayCache, LoadError>)
    ensures file.None? ==> r.Ok? && r.value.State() == EMPTY
    ensures file.Some? ==> (r.Ok? <==> ParseImage(file.value).Ok?)
    ensures file.Some? && r.Err? ==> r.error == ParseImage(file.value).error
    ensures file.Some? && r.Ok? ==>
              var (c, p) := ParseImage(file.value).value;
              r.value.State() == Generations(Elements(c), Elements(p)) && !r.value.dirty && r.value.pendingInserts == 0
  {
    if file.None? {
      var empty := new ReplayCache.Default();
      return Ok(empty);
    }
    var parsed := ReadFile(file.value);
    if parsed.Err? {
      return Err(parsed.error);
    }
    var cache := new ReplayCache.Loaded(parsed.value.0, parsed.value.1, now);
    return Ok(cache);
  }

  /** The two counts, the length test, and the two entry loops. */
  method ReadFile(data: seq<byte>) returns (r: Result<(seq<Key>, seq<Key>), LoadError>)
    ensures r == ParseImage(data)
  {
    if |data| < 8 {
      return Err(Truncated);
    }
    var currentCount, previousCount := LeValue(data[0..4]), LeValue(data[4..8]);
    if |data| != 8 + (currentCount + previousCount) * 64 {
      return Err(LengthMismatch);
    }
    var split := 8 + 64 * currentCount;
    var cs := ReadKeys(data, 8, currentCount);
    var ps := ReadKeys(data, split, previousCount);
    assert data[split..split + 64 * previousCount] == data[split..] by { assert split + 64 * previousCount == |data|; }
    return Ok((cs, ps));
  }

  lemma OneMoreKey(data: seq<byte>, start: nat, off: nat)
    requires start <= off && (off - start) % 64 == 0 && off + 64 <= |data|
    ensures (off + 64 - start) % 64 == 0
    ensures ParseKeys(data[start..off + 64]) == ParseKeys(data[start..off]) + [data[off..off + 64]]
  {
    var t := data[start..off + 64];
    assert t[..|t| - 64] == data[start..off] && t[|t| - 64..] == data[off..off + 64];
  }

  lemma NoKeys(data: seq<byte>, start: nat)
    requires start <= |data|
    ensures ParseKeys(data[start..start]) == []
  {
  }

  method ReadKeys(data: seq<byte>, start: nat, count: nat) returns (keys: seq<Key>)
    requires start + 64 * count <= |data|
    ensures keys == ParseKeys(data[start..start + 64 * count])
  {
    hide ParseKeys;
    NoKeys(data, start);
    keys := [];
    var off := start;
    for i := 0 to count
      invariant off == start + 64 * i
      invariant keys == ParseKeys(data[start..off])
    {
      OneMoreKey(data, start, off);
      keys := keys + [data[off..off + 64]];
      off := off + 64;
    }
  }
}
