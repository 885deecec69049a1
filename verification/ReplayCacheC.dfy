/**
 The C server's replay cache: arrays scanned linearly, grown by doubling and handed over on
 rotation. It refines the two-set cache, and its lazily written file loses little in a crash.
 */
module ReplayC {
  import opened Bytes
  import opened Replay

  /** The two arrays, cut to their used lengths. */
  datatype Arrays = Arrays(current: seq<Key>, previous: seq<Key>)

  function Sets(a: Arrays): Generations {
    Generations(Elements(a.current), Elements(a.previous))
  }

  predicate NoDuplicates(keys: seq<Key>) {
    forall i, j :: 0 <= i < j < |keys| ==> keys[i] != keys[j]
  }

  predicate ValidArrays(m: nat, a: Arrays) {
    && m >= 1 && |a.current| <= m && |a.previous| <= m
    && NoDuplicates(a.current) && NoDuplicates(a.previous)
    && Elements(a.current) !! Elements(a.previous)
  }

  predicate Known(a: Arrays, k: Key) {
    k in a.current || k in a.previous
  }

  function Rotate(m: nat, a: Arrays): Arrays {
    if |a.current| >= m then Arrays([], a.current) else a
  }

  function InsertArrays(m: nat, a: Arrays, k: Key): Arrays {
    if Known(a, k) then a
    else Rotate(m, a).(current := Rotate(m, a).current + [k])
  }

  lemma {:induction false} DistinctCount(keys: seq<Key>)
    requires NoDuplicates(keys)
    ensures |Elements(keys)| == |keys|
  {
    if keys != [] {
      var front, last := keys[..|keys| - 1], keys[|keys| - 1];
      DistinctCount(front);
      assert last !in front;
      assert Elements(keys) == Elements(front) + {last};
    }
  }

  /** The arrays and the sets move together. */
  lemma InsertRefines(m: nat, a: Arrays, k: Key)
    requires ValidArrays(m, a)
    ensures ValidArrays(m, InsertArrays(m, a, k))
    ensures Sets(InsertArrays(m, a, k)) == Insert(m, Sets(a), k)
    ensures Known(a, k) <==> Remembered(Sets(a), k)
    ensures ValidGenerations(m, Sets(a))
  {
    DistinctCount(a.current);
    DistinctCount(a.previous);
    var r := Rotate(m, a).current;
    assert Elements(r + [k]) == Elements(r) + {k};
  }

  /** The cache with its bookkeeping and the bytes of its file. */
  datatype Store = Store(arrays: Arrays, dirty: bool, pending: nat, lastPersist: nat, disk: Option<seq<byte>>)

  /** Writes the file when a write is due; `saves` says whether the write, an atomic rename, succeeds. */
  function PersistIfDue(s: Store, force: bool, now: nat, saves: bool): (r: (Store, int)) {
    var due := force || s.pending >= REPLAY_PERSIST_EVERY_INSERTS || s.lastPersist == 0
               || now - s.lastPersist >= REPLAY_PERSIST_INTERVAL;
    if !s.dirty || !due then (s, 0)
    else if !saves then (s, -1)
    else (Store(s.arrays, false, 0, now, Some(Image(s.arrays.current, s.arrays.previous))), 0)
  }

  /** A start of the server: no file means an empty cache, a file that does not parse stops the start. */
  function LoadStore(disk: Option<seq<byte>>, now: nat): Result<Store, LoadError> {
    match disk
    case None => Ok(Store(Arrays([], []), false, 0, now, None))
    case Some(data) =>
      match ParseImage(data)
      case Err(e) => Err(e)
      case Ok((c, p)) => Ok(Store(Arrays(c, p), false, 0, now, disk))
  }

  class CReplayCache {
    var current: array<Key>
    var currentN: nat
    var previous: array<Key>
    var previousN: nat
    var dirty: bool
    var pendingInserts: nat
    var lastPersist: nat

    ghost predicate Valid()
      reads this
    {
      currentN <= current.Length && previousN <= previous.Length && current != previous
    }

    ghost function State(): Arrays
      reads this, current, previous
      requires Valid()
    {
      Arrays(current[..currentN], previous[..previousN])
    }

    constructor ()
      ensures Valid() && State() == Arrays([], []) && !dirty && pendingInserts == 0
      ensures fresh(current) && fresh(previous)
    {
      current, currentN := new Key[0], 0;
      previous, previousN := new Key[0], 0;
      dirty, pendingInserts, lastPersist := false, 0, 0;
    }

    static method Contains(arr: array<Key>, n: nat, key: Key) returns (found: bool)
      requires n <= arr.Length
      ensures found <==> key in arr[..n]
    {
      for i := 0 to n
        invariant key !in arr[..i]
      {
        if arr[i] == key {
          return true;
        }
      }
      return false;
    }

    /** Room for `need` entries, by doubling from 256; `memory` says whether the allocation succeeds. */
    static method Reserve(arr: array<Key>, need: nat, memory: bool) returns (ok: bool, out: array<Key>)
      ensures ok <==> arr.Length >= need || memory
      ensures ok ==> out.Length >= need && out.Length >= arr.Length && out[..arr.Length] == arr[..]
      ensures out == arr || fresh(out)
      ensures !ok ==> out == arr
    {
      if arr.Length >= need {
        return true, arr;
      }
      if !memory {
        return false, arr;
      }
      var newCap := if arr.Length > 0 then arr.Length else 256;
      while newCap < need
        invariant newCap >= arr.Length && newCap > 0
        decreases need - newCap
      {
        newCap := newCap * 2;
      }
      out := new Key[newCap];
      for i := 0 to arr.Length
        invariant out[..i] == arr[..i]
      {
        out[i] := arr[i];
      }
      return true, out;
    }

    /** 1 for a fresh key, 0 for a replay, -1 when memory ran out; a full generation has rotated by then. */
    method CheckAndInsert(pid: Bytes32, nonceC: Bytes32, memory: bool) returns (rc: int)
      requires Valid()
      modifies this, current
      ensures Valid() && (current == old(current) || fresh(current)) && (previous == old(previous) || previous == old(current))
      ensures rc == 0 <==> Known(old(State()), pid + nonceC)
      ensures rc == 1 || rc == 0 || rc == -1
      ensures rc == 1 ==> State() == InsertArrays(REPLAY_GEN_MAX, old(State()), pid + nonceC) && dirty
                          && pendingInserts == old(pendingInserts) + 1
      ensures rc == 0 ==> State() == old(State()) && dirty == old(dirty) && pendingInserts == old(pendingInserts)
      ensures rc == -1 ==> !memory && State() == Rotate(REPLAY_GEN_MAX, old(State())) && pendingInserts == old(pendingInserts)
                           && dirty == (old(dirty) || |old(State()).current| >= REPLAY_GEN_MAX)
      ensures lastPersist == old(lastPersist)
    {
      var key: Key := pid + nonceC;
      var inCurrent := Contains(current, currentN, key);
      var inPrevious := Contains(previous, previousN, key);
      if inCurrent || inPrevious {
        return 0;
      }
      if currentN >= REPLAY_GEN_MAX {
        previous, previousN := current, currentN;
        current, currentN := new Key[0], 0;
        dirty := true;
      }
      var ok := Push(key, memory);
      if !ok {
        return -1;
      }
      dirty := true;
      pendingInserts := pendingInserts + 1;
      return 1;
    }

    method Push(key: Key, memory: bool) returns (ok: bool)
      requires Valid()
      modifies this`current, this`currentN, current
      ensures Valid() && (current == old(current) || fresh(current))
      ensures !ok ==> !memory && State() == old(State())
      ensures ok ==> State() == old(State()).(current := old(State()).current + [key])
    {
      ghost var before := current[..currentN];
      var grown;
      ok, grown := Reserve(current, currentN + 1, memory);
      if ok {
        assert grown[..currentN] == before;
        current := grown;
        current[currentN] := key;
        currentN := currentN + 1;
        assert current[..currentN] == before + [key];
      }
    }

    ghost function View(disk: Option<seq<byte>>): Store
      reads this, current, previous
      requires Valid()
    {
      Store(State(), dirty, pendingInserts, lastPersist, disk)
    }

    /** The file's next contents come back; they stay as they were unless the save happened. */
    method Persist(force: bool, now: nat, saves: bool, disk: Option<seq<byte>>) returns (rc: int, file: Option<seq<byte>>)
      requires Valid()
      modifies this`dirty, this`pendingInserts, this`lastPersist
      ensures Valid()
      ensures (View(file), rc) == PersistIfDue(old(View(disk)), force, now, saves)
    {
      var due := force || pendingInserts >= REPLAY_PERSIST_EVERY_INSERTS || lastPersist == 0
                 || now - lastPersist >= REPLAY_PERSIST_INTERVAL;
      if !dirty || !due {
        return 0, disk;
      }
      if !saves {
        return -1, disk;
      }
      var out := LeBytes(currentN, 4) + LeBytes(previousN, 4);
      out := AppendKeys(out, current[..currentN]);
      out := AppendKeys(out, previous[..previousN]);
      dirty, pendingInserts, lastPersist := false, 0, now;
      return 0, Some(out);
    }

    /** Reads a file back; a file of the wrong length is refused. */
    static method Load(disk: Option<seq<byte>>, now: nat) returns (r: Result<CReplayCache, LoadError>)
      ensures r.Ok? ==> fresh(r.value) && fresh(r.value.current) && fresh(r.value.previous) && r.value.Valid()
      ensures r.Ok? <==> LoadStore(disk, now).Ok?
      ensures r.Ok? ==> r.value.View(disk) == LoadStore(disk, now).value
      ensures r.Err? ==> r.error == LoadStore(disk, now).error
    {
      var cache := new CReplayCache();
      cache.lastPersist := now;
      if disk.None? {
        return Ok(cache);
      }
      var parsed := ReadFile(disk.value);
      if parsed.Err? {
        return Err(parsed.error);
      }
      cache.Install(parsed.value.0, parsed.value.1);
      return Ok(cache);
    }

    method Install(cs: seq<Key>, ps: seq<Key>)
      requires Valid()
      modifies this`current, this`currentN, this`previous, this`previousN, current, previous
      ensures Valid() && State() == Arrays(cs, ps)
      ensures (current == old(current) || fresh(current)) && (previous == old(previous) || fresh(previous))
    {
      var _, c := Reserve(current, |cs|, true);
      Fill(c, cs);
      var _, p := Reserve(previous, |ps|, true);
      Fill(p, ps);
      current, currentN, previous, previousN := c, |cs|, p, |ps|;
    }

    static method Fill(arr: array<Key>, keys: seq<Key>)
      requires |keys| <= arr.Length
      modifies arr
      ensures arr[..|keys|] == keys
    {
      for i := 0 to |keys|
        invariant arr[..i] == keys[..i]
      {
        arr[i] := keys[i];
      }
    }
  }

  /** What an authentication request does to the store, and whether it gets past the replay stage. */
  function AuthRequest(m: nat, s: Store, key: Key, outOfMemory: bool, now: nat, saves: bool): (Store, bool) {
    if Known(s.arrays, key) then (s, false)
    else if outOfMemory then
      (s.(arrays := Rotate(m, s.arrays), dirty := s.dirty || |s.arrays.current| >= m), false)
    else
      var (s', rc) := PersistIfDue(s.(arrays := InsertArrays(m, s.arrays, key), dirty := true, pending := s.pending + 1),
                                   false, now, saves);
      (s', rc == 0)
  }

  method HandleReplayStage(cache: CReplayCache, pid: Bytes32, nonceC: Bytes32, memory: bool, now: nat, saves: bool,
                           disk: Option<seq<byte>>) returns (pass: bool, file: Option<seq<byte>>)
    requires cache.Valid()
    modifies cache, cache.current
    ensures cache.Valid()
    ensures (cache.View(file), pass) == AuthRequest(REPLAY_GEN_MAX, old(cache.View(disk)), pid + nonceC, false, now, saves)
         || (!memory && (cache.View(file), pass) == AuthRequest(REPLAY_GEN_MAX, old(cache.View(disk)), pid + nonceC, true, now, saves))
  {
    var r := cache.CheckAndInsert(pid, nonceC, memory);
    if r <= 0 {
      return false, disk;
    }
    var rc;
    rc, file := cache.Persist(false, now, saves, disk);
    pass := rc == 0;
  }
}
