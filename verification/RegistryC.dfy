/** The C server's registry: an array of raw records, searched from the front and only ever appended to. */
module RegistryC {
  import opened Bytes
  import opened Suites
  import opened Registries

  /** A record as it is stored, points still encoded. */
  datatype Entry = Entry(id: Bytes32, pub: Bytes32, roleCommitment: Bytes32)

  predicate UniqueIds(arr: seq<Entry>) {
    forall i, j :: 0 <= i < j < |arr| ==> arr[i].id != arr[j].id
  }

  predicate HasId(arr: seq<Entry>, id: Bytes32) {
    exists e <- arr :: e.id == id
  }

  /** 1 for a new record, 0 for the same record again, -1 for a different one under a known id. */
  function Upsert(arr: seq<Entry>, e: Entry): (seq<Entry>, int) {
    if e in arr then (arr, 0)
    else if HasId(arr, e.id) then (arr, -1)
    else (arr + [e], 1)
  }

  class CRegistry {
    var arr: array<Entry>

    ghost function Contents(): seq<Entry>
      reads this, arr
    {
      arr[..]
    }

    constructor ()
      ensures fresh(arr) && Contents() == []
    {
      arr := new Entry[0];
    }

    /** A failed save reports -1 although the record stays in memory; a failed allocation leaves everything. */
    method RegUpsert(e: Entry, memory: bool, saves: bool) returns (rc: int)
      requires UniqueIds(Contents())
      modifies this
      ensures UniqueIds(Contents())
      ensures var (next, code) := Upsert(old(Contents()), e);
              if code == 1 && !memory then Contents() == old(Contents()) && rc == -1
              else Contents() == next && rc == (if code == 1 && !saves then -1 else code)
    {
      var a := arr;
      for i := 0 to a.Length
        invariant arr == a && forall j :: 0 <= j < i ==> a[j].id != e.id
      {
        if a[i].id == e.id {
          SameIdSameEntry(a[..], i, e);
          if a[i].pub != e.pub {
            return -1;
          }
          if a[i].roleCommitment != e.roleCommitment {
            return -1;
          }
          return 0;
        }
      }
      if !memory {
        return -1;
      }
      var bigger := new Entry[a.Length + 1](_ => e);
      for i := 0 to a.Length
        invariant arr == a && a[..] == old(arr[..]) && bigger[..i] == a[..i] && bigger[a.Length] == e
      {
        bigger[i] := a[i];
      }
      assert bigger[..] == a[..] + [e];
      arr := bigger;
      return if saves then 1 else -1;
    }
  }

  lemma SameIdSameEntry(arr: seq<Entry>, i: nat, e: Entry)
    requires UniqueIds(arr) && i < |arr| && arr[i].id == e.id
    ensures HasId(arr, e.id)
    ensures e in arr <==> arr[i] == e
  {
    assert arr[i] in arr;
    if e in arr {
      var j :| 0 <= j < |arr| && arr[j] == e;
      assert j == i;
    }
  }

  /** An accepted record is enrolled afterwards, a refused one meets another under its id; only a new id is appended, at the end. */
  lemma UpsertEnrolls(arr: seq<Entry>, e: Entry)
    requires UniqueIds(arr)
    ensures var (next, code) := Upsert(arr, e);
            && (code == -1 || code == 0 || code == 1) && UniqueIds(next)
            && (code >= 0 <==> e in next)
            && (code == -1 ==> next == arr && exists x <- arr :: x.id == e.id && x != e)
            && (code == 0 ==> next == arr)
            && (code == 1 ==> !HasId(arr, e.id) && |next| == |arr| + 1 && arr <= next && next[|arr|] == e)
  {
    if HasId(arr, e.id) && e !in arr {
      var x :| x in arr && x.id == e.id;
    }
  }

  function RunUpserts(arr: seq<Entry>, es: seq<Entry>): seq<Entry>
    decreases |es|
  {
    if es == [] then arr else RunUpserts(Upsert(arr, es[0]).0, es[1..])
  }

  /** Over any run ids stay unique and every enrolled record stays where it is, unchanged. */
  lemma {:induction false} RunsOnlyAppend(arr: seq<Entry>, es: seq<Entry>)
    requires UniqueIds(arr)
    ensures UniqueIds(RunUpserts(arr, es))
    ensures arr <= RunUpserts(arr, es)
    decreases |es|
  {
    if es != [] {
      RunsOnlyAppend(Upsert(arr, es[0]).0, es[1..]);
    }
  }

  // Lookups: two searches from the front, each returning the first match.

  datatype Lookup = ByHandle(handle: Bytes16) | ByPid(c: PidContext, pid: Bytes32)

  /** The comparison made at each record, on the key as it is stored. */
  predicate Hits(S: Suite, l: Lookup, e: Entry) {
    match l
    case ByHandle(handle) => HandleFromBytes(S, e.pub) == handle
    case ByPid(c, pid) => PidFromBytes(S, e.pub, c.nonceC, c.ephC, c.serverPub) == pid
  }

  function FirstMatch(S: Suite, l: Lookup, arr: seq<Entry>): Option<Entry>
    decreases |arr|
  {
    if arr == [] then None
    else if Hits(S, l, arr[0]) then Some(arr[0])
    else FirstMatch(S, l, arr[1..])
  }

  method LookupRecordByHandle(S: Suite, arr: array<Entry>, handle: Bytes16) returns (r: Option<Entry>)
    ensures r == FirstMatch(S, ByHandle(handle), arr[..])
  {
    assert arr[0..] == arr[..];
    for i := 0 to arr.Length
      invariant FirstMatch(S, ByHandle(handle), arr[i..]) == FirstMatch(S, ByHandle(handle), arr[..])
    {
      assert arr[i..][0] == arr[i] && arr[i..][1..] == arr[i + 1..];
      if HandleFromBytes(S, arr[i].pub) == handle {
        return Some(arr[i]);
      }
    }
    return None;
  }

  method LookupRecordByPid(S: Suite, arr: array<Entry>, c: PidContext, pid: Bytes32) returns (r: Option<Entry>)
    ensures r == FirstMatch(S, ByPid(c, pid), arr[..])
  {
    assert arr[0..] == arr[..];
    for i := 0 to arr.Length
      invariant FirstMatch(S, ByPid(c, pid), arr[i..]) == FirstMatch(S, ByPid(c, pid), arr[..])
    {
      assert arr[i..][0] == arr[i] && arr[i..][1..] == arr[i + 1..];
      if PidFromBytes(S, arr[i].pub, c.nonceC, c.ephC, c.serverPub) == pid {
        return Some(arr[i]);
      }
    }
    return None;
  }

  /** What a search finds matches, and a search that finds nothing has no match. */
  lemma {:induction false} FirstMatchIsMatch(S: Suite, l: Lookup, arr: seq<Entry>)
    ensures var r := FirstMatch(S, l, arr);
            && (r.Some? ==> r.value in arr && Hits(S, l, r.value))
            && (r.None? ==> forall e <- arr :: !Hits(S, l, e))
    decreases |arr|
  {
    hide Hits;
    if arr != [] && !Hits(S, l, arr[0]) {
      FirstMatchIsMatch(S, l, arr[1..]);
      assert forall e <- arr :: e == arr[0] || e in arr[1..];
    }
  }

  /** The record as the C server stores it. */
  function EntryOf(S: Suite, id: Bytes32, rec: DeviceRecord): Entry {
    Entry(id, S.compress(rec.pubkey), S.compress(rec.roleCommitment))
  }

  /** The C array and the Rust map hold the same records. */
  predicate SameRecords(S: Suite, reg: Registry, arr: seq<Entry>) {
    && (forall id <- reg :: EntryOf(S, id, reg[id]) in arr)
    && (forall e <- arr :: e.id in reg && e == EntryOf(S, e.id, reg[e.id]))
  }

  /** Without collisions the C searches find the record that the Rust index and the Rust scan find, wherever it stands. */
  lemma SearchesAgree(S: Suite, c: PidContext, st: State, arr: seq<Entry>, handle: Bytes16, pid: Bytes32,
                      scan: Option<(Bytes32, DeviceRecord)>)
    requires SameRecords(S, st.reg, arr) && IndexAgrees(S, st) && CollisionFree(S, c, st.reg) && IsScanResult(S, c, st.reg, pid, scan)
    ensures FirstMatch(S, ByHandle(handle), arr)
            == if handle in st.index then Some(EntryOf(S, st.index[handle].0, st.index[handle].1)) else None
    ensures FirstMatch(S, ByPid(c, pid), arr)
            == if scan.Some? then Some(EntryOf(S, scan.value.0, scan.value.1)) else None
  {
    FirstMatchIsMatch(S, ByHandle(handle), arr);
    FirstMatchIsMatch(S, ByPid(c, pid), arr);
    hide HandleFromBytes, PidFromBytes;
    var byHandle, byPid := FirstMatch(S, ByHandle(handle), arr), FirstMatch(S, ByPid(c, pid), arr);
    hide FirstMatch;
    if byHandle.Some? {
      assert DeviceHandle(S, st.reg[byHandle.value.id].pubkey) == handle;
    }
    if handle in st.index {
      assert EntryOf(S, st.index[handle].0, st.index[handle].1) in arr;
    }
    if byPid.Some? {
      assert PidOf(S, c, st.reg[byPid.value.id].pubkey) == pid;
    }
    if scan.Some? {
      assert EntryOf(S, scan.value.0, scan.value.1) in arr;
    }
  }

  // The file.

  function EntryBytes(e: Entry): (s: seq<byte>)
    ensures |s| == 96
  {
    e.id + e.pub + e.roleCommitment
  }

  function SaveEntries(arr: seq<Entry>): (s: seq<byte>)
    ensures |s| == 96 * |arr|
  {
    if arr == [] then [] else SaveEntries(arr[..|arr| - 1]) + EntryBytes(arr[|arr| - 1])
  }

  function ReadEntry(s: seq<byte>): Entry
    requires |s| == 96
  {
    Entry(s[0..32], s[32..64], s[64..96])
  }

  /** Read verbatim; a length that is not a multiple of 96 stops the server. */
  function LoadEntries(data: seq<byte>): Option<seq<Entry>> {
    if |data| % 96 != 0 then None
    else Some(seq(|data| / 96, i requires 0 <= i < |data| / 96 => ReadEntry(data[96 * i..96 * (i + 1)])))
  }

  lemma {:induction false} SavedSlice(arr: seq<Entry>, i: nat)
    requires i < |arr|
    ensures SaveEntries(arr)[96 * i..96 * (i + 1)] == EntryBytes(arr[i])
  {
    hide EntryBytes;
    var n := |arr| - 1;
    var head, tail := SaveEntries(arr[..n]), EntryBytes(arr[n]);
    if i < n {
      SavedSlice(arr[..n], i);
      assert (head + tail)[96 * i..96 * (i + 1)] == head[96 * i..96 * (i + 1)];
    } else {
      assert (head + tail)[96 * n..96 * (n + 1)] == tail;
    }
  }

  lemma EntryReads(e: Entry)
    ensures ReadEntry(EntryBytes(e)) == e
  {
    var b := EntryBytes(e);
    assert b[0..32] == e.id && b[32..64] == e.pub && b[64..96] == e.roleCommitment;
  }

  lemma EntriesRoundTrip(arr: seq<Entry>)
    ensures LoadEntries(SaveEntries(arr)) == Some(arr)
  {
    hide EntryBytes, ReadEntry, SaveEntries;
    var data := SaveEntries(arr);
    var loaded := LoadEntries(data).value;
    forall i | 0 <= i < |arr|
      ensures loaded[i] == arr[i]
    {
      SavedSlice(arr, i);
      EntryReads(arr[i]);
    }
    assert loaded == arr;
  }

  lemma BytesOfRead(s: seq<byte>)
    requires |s| == 96
    ensures EntryBytes(ReadEntry(s)) == s
  {
    assert s == s[0..32] + s[32..64] + s[64..96];
  }

  lemma {:induction false} SavedPrefix(data: seq<byte>, arr: seq<Entry>, n: nat)
    requires n <= |arr| && 96 * |arr| <= |data| && forall i :: 0 <= i < |arr| ==> arr[i] == ReadEntry(data[96 * i..96 * (i + 1)])
    ensures SaveEntries(arr[..n]) == data[..96 * n]
  {
    if n > 0 {
      hide EntryBytes, ReadEntry;
      SavedPrefix(data, arr, n - 1);
      BytesOfRead(data[96 * (n - 1)..96 * n]);
      assert arr[..n][..n - 1] == arr[..n - 1] && arr[..n][n - 1] == arr[n - 1];
      assert data[..96 * (n - 1)] + data[96 * (n - 1)..96 * n] == data[..96 * n];
    }
  }

  /** A file loads exactly if it is a whole number of records, and is then what saving the loaded array writes. */
  lemma LoadedFileIsSaved(data: seq<byte>)
    ensures LoadEntries(data).Some? <==> |data| % 96 == 0
    ensures LoadEntries(data).Some? ==> SaveEntries(LoadEntries(data).value) == data
  {
    if |data| % 96 == 0 {
      hide ReadEntry, SaveEntries;
      var arr := LoadEntries(data).value;
      SavedPrefix(data, arr, |arr|);
      assert arr[..|arr|] == arr && data[..96 * |arr|] == data;
    }
  }

  /** The C server's array for a registry listed in some order. */
  function EntriesOf(S: Suite, reg: Registry, ids: seq<Bytes32>): (arr: seq<Entry>)
    requires forall id <- ids :: id in reg
    ensures |arr| == |ids|
  {
    if ids == [] then []
    else
      assert ids[|ids| - 1] in ids;
      EntriesOf(S, reg, ids[..|ids| - 1]) + [EntryOf(S, ids[|ids| - 1], reg[ids[|ids| - 1]])]
  }

  /** Both servers write the same file for the same records, so each can read the other's. */
  lemma {:induction false} SameFile(S: Suite, reg: Registry, ids: seq<Bytes32>)
    requires forall id <- ids :: id in reg
    ensures SaveEntries(EntriesOf(S, reg, ids)) == SaveImage(S, reg, ids)
  {
    if ids != [] {
      var front, last := ids[..|ids| - 1], ids[|ids| - 1];
      assert last in ids;
      SameFile(S, reg, front);
      var arr := EntriesOf(S, reg, ids);
      assert arr[..|arr| - 1] == EntriesOf(S, reg, front);
      assert EntryBytes(arr[|arr| - 1]) == RecordBytes(S, last, reg[last]);
    }
  }
}
