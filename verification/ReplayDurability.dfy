/** Runs of the C server's replay cache with lazy writes, failures and restarts. */
module ReplayDurability {
  import opened Bytes
  import opened Replay
  import opened ReplayC

  datatype Event =
    | Auth(key: Key, outOfMemory: bool, now: nat, saves: bool)
    | Restart(now: nat)

  /** What happened to the arrays since the file was last written or read. */
  datatype Change = Added(key: Key) | Turned

  /** The store with the keys accepted so far and the changes its file does not have yet. */
  datatype History = History(store: Store, accepted: seq<Key>, unsaved: seq<Change>)

  function Apply(m: nat, a: Arrays, changes: seq<Change>): Arrays {
    if changes == [] then a
    else
      var before := Apply(m, a, changes[..|changes| - 1]);
      match changes[|changes| - 1]
      case Added(k) => InsertArrays(m, before, k)
      case Turned => Rotate(m, before)
  }

  function AddedKeys(changes: seq<Change>): seq<Key> {
    if changes == [] then []
    else
      var before := AddedKeys(changes[..|changes| - 1]);
      match changes[|changes| - 1]
      case Added(k) => before + [k]
      case Turned => before
  }

  /** The arrays the file holds; none yet means empty ones. */
  function Snapshot(disk: Option<seq<byte>>): Arrays {
    match LoadStore(disk, 0)
    case Ok(s) => s.arrays
    case Err(_) => Arrays([], [])
  }

  function Step(m: nat, h: History, e: Event): History {
    match e
    case Restart(now) =>
      (match LoadStore(h.store.disk, now)
       case Ok(s) => History(s, h.accepted, [])
       case Err(_) => h)
    case Auth(key, oom, now, saves) =>
      var s' := AuthRequest(m, h.store, key, oom, now, saves).0;
      if Known(h.store.arrays, key) then h.(store := s')
      else if oom then h.(store := s', unsaved := if |h.store.arrays.current| >= m then h.unsaved + [Turned] else h.unsaved)
      else History(s', h.accepted + [key], if s'.pending == 0 then [] else h.unsaved + [Added(key)])
  }

  function RunEvents(m: nat, h: History, es: seq<Event>): History {
    if es == [] then h else Step(m, RunEvents(m, h, es[..|es| - 1]), es[|es| - 1])
  }

  /** Replaying the unsaved changes on the file gives the cache, and `pending` of them added keys, the last accepted ones. */
  predicate Consistent(m: nat, h: History) {
    var s := h.store;
    && 1 <= m < 0x1_0000_0000
    && ValidArrays(m, s.arrays)
    && LoadStore(s.disk, 0).Ok? && ValidArrays(m, Snapshot(s.disk))
    && s.arrays == Apply(m, Snapshot(s.disk), h.unsaved)
    && (!s.dirty ==> h.unsaved == [])
    && s.pending == |AddedKeys(h.unsaved)| <= |h.accepted|
    && AddedKeys(h.unsaved) == h.accepted[|h.accepted| - s.pending..]
  }

  lemma ApplySnoc(m: nat, a: Arrays, changes: seq<Change>, c: Change)
    ensures Apply(m, a, changes + [c]) == (match c case Added(k) => InsertArrays(m, Apply(m, a, changes), k)
                                                   case Turned => Rotate(m, Apply(m, a, changes)))
    ensures AddedKeys(changes + [c]) == (match c case Added(k) => AddedKeys(changes) + [k] case Turned => AddedKeys(changes))
  {
    assert (changes + [c])[..|changes|] == changes;
  }

  lemma RotateKeepsValid(m: nat, a: Arrays)
    requires ValidArrays(m, a)
    ensures ValidArrays(m, Rotate(m, a))
  {
  }

  lemma WrittenSnapshot(m: nat, a: Arrays)
    requires ValidArrays(m, a) && m < 0x1_0000_0000
    ensures LoadStore(Some(Image(a.current, a.previous)), 0).Ok?
    ensures Snapshot(Some(Image(a.current, a.previous))) == a
  {
    ParseImageInverts(a.current, a.previous);
  }

  lemma ConsistentAfterAdd(m: nat, h: History, key: Key, a: Arrays)
    requires Consistent(m, h) && ValidArrays(m, a) && a == InsertArrays(m, h.store.arrays, key)
    ensures Consistent(m, History(h.store.(arrays := a, dirty := true, pending := h.store.pending + 1),
                                  h.accepted + [key], h.unsaved + [Added(key)]))
  {
    hide ValidArrays, LoadStore, InsertArrays, Snapshot;
    ApplySnoc(m, Snapshot(h.store.disk), h.unsaved, Added(key));
    var n := |h.accepted| - h.store.pending;
    assert (h.accepted + [key])[n..] == h.accepted[n..] + [key];
  }

  lemma ConsistentAfterSave(m: nat, a: Arrays, now: nat, accepted: seq<Key>)
    requires ValidArrays(m, a) && m < 0x1_0000_0000
    ensures Consistent(m, History(Store(a, false, 0, now, Some(Image(a.current, a.previous))), accepted, []))
  {
    WrittenSnapshot(m, a);
    assert ValidArrays(m, a) ==> m >= 1;
    hide ValidArrays, LoadStore, Snapshot, Image;
    assert accepted[|accepted|..] == [];
  }

  /** An accepted key leaves the store either waiting for a write or just written. */
  lemma AcceptedHistory(m: nat, h: History, key: Key, now: nat, saves: bool)
    requires !Known(h.store.arrays, key)
    ensures var a := InsertArrays(m, h.store.arrays, key);
            var next := Step(m, h, Auth(key, false, now, saves));
            || next == History(h.store.(arrays := a, dirty := true, pending := h.store.pending + 1),
                               h.accepted + [key], h.unsaved + [Added(key)])
            || next == History(Store(a, false, 0, now, Some(Image(a.current, a.previous))), h.accepted + [key], [])
  {
    hide InsertArrays, Known, Image;
  }

  lemma AcceptKeepsConsistent(m: nat, h: History, key: Key, now: nat, saves: bool)
    requires Consistent(m, h) && !Known(h.store.arrays, key)
    ensures Consistent(m, Step(m, h, Auth(key, false, now, saves)))
  {
    ConsistentMeansValid(m, h);
    hide Consistent, ValidArrays, LoadStore, Snapshot, Image, InsertArrays, Known, Step;
    var a := InsertArrays(m, h.store.arrays, key);
    InsertRefines(m, h.store.arrays, key);
    ConsistentAfterAdd(m, h, key, a);
    ConsistentAfterSave(m, a, now, h.accepted + [key]);
    AcceptedHistory(m, h, key, now, saves);
  }

  lemma ConsistentMeansValid(m: nat, h: History)
    requires Consistent(m, h)
    ensures 1 <= m < 0x1_0000_0000 && ValidArrays(m, h.store.arrays)
  {
  }

  lemma RestartKeepsConsistent(m: nat, h: History, now: nat)
    requires Consistent(m, h)
    ensures Consistent(m, Step(m, h, Restart(now)))
  {
    hide ValidArrays, ParseImage;
    assert h.accepted[|h.accepted|..] == [];
  }

  /** Without memory at most the rotation happens. */
  lemma FailedInsertKeepsConsistent(m: nat, h: History, key: Key, now: nat, saves: bool)
    requires Consistent(m, h) && !Known(h.store.arrays, key)
    ensures Consistent(m, Step(m, h, Auth(key, true, now, saves)))
  {
    ApplySnoc(m, Snapshot(h.store.disk), h.unsaved, Turned);
    RotateKeepsValid(m, h.store.arrays);
    hide ValidArrays, LoadStore, Snapshot, Known;
  }

  lemma StepKeepsConsistent(m: nat, h: History, e: Event)
    requires Consistent(m, h)
    ensures Consistent(m, Step(m, h, e))
  {
    match e
    case Restart(now) =>
      RestartKeepsConsistent(m, h, now);
    case Auth(key, oom, now, saves) =>
      if Known(h.store.arrays, key) {
        hide Consistent, Known;
      } else if oom {
        FailedInsertKeepsConsistent(m, h, key, now, saves);
      } else {
        AcceptKeepsConsistent(m, h, key, now, saves);
      }
  }

  lemma {:induction false} RunsStayConsistent(m: nat, h: History, es: seq<Event>)
    requires Consistent(m, h)
    ensures Consistent(m, RunEvents(m, h, es))
  {
    if es != [] {
      RunsStayConsistent(m, h, es[..|es| - 1]);
      StepKeepsConsistent(m, RunEvents(m, h, es[..|es| - 1]), es[|es| - 1]);
    }
  }

  /** The file holds the arrays of `past`, since when exactly the pending keys were accepted. */
  predicate FileIsAsOf(h: History, past: History) {
    && h.store.pending <= |h.accepted|
    && Snapshot(h.store.disk) == past.store.arrays
    && past.accepted == h.accepted[..|h.accepted| - h.store.pending]
  }

  lemma CleanFileIsCurrent(m: nat, h: History)
    requires Consistent(m, h) && h.unsaved == []
    ensures FileIsAsOf(h, h)
  {
    hide ValidArrays, LoadStore, Snapshot;
    assert h.accepted[..|h.accepted|] == h.accepted;
  }

  lemma SavedFileIsCurrent(m: nat, a: Arrays, now: nat, accepted: seq<Key>)
    requires ValidArrays(m, a) && m < 0x1_0000_0000
    ensures var next := History(Store(a, false, 0, now, Some(Image(a.current, a.previous))), accepted, []);
            FileIsAsOf(next, next)
  {
    WrittenSnapshot(m, a);
    hide ValidArrays, LoadStore, Snapshot, Image;
    assert accepted[..|accepted|] == accepted;
  }

  lemma UnsavedKeyKeepsFile(h: History, key: Key, a: Arrays, past: History)
    requires FileIsAsOf(h, past)
    ensures FileIsAsOf(History(h.store.(arrays := a, dirty := true, pending := h.store.pending + 1),
                               h.accepted + [key], h.unsaved + [Added(key)]), past)
  {
    hide Snapshot;
    var n := |h.accepted| - h.store.pending;
    assert (h.accepted + [key])[..n] == h.accepted[..n];
  }

  lemma AcceptKeepsFile(m: nat, h: History, key: Key, now: nat, saves: bool, past: History)
    requires 1 <= m < 0x1_0000_0000 && ValidArrays(m, h.store.arrays) && !Known(h.store.arrays, key) && FileIsAsOf(h, past)
    ensures var next := Step(m, h, Auth(key, false, now, saves)); FileIsAsOf(next, past) || FileIsAsOf(next, next)
  {
    hide ValidArrays, Image, InsertArrays, Known, Step, FileIsAsOf;
    var a := InsertArrays(m, h.store.arrays, key);
    InsertRefines(m, h.store.arrays, key);
    AcceptedHistory(m, h, key, now, saves);
    SavedFileIsCurrent(m, a, now, h.accepted + [key]);
    UnsavedKeyKeepsFile(h, key, a, past);
  }

  lemma RestartReadsFile(m: nat, h: History, now: nat)
    requires LoadStore(h.store.disk, 0).Ok?
    ensures var next := Step(m, h, Restart(now)); next.unsaved == [] && FileIsAsOf(next, next)
  {
    assert h.accepted[..|h.accepted|] == h.accepted;
  }

  lemma OtherRequestKeepsFile(m: nat, h: History, e: Event, past: History)
    requires e.Auth? && (Known(h.store.arrays, e.key) || e.outOfMemory) && FileIsAsOf(h, past)
    ensures FileIsAsOf(Step(m, h, e), past)
  {
    hide Known, Rotate, Snapshot;
  }

  /** One event either leaves the file as it was, or leaves it with the arrays it ends with. */
  lemma StepKeepsFile(m: nat, h: History, e: Event, past: History)
    requires Consistent(m, h) && FileIsAsOf(h, past)
    ensures var next := Step(m, h, e); FileIsAsOf(next, past) || FileIsAsOf(next, next)
  {
    hide Known, Step, ValidArrays, LoadStore, Snapshot, FileIsAsOf;
    match e
    case Restart(now) =>
      RestartReadsFile(m, h, now);
    case Auth(key, oom, now, saves) =>
      if Known(h.store.arrays, key) || oom {
        OtherRequestKeepsFile(m, h, e, past);
      } else {
        AcceptKeepsFile(m, h, key, now, saves, past);
      }
  }

  /**
   Over every run, with any failures of memory or disk and any restarts, the file is the cache as
   it stood after an earlier event of the run, `pending` accepted keys ago.
   */
  lemma {:induction false} FileIsPendingInsertsBehind(m: nat, h: History, es: seq<Event>) returns (j: nat)
    requires Consistent(m, h) && h.unsaved == []
    ensures j <= |es| && FileIsAsOf(RunEvents(m, h, es), RunEvents(m, h, es[..j]))
  {
    hide Consistent, FileIsAsOf, Step;
    if es == [] {
      j := 0;
      CleanFileIsCurrent(m, h);
    } else {
      var n := |es| - 1;
      j := FileIsPendingInsertsBehind(m, h, es[..n]);
      RunsStayConsistent(m, h, es[..n]);
      assert es[..n][..j] == es[..j] && es[..|es|] == es;
      StepKeepsFile(m, RunEvents(m, h, es[..n]), es[n], RunEvents(m, h, es[..j]));
      if !FileIsAsOf(RunEvents(m, h, es), RunEvents(m, h, es[..j])) {
        j := |es|;
      }
    }
  }

  /** The start of a server on a file a valid cache wrote, or on none. */
  lemma FreshStartIsConsistent(m: nat, a: Arrays, now: nat)
    requires 1 <= m < 0x1_0000_0000 && ValidArrays(m, a)
    ensures Consistent(m, History(LoadStore(None, now).value, [], []))
    ensures var disk := Some(Image(a.current, a.previous));
            LoadStore(disk, now).Ok? && Consistent(m, History(LoadStore(disk, now).value, [], []))
            && LoadStore(disk, now).value.arrays == a
  {
    ParseImageInverts(a.current, a.previous);
  }

  lemma SavingStepStaysBelow(m: nat, h: History, e: Event)
    requires h.store.pending < REPLAY_PERSIST_EVERY_INSERTS && (e.Auth? ==> e.saves)
    ensures Step(m, h, e).store.pending < REPLAY_PERSIST_EVERY_INSERTS
  {
    hide Known, InsertArrays, Rotate, Image;
  }

  /** While saves succeed, at most 63 accepted keys are waiting for a write after any request. */
  lemma {:induction false} PendingStaysBelowThreshold(m: nat, h: History, es: seq<Event>)
    requires h.store.pending < REPLAY_PERSIST_EVERY_INSERTS
    requires forall e <- es :: e.Auth? ==> e.saves
    ensures RunEvents(m, h, es).store.pending < REPLAY_PERSIST_EVERY_INSERTS
  {
    if es != [] {
      hide Step;
      var front := es[..|es| - 1];
      assert forall e <- front :: e in es;
      PendingStaysBelowThreshold(m, h, front);
      assert es[|es| - 1] in es;
      SavingStepStaysBelow(m, RunEvents(m, h, front), es[|es| - 1]);
    }
  }

  /**
   A request gets past the replay stage only with a fresh key that is then remembered, and with the
   file either current or written less than two seconds ago and fewer than 64 keys behind; a fresh
   key is stopped only by memory or by a failed save.
   */
  lemma PassingMeansSaved(m: nat, s: Store, key: Key, outOfMemory: bool, now: nat, saves: bool)
    requires ValidArrays(m, s.arrays)
    ensures var (after, pass) := AuthRequest(m, s, key, outOfMemory, now, saves);
            && (pass ==>
                  && !Known(s.arrays, key) && Known(after.arrays, key)
                  && (|| (!after.dirty && after.pending == 0 && after.disk == Some(Image(after.arrays.current, after.arrays.previous)))
                      || (after.pending < 64 && after.pending == s.pending + 1 && 1 <= s.lastPersist && now - s.lastPersist < 2
                          && after.disk == s.disk && after.lastPersist == s.lastPersist)))
            && (!pass ==> Known(s.arrays, key) || outOfMemory || !saves)
  {
    InsertRefines(m, s.arrays, key);
    if !Known(s.arrays, key) {
      InsertKnows(m, s.arrays, key);
    }
    hide Image, InsertArrays, Known, ValidArrays, Rotate;
  }

  lemma InsertKnows(m: nat, a: Arrays, key: Key)
    requires ValidArrays(m, a) && !Known(a, key)
    ensures Known(InsertArrays(m, a, key), key)
  {
  }

  lemma {:induction false} ChangesOnlyAdd(m: nat, a: Arrays, changes: seq<Change>, k: Key)
    requires Known(Apply(m, a, changes), k)
    ensures Known(a, k) || k in AddedKeys(changes)
  {
    if changes != [] {
      var front, last := changes[..|changes| - 1], changes[|changes| - 1];
      var before := Apply(m, a, front);
      if Known(before, k) {
        ChangesOnlyAdd(m, a, front, k);
      } else {
        assert last.Added? && last.key == k;
      }
    }
  }

  /**
   A restart after any run always finds a readable file, and every key it forgets is among the
   last `pending` accepted ones: the last 63 at most when saves succeed.
   */
  lemma RestartLosesOnlyRecentKeys(m: nat, h: History, es: seq<Event>, now: nat, k: Key)
    requires Consistent(m, h) && h.store.pending < REPLAY_PERSIST_EVERY_INSERTS
    requires forall e <- es :: e.Auth? ==> e.saves
    ensures var before := RunEvents(m, h, es);
            var after := Step(m, before, Restart(now));
            && LoadStore(before.store.disk, now).Ok?
            && after.store.arrays == Snapshot(before.store.disk)
            && (Known(before.store.arrays, k) && !Known(after.store.arrays, k) ==>
                  && |before.accepted| >= before.store.pending
                  && before.store.pending <= 63
                  && k in before.accepted[|before.accepted| - before.store.pending..])
  {
    RunsStayConsistent(m, h, es);
    PendingStaysBelowThreshold(m, h, es);
    var before := RunEvents(m, h, es);
    if Known(before.store.arrays, k) && !Known(Snapshot(before.store.disk), k) {
      ChangesOnlyAdd(m, Snapshot(before.store.disk), before.unsaved, k);
    }
  }
}
