/**
 When restoring a chain reproduces the snapshot its last increment was taken from. Each theorem
 that needs the content digest to have no collisions says so.
 */
module ChainRestore {
  import opened Bytes
  import opened Wrappers
  import opened HeapDelta
  import opened BackupChain

  // ---------- when one increment is exact ----------

  /** `dest` holds every file of `files`, byte for byte. It may hold others. */
  predicate Agrees(dest: Files, files: Files) {
    forall name :: name in files ==> name in dest && dest[name] == files[name]
  }

  /** What the increment on `base` leaves out of this file is already in `dest`. */
  predicate Covered(hash: bytes -> string, base: Manifest, dest: Files, name: string, content: bytes) {
    match ChangeOf(hash, base, name, content)
    case None => name in dest && dest[name] == content
    case Some(Whole(_, _, _)) => true
    case Some(Pages(_, _, _, _, _, _)) => Holds(Held(dest, name), content, base.sourceLsn)
  }

  predicate Distinct(names: seq<string>) {
    forall i, j :: 0 <= i < j < |names| ==> names[i] != names[j]
  }

  lemma OneChange(hash: bytes -> string, base: Manifest, dest: Files, name: string, content: bytes)
    requires ValidName(name)
    ensures var c := ChangeOf(hash, base, name, content);
            c.Some? ==>
              && c.value.name == name
              && ApplyChange(hash, dest, c.value).Some?
              && var r := ApplyChange(hash, dest, c.value).value;
                 && r.Keys == dest.Keys + {name}
                 && (forall n :: n in dest && n != name ==> r[n] == dest[n])
                 && (r[name] == content <==> Covered(hash, base, dest, name, content))
    ensures ChangeOf(hash, base, name, content).None? ==>
              (Covered(hash, base, dest, name, content) <==> name in dest && dest[name] == content)
  {
    hide Holds, DeltaOf, PagesPast, Patch;
    var c := ChangeOf(hash, base, name, content);
    if c.Some? && c.value.Pages? {
      DeltaIsExact(Held(dest, name), content, base.sourceLsn);
    }
  }

  lemma CoveredElsewhere(hash: bytes -> string, base: Manifest, a: Files, b: Files, name: string, content: bytes)
    requires (name in a <==> name in b) && (name in a ==> a[name] == b[name])
    ensures Covered(hash, base, a, name, content) == Covered(hash, base, b, name, content)
  {
    hide ChangeOf, Holds;
  }

  predicate Shipped(hash: bytes -> string, base: Manifest, files: Files, names: seq<string>, n: string) {
    n in names && n in files && ChangeOf(hash, base, n, files[n]).Some?
  }

  /** Replaying a list of files: each is right exactly when it was covered; nothing else moves. */
  lemma {:induction false} ReplayedFiles(hash: bytes -> string, base: Manifest, dest: Files, files: Files, names: seq<string>)
    requires Distinct(names)
    requires forall i :: 0 <= i < |names| && names[i] in files ==> ValidName(names[i])
    ensures var r := ApplyChanges(hash, dest, ChangesOf(hash, base, files, names));
            && r.Some?
            && (forall n :: n in r.value <==> n in dest || Shipped(hash, base, files, names, n))
            && (forall n :: n in dest && !Shipped(hash, base, files, names, n) ==> r.value[n] == dest[n])
            && (forall n :: n in names && n in files ==>
                  ((n in r.value && r.value[n] == files[n]) <==> Covered(hash, base, dest, n, files[n])))
    decreases names
  {
    hide Covered, ChangeOf, ApplyChange;
    if names != [] {
      var name, rest := names[0], names[1..];
      assert forall n :: n in names <==> n == name || n in rest;
      assert name !in rest;
      if name !in files {
        ReplayedFiles(hash, base, dest, files, rest);
      } else {
        OneChange(hash, base, dest, name, files[name]);
        match ChangeOf(hash, base, name, files[name]) {
          case None =>
            ReplayedFiles(hash, base, dest, files, rest);
          case Some(c) =>
            var next := ApplyChange(hash, dest, c).value;
            var tail := ChangesOf(hash, base, files, rest);
            assert ChangesOf(hash, base, files, names) == [c] + tail;
            assert ([c] + tail)[1..] == tail;
            ReplayedFiles(hash, base, next, files, rest);
            forall n | n in rest && n in files
              ensures Covered(hash, base, dest, n, files[n]) == Covered(hash, base, next, n, files[n])
            {
              CoveredElsewhere(hash, base, dest, next, n, files[n]);
            }
        }
      }
    }
  }

  ghost predicate NamesOf(names: seq<string>, files: Files) {
    && Distinct(names)
    && (forall n :: n in files ==> n in names)
    && (forall n :: n in files ==> ValidName(n))
  }

  /**
   One increment is exact if and only if everything it leaves out is already in place. Replaying it
   never fails, and files the snapshot does not have keep their old content.
   */
  lemma IncrementIsExact(hash: bytes -> string, base: Manifest, dest: Files, files: Files, names: seq<string>)
    requires NamesOf(names, files)
    ensures var r := ApplyChanges(hash, dest, ChangesOf(hash, base, files, names));
            && r.Some?
            && (Agrees(r.value, files) <==> forall n :: n in files ==> Covered(hash, base, dest, n, files[n]))
            && (forall n :: n in r.value && n !in files ==> n in dest && r.value[n] == dest[n])
  {
    ReplayedFiles(hash, base, dest, files, names);
  }

  // ---------- when a whole chain is exact ----------

  /** The manifest a backup of `snap` itself would carry. */
  ghost predicate Effective(hash: bytes -> string, m: Manifest, snap: Snapshot) {
    && m.sourceLsn == snap.lsn && m.catalogVersion == snap.catalogVersion && m.sync == snap.sync
    && forall name, digest :: Lists(m, name, digest) <==> name in snap.files && digest == hash(snap.files[name])
  }

  /**
   The page-LSN rule between consecutive snapshots: a heap page of `after` with an LSN no newer
   than `before` was in `before`, in the same place with the same bytes.
   */
  predicate PageLsnRule(before: Snapshot, after: Snapshot) {
    forall name :: name in after.files && ByPages(name, after.files[name]) ==>
      var content := after.files[name];
      && PageCount(content) < PAGE_COUNT_LIMIT
      && (content == [] ==> name in before.files)
      && forall i :: 0 <= i < PageCount(content) && PageLsn(PageAt(content, i)) <= before.lsn ==>
           && name in before.files && i < PageCount(before.files[name])
           && PageAt(before.files[name], i) == PageAt(content, i)
  }

  predicate NoShrink(before: Snapshot, after: Snapshot) {
    forall name :: name in before.files && name in after.files && ByPages(name, after.files[name]) ==>
      |before.files[name]| <= |after.files[name]|
  }

  predicate Continues(before: Snapshot, after: Snapshot) {
    TransitionOk(before.catalogVersion, after.catalogVersion) && before.sync == after.sync
  }

  /** Every file in `dest` is as some snapshot of `history` had it. */
  ghost predicate FromHistory(dest: Files, history: seq<Snapshot>, upTo: nat)
    requires upTo < |history|
  {
    forall name :: name in dest ==> WasIn(history, upTo, name, dest[name])
  }

  ghost predicate WasIn(history: seq<Snapshot>, upTo: nat, name: string, content: bytes)
    requires upTo < |history|
  {
    exists k :: 0 <= k <= upTo && name in history[k].files && history[k].files[name] == content
  }

  /** Under the page-LSN rule, the shipped pages are exactly what an old enough copy lacks. */
  lemma HeapCovered(dest: Files, before: Snapshot, after: Snapshot, name: string)
    requires Agrees(dest, before.files)
    requires PageLsnRule(before, after) && name in after.files && ByPages(name, after.files[name])
    requires |Held(dest, name)| <= |after.files[name]|
    ensures PagesPast(after.files[name], before.lsn, RecordedPages(after.files[name])) != [] ==>
              Holds(Held(dest, name), after.files[name], before.lsn)
    ensures PagesPast(after.files[name], before.lsn, RecordedPages(after.files[name])) == [] ==>
              name in dest && dest[name] == after.files[name]
  {
    var content, held := after.files[name], Held(dest, name);
    var total := RecordedPages(content);
    var indices := PagesPast(content, before.lsn, total);
    assert total == PageCount(content);
    var start := Extend(held, total * PAGE);
    forall i | 0 <= i < PageCount(content) && i !in indices
      ensures i < PageCount(held) && PageAt(start, i) == PageAt(content, i) && name in before.files
    {
      assert PageLsn(PageAt(content, i)) <= before.lsn;
      assert held == before.files[name];
      assert start[i * PAGE..(i + 1) * PAGE] == held[i * PAGE..(i + 1) * PAGE];
    }
    if indices == [] {
      if content != [] {
        assert 0 < PageCount(content) && PageCount(content) - 1 !in indices;
        assert PageCount(content) <= PageCount(held);
      }
      assert |held| == |content| && start == held;
      EqualByPages(content, held);
    }
  }

  /** One link: from a directory that agrees with `before` to one that agrees with `after`. */
  lemma ChainLink(hash: bytes -> string, base: Manifest, dest: Files, before: Snapshot, after: Snapshot, names: seq<string>)
    requires NamesOf(names, after.files) && Agrees(dest, before.files)
    requires base.sourceLsn == before.lsn && PageLsnRule(before, after)
    requires forall name :: name in dest && name in after.files && ByPages(name, after.files[name]) ==>
               |dest[name]| <= |after.files[name]|
    ensures ApplyChanges(hash, dest, ChangesOf(hash, base, after.files, names)).Some?
    ensures Agrees(ApplyChanges(hash, dest, ChangesOf(hash, base, after.files, names)).value, after.files) <==>
            forall n :: n in after.files && !ByPages(n, after.files[n]) && Lists(base, n, hash(after.files[n])) ==>
              n in dest && dest[n] == after.files[n]
    ensures forall n :: n in ApplyChanges(hash, dest, ChangesOf(hash, base, after.files, names)).value && n !in after.files ==>
              n in dest && ApplyChanges(hash, dest, ChangesOf(hash, base, after.files, names)).value[n] == dest[n]
  {
    IncrementIsExact(hash, base, dest, after.files, names);
    forall n | n in after.files && ByPages(n, after.files[n])
      ensures Covered(hash, base, dest, n, after.files[n])
    {
      HeapCovered(dest, before, after, n);
    }
  }

  /** The increment taken from `snap` on top of `base`. */
  function Taken(hash: bytes -> string, base: Manifest, snap: Snapshot, names: seq<string>): Increment {
    Increment(base.sourceLsn, snap.lsn, snap.catalogVersion, snap.sync, ChangesOf(hash, base, snap.files, names))
  }

  /** `incs[k]` was taken from `history[k + 1]` on the effective manifest of `history[k]`. */
  ghost predicate IsChain(hash: bytes -> string, history: seq<Snapshot>, bases: seq<Manifest>, names: seq<seq<string>>,
                          incs: seq<Increment>)
  {
    && |history| == |incs| + 1 && |bases| == |names| == |incs|
    && forall k :: 0 <= k < |incs| ==>
         && Effective(hash, bases[k], history[k])
         && Continues(history[k], history[k + 1])
         && PageLsnRule(history[k], history[k + 1])
         && NamesOf(names[k], history[k + 1].files)
         && incs[k] == Taken(hash, bases[k], history[k + 1], names[k])
  }

  ghost predicate NeverShrinks(history: seq<Snapshot>) {
    forall j, k :: 0 <= j < k < |history| ==> NoShrink(history[j], history[k])
  }

  function Start(s: Snapshot): Running {
    Running(s.files, s.lsn, s.catalogVersion)
  }

  /** A manifest of `snap` that names each of its files once. */
  ghost predicate IsFullBackup(hash: bytes -> string, m: Manifest, snap: Snapshot) {
    && Effective(hash, m, snap)
    && (forall i, j :: 0 <= i < j < |m.files| ==> m.files[i].name != m.files[j].name)
    && (forall name :: name in snap.files ==> ValidName(name))
  }

  lemma FullCopyOf(hash: bytes -> string, m: Manifest, snap: Snapshot)
    requires IsFullBackup(hash, m, snap)
    ensures FullCopy(hash, m.files, snap.files) == Some(snap.files)
  {
    forall i | 0 <= i < |m.files|
      ensures m.files[i].name in snap.files && m.files[i].digest == hash(snap.files[m.files[i].name])
    {
      assert Lists(m, m.files[i].name, m.files[i].digest);
    }
    FullCopyIsExact(hash, m.files, snap.files);
    forall name | name in snap.files ensures Named(m.files, name) {
      assert Lists(m, name, hash(snap.files[name]));
    }
    assert FullCopy(hash, m.files, snap.files).value == snap.files;
  }

  /**
   Restoring the full backup and any prefix of the chain reproduces that snapshot: every durable
   file it has is there, byte for byte.
   */
  lemma ChainRestoreIsExact(hash: bytes -> string, manifest: Manifest, history: seq<Snapshot>, bases: seq<Manifest>,
                            names: seq<seq<string>>, incs: seq<Increment>, k: nat)
    requires CollisionFree(hash)
    requires history != [] && IsFullBackup(hash, manifest, history[0])
    requires IsChain(hash, history, bases, names, incs) && NeverShrinks(history)
    requires k <= |incs|
    ensures var r := Restore(hash, manifest, history[0].files, incs[..k]);
            && r.Some?
            && Agrees(r.value.files, history[k].files)
            && r.value.lsn == history[k].lsn && r.value.catalogVersion == history[k].catalogVersion
  {
    FullCopyOf(hash, manifest, history[0]);
    ReplayedPrefix(hash, history, bases, names, incs, k);
  }

  lemma ChainStart(history: seq<Snapshot>)
    requires history != []
    ensures Agrees(history[0].files, history[0].files) && FromHistory(history[0].files, history, 0)
  {
  }

  lemma {:induction false} ReplayedPrefix(hash: bytes -> string, history: seq<Snapshot>, bases: seq<Manifest>,
                                          names: seq<seq<string>>, incs: seq<Increment>, k: nat)
    requires CollisionFree(hash)
    requires IsChain(hash, history, bases, names, incs) && NeverShrinks(history)
    requires k <= |incs|
    ensures var r := RestoreFrom(hash, history[0].sync, Start(history[0]), incs[..k]);
            && r.Some?
            && Agrees(r.value.files, history[k].files)
            && r.value.lsn == history[k].lsn && r.value.catalogVersion == history[k].catalogVersion
            && history[k].sync == history[0].sync
            && FromHistory(r.value.files, history, k)
  {
    hide Agrees, FromHistory, ApplyChanges, ChangesOf, NeverShrinks;
    if k == 0 {
      ChainStart(history);
    } else {
      ReplayedPrefix(hash, history, bases, names, incs, k - 1);
      assert incs[..k][..k - 1] == incs[..k - 1];
      var at := RestoreFrom(hash, history[0].sync, Start(history[0]), incs[..k - 1]).value;
      NextLink(hash, history, k, bases[k - 1], names[k - 1], at.files);
    }
  }

  lemma NextLink(hash: bytes -> string, history: seq<Snapshot>, k: nat, base: Manifest, names: seq<string>, dest: Files)
    requires CollisionFree(hash) && NeverShrinks(history) && 0 < k < |history|
    requires Effective(hash, base, history[k - 1]) && PageLsnRule(history[k - 1], history[k])
    requires NamesOf(names, history[k].files)
    requires Agrees(dest, history[k - 1].files) && FromHistory(dest, history, k - 1)
    ensures var r := ApplyChanges(hash, dest, ChangesOf(hash, base, history[k].files, names));
            r.Some? && Agrees(r.value, history[k].files) && FromHistory(r.value, history, k)
  {
    var before, after := history[k - 1], history[k];
    HistoryFits(dest, history, k);
    ChainLink(hash, base, dest, before, after, names);
    forall n | n in after.files && Lists(base, n, hash(after.files[n]))
      ensures n in dest && dest[n] == after.files[n]
    {
      assert hash(before.files[n]) == hash(after.files[n]);
    }
    HistoryKept(dest, ApplyChanges(hash, dest, ChangesOf(hash, base, after.files, names)).value, history, k);
  }

  /** No file left over from an older snapshot is longer than the heap about to be written over it. */
  lemma HistoryFits(dest: Files, history: seq<Snapshot>, k: nat)
    requires 0 < k < |history| && NeverShrinks(history) && FromHistory(dest, history, k - 1)
    ensures forall name :: name in dest && name in history[k].files && ByPages(name, history[k].files[name]) ==>
              |dest[name]| <= |history[k].files[name]|
  {
    forall name | name in dest && name in history[k].files && ByPages(name, history[k].files[name])
      ensures |dest[name]| <= |history[k].files[name]|
    {
      assert WasIn(history, k - 1, name, dest[name]);
      var j :| 0 <= j <= k - 1 && name in history[j].files && history[j].files[name] == dest[name];
      assert NoShrink(history[j], history[k]);
    }
  }

  lemma HistoryKept(dest: Files, files: Files, history: seq<Snapshot>, k: nat)
    requires 0 < k < |history| && FromHistory(dest, history, k - 1)
    requires Agrees(files, history[k].files)
    requires forall n :: n in files && n !in history[k].files ==> n in dest && files[n] == dest[n]
    ensures FromHistory(files, history, k)
  {
    forall name | name in files ensures WasIn(history, k, name, files[name]) {
      if name !in history[k].files {
        assert WasIn(history, k - 1, name, dest[name]);
      }
    }
  }

  // ---------- what breaks it ----------

  /** The full backup's manifest moved on to a later snapshot without its file entries. */
  function MovedOn(m: Manifest, snap: Snapshot): Manifest {
    m.(sourceLsn := snap.lsn, catalogVersion := snap.catalogVersion)
  }

  lemma RestoreTwo(hash: bytes -> string, sync: Option<SyncId>, at: Running, a: Increment, b: Increment)
    ensures RestoreFrom(hash, sync, at, [a, b]) ==
            match ApplyIncrement(hash, sync, at, a)
            case None => None
            case Some(mid) => ApplyIncrement(hash, sync, mid, b)
  {
    hide ApplyIncrement;
    assert [a, b][..1] == [a] && [a][..0] == [];
    assert RestoreFrom(hash, sync, at, []) == Some(at);
    assert RestoreFrom(hash, sync, at, [a]) == ApplyIncrement(hash, sync, at, a);
  }

  /**
   A base manifest that still lists the full backup's digests is not the effective one. A file that
   changed and then went back is taken for unchanged by the second increment, so restoring the chain
   succeeds and brings back the middle version, not the snapshot's.
   */
  lemma RevertedFileIsLost(hash: bytes -> string, full: Manifest, first: Snapshot, second: Snapshot, third: Snapshot,
                           names: seq<string>, namesAfter: seq<string>, name: string)
    requires CollisionFree(hash) && IsFullBackup(hash, full, first)
    requires Continues(first, second) && Continues(second, third)
    requires NamesOf(names, second.files) && NamesOf(namesAfter, third.files)
    requires !IsHeap(name) && name in first.files && name in second.files && name in third.files
    requires third.files[name] == first.files[name] != second.files[name]
    ensures var r := Restore(hash, full, first.files,
                             [Taken(hash, full, second, names), Taken(hash, MovedOn(full, second), third, namesAfter)]);
            && r.Some? && r.value.lsn == third.lsn
            && name in r.value.files && r.value.files[name] == second.files[name] != third.files[name]
            && !Agrees(r.value.files, third.files)
  {
    hide FullCopy, ApplyChanges, ChangesOf;
    FullCopyOf(hash, full, first);
    var base := MovedOn(full, second);
    var a, b := Taken(hash, full, second, names), Taken(hash, base, third, namesAfter);
    ReplayedFiles(hash, full, first.files, second.files, names);
    assert !Lists(full, name, hash(second.files[name]));
    var mid := ApplyChanges(hash, first.files, a.changed).value;
    assert mid[name] == second.files[name];
    assert Lists(full, name, hash(third.files[name]));
    assert ChangeOf(hash, base, name, third.files[name]).None?;
    ReplayedFiles(hash, base, mid, third.files, namesAfter);
    RestoreTwo(hash, full.sync, Start(first), a, b);
  }

  /** Some page is newer than `lsn`, and every other page is all zeros. */
  predicate BlankBefore(content: bytes, lsn: nat) {
    && (exists i :: 0 <= i < PageCount(content) && PageLsn(PageAt(content, i)) > lsn)
    && forall i :: 0 <= i < PageCount(content) && PageLsn(PageAt(content, i)) <= lsn ==> Blank(PageAt(content, i))
  }

  predicate Blank(p: page) {
    forall k :: 0 <= k < PAGE ==> p[k] == 0
  }

  lemma NewHeapHolds(content: bytes, lsn: nat)
    requires |content| % PAGE == 0
    ensures PagesPast(content, lsn, RecordedPages(content)) != [] && Holds([], content, lsn) <==>
            PageCount(content) < PAGE_COUNT_LIMIT && BlankBefore(content, lsn)
  {
    hide PageLsn;
    var total := RecordedPages(content);
    var newer, start := PagesPast(content, lsn, total), Extend([], total * PAGE);
    if PageCount(content) < PAGE_COUNT_LIMIT {
      assert total == PageCount(content);
      assert newer != [] ==> newer[0] in newer;
      forall i | 0 <= i < total ensures PageAt(start, i) == PageAt(content, i) <==> Blank(PageAt(content, i)) {
        forall k | 0 <= k < PAGE ensures PageAt(start, i)[k] == 0 {
          assert PageAt(start, i)[k] == start[i * PAGE + k];
        }
      }
    }
  }

  /**
   A heap created after the base is restored if and only if its page count fits its field, some page
   is newer than the base, and every page that is not is all zeros. With no newer page among those
   recorded, the heap is left out altogether.
   */
  lemma NewHeapIsExact(hash: bytes -> string, base: Manifest, dest: Files, files: Files, names: seq<string>, name: string)
    requires NamesOf(names, files) && name in files && ByPages(name, files[name]) && name !in dest
    ensures var r := ApplyChanges(hash, dest, ChangesOf(hash, base, files, names));
            && r.Some?
            && (name in r.value && r.value[name] == files[name] <==>
                  PageCount(files[name]) < PAGE_COUNT_LIMIT && BlankBefore(files[name], base.sourceLsn))
            && (name in r.value <==> PagesPast(files[name], base.sourceLsn, RecordedPages(files[name])) != [])
  {
    ReplayedFiles(hash, base, dest, files, names);
    NewHeapHolds(files[name], base.sourceLsn);
  }

  /** A heap's superblock page carries LSN zero and is not blank, so no heap created after the base survives. */
  lemma NewHeapLosesItsSuperblock(hash: bytes -> string, base: Manifest, dest: Files, files: Files, names: seq<string>,
                                  name: string)
    requires NamesOf(names, files) && name in files && ByPages(name, files[name]) && name !in dest
    requires PageCount(files[name]) > 0 && PageLsn(PageAt(files[name], 0)) == 0 && !Blank(PageAt(files[name], 0))
    ensures var r := ApplyChanges(hash, dest, ChangesOf(hash, base, files, names));
            r.Some? && !(name in r.value && r.value[name] == files[name]) && !Agrees(r.value, files)
  {
    NewHeapIsExact(hash, base, dest, files, names, name);
  }

  lemma NotHeld(held: bytes, content: bytes, lsn: nat, i: nat)
    requires i < PageCount(content) && i < PageCount(held)
    requires PageLsn(PageAt(content, i)) <= lsn && PageAt(content, i) != PageAt(held, i)
    ensures !Holds(held, content, lsn) && held != content
  {
    hide PageLsn;
    var total := RecordedPages(content);
    var start := Extend(held, total * PAGE);
    assert start[i * PAGE..(i + 1) * PAGE] == held[i * PAGE..(i + 1) * PAGE];
    assert i !in PagesPast(content, lsn, total);
    if |start| == |content| {
      assert PageAt(start, i) == PageAt(held, i);
    }
  }

  /**
   A page the increment does not ship stays as the destination has it, so a heap with a page that
   differs and is not past the base cannot come back.
   */
  lemma StalePageIsLost(hash: bytes -> string, base: Manifest, dest: Files, files: Files, names: seq<string>, name: string,
                        i: nat)
    requires NamesOf(names, files) && name in files && ByPages(name, files[name]) && name in dest
    requires i < PageCount(files[name]) && i < PageCount(dest[name])
    requires PageLsn(PageAt(files[name], i)) <= base.sourceLsn && PageAt(files[name], i) != PageAt(dest[name], i)
    ensures var r := ApplyChanges(hash, dest, ChangesOf(hash, base, files, names));
            r.Some? && name in r.value && r.value[name] != files[name] && !Agrees(r.value, files)
  {
    hide PageLsn, ApplyChanges, ChangesOf, Holds, PageAt, PageCount, DeltaOf, PagesPast, Shipped;
    ReplayedFiles(hash, base, dest, files, names);
    NotHeld(dest[name], files[name], base.sourceLsn, i);
    assert !Covered(hash, base, dest, name, files[name]);
  }

  /**
   Raising a heap's format version rewrites its superblock in place without a newer LSN. A full backup
   from before and an increment from after then restore to something that is not the later snapshot.
   */
  lemma RewrittenSuperblockIsLost(hash: bytes -> string, full: Manifest, first: Snapshot, second: Snapshot,
                                  names: seq<string>, name: string)
    requires IsFullBackup(hash, full, first) && Continues(first, second) && NamesOf(names, second.files)
    requires name in first.files && name in second.files && ByPages(name, second.files[name])
    requires PageCount(first.files[name]) > 0 && PageCount(second.files[name]) > 0
    requires var before, after := PageAt(first.files[name], 0), PageAt(second.files[name], 0);
             PageLsn(after) <= first.lsn && before != after
    ensures var r := Restore(hash, full, first.files, [Taken(hash, full, second, names)]);
            && r.Some? && r.value.lsn == second.lsn
            && name in r.value.files && r.value.files[name] != second.files[name]
            && !Agrees(r.value.files, second.files)
  {
    hide FullCopy, ApplyChanges, ChangesOf, PageLsn, Agrees;
    FullCopyOf(hash, full, first);
    StalePageIsLost(hash, full, first.files, second.files, names, name, 0);
    var inc := Taken(hash, full, second, names);
    assert [inc][..0] == [];
    assert RestoreFrom(hash, full.sync, Start(first), []) == Some(Start(first));
    assert RestoreFrom(hash, full.sync, Start(first), [inc]) == ApplyIncrement(hash, full.sync, Start(first), inc);
  }
}
