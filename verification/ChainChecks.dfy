/**
 What a backup stores and what a restore refuses. An increment stores a file exactly when it changed,
 and of a heap exactly the newer pages. A restore succeeds exactly when every name is legal, every
 payload hashes to what is recorded, every delta is in order and every increment continues the one
 before it; what the files held beforehand has no part in that.
 */
module ChainChecks {
  import opened Bytes
  import opened Wrappers
  import opened HeapDelta
  import opened BackupChain

  // ---------- what an increment stores ----------

  /** `base` and this content give the increment something to store. */
  predicate Changed(hash: bytes -> string, base: Manifest, name: string, content: bytes) {
    if IsHeap(name) && |content| % PAGE == 0 then
      exists i :: 0 <= i < RecordedPages(content) && PageLsn(PageAt(content, i)) > base.sourceLsn
    else
      forall k :: 0 <= k < |base.files| ==> base.files[k].name != name || base.files[k].digest != hash(content)
  }

  /** `c` is the record of this file: whole, or the pages past the base and nothing else. */
  ghost predicate Stores(hash: bytes -> string, base: Manifest, content: bytes, c: Change) {
    match c
    case Whole(name, digest, payload) =>
      !(IsHeap(name) && |content| % PAGE == 0) && payload == content && digest == hash(content)
    case Pages(name, total, indices, deltaFile, digest, payload) =>
      && IsHeap(name) && |content| % PAGE == 0 && total == RecordedPages(content) && deltaFile == name + ".delta"
      && digest == hash(payload) && |payload| == |indices| * RECORD
      && (forall i :: i in indices <==> 0 <= i < total && PageLsn(PageAt(content, i)) > base.sourceLsn)
      && (forall a, b :: 0 <= a < b < |indices| ==> indices[a] < indices[b])
      && Below(indices, PageCount(content))
      && (forall k :: 0 <= k < |indices| ==> Record(payload, k) == LE(indices[k], 4) + PageAt(content, indices[k]))
  }

  /** Record `k` of a delta: a page number and a page. */
  function Record(delta: bytes, k: nat): (r: bytes)
    requires (k + 1) * RECORD <= |delta|
  {
    delta[k * RECORD..(k + 1) * RECORD]
  }

  lemma {:induction false} DeltaRecord(file: bytes, indices: seq<nat>, k: nat)
    requires Below(indices, PageCount(file)) && k < |indices|
    ensures Record(DeltaOf(file, indices), k) == LE(indices[k], 4) + PageAt(file, indices[k])
    decreases k
  {
    var delta := DeltaOf(file, indices);
    if k == 0 {
      assert delta[..RECORD] == LE(indices[0], 4) + PageAt(file, indices[0]);
    } else {
      DeltaRecord(file, indices[1..], k - 1);
      LaterRecord(delta, k);
      assert delta[RECORD..] == DeltaOf(file, indices[1..]);
    }
  }

  lemma LaterRecord(delta: bytes, k: nat)
    requires k > 0 && (k + 1) * RECORD <= |delta|
    ensures Record(delta, k) == Record(delta[RECORD..], k - 1)
  {
    assert delta[RECORD..][(k - 1) * RECORD..k * RECORD] == delta[k * RECORD..(k + 1) * RECORD];
  }

  lemma OneRecord(hash: bytes -> string, base: Manifest, name: string, content: bytes)
    ensures ChangeOf(hash, base, name, content).Some? <==> Changed(hash, base, name, content)
    ensures var c := ChangeOf(hash, base, name, content);
            c.Some? ==> c.value.name == name && Stores(hash, base, content, c.value)
  {
    hide PageLsn, PageAt, DeltaOf, Record;
    if ByPages(name, content) {
      var total := RecordedPages(content);
      var indices := PagesPast(content, base.sourceLsn, total);
      assert indices != [] ==> indices[0] in indices;
      forall k | 0 <= k < |indices|
        ensures Record(DeltaOf(content, indices), k) == LE(indices[k], 4) + PageAt(content, indices[k])
      {
        DeltaRecord(content, indices, k);
      }
    } else if !Changed(hash, base, name, content) {
      var k :| 0 <= k < |base.files| && base.files[k].name == name && base.files[k].digest == hash(content);
      assert base.files[k] == Entry(name, hash(content));
    }
  }

  /** Some record of `cs` is of this file. */
  predicate Recorded(cs: seq<Change>, name: string) {
    exists k :: 0 <= k < |cs| && cs[k].name == name
  }

  ghost predicate AllStored(hash: bytes -> string, base: Manifest, files: Files, cs: seq<Change>) {
    forall k :: 0 <= k < |cs| ==> cs[k].name in files && Stores(hash, base, files[cs[k].name], cs[k])
  }

  lemma RecordedCons(c: Change, cs: seq<Change>, name: string)
    ensures Recorded([c] + cs, name) <==> c.name == name || Recorded(cs, name)
  {
    if c.name == name {
      assert ([c] + cs)[0].name == name;
    }
    if Recorded(cs, name) {
      var k :| 0 <= k < |cs| && cs[k].name == name;
      assert ([c] + cs)[k + 1].name == name;
    }
  }

  /** An increment holds a record for each file that changed, true to the file, and none for the others. */
  lemma {:induction false} OnlyChangesAreStored(hash: bytes -> string, base: Manifest, files: Files, names: seq<string>,
                                                name: string)
    ensures var cs := ChangesOf(hash, base, files, names);
            && AllStored(hash, base, files, cs)
            && (Recorded(cs, name) <==> name in names && name in files && Changed(hash, base, name, files[name]))
    decreases names
  {
    hide Changed, Stores, ChangeOf, Recorded;
    if names == [] {
      NothingRecorded(name);
    } else {
      OnlyChangesAreStored(hash, base, files, names[1..], name);
      var rest := ChangesOf(hash, base, files, names[1..]);
      if names[0] in files {
        OneRecord(hash, base, names[0], files[names[0]]);
        match ChangeOf(hash, base, names[0], files[names[0]]) {
          case None =>
          case Some(c) => RecordedCons(c, rest, name);
        }
      }
    }
  }

  lemma NothingRecorded(name: string)
    ensures !Recorded([], name)
  {
  }

  // ---------- what a restore accepts ----------

  /** Every record names the page the manifest does, and that page is one of the file's. */
  predicate InOrder(total: nat, indices: seq<nat>, delta: bytes)
    requires |delta| == |indices| * RECORD
  {
    forall k :: 0 <= k < |indices| ==> indices[k] < total && FromLE(Record(delta, k)[..4]) == indices[k]
  }

  lemma {:induction false} PatchAccepts(file: bytes, total: nat, indices: seq<nat>, delta: bytes)
    requires total <= PageCount(file) && |delta| == |indices| * RECORD
    ensures Patch(file, total, indices, delta).Some? <==> InOrder(total, indices, delta)
    decreases indices
  {
    hide WritePage, FromLE;
    if indices != [] {
      assert Record(delta, 0)[..4] == delta[..4];
      forall k | 0 < k < |indices| ensures Record(delta, k) == Record(delta[RECORD..], k - 1) {
        LaterRecord(delta, k);
      }
      if indices[0] < total && FromLE(delta[..4]) == indices[0] {
        PatchAccepts(WritePage(file, indices[0], delta[4..RECORD]), total, indices[1..], delta[RECORD..]);
        InOrderTail(total, indices, delta);
      }
    }
  }

  lemma InOrderTail(total: nat, indices: seq<nat>, delta: bytes)
    requires indices != [] && |delta| == |indices| * RECORD
    ensures InOrder(total, indices, delta) <==>
            indices[0] < total && FromLE(delta[..4]) == indices[0] && InOrder(total, indices[1..], delta[RECORD..])
  {
    hide FromLE;
    assert Record(delta, 0)[..4] == delta[..4];
    var rest, tail := indices[1..], delta[RECORD..];
    forall k | 0 < k < |indices| ensures Record(delta, k) == Record(tail, k - 1) && indices[k] == rest[k - 1] {
      LaterRecord(delta, k);
    }
    if InOrder(total, indices, delta) {
      forall k | 0 <= k < |rest| ensures rest[k] < total && FromLE(Record(tail, k)[..4]) == rest[k] {
        assert indices[k + 1] < total && FromLE(Record(delta, k + 1)[..4]) == indices[k + 1];
      }
    }
  }

  /** A record a restore takes, whatever the directory holds. */
  predicate Sound(hash: bytes -> string, c: Change) {
    && ValidName(c.name) && hash(c.payload) == c.digest
    && (c.Pages? ==>
          && IsHeap(c.name) && c.deltaFile == c.name + ".delta"
          && |c.payload| == |c.indices| * RECORD && InOrder(c.total, c.indices, c.payload))
  }

  predicate AllSound(hash: bytes -> string, cs: seq<Change>) {
    forall k :: 0 <= k < |cs| ==> Sound(hash, cs[k])
  }

  lemma ChangeAccepted(hash: bytes -> string, dest: Files, c: Change)
    ensures ApplyChange(hash, dest, c).Some? <==> Sound(hash, c)
  {
    hide Patch, InOrder, ValidName;
    if c.Pages? && |c.payload| == |c.indices| * RECORD {
      ExtendedPages(Held(dest, c.name), c.total);
      PatchAccepts(Extend(Held(dest, c.name), c.total * PAGE), c.total, c.indices, c.payload);
    }
  }

  lemma {:induction false} ChangesAccepted(hash: bytes -> string, dest: Files, cs: seq<Change>)
    ensures ApplyChanges(hash, dest, cs).Some? <==> AllSound(hash, cs)
    decreases cs
  {
    hide ApplyChange, Sound;
    if cs != [] {
      ChangeAccepted(hash, dest, cs[0]);
      if Sound(hash, cs[0]) {
        ChangesAccepted(hash, ApplyChange(hash, dest, cs[0]).value, cs[1..]);
        assert forall k :: 0 < k < |cs| ==> cs[k] == cs[1..][k - 1];
      }
    }
  }

  /** Where a chain stands before increment `k`. */
  function LsnBefore(lsn: nat, incs: seq<Increment>, k: nat): nat
    requires k <= |incs|
  {
    if k == 0 then lsn else incs[k - 1].sourceLsn
  }

  function VersionBefore(version: nat, incs: seq<Increment>, k: nat): nat
    requires k <= |incs|
  {
    if k == 0 then version else incs[k - 1].catalogVersion
  }

  /** Increment `k` continues the chain and only holds records that check out. */
  predicate Continues(hash: bytes -> string, sync: Option<SyncId>, lsn: nat, version: nat, incs: seq<Increment>, k: nat)
    requires k < |incs|
  {
    && incs[k].baseLsn == LsnBefore(lsn, incs, k)
    && incs[k].sync == sync
    && TransitionOk(VersionBefore(version, incs, k), incs[k].catalogVersion)
    && AllSound(hash, incs[k].changed)
  }

  predicate Unbroken(hash: bytes -> string, sync: Option<SyncId>, lsn: nat, version: nat, incs: seq<Increment>) {
    forall k :: 0 <= k < |incs| ==> Continues(hash, sync, lsn, version, incs, k)
  }

  /** A chain is replayed if and only if it is unbroken, and then it ends where its last increment does. */
  lemma {:induction false} ReplayedIfUnbroken(hash: bytes -> string, sync: Option<SyncId>, at: Running, incs: seq<Increment>)
    ensures var r := RestoreFrom(hash, sync, at, incs);
            && (r.Some? <==> Unbroken(hash, sync, at.lsn, at.catalogVersion, incs))
            && (r.Some? ==>
                  && r.value.lsn == LsnBefore(at.lsn, incs, |incs|)
                  && r.value.catalogVersion == VersionBefore(at.catalogVersion, incs, |incs|))
    decreases |incs|
  {
    hide ApplyChanges, AllSound, TransitionOk;
    if incs != [] {
      var n := |incs| - 1;
      var front := incs[..n];
      ReplayedIfUnbroken(hash, sync, at, front);
      forall k | 0 <= k < n
        ensures Continues(hash, sync, at.lsn, at.catalogVersion, front, k) ==
                Continues(hash, sync, at.lsn, at.catalogVersion, incs, k)
      {
        assert front[k] == incs[k];
      }
      assert Unbroken(hash, sync, at.lsn, at.catalogVersion, incs) <==>
             Unbroken(hash, sync, at.lsn, at.catalogVersion, front) && Continues(hash, sync, at.lsn, at.catalogVersion, incs, n);
      match RestoreFrom(hash, sync, at, front) {
        case None =>
        case Some(mid) => ChangesAccepted(hash, mid.files, incs[n].changed);
      }
    }
  }

  /** A full backup a restore takes: legal names, each once, every file there with the recorded digest. */
  predicate CopySound(hash: bytes -> string, entries: seq<Entry>, store: Files) {
    && (forall i :: 0 <= i < |entries| ==>
          ValidName(entries[i].name) && entries[i].name in store && hash(store[entries[i].name]) == entries[i].digest)
    && (forall i, j :: 0 <= i < j < |entries| ==> entries[i].name != entries[j].name)
  }

  lemma {:induction false} CopiedIfSound(hash: bytes -> string, entries: seq<Entry>, store: Files)
    ensures FullCopy(hash, entries, store).Some? <==> CopySound(hash, entries, store)
    ensures FullCopy(hash, entries, store).Some? ==>
              forall name :: name in FullCopy(hash, entries, store).value <==> Named(entries, name)
    decreases |entries|
  {
    hide ValidName;
    if entries != [] {
      var n := |entries| - 1;
      var front, e := entries[..n], entries[n];
      CopiedIfSound(hash, front, store);
      assert front + [e] == entries;
      forall name ensures Named(entries, name) <==> Named(front, name) || name == e.name {
        NamedSnoc(front, e, name);
      }
      if CopySound(hash, front, store) && !CopySound(hash, entries, store) && ValidName(e.name) && e.name in store &&
         hash(store[e.name]) == e.digest {
        assert Named(front, e.name);
      }
    }
  }

  /**
   A restore succeeds if and only if the full backup checks out and the chain is unbroken: an increment
   left out, out of order, of another history, of an older version or with any payload altered is refused.
   */
  lemma RestoredIfIntact(hash: bytes -> string, manifest: Manifest, store: Files, incs: seq<Increment>)
    ensures Restore(hash, manifest, store, incs).Some? <==>
            && CopySound(hash, manifest.files, store)
            && Unbroken(hash, manifest.sync, manifest.sourceLsn, manifest.catalogVersion, incs)
  {
    hide FullCopy, RestoreFrom, CopySound, Unbroken;
    CopiedIfSound(hash, manifest.files, store);
    if CopySound(hash, manifest.files, store) {
      var files := FullCopy(hash, manifest.files, store).value;
      ReplayedIfUnbroken(hash, manifest.sync, Running(files, manifest.sourceLsn, manifest.catalogVersion), incs);
    }
  }

  /** Along a chain that restores, the catalog version stays in the supported range and never goes back. */
  lemma {:induction false} VersionsNeverGoBack(hash: bytes -> string, manifest: Manifest, store: Files, incs: seq<Increment>,
                                               i: nat, j: nat)
    requires Restore(hash, manifest, store, incs).Some? && i <= j <= |incs|
    ensures VersionBefore(manifest.catalogVersion, incs, i) <= VersionBefore(manifest.catalogVersion, incs, j)
    ensures i < j ==> 5 <= VersionBefore(manifest.catalogVersion, incs, i) && VersionBefore(manifest.catalogVersion, incs, j) <= 7
    decreases j
  {
    hide Restore, CopySound, AllSound;
    if i < j {
      RestoredIfIntact(hash, manifest, store, incs);
      assert Continues(hash, manifest.sync, manifest.sourceLsn, manifest.catalogVersion, incs, j - 1);
      VersionsNeverGoBack(hash, manifest, store, incs, i, j - 1);
    }
  }

  // ---------- names ----------

  /**
   A name a restore takes is a file of its own directory: it has no separator, is not a dot or two, and is
   one of the durable kinds. Every heap and index with a plain stem is.
   */
  lemma NamesStayInside(name: string, stem: string)
    ensures ValidName(name) ==>
              && name != "" && name != "." && name != ".."
              && (forall i :: 0 <= i < |name| ==> name[i] != '/' && name[i] != '\\' && name[i] != ':' && name[i] != '\0')
    ensures stem != [] && (forall i :: 0 <= i < |stem| ==> PlainChar(stem[i])) ==>
              ValidName(stem + ".heap") && ValidName(stem + ".idx") && ValidName(stem + ".eidx")
  {
    if ValidName(name) {
      forall i | 0 <= i < |name| ensures name[i] != '/' && name[i] != '\\' && name[i] != ':' && name[i] != '\0' {
        assert PlainChar(name[i]);
      }
    }
    if stem != [] && forall i :: 0 <= i < |stem| ==> PlainChar(stem[i]) {
      PlainEnding(stem, ".heap");
      PlainEnding(stem, ".idx");
      PlainEnding(stem, ".eidx");
    }
  }

  lemma PlainEnding(stem: string, suffix: string)
    requires stem != [] && forall i :: 0 <= i < |stem| ==> PlainChar(stem[i])
    requires forall i :: 0 <= i < |suffix| ==> PlainChar(suffix[i])
    ensures EndsWith(stem + suffix, suffix) && forall i :: 0 <= i < |stem + suffix| ==> PlainChar((stem + suffix)[i])
  {
    assert (stem + suffix)[|stem|..] == suffix;
  }
}
