/**
 Incremental backup and chain restore: what an increment carries, and how a chain of increments is
 replayed onto a full copy. `hash` stands for the content digest the manifests record.
 */
module BackupChain {
  import opened Bytes
  import opened Wrappers
  import opened HeapDelta

  type Files = map<string, bytes>

  const OLDEST_CATALOG := 5
  const NEWEST_CATALOG := 7

  /** The part of the sync snapshot metadata that must not change along a chain. */
  datatype SyncId = SyncId(identity: string, walFormat: nat, segmentFormat: nat)

  datatype Entry = Entry(name: string, digest: string)

  datatype Manifest = Manifest(sourceLsn: nat, catalogVersion: nat, sync: Option<SyncId>, files: seq<Entry>)

  /** A changed file and the payload stored for it beside the increment manifest. */
  datatype Change =
    | Whole(name: string, digest: string, payload: bytes)
    | Pages(name: string, total: nat, indices: seq<nat>, deltaFile: string, digest: string, payload: bytes)

  datatype Increment = Increment(baseLsn: nat, sourceLsn: nat, catalogVersion: nat, sync: Option<SyncId>,
                                 changed: seq<Change>)

  /** A data directory at a checkpoint. */
  datatype Snapshot = Snapshot(files: Files, lsn: nat, catalogVersion: nat, sync: Option<SyncId>)

  // ---------- names and versions ----------

  predicate EndsWith(name: string, suffix: string) {
    |name| > |suffix| && name[|name| - |suffix|..] == suffix
  }

  predicate IsHeap(name: string) {
    EndsWith(name, ".heap")
  }

  const OPTIONAL_FILES: set<string> := {"catalog.lsn", "views.bin", "auth.json"}

  predicate PlainChar(c: char) {
    'a' <= c <= 'z' || 'A' <= c <= 'Z' || '0' <= c <= '9' || c == '_' || c == '-' || c == '.'
  }

  /** The names a manifest may restore: plain characters, and one of the durable file kinds. */
  predicate ValidName(name: string) {
    && (forall i :: 0 <= i < |name| ==> PlainChar(name[i]))
    && (name == "catalog.bin" || name in OPTIONAL_FILES || IsHeap(name) || EndsWith(name, ".idx") || EndsWith(name, ".eidx"))
  }

  predicate VersionOk(v: nat) {
    OLDEST_CATALOG <= v <= NEWEST_CATALOG
  }

  predicate TransitionOk(before: nat, after: nat) {
    VersionOk(before) && VersionOk(after) && before <= after
  }

  // ---------- taking an increment ----------

  predicate Lists(m: Manifest, name: string, digest: string) {
    exists i :: 0 <= i < |m.files| && m.files[i] == Entry(name, digest)
  }

  predicate ByPages(name: string, content: bytes) {
    IsHeap(name) && |content| % PAGE == 0
  }

  /** How an increment on `base` records one file; `None` when it leaves the file out. */
  function ChangeOf(hash: bytes -> string, base: Manifest, name: string, content: bytes): Option<Change> {
    if !ByPages(name, content) then
      if Lists(base, name, hash(content)) then None else Some(Whole(name, hash(content), content))
    else
      var total := RecordedPages(content);
      var indices := PagesPast(content, base.sourceLsn, total);
      var delta := DeltaOf(content, indices);
      if indices == [] then None
      else Some(Pages(name, total, indices, name + ".delta", hash(delta), delta))
  }

  function ChangesOf(hash: bytes -> string, base: Manifest, files: Files, names: seq<string>): seq<Change>
    decreases names
  {
    if names == [] then []
    else
      var rest := ChangesOf(hash, base, files, names[1..]);
      if names[0] !in files then rest
      else match ChangeOf(hash, base, names[0], files[names[0]])
        case None => rest
        case Some(c) => [c] + rest
  }

  lemma {:induction false} ChangesOfConcat(hash: bytes -> string, base: Manifest, files: Files, a: seq<string>, b: seq<string>)
    ensures ChangesOf(hash, base, files, a + b) == ChangesOf(hash, base, files, a) + ChangesOf(hash, base, files, b)
    decreases a
  {
    if a == [] {
      assert a + b == b;
    } else {
      assert (a + b)[1..] == a[1..] + b;
      ChangesOfConcat(hash, base, files, a[1..], b);
    }
  }

  /**
   Take an incremental backup of `snap` on top of `base`. `names` are the durable files the catalog
   refers to, in manifest order.
   */
  method IncrementalBackup(hash: bytes -> string, base: Manifest, snap: Snapshot, names: seq<string>)
    returns (r: Option<Increment>)
    ensures r.Some? <==>
              && TransitionOk(base.catalogVersion, snap.catalogVersion)
              && base.sync == snap.sync
              && forall i :: 0 <= i < |names| ==> names[i] in snap.files || names[i] in OPTIONAL_FILES
    ensures r.Some? ==>
              r.value == Increment(base.sourceLsn, snap.lsn, snap.catalogVersion, snap.sync,
                                   ChangesOf(hash, base, snap.files, names))
  {
    if !TransitionOk(base.catalogVersion, snap.catalogVersion) || base.sync != snap.sync {
      return None;
    }
    var changed: seq<Change> := [];
    for i := 0 to |names|
      invariant changed == ChangesOf(hash, base, snap.files, names[..i])
      invariant forall k :: 0 <= k < i ==> names[k] in snap.files || names[k] in OPTIONAL_FILES
    {
      var name := names[i];
      assert names[..i + 1] == names[..i] + [name];
      ChangesOfConcat(hash, base, snap.files, names[..i], [name]);
      assert [name][1..] == [];
      if name !in snap.files {
        if name !in OPTIONAL_FILES {
          return None;
        }
      } else {
        var content := snap.files[name];
        if !ByPages(name, content) {
          var digest := hash(content);
          var listed := AlreadyListed(base.files, name, digest);
          if !listed {
            changed := changed + [Whole(name, digest, content)];
          }
        } else {
          var indices, delta := DiffPages(content, base.sourceLsn);
          if indices != [] {
            changed := changed + [Pages(name, RecordedPages(content), indices, name + ".delta", hash(delta), delta)];
          }
        }
      }
    }
    assert names[..|names|] == names;
    r := Some(Increment(base.sourceLsn, snap.lsn, snap.catalogVersion, snap.sync, changed));
  }

  method AlreadyListed(files: seq<Entry>, name: string, digest: string) returns (r: bool)
    ensures r <==> exists i :: 0 <= i < |files| && files[i] == Entry(name, digest)
  {
    for i := 0 to |files|
      invariant forall k :: 0 <= k < i ==> files[k] != Entry(name, digest)
    {
      if files[i].name == name && files[i].digest == digest {
        return true;
      }
    }
    r := false;
  }

  // ---------- restoring ----------

  function Held(dest: Files, name: string): bytes {
    if name in dest then dest[name] else []
  }

  /** Replay one change; `None` when a name, a digest or a delta is refused. */
  function ApplyChange(hash: bytes -> string, dest: Files, c: Change): Option<Files> {
    match c
    case Whole(name, digest, payload) =>
      if !ValidName(name) || hash(payload) != digest then None else Some(dest[name := payload])
    case Pages(name, total, indices, deltaFile, digest, payload) =>
      if !ValidName(name) || !IsHeap(name) || deltaFile != name + ".delta" || hash(payload) != digest then None
      else match ApplyDelta(Held(dest, name), total, indices, payload)
        case None => None
        case Some(file) => Some(dest[name := file])
  }

  function ApplyChanges(hash: bytes -> string, dest: Files, changed: seq<Change>): Option<Files>
    decreases changed
  {
    if changed == [] then Some(dest)
    else match ApplyChange(hash, dest, changed[0])
      case None => None
      case Some(next) => ApplyChanges(hash, next, changed[1..])
  }

  /** Where a restore stands between two increments. */
  datatype Running = Running(files: Files, lsn: nat, catalogVersion: nat)

  function ApplyIncrement(hash: bytes -> string, sync: Option<SyncId>, at: Running, inc: Increment): Option<Running> {
    if inc.baseLsn != at.lsn || inc.sync != sync || !TransitionOk(at.catalogVersion, inc.catalogVersion) then None
    else match ApplyChanges(hash, at.files, inc.changed)
      case None => None
      case Some(files) => Some(Running(files, inc.sourceLsn, inc.catalogVersion))
  }

  function RestoreFrom(hash: bytes -> string, sync: Option<SyncId>, at: Running, incs: seq<Increment>): Option<Running>
    decreases |incs|
  {
    if incs == [] then Some(at)
    else match RestoreFrom(hash, sync, at, incs[..|incs| - 1])
      case None => None
      case Some(mid) => ApplyIncrement(hash, sync, mid, incs[|incs| - 1])
  }

  /** Copy the files a full manifest lists; `None` on a bad name, a repeated one, or a digest mismatch. */
  function FullCopy(hash: bytes -> string, entries: seq<Entry>, store: Files): Option<Files>
    decreases |entries|
  {
    if entries == [] then Some(map[])
    else
      var e := entries[|entries| - 1];
      match FullCopy(hash, entries[..|entries| - 1], store)
      case None => None
      case Some(dest) =>
        if !ValidName(e.name) || e.name in dest || e.name !in store || hash(store[e.name]) != e.digest then None
        else Some(dest[e.name := store[e.name]])
  }

  /** The whole restore: the full copy, then every increment in order. */
  function Restore(hash: bytes -> string, manifest: Manifest, store: Files, incs: seq<Increment>): Option<Running> {
    match FullCopy(hash, manifest.files, store)
    case None => None
    case Some(files) => RestoreFrom(hash, manifest.sync, Running(files, manifest.sourceLsn, manifest.catalogVersion), incs)
  }

  /** The destination directory of a restore, written file by file. */
  class DataDir {
    var files: Files

    constructor ()
      ensures files == map[]
    {
      files := map[];
    }

    /**
     Write a page delta into one file in place. A refused record stops the replay with the pages
     before it already written.
     */
    method WriteDelta(name: string, total: nat, indices: seq<nat>, delta: bytes) returns (ok: bool)
      modifies this
      ensures ok <==> ApplyDelta(Held(old(files), name), total, indices, delta).Some?
      ensures ok ==> files == old(files)[name := ApplyDelta(Held(old(files), name), total, indices, delta).value]
      ensures !ok ==> files == if |delta| != |indices| * RECORD then old(files)
                               else old(files)[name := Rewritten(Held(old(files), name), total, indices, delta)]
    {
      hide FromLE, WritePage, Extend;
      if |delta| != |indices| * RECORD {
        return false;
      }
      ExtendedPages(Held(files, name), total);
      var file := Extend(Held(files, name), total * PAGE);
      ghost var start := file;
      var off := 0;
      for k := 0 to |indices|
        invariant off == k * RECORD
        invariant |file| == |start| && total <= PageCount(file)
        invariant files == old(files)
        invariant Patch(start, total, indices, delta) == Patch(file, total, indices[k..], delta[off..])
        invariant Written(start, total, indices, delta) == Written(file, total, indices[k..], delta[off..])
      {
        var rest, tail := indices[k..], delta[off..];
        if indices[k] >= total || FromLE(delta[off..off + 4]) != indices[k] {
          assert tail[..4] == delta[off..off + 4];
          files := files[name := file];
          return false;
        }
        assert tail[..4] == delta[off..off + 4] && tail[4..RECORD] == delta[off + 4..off + RECORD];
        assert rest[1..] == indices[k + 1..] && tail[RECORD..] == delta[off + RECORD..];
        file := WritePage(file, indices[k], delta[off + 4..off + RECORD]);
        off := off + RECORD;
      }
      files := files[name := file];
      ok := true;
    }

    /** Replay the changes of one increment, in manifest order. */
    method ReplayChanges(hash: bytes -> string, changed: seq<Change>) returns (ok: bool)
      modifies this
      ensures ok <==> ApplyChanges(hash, old(files), changed).Some?
      ensures ok ==> files == ApplyChanges(hash, old(files), changed).value
    {
      for k := 0 to |changed|
        invariant ApplyChanges(hash, old(files), changed) == ApplyChanges(hash, files, changed[k..])
      {
        assert changed[k..][1..] == changed[k + 1..];
        match changed[k] {
          case Whole(name, digest, payload) =>
            if !ValidName(name) || hash(payload) != digest {
              return false;
            }
            files := files[name := payload];
          case Pages(name, total, indices, deltaFile, digest, payload) =>
            if !ValidName(name) || !IsHeap(name) || deltaFile != name + ".delta" || hash(payload) != digest {
              return false;
            }
            var written := WriteDelta(name, total, indices, payload);
            if !written {
              return false;
            }
        }
      }
      ok := true;
    }

    /** Copy every listed file, refusing what does not match the manifest. */
    method CopyFull(hash: bytes -> string, entries: seq<Entry>, store: Files) returns (ok: bool)
      requires files == map[]
      modifies this
      ensures ok <==> FullCopy(hash, entries, store).Some?
      ensures ok ==> files == FullCopy(hash, entries, store).value
    {
      for k := 0 to |entries|
        invariant FullCopy(hash, entries[..k], store) == Some(files)
      {
        var e := entries[k];
        assert entries[..k + 1][..k] == entries[..k];
        if !ValidName(e.name) || e.name in files || e.name !in store || hash(store[e.name]) != e.digest {
          CopyStuck(hash, entries, store, k + 1);
          return false;
        }
        files := files[e.name := store[e.name]];
      }
      assert entries[..|entries|] == entries;
      ok := true;
    }

    /** Lay down the full copy, then replay the chain, checking that each increment continues it. */
    method RestoreChain(hash: bytes -> string, manifest: Manifest, store: Files, incs: seq<Increment>)
      returns (ok: bool)
      requires files == map[]
      modifies this
      ensures ok <==> Restore(hash, manifest, store, incs).Some?
      ensures ok ==> files == Restore(hash, manifest, store, incs).value.files
    {
      var copied := CopyFull(hash, manifest.files, store);
      if !copied {
        return false;
      }
      var lsn, version := manifest.sourceLsn, manifest.catalogVersion;
      ghost var start := Running(files, lsn, version);
      for k := 0 to |incs|
        invariant RestoreFrom(hash, manifest.sync, start, incs[..k]) == Some(Running(files, lsn, version))
      {
        var inc := incs[k];
        assert incs[..k + 1][..k] == incs[..k];
        if inc.baseLsn != lsn || inc.sync != manifest.sync || !TransitionOk(version, inc.catalogVersion) {
          RestoreStuck(hash, manifest.sync, start, incs, k + 1);
          return false;
        }
        var replayed := ReplayChanges(hash, inc.changed);
        if !replayed {
          RestoreStuck(hash, manifest.sync, start, incs, k + 1);
          return false;
        }
        lsn, version := inc.sourceLsn, inc.catalogVersion;
      }
      assert incs[..|incs|] == incs;
      ok := true;
    }
  }

  lemma {:induction false} CopyStuck(hash: bytes -> string, entries: seq<Entry>, store: Files, k: nat)
    requires k <= |entries| && FullCopy(hash, entries[..k], store).None?
    ensures FullCopy(hash, entries, store).None?
    decreases |entries| - k
  {
    if k == |entries| {
      assert entries[..k] == entries;
    } else {
      assert entries[..k + 1][..k] == entries[..k];
      CopyStuck(hash, entries, store, k + 1);
    }
  }

  predicate Named(entries: seq<Entry>, name: string) {
    exists i :: 0 <= i < |entries| && entries[i].name == name
  }

  /** A full backup that lists each file once, under its digest, copies back exactly those files. */
  lemma {:induction false} FullCopyIsExact(hash: bytes -> string, entries: seq<Entry>, files: Files)
    requires forall i :: 0 <= i < |entries| ==>
               entries[i].name in files && entries[i].digest == hash(files[entries[i].name]) && ValidName(entries[i].name)
    requires forall i, j :: 0 <= i < j < |entries| ==> entries[i].name != entries[j].name
    ensures FullCopy(hash, entries, files).Some?
    ensures var dest := FullCopy(hash, entries, files).value;
            && (forall name :: name in dest <==> Named(entries, name))
            && (forall name :: name in dest ==> name in files && dest[name] == files[name])
    decreases |entries|
  {
    if entries != [] {
      var front, e := entries[..|entries| - 1], entries[|entries| - 1];
      FullCopyIsExact(hash, front, files);
      forall name ensures Named(entries, name) <==> Named(front, name) || name == e.name {
        NamedSnoc(front, e, name);
        assert front + [e] == entries;
      }
    }
  }

  lemma NamedSnoc(front: seq<Entry>, e: Entry, name: string)
    ensures Named(front + [e], name) <==> Named(front, name) || name == e.name
  {
    if Named(front, name) {
      var i :| 0 <= i < |front| && front[i].name == name;
      assert (front + [e])[i].name == name;
    }
    if name == e.name {
      assert (front + [e])[|front|].name == name;
    }
  }

  lemma {:induction false} RestoreStuck(hash: bytes -> string, sync: Option<SyncId>, at: Running, incs: seq<Increment>, k: nat)
    requires k <= |incs| && RestoreFrom(hash, sync, at, incs[..k]).None?
    ensures RestoreFrom(hash, sync, at, incs).None?
    decreases |incs| - k
  {
    if k == |incs| {
      assert incs[..k] == incs;
    } else {
      assert incs[..k + 1][..k] == incs[..k];
      RestoreStuck(hash, sync, at, incs, k + 1);
    }
  }
}
