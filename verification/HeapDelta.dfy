/**
 Page-level deltas of heap files: which pages an increment ships, the delta file that carries them,
 and what writing a delta into an older copy of the file leaves behind.
 */
module HeapDelta {
  import opened Bytes
  import opened Wrappers

  const PAGE := 4096
  const RECORD := 4 + PAGE
  const PAGE_COUNT_LIMIT := 0x1_0000_0000

  type page = p: seq<byte> | |p| == PAGE ghost witness seq(PAGE, _ => 0)

  function PageLsn(p: page): nat {
    FromLE(p[8..16])
  }

  /** The front of a page as storage writes it: number, type, flags, free space, and the LSN. */
  function PageHeader(id: nat, kind: byte, flags: byte, free: nat, lsn: nat): bytes {
    LE(id, 4) + [kind, flags] + LE(free, 2) + LE(lsn, 8)
  }

  /** The page LSN is the one in the header. */
  lemma PageLsnIsWritten(p: page, id: nat, kind: byte, flags: byte, free: nat, lsn: nat)
    requires lsn < U64_LIMIT && PageHeader(id, kind, flags, free, lsn) <= p
    ensures PageLsn(p) == lsn
  {
    hide LE, FromLE;
    RadixValues();
    LERoundTrip(lsn, 8);
    assert p[8..16] == PageHeader(id, kind, flags, free, lsn)[8..16] == LE(lsn, 8);
  }

  function PageCount(file: bytes): nat {
    |file| / PAGE
  }

  function PageAt(file: bytes, i: nat): page
    requires i < PageCount(file)
  {
    file[i * PAGE..(i + 1) * PAGE]
  }

  /** The page count an increment records: the file's, kept in 32 bits. */
  function RecordedPages(file: bytes): (n: nat)
    ensures n <= PageCount(file) && n < PAGE_COUNT_LIMIT
  {
    PageCount(file) % PAGE_COUNT_LIMIT
  }

  /** The pages among the first `n` whose LSN is past `baseLsn`, in ascending order. */
  function PagesPast(file: bytes, baseLsn: nat, n: nat): (r: seq<nat>)
    requires n <= PageCount(file)
    ensures forall i :: i in r <==> 0 <= i < n && PageLsn(PageAt(file, i)) > baseLsn
    ensures Below(r, n)
    ensures forall a, b :: 0 <= a < b < |r| ==> r[a] < r[b]
  {
    if n == 0 then []
    else
      var before := PagesPast(file, baseLsn, n - 1);
      if PageLsn(PageAt(file, n - 1)) > baseLsn then before + [n - 1] else before
  }

  predicate Below(indices: seq<nat>, n: nat) {
    forall k :: 0 <= k < |indices| ==> indices[k] < n
  }

  /** One record per index: the page number in four bytes, then the page. */
  function DeltaOf(file: bytes, indices: seq<nat>): (d: bytes)
    requires Below(indices, PageCount(file))
    ensures |d| == |indices| * RECORD
  {
    if indices == [] then []
    else LE(indices[0], 4) + PageAt(file, indices[0]) + DeltaOf(file, indices[1..])
  }

  lemma {:induction false} DeltaOfSnoc(file: bytes, indices: seq<nat>, i: nat)
    requires Below(indices, PageCount(file)) && i < PageCount(file)
    ensures DeltaOf(file, indices + [i]) == DeltaOf(file, indices) + (LE(i, 4) + PageAt(file, i))
  {
    if indices == [] {
      assert [i][1..] == [];
      assert indices + [i] == [i];
    } else {
      assert (indices + [i])[1..] == indices[1..] + [i];
      DeltaOfSnoc(file, indices[1..], i);
    }
  }

  /** Walk the pages of `file` and collect the ones past `baseLsn`. */
  method DiffPages(file: bytes, baseLsn: nat) returns (indices: seq<nat>, delta: bytes)
    ensures indices == PagesPast(file, baseLsn, RecordedPages(file))
    ensures delta == DeltaOf(file, indices)
  {
    hide PageAt, PageLsn, LE, PageCount, RecordedPages;
    indices, delta := [], [];
    for i := 0 to RecordedPages(file)
      invariant indices == PagesPast(file, baseLsn, i)
      invariant delta == DeltaOf(file, indices)
    {
      var chunk := PageAt(file, i);
      if PageLsn(chunk) > baseLsn {
        DeltaOfSnoc(file, indices, i);
        indices := indices + [i];
        delta := delta + (LE(i, 4) + chunk);
      }
    }
  }

  // ---------- writing a delta ----------

  /** `set_len` to at least `len`, new bytes zero; a longer file keeps its length. */
  function Extend(file: bytes, len: nat): (r: bytes)
    ensures |r| == if |file| < len then len else |file|
    ensures file <= r
  {
    if |file| < len then file + seq(len - |file|, _ => 0) else file
  }

  function WritePage(file: bytes, i: nat, p: page): (r: bytes)
    requires i < PageCount(file)
    ensures |r| == |file|
  {
    file[..i * PAGE] + p + file[(i + 1) * PAGE..]
  }

  lemma WritePageAt(file: bytes, i: nat, p: page, j: nat)
    requires i < PageCount(file) && j < PageCount(file)
    ensures PageAt(WritePage(file, i, p), j) == if i == j then p else PageAt(file, j)
  {
    var r := WritePage(file, i, p);
    if i == j {
      assert r[i * PAGE..(i + 1) * PAGE] == p;
    } else if j < i {
      assert r[j * PAGE..(j + 1) * PAGE] == file[j * PAGE..(j + 1) * PAGE];
    } else {
      assert r[(i + 1) * PAGE..] == file[(i + 1) * PAGE..];
      assert r[j * PAGE..(j + 1) * PAGE] == file[j * PAGE..(j + 1) * PAGE];
    }
  }

  /** Replay the records of `delta`; `None` when a record disagrees with the manifest's indices. */
  function Patch(file: bytes, total: nat, indices: seq<nat>, delta: bytes): (r: Option<bytes>)
    requires total <= PageCount(file) && |delta| == |indices| * RECORD
    ensures r.Some? ==> |r.value| == |file|
    decreases indices
  {
    if indices == [] then Some(file)
    else if indices[0] >= total || FromLE(delta[..4]) != indices[0] then None
    else Patch(WritePage(file, indices[0], delta[4..RECORD]), total, indices[1..], delta[RECORD..])
  }

  /** The file as a replay leaves it: every record up to the first refused one is written. */
  function Written(file: bytes, total: nat, indices: seq<nat>, delta: bytes): (r: bytes)
    requires total <= PageCount(file) && |delta| == |indices| * RECORD
    ensures |r| == |file|
    ensures Patch(file, total, indices, delta).Some? ==> r == Patch(file, total, indices, delta).value
    decreases indices
  {
    if indices == [] || indices[0] >= total || FromLE(delta[..4]) != indices[0] then file
    else Written(WritePage(file, indices[0], delta[4..RECORD]), total, indices[1..], delta[RECORD..])
  }

  /** A delta against a file: check its length, extend the file, then replay every record. */
  function ApplyDelta(file: bytes, total: nat, indices: seq<nat>, delta: bytes): Option<bytes> {
    if |delta| != |indices| * RECORD then None
    else
      ExtendedPages(file, total);
      Patch(Extend(file, total * PAGE), total, indices, delta)
  }

  /** What a delta leaves in the file, replayed to the end or not. */
  function Rewritten(file: bytes, total: nat, indices: seq<nat>, delta: bytes): bytes {
    if |delta| != |indices| * RECORD then file
    else
      ExtendedPages(file, total);
      Written(Extend(file, total * PAGE), total, indices, delta)
  }

  lemma ExtendedPages(file: bytes, total: nat)
    ensures total <= PageCount(Extend(file, total * PAGE))
  {
  }

  /** What replaying leaves: shipped pages come from `source`, all others from `file`. */
  lemma {:induction false} PatchResult(file: bytes, source: bytes, total: nat, indices: seq<nat>)
    requires total <= PageCount(file) && total <= PageCount(source) && total < PAGE_COUNT_LIMIT
    requires Below(indices, total)
    ensures var r := Patch(file, total, indices, DeltaOf(source, indices));
            && r.Some?
            && forall j :: 0 <= j < PageCount(file) ==>
                 PageAt(r.value, j) == if j in indices then PageAt(source, j) else PageAt(file, j)
    decreases indices
  {
    if indices != [] {
      var i := indices[0];
      var delta := DeltaOf(source, indices);
      RadixValues();
      LERoundTrip(i, 4);
      assert delta[..4] == LE(i, 4);
      assert delta[4..RECORD] == PageAt(source, i);
      assert delta[RECORD..] == DeltaOf(source, indices[1..]);
      var next := WritePage(file, i, PageAt(source, i));
      PatchResult(next, source, total, indices[1..]);
      forall j | 0 <= j < PageCount(file)
        ensures PageAt(Patch(file, total, indices, delta).value, j) ==
                if j in indices then PageAt(source, j) else PageAt(file, j)
      {
        WritePageAt(file, i, PageAt(source, i), j);
        assert j in indices <==> j == i || j in indices[1..];
      }
    }
  }

  /** Two files made of whole pages are equal exactly when their pages are. */
  lemma EqualByPages(a: bytes, b: bytes)
    requires |a| % PAGE == 0
    ensures a == b <==>
            |a| == |b| && forall i :: 0 <= i < PageCount(a) ==> PageAt(a, i) == PageAt(b, i)
  {
    if |a| == |b| && forall i :: 0 <= i < PageCount(a) ==> PageAt(a, i) == PageAt(b, i) {
      forall k | 0 <= k < |a| ensures a[k] == b[k] {
        var i := k / PAGE;
        assert i < PageCount(a);
        assert PageAt(a, i)[k - i * PAGE] == a[k];
        assert PageAt(b, i)[k - i * PAGE] == b[k];
        assert PageAt(a, i) == PageAt(b, i);
      }
    }
  }

  /** Everything the delta leaves out is already in `held`: its length and every page not shipped. */
  predicate Holds(held: bytes, source: bytes, baseLsn: nat) {
    var total := RecordedPages(source);
    var start := Extend(held, total * PAGE);
    && |start| == |source|
    && forall i :: 0 <= i < PageCount(source) && i !in PagesPast(source, baseLsn, total) ==>
         PageAt(start, i) == PageAt(source, i)
  }

  /** Applying `source`'s delta to `held` always succeeds, and gives `source` if and only if `Holds`. */
  lemma DeltaIsExact(held: bytes, source: bytes, baseLsn: nat)
    requires |source| % PAGE == 0
    ensures var total := RecordedPages(source);
            var indices := PagesPast(source, baseLsn, total);
            var r := ApplyDelta(held, total, indices, DeltaOf(source, indices));
            r.Some? && (r.value == source <==> Holds(held, source, baseLsn))
  {
    var total := RecordedPages(source);
    var indices := PagesPast(source, baseLsn, total);
    var start := Extend(held, total * PAGE);
    ExtendedPages(held, total);
    PatchResult(start, source, total, indices);
    var r := ApplyDelta(held, total, indices, DeltaOf(source, indices)).value;
    EqualByPages(source, r);
    if Holds(held, source, baseLsn) {
      forall i | 0 <= i < PageCount(source) ensures PageAt(source, i) == PageAt(r, i) {
      }
    }
    if r == source {
      forall i | 0 <= i < PageCount(source) && i !in indices ensures PageAt(start, i) == PageAt(source, i) {
        assert PageAt(r, i) == PageAt(start, i);
      }
    }
  }

  /**
   A page that is not shipped keeps what the file held there, so in a file that did not exist
   before it is all zeros.
   */
  lemma UnshippedPageOfNewFile(held: bytes, content: bytes, baseLsn: nat, i: nat)
    requires |content| % PAGE == 0 && PageCount(content) < PAGE_COUNT_LIMIT && held == []
    requires i < PageCount(content) && PageLsn(PageAt(content, i)) <= baseLsn
    ensures var indices := PagesPast(content, baseLsn, RecordedPages(content));
            var r := ApplyDelta(held, RecordedPages(content), indices, DeltaOf(content, indices));
            && r.Some? && |r.value| == |content|
            && forall k :: i * PAGE <= k < (i + 1) * PAGE ==> r.value[k] == 0
  {
    hide Patch, DeltaOf, PagesPast, PageLsn;
    var total := RecordedPages(content);
    var indices := PagesPast(content, baseLsn, total);
    var start := Extend(held, total * PAGE);
    ExtendedPages(held, total);
    PatchResult(start, content, total, indices);
    var r := ApplyDelta(held, total, indices, DeltaOf(content, indices)).value;
    assert PageAt(r, i) == PageAt(start, i);
    forall k | i * PAGE <= k < (i + 1) * PAGE ensures r[k] == 0 {
      assert r[k] == PageAt(r, i)[k - i * PAGE] == PageAt(start, i)[k - i * PAGE] == start[k];
    }
  }
}
