/**
 Retained history: the WAL units a primary keeps for its replicas, where transactions begin
 and end in it, and how one pull is cut out of it.
 */
module SyncHistory {
  import opened Bytes
  import opened Wrappers

  const INSERT := 1
  const UPDATE := 2
  const DELETE := 3
  const COMMIT := 4
  const ROLLBACK := 5
  const FIRST_DDL := 6
  const LAST_DDL := 9
  const BEGIN := 10
  const LAST_RECORD_TYPE := 12

  datatype Unit = Unit(txId: nat, recordType: nat, lsn: nat, data: bytes) {
    /** Bytes this unit takes inside a pull result: two u64, one u8, one length-prefixed blob. */
    function EncodedLen(): (n: nat)
      ensures n > |data|
    {
      8 + 1 + 8 + 4 + |data|
    }

    predicate IsRow() {
      txId != 0 && INSERT <= recordType <= DELETE
    }

    predicate Ends(tx: nat) {
      txId == tx && (recordType == COMMIT || recordType == ROLLBACK)
    }
  }

  // ---------- transaction boundaries ----------

  /** `open` without its rightmost `tx`. */
  function CloseTx(open: seq<nat>, tx: nat): (r: seq<nat>)
    ensures tx !in open ==> r == open
    ensures forall t :: t in r ==> t in open
    ensures forall t :: t in open && t != tx ==> t in r
  {
    if open == [] then []
    else if open[|open| - 1] == tx then
      assert open == open[..|open| - 1] + [tx];
      open[..|open| - 1]
    else
      assert open == open[..|open| - 1] + [open[|open| - 1]];
      CloseTx(open[..|open| - 1], tx) + [open[|open| - 1]]
  }

  /** The transactions open after one more unit; `None` for a record V1 sync cannot apply. */
  function Observe(open: seq<nat>, u: Unit): Option<seq<nat>> {
    if u.recordType < INSERT || u.recordType > LAST_RECORD_TYPE then None
    else if FIRST_DDL <= u.recordType <= LAST_DDL then None
    else if u.txId == 0 then Some(open)
    else if u.recordType == BEGIN then Some(open + [u.txId])
    else if u.IsRow() then Some(if u.txId in open then open else open + [u.txId])
    else if u.recordType == COMMIT || u.recordType == ROLLBACK then Some(CloseTx(open, u.txId))
    else Some(open)
  }

  function Scan(open: seq<nat>, units: seq<Unit>): Option<seq<nat>>
    decreases units
  {
    if units == [] then Some(open)
    else match Observe(open, units[0])
      case None => None
      case Some(next) => Scan(next, units[1..])
  }

  /** A range that can be applied: only supported records, and no transaction cut at its end. */
  predicate Closed(units: seq<Unit>) {
    Scan([], units) == Some([])
  }

  lemma {:induction false} ScanConcat(open: seq<nat>, a: seq<Unit>, b: seq<Unit>)
    ensures Scan(open, a + b) == match Scan(open, a) case None => None case Some(mid) => Scan(mid, b)
    decreases a
  {
    if a == [] {
      assert a + b == b;
    } else {
      assert (a + b)[0] == a[0] && (a + b)[1..] == a[1..] + b;
      match Observe(open, a[0]) {
        case None =>
        case Some(next) => ScanConcat(next, a[1..], b);
      }
    }
  }

  lemma ScanSnoc(units: seq<Unit>, k: nat)
    requires k < |units|
    ensures Scan([], units[..k + 1]) ==
            match Scan([], units[..k]) case None => None case Some(open) => Observe(open, units[k])
  {
    assert units[..k + 1] == units[..k] + [units[k]];
    ScanConcat([], units[..k], [units[k]]);
    match Scan([], units[..k]) {
      case None =>
      case Some(open) => assert [units[k]][1..] == [];
    }
  }

  lemma ScanFailsFrom(units: seq<Unit>, k: nat, j: nat)
    requires k <= j <= |units|
    requires Scan([], units[..k]) == None
    ensures Scan([], units[..j]) == None
  {
    assert units[..j] == units[..k] + units[k..j];
    ScanConcat([], units[..k], units[k..j]);
  }

  lemma ClosedConcat(a: seq<Unit>, b: seq<Unit>)
    requires Closed(a)
    ensures Closed(a + b) <==> Closed(b)
  {
    ScanConcat([], a, b);
  }

  /**
   What `Closed` buys a reader: in a closed range every row change made under a transaction is
   followed, inside the range, by that transaction's commit or rollback.
   */
  lemma ClosedEndsEveryTransaction(units: seq<Unit>, i: nat)
    requires Closed(units)
    requires i < |units| && units[i].IsRow()
    ensures exists j :: i < j < |units| && units[j].Ends(units[i].txId)
  {
    var tx := units[i].txId;
    assert units == units[..i] + ([units[i]] + units[i + 1..]);
    ScanConcat([], units[..i], [units[i]] + units[i + 1..]);
    var before := Scan([], units[..i]).value;
    var after := Observe(before, units[i]).value;
    assert ([units[i]] + units[i + 1..])[1..] == units[i + 1..];
    assert Scan(after, units[i + 1..]) == Some([]);
    var j := OpenMustEnd(after, units[i + 1..], tx);
    assert units[i + 1..][j] == units[i + 1 + j];
  }

  lemma {:induction false} OpenMustEnd(open: seq<nat>, units: seq<Unit>, tx: nat) returns (j: nat)
    requires tx != 0 && tx in open
    requires Scan(open, units) == Some([])
    ensures j < |units| && units[j].Ends(tx)
    decreases units
  {
    if units[0].Ends(tx) {
      j := 0;
    } else {
      var next := Observe(open, units[0]).value;
      assert tx in next;
      var k := OpenMustEnd(next, units[1..], tx);
      j := k + 1;
    }
  }

  // ---------- cutting one pull ----------

  function EncodedBytes(units: seq<Unit>): (n: nat)
  {
    if units == [] then 0
    else EncodedBytes(units[..|units| - 1]) + units[|units| - 1].EncodedLen()
  }

  lemma EncodedBytesSnoc(units: seq<Unit>, k: nat)
    requires k < |units|
    ensures EncodedBytes(units[..k + 1]) == EncodedBytes(units[..k]) + units[k].EncodedLen()
  {
    assert units[..k + 1][..k] == units[..k];
  }

  lemma {:induction false} EncodedBytesMonotone(units: seq<Unit>, j: nat, k: nat)
    requires j <= k <= |units|
    ensures EncodedBytes(units[..j]) <= EncodedBytes(units[..k])
    decreases k - j
  {
    if j < k {
      EncodedBytesSnoc(units, j);
      EncodedBytesMonotone(units, j + 1, k);
    }
  }

  /** `k` units of `tail` are within both budgets of one pull. */
  predicate Fits(tail: seq<Unit>, k: nat, maxUnits: nat, maxBytes: nat)
    requires k <= |tail|
  {
    k <= maxUnits && EncodedBytes(tail[..k]) <= maxBytes
  }

  /** A chunk of `k` units the primary may send: within budget and not cutting a transaction. */
  predicate Servable(tail: seq<Unit>, k: nat, maxUnits: nat, maxBytes: nat)
    requires k <= |tail|
  {
    Fits(tail, k, maxUnits, maxBytes) && Closed(tail[..k])
  }

  datatype PullChunk = Units(units: seq<Unit>) | Unservable

  lemma NoFitBeyond(tail: seq<Unit>, k: nat, maxUnits: nat, maxBytes: nat)
    requires k < |tail|
    requires !Fits(tail, k + 1, maxUnits, maxBytes)
    ensures forall j :: k < j <= |tail| ==> !Fits(tail, j, maxUnits, maxBytes)
  {
    forall j | k < j <= |tail| ensures !Fits(tail, j, maxUnits, maxBytes) {
      EncodedBytesMonotone(tail, k + 1, j);
    }
  }

  /** The fill loop's state after `taken` units, the last transaction boundary at `applyable`. */
  ghost predicate Filling(tail: seq<Unit>, taken: nat, open: seq<nat>, selectedBytes: nat, applyable: nat,
                          maxUnits: nat, maxBytes: nat)
  {
    && applyable <= taken <= |tail|
    && Scan([], tail[..taken]) == Some(open)
    && selectedBytes == EncodedBytes(tail[..taken])
    && Fits(tail, taken, maxUnits, maxBytes)
    && Servable(tail, applyable, maxUnits, maxBytes)
    && forall j :: applyable < j <= taken ==> !Closed(tail[..j])
  }

  lemma NothingTaken(tail: seq<Unit>, maxUnits: nat, maxBytes: nat)
    ensures Filling(tail, 0, [], 0, 0, maxUnits, maxBytes)
  {
    assert tail[..0] == [];
  }

  lemma FillOne(tail: seq<Unit>, taken: nat, open: seq<nat>, selectedBytes: nat, applyable: nat,
                maxUnits: nat, maxBytes: nat)
    requires Filling(tail, taken, open, selectedBytes, applyable, maxUnits, maxBytes)
    requires taken < |tail|
    ensures Fits(tail, taken + 1, maxUnits, maxBytes) <==>
            selectedBytes + tail[taken].EncodedLen() <= maxBytes && taken < maxUnits
    ensures Scan([], tail[..taken + 1]) == Observe(open, tail[taken])
    ensures Fits(tail, taken + 1, maxUnits, maxBytes) && Observe(open, tail[taken]).Some? ==>
              var next := Observe(open, tail[taken]).value;
              Filling(tail, taken + 1, next, selectedBytes + tail[taken].EncodedLen(),
                      if next == [] then taken + 1 else applyable, maxUnits, maxBytes)
  {
    EncodedBytesSnoc(tail, taken);
    ScanSnoc(tail, taken);
  }

  /** Some unit within the budgets is one a replica cannot apply. */
  ghost predicate Inapplicable(tail: seq<Unit>, maxUnits: nat, maxBytes: nat) {
    exists j :: 0 < j <= |tail| && Fits(tail, j, maxUnits, maxBytes) && Scan([], tail[..j]) == None
  }

  /** The first transaction does not close within the budgets. */
  ghost predicate Oversized(tail: seq<Unit>, maxUnits: nat, maxBytes: nat) {
    !Fits(tail, |tail|, maxUnits, maxBytes) && forall j :: 0 < j <= |tail| ==> !Servable(tail, j, maxUnits, maxBytes)
  }

  /** `k` units are the most that can be served. */
  ghost predicate Longest(tail: seq<Unit>, k: nat, maxUnits: nat, maxBytes: nat)
    requires k <= |tail|
  {
    Servable(tail, k, maxUnits, maxBytes) && forall j :: k < j <= |tail| ==> !Servable(tail, j, maxUnits, maxBytes)
  }

  /** When everything within the budgets has been scanned, nothing in it is inapplicable. */
  lemma ScannedAll(tail: seq<Unit>, taken: nat, maxUnits: nat, maxBytes: nat)
    requires taken <= |tail| && Scan([], tail[..taken]).Some?
    requires forall j :: taken < j <= |tail| ==> !Fits(tail, j, maxUnits, maxBytes)
    ensures !Inapplicable(tail, maxUnits, maxBytes)
  {
    forall j | 0 < j <= |tail| && Fits(tail, j, maxUnits, maxBytes) ensures Scan([], tail[..j]).Some? {
      if Scan([], tail[..j]) == None {
        ScanFailsFrom(tail, j, taken);
      }
    }
  }

  /**
   Collect the units one pull serves out of `tail`, the retained units after the cursor.

   The chunk sent is a servable prefix, and either it reaches the caller's hint or no longer
   prefix is servable. An empty chunk is a wait: the whole tail fits and its last transaction is
   still open. When one read batch covers the unit budget, as the server's constants have it, the
   hint decides nothing: the chunk is the longest servable prefix, and there is none if and only if
   a unit within the budgets is inapplicable or the first transaction does not fit them.
   */
  method BuildPullChunk(tail: seq<Unit>, hintUnits: nat, maxUnits: nat, maxBytes: nat, batchUnits: nat)
    returns (r: PullChunk)
    requires batchUnits > 0
    ensures r.Units? ==>
              && r.units <= tail
              && Servable(tail, |r.units|, maxUnits, maxBytes)
              && (|r.units| >= hintUnits || Longest(tail, |r.units|, maxUnits, maxBytes))
              && (r.units == [] ==> Fits(tail, |tail|, maxUnits, maxBytes))
    ensures r.Unservable? ==> Inapplicable(tail, maxUnits, maxBytes) || Oversized(tail, maxUnits, maxBytes)
    ensures batchUnits >= maxUnits ==>
              (r.Unservable? <==> Inapplicable(tail, maxUnits, maxBytes) || Oversized(tail, maxUnits, maxBytes))
    ensures batchUnits >= maxUnits && r.Units? ==> Longest(tail, |r.units|, maxUnits, maxBytes)
  {
    hide Observe, Scan, Closed;
    var open: seq<nat> := [];
    var taken: nat, selectedBytes: nat, applyable: nat := 0, 0, 0;
    var budgetStopped, done := false, false;
    NothingTaken(tail, maxUnits, maxBytes);
    while taken < |tail| && !done && !budgetStopped
      invariant Filling(tail, taken, open, selectedBytes, applyable, maxUnits, maxBytes)
      invariant !budgetStopped && taken > 0 && open == [] ==> applyable == taken
      invariant budgetStopped ==> taken < |tail| && !Fits(tail, taken + 1, maxUnits, maxBytes)
      invariant done ==> taken == |tail| || (taken >= hintUnits && taken >= batchUnits && applyable == taken)
      decreases |tail| - taken, !done, !budgetStopped
    {
      var batchEnd := if taken + batchUnits <= |tail| then taken + batchUnits else |tail|;
      var exhausted := batchEnd - taken < batchUnits;
      while taken < batchEnd && !budgetStopped
        invariant taken <= batchEnd
        invariant Filling(tail, taken, open, selectedBytes, applyable, maxUnits, maxBytes)
        invariant budgetStopped ==> taken < |tail| && !Fits(tail, taken + 1, maxUnits, maxBytes)
        invariant !budgetStopped && taken > 0 && open == [] ==> applyable == taken
        decreases batchEnd - taken, !budgetStopped
      {
        var unit := tail[taken];
        FillOne(tail, taken, open, selectedBytes, applyable, maxUnits, maxBytes);
        if selectedBytes + unit.EncodedLen() > maxBytes || taken >= maxUnits {
          budgetStopped := true;
        } else {
          match Observe(open, unit) {
            case None => return Unservable;
            case Some(next) => open := next;
          }
          selectedBytes := selectedBytes + unit.EncodedLen();
          taken := taken + 1;
          if open == [] {
            applyable := taken;
          }
        }
      }
      if !budgetStopped && (exhausted || (taken >= hintUnits && open == [])) {
        done := true;
      }
    }
    if budgetStopped {
      NoFitBeyond(tail, taken, maxUnits, maxBytes);
    }
    if budgetStopped || batchUnits >= maxUnits {
      ScannedAll(tail, taken, maxUnits, maxBytes);
    }
    if budgetStopped && applyable == 0 {
      return Unservable;
    }
    r := Units(tail[..applyable]);
  }
}
