/**
 What the transaction-boundary scan decides. It fails exactly at a record V1 sync cannot apply, and
 what it leaves open is counted per transaction. As long as no transaction begins twice, a range is
 closed exactly when everything it opens it also ends.
 */
module SyncScan {
  import opened Wrappers
  import opened SyncHistory

  /** Row changes, commit, rollback, begin and the two records after it; not the schema changes. */
  predicate Supported(u: Unit) {
    1 <= u.recordType <= 5 || 10 <= u.recordType <= 12
  }

  predicate AllSupported(units: seq<Unit>) {
    forall i :: 0 <= i < |units| ==> Supported(units[i])
  }

  /** This record starts transaction `tx` or changes a row in it. */
  predicate Opens(u: Unit, tx: nat) {
    tx != 0 && u.txId == tx && (u.recordType == BEGIN || u.IsRow())
  }

  /** How often `tx` is open after `units`: a row opens it once, each begin once more, an end closes one. */
  function Depth(units: seq<Unit>, tx: nat): nat {
    if units == [] then 0
    else
      var d, u := Depth(units[..|units| - 1], tx), units[|units| - 1];
      if tx == 0 || u.txId != tx then d
      else if u.recordType == BEGIN then d + 1
      else if u.IsRow() && d == 0 then 1
      else if u.Ends(tx) && d > 0 then d - 1
      else d
  }

  lemma {:induction false} CloseTxCounts(open: seq<nat>, tx: nat, t: nat)
    ensures multiset(CloseTx(open, tx))[t] == if t == tx && tx in open then multiset(open)[t] - 1 else multiset(open)[t]
  {
    if open != [] {
      var front, last := open[..|open| - 1], open[|open| - 1];
      assert open == front + [last];
      if last != tx {
        CloseTxCounts(front, tx, t);
      }
    }
  }

  lemma ObserveCounts(open: seq<nat>, u: Unit, tx: nat, d: nat)
    requires multiset(open)[tx] == d && (u.txId in open <==> multiset(open)[u.txId] > 0)
    ensures Observe(open, u).Some? <==> Supported(u)
    ensures Observe(open, u).Some? && tx != 0 ==>
              multiset(Observe(open, u).value)[tx] ==
              if u.txId != tx then d
              else if u.recordType == BEGIN then d + 1
              else if u.IsRow() && d == 0 then 1
              else if u.Ends(tx) && d > 0 then d - 1
              else d
  {
    hide CloseTx;
    CloseTxCounts(open, u.txId, tx);
  }

  /** The scan fails exactly at an unsupported record, and leaves each transaction open `Depth` times. */
  lemma {:induction false} ScanMeans(units: seq<Unit>, tx: nat)
    requires tx != 0
    ensures Scan([], units).Some? <==> AllSupported(units)
    ensures Scan([], units).Some? ==> multiset(Scan([], units).value)[tx] == Depth(units, tx)
    decreases |units|
  {
    hide Observe, Supported;
    if units != [] {
      var n := |units| - 1;
      ScanMeans(units[..n], tx);
      ScanSnoc(units, n);
      assert units[..n + 1] == units;
      if Scan([], units[..n]).Some? {
        ObserveCounts(Scan([], units[..n]).value, units[n], tx, Depth(units[..n], tx));
      }
      assert AllSupported(units) <==> AllSupported(units[..n]) && Supported(units[n]);
    }
  }

  lemma {:induction false} NoTxZero(units: seq<Unit>)
    ensures Scan([], units).Some? ==> 0 !in Scan([], units).value
    decreases |units|
  {
    if units != [] {
      var n := |units| - 1;
      NoTxZero(units[..n]);
      ScanSnoc(units, n);
      assert units[..n + 1] == units;
    }
  }

  ghost predicate NoneOpen(units: seq<Unit>) {
    forall tx: nat :: tx != 0 ==> Depth(units, tx) == 0
  }

  /** A range is closed exactly when every record is supported and every transaction is back at zero. */
  lemma ClosedMeans(units: seq<Unit>)
    ensures Closed(units) <==> AllSupported(units) && NoneOpen(units)
  {
    hide Scan, Depth;
    ScanMeans(units, 1);
    NoTxZero(units);
    if AllSupported(units) {
      var open := Scan([], units).value;
      forall tx: nat | tx != 0 ensures multiset(open)[tx] == Depth(units, tx) {
        ScanMeans(units, tx);
      }
      if open != [] {
        assert open[0] in open && open[0] in multiset(open);
        assert Depth(units, open[0]) > 0;
      }
    }
  }

  /** No transaction begins while it is open. */
  predicate NoNesting(units: seq<Unit>) {
    forall i :: 0 <= i < |units| && units[i].recordType == BEGIN ==> Depth(units[..i], units[i].txId) == 0
  }

  lemma {:induction false} UnendedStaysOpen(units: seq<Unit>, i: nat, tx: nat)
    requires i < |units| && Opens(units[i], tx) && forall j :: i < j < |units| ==> !units[j].Ends(tx)
    ensures Depth(units, tx) > 0
    decreases |units|
  {
    var n := |units| - 1;
    if i < n {
      UnendedStaysOpen(units[..n], i, tx);
    }
  }

  lemma {:induction false} OpenHasOpener(units: seq<Unit>, tx: nat) returns (i: nat)
    requires NoNesting(units) && tx != 0 && Depth(units, tx) > 0
    ensures Depth(units, tx) == 1
    ensures i < |units| && Opens(units[i], tx) && forall j :: i < j < |units| ==> !units[j].Ends(tx)
    decreases |units|
  {
    var n := |units| - 1;
    var front, u := units[..n], units[n];
    assert NoNesting(front) by {
      forall k | 0 <= k < n ensures units[..k] == front[..k] {
      }
    }
    if Depth(front, tx) == 0 {
      i := n;
    } else {
      i := OpenHasOpener(front, tx);
    }
  }

  /** Every transaction that is opened is ended later on. */
  ghost predicate AllEnd(units: seq<Unit>) {
    forall i, tx :: 0 <= i < |units| && Opens(units[i], tx) ==> exists j :: i < j < |units| && units[j].Ends(tx)
  }

  /**
   As long as no transaction begins while it is open, a range is closed if and only if every record in it
   is supported and every transaction opened in it is ended in it.
   */
  lemma ClosedIfAllEnd(units: seq<Unit>)
    requires NoNesting(units)
    ensures Closed(units) <==> AllSupported(units) && AllEnd(units)
  {
    hide Closed, Depth, Opens;
    ClosedMeans(units);
    if AllEnd(units) {
      forall tx: nat | tx != 0 ensures Depth(units, tx) == 0 {
        if Depth(units, tx) > 0 {
          var _ := OpenHasOpener(units, tx);
        }
      }
    }
    if NoneOpen(units) {
      forall i, tx: nat | 0 <= i < |units| && Opens(units[i], tx) ensures exists j :: i < j < |units| && units[j].Ends(tx) {
        if forall j :: i < j < |units| ==> !units[j].Ends(tx) {
          UnendedStaysOpen(units, i, tx);
          OpensNonzero(units[i], tx);
        }
      }
    }
  }

  lemma OpensNonzero(u: Unit, tx: nat)
    requires Opens(u, tx)
    ensures tx != 0
  {
  }
}
