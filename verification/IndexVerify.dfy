/**
 Verifying a column index against its table: only the keys that occur in rows are looked up, and
 one entry count is compared, yet the index must hold exactly the rows' pairs.
 */
module IndexVerify {
  import opened Sorting
  import opened Values

  type Pair = (Value, RowId)

  /** The pairs an index over column `col` must hold: a row whose key is empty has none. */
  function Expected(rows: seq<(RowId, Row)>, col: nat): multiset<Pair>
    requires forall i :: 0 <= i < |rows| ==> col < |rows[i].1|
  {
    if rows == [] then multiset{}
    else
      var n := |rows| - 1;
      var key := rows[n].1[col];
      if key.Empty? then Expected(rows[..n], col) else Expected(rows[..n], col) + multiset{(key, rows[n].0)}
  }

  /**
   What a lookup in `index` returns. A non-unique index gives every row id of the key, in any
   order; a unique one gives at most one, whatever the tree holds.
   */
  ghost predicate Looks(index: multiset<Pair>, unique: bool, lookup: Value -> seq<RowId>) {
    if unique then
      forall k :: if lookup(k) == [] then forall r :: (k, r) !in index else |lookup(k)| == 1 && (k, lookup(k)[0]) in index
    else
      forall k, r :: multiset(lookup(k))[r] == index[(k, r)]
  }

  /** `buckets` groups exactly the pairs of `pairs` by key. */
  ghost predicate Groups(buckets: map<Value, seq<RowId>>, pairs: multiset<Pair>) {
    forall k, r :: pairs[(k, r)] == if k in buckets then multiset(buckets[k])[r] else 0
  }

  /** No two pairs share a key. */
  ghost predicate UniqueKeys(pairs: multiset<Pair>) {
    && (forall p :: pairs[p] <= 1)
    && (forall k, r, q :: (k, r) in pairs && (k, q) in pairs ==> r == q)
  }

  lemma RidOrder()
    ensures TotalOrder(RidLe)
  {
  }

  // ---------- grouping ----------

  method Group(rows: seq<(RowId, Row)>, col: nat) returns (buckets: map<Value, seq<RowId>>)
    requires forall i :: 0 <= i < |rows| ==> col < |rows[i].1|
    ensures Groups(buckets, Expected(rows, col))
    ensures forall k :: k in buckets ==> buckets[k] != []
  {
    hide Groups;
    buckets := map[];
    GroupNone();
    for i := 0 to |rows|
      invariant Groups(buckets, Expected(rows[..i], col))
      invariant forall k :: k in buckets ==> buckets[k] != []
    {
      var (rid, row) := rows[i];
      var key := row[col];
      assert rows[..i + 1][..i] == rows[..i];
      if !key.Empty? {
        var bucket := if key in buckets then buckets[key] else [];
        GroupOne(buckets, Expected(rows[..i], col), key, rid);
        buckets := buckets[key := bucket + [rid]];
      }
    }
    assert rows[..|rows|] == rows;
  }

  lemma GroupNone()
    ensures Groups(map[], multiset{})
  {
  }

  lemma GroupOne(buckets: map<Value, seq<RowId>>, pairs: multiset<Pair>, key: Value, rid: RowId)
    requires Groups(buckets, pairs)
    ensures Groups(buckets[key := (if key in buckets then buckets[key] else []) + [rid]], pairs + multiset{(key, rid)})
  {
    var next := buckets[key := (if key in buckets then buckets[key] else []) + [rid]];
    forall k, r ensures (pairs + multiset{(key, rid)})[(k, r)] == if k in next then multiset(next[k])[r] else 0 {
      assert pairs[(k, r)] == if k in buckets then multiset(buckets[k])[r] else 0;
    }
  }

  // ---------- taking buckets out of the whole ----------

  function PairsOf(k: Value, rids: seq<RowId>): multiset<Pair> {
    multiset(seq(|rids|, i requires 0 <= i < |rids| => (k, rids[i])))
  }

  lemma {:induction false} PairsOfCount(k: Value, rids: seq<RowId>, j: Value, r: RowId)
    ensures PairsOf(k, rids)[(j, r)] == if j == k then multiset(rids)[r] else 0
    ensures |PairsOf(k, rids)| == |rids|
  {
    if rids != [] {
      var n := |rids| - 1;
      PairsOfCount(k, rids[..n], j, r);
      var pairs := seq(|rids|, i requires 0 <= i < |rids| => (k, rids[i]));
      var front := seq(n, i requires 0 <= i < n => (k, rids[..n][i]));
      assert pairs == front + [(k, rids[n])];
      assert rids == rids[..n] + [rids[n]];
    }
  }

  lemma TakeBucket(buckets: map<Value, seq<RowId>>, pairs: multiset<Pair>, k: Value)
    requires Groups(buckets, pairs) && k in buckets
    ensures |pairs - PairsOf(k, buckets[k])| + |buckets[k]| == |pairs|
    ensures Groups(buckets - {k}, pairs - PairsOf(k, buckets[k]))
  {
    var out := PairsOf(k, buckets[k]);
    forall j, r
      ensures out[(j, r)] <= pairs[(j, r)]
      ensures (pairs - out)[(j, r)] == if j in buckets - {k} then multiset((buckets - {k})[j])[r] else 0
    {
      PairsOfCount(k, buckets[k], j, r);
      assert pairs[(j, r)] == if j in buckets then multiset(buckets[j])[r] else 0;
    }
    PairsOfCount(k, buckets[k], k, RowId(0, 0));
    forall p ensures out[p] <= pairs[p] {
      assert p == (p.0, p.1);
    }
    assert pairs == (pairs - out) + out;
  }

  lemma NoBuckets(pairs: multiset<Pair>)
    requires Groups(map[], pairs)
    ensures |pairs| == 0
  {
    forall p ensures p !in pairs {
      assert pairs[(p.0, p.1)] == 0;
    }
    assert pairs == multiset{};
  }

  // ---------- what the probes and the count say ----------

  /** Every expected key looks up to its own bucket. */
  ghost predicate AllFound(buckets: map<Value, seq<RowId>>, lookup: Value -> seq<RowId>) {
    forall k :: k in buckets ==> multiset(lookup(k)) == multiset(buckets[k])
  }

  ghost predicate Singletons(buckets: map<Value, seq<RowId>>) {
    forall k :: k in buckets ==> |buckets[k]| <= 1
  }

  lemma SameSize(a: multiset<Pair>, b: multiset<Pair>)
    requires a <= b && |a| == |b|
    ensures a == b
  {
    assert b == a + (b - a);
  }

  /** Equal counts turn "every expected pair is there" into "nothing else is". */
  lemma FoundMeansHeld(buckets: map<Value, seq<RowId>>, pairs: multiset<Pair>, index: multiset<Pair>,
                       unique: bool, lookup: Value -> seq<RowId>)
    requires Groups(buckets, pairs) && Looks(index, unique, lookup)
    requires forall k :: k in buckets ==> buckets[k] != []
    requires AllFound(buckets, lookup) && |index| == |pairs| && (unique ==> Singletons(buckets))
    ensures index == pairs
  {
    forall p ensures pairs[p] <= index[p] {
      var (k, r) := p;
      assert pairs[(k, r)] == if k in buckets then multiset(buckets[k])[r] else 0;
      if k in buckets {
        assert multiset(lookup(k)) == multiset(buckets[k]);
        if unique {
          assert lookup(k) == [] ==> |multiset(lookup(k))| == 0;
          assert buckets[k] == [buckets[k][0]] && |lookup(k)| == 1;
          assert lookup(k) == [lookup(k)[0]];
          assert lookup(k)[0] in multiset(buckets[k]);
        }
      }
    }
    SameSize(pairs, index);
  }

  lemma HeldMeansFound(buckets: map<Value, seq<RowId>>, pairs: multiset<Pair>, unique: bool, lookup: Value -> seq<RowId>)
    requires Groups(buckets, pairs) && Looks(pairs, unique, lookup)
    requires forall k :: k in buckets ==> buckets[k] != []
    requires unique ==> Singletons(buckets)
    ensures AllFound(buckets, lookup)
  {
    forall k | k in buckets ensures multiset(lookup(k)) == multiset(buckets[k]) {
      forall r ensures pairs[(k, r)] == multiset(buckets[k])[r] {
      }
      if unique {
        var r := buckets[k][0];
        assert buckets[k] == [r];
        assert (k, r) in pairs;
        var q := lookup(k)[0];
        assert lookup(k) == [q];
        assert (k, q) in pairs;
        assert q in multiset(buckets[k]);
      }
    }
  }

  lemma SingletonsAreUnique(buckets: map<Value, seq<RowId>>, pairs: multiset<Pair>)
    requires Groups(buckets, pairs) && forall k :: k in buckets ==> buckets[k] != []
    ensures Singletons(buckets) <==> UniqueKeys(pairs)
  {
    if Singletons(buckets) {
      forall p ensures pairs[p] <= 1 {
        assert pairs[(p.0, p.1)] == if p.0 in buckets then multiset(buckets[p.0])[p.1] else 0;
        if p.0 in buckets {
          assert buckets[p.0] == [buckets[p.0][0]];
        }
      }
      forall k, r, q | (k, r) in pairs && (k, q) in pairs ensures r == q {
        assert pairs[(k, r)] > 0 && pairs[(k, q)] > 0;
        assert buckets[k] == [buckets[k][0]];
        assert r in multiset(buckets[k]) && q in multiset(buckets[k]);
      }
    }
    if k :| k in buckets && |buckets[k]| > 1 {
      TwoUnderOneKey(buckets, pairs, k);
    }
  }

  lemma TwoUnderOneKey(buckets: map<Value, seq<RowId>>, pairs: multiset<Pair>, k: Value)
    requires Groups(buckets, pairs) && k in buckets && |buckets[k]| > 1
    ensures !UniqueKeys(pairs)
  {
    var s := buckets[k];
    assert s == [s[0], s[1]] + s[2..];
    assert pairs[(k, s[0])] == multiset(s)[s[0]] && pairs[(k, s[1])] == multiset(s)[s[1]];
  }

  // ---------- the check ----------

  /**
   Check a column index. It passes if and only if the index holds exactly the rows' pairs, counted
   with multiplicity over all keys, and a unique index has no key twice.
   */
  method VerifyColumnIndex(rows: seq<(RowId, Row)>, col: nat, unique: bool, lookup: Value -> seq<RowId>,
                           totalEntries: nat, ghost index: multiset<Pair>)
    returns (ok: bool)
    requires forall i :: 0 <= i < |rows| ==> col < |rows[i].1|
    requires Looks(index, unique, lookup) && totalEntries == |index|
    ensures ok <==> index == Expected(rows, col) && (unique ==> UniqueKeys(index))
  {
    hide Looks, Groups, UniqueKeys, Expected;
    ghost var pairs := Expected(rows, col);
    var expected := Group(rows, col);
    SingletonsAreUnique(expected, pairs);
    if unique {
      var keys := expected.Keys;
      while keys != {}
        invariant keys <= expected.Keys
        invariant forall k :: k in expected && k !in keys ==> |expected[k]| <= 1
        decreases |keys|
      {
        var k :| k in keys;
        if |expected[k]| > 1 {
          return false;
        }
        keys := keys - {k};
      }
      assert Singletons(expected);
    }
    var actualTotal, keys := 0, expected.Keys;
    ghost var left, rest := expected, pairs;
    if index == pairs {
      HeldMeansFound(expected, pairs, unique, lookup);
    }
    RidOrder();
    while keys != {}
      invariant keys == left.Keys <= expected.Keys
      invariant forall k :: k in left ==> left[k] == expected[k]
      invariant Groups(left, rest) && actualTotal + |rest| == |pairs|
      invariant forall k :: k in expected && k !in keys ==> multiset(lookup(k)) == multiset(expected[k])
      decreases |keys|
    {
      var k :| k in keys;
      SortCompares(RidLe, lookup(k), expected[k]);
      if Sort(RidLe, lookup(k)) != Sort(RidLe, expected[k]) {
        return false;
      }
      TakeBucket(left, rest, k);
      left, rest := left - {k}, rest - PairsOf(k, left[k]);
      actualTotal := actualTotal + |expected[k]|;
      keys := keys - {k};
    }
    assert left == map[];
    NoBuckets(rest);
    if totalEntries != actualTotal {
      return false;
    }
    FoundMeansHeld(expected, pairs, index, unique, lookup);
    ok := true;
  }
}
