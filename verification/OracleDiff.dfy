/**
 The differential oracle's comparison of two results. An unordered comparison sorts both sides by
 the oracle's own order and compares cell by cell, which is multiset equality of rows.
 */
module OracleDiff {
  import opened Sorting

  type Text = seq<nat>

  /** A dialect-independent value. `Float` carries its position in the total order of doubles. */
  datatype OVal =
    | Null
    | Int(i: int)
    | Float(position: int)
    | Bool(b: bool)
    | Str(s: Text)
    | DateTime(micros: int)
    | Uuid(id: Text)
    | Blob(data: Text)
    | Json(doc: Text)

  type Row = seq<OVal>

  datatype ResultSet = ResultSet(columns: seq<string>, rows: seq<Row>)

  datatype Outcome = Error(message: string) | Rows(result: ResultSet)

  // ---------- the oracle's order ----------

  datatype Ordering = Less | Equal | Greater

  function CompareInts(a: int, b: int): Ordering {
    if a < b then Less else if a == b then Equal else Greater
  }

  function CompareTexts(a: Text, b: Text): Ordering {
    if a == [] && b == [] then Equal
    else if a == [] then Less
    else if b == [] then Greater
    else if a[0] != b[0] then CompareInts(a[0], b[0])
    else CompareTexts(a[1..], b[1..])
  }

  function Rank(v: OVal): nat {
    match v
    case Null => 0
    case Int(_) => 1
    case Float(_) => 2
    case Bool(_) => 3
    case Str(_) => 4
    case DateTime(_) => 5
    case Uuid(_) => 6
    case Blob(_) => 7
    case Json(_) => 8
  }

  function Flag(b: bool): int {
    if b then 1 else 0
  }

  /** Same type by value, different types by rank. */
  function Compare(a: OVal, b: OVal): Ordering {
    match (a, b)
    case (Int(x), Int(y)) => CompareInts(x, y)
    case (Float(x), Float(y)) => CompareInts(x, y)
    case (Bool(x), Bool(y)) => CompareInts(Flag(x), Flag(y))
    case (Str(x), Str(y)) => CompareTexts(x, y)
    case (DateTime(x), DateTime(y)) => CompareInts(x, y)
    case (Uuid(x), Uuid(y)) => CompareTexts(x, y)
    case (Blob(x), Blob(y)) => CompareTexts(x, y)
    case (Json(x), Json(y)) => CompareTexts(x, y)
    case _ => CompareInts(Rank(a), Rank(b))
  }

  function CompareRows(a: Row, b: Row): Ordering {
    if a == [] && b == [] then Equal
    else if a == [] then Less
    else if b == [] then Greater
    else if Compare(a[0], b[0]) != Equal then Compare(a[0], b[0])
    else CompareRows(a[1..], b[1..])
  }

  predicate RowLe(a: Row, b: Row) {
    CompareRows(a, b) != Greater
  }

  function Flip(o: Ordering): Ordering {
    match o
    case Less => Greater
    case Equal => Equal
    case Greater => Less
  }

  lemma {:induction false} TextsFlip(a: Text, b: Text)
    ensures CompareTexts(b, a) == Flip(CompareTexts(a, b))
    ensures CompareTexts(a, b) == Equal <==> a == b
  {
    if a != [] && b != [] {
      TextsFlip(a[1..], b[1..]);
      assert a == [a[0]] + a[1..] && b == [b[0]] + b[1..];
    }
  }

  lemma {:induction false} TextsTransitive(a: Text, b: Text, c: Text)
    requires CompareTexts(a, b) != Greater && CompareTexts(b, c) != Greater
    ensures CompareTexts(a, c) != Greater
    ensures CompareTexts(a, b) == Less || CompareTexts(b, c) == Less ==> CompareTexts(a, c) == Less
    decreases |a| + |b| + |c|
  {
    if a != [] && b != [] && c != [] && a[0] == b[0] == c[0] {
      TextsTransitive(a[1..], b[1..], c[1..]);
    }
  }

  lemma Flips(a: OVal, b: OVal)
    ensures Compare(b, a) == Flip(Compare(a, b))
    ensures Compare(a, b) == Equal <==> a == b
  {
    match (a, b) {
      case (Str(x), Str(y)) => TextsFlip(x, y);
      case (Uuid(x), Uuid(y)) => TextsFlip(x, y);
      case (Blob(x), Blob(y)) => TextsFlip(x, y);
      case (Json(x), Json(y)) => TextsFlip(x, y);
      case _ =>
    }
  }

  /** Values of one rank compare by their contents, others by rank. */
  lemma ByRank(a: OVal, b: OVal)
    ensures Rank(a) != Rank(b) ==> Compare(a, b) == CompareInts(Rank(a), Rank(b))
  {
  }

  lemma Transitive(a: OVal, b: OVal, c: OVal)
    requires Compare(a, b) != Greater && Compare(b, c) != Greater
    ensures Compare(a, c) != Greater
    ensures Compare(a, b) == Less || Compare(b, c) == Less ==> Compare(a, c) == Less
  {
    ByRank(a, b);
    ByRank(b, c);
    ByRank(a, c);
    if Rank(a) == Rank(b) == Rank(c) {
      match (a, b) {
        case (Str(x), Str(y)) => TextsTransitive(x, y, c.s);
        case (Uuid(x), Uuid(y)) => TextsTransitive(x, y, c.id);
        case (Blob(x), Blob(y)) => TextsTransitive(x, y, c.data);
        case (Json(x), Json(y)) => TextsTransitive(x, y, c.doc);
        case _ =>
      }
    }
  }

  lemma {:induction false} RowsFlip(a: Row, b: Row)
    ensures CompareRows(b, a) == Flip(CompareRows(a, b))
    ensures CompareRows(a, b) == Equal <==> a == b
  {
    hide Compare;
    if a != [] && b != [] {
      Flips(a[0], b[0]);
      RowsFlip(a[1..], b[1..]);
      assert a == [a[0]] + a[1..] && b == [b[0]] + b[1..];
    }
  }

  lemma {:induction false} RowsTransitive(a: Row, b: Row, c: Row)
    requires RowLe(a, b) && RowLe(b, c)
    ensures RowLe(a, c)
    decreases |a| + |b| + |c|
  {
    hide Compare;
    if a != [] && b != [] && c != [] {
      Flips(a[0], b[0]);
      Flips(b[0], c[0]);
      Transitive(a[0], b[0], c[0]);
      if a[0] == b[0] == c[0] {
        Flips(a[0], c[0]);
        RowsTransitive(a[1..], b[1..], c[1..]);
      }
    }
  }

  /** Rows are totally ordered, and no two different rows tie. */
  lemma RowOrder()
    ensures TotalOrder(RowLe)
  {
    forall a, b ensures (RowLe(a, b) || RowLe(b, a)) && (RowLe(a, b) && RowLe(b, a) ==> a == b) {
      RowsFlip(a, b);
    }
    forall a, b, c | RowLe(a, b) && RowLe(b, c) ensures RowLe(a, c) {
      RowsTransitive(a, b, c);
    }
  }

  // ---------- the rows only one side has ----------

  /** The rows of `from` left over after pairing each with an equal row of `other`, in their order. */
  method Only(from: seq<Row>, other: seq<Row>) returns (out: seq<Row>)
    ensures multiset(out) == multiset(from) - multiset(other)
  {
    var pool := other;
    out := [];
    for i := 0 to |from|
      invariant multiset(out) + multiset(other) == multiset(from[..i]) + multiset(pool)
      invariant forall r :: r in multiset(out) ==> r !in multiset(pool)
    {
      var row := from[i];
      assert from[..i + 1] == from[..i] + [row];
      assert multiset(from[..i + 1]) == multiset(from[..i]) + multiset{row};
      var idx := Position(pool, row);
      if idx < |pool| {
        Paired(multiset(out) + multiset(other), multiset(from[..i]), multiset(pool), row);
        pool := SwapRemove(pool, idx);
      } else {
        Unpaired(multiset(out), multiset(other), multiset(from[..i]), multiset(pool), row);
        out := out + [row];
      }
    }
    assert from[..|from|] == from;
    LeftOver(multiset(from), multiset(other), multiset(out), multiset(pool));
  }

  lemma Paired(all: multiset<Row>, seen: multiset<Row>, pool: multiset<Row>, row: Row)
    requires all == seen + pool && row in pool
    ensures all == (seen + multiset{row}) + (pool - multiset{row})
  {
  }

  lemma Unpaired(out: multiset<Row>, other: multiset<Row>, seen: multiset<Row>, pool: multiset<Row>, row: Row)
    requires out + other == seen + pool
    ensures (out + multiset{row}) + other == (seen + multiset{row}) + pool
  {
    assert (out + multiset{row}) + other == (out + other) + multiset{row};
    assert (seen + multiset{row}) + pool == (seen + pool) + multiset{row};
  }

  lemma LeftOver(a: multiset<Row>, b: multiset<Row>, out: multiset<Row>, pool: multiset<Row>)
    requires out + b == a + pool && forall r :: r in out ==> r !in pool
    ensures out == a - b
  {
    forall r ensures out[r] == (a - b)[r] {
      assert (out + b)[r] == (a + pool)[r];
    }
  }

  method Position(pool: seq<Row>, row: Row) returns (idx: nat)
    ensures idx <= |pool| && row !in pool[..idx] && (idx < |pool| ==> pool[idx] == row)
    ensures idx == |pool| ==> row !in pool
  {
    idx := 0;
    while idx < |pool| && pool[idx] != row
      invariant idx <= |pool| && row !in pool[..idx]
    {
      idx := idx + 1;
    }
    assert idx == |pool| ==> pool[..idx] == pool;
  }

  /** Remove one element by moving the last into its place. */
  function SwapRemove(pool: seq<Row>, idx: nat): (r: seq<Row>)
    requires idx < |pool|
    ensures multiset(r) == multiset(pool) - multiset{pool[idx]}
  {
    var n := |pool| - 1;
    assert pool == pool[..n] + [pool[n]];
    var front := pool[..n];
    if idx == n then front
    else
      assert front == front[..idx] + [pool[idx]] + front[idx + 1..];
      assert front[idx := pool[n]] == front[..idx] + [pool[n]] + front[idx + 1..];
      front[idx := pool[n]]
  }

  lemma NothingLeftOver(a: multiset<Row>, b: multiset<Row>)
    requires a - b == multiset{} && b - a == multiset{}
    ensures a == b
  {
    forall r ensures a[r] == b[r] {
      assert (a - b)[r] == 0 && (b - a)[r] == 0;
    }
  }

  /** When the counts differ, one side has a row the other lacks. */
  lemma CountsDiffer(a: multiset<Row>, b: multiset<Row>)
    requires |a| != |b|
    ensures a - b != multiset{} || b - a != multiset{}
  {
    if a - b == multiset{} && b - a == multiset{} {
      NothingLeftOver(a, b);
    }
  }

  // ---------- the comparison ----------

  datatype Difference =
    | OneErrored
    | Columns
    | Count(onlyLeft: seq<Row>, onlyRight: seq<Row>)
    | Width(row: nat)
    | Cell(row: nat, column: nat)

  datatype Verdict = Agree | Differ(how: Difference)

  /** Compare two row lists cell by cell. */
  method DiffCells(a: seq<Row>, b: seq<Row>) returns (v: Verdict)
    requires |a| == |b|
    ensures v == Agree <==> a == b
    ensures v.Differ? ==> v.how.Width? || v.how.Cell?
  {
    for i := 0 to |a|
      invariant a[..i] == b[..i]
    {
      if |a[i]| != |b[i]| {
        return Differ(Width(i));
      }
      for j := 0 to |a[i]|
        invariant a[i][..j] == b[i][..j]
      {
        Flips(a[i][j], b[i][j]);
        if Rank(a[i][j]) != Rank(b[i][j]) || Compare(a[i][j], b[i][j]) != Equal {
          return Differ(Cell(i, j));
        }
      }
      assert a[i] == a[i][..|a[i]|] && b[i] == b[i][..|b[i]|];
    }
    assert a == a[..|a|] && b == b[..|b|];
    v := Agree;
  }

  /**
   Two results agree if and only if both are errors, or they have the same columns and the same
   rows: in the same order when the query fixes one, and otherwise each as often.
   A difference in row count names exactly the rows each side has over the other.
   */
  method Diff(left: Outcome, right: Outcome, ordered: bool) returns (v: Verdict)
    ensures v == Agree <==>
            match (left, right)
            case (Error(_), Error(_)) => true
            case (Rows(a), Rows(b)) =>
              a.columns == b.columns && if ordered then a.rows == b.rows else multiset(a.rows) == multiset(b.rows)
            case _ => false
    ensures v.Differ? && v.how.Count? ==>
              && left.Rows? && right.Rows?
              && multiset(v.how.onlyLeft) == multiset(left.result.rows) - multiset(right.result.rows)
              && multiset(v.how.onlyRight) == multiset(right.result.rows) - multiset(left.result.rows)
              && (v.how.onlyLeft != [] || v.how.onlyRight != [])
  {
    match (left, right) {
      case (Error(_), Error(_)) =>
        v := Agree;
      case (Rows(a), Rows(b)) =>
        v := DiffRows(a, b, ordered);
      case _ =>
        v := Differ(OneErrored);
    }
  }

  method DiffRows(a: ResultSet, b: ResultSet, ordered: bool) returns (v: Verdict)
    ensures v == Agree <==>
            a.columns == b.columns && if ordered then a.rows == b.rows else multiset(a.rows) == multiset(b.rows)
    ensures v.Differ? && v.how.Count? ==>
              && multiset(v.how.onlyLeft) == multiset(a.rows) - multiset(b.rows)
              && multiset(v.how.onlyRight) == multiset(b.rows) - multiset(a.rows)
              && (v.how.onlyLeft != [] || v.how.onlyRight != [])
  {
    if a.columns != b.columns {
      return Differ(Columns);
    }
    if |a.rows| != |b.rows| {
      var onlyLeft := Only(a.rows, b.rows);
      var onlyRight := Only(b.rows, a.rows);
      assert |multiset(a.rows)| == |a.rows| && |multiset(b.rows)| == |b.rows|;
      CountsDiffer(multiset(a.rows), multiset(b.rows));
      return Differ(Count(onlyLeft, onlyRight));
    }
    if ordered {
      v := DiffCells(a.rows, b.rows);
    } else {
      RowOrder();
      SortSorts(RowLe, a.rows);
      SortSorts(RowLe, b.rows);
      SortCompares(RowLe, a.rows, b.rows);
      var la, lb := Sort(RowLe, a.rows), Sort(RowLe, b.rows);
      assert |la| == |multiset(la)| && |lb| == |multiset(lb)|;
      v := DiffCells(la, lb);
    }
  }
}
