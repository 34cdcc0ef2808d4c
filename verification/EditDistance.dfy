/**
 Edit distance for "did you mean": two rolling rows compute the least number of single-character
 insertions, deletions and substitutions that turn one word into another.
 */
module EditDistance {

  function Min(x: nat, y: nat): nat {
    if x <= y then x else y
  }

  function Cost(c: char, d: char): nat {
    if c != d then 1 else 0
  }

  /** The recurrence the rolling rows follow, over prefixes. */
  function Dist(a: string, b: string): nat
    decreases |a| + |b|
  {
    if a == [] then |b|
    else if b == [] then |a|
    else
      var m, n := |a| - 1, |b| - 1;
      Min(Dist(a[..m], b[..n]) + Cost(a[m], b[n]), Min(Dist(a[..m], b) + 1, Dist(a, b[..n]) + 1))
  }

  lemma Cell(a: string, b: string, i: nat, j: nat)
    requires i < |a| && j < |b|
    ensures Dist(a[..i + 1], b[..j + 1]) ==
            Min(Dist(a[..i], b[..j]) + Cost(a[i], b[j]), Min(Dist(a[..i], b[..j + 1]) + 1, Dist(a[..i + 1], b[..j]) + 1))
  {
    assert a[..i + 1][..i] == a[..i] && b[..j + 1][..j] == b[..j];
  }

  lemma Edges(a: string, b: string)
    ensures Dist(a, []) == |a| && Dist([], b) == |b|
  {
  }

  /** Fill the row for `a[..i + 1]` from the row for `a[..i]`. */
  method FillRow(a: string, b: string, i: nat, prev: array<nat>, cur: array<nat>)
    requires i < |a| && prev != cur && prev.Length == cur.Length == |b| + 1
    requires forall j :: 0 <= j <= |b| ==> prev[j] == Dist(a[..i], b[..j])
    modifies cur
    ensures forall j :: 0 <= j <= |b| ==> cur[j] == Dist(a[..i + 1], b[..j])
  {
    hide Dist, Min;
    cur[0] := i + 1;
    Edges(a[..i + 1], b);
    for j := 0 to |b|
      invariant forall k :: 0 <= k <= j ==> cur[k] == Dist(a[..i + 1], b[..k])
    {
      var substitution := prev[j] + Cost(a[i], b[j]);
      Cell(a, b, i, j);
      cur[j + 1] := Min(substitution, Min(prev[j + 1] + 1, cur[j] + 1));
    }
  }

  /** Two rolling rows, swapped after each character of `a`. */
  method Compute(a: string, b: string) returns (d: nat)
    ensures d == Dist(a, b)
    ensures exists path :: Script(path, a, b) && |path| == d + 1
    ensures forall path :: Script(path, a, b) ==> |path| >= d + 1
  {
    hide Dist, Script;
    var prev := new nat[|b| + 1](j => j);
    var cur := new nat[|b| + 1](_ => 0);
    forall j | 0 <= j <= |b| ensures prev[j] == Dist(a[..0], b[..j]) {
      Edges(a, b[..j]);
    }
    for i := 0 to |a|
      invariant prev != cur && prev.Length == cur.Length == |b| + 1
      invariant fresh(prev) && fresh(cur)
      invariant forall j :: 0 <= j <= |b| ==> prev[j] == Dist(a[..i], b[..j])
    {
      FillRow(a, b, i, prev, cur);
      prev, cur := cur, prev;
    }
    assert a[..|a|] == a && b[..|b|] == b;
    d := prev[|b|];
    LeastScript(a, b);
  }

  // ---------- single edits ----------

  /** `y` is `x` with one character put in somewhere. */
  ghost predicate Inserted(x: string, y: string) {
    exists k :: 0 <= k < |y| && x == y[..k] + y[k + 1..]
  }

  /** `y` is `x` with one character replaced. */
  ghost predicate Replaced(x: string, y: string) {
    exists k :: 0 <= k < |x| && |x| == |y| && y == x[k := y[k]]
  }

  ghost predicate OneEdit(x: string, y: string) {
    Inserted(x, y) || Inserted(y, x) || Replaced(x, y)
  }

  lemma OneEditAppend(x: string, y: string, c: char)
    requires OneEdit(x, y)
    ensures OneEdit(x + [c], y + [c])
  {
    if Inserted(x, y) {
      InsertedAppend(x, y, c);
    } else if Inserted(y, x) {
      InsertedAppend(y, x, c);
    } else {
      var k :| 0 <= k < |x| && |x| == |y| && y == x[k := y[k]];
      assert y + [c] == (x + [c])[k := (y + [c])[k]];
    }
  }

  lemma InsertedAppend(x: string, y: string, c: char)
    requires Inserted(x, y)
    ensures Inserted(x + [c], y + [c])
  {
    var k :| 0 <= k < |y| && x == y[..k] + y[k + 1..];
    var z := y + [c];
    assert x + [c] == z[..k] + z[k + 1..];
  }

  /** One more character at the end changes the distance by at most one. */
  lemma {:induction false} AppendNear(y: string, ch: char, c: string)
    ensures Dist(y + [ch], c) <= Dist(y, c) + 1
    ensures Dist(y, c) <= Dist(y + [ch], c) + 1
    decreases |c|
  {
    var x := y + [ch];
    assert x[..|y|] == y;
    if c != [] {
      AppendNear(y, ch, c[..|c| - 1]);
    }
  }

  lemma {:induction false} ReplaceLastNear(p: string, z: char, w: char, c: string)
    ensures Dist(p + [z], c) <= Dist(p + [w], c) + 1
    decreases |c|
  {
    assert (p + [z])[..|p|] == p && (p + [w])[..|p|] == p;
    if c != [] {
      ReplaceLastNear(p, z, w, c[..|c| - 1]);
    }
  }

  /** An edit is at the end, or before a last character both words share. */
  lemma InsertedCases(x: string, y: string)
    requires Inserted(x, y)
    ensures x == y[..|y| - 1] ||
            (x != [] && x[|x| - 1] == y[|y| - 1] && Inserted(x[..|x| - 1], y[..|y| - 1]))
  {
    var k :| 0 <= k < |y| && x == y[..k] + y[k + 1..];
    if k < |y| - 1 {
      var s, t := x[..|x| - 1], y[..|y| - 1];
      assert s == t[..k] + t[k + 1..];
    }
  }

  lemma ReplacedCases(x: string, y: string)
    requires Replaced(x, y)
    ensures |x| == |y| > 0
    ensures x[..|x| - 1] == y[..|x| - 1] || (x[|x| - 1] == y[|x| - 1] && Replaced(x[..|x| - 1], y[..|x| - 1]))
  {
    var k :| 0 <= k < |x| && |x| == |y| && y == x[k := y[k]];
    if k < |x| - 1 {
      var s, t := x[..|x| - 1], y[..|x| - 1];
      assert t == s[k := t[k]];
    }
  }

  lemma OneEditCases(x: string, y: string)
    requires OneEdit(x, y)
    ensures || (y != [] && x == y[..|y| - 1])
            || (x != [] && y == x[..|x| - 1])
            || (x != [] && y != [] && x[..|x| - 1] == y[..|y| - 1])
            || (x != [] && y != [] && x[|x| - 1] == y[|y| - 1] && OneEdit(x[..|x| - 1], y[..|y| - 1]))
  {
    if Inserted(x, y) {
      InsertedCases(x, y);
    } else if Inserted(y, x) {
      InsertedCases(y, x);
    } else {
      ReplacedCases(x, y);
    }
  }

  /** Words one edit apart are at nearly the same distance from any third. */
  lemma {:induction false} EditNear(x: string, y: string, c: string)
    requires OneEdit(x, y)
    ensures Dist(x, c) <= Dist(y, c) + 1
    decreases |x| + |y| + |c|
  {
    hide Dist, OneEdit;
    OneEditCases(x, y);
    if y != [] && x == y[..|y| - 1] {
      assert y == x + [y[|y| - 1]];
      AppendNear(x, y[|y| - 1], c);
    } else if x != [] && y == x[..|x| - 1] {
      assert x == y + [x[|x| - 1]];
      AppendNear(y, x[|x| - 1], c);
    } else if x[..|x| - 1] == y[..|y| - 1] {
      var p := x[..|x| - 1];
      assert x == p + [x[|x| - 1]] && y == p + [y[|y| - 1]];
      ReplaceLastNear(p, x[|x| - 1], y[|y| - 1], c);
    } else if c != [] {
      var s, t, front := x[..|x| - 1], y[..|y| - 1], c[..|c| - 1];
      EditNear(s, t, c);
      EditNear(s, t, front);
      EditNear(x, y, front);
      SameLast(x, y, c);
    } else {
      Edges(x, c);
      Edges(y, c);
      EditNear(x[..|x| - 1], y[..|y| - 1], c);
      Edges(x[..|x| - 1], c);
      Edges(y[..|y| - 1], c);
    }
  }

  lemma SameLast(x: string, y: string, c: string)
    requires x != [] && y != [] && c != [] && x[|x| - 1] == y[|y| - 1]
    requires Dist(x[..|x| - 1], c) <= Dist(y[..|y| - 1], c) + 1
    requires Dist(x[..|x| - 1], c[..|c| - 1]) <= Dist(y[..|y| - 1], c[..|c| - 1]) + 1
    requires Dist(x, c[..|c| - 1]) <= Dist(y, c[..|c| - 1]) + 1
    ensures Dist(x, c) <= Dist(y, c) + 1
  {
  }

  lemma {:induction false} SelfDistance(a: string)
    ensures Dist(a, a) == 0
  {
    if a != [] {
      SelfDistance(a[..|a| - 1]);
    }
  }

  // ---------- scripts ----------

  /** A script from `a` to `b`: words, each one edit from the next. Its length is the number of edits. */
  ghost predicate Script(path: seq<string>, a: string, b: string) {
    && path != [] && path[0] == a && path[|path| - 1] == b
    && forall i :: 0 <= i < |path| - 1 ==> OneEdit(path[i], path[i + 1])
  }

  /** No script is shorter than the distance. */
  lemma {:induction false} ScriptsAreLonger(path: seq<string>, a: string, b: string)
    requires Script(path, a, b)
    ensures Dist(a, b) <= |path| - 1
  {
    if |path| == 1 {
      SelfDistance(a);
    } else {
      assert OneEdit(path[0], path[0 + 1]);
      ScriptsAreLonger(path[1..], path[1], b);
      EditNear(a, path[1], b);
    }
  }

  lemma JoinScripts(p: seq<string>, q: seq<string>, a: string, b: string, c: string)
    requires Script(p, a, b) && Script(q, b, c)
    ensures Script(p + q[1..], a, c)
  {
    var r := p + q[1..];
    forall i | 0 <= i < |r| - 1 ensures OneEdit(r[i], r[i + 1]) {
      if i < |p| - 1 {
        assert OneEdit(p[i], p[i + 1]);
      } else {
        assert OneEdit(q[i - |p| + 1], q[i - |p| + 2]);
      }
    }
  }

  function AppendAll(path: seq<string>, c: char): (r: seq<string>)
    ensures |r| == |path|
  {
    seq(|path|, i requires 0 <= i < |path| => path[i] + [c])
  }

  lemma AppendScript(path: seq<string>, a: string, b: string, c: char)
    requires Script(path, a, b)
    ensures Script(AppendAll(path, c), a + [c], b + [c])
  {
    forall i | 0 <= i < |path| - 1 ensures OneEdit(path[i] + [c], path[i + 1] + [c]) {
      assert OneEdit(path[i], path[i + 1]);
      OneEditAppend(path[i], path[i + 1], c);
    }
  }

  lemma OneStep(a: string, b: string)
    requires OneEdit(a, b)
    ensures Script([a, b], a, b)
  {
  }

  lemma EditAtEnd(p: string, z: char, w: char)
    ensures OneEdit(p, p + [z]) && OneEdit(p + [z], p)
    ensures OneEdit(p + [z], p + [w])
  {
    var y, x := p + [z], p + [w];
    assert p == y[..|p|] + y[|p| + 1..];
    assert x == y[|p| := x[|p|]];
  }

  /** Some script has exactly the distance's length. */
  lemma {:induction false} ShortestScript(a: string, b: string) returns (path: seq<string>)
    ensures Script(path, a, b) && |path| == Dist(a, b) + 1
    decreases |a| + |b|
  {
    if a == [] && b == [] {
      path := [a];
    } else if a == [] || (b != [] && Dist(a, b) == Dist(a, b[..|b| - 1]) + 1) {
      var front, last := b[..|b| - 1], b[|b| - 1];
      assert b == front + [last];
      var p := ShortestScript(a, front);
      EditAtEnd(front, last, last);
      OneStep(front, b);
      JoinScripts(p, [front, b], a, front, b);
      path := p + [front, b][1..];
    } else if b == [] || Dist(a, b) == Dist(a[..|a| - 1], b) + 1 {
      var front, last := a[..|a| - 1], a[|a| - 1];
      assert a == front + [last];
      var p := ShortestScript(front, b);
      EditAtEnd(front, last, last);
      OneStep(a, front);
      JoinScripts([a, front], p, a, front, b);
      path := [a, front] + p[1..];
    } else {
      path := ShortestByLast(a, b);
    }
  }

  lemma {:induction false} ShortestByLast(a: string, b: string) returns (path: seq<string>)
    requires a != [] && b != []
    requires Dist(a, b) == Dist(a[..|a| - 1], b[..|b| - 1]) + Cost(a[|a| - 1], b[|b| - 1])
    ensures Script(path, a, b) && |path| == Dist(a, b) + 1
    decreases |a| + |b|, 0
  {
    var x, y, z, w := a[..|a| - 1], b[..|b| - 1], a[|a| - 1], b[|b| - 1];
    var p := ShortestScript(x, y);
    AppendScript(p, x, y, z);
    assert a == x + [z] && b == y + [w];
    path := AppendAll(p, z);
    if z != w {
      EditAtEnd(y, z, w);
      OneStep(y + [z], b);
      JoinScripts(path, [y + [z], b], a, y + [z], b);
      path := path + [y + [z], b][1..];
    }
  }

  /** The rolling rows return the least length of any script. */
  lemma LeastScript(a: string, b: string)
    ensures exists path :: Script(path, a, b) && |path| == Dist(a, b) + 1
    ensures forall path :: Script(path, a, b) ==> |path| >= Dist(a, b) + 1
  {
    var path := ShortestScript(a, b);
    forall p | Script(p, a, b) ensures |p| >= Dist(a, b) + 1 {
      ScriptsAreLonger(p, a, b);
    }
  }

  lemma {:induction false} Symmetric(a: string, b: string)
    ensures Dist(a, b) == Dist(b, a)
    decreases |a| + |b|
  {
    if a != [] && b != [] {
      Symmetric(a[..|a| - 1], b[..|b| - 1]);
      Symmetric(a[..|a| - 1], b);
      Symmetric(a, b[..|b| - 1]);
    }
  }

  /** Going through a third word is never shorter. */
  lemma {:induction false} Triangle(a: string, b: string, c: string)
    ensures Dist(a, c) <= Dist(a, b) + Dist(b, c)
  {
    var p := ShortestScript(a, b);
    var q := ShortestScript(b, c);
    JoinScripts(p, q, a, b, c);
    ScriptsAreLonger(p + q[1..], a, c);
  }
}
