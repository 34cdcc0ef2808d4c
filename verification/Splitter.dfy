/**
 Splitting a script into statements. `;` separates statements except inside a string or a comment;
 segments are trimmed and blank ones dropped.
 */
module Splitter {

  /** `Escaped` is a string just after a backslash. */
  datatype State = Normal | InString | Escaped | InComment

  function Next(st: State, c: char): State {
    match st
    case Normal => if c == '"' then InString else if c == '#' then InComment else Normal
    case InString => if c == '\\' then Escaped else if c == '"' then Normal else InString
    case Escaped => InString
    case InComment => if c == '\n' then Normal else InComment
  }

  function Run(st: State, s: string): State
    decreases s
  {
    if s == [] then st else Run(Next(st, s[0]), s[1..])
  }

  /** Some `;` of `s` separates statements. */
  predicate Splits(st: State, s: string)
    decreases s
  {
    s != [] && ((st == Normal && s[0] == ';') || Splits(Next(st, s[0]), s[1..]))
  }

  /** The text between separating semicolons. */
  function Raw(st: State, s: string): (rs: seq<string>)
    ensures rs != []
    decreases s
  {
    if s == [] then [[]]
    else if st == Normal && s[0] == ';' then [[]] + Raw(Normal, s[1..])
    else
      var rest := Raw(Next(st, s[0]), s[1..]);
      [[s[0]] + rest[0]] + rest[1..]
  }

  /** White space and line terminators, as a trim removes them. */
  predicate Space(c: char) {
    || c in "\t\n\r \U{000B}\U{000C}\U{00A0}\U{1680}\U{2028}\U{2029}\U{202F}\U{205F}\U{3000}\U{FEFF}"
    || '\U{2000}' <= c <= '\U{200A}'
  }

  predicate Blank(s: string) {
    forall i :: 0 <= i < |s| ==> Space(s[i])
  }

  function TrimStart(s: string): string {
    if s != [] && Space(s[0]) then TrimStart(s[1..]) else s
  }

  function TrimEnd(s: string): string {
    if s != [] && Space(s[|s| - 1]) then TrimEnd(s[..|s| - 1]) else s
  }

  function Trim(s: string): string {
    TrimEnd(TrimStart(s))
  }

  function Clean(rs: seq<string>): seq<string> {
    if rs == [] then []
    else if Trim(rs[0]) == [] then Clean(rs[1..])
    else [Trim(rs[0])] + Clean(rs[1..])
  }

  /** The recursive scanner. */
  function Statements(s: string): seq<string> {
    Clean(Raw(Normal, s))
  }

  // ---------- the loop ----------

  /** `rs` with `x` in front of its first text. */
  function Prepend(x: string, rs: seq<string>): seq<string>
    requires rs != []
  {
    [x + rs[0]] + rs[1..]
  }

  lemma PrependTwice(x: string, y: string, rs: seq<string>)
    requires rs != []
    ensures Prepend(x, Prepend(y, rs)) == Prepend(x + y, rs)
  {
    assert x + (y + rs[0]) == (x + y) + rs[0];
    assert Prepend(y, rs)[1..] == rs[1..];
  }

  lemma RawStep(st: State, s: string)
    requires s != [] && !(st == Normal && s[0] == ';')
    ensures Raw(st, s) == Prepend([s[0]], Raw(Next(st, s[0]), s[1..]))
  {
  }

  /** Taking one more character into the current segment. */
  lemma Take(input: string, start: nat, i: nat, st: State)
    requires start <= i < |input| && !(st == Normal && input[i] == ';')
    ensures Prepend(input[start..i], Raw(st, input[i..])) ==
            Prepend(input[start..i + 1], Raw(Next(st, input[i]), input[i + 1..]))
  {
    hide Raw, Prepend;
    RawStep(st, input[i..]);
    assert input[i..][1..] == input[i + 1..];
    PrependTwice(input[start..i], [input[i]], Raw(Next(st, input[i]), input[i + 1..]));
    assert input[start..i] + [input[i]] == input[start..i + 1];
  }

  /** Cutting at a separating semicolon. */
  lemma Cut(input: string, start: nat, i: nat)
    requires start <= i < |input| && input[i] == ';'
    ensures Prepend(input[start..i], Raw(Normal, input[i..])) ==
            [input[start..i]] + Prepend([], Raw(Normal, input[i + 1..]))
  {
    assert input[i..][1..] == input[i + 1..];
    var rest := Raw(Normal, input[i + 1..]);
    assert Raw(Normal, input[i..]) == [[]] + rest;
    assert input[start..i] + [] == input[start..i];
    assert [] + rest[0] == rest[0];
    assert [rest[0]] + rest[1..] == rest;
  }

  /** Split by one pass over the characters; a backslash in a string takes the next character with it. */
  method SplitStatements(input: string) returns (out: seq<string>)
    ensures out == Statements(input)
  {
    hide Raw, Trim, Prepend;
    out := [];
    var start, i, st := 0, 0, Normal;
    StartScan(input);
    while i < |input|
      invariant start <= i <= |input| && st != Escaped
      invariant Statements(input) == out + Clean(Prepend(input[start..i], Raw(st, input[i..])))
    {
      var c := input[i];
      match st {
        case Normal =>
          if c == ';' {
            Cut(input, start, i);
            CleanHead(input[start..i], Prepend([], Raw(Normal, input[i + 1..])));
            var seg := Trim(input[start..i]);
            if seg != [] {
              out := out + [seg];
            }
            start := i + 1;
            assert input[start..i + 1] == [];
          } else {
            Take(input, start, i, st);
            st := Next(st, c);
          }
        case InString =>
          Take(input, start, i, st);
          if c == '\\' {
            i := i + 1;
            if i == |input| {
              EndScan(input, start, Escaped);
              break;
            }
            Take(input, start, i, Escaped);
          } else {
            st := Next(st, c);
          }
        case InComment =>
          Take(input, start, i, st);
          st := Next(st, c);
      }
      i := i + 1;
    }
    EndScan(input, start, st);
    CleanHead(input[start..], []);
    var seg := Trim(input[start..]);
    if seg != [] {
      out := out + [seg];
    }
  }

  lemma StartScan(input: string)
    ensures Statements(input) == [] + Clean(Prepend(input[0..0], Raw(Normal, input[0..])))
  {
    assert input[0..] == input;
    var rs := Raw(Normal, input);
    assert [] + rs[0] == rs[0];
    assert rs == [rs[0]] + rs[1..];
  }

  lemma EndScan(input: string, start: nat, st: State)
    requires start <= |input|
    ensures Prepend(input[start..|input|], Raw(st, input[|input|..])) == [input[start..]]
  {
    assert input[|input|..] == [];
    assert input[start..|input|] + [] == input[start..];
  }

  lemma CleanHead(x: string, rs: seq<string>)
    ensures Clean([x] + rs) == (if Trim(x) == [] then [] else [Trim(x)]) + Clean(rs)
  {
    assert ([x] + rs)[1..] == rs;
  }

  // ---------- concatenation ----------

  lemma {:induction false} RunConcat(st: State, a: string, b: string)
    ensures Run(st, a + b) == Run(Run(st, a), b)
    ensures Splits(st, a + b) <==> Splits(st, a) || Splits(Run(st, a), b)
    decreases a
  {
    if a == [] {
      assert a + b == b;
    } else {
      assert (a + b)[1..] == a[1..] + b;
      RunConcat(Next(st, a[0]), a[1..], b);
    }
  }

  /** The last text of `x` and the first of `y` are one text. */
  function Glue(x: seq<string>, y: seq<string>): (r: seq<string>)
    requires x != [] && y != []
    ensures |r| == |x| + |y| - 1
  {
    x[..|x| - 1] + [x[|x| - 1] + y[0]] + y[1..]
  }

  lemma GluePrepend(c: string, x: seq<string>, y: seq<string>)
    requires x != [] && y != []
    ensures Glue(Prepend(c, x), y) == Prepend(c, Glue(x, y))
  {
    if |x| == 1 {
      assert c + (x[0] + y[0]) == (c + x[0]) + y[0];
    }
  }

  lemma GlueSeparator(x: seq<string>, y: seq<string>)
    requires x != [] && y != []
    ensures Glue([[]] + x, y) == [[]] + Glue(x, y)
  {
  }

  lemma {:induction false} RawConcat(st: State, a: string, b: string)
    ensures Raw(st, a + b) == Glue(Raw(st, a), Raw(Run(st, a), b))
    decreases a
  {
    hide Glue, Prepend;
    if a == [] {
      assert a + b == b;
      GlueEmpty(Raw(st, b));
    } else {
      assert (a + b)[1..] == a[1..] + b;
      RawConcat(Next(st, a[0]), a[1..], b);
      var x, y := Raw(Next(st, a[0]), a[1..]), Raw(Run(st, a), b);
      if st == Normal && a[0] == ';' {
        GlueSeparator(x, y);
      } else {
        RawStep(st, a + b);
        RawStep(st, a);
        GluePrepend([a[0]], x, y);
      }
    }
  }

  lemma GlueEmpty(y: seq<string>)
    requires y != []
    ensures Glue([[]], y) == y
  {
    assert [] + y[0] == y[0];
  }

  lemma {:induction false} RawWhole(st: State, s: string)
    requires !Splits(st, s)
    ensures Raw(st, s) == [s]
    decreases s
  {
    if s != [] {
      RawWhole(Next(st, s[0]), s[1..]);
      assert [s[0]] + s[1..] == s;
    }
  }

  // ---------- what separates and what does not ----------

  /** The texts with a semicolon between each two. */
  function Rejoin(rs: seq<string>): string {
    if rs == [] then [] else if |rs| == 1 then rs[0] else rs[0] + ";" + Rejoin(rs[1..])
  }

  lemma RejoinPrepend(x: string, rs: seq<string>)
    requires rs != []
    ensures Rejoin(Prepend(x, rs)) == x + Rejoin(rs)
  {
    assert Prepend(x, rs)[1..] == rs[1..];
    if |rs| > 1 {
      assert x + (rs[0] + ";" + Rejoin(rs[1..])) == (x + rs[0]) + ";" + Rejoin(rs[1..]);
    }
  }

  /** Cutting loses nothing but the semicolons it cuts at. */
  lemma {:induction false} RawRejoined(st: State, s: string)
    ensures Rejoin(Raw(st, s)) == s
    decreases s
  {
    hide Prepend;
    if s != [] {
      assert [s[0]] + s[1..] == s;
      if st == Normal && s[0] == ';' {
        RawRejoined(Normal, s[1..]);
        var rest := Raw(Normal, s[1..]);
        assert ([[]] + rest)[1..] == rest;
        assert [] + ";" + s[1..] == [s[0]] + s[1..];
      } else {
        RawStep(st, s);
        RawRejoined(Next(st, s[0]), s[1..]);
        hide Rejoin, Raw;
        RejoinPrepend([s[0]], Raw(Next(st, s[0]), s[1..]));
      }
    }
  }

  lemma {:induction false} StaysInside(st: State, s: string)
    requires st == InString || st == InComment
    requires forall i :: 0 <= i < |s| ==> if st == InString then s[i] != '"' && s[i] != '\\' else s[i] != '\n'
    ensures Run(st, s) == st && !Splits(st, s)
  {
    if s != [] {
      StaysInside(st, s[1..]);
    }
  }

  /**
   What is not a separator: anything in a comment up to the end of its line, anything but a quote or a
   backslash in a string, and in a string any character after a backslash.
   */
  lemma OpaqueText(t: string, c: char)
    ensures (forall i :: 0 <= i < |t| ==> t[i] != '\n') ==>
              Run(Normal, "#" + t + "\n") == Normal && !Splits(Normal, "#" + t + "\n")
    ensures (forall i :: 0 <= i < |t| ==> t[i] != '"' && t[i] != '\\') ==>
              Run(Normal, "\"" + t + "\"") == Normal && !Splits(Normal, "\"" + t + "\"")
    ensures Run(InString, ['\\', c]) == InString && !Splits(InString, ['\\', c])
  {
    assert ['\\', c][1..] == [c] && [c][1..] == [];
    assert Run(Escaped, [c]) == Run(InString, []) && !Splits(Escaped, [c]);
    if forall i :: 0 <= i < |t| ==> t[i] != '\n' {
      StaysInside(InComment, t);
      Enclosed("#", t, "\n");
    }
    if forall i :: 0 <= i < |t| ==> t[i] != '"' && t[i] != '\\' {
      StaysInside(InString, t);
      Enclosed("\"", t, "\"");
    }
  }

  lemma Enclosed(a: string, t: string, b: string)
    ensures Run(Normal, a + t + b) == Run(Run(Run(Normal, a), t), b)
    ensures Splits(Normal, a + t + b) <==>
            Splits(Normal, a) || Splits(Run(Normal, a), t) || Splits(Run(Run(Normal, a), t), b)
  {
    RunConcat(Normal, a + t, b);
    RunConcat(Normal, a, t);
  }

  // ---------- what the segments look like ----------

  /** No text holds a separator, and all but the last end outside strings and comments. */
  predicate WellCut(st: State, rs: seq<string>)
    decreases rs
  {
    && rs != [] && !Splits(st, rs[0])
    && (|rs| > 1 ==> Run(st, rs[0]) == Normal && WellCut(Normal, rs[1..]))
  }

  lemma {:induction false} RawIsWellCut(st: State, s: string)
    ensures WellCut(st, Raw(st, s))
    decreases s
  {
    if s != [] {
      if st == Normal && s[0] == ';' {
        RawIsWellCut(Normal, s[1..]);
        assert Raw(st, s)[1..] == Raw(Normal, s[1..]);
      } else {
        var rest := Raw(Next(st, s[0]), s[1..]);
        RawIsWellCut(Next(st, s[0]), s[1..]);
        var first := [s[0]] + rest[0];
        assert first[1..] == rest[0];
        assert Raw(st, s)[1..] == rest[1..];
      }
    }
  }

  predicate Trimmed(s: string) {
    s != [] && !Space(s[0]) && !Space(s[|s| - 1])
  }

  lemma {:induction false} TrimStartSplits(s: string) returns (lead: string)
    ensures s == lead + TrimStart(s) && Blank(lead)
    ensures TrimStart(s) != [] ==> !Space(TrimStart(s)[0])
  {
    hide Space;
    if s != [] && Space(s[0]) {
      lead := TrimStartSplits(s[1..]);
      assert s == [s[0]] + s[1..];
      lead := [s[0]] + lead;
    } else {
      lead := [];
    }
  }

  lemma {:induction false} TrimEndSplits(s: string) returns (trail: string)
    ensures s == TrimEnd(s) + trail && Blank(trail)
    ensures TrimEnd(s) != [] ==> !Space(TrimEnd(s)[|TrimEnd(s)| - 1])
  {
    hide Space;
    if s != [] && Space(s[|s| - 1]) {
      trail := TrimEndSplits(s[..|s| - 1]);
      assert s == s[..|s| - 1] + [s[|s| - 1]];
      trail := trail + [s[|s| - 1]];
    } else {
      trail := [];
    }
  }

  /** A text is its trimmed form between two blanks. */
  lemma TrimSplits(s: string) returns (lead: string, trail: string)
    ensures s == lead + Trim(s) + trail && Blank(lead) && Blank(trail)
    ensures Trim(s) == [] || Trimmed(Trim(s))
  {
    lead := TrimStartSplits(s);
    trail := TrimEndSplits(TrimStart(s));
    assert s == lead + (Trim(s) + trail);
    assert Trim(s) != [] ==> Trim(s)[0] == TrimStart(s)[0];
  }

  lemma {:induction false} BlankRuns(st: State, s: string)
    requires Blank(s)
    ensures !Splits(st, s)
    ensures st == Normal ==> Run(st, s) == Normal
    ensures st == InString || st == Escaped ==> Run(st, s) == InString || Run(st, s) == Escaped
    decreases s
  {
    if s != [] {
      assert Space(s[0]);
      BlankRuns(Next(st, s[0]), s[1..]);
    }
  }

  /** Where a trimmed statement that is not the last may end. */
  predicate Closes(s: string) {
    Run(Normal, s) == Normal || Run(Normal, s) == InComment
  }

  lemma TrimKeeps(s: string)
    requires !Splits(Normal, s)
    ensures !Splits(Normal, Trim(s))
    ensures Run(Normal, s) == Normal ==> Closes(Trim(s))
  {
    var lead, trail := TrimSplits(s);
    var t := Trim(s);
    BlankRuns(Normal, lead);
    RunConcat(Normal, lead + t, trail);
    RunConcat(Normal, lead, t);
    BlankRuns(Run(Normal, t), trail);
  }

  /** What a list of statements is: trimmed, free of separators, all but the last closed. */
  predicate Listed(segs: seq<string>) {
    && (forall i :: 0 <= i < |segs| ==> Trimmed(segs[i]) && !Splits(Normal, segs[i]))
    && (forall i :: 0 <= i < |segs| - 1 ==> Closes(segs[i]))
  }

  lemma {:induction false} CleanIsListed(rs: seq<string>)
    requires WellCut(Normal, rs)
    ensures Listed(Clean(rs))
    decreases rs
  {
    hide Trim;
    TrimKeeps(rs[0]);
    var lead, trail := TrimSplits(rs[0]);
    assert rs == [rs[0]] + rs[1..];
    CleanHead(rs[0], rs[1..]);
    if |rs| > 1 {
      CleanIsListed(rs[1..]);
    }
  }

  /** Statements of any script, as a list. */
  lemma StatementsAreListed(s: string)
    ensures Listed(Statements(s))
  {
    RawIsWellCut(Normal, s);
    CleanIsListed(Raw(Normal, s));
  }

  // ---------- joining again ----------

  /** A newline and a semicolon between statements; nothing after the last, which may be unterminated. */
  function Join(segs: seq<string>): string {
    if segs == [] then []
    else if |segs| == 1 then segs[0]
    else segs[0] + "\n;" + Join(segs[1..])
  }

  lemma {:induction false} TrimOfTrimmed(s: string)
    requires Trimmed(s)
    ensures Trim(s) == s && Trim(s + "\n") == s
  {
    assert (s + "\n")[..|s|] == s;
  }

  /** Splitting what was joined gives the list back. */
  lemma {:induction false} SplitJoined(segs: seq<string>)
    requires Listed(segs)
    ensures Statements(Join(segs)) == segs
  {
    if segs == [] {
      assert Raw(Normal, []) == [[]];
      CleanHead([], []);
    } else {
      var s := segs[0];
      TrimOfTrimmed(s);
      if |segs| == 1 {
        RawWhole(Normal, s);
        CleanHead(s, []);
        assert [s] + [] == [s];
      } else {
        hide Trim, Raw, Run, Splits;
        SplitJoined(segs[1..]);
        SplitFirst(s, Join(segs[1..]));
        assert s + "\n;" + Join(segs[1..]) == s + "\n" + (";" + Join(segs[1..]));
        CleanHead(s + "\n", Raw(Normal, Join(segs[1..])));
        assert segs == [s] + segs[1..];
      }
    }
  }

  lemma GlueCut(x: string, rs: seq<string>)
    ensures Glue([x], [[]] + rs) == [x] + rs
  {
    assert x + [] == x && ([[]] + rs)[1..] == rs;
  }

  lemma RawSeparator(rest: string)
    ensures Raw(Normal, ";" + rest) == [[]] + Raw(Normal, rest)
  {
    assert (";" + rest)[1..] == rest;
  }

  lemma NewlineCloses(s: string)
    requires !Splits(Normal, s) && Closes(s)
    ensures Run(Normal, s + "\n") == Normal && !Splits(Normal, s + "\n")
  {
    RunConcat(Normal, s, "\n");
    assert "\n"[1..] == [];
  }

  lemma SplitFirst(s: string, rest: string)
    requires !Splits(Normal, s) && Closes(s)
    ensures Raw(Normal, s + "\n" + (";" + rest)) == [s + "\n"] + Raw(Normal, rest)
  {
    hide Glue, Raw, Run, Splits;
    NewlineCloses(s);
    RawWhole(Normal, s + "\n");
    RawConcat(Normal, s + "\n", ";" + rest);
    RawSeparator(rest);
    GlueCut(s + "\n", Raw(Normal, rest));
  }

  /** Re-joining the statements of any script and splitting again changes nothing. */
  lemma SplitIsStable(s: string)
    ensures Statements(Join(Statements(s))) == Statements(s)
  {
    StatementsAreListed(s);
    SplitJoined(Statements(s));
  }
}
