/**
 Literal escaping. A rendered string literal never moves a statement boundary, whatever the string,
 and the lexer reads it back as the string it was made from.
 */
module Escaping {
  import opened Splitter
  import opened Wrappers

  /** Every `c` of `s` becomes `sub`. */
  function Replace(s: string, c: char, sub: string): string {
    if s == [] then [] else (if s[0] == c then sub else [s[0]]) + Replace(s[1..], c, sub)
  }

  /** Backslashes first, then quotes. */
  function EscapeLiteral(s: string): string {
    "\"" + Replace(Replace(s, '\\', "\\\\"), '"', "\\\"") + "\""
  }

  function EscapeSqlLiteral(s: string): string {
    "'" + Replace(Replace(s, '\\', "\\\\"), '\'', "''") + "'"
  }

  /** What the two replacements come to, character by character. */
  function EscapeChar(c: char, quote: char, sub: string): string {
    if c == '\\' then "\\\\" else if c == quote then sub else [c]
  }

  function EscapeChars(s: string, quote: char, sub: string): string {
    if s == [] then [] else EscapeChar(s[0], quote, sub) + EscapeChars(s[1..], quote, sub)
  }

  lemma {:induction false} ReplaceConcat(a: string, b: string, c: char, sub: string)
    ensures Replace(a + b, c, sub) == Replace(a, c, sub) + Replace(b, c, sub)
  {
    if a == [] {
      assert a + b == b;
    } else {
      assert (a + b)[1..] == a[1..] + b;
      ReplaceConcat(a[1..], b, c, sub);
    }
  }

  lemma ReplaceOne(d: char, c: char, sub: string)
    ensures Replace([d], c, sub) == if d == c then sub else [d]
  {
    assert [d][1..] == [];
  }

  /** Doubling backslashes first keeps the second pass from touching them. */
  lemma {:induction false} TwoPasses(s: string, quote: char, sub: string)
    requires quote != '\\'
    ensures Replace(Replace(s, '\\', "\\\\"), quote, sub) == EscapeChars(s, quote, sub)
  {
    if s != [] {
      TwoPasses(s[1..], quote, sub);
      var first := if s[0] == '\\' then "\\\\" else [s[0]];
      ReplaceConcat(first, Replace(s[1..], '\\', "\\\\"), quote, sub);
      ReplaceOne(s[0], quote, sub);
      ReplaceConcat("\\", "\\", quote, sub);
      ReplaceOne('\\', quote, sub);
      assert "\\" + "\\" == "\\\\";
    }
  }

  // ---------- the lexer's rule ----------

  const MAX_STRING_LITERAL := 16 * 1024 * 1024

  function HexDigit(c: char): (d: Option<nat>)
    ensures d.Some? ==> d.value < 16
  {
    if '0' <= c <= '9' then Some(c as nat - '0' as nat)
    else if 'a' <= c <= 'f' then Some(c as nat - 'a' as nat + 10)
    else if 'A' <= c <= 'F' then Some(c as nat - 'A' as nat + 10)
    else None
  }

  /** The number whose hexadecimal digits these are, put after `n`. */
  function HexNumber(digits: string, n: nat): Option<nat> {
    if digits == [] then Some(n)
    else match HexDigit(digits[0])
      case None => None
      case Some(d) => HexNumber(digits[1..], 16 * n + d)
  }

  /** The character four digits name. The integer parser allows a plus sign for the first. */
  function Scalar(digits: string): Option<char>
    requires |digits| == 4
  {
    match HexNumber(if digits[0] == '+' then digits[1..] else digits, 0)
    case None => None
    case Some(n) => if n < 0xD800 || 0xE000 <= n < 0x11_0000 then Some(n as char) else None
  }

  /** What the escape at the front stands for and how long it is; `None` when the lexer refuses it. */
  function Unescape(s: string, quotes: string): (r: Option<(char, nat)>)
    requires |s| >= 2
    ensures r.Some? ==> 2 <= r.value.1 <= |s|
  {
    if s[1] in quotes || s[1] == '\\' then Some((s[1], 2))
    else if s[1] == 'n' then Some(('\n', 2))
    else if s[1] == 't' then Some(('\t', 2))
    else if s[1] == 'r' then Some(('\r', 2))
    else if s[1] == '0' then Some(('\0', 2))
    else if s[1] == 'u' && |s| >= 6 then
      match Scalar(s[2..6])
      case None => None
      case Some(c) => Some((c, 6))
    else None
  }

  function Prefixed(c: char, r: Option<(string, string)>): Option<(string, string)> {
    match r
    case None => None
    case Some((text, rest)) => Some(([c] + text, rest))
  }

  /** Read a string after its opening quote: its text, and what follows the closing quote. */
  function ReadString(s: string): Option<(string, string)>
    decreases |s|
  {
    if s == [] then None
    else if s[0] == '"' then Some(([], s[1..]))
    else if s[0] == '\\' && |s| >= 2 then
      match Unescape(s, "\"")
      case None => None
      case Some((c, n)) => Prefixed(c, ReadString(s[n..]))
    else Prefixed(s[0], ReadString(s[1..]))
  }

  /** How many bytes a string takes in UTF-8. */
  function Utf8Size(s: string): nat {
    if s == [] then 0
    else (if s[0] < '\U{80}' then 1 else if s[0] < '\U{800}' then 2 else if s[0] < '\U{10000}' then 3 else 4) + Utf8Size(s[1..])
  }

  /** A string token: its text may not be too large. */
  function LexString(s: string): Option<(string, string)> {
    match ReadString(s)
    case None => None
    case Some((text, rest)) => if Utf8Size(text) > MAX_STRING_LITERAL then None else Some((text, rest))
  }

  /**
   The SQL lexer also reads a doubled quote as a quote. At the end of the input it takes a string for
   closed when the last character was a quote, doubled or escaped or not; `quoted` says it was.
   */
  function ReadSqlString(s: string, quoted: bool): Option<(string, string)>
    decreases |s|
  {
    if s == [] then if quoted then Some(([], [])) else None
    else if s[0] == '\'' then
      if |s| >= 2 && s[1] == '\'' then Prefixed('\'', ReadSqlString(s[2..], true)) else Some(([], s[1..]))
    else if s[0] == '\\' && |s| >= 2 then
      match Unescape(s, "'\"")
      case None => None
      case Some((c, n)) => Prefixed(c, ReadSqlString(s[n..], s[n - 1] == '\''))
    else Prefixed(s[0], ReadSqlString(s[1..], false))
  }

  /** The characters that may follow a backslash on their own, and what they stand for. */
  function Escapes(): map<char, char> {
    map['"' := '"', '\\' := '\\', 'n' := '\n', 't' := '\t', 'r' := '\r', '0' := '\0']
  }

  /** A backslash and one character read as the table says, and are refused when the table has no entry. */
  lemma EscapeTable(c: char)
    requires c != 'u'
    ensures ReadString(['\\', c, '"']) == if c in Escapes() then Some(([Escapes()[c]], [])) else None
    ensures ReadSqlString(['\\', c, '\''], true) ==
            if c == '\'' then Some((['\''], [])) else if c in Escapes() then Some(([Escapes()[c]], [])) else None
  {
    assert ['\\', c, '"'][2..] == ['"'] && ['"'][1..] == [];
    assert ['\\', c, '\''][2..] == ['\''] && ['\''][1..] == [];
    assert ReadString(['"']) == Some(([], [])) && ReadSqlString(['\''], c == '\'') == Some(([], []));
    assert ['\''] + [] == ['\''];
    if c in Escapes() {
      assert [Escapes()[c]] + [] == [Escapes()[c]];
    }
  }

  predicate FourHex(d: string) {
    |d| == 4 && forall i :: 0 <= i < 4 ==> HexDigit(d[i]).Some?
  }

  /** The number four hexadecimal digits name. */
  function Code(d: string): (n: nat)
    requires FourHex(d)
    ensures n < 0x1_0000
  {
    16 * (16 * (16 * HexDigit(d[0]).value + HexDigit(d[1]).value) + HexDigit(d[2]).value) + HexDigit(d[3]).value
  }

  lemma FourDigits(d: string)
    requires FourHex(d)
    ensures HexNumber(d, 0) == Some(Code(d))
  {
    hide HexDigit;
    var n1 := HexDigit(d[0]).value;
    var n2 := 16 * n1 + HexDigit(d[1]).value;
    var n3 := 16 * n2 + HexDigit(d[2]).value;
    assert d[1..][1..] == d[2..] && d[2..][1..] == d[3..] && d[3..][1..] == [];
    assert HexNumber(d[3..], n3) == Some(16 * n3 + HexDigit(d[3]).value);
    assert HexNumber(d[2..], n2) == HexNumber(d[3..], n3);
    assert HexNumber(d[1..], n1) == HexNumber(d[2..], n2);
  }

  lemma NamedScalar(d: string)
    requires FourHex(d)
    ensures Scalar(d) == if 0xD800 <= Code(d) < 0xE000 then None else Some(Code(d) as char)
  {
    FourDigits(d);
    hide HexNumber, Code;
    assert HexDigit(d[0]).Some? && d[0] != '+';
  }

  /** Four hexadecimal digits name a character; a surrogate is refused. */
  lemma HexEscapes(d: string)
    requires FourHex(d)
    ensures ReadString("\\u" + d + "\"") == if 0xD800 <= Code(d) < 0xE000 then None else Some(([Code(d) as char], []))
  {
    NamedScalar(d);
    hide Scalar, Code, FourHex;
    var s := "\\u" + d + "\"";
    assert s[2..6] == d && s[6..] == ['"'] && ['"'][1..] == [];
    assert ReadString(['"']) == Some(([], []));
    if Scalar(d).Some? {
      assert [Scalar(d).value] + [] == [Scalar(d).value];
    }
  }

  lemma {:induction false} ReadsBackFrom(s: string, rest: string)
    ensures ReadString(EscapeChars(s, '"', "\\\"") + ("\"" + rest)) == Some((s, rest))
  {
    var tail := "\"" + rest;
    if s == [] {
      assert EscapeChars(s, '"', "\\\"") + tail == tail;
      assert tail[1..] == rest;
    } else {
      ReadsBackFrom(s[1..], rest);
      var more := EscapeChars(s[1..], '"', "\\\"") + tail;
      var head := EscapeChar(s[0], '"', "\\\"");
      assert EscapeChars(s, '"', "\\\"") + tail == head + more;
      assert (head + more)[|head|..] == more;
      assert [s[0]] + s[1..] == s;
    }
  }

  /**
   The PowQL lexer reads an escaped literal back as the string it came from, and stops right after it,
   unless the string is over the lexer's limit: then it refuses it.
   */
  lemma LiteralReadsBack(s: string, rest: string)
    ensures EscapeLiteral(s)[0] == '"'
    ensures LexString((EscapeLiteral(s) + rest)[1..]) == if Utf8Size(s) <= MAX_STRING_LITERAL then Some((s, rest)) else None
  {
    TwoPasses(s, '"', "\\\"");
    ReadsBackFrom(s, rest);
    assert (EscapeLiteral(s) + rest)[1..] == EscapeChars(s, '"', "\\\"") + ("\"" + rest);
  }

  lemma {:induction false} SqlReadsBackFrom(s: string, rest: string, quoted: bool)
    ensures ReadSqlString(EscapeChars(s, '\'', "''") + ("'" + rest), quoted) == Some((s, rest)) <==>
            rest == [] || rest[0] != '\''
  {
    var tail := "'" + rest;
    if s == [] {
      assert EscapeChars(s, '\'', "''") + tail == tail;
      assert tail[1..] == rest;
      if rest != [] && rest[0] == '\'' {
        assert tail[1] == '\'';
      }
    } else {
      var next := s[0] == '\'';
      SqlReadsBackFrom(s[1..], rest, next);
      var more := EscapeChars(s[1..], '\'', "''") + tail;
      var head := EscapeChar(s[0], '\'', "''");
      assert EscapeChars(s, '\'', "''") + tail == head + more;
      assert (head + more)[|head|..] == more;
      SqlHead(s, head, more, rest, quoted, next);
    }
  }

  lemma SqlHead(s: string, head: string, more: string, rest: string, quoted: bool, next: bool)
    requires s != [] && head == EscapeChar(s[0], '\'', "''") && (head + more)[|head|..] == more
    requires next == (s[0] == '\'') && more != []
    ensures ReadSqlString(head + more, quoted) == Prefixed(s[0], ReadSqlString(more, next))
    ensures Prefixed(s[0], ReadSqlString(more, next)) == Some((s, rest)) <==> ReadSqlString(more, next) == Some((s[1..], rest))
  {
    assert [s[0]] + s[1..] == s;
    match ReadSqlString(more, next) {
      case None =>
      case Some((text, after)) =>
        assert ([s[0]] + text)[1..] == text;
    }
  }

  /** The SQL lexer reads a literal back if and only if no quote follows it directly. */
  lemma SqlLiteralReadsBack(s: string, rest: string)
    ensures EscapeSqlLiteral(s)[0] == '\''
    ensures ReadSqlString((EscapeSqlLiteral(s) + rest)[1..], true) == Some((s, rest)) <==> rest == [] || rest[0] != '\''
  {
    TwoPasses(s, '\'', "''");
    SqlReadsBackFrom(s, rest, true);
    assert (EscapeSqlLiteral(s) + rest)[1..] == EscapeChars(s, '\'', "''") + ("'" + rest);
  }

  // ---------- literals inside scripts ----------

  lemma EscapeCharStaysInString(c: char)
    ensures var e := EscapeChar(c, '"', "\\\""); Run(InString, e) == InString && !Splits(InString, e)
  {
    var e := EscapeChar(c, '"', "\\\"");
    if |e| == 1 {
      assert e[1..] == [];
    } else {
      assert e[1..] == [e[1]] && e[1..][1..] == [];
      assert Run(Escaped, e[1..]) == InString && !Splits(Escaped, e[1..]);
    }
  }

  lemma {:induction false} EscapedStaysInString(s: string)
    ensures Run(InString, EscapeChars(s, '"', "\\\"")) == InString && !Splits(InString, EscapeChars(s, '"', "\\\""))
  {
    if s != [] {
      EscapedStaysInString(s[1..]);
      var head := EscapeChar(s[0], '"', "\\\"");
      RunConcat(InString, head, EscapeChars(s[1..], '"', "\\\""));
      EscapeCharStaysInString(s[0]);
    }
  }

  /** A literal begins and ends outside strings and holds no separator. */
  lemma LiteralIsClosed(s: string)
    ensures Run(Normal, EscapeLiteral(s)) == Normal && !Splits(Normal, EscapeLiteral(s))
  {
    TwoPasses(s, '"', "\\\"");
    EscapedStaysInString(s);
    var body := EscapeChars(s, '"', "\\\"");
    assert EscapeLiteral(s) == "\"" + body + "\"";
    assert "\""[1..] == [];
    RunConcat(Normal, "\"" + body, "\"");
    RunConcat(Normal, "\"", body);
  }

  /**
   Inserting a literal where the script is outside strings and comments grows one segment by that
   literal and leaves every other segment as it was.
   */
  lemma InsertionGrowsOneSegment(before: string, s: string, after: string)
    requires Run(Normal, before) == Normal
    ensures var whole, plain := Raw(Normal, before + EscapeLiteral(s) + after), Raw(Normal, before + after);
            var x, y := Raw(Normal, before), Raw(Normal, after);
            var k := |x| - 1;
            && |whole| == |plain| && k < |plain|
            && plain[k] == x[k] + y[0]
            && whole == plain[k := x[k] + EscapeLiteral(s) + y[0]]
  {
    hide Raw, Run, Splits, EscapeLiteral;
    var lit := EscapeLiteral(s);
    LiteralIsClosed(s);
    RawWhole(Normal, lit);
    RawConcat(Normal, before, after);
    RawConcat(Normal, before, lit);
    RunConcat(Normal, before, lit);
    RawConcat(Normal, before + lit, after);
    var x, y := Raw(Normal, before), Raw(Normal, after);
    assert Glue(x, [lit]) == x[..|x| - 1] + [x[|x| - 1] + lit];
  }

  /** Putting in a text that is not blank adds a statement exactly when the old one was blank. */
  lemma {:induction false} CleanUpdated(rs: seq<string>, k: nat, t: string)
    requires k < |rs| && Trim(t) != []
    ensures |Clean(rs[k := t])| == |Clean(rs)| + if Trim(rs[k]) == [] then 1 else 0
  {
    hide Trim;
    assert rs == [rs[0]] + rs[1..];
    CleanHead(rs[0], rs[1..]);
    if k == 0 {
      assert rs[k := t] == [t] + rs[1..];
      CleanHead(t, rs[1..]);
    } else {
      CleanUpdated(rs[1..], k - 1, t);
      assert rs[k := t] == [rs[0]] + rs[1..][k - 1 := t];
      CleanHead(rs[0], rs[1..][k - 1 := t]);
    }
  }

  lemma TrimmedAway(s: string)
    requires Trim(s) == []
    ensures Blank(s)
  {
    var lead, trail := TrimSplits(s);
    assert s == lead + trail;
  }

  /** A text with a literal in it is not blank. */
  lemma LiteralIsNotBlank(u: string, s: string, v: string)
    ensures Trim(u + EscapeLiteral(s) + v) != []
  {
    var all := u + EscapeLiteral(s) + v;
    assert all[|u|] == '"' && !Space(all[|u|]);
    if Trim(all) == [] {
      TrimmedAway(all);
    }
  }

  /**
   Inserting a literal never changes the statement count by what the string is: it is the count
   without the literal, plus one exactly when the literal lands in a segment that was blank.
   */
  lemma InsertionKeepsCount(before: string, s: string, after: string)
    requires Run(Normal, before) == Normal
    ensures var x, y := Raw(Normal, before), Raw(Normal, after);
            |Statements(before + EscapeLiteral(s) + after)| ==
            |Statements(before + after)| + if Trim(x[|x| - 1] + y[0]) == [] then 1 else 0
  {
    hide Raw, Run, Splits, EscapeLiteral, Trim;
    InsertionGrowsOneSegment(before, s, after);
    var x, y := Raw(Normal, before), Raw(Normal, after);
    var k := |x| - 1;
    LiteralIsNotBlank(x[k], s, y[0]);
    CleanUpdated(Raw(Normal, before + after), k, x[k] + EscapeLiteral(s) + y[0]);
  }

  /** So two scripts that differ only in the string have the same number of statements. */
  lemma CountIgnoresTheString(before: string, s: string, t: string, after: string)
    requires Run(Normal, before) == Normal
    ensures |Statements(before + EscapeLiteral(s) + after)| == |Statements(before + EscapeLiteral(t) + after)|
  {
    hide Raw, Run, Splits, EscapeLiteral, Trim;
    InsertionKeepsCount(before, s, after);
    InsertionKeepsCount(before, t, after);
  }
}
