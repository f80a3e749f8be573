/** The string methods of Python that the mailing list relies on. */
module PyText {
  import opened Prelude
  import opened Utf8

  const NEWLINE: CodePoint := 0x0A
  const RETURN: CodePoint := 0x0D

  /** pattern occurs in s at index i. */
  predicate At(s: Text, pattern: Text, i: int) {
    0 <= i && i + |pattern| <= |s| && s[i..i + |pattern|] == pattern
  }

  /** `s.find(pattern, i)`. */
  function Find(s: Text, pattern: Text, i: nat): (k: Option<nat>)
    ensures k.Some? ==> i <= k.value && At(s, pattern, k.value) && forall j :: i <= j < k.value ==> !At(s, pattern, j)
    ensures k.None? ==> forall j :: i <= j ==> !At(s, pattern, j)
    decreases |s| - i
  {
    if i + |pattern| > |s| then None
    else if At(s, pattern, i) then Some(i)
    else if i == |s| then None
    else Find(s, pattern, i + 1)
  }

  /** `s.rfind(pattern)` among the indices below n. */
  function FindLast(s: Text, pattern: Text, n: nat): (k: Option<nat>)
    ensures k.Some? ==> k.value < n && At(s, pattern, k.value) && forall j :: k.value < j < n ==> !At(s, pattern, j)
    ensures k.None? ==> forall j :: 0 <= j < n ==> !At(s, pattern, j)
  {
    if n == 0 then None else if At(s, pattern, n - 1) then Some(n - 1) else FindLast(s, pattern, n - 1)
  }

  function RFind(s: Text, pattern: Text): (k: Option<nat>)
    ensures k.Some? ==> At(s, pattern, k.value) && forall j :: k.value < j ==> !At(s, pattern, j)
    ensures k.None? ==> forall j :: !At(s, pattern, j)
  {
    FindLast(s, pattern, |s| + 1)
  }

  lemma FindIs(s: Text, pattern: Text, k: nat)
    requires At(s, pattern, k) && forall j :: 0 <= j < k ==> !At(s, pattern, j)
    ensures Find(s, pattern, 0) == Some(k)
  {
  }

  lemma RFindIs(s: Text, pattern: Text, k: nat)
    requires At(s, pattern, k) && forall j :: k < j ==> !At(s, pattern, j)
    ensures RFind(s, pattern) == Some(k)
  {
  }

  /** `s.rstrip("\n")`. */
  function StripNewlines(s: Text): (r: Text)
    ensures r <= s && (r == [] || r[|r| - 1] != NEWLINE)
  {
    if s != [] && s[|s| - 1] == NEWLINE then StripNewlines(s[..|s| - 1]) else s
  }

  // splitlines

  /** The characters that `str.splitlines` breaks at besides the newline and the carriage return. */
  predicate IsOtherSeparator(c: CodePoint) {
    c == 0x0B || c == 0x0C || 0x1C <= c <= 0x1E || c == 0x85 || c == 0x2028 || c == 0x2029
  }

  predicate IsSeparator(c: CodePoint) {
    c == NEWLINE || c == RETURN || IsOtherSeparator(c)
  }

  /** A text that `splitlines` never breaks. */
  predicate Plain(s: Text) {
    forall i :: 0 <= i < |s| ==> !IsSeparator(s[i])
  }

  function FirstSeparator(s: Text): (n: nat)
    ensures n <= |s| && Plain(s[..n]) && (n < |s| ==> IsSeparator(s[n]))
  {
    if s == [] || IsSeparator(s[0]) then 0
    else
      var k := FirstSeparator(s[1..]);
      assert s[..k + 1] == [s[0]] + s[1..][..k];
      k + 1
  }

  function SplitLines(s: Text): (lines: seq<Text>)
    ensures forall i :: 0 <= i < |lines| ==> Plain(lines[i])
    decreases |s|
  {
    if s == [] then []
    else
      var n := FirstSeparator(s);
      if n == |s| then
        assert s[..n] == s;
        [s]
      else
        var width := if s[n] == RETURN && n + 1 < |s| && s[n + 1] == NEWLINE then 2 else 1;
        [s[..n]] + SplitLines(s[n + width..])
  }

  /** `"\n".join(lines)`. */
  function JoinLines(lines: seq<Text>): Text {
    if lines == [] then []
    else if |lines| == 1 then lines[0]
    else lines[0] + [NEWLINE] + JoinLines(lines[1..])
  }

  predicate PlainLines(lines: seq<Text>) {
    forall i :: 0 <= i < |lines| ==> Plain(lines[i]) && lines[i] != []
  }

  lemma {:induction false} FirstSeparatorIs(s: Text, n: nat)
    requires n <= |s| && Plain(s[..n]) && (n < |s| ==> IsSeparator(s[n]))
    ensures FirstSeparator(s) == n
  {
    if n > 0 {
      assert s[..n][0] == s[0];
      assert s[1..][..n - 1] == s[..n][1..];
      FirstSeparatorIs(s[1..], n - 1);
    }
  }

  lemma SplitFirst(line: Text, rest: Text)
    requires Plain(line)
    ensures SplitLines(line + [NEWLINE] + rest) == [line] + SplitLines(rest)
  {
    hide FirstSeparator, Plain;
    var s := line + [NEWLINE] + rest;
    assert s[..|line|] == line && s[|line|] == NEWLINE;
    FirstSeparatorIs(s, |line|);
    assert s[|line| + 1..] == rest;
  }

  lemma SplitOne(line: Text)
    requires Plain(line) && line != []
    ensures SplitLines(line) == [line]
  {
    hide FirstSeparator, Plain;
    assert line[..|line|] == line;
    FirstSeparatorIs(line, |line|);
  }

  /** Splitting undoes joining when no line holds a separator of its own. */
  lemma {:induction false} SplitOfJoin(lines: seq<Text>)
    requires PlainLines(lines)
    ensures SplitLines(JoinLines(lines)) == lines
  {
    hide SplitLines, Plain;
    if lines == [] {
      assert SplitLines([]) == [] by { SplitNothing(); }
    } else if |lines| == 1 {
      SplitOne(lines[0]);
      assert lines == [lines[0]];
    } else {
      SplitOfJoin(lines[1..]);
      SplitFirst(lines[0], JoinLines(lines[1..]));
      assert lines == [lines[0]] + lines[1..];
    }
  }

  lemma SplitAtSeparator(line: Text, c: CodePoint, rest: Text)
    requires Plain(line) && IsOtherSeparator(c)
    ensures SplitLines(line + [c] + rest) == [line] + SplitLines(rest)
  {
    hide FirstSeparator, Plain;
    var s := line + [c] + rest;
    assert s[..|line|] == line && s[|line|] == c;
    FirstSeparatorIs(s, |line|);
    assert s[|line| + 1..] == rest;
  }

  /** A separator in the last line ends it there: what follows is split on its own. */
  lemma {:induction false} SplitOfContinued(lines: seq<Text>, c: CodePoint, rest: Text)
    requires lines != [] && PlainLines(lines) && IsOtherSeparator(c)
    ensures SplitLines(JoinLines(lines) + [c] + rest) == lines + SplitLines(rest)
  {
    hide SplitLines, Plain;
    if |lines| == 1 {
      SplitAtSeparator(lines[0], c, rest);
      assert lines == [lines[0]];
    } else {
      var more := JoinLines(lines[1..]);
      SplitOfContinued(lines[1..], c, rest);
      SplitFirst(lines[0], more + [c] + rest);
      assert lines[0] + [NEWLINE] + more + [c] + rest == lines[0] + [NEWLINE] + (more + [c] + rest);
      assert lines + SplitLines(rest) == [lines[0]] + (lines[1..] + SplitLines(rest));
    }
  }

  lemma {:induction false} JoinLastGrows(lines: seq<Text>, last: Text, more: Text)
    ensures JoinLines(lines + [last + more]) == JoinLines(lines + [last]) + more
  {
    if lines == [] {
      assert [last + more] == lines + [last + more] && [last] == lines + [last];
    } else {
      assert (lines + [last])[1..] == lines[1..] + [last];
      assert (lines + [last + more])[1..] == lines[1..] + [last + more];
      JoinLastGrows(lines[1..], last, more);
      var (rest, longer) := (JoinLines(lines[1..] + [last]), JoinLines(lines[1..] + [last + more]));
      assert lines[0] + [NEWLINE] + longer == lines[0] + [NEWLINE] + rest + more;
    }
  }

  lemma SplitNothing()
    ensures SplitLines([]) == []
  {
  }

  /** No line of a joined text is empty, so it holds no blank line and does not end in one. */
  lemma {:induction false} JoinHasNoBlankLine(lines: seq<Text>, i: nat)
    requires lines != [] && forall k :: 0 <= k < |lines| ==> lines[k] != [] && NEWLINE !in lines[k]
    requires i < |JoinLines(lines)|
    ensures JoinLines(lines)[0] == lines[0][0]
    ensures JoinLines(lines)[i] == NEWLINE ==> i > 0 && i + 1 < |JoinLines(lines)| && JoinLines(lines)[i + 1] != NEWLINE
    decreases |lines|
  {
    if |lines| > 1 {
      var line, rest := lines[0], JoinLines(lines[1..]);
      var s := line + [NEWLINE] + rest;
      assert s == JoinLines(lines);
      JoinIsLong(lines[1..]);
      JoinHasNoBlankLine(lines[1..], 0);
      if i > |line| {
        assert s[i] == rest[i - |line| - 1];
        JoinHasNoBlankLine(lines[1..], i - |line| - 1);
        if i + 1 < |s| { assert s[i + 1] == rest[i - |line|]; }
      } else if i == |line| {
        assert s[i + 1] == rest[0];
        assert lines[1..][0][0] in lines[1..][0];
      } else {
        assert s[i] in line;
      }
    } else {
      assert JoinLines(lines)[i] in lines[0];
    }
  }

  lemma JoinIsLong(lines: seq<Text>)
    requires lines != [] && lines[0] != []
    ensures JoinLines(lines) != []
  {
  }

  // urllib.parse.quote

  /** Letters, digits and `_ . - ~`. */
  predicate IsUnreserved(b: Byte) {
    0x61 <= b <= 0x7A || 0x41 <= b <= 0x5A || 0x30 <= b <= 0x39 || b == 0x5F || b == 0x2E || b == 0x2D || b == 0x7E
  }

  function UpperHex(n: nat): CodePoint
    requires n < 16
  {
    if n < 10 then 0x30 + n else 0x41 + (n - 10)
  }

  function QuoteByte(b: Byte): Text {
    if IsUnreserved(b) then [b] else [0x25, UpperHex(b / 16), UpperHex(b % 16)]
  }

  function QuoteBytes(bytes: Bytes): Text {
    if bytes == [] then [] else QuoteByte(bytes[0]) + QuoteBytes(bytes[1..])
  }

  /** `quote(t, safe="-._~")` of a text that has a UTF-8 form. */
  function UrlQuote(t: Text): Text {
    QuoteBytes(Concat(t))
  }

  lemma QuoteByteDecides(b: Byte, x: Text, c: Byte, y: Text)
    requires QuoteByte(b) + x == QuoteByte(c) + y
    ensures b == c && x == y
  {
    var p, q := QuoteByte(b) + x, QuoteByte(c) + y;
    assert p[0] == QuoteByte(b)[0] && q[0] == QuoteByte(c)[0];
    if !IsUnreserved(b) && !IsUnreserved(c) {
      assert p[1] == QuoteByte(b)[1] && p[2] == QuoteByte(b)[2];
      assert q[1] == QuoteByte(c)[1] && q[2] == QuoteByte(c)[2];
      UpperHexInjective(b / 16, c / 16);
      UpperHexInjective(b % 16, c % 16);
      assert b == b / 16 * 16 + b % 16 && c == c / 16 * 16 + c % 16;
    }
    assert x == p[|QuoteByte(b)|..] && y == q[|QuoteByte(c)|..];
  }

  lemma UpperHexInjective(m: nat, n: nat)
    requires m < 16 && n < 16 && UpperHex(m) == UpperHex(n)
    ensures m == n
  {
  }

  lemma {:induction false} QuoteBytesInjective(a: Bytes, b: Bytes)
    requires QuoteBytes(a) == QuoteBytes(b)
    ensures a == b
  {
    if a != [] && b != [] {
      QuoteByteDecides(a[0], QuoteBytes(a[1..]), b[0], QuoteBytes(b[1..]));
      QuoteBytesInjective(a[1..], b[1..]);
      assert a == [a[0]] + a[1..] && b == [b[0]] + b[1..];
    }
  }

  /** Different texts have different quotations. */
  lemma UrlQuoteInjective(s: Text, t: Text)
    requires ScalarText(s) && ScalarText(t) && UrlQuote(s) == UrlQuote(t)
    ensures s == t
  {
    QuoteBytesInjective(Concat(s), Concat(t));
    DecodeConcat(s);
    DecodeConcat(t);
  }

  lemma {:induction false} QuoteIsPlain(bytes: Bytes)
    ensures Plain(QuoteBytes(bytes))
  {
    if bytes != [] { QuoteIsPlain(bytes[1..]); }
  }

  lemma UrlQuoteIsPlain(t: Text)
    ensures Plain(UrlQuote(t))
  {
    QuoteIsPlain(Concat(t));
  }

  // Cutting a text at a separator that one side cannot hold

  lemma PartHolding(a: Text, c: CodePoint, x: Text, i: nat)
    requires i <= |a| + |x|
    ensures (a + [c] + x)[i] == c ==> i == |a| || (i < |a| && c in a) || (|a| < i && c in x)
  {
  }

  lemma CutAtFirst(a: Text, x: Text, b: Text, y: Text, c: CodePoint)
    requires a + [c] + x == b + [c] + y && c !in a && c !in b
    ensures a == b && x == y
  {
    var s, t := a + [c] + x, b + [c] + y;
    assert |s| == |t| && s[|a|] == c && t[|b|] == c;
    PartHolding(a, c, x, |b|);
    PartHolding(b, c, y, |a|);
    assert s[..|a|] == a && t[..|b|] == b && s[|a| + 1..] == x && t[|b| + 1..] == y;
  }

  lemma CutAtLast(a: Text, x: Text, b: Text, y: Text, c: CodePoint)
    requires a + [c] + x == b + [c] + y && c !in x && c !in y
    ensures a == b && x == y
  {
    var s, t := a + [c] + x, b + [c] + y;
    assert |s| == |t| && s[|a|] == c && t[|b|] == c;
    PartHolding(a, c, x, |b|);
    PartHolding(b, c, y, |a|);
    assert s[..|a|] == a && t[..|b|] == b && s[|a| + 1..] == x && t[|b| + 1..] == y;
  }
}
