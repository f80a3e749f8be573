/** The grammar of RFC 8259 sections 2 to 7 as concrete syntax, and that the reader accepts exactly what it writes. */
module JsonGrammar {
  import opened Prelude
  import opened Utf8
  import opened JsonNumber
  import opened Json
  import opened JsonReader
  import opened JsonRender

  // Space (section 2)

  predicate Spaces(w: Text) {
    forall i :: 0 <= i < |w| ==> w[i] in {0x20, 0x09, 0x0A, 0x0D}
  }

  lemma {:induction false} SpacesSkipped(w: Text, rest: Text)
    requires Spaces(w) && (rest == [] || rest[0] !in {0x20, 0x09, 0x0A, 0x0D})
    ensures SkipSpace(w + rest) == rest
  {
    if w == [] {
      assert w + rest == rest;
    } else {
      assert (w + rest)[1..] == w[1..] + rest;
      SpacesSkipped(w[1..], rest);
    }
  }

  lemma {:induction false} SkippedAreSpaces(s: Text) returns (w: Text)
    ensures Spaces(w) && s == w + SkipSpace(s)
    ensures SkipSpace(s) != [] ==> SkipSpace(s)[0] !in {0x20, 0x09, 0x0A, 0x0D}
  {
    if s != [] && IsSpace(s[0]) {
      var more := SkippedAreSpaces(s[1..]);
      w := [s[0]] + more;
    } else {
      w := [];
    }
  }

  // Strings (section 7)

  /** ch is the hexadecimal digit d, in either case. */
  predicate HexIs(ch: CodePoint, d: nat) {
    d < 16 && (if d < 10 then ch == 0x30 + d else ch == 0x61 + (d - 10) || ch == 0x41 + (d - 10))
  }

  /** Four hexadecimal digits that spell n. */
  predicate Quad(q: Text, n: nat) {
    && |q| == 4 && n < 0x10000
    && HexIs(q[0], n / 0x1000) && HexIs(q[1], n / 0x100 % 16) && HexIs(q[2], n / 16 % 16) && HexIs(q[3], n % 16)
  }

  /** The two-character escapes. */
  predicate Short(e: CodePoint, c: CodePoint) {
    || (e == 0x22 && c == 0x22) || (e == 0x5C && c == 0x5C) || (e == 0x2F && c == 0x2F) || (e == 0x62 && c == 0x08)
    || (e == 0x66 && c == 0x0C) || (e == 0x6E && c == 0x0A) || (e == 0x72 && c == 0x0D) || (e == 0x74 && c == 0x09)
  }

  const UNIT: Text := [0x5C, 0x75]

  /** t spells the character c inside a string: itself, a short escape, one escaped unit, or two escaped surrogates. */
  predicate Spells(t: Text, c: CodePoint) {
    || (t == [c] && c >= 0x20 && c != 0x22 && c != 0x5C)
    || (|t| == 2 && t[0] == 0x5C && Short(t[1], c))
    || (|t| == 6 && t[..2] == UNIT && Quad(t[2..], c))
    || (|t| == 12 && c >= 0x10000 && t[..2] == UNIT && Quad(t[2..6], 0xD800 + (c - 0x10000) / 0x400)
        && t[6..8] == UNIT && Quad(t[8..], 0xDC00 + (c - 0x10000) % 0x400))
  }

  datatype Piece = Piece(t: Text, c: CodePoint)

  /** Two escaped units that would be read as one character. */
  predicate Fuse(p: Piece, q: Piece) {
    |p.t| == 6 && 0xD800 <= p.c < 0xDC00 && |q.t| == 6 && 0xDC00 <= q.c < 0xE000
  }

  predicate WellSpelled(pieces: seq<Piece>) {
    && (forall i :: 0 <= i < |pieces| ==> Spells(pieces[i].t, pieces[i].c))
    && forall i :: 0 <= i < |pieces| - 1 ==> !Fuse(pieces[i], pieces[i + 1])
  }

  function Spelling(pieces: seq<Piece>): Text {
    if pieces == [] then [] else pieces[0].t + Spelling(pieces[1..])
  }

  function Characters(pieces: seq<Piece>): (t: Text)
    ensures |t| == |pieces| && forall i :: 0 <= i < |pieces| ==> t[i] == pieces[i].c
  {
    seq(|pieces|, i requires 0 <= i < |pieces| => pieces[i].c)
  }

  lemma HexIsValue(ch: CodePoint, d: nat)
    ensures d < 16 ==> (HexIs(ch, d) <==> HexValue(ch) == Some(d))
    ensures HexValue(ch).Some? ==> HexValue(ch).value < 16
  {
  }

  lemma QuadReads(q: Text, n: nat, rest: Text)
    requires Quad(q, n)
    ensures HexQuad(q + rest) == Some(n)
  {
    hide HexIs, HexValue;
    var s := q + rest;
    assert s[0] == q[0] && s[1] == q[1] && s[2] == q[2] && s[3] == q[3];
    HexIsValue(q[0], n / 0x1000);
    HexIsValue(q[1], n / 0x100 % 16);
    HexIsValue(q[2], n / 16 % 16);
    HexIsValue(q[3], n % 16);
    NibblesSum(n);
  }

  lemma NibblesSum(n: nat)
    requires n < 0x10000
    ensures n / 0x1000 < 16
    ensures n == n / 0x1000 * 0x1000 + n / 0x100 % 16 * 0x100 + n / 16 % 16 * 0x10 + n % 16
  {
    assert n / 16 / 16 == n / 0x100 && n / 0x100 / 16 == n / 0x1000;
    assert n == n / 16 * 16 + n % 16 && n / 16 == n / 0x100 * 16 + n / 16 % 16;
    assert n / 0x100 == n / 0x1000 * 16 + n / 0x100 % 16;
  }

  lemma QuadRead(s: Text)
    requires HexQuad(s).Some?
    ensures |s| >= 4 && Quad(s[..4], HexQuad(s).value)
  {
    hide HexIs, HexValue;
    var n := HexQuad(s).value;
    var (a, b, c, d) := (HexValue(s[0]).value, HexValue(s[1]).value, HexValue(s[2]).value, HexValue(s[3]).value);
    HexIsValue(s[0], a);
    HexIsValue(s[1], b);
    HexIsValue(s[2], c);
    HexIsValue(s[3], d);
    assert n / 0x1000 == a && n / 0x100 % 16 == b && n / 16 % 16 == c && n % 16 == d by { Nibbles(a, b, c, d); }
  }

  lemma Nibbles(a: nat, b: nat, c: nat, d: nat)
    requires a < 16 && b < 16 && c < 16 && d < 16
    ensures var n := a * 0x1000 + b * 0x100 + c * 0x10 + d;
            n / 0x1000 == a && n / 0x100 % 16 == b && n / 16 % 16 == c && n % 16 == d
  {
    var n := a * 0x1000 + b * 0x100 + c * 0x10 + d;
    assert n / 0x100 == a * 16 + b;
    assert n / 16 == (a * 16 + b) * 16 + c;
  }

  lemma SurrogatesSpell(c: CodePoint)
    requires c >= 0x10000
    ensures var (high, low) := (0xD800 + (c - 0x10000) / 0x400, 0xDC00 + (c - 0x10000) % 0x400);
            && 0xD800 <= high < 0xDC00 && 0xDC00 <= low < 0xE000
            && 0x10000 + (high - 0xD800) * 0x400 + (low - 0xDC00) == c
  {
  }

  lemma SurrogatesSpelled(high: nat, low: nat)
    requires 0xD800 <= high < 0xDC00 && 0xDC00 <= low < 0xE000
    ensures var c := 0x10000 + (high - 0xD800) * 0x400 + (low - 0xDC00);
            && 0x10000 <= c < 0x110000
            && 0xD800 + (c - 0x10000) / 0x400 == high && 0xDC00 + (c - 0x10000) % 0x400 == low
  {
  }

  /** The first unit of a piece, where it is escaped in units. */
  lemma UnitsOf(p: Piece)
    requires Spells(p.t, p.c) && |p.t| > 2
    ensures |p.t| == 6 || |p.t| == 12
    ensures p.t[0] == 0x5C && p.t[1] == 0x75
    ensures |p.t| == 6 ==> Quad(p.t[2..], p.c)
    ensures |p.t| == 12 ==> Quad(p.t[2..6], 0xD800 + (p.c - 0x10000) / 0x400) && p.t[6] == 0x5C && p.t[7] == 0x75
                            && Quad(p.t[8..], 0xDC00 + (p.c - 0x10000) % 0x400) && p.c >= 0x10000
  {
    assert p.t[0] == p.t[..2][0] && p.t[1] == p.t[..2][1];
    if |p.t| == 12 { assert p.t[6] == p.t[6..8][0] && p.t[7] == p.t[6..8][1]; }
  }

  /** What stands behind a lone high surrogate: the closing quote, or a piece that is not its low one. */
  predicate NoLowUnit(rest: Text) {
    rest != []
    && (|rest| >= 2 && rest[0] == 0x5C && rest[1] == 0x75 ==>
          HexQuad(rest[2..]).Some? && !(0xDC00 <= HexQuad(rest[2..]).value < 0xE000))
  }

  lemma ScanOneUnit(p: Piece, rest: Text)
    requires |p.t| == 6 && Spells(p.t, p.c) && rest != []
    requires 0xD800 <= p.c < 0xDC00 ==> NoLowUnit(rest)
    ensures ScanEscape(p.t[1..] + rest) == Done(p.c, rest)
  {
    hide HexQuad, Quad, Short;
    UnitsOf(p);
    var s := p.t[1..] + rest;
    assert s[1..] == p.t[2..] + rest;
    QuadReads(p.t[2..], p.c, rest);
    assert s[5..] == rest;
    assert |rest| >= 2 ==> s[5] == rest[0] && s[6] == rest[1] && s[7..] == rest[2..];
  }

  lemma ScanTwoUnits(p: Piece, rest: Text)
    requires |p.t| == 12 && Spells(p.t, p.c)
    ensures ScanEscape(p.t[1..] + rest) == Done(p.c, rest)
  {
    hide HexQuad, Quad, Short;
    UnitsOf(p);
    SurrogatesSpell(p.c);
    var s := p.t[1..] + rest;
    assert s[1..] == p.t[2..6] + (p.t[6..] + rest);
    QuadReads(p.t[2..6], 0xD800 + (p.c - 0x10000) / 0x400, p.t[6..] + rest);
    assert s[5] == p.t[6] && s[6] == p.t[7] && s[7..] == p.t[8..] + rest;
    QuadReads(p.t[8..], 0xDC00 + (p.c - 0x10000) % 0x400, rest);
    assert s[11..] == rest;
  }

  lemma ScanShort(p: Piece, rest: Text)
    requires |p.t| == 2 && Spells(p.t, p.c)
    ensures p.t[0] == 0x5C && ScanEscape(p.t[1..] + rest) == Done(p.c, rest)
  {
    assert (p.t[1..] + rest)[1..] == rest;
  }

  /** One piece at the head of the rest of a string. */
  lemma ScanPiece(p: Piece, rest: Text)
    requires Spells(p.t, p.c) && rest != [] && (|p.t| == 6 && 0xD800 <= p.c < 0xDC00 ==> NoLowUnit(rest))
    ensures ScanString(p.t + rest) == match ScanString(rest)
                                      case Fail(e) => Fail(e)
                                      case Done(tail, after) => Done([p.c] + tail, after)
  {
    hide ScanEscape, NoLowUnit, Short, Quad, HexIs;
    var s := p.t + rest;
    assert s[0] == p.t[0] && s[1..] == p.t[1..] + rest;
    if |p.t| == 1 {
      assert s[1..] == rest;
    } else if |p.t| == 2 {
      ScanShort(p, rest);
    } else {
      UnitsOf(p);
      if |p.t| == 6 { ScanOneUnit(p, rest); } else { ScanTwoUnits(p, rest); }
    }
  }

  /** Behind a lone high surrogate the next piece, or the quote, is no low unit. */
  lemma NextIsNoLowUnit(pieces: seq<Piece>, rest: Text)
    requires WellSpelled(pieces) && pieces != [] && |pieces[0].t| == 6 && 0xD800 <= pieces[0].c < 0xDC00
    ensures NoLowUnit(Spelling(pieces[1..]) + [0x22] + rest)
  {
    hide Quad, HexQuad, Short;
    var more := Spelling(pieces[1..]) + [0x22] + rest;
    if |pieces| > 1 {
      var q := pieces[1];
      var behind := Spelling(pieces[1..][1..]) + [0x22] + rest;
      assert more == q.t + behind;
      assert !Fuse(pieces[0], q) && Spells(q.t, q.c);
      assert more[0] == q.t[0];
      if |q.t| == 6 {
        UnitsOf(q);
        QuadReads(q.t[2..], q.c, behind);
        assert more[2..] == q.t[2..] + behind;
      } else if |q.t| == 12 {
        UnitsOf(q);
        SurrogatesSpell(q.c);
        QuadReads(q.t[2..6], 0xD800 + (q.c - 0x10000) / 0x400, q.t[6..] + behind);
        assert more[2..] == q.t[2..6] + (q.t[6..] + behind);
      } else if |q.t| == 2 {
        assert more[1] == q.t[1] != 0x75 by { ShortIsNoUnit(q); }
      }
    }
  }

  lemma ShortIsNoUnit(q: Piece)
    requires Spells(q.t, q.c) && |q.t| == 2
    ensures q.t[1] != 0x75
  {
  }

  lemma WellSpelledTail(pieces: seq<Piece>)
    requires WellSpelled(pieces) && pieces != []
    ensures WellSpelled(pieces[1..]) && Characters(pieces) == [pieces[0].c] + Characters(pieces[1..])
  {
    hide Spells, Fuse;
    var tail := pieces[1..];
    forall i | 0 <= i < |tail| ensures Spells(tail[i].t, tail[i].c) { assert tail[i] == pieces[i + 1]; }
    forall i | 0 <= i < |tail| - 1 ensures !Fuse(tail[i], tail[i + 1]) { assert !Fuse(pieces[i + 1], pieces[i + 2]); }
  }

  /** Every spelling of a string reads as its characters: plain, with short escapes, with escaped units in either case of
      their digits, with pairs above U+FFFF, and with lone surrogates. */
  lemma {:induction false} SpellingReads(pieces: seq<Piece>, rest: Text)
    requires WellSpelled(pieces)
    ensures ScanString(Spelling(pieces) + [0x22] + rest) == Done(Characters(pieces), rest)
  {
    hide WellSpelled, ScanEscape, NoLowUnit;
    if pieces == [] {
      assert ([0x22] + rest)[1..] == rest;
      assert Spelling(pieces) + [0x22] + rest == [0x22] + rest;
    } else {
      var p := pieces[0];
      var more := Spelling(pieces[1..]) + [0x22] + rest;
      WellSpelledTail(pieces);
      SpellingReads(pieces[1..], rest);
      if |p.t| == 6 && 0xD800 <= p.c < 0xDC00 { NextIsNoLowUnit(pieces, rest); }
      assert Spells(p.t, p.c) by { FirstSpells(pieces); }
      ScanPiece(p, more);
      assert Spelling(pieces) + [0x22] + rest == p.t + more;
    }
  }

  lemma FirstSpells(pieces: seq<Piece>)
    requires WellSpelled(pieces) && pieces != []
    ensures Spells(pieces[0].t, pieces[0].c)
  {
  }

  /** The piece that one escape was read from. */
  lemma EscapeIsSpelled(s: Text) returns (p: Piece)
    requires ScanEscape(s).Done?
    ensures Spells(p.t, p.c) && p.c == ScanEscape(s).value && [0x5C] + s == p.t + ScanEscape(s).rest
    ensures |p.t| > 1
    ensures |p.t| == 6 && 0xD800 <= p.c < 0xDC00 && ScanEscape(s).rest != [] ==> NoLowUnitRead(ScanEscape(s).rest)
  {
    hide HexQuad, Quad;
    var (c, rest) := (ScanEscape(s).value, ScanEscape(s).rest);
    var n := |s| - |rest|;
    assert rest == s[n..];
    p := Piece([0x5C] + s[..n], c);
    if s[0] == 0x75 {
      QuadRead(s[1..]);
      assert p.t[2..6] == s[1..][..4];
      assert p.t[..2] == UNIT;
      if n == 11 {
        QuadRead(s[7..]);
        SurrogatesSpelled(HexQuad(s[1..]).value, HexQuad(s[7..]).value);
        assert p.t[6..8] == UNIT && p.t[8..] == s[7..][..4];
      } else {
        assert p.t[2..] == p.t[2..6];
      }
    }
  }

  /** What the scanner has seen behind a lone high surrogate. */
  predicate NoLowUnitRead(rest: Text) {
    |rest| >= 2 && rest[0] == 0x5C && rest[1] == 0x75 && HexQuad(rest[2..]).Some? ==> !(0xDC00 <= HexQuad(rest[2..]).value < 0xE000)
  }

  /** A low unit at the head of a spelling is what the scanner would have paired. */
  lemma LowUnitIsSeen(q: Piece, behind: Text)
    requires Spells(q.t, q.c) && |q.t| == 6 && 0xDC00 <= q.c < 0xE000
    ensures !NoLowUnitRead(q.t + behind)
  {
    hide Quad, HexQuad, Short;
    UnitsOf(q);
    QuadReads(q.t[2..], q.c, behind);
    assert (q.t + behind)[2..] == q.t[2..] + behind;
  }

  /** Whatever the scanner reads as a string is a spelling of it. */
  lemma {:induction false} StringIsSpelled(s: Text) returns (pieces: seq<Piece>)
    requires ScanString(s).Done?
    ensures WellSpelled(pieces) && Characters(pieces) == ScanString(s).value
    ensures s == Spelling(pieces) + [0x22] + ScanString(s).rest
    decreases |s|
  {
    hide ScanEscape, Quad, HexQuad, Short;
    if s[0] == 0x22 {
      pieces := [];
    } else {
      var p := Piece([s[0]], s[0]);
      var rest := s[1..];
      if s[0] == 0x5C {
        p := EscapeIsSpelled(s[1..]);
        rest := ScanEscape(s[1..]).rest;
        assert [0x5C] + s[1..] == s;
      }
      var more := StringIsSpelled(rest);
      pieces := [p] + more;
      assert pieces[1..] == more;
      assert s == p.t + rest;
      if more != [] && |p.t| == 6 && 0xD800 <= p.c < 0xDC00 { DoesNotFuse(p, more, rest, ScanString(rest).rest); }
      PieceInFront(p, more);
      assert Spelling(pieces) == p.t + Spelling(more);
    }
  }

  /** A high unit that the scanner left alone has no low unit behind it. */
  lemma DoesNotFuse(p: Piece, more: seq<Piece>, rest: Text, end: Text)
    requires WellSpelled(more) && more != [] && rest == Spelling(more) + [0x22] + end && NoLowUnitRead(rest)
    ensures !Fuse(p, more[0])
  {
    hide Quad, HexQuad, NoLowUnitRead, Spells;
    FirstSpells(more);
    if Fuse(p, more[0]) {
      var behind := Spelling(more[1..]) + [0x22] + end;
      assert rest == more[0].t + behind;
      LowUnitIsSeen(more[0], behind);
    }
  }

  lemma PieceInFront(p: Piece, more: seq<Piece>)
    requires WellSpelled(more) && Spells(p.t, p.c) && (more != [] ==> !Fuse(p, more[0]))
    ensures WellSpelled([p] + more) && Characters([p] + more) == [p.c] + Characters(more)
  {
    hide Spells, Fuse;
    var pieces := [p] + more;
    forall i | 0 <= i < |pieces| - 1 ensures !Fuse(pieces[i], pieces[i + 1]) {
      if i > 0 { assert !Fuse(more[i - 1], more[i]); }
    }
  }

  // The spelling of json.dumps with ensure_ascii

  /** Four lower-case hexadecimal digits. */
  function QuadOf(n: nat): (q: Text)
    requires n < 0x10000
    ensures Quad(q, n)
  {
    NibblesSum(n);
    [HexDigit(n / 0x1000), HexDigit(n / 0x100 % 16), HexDigit(n / 16 % 16), HexDigit(n % 16)]
  }

  function AsciiOne(c: CodePoint): (t: Text)
    ensures Spells(t, c) && (|t| == 6 ==> t == UNIT + t[2..] && c < 0x10000)
  {
    if c == 0x22 then [0x5C, 0x22]
    else if c == 0x5C then [0x5C, 0x5C]
    else if c == 0x08 then [0x5C, 0x62]
    else if c == 0x0C then [0x5C, 0x66]
    else if c == 0x0A then [0x5C, 0x6E]
    else if c == 0x0D then [0x5C, 0x72]
    else if c == 0x09 then [0x5C, 0x74]
    else if 0x20 <= c < 0x7F then [c]
    else if c < 0x10000 then
      var t := UNIT + QuadOf(c);
      assert t[..2] == UNIT && t[2..] == QuadOf(c);
      t
    else
      SurrogatesSpell(c);
      var t := UNIT + QuadOf(0xD800 + (c - 0x10000) / 0x400) + UNIT + QuadOf(0xDC00 + (c - 0x10000) % 0x400);
      assert t[..2] == UNIT && t[2..6] == QuadOf(0xD800 + (c - 0x10000) / 0x400) && t[6..8] == UNIT
          && t[8..] == QuadOf(0xDC00 + (c - 0x10000) % 0x400);
      t
  }

  function AsciiPieces(s: Text): (pieces: seq<Piece>)
    ensures |pieces| == |s| && forall i :: 0 <= i < |s| ==> pieces[i] == Piece(AsciiOne(s[i]), s[i])
  {
    seq(|s|, i requires 0 <= i < |s| => Piece(AsciiOne(s[i]), s[i]))
  }

  /** Every text of Unicode scalar values, written with ensure_ascii, reads back to itself. */
  lemma AsciiReads(s: Text)
    requires ScalarText(s)
    ensures ReadText([0x22] + Spelling(AsciiPieces(s)) + [0x22]) == Ok(Str(s))
  {
    hide AsciiOne, Spells, ScanString;
    var pieces := AsciiPieces(s);
    forall i | 0 <= i < |pieces| - 1 ensures !Fuse(pieces[i], pieces[i + 1]) { assert IsScalar(s[i]); }
    forall i | 0 <= i < |pieces| ensures Spells(pieces[i].t, pieces[i].c) { AsciiSpells(s[i]); }
    SpellingReads(pieces, []);
    assert Characters(pieces) == s;
    var all := [0x22] + Spelling(pieces) + [0x22];
    assert all[1..] == Spelling(pieces) + [0x22] + [];
  }

  lemma AsciiSpells(c: CodePoint)
    ensures Spells(AsciiOne(c), c)
  {
  }

  // Numbers (section 6)

  /** A number by its parts: sign, whole part, fraction with its point, exponent with its letter. */
  datatype Num = Num(minus: bool, whole: Text, fraction: Text, exponent: Text)

  predicate DigitRun(t: Text) {
    t != [] && forall i :: 0 <= i < |t| ==> 0x30 <= t[i] <= 0x39
  }

  predicate WellNum(n: Num) {
    && DigitRun(n.whole) && (n.whole[0] == 0x30 ==> |n.whole| == 1)
    && (n.fraction == [] || (n.fraction[0] == 0x2E && DigitRun(n.fraction[1..])))
    && (n.exponent == []
        || (n.exponent[0] in {0x65, 0x45}
            && (DigitRun(n.exponent[1..])
                || (|n.exponent| > 1 && n.exponent[1] in {0x2B, 0x2D} && DigitRun(n.exponent[2..])))))
  }

  function NumText(n: Num): Text {
    (if n.minus then [0x2D] else []) + n.whole + n.fraction + n.exponent
  }

  lemma {:induction false} DigitsOfRun(t: Text, rest: Text)
    requires forall i :: 0 <= i < |t| ==> 0x30 <= t[i] <= 0x39
    requires rest == [] || !IsDigit(rest[0])
    ensures Digits(t + rest) == |t|
  {
    if t == [] {
      assert t + rest == rest;
    } else {
      assert (t + rest)[1..] == t[1..] + rest;
      DigitsOfRun(t[1..], rest);
    }
  }

  lemma ExponentOf(n: Num)
    requires WellNum(n)
    ensures ExponentLength(n.exponent) == |n.exponent|
  {
    var e := n.exponent;
    if e != [] {
      var k := if |e| > 1 && e[1] in {0x2B, 0x2D} then 2 else 1;
      assert DigitRun(e[k..]) by { if k == 2 && DigitRun(e[1..]) { assert e[1..][0] == e[1]; } }
      DigitsOfRun(e[k..], []);
      assert e[k..] + [] == e[k..];
    }
  }

  lemma TailOf(n: Num)
    requires WellNum(n)
    ensures TailLength(n.fraction + n.exponent) == |n.fraction| + |n.exponent|
  {
    hide ExponentLength;
    var (f, e) := (n.fraction, n.exponent);
    ExponentOf(n);
    if f == [] {
      assert f + e == e && e[0..] == e;
    } else {
      assert (f + e)[1..] == f[1..] + e;
      DigitsOfRun(f[1..], e);
      assert (f + e)[|f|..] == e;
    }
  }

  /** What the grammar calls a number is a number token. */
  lemma NumIsNumber(n: Num)
    requires WellNum(n)
    ensures IsNumber(NumText(n))
  {
    hide TailLength, IntegerLength;
    var (t, tail) := (NumText(n), n.fraction + n.exponent);
    var sign := if n.minus then 1 else 0;
    assert t[sign..] == n.whole + tail;
    assert SignLength(t) == sign;
    WholeIsInteger(n, tail);
    assert (n.whole + tail)[|n.whole|..] == tail;
    TailOf(n);
  }

  lemma WholeIsInteger(n: Num, tail: Text)
    requires WellNum(n) && tail == n.fraction + n.exponent
    ensures IntegerLength(n.whole + tail) == |n.whole|
  {
    assert (n.whole + tail)[0] == n.whole[0];
    if n.whole[0] != 0x30 { DigitsOfRun(n.whole, tail); }
  }

  lemma RunOfDigits(t: Text)
    requires t != [] && Digits(t) == |t|
    ensures DigitRun(t)
  {
    forall i | 0 <= i < |t| ensures 0x30 <= t[i] <= 0x39 { DigitsAreDigits(t, i); }
  }

  lemma DigitsPrefix(s: Text)
    ensures forall i :: 0 <= i < Digits(s) ==> 0x30 <= s[i] <= 0x39
  {
    forall i | 0 <= i < Digits(s) ensures 0x30 <= s[i] <= 0x39 { DigitsAreDigits(s, i); }
  }

  lemma ExponentHasParts(e: Text)
    requires e != [] && ExponentLength(e) == |e|
    ensures e[0] in {0x65, 0x45}
    ensures DigitRun(e[1..]) || (|e| > 1 && e[1] in {0x2B, 0x2D} && DigitRun(e[2..]))
  {
    var k := if |e| > 1 && (e[1] == 0x2B || e[1] == 0x2D) then 2 else 1;
    RunOfDigits(e[k..]);
  }

  lemma FractionHasParts(s: Text)
    requires FractionLength(s) > 0
    ensures s[0] == 0x2E && DigitRun(s[..FractionLength(s)][1..])
  {
    DigitsPrefix(s[1..]);
    assert s[..FractionLength(s)][1..] == s[1..][..FractionLength(s) - 1];
  }

  lemma WholeHasParts(s: Text)
    requires IntegerLength(s) > 0
    ensures var whole := s[..IntegerLength(s)]; DigitRun(whole) && (whole[0] == 0x30 ==> |whole| == 1)
  {
    DigitsPrefix(s);
  }

  lemma TailHasParts(tail: Text)
    requires TailLength(tail) == |tail|
    ensures var f := FractionLength(tail);
            && (f > 0 ==> tail[0] == 0x2E && DigitRun(tail[..f][1..]))
            && (f < |tail| ==> var e := tail[f..]; e[0] in {0x65, 0x45} && (DigitRun(e[1..]) || (|e| > 1 && e[1] in {0x2B, 0x2D} && DigitRun(e[2..]))))
  {
    hide FractionLength, ExponentLength, DigitRun;
    if FractionLength(tail) > 0 { FractionHasParts(tail); }
    if FractionLength(tail) < |tail| { ExponentHasParts(tail[FractionLength(tail)..]); }
  }

  lemma UnsignedHasParts(s: Text) returns (n: Num)
    requires s != [] && UnsignedLength(s) == |s|
    ensures WellNum(n) && !n.minus && n.whole + n.fraction + n.exponent == s
  {
    hide IntegerLength, FractionLength, TailLength, DigitRun;
    var whole := IntegerLength(s);
    var tail := s[whole..];
    var fraction := FractionLength(tail);
    WholeHasParts(s);
    TailHasParts(tail);
    n := Num(false, s[..whole], tail[..fraction], tail[fraction..]);
    PartsJoin(s, whole, fraction);
  }

  lemma PartsJoin(s: Text, i: nat, j: nat)
    requires i + j <= |s|
    ensures s[..i] + s[i..][..j] + s[i..][j..] == s
  {
  }

  /** And every number token has the parts of the grammar. */
  lemma NumberHasParts(lexeme: Text) returns (n: Num)
    requires IsNumber(lexeme)
    ensures WellNum(n) && NumText(n) == lexeme
  {
    hide UnsignedLength, WellNum;
    var sign := SignLength(lexeme);
    var unsigned := UnsignedHasParts(lexeme[sign..]);
    n := unsigned.(minus := sign == 1);
    assert lexeme == lexeme[..sign] + lexeme[sign..];
    assert NumText(n) == lexeme[..sign] + (n.whole + n.fraction + n.exponent);
    assert WellNum(n) by { SignIsFree(unsigned, sign == 1); }
  }

  lemma SignIsFree(n: Num, minus: bool)
    requires WellNum(n)
    ensures WellNum(n.(minus := minus))
  {
  }

  // Values (sections 3 to 5)

  /** A value as it is written, its space included. */
  datatype Tree =
    | NullT
    | BoolT(b: bool)
    | NumT(n: Num)
    | StrT(pieces: seq<Piece>)
    | ArrT(gap: Text, items: seq<Item>)
    | ObjT(gap: Text, entries: seq<Entry>)

  datatype Item = Item(before: Text, tree: Tree, after: Text)

  datatype Entry = Entry(before: Text, key: seq<Piece>, beforeColon: Text, afterColon: Text, tree: Tree, after: Text)

  function Write(tree: Tree): Text
    decreases tree, 1
  {
    match tree
    case NullT => [0x6E, 0x75, 0x6C, 0x6C]
    case BoolT(b) => if b then [0x74, 0x72, 0x75, 0x65] else [0x66, 0x61, 0x6C, 0x73, 0x65]
    case NumT(n) => NumText(n)
    case StrT(pieces) => [0x22] + Spelling(pieces) + [0x22]
    case ArrT(gap, items) => [0x5B] + gap + WriteItems(items) + [0x5D]
    case ObjT(gap, entries) => [0x7B] + gap + WriteEntries(entries) + [0x7D]
  }

  function WriteItem(item: Item): Text
    decreases item, 2
  {
    item.before + Write(item.tree) + item.after
  }

  function WriteItems(items: seq<Item>): Text
    decreases items, 0
  {
    if items == [] then []
    else WriteItem(items[0]) + if |items| == 1 then [] else [0x2C] + WriteItems(items[1..])
  }

  function WriteEntry(entry: Entry): Text
    decreases entry, 2
  {
    entry.before + [0x22] + Spelling(entry.key) + [0x22] + entry.beforeColon + [0x3A] + entry.afterColon + Write(entry.tree) + entry.after
  }

  function WriteEntries(entries: seq<Entry>): Text
    decreases entries, 0
  {
    if entries == [] then []
    else WriteEntry(entries[0]) + if |entries| == 1 then [] else [0x2C] + WriteEntries(entries[1..])
  }

  /** The value that is written. */
  function Meaning(tree: Tree): Json
    decreases tree, 1
  {
    match tree
    case NullT => Null
    case BoolT(b) => Bool(b)
    case NumT(n) => Number(NumText(n))
    case StrT(pieces) => Str(Characters(pieces))
    case ArrT(_, items) => Arr(MeaningItems(items))
    case ObjT(_, entries) => Obj(MeaningEntries(entries))
  }

  function MeaningItems(items: seq<Item>): (vs: seq<Json>)
    ensures |vs| == |items|
    decreases items, 0
  {
    if items == [] then [] else [Meaning(items[0].tree)] + MeaningItems(items[1..])
  }

  function MeaningEntries(entries: seq<Entry>): (ms: seq<Member>)
    ensures |ms| == |entries|
    decreases entries, 0
  {
    if entries == [] then []
    else [Keyed(Characters(entries[0].key), Meaning(entries[0].tree))] + MeaningEntries(entries[1..])
  }

  predicate WellItem(item: Item) {
    Spaces(item.before) && Spaces(item.after)
  }

  predicate WellWritten(tree: Tree)
    decreases tree
  {
    match tree
    case NumT(n) => WellNum(n)
    case StrT(pieces) => WellSpelled(pieces)
    case ArrT(gap, items) =>
      && Spaces(gap) && (items != [] ==> gap == [])
      && forall i :: 0 <= i < |items| ==> WellItem(items[i]) && WellWritten(items[i].tree)
    case ObjT(gap, entries) =>
      && Spaces(gap) && (entries != [] ==> gap == [])
      && forall i :: 0 <= i < |entries| ==> WellEntry(entries[i]) && WellWritten(entries[i].tree)
    case _ => true
  }

  predicate WellEntry(entry: Entry) {
    && Spaces(entry.before) && Spaces(entry.beforeColon) && Spaces(entry.afterColon) && Spaces(entry.after)
    && WellSpelled(entry.key)
  }

  /** No object of the value has a key twice, its keys compared as they are read. */
  predicate KeysOnce(tree: Tree)
    decreases tree
  {
    match tree
    case ArrT(_, items) => forall i :: 0 <= i < |items| ==> KeysOnce(items[i].tree)
    case ObjT(_, entries) =>
      && DistinctKeys(MeaningEntries(entries))
      && forall i :: 0 <= i < |entries| ==> KeysOnce(entries[i].tree)
    case _ => true
  }

  // Whatever is well written is read

  predicate Ends(rest: Text) {
    rest == [] || rest[0] in {0x20, 0x09, 0x0A, 0x0D, 0x2C, 0x5D, 0x7D}
  }

  lemma EndsDelimits(rest: Text)
    requires Ends(rest)
    ensures Delimits(rest)
  {
  }

  /** A written value starts with neither space nor a closing bracket. */
  lemma WrittenStarts(tree: Tree)
    requires WellWritten(tree)
    ensures Write(tree) != [] && Write(tree)[0] !in {0x20, 0x09, 0x0A, 0x0D, 0x5D, 0x7D, 0x2C}
  {
    hide Spelling, WriteItems, WriteEntries;
  }

  /** What a scan of this tree gives in front of this rest. */
  function ReadAs(tree: Tree, rest: Text): Scan<Json> {
    if KeysOnce(tree) then Done(Meaning(tree), rest) else Fail(DuplicateKey)
  }

  predicate ItemsOnce(items: seq<Item>) {
    forall i :: 0 <= i < |items| ==> KeysOnce(items[i].tree)
  }

  predicate EntriesOnce(entries: seq<Entry>) {
    forall i :: 0 <= i < |entries| ==> KeysOnce(entries[i].tree)
  }

  lemma SkipTo(w: Text, s: Text, rest: Text)
    requires Spaces(w) && s != [] && s[0] !in {0x20, 0x09, 0x0A, 0x0D}
    ensures SkipSpace(w + s + rest) == s + rest
  {
    assert w + s + rest == w + (s + rest);
    SpacesSkipped(w, s + rest);
  }

  lemma {:induction false} ReadTree(tree: Tree, rest: Text)
    requires WellWritten(tree) && Ends(rest)
    ensures ScanValue(Write(tree) + rest) == ReadAs(tree, rest)
    decreases tree, 3
  {
    hide Spelling, WriteItems, WriteEntries;
    match tree
    case NullT => ScanConstant(NULL_TOKEN, rest);
    case BoolT(b) => ScanConstant(if b then TRUE_TOKEN else FALSE_TOKEN, rest);
    case NumT(n) =>
      NumIsNumber(n);
      EndsDelimits(rest);
      ScanNumber(NumText(n), rest);
    case StrT(pieces) => ReadString(pieces, rest);
    case ArrT(gap, items) => ReadArray(tree, gap, items, rest);
    case ObjT(gap, entries) => ReadObject(tree, gap, entries, rest);
  }

  lemma ReadString(pieces: seq<Piece>, rest: Text)
    requires WellSpelled(pieces)
    ensures ScanValue([0x22] + Spelling(pieces) + [0x22] + rest) == Done(Str(Characters(pieces)), rest)
  {
    hide WellSpelled, Spelling, ScanString;
    var s := [0x22] + Spelling(pieces) + [0x22] + rest;
    assert s[1..] == Spelling(pieces) + [0x22] + rest;
    SpellingReads(pieces, rest);
  }

  lemma {:induction false} ReadArray(tree: Tree, gap: Text, items: seq<Item>, rest: Text)
    requires tree == ArrT(gap, items) && WellWritten(tree)
    ensures ScanValue(Write(tree) + rest) == ReadAs(tree, rest)
    decreases tree, 2
  {
    hide SkipSpace, ScanItems, WriteItems;
    var s := Write(tree) + rest;
    var inner := gap + WriteItems(items) + [0x5D] + rest;
    assert s[1..] == inner;
    if items == [] {
      NothingWritten();
      assert inner == gap + [0x5D] + rest;
      SkipTo(gap, [0x5D], rest);
      assert ([0x5D] + rest)[1..] == rest;
    } else {
      assert inner == WriteItems(items) + ([0x5D] + rest);
      ReadItems(items, rest);
    }
  }

  lemma NothingWritten()
    ensures WriteItems([]) == [] && WriteEntries([]) == [] && MeaningItems([]) == [] && MeaningEntries([]) == []
  {
  }

  /** The first value of what is left of an array, up to the comma or the bracket behind it. */
  lemma {:induction false} ReadFrontItem(item: Item, behind: Text)
    requires WellItem(item) && WellWritten(item.tree) && behind != [] && (behind[0] == 0x5D || behind[0] == 0x2C)
    ensures var s := Write(item.tree) + (item.after + behind);
            && s[0] != 0x5D && SkipSpace(WriteItem(item) + behind) == s
            && SkipSpace(item.after + behind) == behind
            && ScanValue(s) == ReadAs(item.tree, item.after + behind)
    decreases item, 5
  {
    hide SkipSpace, ScanValue, Write, ReadAs, WellWritten;
    var tail := item.after + behind;
    WrittenStarts(item.tree);
    assert WriteItem(item) + behind == item.before + Write(item.tree) + tail;
    SkipTo(item.before, Write(item.tree), tail);
    SkipTo(item.after, [behind[0]], behind[1..]);
    assert [behind[0]] + behind[1..] == behind;
    assert item.after + [behind[0]] + behind[1..] == tail;
    assert Ends(tail);
    ReadTree(item.tree, tail);
  }

  lemma JoinAgain(a: Text, b: Text, c: Text, d: Text)
    ensures a + b + c + d == a + (b + (c + d))
  {
  }

  lemma WriteMoreEntries(entries: seq<Entry>)
    requires |entries| > 1
    ensures WriteEntries(entries) == WriteEntry(entries[0]) + [0x2C] + WriteEntries(entries[1..])
  {
    hide WriteEntry;
  }

  lemma WriteItemsParts(items: seq<Item>, rest: Text)
    requires items != []
    ensures WriteItems(items) + ([0x5D] + rest)
         == WriteItem(items[0])
            + if |items| == 1 then [0x5D] + rest else [0x2C] + (WriteItems(items[1..]) + ([0x5D] + rest))
  {
    hide WriteItem, WriteItems;
    if |items| == 1 {
      assert WriteItems(items) == WriteItem(items[0]) by { WriteOneItem(items); }
    } else {
      WriteMoreItems(items);
      JoinAgain(WriteItem(items[0]), [0x2C], WriteItems(items[1..]), [0x5D] + rest);
    }
  }

  lemma WriteOneItem(items: seq<Item>)
    requires |items| == 1
    ensures WriteItems(items) == WriteItem(items[0])
  {
    hide WriteItem;
  }

  lemma OnlyItem(s: Text, v: Json, middle: Text, rest: Text)
    requires ScanValue(s) == Done(v, middle) && SkipSpace(middle) == [0x5D] + rest
    ensures ScanItems(s) == Done([v], rest)
  {
    assert ([0x5D] + rest)[1..] == rest;
  }

  lemma MoreItems(s: Text, v: Json, middle: Text, next: Text)
    requires ScanValue(s) == Done(v, middle) && SkipSpace(middle) == [0x2C] + next
    ensures ScanItems(s) == match ScanItems(SkipSpace(next))
                            case Fail(e) => Fail(e)
                            case Done(tail, rest) => Done([v] + tail, rest)
  {
    assert ([0x2C] + next)[1..] == next;
  }

  lemma NoItem(s: Text)
    requires ScanValue(s).Fail?
    ensures ScanItems(s) == Fail(ScanValue(s).error)
  {
  }

  /** The items behind an opening bracket, their leading space skipped. */
  lemma {:induction false} ReadItems(items: seq<Item>, rest: Text)
    requires items != []
    requires forall i :: 0 <= i < |items| ==> WellItem(items[i]) && WellWritten(items[i].tree)
    ensures var s := SkipSpace(WriteItems(items) + ([0x5D] + rest));
            && s != [] && s[0] != 0x5D
            && ScanItems(s) == if ItemsOnce(items) then Done(MeaningItems(items), rest) else Fail(DuplicateKey)
    decreases items, 1
  {
    hide SkipSpace, ScanValue, ScanItems, Write, WriteItem, WriteItems, Meaning, KeysOnce, WellWritten;
    var (item, more) := (items[0], items[1..]);
    var behind := if |items| == 1 then [0x5D] + rest else [0x2C] + (WriteItems(more) + ([0x5D] + rest));
    var s := Write(item.tree) + (item.after + behind);
    WriteItemsParts(items, rest);
    ReadFrontItem(item, behind);
    assert items == [item] + more;
    if !KeysOnce(item.tree) {
      NoItem(s);
    } else if |items| == 1 {
      OnlyItem(s, Meaning(item.tree), item.after + behind, rest);
      assert MeaningItems(items) == [Meaning(item.tree)];
    } else {
      ReadItems(more, rest);
      MoreItems(s, Meaning(item.tree), item.after + behind, WriteItems(more) + ([0x5D] + rest));
    }
  }

  lemma {:induction false} ReadObject(tree: Tree, gap: Text, entries: seq<Entry>, rest: Text)
    requires tree == ObjT(gap, entries) && WellWritten(tree)
    ensures ScanValue(Write(tree) + rest) == ReadAs(tree, rest)
    decreases tree, 2
  {
    hide SkipSpace, ScanMembers, WriteEntries;
    var s := Write(tree) + rest;
    var inner := gap + WriteEntries(entries) + [0x7D] + rest;
    assert s[1..] == inner;
    if entries == [] {
      NothingWritten();
      assert inner == gap + [0x7D] + rest;
      SkipTo(gap, [0x7D], rest);
      assert ([0x7D] + rest)[1..] == rest;
    } else {
      assert inner == WriteEntries(entries) + ([0x7D] + rest);
      ReadEntries(entries, rest);
    }
  }

  /** A member from its opening quote on. */
  function FromQuote(entry: Entry): Text {
    [0x22] + Spelling(entry.key) + [0x22] + entry.beforeColon + [0x3A] + entry.afterColon + Write(entry.tree)
  }

  lemma EntryParts(entry: Entry, rest: Text)
    ensures WriteEntry(entry) + rest == entry.before + FromQuote(entry) + (entry.after + rest)
    ensures FromQuote(entry)[0] == 0x22
    ensures (FromQuote(entry) + rest)[1..]
         == Spelling(entry.key) + [0x22] + (entry.beforeColon + ([0x3A] + (entry.afterColon + (Write(entry.tree) + rest))))
  {
    hide Spelling, Write;
    var value := Write(entry.tree) + rest;
    var colon := [0x3A] + (entry.afterColon + value);
    assert FromQuote(entry) + rest == [0x22] + (Spelling(entry.key) + [0x22] + (entry.beforeColon + colon));
  }

  lemma {:induction false} ReadEntry(entry: Entry, rest: Text)
    requires WellEntry(entry) && WellWritten(entry.tree) && Ends(rest)
    ensures ScanMember(FromQuote(entry) + rest)
         == if KeysOnce(entry.tree) then Done(Keyed(Characters(entry.key), Meaning(entry.tree)), rest) else Fail(DuplicateKey)
    decreases entry, 4
  {
    hide SkipSpace, ScanString, ScanValue, Write, Meaning, KeysOnce, WellWritten, WellSpelled, Spelling, FromQuote;
    var s := FromQuote(entry) + rest;
    var value := Write(entry.tree) + rest;
    var colon := [0x3A] + (entry.afterColon + value);
    EntryParts(entry, rest);
    assert s[0] == 0x22;
    SpellingReads(entry.key, entry.beforeColon + colon);
    SkipTo(entry.beforeColon, [0x3A], entry.afterColon + value);
    assert entry.beforeColon + [0x3A] + (entry.afterColon + value) == entry.beforeColon + colon;
    assert colon[1..] == entry.afterColon + value;
    WrittenStarts(entry.tree);
    SkipTo(entry.afterColon, Write(entry.tree), rest);
    assert entry.afterColon + Write(entry.tree) + rest == entry.afterColon + value;
    ReadTree(entry.tree, rest);
  }

  lemma OnlyMember(s: Text, head: Member, middle: Text, rest: Text)
    requires ScanMember(s) == Done(head, middle) && SkipSpace(middle) == [0x7D] + rest
    ensures ScanMembers(s) == Done([head], rest)
  {
    assert ([0x7D] + rest)[1..] == rest;
  }

  lemma MoreMembers(s: Text, head: Member, middle: Text, next: Text)
    requires ScanMember(s) == Done(head, middle) && SkipSpace(middle) == [0x2C] + next
    ensures ScanMembers(s) == match ScanMembers(SkipSpace(next))
                              case Fail(e) => Fail(e)
                              case Done(tail, rest) => Done([head] + tail, rest)
  {
    assert ([0x2C] + next)[1..] == next;
  }

  lemma NoMember(s: Text)
    requires ScanMember(s).Fail?
    ensures ScanMembers(s) == Fail(ScanMember(s).error)
  {
  }

  /** The first member of what is left of an object, up to the comma or the brace behind it. */
  lemma {:induction false} ReadFrontEntry(entry: Entry, behind: Text)
    requires WellEntry(entry) && WellWritten(entry.tree) && behind != [] && (behind[0] == 0x7D || behind[0] == 0x2C)
    ensures var (s, tail) := (FromQuote(entry) + (entry.after + behind), entry.after + behind);
            && s[0] == 0x22 && SkipSpace(WriteEntry(entry) + behind) == s
            && SkipSpace(tail) == behind
            && ScanMember(s) == if KeysOnce(entry.tree) then Done(Keyed(Characters(entry.key), Meaning(entry.tree)), tail) else Fail(DuplicateKey)
    decreases entry, 5
  {
    hide SkipSpace, ScanMember, Write, Meaning, KeysOnce, WellWritten, FromQuote, WriteEntry, WellSpelled, Characters;
    var tail := entry.after + behind;
    EntryParts(entry, behind);
    SkipTo(entry.before, FromQuote(entry), tail);
    SkipTo(entry.after, [behind[0]], behind[1..]);
    assert [behind[0]] + behind[1..] == behind;
    assert entry.after + [behind[0]] + behind[1..] == tail;
    assert Ends(tail);
    ReadEntry(entry, tail);
  }

  lemma WriteEntriesParts(entries: seq<Entry>, rest: Text)
    requires entries != []
    ensures WriteEntries(entries) + ([0x7D] + rest)
         == WriteEntry(entries[0])
            + if |entries| == 1 then [0x7D] + rest else [0x2C] + (WriteEntries(entries[1..]) + ([0x7D] + rest))
  {
    hide WriteEntry, WriteEntries;
    if |entries| == 1 {
      assert WriteEntries(entries) == WriteEntry(entries[0]) by { WriteOneEntry(entries); }
    } else {
      WriteMoreEntries(entries);
      JoinAgain(WriteEntry(entries[0]), [0x2C], WriteEntries(entries[1..]), [0x7D] + rest);
    }
  }

  lemma WriteOneEntry(entries: seq<Entry>)
    requires |entries| == 1
    ensures WriteEntries(entries) == WriteEntry(entries[0])
  {
    hide WriteEntry;
  }

  lemma {:induction false} ReadEntries(entries: seq<Entry>, rest: Text)
    requires entries != []
    requires forall i :: 0 <= i < |entries| ==> WellEntry(entries[i]) && WellWritten(entries[i].tree)
    ensures var s := SkipSpace(WriteEntries(entries) + ([0x7D] + rest));
            && s != [] && s[0] != 0x7D
            && ScanMembers(s) == if EntriesOnce(entries) then Done(MeaningEntries(entries), rest) else Fail(DuplicateKey)
    decreases entries, 1
  {
    hide SkipSpace, ScanMember, ScanMembers, Write, Meaning, KeysOnce, WellWritten, FromQuote, WriteEntry, WriteEntries, WellSpelled, Characters;
    var (entry, more) := (entries[0], entries[1..]);
    var behind := if |entries| == 1 then [0x7D] + rest else [0x2C] + (WriteEntries(more) + ([0x7D] + rest));
    var (s, tail) := (FromQuote(entry) + (entry.after + behind), entry.after + behind);
    WriteEntriesParts(entries, rest);
    ReadFrontEntry(entry, behind);
    assert entries == [entry] + more;
    var head := Keyed(Characters(entry.key), Meaning(entry.tree));
    if !KeysOnce(entry.tree) {
      NoMember(s);
    } else if |entries| == 1 {
      OnlyMember(s, head, tail, rest);
      assert MeaningEntries(entries) == [head];
    } else {
      ReadEntries(more, rest);
      MoreMembers(s, head, tail, WriteEntries(more) + ([0x7D] + rest));
    }
  }

  /** Whatever the grammar writes, with any space around it, is read as its meaning; a key that occurs twice in one object,
      however its two spellings differ, is refused. */
  lemma WrittenIsRead(before: Text, tree: Tree, after: Text)
    requires Spaces(before) && Spaces(after) && WellWritten(tree)
    ensures ReadText(before + Write(tree) + after) == if KeysOnce(tree) then Ok(Meaning(tree)) else Err(DuplicateKey)
  {
    hide SkipSpace, ScanValue, Write, Meaning, KeysOnce, WellWritten;
    WrittenStarts(tree);
    SkipTo(before, Write(tree), after);
    ReadTree(tree, after);
    SpacesSkipped(after, []);
    assert after + [] == after;
  }

  // And nothing else is read

  lemma EndOfItems(s: Text)
    requires ScanItems(s).Done?
    ensures ScanValue(s).Done?
    ensures var (head, after) := (ScanValue(s).value, SkipSpace(ScanValue(s).rest));
            && after != [] && (after[0] == 0x5D || after[0] == 0x2C)
            && (after[0] == 0x5D ==> ScanItems(s) == Done([head], after[1..]))
            && (after[0] == 0x2C ==>
                  var next := ScanItems(SkipSpace(after[1..]));
                  next.Done? && ScanItems(s) == Done([head] + next.value, next.rest))
  {
  }

  lemma EndOfMembers(s: Text)
    requires ScanMembers(s).Done?
    ensures ScanMember(s).Done?
    ensures var (head, after) := (ScanMember(s).value, SkipSpace(ScanMember(s).rest));
            && after != [] && (after[0] == 0x7D || after[0] == 0x2C)
            && (after[0] == 0x7D ==> ScanMembers(s) == Done([head], after[1..]))
            && (after[0] == 0x2C ==>
                  var next := ScanMembers(SkipSpace(after[1..]));
                  next.Done? && ScanMembers(s) == Done([head] + next.value, next.rest))
  {
  }

  /** The tree that a scan has gone over. */
  predicate IsTreeOf(tree: Tree, s: Text, v: Json, rest: Text) {
    WellWritten(tree) && KeysOnce(tree) && Meaning(tree) == v && s == Write(tree) + rest
  }

  predicate AreItemsOf(items: seq<Item>, s: Text, vs: seq<Json>, rest: Text) {
    && items != [] && items[0].before == [] && ItemsOnce(items) && MeaningItems(items) == vs
    && (forall i :: 0 <= i < |items| ==> WellItem(items[i]) && WellWritten(items[i].tree))
    && s == WriteItems(items) + [0x5D] + rest
  }

  predicate AreEntriesOf(entries: seq<Entry>, s: Text, ms: seq<Member>, rest: Text) {
    && entries != [] && entries[0].before == [] && EntriesOnce(entries) && MeaningEntries(entries) == ms
    && (forall i :: 0 <= i < |entries| ==> WellEntry(entries[i]) && WellWritten(entries[i].tree))
    && s == WriteEntries(entries) + [0x7D] + rest
  }

  lemma {:induction false} TreeIsRead(s: Text) returns (tree: Tree)
    requires ScanValue(s).Done?
    ensures IsTreeOf(tree, s, ScanValue(s).value, ScanValue(s).rest)
    decreases |s|, 1
  {
    hide SkipSpace, ScanItems, ScanMembers, ScanString, NumberLength, WriteItems, WriteEntries, MeaningItems, MeaningEntries,
      Spelling, WellSpelled, WellNum, NumText;
    if s[0] == 0x22 {
      var pieces := StringIsSpelled(s[1..]);
      tree := StrT(pieces);
      assert s == [0x22] + s[1..];
    } else if s[0] == 0x5B {
      tree := ArrayIsRead(s);
    } else if s[0] == 0x7B {
      tree := ObjectIsRead(s);
    } else if s[0] == 0x6E && StartsWith(s, NULL_TOKEN) {
      tree := NullT;
      assert s == s[..4] + s[4..];
    } else if s[0] == 0x74 && StartsWith(s, TRUE_TOKEN) {
      tree := BoolT(true);
      assert s == s[..4] + s[4..];
    } else if s[0] == 0x66 && StartsWith(s, FALSE_TOKEN) {
      tree := BoolT(false);
      assert s == s[..5] + s[5..];
    } else {
      TokenIsNumber(s);
      var n := NumberHasParts(s[..NumberLength(s)]);
      tree := NumT(n);
      assert s == s[..NumberLength(s)] + s[NumberLength(s)..];
    }
  }

  lemma OpenedArray(s: Text)
    requires ScanValue(s).Done? && s[0] == 0x5B
    ensures var inner := SkipSpace(s[1..]);
            && inner != []
            && (inner[0] == 0x5D ==> ScanValue(s) == Done(Arr([]), inner[1..]))
            && (inner[0] != 0x5D ==> ScanItems(inner).Done? && ScanValue(s) == Done(Arr(ScanItems(inner).value), ScanItems(inner).rest))
  {
    hide SkipSpace, ScanItems, ScanMembers;
  }

  lemma OpenedObject(s: Text)
    requires ScanValue(s).Done? && s[0] == 0x7B
    ensures var inner := SkipSpace(s[1..]);
            && inner != []
            && (inner[0] == 0x7D ==> ScanValue(s) == Done(Obj([]), inner[1..]))
            && (inner[0] != 0x7D ==> ScanMembers(inner).Done? && DistinctKeys(ScanMembers(inner).value)
                                     && ScanValue(s) == Done(Obj(ScanMembers(inner).value), ScanMembers(inner).rest))
  {
    hide SkipSpace, ScanItems, ScanMembers;
  }

  lemma {:induction false} ArrayIsRead(s: Text) returns (tree: Tree)
    requires ScanValue(s).Done? && s[0] == 0x5B
    ensures IsTreeOf(tree, s, ScanValue(s).value, ScanValue(s).rest)
    decreases |s|, 0
  {
    hide SkipSpace, ScanItems, ScanValue;
    OpenedArray(s);
    var inner := SkipSpace(s[1..]);
    var w := SkippedAreSpaces(s[1..]);
    assert s == [0x5B] + (w + inner);
    if inner[0] == 0x5D {
      tree := ArrT(w, []);
      NothingWritten();
      assert inner == [0x5D] + inner[1..];
      assert s == [0x5B] + w + [] + [0x5D] + inner[1..];
    } else {
      var items := ItemsAreRead(inner);
      tree := ArrT([], [items[0].(before := w)] + items[1..]);
      ArrayWritten(items, w, inner, ScanItems(inner).value, ScanItems(inner).rest);
    }
  }

  lemma ArrayWritten(items: seq<Item>, w: Text, inner: Text, vs: seq<Json>, rest: Text)
    requires Spaces(w) && AreItemsOf(items, inner, vs, rest)
    ensures IsTreeOf(ArrT([], [items[0].(before := w)] + items[1..]), [0x5B] + (w + inner), Arr(vs), rest)
  {
    hide WriteItems, MeaningItems, Write, WellWritten, KeysOnce, Meaning;
    FirstItemSpaced(items, w);
    var more := [items[0].(before := w)] + items[1..];
    ArrayIs(more);
    assert [0x5B] + (w + inner) == [0x5B] + WriteItems(more) + [0x5D] + rest;
  }

  lemma ArrayIs(items: seq<Item>)
    requires items != [] && forall i :: 0 <= i < |items| ==> WellItem(items[i]) && WellWritten(items[i].tree)
    ensures var tree := ArrT([], items);
            && WellWritten(tree) && Write(tree) == [0x5B] + WriteItems(items) + [0x5D]
            && Meaning(tree) == Arr(MeaningItems(items)) && (KeysOnce(tree) <==> ItemsOnce(items))
  {
    ArrayIsWell(items);
    ArrayKeys(items);
    hide WriteItems, MeaningItems, WellWritten, KeysOnce;
    assert [0x5B] + [] == [0x5B];
  }

  lemma ArrayIsWell(items: seq<Item>)
    requires items != [] && forall i :: 0 <= i < |items| ==> WellItem(items[i]) && WellWritten(items[i].tree)
    ensures WellWritten(ArrT([], items))
  {
    hide WellItem;
  }

  lemma ArrayKeys(items: seq<Item>)
    ensures KeysOnce(ArrT([], items)) <==> ItemsOnce(items)
  {
  }

  lemma FirstItemSpaced(items: seq<Item>, w: Text)
    requires items != [] && items[0].before == [] && Spaces(w)
    requires forall i :: 0 <= i < |items| ==> WellItem(items[i]) && WellWritten(items[i].tree)
    ensures var more := [items[0].(before := w)] + items[1..];
            && WriteItems(more) == w + WriteItems(items) && MeaningItems(more) == MeaningItems(items)
            && (ItemsOnce(items) ==> ItemsOnce(more)) && |more| == |items|
            && forall i :: 0 <= i < |more| ==> WellItem(more[i]) && WellWritten(more[i].tree)
  {
    hide Write, Meaning, KeysOnce, WellWritten, WriteItems, WriteItem, MeaningItems;
    var more := [items[0].(before := w)] + items[1..];
    assert more[1..] == items[1..];
    SpaceInFront(items[0], w);
    WriteFrom(items);
    WriteFrom(more);
  }

  lemma SpaceInFront(item: Item, w: Text)
    requires item.before == []
    ensures WriteItem(item.(before := w)) == w + WriteItem(item)
  {
    hide Write;
  }

  /** What stands behind the first value. */
  function RestOfItems(items: seq<Item>): Text {
    if items == [] then [] else [0x2C] + WriteItems(items)
  }

  lemma WriteFrom(items: seq<Item>)
    requires items != []
    ensures WriteItems(items) == WriteItem(items[0]) + RestOfItems(items[1..])
    ensures MeaningItems(items) == [Meaning(items[0].tree)] + MeaningItems(items[1..])
  {
    hide WriteItem, Meaning;
  }

  lemma {:induction false} ItemsAreRead(s: Text) returns (items: seq<Item>)
    requires ScanItems(s).Done?
    ensures AreItemsOf(items, s, ScanItems(s).value, ScanItems(s).rest)
    decreases |s|, 2
  {
    hide SkipSpace, ScanItems, ScanValue, Write, Meaning, KeysOnce, WellWritten, WriteItem, WriteItems, MeaningItems, IsTreeOf;
    EndOfItems(s);
    var head := TreeIsRead(s);
    var middle := ScanValue(s).rest;
    var w := SkippedAreSpaces(middle);
    var after := SkipSpace(middle);
    var item := Item([], head, w);
    ItemInFront(item, s, ScanValue(s).value, middle, after);
    if after[0] == 0x5D {
      items := [item];
      LastItem(item, s, after, ScanValue(s).value, after[1..]);
    } else {
      var gap := SkippedAreSpaces(after[1..]);
      var next := ItemsAreRead(SkipSpace(after[1..]));
      items := [item] + [next[0].(before := gap)] + next[1..];
      assert after == [0x2C] + (gap + SkipSpace(after[1..]));
      OneMoreItem(item, next, gap, s, SkipSpace(after[1..]), ScanValue(s).value, ScanItems(SkipSpace(after[1..])).value, ScanItems(s).rest);
    }
  }

  lemma ItemInFront(item: Item, s: Text, v: Json, middle: Text, after: Text)
    requires item.before == [] && IsTreeOf(item.tree, s, v, middle) && Spaces(item.after) && middle == item.after + after
    ensures IsItemOf(item, s, v, after)
  {
    hide Write, Meaning, KeysOnce, WellWritten;
    assert [] + Write(item.tree) + item.after == Write(item.tree) + item.after;
  }

  /** The array value that a scan has gone over, with the space behind it. */
  predicate IsItemOf(item: Item, s: Text, v: Json, after: Text) {
    && item.before == [] && WellItem(item) && WellWritten(item.tree) && KeysOnce(item.tree)
    && Meaning(item.tree) == v && s == WriteItem(item) + after
  }

  lemma LastItem(item: Item, s: Text, after: Text, v: Json, rest: Text)
    requires IsItemOf(item, s, v, after) && after == [0x5D] + rest
    ensures AreItemsOf([item], s, [v], rest)
  {
    hide Write, Meaning, KeysOnce, WellWritten, WriteItem;
    assert WriteItems([item]) == WriteItem(item);
    assert MeaningItems([item]) == [v];
  }

  lemma OneMoreItem(item: Item, next: seq<Item>, gap: Text, s: Text, inner: Text, v: Json, vs: seq<Json>, rest: Text)
    requires IsItemOf(item, s, v, [0x2C] + (gap + inner)) && Spaces(gap)
    requires AreItemsOf(next, inner, vs, rest)
    ensures AreItemsOf([item] + [next[0].(before := gap)] + next[1..], s, [v] + vs, rest)
  {
    hide Write, Meaning, KeysOnce, WellWritten, WriteItem, WriteItems, MeaningItems, WellItem;
    FirstItemSpaced(next, gap);
    var more := [next[0].(before := gap)] + next[1..];
    var items := [item] + [next[0].(before := gap)] + next[1..];
    assert items == [item] + more && items[1..] == more;
    WriteMoreItems(items);
    Stitch(WriteItem(item), gap, WriteItems(next), [0x5D], rest);
    assert WellItem(item) by { ItemIsWell(item, s, v, [0x2C] + (gap + inner)); }
  }

  lemma ItemIsWell(item: Item, s: Text, v: Json, after: Text)
    requires IsItemOf(item, s, v, after)
    ensures WellItem(item)
  {
  }

  lemma Stitch(a: Text, gap: Text, inner: Text, end: Text, rest: Text)
    ensures a + ([0x2C] + (gap + (inner + end + rest))) == a + [0x2C] + (gap + inner) + end + rest
  {
  }

  lemma WriteMoreItems(items: seq<Item>)
    requires |items| > 1
    ensures WriteItems(items) == WriteItem(items[0]) + [0x2C] + WriteItems(items[1..])
    ensures MeaningItems(items) == [Meaning(items[0].tree)] + MeaningItems(items[1..])
  {
    hide WriteItem, Meaning;
  }

  lemma {:induction false} ObjectIsRead(s: Text) returns (tree: Tree)
    requires ScanValue(s).Done? && s[0] == 0x7B
    ensures IsTreeOf(tree, s, ScanValue(s).value, ScanValue(s).rest)
    decreases |s|, 0
  {
    hide SkipSpace, ScanMembers, ScanValue, DistinctKeys;
    OpenedObject(s);
    var inner := SkipSpace(s[1..]);
    var w := SkippedAreSpaces(s[1..]);
    assert s == [0x7B] + (w + inner);
    if inner[0] == 0x7D {
      tree := ObjT(w, []);
      NothingWritten();
      assert DistinctKeys(MeaningEntries([])) by { NoKeys(); }
      assert inner == [0x7D] + inner[1..];
      assert s == [0x7B] + w + [] + [0x7D] + inner[1..];
    } else {
      var entries := EntriesAreRead(inner);
      tree := ObjT([], [entries[0].(before := w)] + entries[1..]);
      ObjectWritten(entries, w, inner, ScanMembers(inner).value, ScanMembers(inner).rest);
    }
  }

  lemma NoKeys()
    ensures DistinctKeys(MeaningEntries([]))
  {
  }

  lemma ObjectWritten(entries: seq<Entry>, w: Text, inner: Text, ms: seq<Member>, rest: Text)
    requires Spaces(w) && AreEntriesOf(entries, inner, ms, rest) && DistinctKeys(ms)
    ensures IsTreeOf(ObjT([], [entries[0].(before := w)] + entries[1..]), [0x7B] + (w + inner), Obj(ms), rest)
  {
    hide WriteEntries, MeaningEntries, WellEntry;
    FirstEntrySpaced(entries, w);
    var more := [entries[0].(before := w)] + entries[1..];
    assert [0x7B] + (w + inner) == [0x7B] + [] + WriteEntries(more) + [0x7D] + rest;
  }

  lemma FirstEntrySpaced(entries: seq<Entry>, w: Text)
    requires entries != [] && entries[0].before == [] && Spaces(w)
    requires forall i :: 0 <= i < |entries| ==> WellEntry(entries[i]) && WellWritten(entries[i].tree)
    ensures var more := [entries[0].(before := w)] + entries[1..];
            && WriteEntries(more) == w + WriteEntries(entries) && MeaningEntries(more) == MeaningEntries(entries)
            && (EntriesOnce(entries) ==> EntriesOnce(more)) && |more| == |entries|
            && forall i :: 0 <= i < |more| ==> WellEntry(more[i]) && WellWritten(more[i].tree)
  {
    hide Write, Meaning, KeysOnce, Spelling, WellSpelled, WellWritten, WriteEntries, WriteEntry, MeaningEntries, Characters;
    var more := [entries[0].(before := w)] + entries[1..];
    assert more[1..] == entries[1..];
    SpaceBeforeEntry(entries[0], w);
    WriteFromEntry(entries);
    WriteFromEntry(more);
  }

  lemma SpaceBeforeEntry(entry: Entry, w: Text)
    requires entry.before == []
    ensures WriteEntry(entry.(before := w)) == w + WriteEntry(entry)
  {
    hide Write, Spelling;
  }

  /** What stands behind the first member. */
  function RestOfEntries(entries: seq<Entry>): Text {
    if entries == [] then [] else [0x2C] + WriteEntries(entries)
  }

  lemma WriteFromEntry(entries: seq<Entry>)
    requires entries != []
    ensures WriteEntries(entries) == WriteEntry(entries[0]) + RestOfEntries(entries[1..])
    ensures MeaningEntries(entries)
         == [Keyed(Characters(entries[0].key), Meaning(entries[0].tree))] + MeaningEntries(entries[1..])
  {
    hide WriteEntry, Meaning, Characters;
  }

  /** One member as it was read. */
  lemma {:induction false} EntryIsRead(s: Text) returns (entry: Entry)
    requires ScanMember(s).Done?
    ensures WellEntry(entry) && entry.before == [] && entry.after == [] && WellWritten(entry.tree) && KeysOnce(entry.tree)
    ensures Keyed(Characters(entry.key), Meaning(entry.tree)) == ScanMember(s).value
    ensures s == WriteEntry(entry) + ScanMember(s).rest
    decreases |s|, 2
  {
    hide SkipSpace, ScanString, ScanValue, Write, Meaning, KeysOnce, WellWritten, WellSpelled, Spelling;
    var key := StringIsSpelled(s[1..]);
    var colon := SkipSpace(ScanString(s[1..]).rest);
    var beforeColon := SkippedAreSpaces(ScanString(s[1..]).rest);
    var afterColon := SkippedAreSpaces(colon[1..]);
    var value := SkipSpace(colon[1..]);
    var tree := TreeIsRead(value);
    entry := Entry.Entry([], key, beforeColon, afterColon, tree, []);
    var rest := ScanValue(value).rest;
    assert s == [0x22] + s[1..] && colon == [0x3A] + colon[1..];
    WrittenOut(entry, s, colon, value, rest);
  }

  lemma WrittenOut(entry: Entry, s: Text, colon: Text, value: Text, rest: Text)
    requires entry.before == [] && entry.after == []
    requires s == [0x22] + (Spelling(entry.key) + [0x22] + (entry.beforeColon + colon))
    requires colon == [0x3A] + (entry.afterColon + value) && value == Write(entry.tree) + rest
    ensures s == WriteEntry(entry) + rest
  {
    hide Spelling, Write;
    var (w, v) := (Write(entry.tree), entry.afterColon);
    assert entry.afterColon + value == entry.afterColon + w + rest;
    assert WriteEntry(entry) == [0x22] + Spelling(entry.key) + [0x22] + entry.beforeColon + [0x3A] + v + w;
  }

  lemma {:induction false} EntriesAreRead(s: Text) returns (entries: seq<Entry>)
    requires ScanMembers(s).Done?
    ensures AreEntriesOf(entries, s, ScanMembers(s).value, ScanMembers(s).rest)
    decreases |s|, 3
  {
    hide SkipSpace, ScanMembers, ScanMember, Write, Meaning, KeysOnce, WellWritten, WellSpelled, Spelling, WriteEntry;
    EndOfMembers(s);
    var head := EntryIsRead(s);
    var middle := ScanMember(s).rest;
    var w := SkippedAreSpaces(middle);
    var after := SkipSpace(middle);
    var entry := head.(after := w);
    assert s == WriteEntry(entry) + after by { SpaceBehind(head, w); }
    if after[0] == 0x7D {
      entries := [entry];
      assert WriteEntries(entries) == WriteEntry(entry);
      assert after == [0x7D] + after[1..];
    } else {
      var gap := SkippedAreSpaces(after[1..]);
      var next := EntriesAreRead(SkipSpace(after[1..]));
      FirstEntrySpaced(next, gap);
      var more := [next[0].(before := gap)] + next[1..];
      entries := [entry] + more;
      assert entries[1..] == more;
      assert after == [0x2C] + after[1..];
      assert after[1..] == WriteEntries(more) + [0x7D] + ScanMembers(s).rest;
      assert WriteEntries(entries) == WriteEntry(entry) + ([0x2C] + WriteEntries(more));
    }
  }

  lemma SpaceBehind(head: Entry, w: Text)
    requires head.after == []
    ensures WriteEntry(head.(after := w)) == WriteEntry(head) + w
  {
    hide Spelling, Write;
  }

  /** The reader accepts exactly the texts that the grammar writes, each with the one value it means. */
  lemma ReadsExactly(t: Text, v: Json)
    ensures ReadText(t) == Ok(v) <==>
      exists before, tree, after :: IsText(t, before, tree, after) && KeysOnce(tree) && Meaning(tree) == v
  {
    hide SkipSpace, ScanValue, Write, Meaning, KeysOnce, WellWritten;
    if ReadText(t) == Ok(v) {
      var before := SkippedAreSpaces(t);
      var tree := TreeIsRead(SkipSpace(t));
      var after := SkippedAreSpaces(ScanValue(SkipSpace(t)).rest);
      assert t == before + Write(tree) + after;
      assert IsText(t, before, tree, after);
    }
    if before, tree, after :| IsText(t, before, tree, after) && KeysOnce(tree) && Meaning(tree) == v {
      WrittenIsRead(before, tree, after);
    }
  }

  /** A whole text: a value with space around it. */
  predicate IsText(t: Text, before: Text, tree: Tree, after: Text) {
    Spaces(before) && Spaces(after) && WellWritten(tree) && t == before + Write(tree) + after
  }
}
