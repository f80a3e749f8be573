/** The message format of the list as a grammar of its own, and what the parser makes of any message, whoever
    wrote it. */
module MailGrammar {
  import opened Prelude
  import opened Utf8
  import opened JsonNumber
  import opened Json
  import opened JsonOrder
  import opened PyText
  import opened MailMessage

  // Lines and line breaks

  /** A line and what ends it; nothing may end the last one. */
  datatype Piece = Piece(line: Text, end: Text)

  predicate IsLineBreak(t: Text) {
    || t == [0x0A] || t == [0x0D] || t == [0x0D, 0x0A] || t == [0x0B] || t == [0x0C] || t == [0x1C] || t == [0x1D]
    || t == [0x1E] || t == [0x85] || t == [0x2028] || t == [0x2029]
  }

  function Glue(pieces: seq<Piece>): Text {
    if pieces == [] then [] else pieces[0].line + pieces[0].end + Glue(pieces[1..])
  }

  function Lines(pieces: seq<Piece>): seq<Text> {
    if pieces == [] then [] else [pieces[0].line] + Lines(pieces[1..])
  }

  /** None of the eleven breaks is in a line. */
  predicate HoldsNoBreak(line: Text) {
    forall i :: 0 <= i < |line| ==> !IsLineBreak([line[i]])
  }

  /** A carriage return and a newline behind it are one break. */
  predicate Falls(p: Piece, rest: Text) {
    !(p.end == [0x0D] && rest != [] && rest[0] == 0x0A)
  }

  predicate WellBroken(pieces: seq<Piece>) {
    pieces == [] ||
    (&& HoldsNoBreak(pieces[0].line)
     && (IsLineBreak(pieces[0].end) || (pieces[0].end == [] && pieces[0].line != [] && |pieces| == 1))
     && Falls(pieces[0], Glue(pieces[1..]))
     && WellBroken(pieces[1..]))
  }

  lemma BreakIsSeparator(c: CodePoint)
    ensures IsSeparator(c) <==> IsLineBreak([c])
  {
    assert [c][0] == c;
  }

  lemma PlainHoldsNoBreak(line: Text)
    ensures Plain(line) <==> HoldsNoBreak(line)
  {
    forall i | 0 <= i < |line| ensures IsSeparator(line[i]) <==> IsLineBreak([line[i]]) { BreakIsSeparator(line[i]); }
  }

  lemma SplitOnce(line: Text, end: Text, rest: Text)
    requires Plain(line) && IsLineBreak(end) && Falls(Piece(line, end), rest)
    ensures SplitLines(line + end + rest) == [line] + SplitLines(rest)
  {
    hide FirstSeparator, Plain;
    var s := line + end + rest;
    var n := |line|;
    assert s[..n] == line && s[n] == end[0];
    BreakIsSeparator(end[0]);
    assert IsSeparator(end[0]) by { if |end| == 2 { BreakIsSeparator(0x0D); } else { assert end == [end[0]]; } }
    FirstSeparatorIs(s, n);
    if |end| == 2 { assert s[n + 1] == end[1]; } else if rest != [] { assert s[n + 1] == rest[0]; }
    assert s[n + |end|..] == rest;
  }

  /** Splitting gives the lines of whatever pieces make up a text. */
  lemma {:induction false} SplitExactly(pieces: seq<Piece>)
    requires WellBroken(pieces)
    ensures SplitLines(Glue(pieces)) == Lines(pieces)
  {
    hide SplitLines, Falls, IsLineBreak, HoldsNoBreak;
    if pieces == [] {
      SplitNothing();
    } else {
      var p := pieces[0];
      PlainHoldsNoBreak(p.line);
      SplitExactly(pieces[1..]);
      if IsLineBreak(p.end) {
        SplitOnce(p.line, p.end, Glue(pieces[1..]));
      } else {
        SplitOne(p.line);
        assert pieces[1..] == [];
        assert p.line + [] + [] == p.line;
        assert Lines(pieces) == [p.line];
      }
    }
  }

  /** And every text is made up of pieces. */
  lemma {:induction false} PiecesOf(s: Text) returns (pieces: seq<Piece>)
    ensures WellBroken(pieces) && Glue(pieces) == s
    decreases |s|
  {
    hide IsSeparator, IsOtherSeparator, IsLineBreak, HoldsNoBreak, Falls, Plain;
    if s == [] {
      pieces := [];
    } else {
      var n := FirstSeparator(s);
      PlainHoldsNoBreak(s[..n]);
      if n == |s| {
        assert s[..n] == s;
        pieces := [Piece(s, [])];
        OnePiece(s);
      } else {
        var width := BreakAt(s, n);
        var more := PiecesOf(s[n + width..]);
        var p := Piece(s[..n], s[n..n + width]);
        pieces := [p] + more;
        assert pieces[1..] == more;
        assert s == p.line + p.end + s[n + width..];
      }
    }
  }

  lemma OnePiece(line: Text)
    requires HoldsNoBreak(line) && line != []
    ensures WellBroken([Piece(line, [])]) && Glue([Piece(line, [])]) == line
  {
    hide HoldsNoBreak, IsLineBreak;
    assert [Piece(line, [])][1..] == [];
    assert line + [] + [] == line;
  }

  lemma BreakAt(s: Text, n: nat) returns (width: nat)
    requires n < |s| && IsSeparator(s[n])
    ensures 1 <= width && n + width <= |s| && IsLineBreak(s[n..n + width])
    ensures Falls(Piece(s[..n], s[n..n + width]), s[n + width..])
  {
    BreakIsSeparator(s[n]);
    width := if s[n] == RETURN && n + 1 < |s| && s[n + 1] == NEWLINE then 2 else 1;
    assert s[n..n + width] == if width == 2 then [0x0D, 0x0A] else [s[n]];
  }

  // Trailers

  datatype Trailer = IdLine(t: Text) | ReplyLine(t: Text) | LinkLine(p: Pair) | RefLine(p: Pair)

  function PairText(p: Pair): Text {
    p.key + T("=") + p.value
  }

  function LineText(l: Trailer): Text {
    match l
    case IdLine(t) => T("Message-Id: ") + t
    case ReplyLine(t) => T("In-Reply-To: ") + t
    case LinkLine(p) => T("Link: ") + PairText(p)
    case RefLine(p) => T("Ref: ") + PairText(p)
  }

  predicate WellTrailer(l: Trailer) {
    match l
    case IdLine(t) => t != []
    case ReplyLine(t) => t != []
    case LinkLine(p) => p.key != [] && EQUALS !in p.key
    case RefLine(p) => p.key != [] && EQUALS !in p.key
  }

  function Texts(ls: seq<Trailer>): (lines: seq<Text>)
    ensures |lines| == |ls| && forall i :: 0 <= i < |ls| ==> lines[i] == LineText(ls[i])
  {
    seq(|ls|, i requires 0 <= i < |ls| => LineText(ls[i]))
  }

  /** The identity that the lines give, the last of them counting. */
  function IdOf(ls: seq<Trailer>): Option<Text> {
    if ls == [] then None else if ls[|ls| - 1].IdLine? then Some(ls[|ls| - 1].t) else IdOf(ls[..|ls| - 1])
  }

  function ReplyOf(ls: seq<Trailer>): Option<Text> {
    if ls == [] then None else if ls[|ls| - 1].ReplyLine? then Some(ls[|ls| - 1].t) else ReplyOf(ls[..|ls| - 1])
  }

  function LinksOf(ls: seq<Trailer>): seq<Pair> {
    if ls == [] then [] else LinksOf(ls[..|ls| - 1]) + if ls[|ls| - 1].LinkLine? then [ls[|ls| - 1].p] else []
  }

  function RefsOf(ls: seq<Trailer>): seq<Pair> {
    if ls == [] then [] else RefsOf(ls[..|ls| - 1]) + if ls[|ls| - 1].RefLine? then [ls[|ls| - 1].p] else []
  }

  /** Trailers in any order, with one identity and one reply at most. */
  predicate WellTrailers(ls: seq<Trailer>) {
    && (forall i :: 0 <= i < |ls| ==> WellTrailer(ls[i]))
    && forall i, j :: 0 <= i < j < |ls| ==> !(ls[i].IdLine? && ls[j].IdLine?) && !(ls[i].ReplyLine? && ls[j].ReplyLine?)
  }

  function Bare(kind: Text, subject: Text, body: Text): Parsed {
    Parsed(kind, subject, body, None, None, map[], map[])
  }

  function Filled(start: Parsed, ls: seq<Trailer>): Parsed {
    start.(messageId := IdOf(ls), inReplyTo := ReplyOf(ls), links := Regrouped(LinksOf(ls)), refs := Regrouped(RefsOf(ls)))
  }

  // The trailer loop on any lines

  lemma WellFront(before: seq<Trailer>, l: Trailer)
    ensures WellTrailers(before + [l]) <==>
      && WellTrailers(before) && WellTrailer(l)
      && (l.IdLine? ==> IdOf(before).None?) && (l.ReplyLine? ==> ReplyOf(before).None?)
  {
    var ls := before + [l];
    assert forall i :: 0 <= i < |before| ==> ls[i] == before[i];
    assert ls[|before|] == l;
    IdOfNone(before);
    ReplyOfNone(before);
  }

  lemma {:induction false} IdOfNone(ls: seq<Trailer>)
    ensures IdOf(ls).None? <==> forall i :: 0 <= i < |ls| ==> !ls[i].IdLine?
  {
    if ls != [] {
      var n := |ls| - 1;
      IdOfNone(ls[..n]);
      assert forall i :: 0 <= i < n ==> ls[..n][i] == ls[i];
    }
  }

  lemma {:induction false} ReplyOfNone(ls: seq<Trailer>)
    ensures ReplyOf(ls).None? <==> forall i :: 0 <= i < |ls| ==> !ls[i].ReplyLine?
  {
    if ls != [] {
      var n := |ls| - 1;
      ReplyOfNone(ls[..n]);
      assert forall i :: 0 <= i < n ==> ls[..n][i] == ls[i];
    }
  }

  lemma FilledMore(start: Parsed, before: seq<Trailer>, l: Trailer)
    ensures Filled(start, before + [l]) == match l
            case IdLine(t) => Filled(start, before).(messageId := Some(t))
            case ReplyLine(t) => Filled(start, before).(inReplyTo := Some(t))
            case LinkLine(p) => Filled(start, before).(links := Regrouped(LinksOf(before) + [p]))
            case RefLine(p) => Filled(start, before).(refs := Regrouped(RefsOf(before) + [p]))
  {
    hide Regrouped;
    assert (before + [l])[..|before|] == before;
    assert LinksOf(before) + [] == LinksOf(before) && RefsOf(before) + [] == RefsOf(before);
  }

  /** How a line starts. */
  lemma LineStarts(l: Trailer)
    ensures MESSAGE_ID <= LineText(l) <==> l.IdLine?
    ensures IN_REPLY_TO <= LineText(l) <==> l.ReplyLine?
    ensures LINK <= LineText(l) <==> l.LinkLine?
    ensures REF <= LineText(l) <==> l.RefLine?
    ensures l.IdLine? ==> LineText(l)[|MESSAGE_ID|..] == l.t && (LineText(l) == MESSAGE_ID <==> l.t == [])
    ensures l.ReplyLine? ==> LineText(l)[|IN_REPLY_TO|..] == l.t && (LineText(l) == IN_REPLY_TO <==> l.t == [])
    ensures l.LinkLine? ==> LineText(l)[|LINK|..] == PairText(l.p)
    ensures l.RefLine? ==> LineText(l)[|REF|..] == PairText(l.p)
  {
    hide PairText;
    assert MESSAGE_ID[0] == 0x4D && IN_REPLY_TO[0] == 0x49 && LINK[0] == 0x4C && REF[0] == 0x52;
    var line := LineText(l);
    match l
    case IdLine(t) => assert line[0] == MESSAGE_ID[0] && line == MESSAGE_ID + t;
    case ReplyLine(t) => assert line[0] == IN_REPLY_TO[0] && line == IN_REPLY_TO + t;
    case LinkLine(p) => assert line[0] == LINK[0] && line == LINK + PairText(p);
    case RefLine(p) => assert line[0] == REF[0] && line == REF + PairText(p);
  }

  /** A pair is cut at its first "=". */
  lemma PairIsSplit(p: Pair)
    requires EQUALS !in p.key
    ensures Find(PairText(p), [EQUALS], 0) == Some(|p.key|)
    ensures PairText(p)[..|p.key|] == p.key && PairText(p)[|p.key| + 1..] == p.value
  {
    var rest := PairText(p);
    assert T("=") == [EQUALS];
    assert At(rest, [EQUALS], |p.key|);
    forall j | 0 <= j < |p.key| ensures !At(rest, [EQUALS], j) {
      assert rest[j..j + 1] == [rest[j]] && rest[j] == p.key[j] && p.key[j] in p.key;
    }
    FindIs(rest, [EQUALS], |p.key|);
  }

  lemma LinesSplit(l: Trailer)
    requires WellTrailer(l)
    ensures SplitPair(LINK, LineText(l)) == if l.LinkLine? then Some(l.p) else None
    ensures SplitPair(REF, LineText(l)) == if l.RefLine? then Some(l.p) else None
  {
    hide Find, LineText, PairText;
    LineStarts(l);
    if l.LinkLine? || l.RefLine? { PairIsSplit(l.p); }
  }

  /** One line behind well-written ones is taken exactly as the grammar says. */
  lemma TrailerIsRead(start: Parsed, before: seq<Trailer>, l: Trailer)
    requires WellTrailers(before) && WellTrailer(l)
    ensures ReadTrailer(Filled(start, before), LineText(l))
         == if WellTrailers(before + [l]) then Some(Filled(start, before + [l])) else None
  {
    hide SplitPair, LineText, Regrouped, AddValue, IdOf, ReplyOf, LinksOf, RefsOf;
    LineStarts(l);
    LinesSplit(l);
    WellFront(before, l);
    FilledMore(start, before, l);
    match l
    case LinkLine(p) => RegroupedGrows(LinksOf(before), p);
    case RefLine(p) => RegroupedGrows(RefsOf(before), p);
    case _ =>
  }

  lemma PairOfSplit(prefix: Text, line: Text) returns (p: Pair)
    requires SplitPair(prefix, line).Some?
    ensures p == SplitPair(prefix, line).value && EQUALS !in p.key && line == prefix + PairText(p)
  {
    var rest := line[|prefix|..];
    var k := Find(rest, [EQUALS], 0).value;
    p := Keyed(rest[..k], rest[k + 1..]);
    assert T("=") == [EQUALS] == rest[k..k + 1];
    assert rest == rest[..k] + rest[k..k + 1] + rest[k + 1..];
    forall j | 0 <= j < k ensures rest[j] != EQUALS {
      assert !At(rest, [EQUALS], j);
      assert rest[j..j + 1] == [rest[j]];
    }
  }

  /** Whatever line the loop takes is one of the four. */
  lemma LineIsTrailer(p: Parsed, line: Text) returns (l: Trailer)
    requires ReadTrailer(p, line).Some?
    ensures WellTrailer(l) && LineText(l) == line
  {
    hide Find, PairText;
    if MESSAGE_ID <= line {
      l := IdLine(line[|MESSAGE_ID|..]);
      assert line == MESSAGE_ID + l.t;
    } else if IN_REPLY_TO <= line {
      l := ReplyLine(line[|IN_REPLY_TO|..]);
      assert line == IN_REPLY_TO + l.t;
    } else if SplitPair(LINK, line).Some? {
      var pair := PairOfSplit(LINK, line);
      l := LinkLine(pair);
    } else {
      var pair := PairOfSplit(REF, line);
      l := RefLine(pair);
    }
  }

  lemma {:induction false} TrailersWritten(start: Parsed, before: seq<Trailer>, ls: seq<Trailer>)
    requires WellTrailers(before + ls)
    ensures ReadTrailers(Filled(start, before), Texts(ls)) == Some(Filled(start, before + ls))
    decreases |ls|
  {
    hide ReadTrailer, Filled, LineText, WellTrailer;
    if ls == [] {
      assert before + ls == before;
    } else {
      WellPrefix(before, ls);
      WellPrefix(before + [ls[0]], ls[1..]);
      assert before + [ls[0]] + ls[1..] == before + ls;
      TrailerIsRead(start, before, ls[0]);
      TrailersWritten(start, before + [ls[0]], ls[1..]);
      assert Texts(ls)[1..] == Texts(ls[1..]);
    }
  }

  lemma WellPrefix(before: seq<Trailer>, ls: seq<Trailer>)
    ensures WellTrailers(before + ls) ==> WellTrailers(before)
    ensures WellTrailers(before + ls) && ls != [] ==> WellTrailers(before + [ls[0]]) && WellTrailer(ls[0])
  {
    hide WellTrailer;
    var all := before + ls;
    assert forall i :: 0 <= i < |before| ==> all[i] == before[i];
    if ls != [] {
      var more := before + [ls[0]];
      assert all[|before|] == ls[0];
      assert forall i :: 0 <= i < |more| ==> more[i] == all[i];
    }
  }

  lemma {:induction false} TrailersRead(start: Parsed, before: seq<Trailer>, lines: seq<Text>) returns (ls: seq<Trailer>)
    requires WellTrailers(before) && ReadTrailers(Filled(start, before), lines).Some?
    ensures WellTrailers(before + ls) && Texts(ls) == lines
    ensures ReadTrailers(Filled(start, before), lines).value == Filled(start, before + ls)
    decreases |lines|
  {
    hide ReadTrailer, Filled, LineText, WellTrailers;
    if lines == [] {
      ls := [];
      assert before + ls == before;
    } else {
      var l := LineIsTrailer(Filled(start, before), lines[0]);
      TrailerIsRead(start, before, l);
      var more := TrailersRead(start, before + [l], lines[1..]);
      ls := [l] + more;
      assert before + [l] + more == before + ls;
      assert Texts(ls) == [LineText(l)] + Texts(more);
      assert lines == [lines[0]] + lines[1..];
    }
  }

  /** The trailer loop takes exactly lines that are trailers, in any order and mixture, with one identity and
      one reply at most, and gives what they say. */
  lemma TrailersExactly(kind: Text, subject: Text, body: Text, lines: seq<Text>, q: Parsed)
    ensures ReadTrailers(Bare(kind, subject, body), lines) == Some(q) <==>
      exists ls :: WellTrailers(ls) && Texts(ls) == lines && q == Filled(Bare(kind, subject, body), ls)
  {
    hide ReadTrailers, WellTrailers;
    var start := Bare(kind, subject, body);
    NothingRegrouped();
    assert Filled(start, []) == start;
    assert WellTrailers([]) by { NoTrailers(); }
    if ReadTrailers(start, lines).Some? {
      var ls := TrailersRead(start, [], lines);
      assert [] + ls == ls;
      if ReadTrailers(start, lines) == Some(q) { assert q == Filled(start, ls); }
    }
    forall ls | WellTrailers(ls) && Texts(ls) == lines ensures ReadTrailers(start, lines) == Some(Filled(start, ls)) {
      assert [] + ls == ls;
      TrailersWritten(start, [], ls);
    }
  }

  lemma NoTrailers()
    ensures WellTrailers([])
  {
  }

  // Whole messages

  /** One of the 26 small letters. */
  predicate IsSmall(c: CodePoint) {
    0 <= c - 0x61 < 26
  }

  predicate IsDecimalDigit(c: CodePoint) {
    0 <= c - 0x30 < 10
  }

  /** At most 64 small letters, digits, "_" and "-", of which the first is a letter. */
  predicate IsKindText(t: Text) {
    && 0 < |t| < 65 && IsSmall(t[0])
    && forall i :: 0 <= i < |t| ==> IsSmall(t[i]) || IsDecimalDigit(t[i]) || t[i] in T("_-")
  }

  lemma KindExactly(t: Text)
    ensures IsKind(t) <==> IsKindText(t)
  {
    assert T("_-") == [0x5F, 0x2D];
    hide T;
  }

  /** Letter for letter, with the small ones made capital. */
  predicate IsCapital(t: Text, kind: Text) {
    |t| == |kind| && forall i :: 0 <= i < |kind| ==> t[i] == if 0x61 <= kind[i] <= 0x7A then kind[i] - 0x20 else kind[i]
  }

  function Gap(): Text {
    [0x0A, 0x0A]
  }

  /** No blank line begins in the text, counting the newline behind it. */
  predicate HasNoGap(t: Text) {
    forall j :: 0 <= j < |t| ==> !At(t + [0x0A], Gap(), j)
  }

  /** A message of the list: the header line, the body, and a last paragraph that begins with the kind and
      holds no later one, behind which only newlines stand. */
  ghost predicate IsMessage(message: Text, header: Text, kind: Text, subject: Text, body: Text, foot: Text, ls: seq<Trailer>) {
    && IsKindText(kind) && |header| == |kind| + 2 + |subject|
    && IsCapital(header[..|kind|], kind) && header == header[..|kind|] + T(": ") + subject && HasNoGap(header)
    && SplitLines(foot) == [T("Kind: ") + kind] + Texts(ls) && WellTrailers(ls)
    && foot != [] && foot[|foot| - 1] != 0x0A && (forall j :: !At(foot, Gap() + T("Kind: "), j))
    && StripsTo(message, header + Gap() + (body + Gap() + foot))
  }

  /** The text and any number of newlines. */
  predicate StripsTo(message: Text, text: Text) {
    |text| <= |message| && message[..|text|] == text && forall i :: |text| <= i < |message| ==> message[i] == 0x0A
  }

  lemma {:induction false} StripIsText(message: Text, text: Text)
    requires StripsTo(message, text) && text != [] && text[|text| - 1] != NEWLINE
    ensures StripNewlines(message) == text
  {
    if |message| > |text| {
      StripIsText(message[..|message| - 1], text);
    } else {
      assert message == text;
    }
  }

  lemma {:induction false} TextIsStripped(message: Text)
    ensures StripsTo(message, StripNewlines(message))
  {
    if message != [] && message[|message| - 1] == NEWLINE {
      var front := message[..|message| - 1];
      TextIsStripped(front);
      assert message[..|StripNewlines(front)|] == front[..|StripNewlines(front)|];
    }
  }

  lemma GapAt(header: Text, rest: Text, j: nat)
    requires j < |header|
    ensures At(header + Gap() + rest, Gap(), j) <==> At(header + [0x0A], Gap(), j)
  {
    var (s, t) := (header + Gap() + rest, header + [0x0A]);
    assert s[j..j + 2] == t[j..j + 2];
  }

  lemma HeaderEndsAt(header: Text, rest: Text)
    requires HasNoGap(header)
    ensures Find(header + Gap() + rest, BLANK_LINE, 0) == Some(|header|)
  {
    var s := header + Gap() + rest;
    assert s[|header|..|header| + 2] == Gap();
    forall j | 0 <= j < |header| ensures !At(s, BLANK_LINE, j) { GapAt(header, rest, j); }
    FindIs(s, BLANK_LINE, |header|);
  }

  lemma AtCharacter(s: Text, pattern: Text, i: nat, m: nat)
    requires m < |pattern|
    ensures At(s, pattern, i) ==> i + m < |s| && s[i + m] == pattern[m]
  {
    if At(s, pattern, i) { assert s[i..i + |pattern|][m] == s[i + m]; }
  }

  lemma FindFits(s: Text, pattern: Text, k: nat)
    requires Find(s, pattern, 0) == Some(k)
    ensures k + |pattern| <= |s| && s[k..k + |pattern|] == pattern && forall j :: 0 <= j < k ==> !At(s, pattern, j)
  {
    hide Find;
  }

  lemma RFindFits(s: Text, pattern: Text, k: nat)
    requires RFind(s, pattern) == Some(k)
    ensures k + |pattern| <= |s| && s[k..k + |pattern|] == pattern && forall j :: k < j ==> !At(s, pattern, j)
  {
    hide RFind;
  }

  lemma FootBegins(foot: Text, j: nat)
    requires KIND <= foot
    ensures !At([0x0A] + foot, Gap() + KIND, 0)
    ensures j >= 1 ==> (At([0x0A] + foot, Gap() + KIND, j) <==> At(foot, Gap() + KIND, j - 1))
  {
    var s := [0x0A] + foot;
    assert s[1] == foot[0] == KIND[0] && KIND[0] == 0x4B && (Gap() + KIND)[1] == 0x0A;
    AtCharacter(s, Gap() + KIND, 0, 1);
    if j >= 1 && j + |Gap() + KIND| <= |s| { assert s[j..j + |Gap() + KIND|] == foot[j - 1..j - 1 + |Gap() + KIND|]; }
  }

  lemma BodyEndsAt(body: Text, foot: Text)
    requires KIND <= foot && forall j :: !At(foot, Gap() + KIND, j)
    ensures RFind(body + Gap() + foot, BLANK_LINE + KIND) == Some(|body|)
  {
    var s := body + Gap() + foot;
    var n := |Gap() + KIND|;
    assert s[|body|..|body| + n] == Gap() + KIND by {
      assert s[|body|..] == Gap() + foot && foot[..|KIND|] == KIND;
    }
    forall j | |body| < j ensures !At(s, BLANK_LINE + KIND, j) {
      if j + n <= |s| {
        var m := j - |body| - 1;
        FootBegins(foot, m);
        assert s[|body| + 1..] == [0x0A] + foot;
        assert s[j..j + n] == ([0x0A] + foot)[m..m + n];
      }
    }
    RFindIs(s, BLANK_LINE + KIND, |body|);
  }

  lemma CapitalIs(t: Text, kind: Text)
    ensures IsCapital(t, kind) <==> t == Upper(kind)
  {
  }

  /** The first line of a last paragraph begins as the paragraph does. */
  lemma FirstLineBegins(foot: Text)
    requires KIND <= foot
    ensures SplitLines(foot) != [] && KIND <= SplitLines(foot)[0]
  {
    hide IsLineBreak;
    var n := FirstSeparator(foot);
    assert Plain(KIND);
    forall i | 0 <= i < |KIND| ensures !IsSeparator(foot[i]) { assert foot[i] == KIND[i]; }
    assert foot[..n][..|KIND|] == KIND;
    if n == |foot| { assert foot[..n] == foot; }
  }

  lemma PrefixOfLines(foot: Text, kind: Text, lines: seq<Text>)
    requires SplitLines(foot) == [KIND + kind] + lines
    ensures KIND <= foot
  {
    var n := FirstSeparator(foot);
    assert SplitLines(foot)[0] == KIND + kind;
    assert foot[..n] == KIND + kind by { if n == |foot| { assert foot[..n] == foot; } }
    assert foot[..|KIND|] == foot[..n][..|KIND|];
  }

  /** A message of the list is read as what it says. */
  lemma MessageIsRead(message: Text, header: Text, kind: Text, subject: Text, body: Text, foot: Text, ls: seq<Trailer>)
    requires IsMessage(message, header, kind, subject, body, foot, ls)
    ensures Parse(message) == Read(Filled(Bare(kind, subject, body), ls))
  {
    hide Find, RFind, StripNewlines, ReadTrailers, SplitLines, WellTrailers, Filled, At, IsKind, IsKindText, IsCapital, HasNoGap, StripsTo, Upper;
    var remainder := body + Gap() + foot;
    var stripped := header + Gap() + remainder;
    assert T(": ") == COLON && T("Kind: ") == KIND && Gap() == BLANK_LINE;
    assert stripped[|stripped| - 1] == foot[|foot| - 1];
    StripIsText(message, stripped);
    PrefixOfLines(foot, kind, Texts(ls));
    HeaderEndsAt(header, remainder);
    BodyEndsAt(body, foot);
    CapitalIs(header[..|kind|], kind);
    KindExactly(kind);
    KindIsPlain(kind);
    PrefixEnds(Upper(kind), subject);
    assert stripped[..|header|] == header && stripped[|header| + 2..] == remainder;
    assert remainder[..|body|] == body && remainder[|body| + 2..] == foot;
    NotGenesis(kind, header, stripped);
    var lines := [KIND + kind] + Texts(ls);
    assert (KIND + kind)[|KIND|..] == kind && lines[0] == KIND + kind && lines[1..] == Texts(ls);
    assert ReadHead(header, body, lines) == Some(Bare(kind, subject, body));
    TrailersExactly(kind, subject, body, Texts(ls), Filled(Bare(kind, subject, body), ls));
  }

  lemma NotGenesis(kind: Text, header: Text, stripped: Text)
    requires IsKind(kind) && |kind| <= |header| && header[..|kind|] == Upper(kind) && header <= stripped
    ensures !(GENESIS <= stripped)
  {
    KindIsPlain(kind);
    assert stripped[0] == header[0] == header[..|kind|][0] == Upper(kind)[0];
    assert GENESIS[0] == 0x6C;
  }

  /** Where the parser cuts a message that it reads. */
  lemma ReadIsCutAt(message: Text) returns (k: nat, start: nat)
    requires Parse(message).Read?
    ensures var stripped := StripNewlines(message);
            && Find(stripped, BLANK_LINE, 0) == Some(k) && k + 2 <= |stripped|
            && RFind(stripped[k + 2..], BLANK_LINE + KIND) == Some(start) && start + 2 <= |stripped| - k - 2
            && var remainder := stripped[k + 2..];
            && var lines := SplitLines(remainder[start + 2..]);
            && var head := ReadHead(stripped[..k], remainder[..start], lines);
            head.Some? && ReadTrailers(head.value, if lines == [] then [] else lines[1..]) == Some(Parse(message).parsed)
  {
    hide Find, RFind, ReadTrailers, ReadHead, SplitLines, At, T;
    k := Find(StripNewlines(message), BLANK_LINE, 0).value;
    FindFits(StripNewlines(message), BLANK_LINE, k);
    start := RFind(StripNewlines(message)[k + 2..], BLANK_LINE + KIND).value;
    RFindFits(StripNewlines(message)[k + 2..], BLANK_LINE + KIND, start);
  }

  /** How the parser cuts a message that it reads. */
  lemma ReadIsCut(message: Text) returns (header: Text, body: Text, foot: Text)
    requires Parse(message).Read?
    ensures StripsTo(message, header + Gap() + (body + Gap() + foot)) && HasNoGap(header)
    ensures KIND <= foot && foot[|foot| - 1] != NEWLINE && forall j :: !At(foot, Gap() + KIND, j)
    ensures var (lines, head) := (SplitLines(foot), ReadHead(header, body, SplitLines(foot)));
            lines != [] && head.Some? && ReadTrailers(head.value, lines[1..]) == Some(Parse(message).parsed)
  {
    hide Parse, Find, RFind, ReadTrailers, ReadHead, SplitLines, At, HasNoGap, StripsTo, T;
    var k, start := ReadIsCutAt(message);
    var stripped := StripNewlines(message);
    var remainder := stripped[k + 2..];
    TextIsStripped(message);
    StrippedParts(stripped, k, start);
    header, body, foot := stripped[..k], remainder[..start], remainder[start + 2..];
    FirstLineBegins(foot);
  }

  /** What the header and the first line of the last paragraph say. */
  lemma HeadIsMeant(header: Text, body: Text, lines: seq<Text>) returns (kind: Text, subject: Text)
    requires lines != [] && KIND <= lines[0] && ReadHead(header, body, lines).Some?
    ensures IsKind(kind) && lines[0] == KIND + kind && ReadHead(header, body, lines).value == Bare(kind, subject, body)
    ensures |header| == |kind| + 2 + |subject| && IsCapital(header[..|kind|], kind)
    ensures header == header[..|kind|] + T(": ") + subject
  {
    hide Find, IsKind, Upper, IsCapital;
    kind := lines[0][|KIND|..];
    var colon := Find(header, COLON, 0).value;
    HeaderParts(header, kind, colon);
    subject := header[colon + 2..];
    CapitalIs(header[..|kind|], kind);
  }

  /** And only messages of the list are read. */
  lemma ReadIsMessage(message: Text) returns (header: Text, kind: Text, subject: Text, body: Text, foot: Text, ls: seq<Trailer>)
    requires Parse(message).Read?
    ensures IsMessage(message, header, kind, subject, body, foot, ls)
    ensures Parse(message).parsed == Filled(Bare(kind, subject, body), ls)
  {
    hide Parse, ReadHead, ReadTrailers, SplitLines, WellTrailers, Filled, At, IsKind, IsKindText, IsCapital, HasNoGap, StripsTo, T, Bare;
    header, body, foot := ReadIsCut(message);
    var lines := SplitLines(foot);
    FirstLineBegins(foot);
    kind, subject := HeadIsMeant(header, body, lines);
    KindExactly(kind);
    TrailersExactly(kind, subject, body, lines[1..], Parse(message).parsed);
    ls :| WellTrailers(ls) && Texts(ls) == lines[1..] && Parse(message).parsed == Filled(Bare(kind, subject, body), ls);
    assert lines == [lines[0]] + lines[1..];
    NotNothing(foot);
  }

  lemma NotNothing(foot: Text)
    requires KIND <= foot
    ensures foot != []
  {
  }

  lemma StrippedParts(stripped: Text, k: nat, start: nat)
    requires Find(stripped, BLANK_LINE, 0) == Some(k) && k + 2 <= |stripped|
    requires RFind(stripped[k + 2..], BLANK_LINE + KIND) == Some(start)
    requires stripped == [] || stripped[|stripped| - 1] != NEWLINE
    ensures var (header, remainder) := (stripped[..k], stripped[k + 2..]);
            && start + 2 <= |remainder|
            && var (body, foot) := (remainder[..start], remainder[start + 2..]);
            && stripped == header + Gap() + (body + Gap() + foot) && HasNoGap(header)
            && KIND <= foot && foot[|foot| - 1] != NEWLINE && forall j :: !At(foot, Gap() + KIND, j)
  {
    hide Find, RFind, At, HasNoGap, T;
    var remainder := stripped[k + 2..];
    FindFits(stripped, BLANK_LINE, k);
    RFindFits(remainder, BLANK_LINE + KIND, start);
    var (body, foot) := (remainder[..start], remainder[start + 2..]);
    CutOut(stripped, k, Gap());
    CutTwo(remainder, start, Gap(), KIND);
    NoGapInFront(stripped, k);
    NoLaterKind(remainder, start, foot);
    assert foot[|foot| - 1] == stripped[|stripped| - 1];
  }

  lemma CutOut(s: Text, k: nat, pattern: Text)
    requires k + |pattern| <= |s| && s[k..k + |pattern|] == pattern
    ensures s == s[..k] + pattern + s[k + |pattern|..]
  {
  }

  lemma CutTwo(s: Text, k: nat, a: Text, b: Text)
    requires k + |a + b| <= |s| && s[k..k + |a + b|] == a + b
    ensures k + |a| <= |s| && s == s[..k] + a + s[k + |a|..] && b <= s[k + |a|..]
  {
    assert s[k..k + |a|] == (a + b)[..|a|] == a;
    assert s[k + |a|..][..|b|] == (a + b)[|a|..] == b;
    CutOut(s, k, a);
  }

  lemma NoGapInFront(s: Text, k: nat)
    requires k + 2 <= |s| && s[k..k + 2] == Gap() && forall j :: 0 <= j < k ==> !At(s, BLANK_LINE, j)
    ensures HasNoGap(s[..k])
  {
    CutOut(s, k, Gap());
    forall j | 0 <= j < k ensures !At(s[..k] + [0x0A], Gap(), j) { GapAt(s[..k], s[k + 2..], j); }
  }

  lemma NoLaterKind(remainder: Text, start: nat, foot: Text)
    requires start + 2 <= |remainder| && forall j :: start < j ==> !At(remainder, BLANK_LINE + KIND, j)
    requires foot == remainder[start + 2..]
    ensures forall j :: !At(foot, Gap() + KIND, j)
  {
    var n := |Gap() + KIND|;
    forall j ensures !At(foot, Gap() + KIND, j) {
      if 0 <= j && j + n <= |foot| {
        assert !At(remainder, BLANK_LINE + KIND, start + 2 + j);
        assert foot[j..j + n] == remainder[start + 2 + j..start + 2 + j + n];
      }
    }
  }

  lemma HeaderParts(header: Text, kind: Text, colon: nat)
    requires Find(header, COLON, 0) == Some(colon) && header[..colon] == Upper(kind)
    ensures colon == |kind| && colon + 2 <= |header| && header == header[..|kind|] + COLON + header[colon + 2..]
  {
    hide Find, T, Upper;
    UpperKeepsLength(kind);
    FindFits(header, COLON, colon);
    CutOut(header, colon, COLON);
  }

  /** The parser reads exactly the messages of the list, whoever wrote them and with whatever line breaks, and
      reads them as what they say. */
  lemma MessageExactly(message: Text, q: Parsed)
    ensures Parse(message) == Read(q) <==>
      exists header, kind, subject, body, foot, ls ::
        IsMessage(message, header, kind, subject, body, foot, ls) && q == Filled(Bare(kind, subject, body), ls)
  {
    hide Parse, IsMessage, Filled;
    if Parse(message) == Read(q) {
      var header, kind, subject, body, foot, ls := ReadIsMessage(message);
    }
    forall header, kind, subject, body, foot, ls | IsMessage(message, header, kind, subject, body, foot, ls)
      ensures Parse(message) == Read(Filled(Bare(kind, subject, body), ls))
    {
      MessageIsRead(message, header, kind, subject, body, foot, ls);
    }
  }

  lemma {:induction false} PrefixUnderStrip(message: Text, first: Text)
    requires first != [] && first[|first| - 1] != NEWLINE
    ensures first <= StripNewlines(message) <==> first <= message
  {
    if message != [] && message[|message| - 1] == NEWLINE {
      var front := message[..|message| - 1];
      PrefixUnderStrip(front, first);
      if first <= message {
        assert first[|first| - 1] == message[|first| - 1];
        assert front[..|first|] == message[..|first|];
      }
      if first <= front { assert message[..|first|] == front[..|first|]; }
    }
  }

  /** The genesis is what begins with its line, and nothing else. */
  lemma GenesisExactly(message: Text)
    ensures Parse(message) == Genesis <==> T("list: genesis") <= message
  {
    hide Find, RFind, ReadHead, ReadTrailers, SplitLines, StripNewlines;
    assert GENESIS[|GENESIS| - 1] == 0x73;
    PrefixUnderStrip(message, GENESIS);
  }

  // What `post` takes as a mapping

  /** A mapping is taken if and only if each of its names goes with each of its values, and with an empty one,
      as a pair; every pair it is turned into is one. */
  lemma NormalizeExactly(items: Mapping)
    ensures Normalize(items).Some? <==>
      forall i :: 0 <= i < |items| ==>
        ValidPair(Keyed(items[i].key, [])) && forall v :: v in items[i].value ==> ValidPair(Keyed(items[i].key, v))
    ensures Normalize(items).Some? ==> forall k :: 0 <= k < |Normalize(items).value| ==> ValidPair(Normalize(items).value[k])
  {
    forall i | 0 <= i < |items|
      ensures ValidItem(items[i]) <==>
        ValidPair(Keyed(items[i].key, [])) && forall v :: v in items[i].value ==> ValidPair(Keyed(items[i].key, v))
    {
      ItemIsPairs(items[i]);
    }
    hide ValidItem, ValidPair;
    if Normalize(items).Some? {
      SortedAreThere(items);
      SpreadIsValid(Sort(items));
    }
  }

  lemma ItemIsPairs(item: Keyed<seq<Text>>)
    ensures ValidItem(item) <==> ValidPair(Keyed(item.key, [])) && forall v :: v in item.value ==> ValidPair(Keyed(item.key, v))
  {
    forall i | 0 <= i < |item.value| ensures item.value[i] in item.value {
    }
  }

  lemma {:induction false} SortedAreThere(items: Mapping)
    ensures forall m :: m in Sort(items) <==> m in items
  {
    if items != [] {
      SortedAreThere(items[1..]);
      InsertedAreThere(items[0], Sort(items[1..]));
      assert items == [items[0]] + items[1..];
    }
  }

  lemma {:induction false} InsertedAreThere(item: Keyed<seq<Text>>, items: Mapping)
    ensures forall m :: m in Insert(item, items) <==> m == item || m in items
  {
    if items != [] {
      InsertedAreThere(item, items[1..]);
      assert items == [items[0]] + items[1..];
    }
  }

  lemma {:induction false} SpreadIsValid(items: Mapping)
    requires forall m :: m in items ==> ValidItem(m)
    ensures forall k :: 0 <= k < |SpreadAll(items)| ==> ValidPair(SpreadAll(items)[k])
  {
    hide ValidPair;
    if items != [] {
      SpreadIsValid(items[1..]);
      ItemIsPairs(items[0]);
      SpreadOneIsValid(items[0].key, items[0].value);
      assert items[0] in items;
    }
  }

  lemma {:induction false} SpreadOneIsValid(name: Text, values: seq<Text>)
    requires forall v :: v in values ==> ValidPair(Keyed(name, v))
    ensures forall k :: 0 <= k < |Spread(name, values)| ==> ValidPair(Spread(name, values)[k])
  {
    hide ValidPair;
    if values != [] {
      SpreadOneIsValid(name, values[1..]);
      assert values[0] in values;
    }
  }

  // Message-Ids

  /** The 66 characters that a URL leaves alone. */
  predicate IsLeftAlone(b: Byte) {
    IsSmall(b) || IsSmall(b + 0x20) || IsDecimalDigit(b) || b in T("_.-~")
  }

  const HEX := T("0123456789ABCDEF")

  /** One byte as RFC 3986 writes it: itself where it is unreserved (section 2.3), else in two capital digits
      (section 2.1). */
  predicate IsByteText(t: Text, b: Byte) {
    if IsLeftAlone(b) then t == [b]
    else exists h, l :: 0 <= h < 16 && 0 <= l < 16 && b == 16 * h + l && t == [0x25, HEX[h], HEX[l]]
  }

  lemma LeftAloneIs(b: Byte)
    ensures IsLeftAlone(b) <==> IsUnreserved(b)
  {
    assert T("_.-~") == [0x5F, 0x2E, 0x2D, 0x7E];
  }

  lemma HexIs(n: nat)
    requires n < 16
    ensures HEX[n] == UpperHex(n)
  {
    assert HEX == [0x30, 0x31, 0x32, 0x33, 0x34, 0x35, 0x36, 0x37, 0x38, 0x39, 0x41, 0x42, 0x43, 0x44, 0x45, 0x46];
  }

  lemma ByteExactly(t: Text, b: Byte)
    ensures t == QuoteByte(b) <==> IsByteText(t, b)
  {
    hide T, IsUnreserved, UpperHex, IsLeftAlone;
    LeftAloneIs(b);
    HexIs(b / 16);
    HexIs(b % 16);
  }

  /** The text is these bytes, each written out. */
  predicate IsQuotation(t: Text, bytes: Bytes) {
    if bytes == [] then t == []
    else exists n :: 0 <= n <= |t| && IsByteText(t[..n], bytes[0]) && IsQuotation(t[n..], bytes[1..])
  }

  lemma {:induction false} QuotationExactly(t: Text, bytes: Bytes)
    ensures IsQuotation(t, bytes) <==> t == QuoteBytes(bytes)
    decreases |bytes|
  {
    hide IsByteText, QuoteByte;
    if bytes != [] {
      var (first, rest) := (QuoteByte(bytes[0]), QuoteBytes(bytes[1..]));
      ByteExactly(first, bytes[0]);
      QuotationExactly(rest, bytes[1..]);
      if t == QuoteBytes(bytes) {
        assert t[..|first|] == first && t[|first|..] == rest;
        assert IsQuotation(t, bytes);
      }
      if n :| 0 <= n <= |t| && IsByteText(t[..n], bytes[0]) && IsQuotation(t[n..], bytes[1..]) {
        ByteExactly(t[..n], bytes[0]);
        QuotationExactly(t[n..], bytes[1..]);
        assert t == t[..n] + t[n..];
      }
    }
  }

  /** A Message-Id is the kind, the coordinate with the UTF-8 of its reserved characters written out, and the
      decimal sequence number, with dots between them, at the list. */
  lemma MessageIdExactly(kind: Text, coordinate: Text, sequence: nat, quoted: Text)
    ensures MessageId(kind, coordinate, sequence) == kind + T(".") + quoted + T(".") + NatText(sequence) + T("@ai-org-list")
       <==> IsQuotation(quoted, Concat(coordinate))
  {
    hide IsQuotation, QuoteBytes;
    QuotationExactly(quoted, Concat(coordinate));
    assert T(".") == [DOT];
    var tail := [DOT] + NatText(sequence) + AT_LIST;
    var id := kind + [DOT] + UrlQuote(coordinate) + [DOT] + NatText(sequence) + AT_LIST;
    assert id == (kind + [DOT]) + UrlQuote(coordinate) + tail;
    assert kind + T(".") + quoted + T(".") + NatText(sequence) + T("@ai-org-list") == (kind + [DOT]) + quoted + tail;
    SameMiddle(kind + [DOT], UrlQuote(coordinate), quoted, tail);
  }

  lemma SameMiddle(a: Text, b: Text, c: Text, d: Text)
    ensures a + b + d == a + c + d <==> b == c
  {
    if a + b + d == a + c + d {
      assert (a + b + d)[|a|..|a| + |b|] == b && (a + c + d)[|a|..|a| + |c|] == c;
    }
  }
}
