/** The mailing-list message format: its printer, its parser, and the Message-Id. */
module MailMessage {
  import opened Prelude
  import opened Utf8
  import opened JsonNumber
  import opened Json
  import opened JsonOrder
  import opened PyText

  /** One trailer: the name before "=" and the value after it. */
  type Pair = Keyed<Text>

  const KIND := T("Kind: ")
  const MESSAGE_ID := T("Message-Id: ")
  const IN_REPLY_TO := T("In-Reply-To: ")
  const LINK := T("Link: ")
  const REF := T("Ref: ")
  const GENESIS := T("list: genesis")
  const BLANK_LINE: Text := [NEWLINE, NEWLINE]
  const COLON := T(": ")
  const EQUALS: CodePoint := 0x3D

  // What a post may carry

  predicate IsKindCharacter(c: CodePoint) {
    0x61 <= c <= 0x7A || 0x30 <= c <= 0x39 || c == 0x5F || c == 0x2D
  }

  /** `[a-z][a-z0-9_-]{0,63}`. */
  predicate IsKind(t: Text) {
    && 1 <= |t| <= 64 && 0x61 <= t[0] <= 0x7A
    && forall i :: 0 <= i < |t| ==> IsKindCharacter(t[i])
  }

  /** What the single-line checks of `post` refuse; they know of no other separator. */
  predicate OneLine(t: Text) {
    NEWLINE !in t && RETURN !in t
  }

  predicate ValidPair(p: Pair) {
    p.key != [] && EQUALS !in p.key && OneLine(p.key) && OneLine(p.value)
  }

  datatype Post = Post(
    kind: Text, subject: Text, body: Text, messageId: Option<Text>,
    links: seq<Pair>, inReplyTo: Option<Text>, refs: seq<Pair>
  )

  predicate ValidPost(p: Post) {
    && IsKind(p.kind)
    && p.subject != [] && OneLine(p.subject)
    && (p.messageId.Some? ==> p.messageId.value != [] && Plain(p.messageId.value))
    && (p.inReplyTo.Some? ==> p.inReplyTo.value != [] && OneLine(p.inReplyTo.value))
    && (forall i :: 0 <= i < |p.links| ==> ValidPair(p.links[i]))
    && (forall i :: 0 <= i < |p.refs| ==> ValidPair(p.refs[i]))
  }

  // Mappings

  /** A mapping argument, item by item, with a single value counted as a list of one. */
  type Mapping = seq<Keyed<seq<Text>>>

  function Spread(name: Text, values: seq<Text>): seq<Pair> {
    if values == [] then [] else [Keyed(name, values[0])] + Spread(name, values[1..])
  }

  function SpreadAll(items: Mapping): seq<Pair> {
    if items == [] then [] else Spread(items[0].key, items[0].value) + SpreadAll(items[1..])
  }

  predicate ValidItem(item: Keyed<seq<Text>>) {
    && item.key != [] && EQUALS !in item.key && OneLine(item.key)
    && forall i :: 0 <= i < |item.value| ==> OneLine(item.value[i])
  }

  /** `_normalize_mapping`: items by name, one pair a value; None stands for its ValueError. */
  function Normalize(items: Mapping): Option<seq<Pair>> {
    if forall i :: 0 <= i < |items| ==> ValidItem(items[i]) then Some(SpreadAll(Sort(items))) else None
  }

  /** The values given under one name, in order. */
  function ValuesOf(pairs: seq<Pair>, name: Text): seq<Text> {
    if pairs == [] then []
    else (if pairs[0].key == name then [pairs[0].value] else []) + ValuesOf(pairs[1..], name)
  }

  // The printer

  function Upper(t: Text): Text {
    seq(|t|, i requires 0 <= i < |t| => if 0x61 <= t[i] <= 0x7A then t[i] - 0x20 else t[i])
  }

  function PairLine(prefix: Text, p: Pair): Text {
    prefix + p.key + [EQUALS] + p.value
  }

  function PairLines(prefix: Text, pairs: seq<Pair>): (lines: seq<Text>)
    ensures |lines| == |pairs| && forall i :: 0 <= i < |pairs| ==> lines[i] == PairLine(prefix, pairs[i])
  {
    seq(|pairs|, i requires 0 <= i < |pairs| => PairLine(prefix, pairs[i]))
  }

  function OptionalLine(prefix: Text, value: Option<Text>): seq<Text> {
    if value.Some? then [prefix + value.value] else []
  }

  function MoreTrailers(p: Post): seq<Text> {
    OptionalLine(MESSAGE_ID, p.messageId) + OptionalLine(IN_REPLY_TO, p.inReplyTo)
    + PairLines(LINK, p.links) + PairLines(REF, p.refs)
  }

  function Trailers(p: Post): seq<Text> {
    [KIND + p.kind] + MoreTrailers(p)
  }

  function Header(p: Post): Text {
    Upper(p.kind) + COLON + p.subject
  }

  /** `_post_message`. */
  function PostMessage(p: Post): Text {
    Header(p) + BLANK_LINE + p.body + BLANK_LINE + JoinLines(Trailers(p)) + [NEWLINE]
  }

  // The parser

  /** A value of a parsed mapping: a string, or the list a repeated name becomes. */
  datatype Entry = One(t: Text) | Many(ts: seq<Text>)

  type Table = map<Text, Entry>

  datatype Parsed = Parsed(
    kind: Text, subject: Text, body: Text, messageId: Option<Text>, inReplyTo: Option<Text>, links: Table, refs: Table
  )

  datatype Outcome = Genesis | Malformed(part: string) | Read(parsed: Parsed)

  /** `_append_parsed_value`: None stands for its RuntimeError. */
  function AddValue(table: Table, name: Text, value: Text): Option<Table> {
    if name == [] then None
    else if name !in table then Some(table[name := One(value)])
    else
      match table[name]
      case One(previous) => Some(table[name := Many([previous, value])])
      case Many(previous) => Some(table[name := Many(previous + [value])])
  }

  /** The name and the value of `line.removeprefix(prefix).split("=", 1)`. */
  function SplitPair(prefix: Text, line: Text): Option<Pair> {
    if !(prefix <= line) then None
    else
      var rest := line[|prefix|..];
      match Find(rest, [EQUALS], 0)
      case None => None
      case Some(k) => Some(Keyed(rest[..k], rest[k + 1..]))
  }

  /** One trailer line after the first. */
  function ReadTrailer(p: Parsed, line: Text): Option<Parsed> {
    if MESSAGE_ID <= line then
      if p.messageId.Some? || line == MESSAGE_ID then None else Some(p.(messageId := Some(line[|MESSAGE_ID|..])))
    else if IN_REPLY_TO <= line then
      if p.inReplyTo.Some? || line == IN_REPLY_TO then None else Some(p.(inReplyTo := Some(line[|IN_REPLY_TO|..])))
    else if SplitPair(LINK, line).Some? then
      var link := SplitPair(LINK, line).value;
      match AddValue(p.links, link.key, link.value)
      case None => None
      case Some(links) => Some(p.(links := links))
    else if SplitPair(REF, line).Some? then
      var ref := SplitPair(REF, line).value;
      match AddValue(p.refs, ref.key, ref.value)
      case None => None
      case Some(refs) => Some(p.(refs := refs))
    else None
  }

  function ReadTrailers(p: Parsed, lines: seq<Text>): Option<Parsed>
    decreases |lines|
  {
    if lines == [] then Some(p)
    else
      match ReadTrailer(p, lines[0])
      case None => None
      case Some(next) => ReadTrailers(next, lines[1..])
  }

  /** The parts of a message before its trailer lines are read. */
  function ReadHead(subjectLine: Text, body: Text, lines: seq<Text>): Option<Parsed> {
    var first := if lines == [] then [] else lines[0];
    var kind := if KIND <= first then first[|KIND|..] else first;
    match Find(subjectLine, COLON, 0)
    case None => None
    case Some(k) =>
      if !IsKind(kind) || subjectLine[..k] != Upper(kind) then None
      else Some(Parsed(kind, subjectLine[k + |COLON|..], body, None, None, map[], map[]))
  }

  /** `_parse_post_message`. */
  function Parse(message: Text): Outcome {
    var stripped := StripNewlines(message);
    if GENESIS <= stripped then Genesis
    else
      match Find(stripped, BLANK_LINE, 0)
      case None => Malformed("message")
      case Some(k) =>
        var remainder := stripped[k + 2..];
        match RFind(remainder, BLANK_LINE + KIND)
        case None => Malformed("message")
        case Some(start) =>
          var lines := SplitLines(remainder[start + 2..]);
          match ReadHead(stripped[..k], remainder[..start], lines)
          case None => Malformed("headers")
          case Some(head) =>
            match ReadTrailers(head, if lines == [] then [] else lines[1..])
            case None => Malformed("trailers")
            case Some(parsed) => Read(parsed)
  }

  /** The trailer loop as it runs, filling one set of fields line by line. */
  method ReadTrailersLoop(head: Parsed, lines: seq<Text>) returns (r: Option<Parsed>)
    ensures r == ReadTrailers(head, lines)
  {
    hide ReadTrailer;
    var p := head;
    var i := 0;
    while i < |lines|
      invariant i <= |lines|
      invariant ReadTrailers(head, lines) == ReadTrailers(p, lines[i..])
    {
      assert lines[i..][1..] == lines[i + 1..];
      var next := ReadTrailer(p, lines[i]);
      if next.None? { return None; }
      p := next.value;
      i := i + 1;
    }
    return Some(p);
  }

  // What a printed post reads back as

  function EntryOf(values: seq<Text>): Entry {
    if |values| == 1 then One(values[0]) else Many(values)
  }

  /** Pairs by name: a string where the name occurs once, the list in order where it repeats. */
  function Regrouped(pairs: seq<Pair>): Table {
    map name | name in (set i | 0 <= i < |pairs| :: pairs[i].key) :: EntryOf(ValuesOf(pairs, name))
  }

  function Expected(p: Post): Parsed {
    Parsed(p.kind, p.subject, p.body, p.messageId, p.inReplyTo, Regrouped(p.links), Regrouped(p.refs))
  }

  predicate CleanPair(p: Pair) {
    Plain(p.key) && Plain(p.value)
  }

  /** No trailer text holds a separator that only `splitlines` knows. */
  predicate Clean(p: Post) {
    && (p.inReplyTo.Some? ==> Plain(p.inReplyTo.value))
    && (forall i :: 0 <= i < |p.links| ==> CleanPair(p.links[i]))
    && (forall i :: 0 <= i < |p.refs| ==> CleanPair(p.refs[i]))
  }

  // Grouping

  lemma ValuesOfStep(pairs: seq<Pair>, name: Text)
    requires pairs != []
    ensures ValuesOf(pairs, name)
         == (if pairs[0].key == name then [pairs[0].value] else []) + ValuesOf(pairs[1..], name)
  {
  }

  lemma {:induction false} ValuesOfJoin(a: seq<Pair>, b: seq<Pair>, name: Text)
    ensures ValuesOf(a + b, name) == ValuesOf(a, name) + ValuesOf(b, name)
  {
    if a == [] {
      assert a + b == b;
    } else {
      ValuesOfStep(a, name);
      ValuesOfStep(a + b, name);
      hide ValuesOf;
      assert (a + b)[1..] == a[1..] + b;
      ValuesOfJoin(a[1..], b, name);
    }
  }

  lemma {:induction false} ValuesOfHolds(pairs: seq<Pair>, i: nat)
    requires i < |pairs|
    ensures pairs[i].value in ValuesOf(pairs, pairs[i].key)
  {
    if i > 0 { ValuesOfHolds(pairs[1..], i - 1); }
  }

  lemma {:induction false} ValuesOfStranger(pairs: seq<Pair>, name: Text)
    requires forall i :: 0 <= i < |pairs| ==> pairs[i].key != name
    ensures ValuesOf(pairs, name) == []
  {
    if pairs != [] { ValuesOfStranger(pairs[1..], name); }
  }

  lemma RegroupedAt(pairs: seq<Pair>, name: Text)
    ensures name in Regrouped(pairs) <==> ValuesOf(pairs, name) != []
    ensures name in Regrouped(pairs) ==> Regrouped(pairs)[name] == EntryOf(ValuesOf(pairs, name))
  {
    if i :| 0 <= i < |pairs| && pairs[i].key == name {
      ValuesOfHolds(pairs, i);
    } else {
      ValuesOfStranger(pairs, name);
    }
  }

  lemma ValuesOfOne(p: Pair, name: Text)
    ensures ValuesOf([p], name) == if p.key == name then [p.value] else []
  {
    assert [p][1..] == [];
  }

  /** Reading one more pair regroups one more pair. */
  lemma RegroupedGrows(pairs: seq<Pair>, p: Pair)
    requires p.key != []
    ensures AddValue(Regrouped(pairs), p.key, p.value) == Some(Regrouped(pairs + [p]))
  {
    hide Regrouped, ValuesOf;
    var before, after := Regrouped(pairs), Regrouped(pairs + [p]);
    RegroupedAt(pairs, p.key);
    forall name
      ensures name in after <==> name == p.key || name in before
      ensures name in before && name != p.key ==> after[name] == before[name]
      ensures name == p.key ==> after[name] == EntryOf(ValuesOf(pairs, name) + [p.value])
    {
      RegroupedAt(pairs, name);
      RegroupedAt(pairs + [p], name);
      ValuesOfJoin(pairs, [p], name);
      ValuesOfOne(p, name);
    }
    var values := ValuesOf(pairs, p.key);
    if |values| == 1 { assert values + [p.value] == [values[0], p.value]; }
    assert before[p.key := after[p.key]] == after;
  }

  // Reading back what was printed

  lemma SplitPairOfLine(prefix: Text, p: Pair)
    requires ValidPair(p)
    ensures SplitPair(prefix, PairLine(prefix, p)) == Some(p)
  {
    var rest := p.key + [EQUALS] + p.value;
    assert PairLine(prefix, p) == prefix + rest;
    assert PairLine(prefix, p)[|prefix|..] == rest;
    assert At(rest, [EQUALS], |p.key|);
    forall j | 0 <= j < |p.key| ensures !At(rest, [EQUALS], j) {
      assert rest[j..j + 1] == [rest[j]] && rest[j] == p.key[j] && p.key[j] in p.key;
    }
    FindIs(rest, [EQUALS], |p.key|);
    assert rest[..|p.key|] == p.key && rest[|p.key| + 1..] == p.value;
  }

  lemma PrefixesDiffer(rest: Text)
    ensures !(MESSAGE_ID <= LINK + rest) && !(IN_REPLY_TO <= LINK + rest)
    ensures !(MESSAGE_ID <= REF + rest) && !(IN_REPLY_TO <= REF + rest) && !(LINK <= REF + rest)
    ensures !(MESSAGE_ID <= IN_REPLY_TO + rest)
    ensures MESSAGE_ID <= MESSAGE_ID + rest && IN_REPLY_TO <= IN_REPLY_TO + rest
  {
    assert MESSAGE_ID[0] == 0x4D && IN_REPLY_TO[0] == 0x49 && LINK[0] == 0x4C && REF[0] == 0x52;
    assert (LINK + rest)[0] == LINK[0] && (REF + rest)[0] == REF[0] && (IN_REPLY_TO + rest)[0] == IN_REPLY_TO[0];
  }

  lemma ReadLinkLine(p: Parsed, pair: Pair)
    requires ValidPair(pair) && AddValue(p.links, pair.key, pair.value).Some?
    ensures ReadTrailer(p, PairLine(LINK, pair)) == Some(p.(links := AddValue(p.links, pair.key, pair.value).value))
  {
    hide AddValue;
    var rest := pair.key + [EQUALS] + pair.value;
    assert PairLine(LINK, pair) == LINK + rest;
    PrefixesDiffer(rest);
    SplitPairOfLine(LINK, pair);
  }

  lemma ReadRefLine(p: Parsed, pair: Pair)
    requires ValidPair(pair) && AddValue(p.refs, pair.key, pair.value).Some?
    ensures ReadTrailer(p, PairLine(REF, pair)) == Some(p.(refs := AddValue(p.refs, pair.key, pair.value).value))
  {
    hide AddValue;
    var rest := pair.key + [EQUALS] + pair.value;
    assert PairLine(REF, pair) == REF + rest;
    PrefixesDiffer(rest);
    SplitPairOfLine(REF, pair);
  }

  lemma {:induction false} ReadTrailersJoin(p: Parsed, a: seq<Text>, b: seq<Text>)
    requires ReadTrailers(p, a).Some?
    ensures ReadTrailers(p, a + b) == ReadTrailers(ReadTrailers(p, a).value, b)
    decreases |a|
  {
    hide ReadTrailer;
    if a == [] {
      assert a + b == b;
    } else {
      assert (a + b)[1..] == a[1..] + b;
      ReadTrailersJoin(ReadTrailer(p, a[0]).value, a[1..], b);
    }
  }

  lemma ReadOneTrailer(p: Parsed, line: Text)
    ensures ReadTrailers(p, [line]) == ReadTrailer(p, line)
  {
    hide ReadTrailer;
    if ReadTrailer(p, line).Some? { assert ReadTrailers(ReadTrailer(p, line).value, [line][1..]).Some?; }
  }

  lemma PairLinesSplit(prefix: Text, pairs: seq<Pair>)
    requires pairs != []
    ensures var n := |pairs| - 1; PairLines(prefix, pairs) == PairLines(prefix, pairs[..n]) + [PairLine(prefix, pairs[n])]
    ensures pairs == pairs[..|pairs| - 1] + [pairs[|pairs| - 1]]
  {
  }

  lemma {:induction false} ReadLinks(p: Parsed, pairs: seq<Pair>)
    requires p.links == map[] && forall i :: 0 <= i < |pairs| ==> ValidPair(pairs[i])
    ensures ReadTrailers(p, PairLines(LINK, pairs)) == Some(p.(links := Regrouped(pairs)))
  {
    hide ReadTrailer, AddValue, Regrouped, PairLine;
    if pairs == [] {
      assert Regrouped(pairs) == map[] by { NothingRegrouped(); }
    } else {
      var n := |pairs| - 1;
      ReadLinks(p, pairs[..n]);
      RegroupedGrows(pairs[..n], pairs[n]);
      PairLinesSplit(LINK, pairs);
      var before := p.(links := Regrouped(pairs[..n]));
      ReadTrailersJoin(p, PairLines(LINK, pairs[..n]), [PairLine(LINK, pairs[n])]);
      ReadLinkLine(before, pairs[n]);
      ReadOneTrailer(before, PairLine(LINK, pairs[n]));
    }
  }

  lemma {:induction false} ReadRefs(p: Parsed, pairs: seq<Pair>)
    requires p.refs == map[] && forall i :: 0 <= i < |pairs| ==> ValidPair(pairs[i])
    ensures ReadTrailers(p, PairLines(REF, pairs)) == Some(p.(refs := Regrouped(pairs)))
  {
    hide ReadTrailer, AddValue, Regrouped, PairLine;
    if pairs == [] {
      assert Regrouped(pairs) == map[] by { NothingRegrouped(); }
    } else {
      var n := |pairs| - 1;
      ReadRefs(p, pairs[..n]);
      RegroupedGrows(pairs[..n], pairs[n]);
      PairLinesSplit(REF, pairs);
      var before := p.(refs := Regrouped(pairs[..n]));
      ReadTrailersJoin(p, PairLines(REF, pairs[..n]), [PairLine(REF, pairs[n])]);
      ReadRefLine(before, pairs[n]);
      ReadOneTrailer(before, PairLine(REF, pairs[n]));
    }
  }

  lemma NothingRegrouped()
    ensures Regrouped([]) == map[]
  {
  }

  lemma ReadOptionalLines(p: Parsed, messageId: Option<Text>, inReplyTo: Option<Text>)
    requires p.messageId.None? && p.inReplyTo.None?
    requires (messageId.Some? ==> messageId.value != []) && (inReplyTo.Some? ==> inReplyTo.value != [])
    ensures ReadTrailers(p, OptionalLine(MESSAGE_ID, messageId)) == Some(p.(messageId := messageId))
    ensures ReadTrailers(p.(messageId := messageId), OptionalLine(IN_REPLY_TO, inReplyTo))
      == Some(p.(messageId := messageId, inReplyTo := inReplyTo))
  {
    var q := p.(messageId := messageId);
    if messageId.Some? {
      PrefixesDiffer(messageId.value);
      assert (MESSAGE_ID + messageId.value)[|MESSAGE_ID|..] == messageId.value;
      ReadOneTrailer(p, MESSAGE_ID + messageId.value);
    }
    if inReplyTo.Some? {
      PrefixesDiffer(inReplyTo.value);
      assert (IN_REPLY_TO + inReplyTo.value)[|IN_REPLY_TO|..] == inReplyTo.value;
      ReadOneTrailer(q, IN_REPLY_TO + inReplyTo.value);
    }
  }

  lemma ReadMoreTrailers(p: Post)
    requires ValidPost(p)
    ensures ReadTrailers(Parsed(p.kind, p.subject, p.body, None, None, map[], map[]), MoreTrailers(p)) == Some(Expected(p))
  {
    hide ReadTrailer, ReadTrailers, AddValue, Regrouped, PairLine, PairLines, OptionalLine;
    var start := Parsed(p.kind, p.subject, p.body, None, None, map[], map[]);
    var a, b := OptionalLine(MESSAGE_ID, p.messageId), OptionalLine(IN_REPLY_TO, p.inReplyTo);
    var c, d := PairLines(LINK, p.links), PairLines(REF, p.refs);
    ReadOptionalLines(start, p.messageId, p.inReplyTo);
    var replied := start.(messageId := p.messageId, inReplyTo := p.inReplyTo);
    ReadLinks(replied, p.links);
    ReadRefs(replied.(links := Regrouped(p.links)), p.refs);
    ReadTrailersJoin(start, a, b);
    ReadTrailersJoin(start, a + b, c);
    ReadTrailersJoin(start, a + b + c, d);
  }

  // The frame around the trailers

  lemma KindIsPlain(kind: Text)
    requires IsKind(kind)
    ensures Plain(kind) && Plain(KIND + kind)
    ensures Upper(kind) != [] && NEWLINE !in Upper(kind) && 0x3A !in Upper(kind) && 0x41 <= Upper(kind)[0] <= 0x5A
  {
  }

  /** No trailer line is empty or holds a newline, so none breaks the last paragraph. */
  lemma TrailersAreLines(p: Post)
    requires ValidPost(p)
    ensures forall k :: 0 <= k < |Trailers(p)| ==> Trailers(p)[k] != [] && NEWLINE !in Trailers(p)[k]
  {
    KindIsPlain(p.kind);
    var lines := Trailers(p);
    forall k | 0 <= k < |lines| ensures lines[k] != [] && NEWLINE !in lines[k] {
      TrailerAt(p, k);
    }
  }

  lemma TrailerAt(p: Post, k: nat)
    requires ValidPost(p) && k < |Trailers(p)|
    ensures var line := Trailers(p)[k];
      || line == KIND + p.kind
      || (p.messageId.Some? && line == MESSAGE_ID + p.messageId.value)
      || (p.inReplyTo.Some? && line == IN_REPLY_TO + p.inReplyTo.value)
      || (exists i :: 0 <= i < |p.links| && line == PairLine(LINK, p.links[i]))
      || (exists i :: 0 <= i < |p.refs| && line == PairLine(REF, p.refs[i]))
  {
    hide PairLine;
    var m := 1 + |OptionalLine(MESSAGE_ID, p.messageId)| + |OptionalLine(IN_REPLY_TO, p.inReplyTo)|;
    if m <= k < m + |p.links| {
      assert Trailers(p)[k] == PairLine(LINK, p.links[k - m]);
    } else if m + |p.links| <= k {
      assert Trailers(p)[k] == PairLine(REF, p.refs[k - m - |p.links|]);
    }
  }

  lemma JoinStarts(lines: seq<Text>)
    requires lines != []
    ensures lines[0] <= JoinLines(lines)
  {
  }

  /** The last paragraph: it starts with the kind, ends in no newline and holds no blank line. */
  lemma LastParagraph(p: Post)
    requires ValidPost(p)
    ensures var last := JoinLines(Trailers(p));
            && KIND <= last && last[|last| - 1] != NEWLINE && last[0] != NEWLINE
            && forall i :: 0 <= i < |last| - 1 ==> !(last[i] == NEWLINE && last[i + 1] == NEWLINE)
  {
    hide MoreTrailers;
    var lines := Trailers(p);
    var last := JoinLines(lines);
    TrailersAreLines(p);
    JoinStarts(lines);
    assert lines[0] == KIND + p.kind;
    assert KIND <= last by { assert last[..|lines[0]|][..|KIND|] == KIND; }
    forall i | 0 <= i < |last| ensures last[i] == NEWLINE ==> i + 1 < |last| && last[i + 1] != NEWLINE {
      JoinHasNoBlankLine(lines, i);
    }
    JoinHasNoBlankLine(lines, 0);
    assert lines[0][0] in lines[0];
  }

  lemma StripIs(s: Text, n: nat)
    requires n == |s| - 1 && s[n] == NEWLINE && (n == 0 || s[n - 1] != NEWLINE)
    ensures StripNewlines(s) == s[..n]
  {
  }

  lemma BlankLineAt(s: Text, i: nat)
    ensures At(s, BLANK_LINE, i) ==> i + 1 < |s| && s[i] == NEWLINE && s[i + 1] == NEWLINE
  {
    if i + 1 < |s| { assert s[i..i + 2][0] == s[i] && s[i..i + 2][1] == s[i + 1]; }
  }

  lemma ColonAt(s: Text, i: nat)
    ensures At(s, COLON, i) ==> i < |s| && s[i] == 0x3A
  {
    assert |COLON| == 2 && COLON[0] == 0x3A;
    if i + 1 < |s| { assert s[i..i + 2][0] == s[i]; }
  }

  /** The first blank line of a message ends its header. */
  lemma HeaderEnds(header: Text, rest: Text)
    requires NEWLINE !in header
    ensures Find(header + BLANK_LINE + rest, BLANK_LINE, 0) == Some(|header|)
  {
    var s := header + BLANK_LINE + rest;
    assert s[|header|..|header| + 2] == BLANK_LINE;
    forall j | 0 <= j < |header| ensures !At(s, BLANK_LINE, j) {
      assert s[j] == header[j] && header[j] in header;
      BlankLineAt(s, j);
    }
    FindIs(s, BLANK_LINE, |header|);
  }

  lemma TailCharacter(body: Text, last: Text, j: nat)
    requires |body| < j < |body| + 2 + |last|
    ensures (body + BLANK_LINE + last)[j] == if j == |body| + 1 then NEWLINE else last[j - |body| - 2]
  {
  }

  lemma AtPrefix(s: Text, a: Text, b: Text, i: nat)
    ensures At(s, a + b, i) ==> At(s, a, i)
  {
    if i + |a + b| <= |s| {
      assert s[i..i + |a|] == s[i..i + |a + b|][..|a|];
      assert (a + b)[..|a|] == a;
    }
  }

  /** The last "Kind:" paragraph of a message is the printer's own, whatever the body holds. */
  lemma BodyEnds(body: Text, last: Text)
    requires KIND <= last && last[0] != NEWLINE
    requires forall i :: 0 <= i < |last| - 1 ==> !(last[i] == NEWLINE && last[i + 1] == NEWLINE)
    ensures RFind(body + BLANK_LINE + last, BLANK_LINE + KIND) == Some(|body|)
  {
    var s := body + BLANK_LINE + last;
    assert s[|body|..|body| + 2 + |KIND|] == BLANK_LINE + KIND by {
      assert s[|body|..] == BLANK_LINE + last;
      assert last[..|KIND|] == KIND;
    }
    forall j | |body| < j ensures !At(s, BLANK_LINE + KIND, j) {
      AtPrefix(s, BLANK_LINE, KIND, j);
      BlankLineAt(s, j);
      if j + 1 < |s| {
        TailCharacter(body, last, j);
        TailCharacter(body, last, j + 1);
      }
    }
    RFindIs(s, BLANK_LINE + KIND, |body|);
  }

  /** The first ": " of a header follows the kind, whatever the subject holds. */
  lemma PrefixEnds(prefix: Text, subject: Text)
    requires 0x3A !in prefix
    ensures Find(prefix + COLON + subject, COLON, 0) == Some(|prefix|)
  {
    var header, n := prefix + COLON + subject, |prefix|;
    assert header[n..n + 2] == COLON;
    forall j | 0 <= j < n ensures !At(header, COLON, j) {
      assert header[j] == prefix[j] && prefix[j] in prefix;
      ColonAt(header, j);
    }
    FindIs(header, COLON, n);
  }

  lemma HeaderIsOneLine(p: Post)
    requires ValidPost(p)
    ensures NEWLINE !in Header(p)
    ensures Find(Header(p), COLON, 0) == Some(|p.kind|)
    ensures Header(p)[..|p.kind|] == Upper(p.kind) && Header(p)[|p.kind| + |COLON|..] == p.subject
  {
    hide Upper, Find, IsKind, ValidPair;
    KindIsPlain(p.kind);
    UpperKeepsLength(p.kind);
    PrefixEnds(Upper(p.kind), p.subject);
    assert COLON == [0x3A, 0x20];
  }

  lemma UpperKeepsLength(t: Text)
    ensures |Upper(t)| == |t|
  {
  }

  lemma GenesisDiffers(p: Post, rest: Text)
    requires ValidPost(p)
    ensures !(GENESIS <= Header(p) + rest)
  {
    KindIsPlain(p.kind);
    assert (Header(p) + rest)[0] == Upper(p.kind)[0];
    assert GENESIS[0] == 0x6C;
  }

  /** A printed post without its last newline. */
  function Stripped(p: Post): Text {
    Header(p) + BLANK_LINE + (p.body + BLANK_LINE + JoinLines(Trailers(p)))
  }

  lemma StrippedIsMessage(p: Post)
    requires ValidPost(p)
    ensures StripNewlines(PostMessage(p)) == Stripped(p)
  {
    hide Header, Trailers, StripNewlines, IsKind, ValidPost;
    var last := JoinLines(Trailers(p));
    var stripped := Stripped(p);
    LastParagraph(p);
    assert PostMessage(p) == stripped + [NEWLINE];
    assert stripped[|stripped| - 1] == last[|last| - 1];
    StripIs(PostMessage(p), |stripped|);
  }

  /** What the parser finds in a printed post before it reads the trailer lines. */
  lemma Sections(p: Post)
    requires ValidPost(p)
    ensures var last := JoinLines(Trailers(p));
            && StripNewlines(PostMessage(p)) == Stripped(p)
            && !(GENESIS <= Stripped(p))
            && Find(Stripped(p), BLANK_LINE, 0) == Some(|Header(p)|)
            && Stripped(p)[..|Header(p)|] == Header(p)
            && Stripped(p)[|Header(p)| + 2..] == p.body + BLANK_LINE + last
            && RFind(p.body + BLANK_LINE + last, BLANK_LINE + KIND) == Some(|p.body|)
            && (p.body + BLANK_LINE + last)[..|p.body|] == p.body
            && (p.body + BLANK_LINE + last)[|p.body| + 2..] == last
  {
    hide Header, Trailers, Find, RFind, StripNewlines, PostMessage, IsKind, ValidPost, JoinLines;
    var last := JoinLines(Trailers(p));
    var remainder := p.body + BLANK_LINE + last;
    StrippedIsMessage(p);
    LastParagraph(p);
    HeaderIsOneLine(p);
    HeaderEnds(Header(p), remainder);
    BodyEnds(p.body, last);
    GenesisDiffers(p, BLANK_LINE + remainder);
    assert Header(p) + (BLANK_LINE + remainder) == Stripped(p);
  }

  /** No post is mistaken for the genesis message, whatever its body and trailers hold. */
  lemma PostIsNotGenesis(p: Post)
    requires ValidPost(p)
    ensures Parse(PostMessage(p)) != Genesis
  {
    hide Header, Trailers, Stripped, Find, RFind, StripNewlines, PostMessage, ReadTrailers, ReadHead, JoinLines, SplitLines;
    Sections(p);
  }

  // The round trip

  lemma PrefixesArePlain()
    ensures Plain(MESSAGE_ID) && Plain(IN_REPLY_TO) && Plain(LINK) && Plain(REF)
  {
  }

  lemma JoinIsPlain(s: Text, t: Text)
    requires Plain(s) && Plain(t)
    ensures Plain(s + t)
  {
  }

  lemma PairLineIsPlain(prefix: Text, p: Pair)
    requires Plain(prefix) && CleanPair(p)
    ensures Plain(PairLine(prefix, p))
  {
  }

  lemma TrailersArePlain(p: Post)
    requires ValidPost(p) && Clean(p)
    ensures PlainLines(Trailers(p))
  {
    hide Trailers, PairLine, Plain;
    TrailersAreLines(p);
    KindIsPlain(p.kind);
    PrefixesArePlain();
    forall k | 0 <= k < |Trailers(p)| ensures Plain(Trailers(p)[k]) {
      TrailerAt(p, k);
      if i :| 0 <= i < |p.links| && Trailers(p)[k] == PairLine(LINK, p.links[i]) { PairLineIsPlain(LINK, p.links[i]); }
      if i :| 0 <= i < |p.refs| && Trailers(p)[k] == PairLine(REF, p.refs[i]) { PairLineIsPlain(REF, p.refs[i]); }
      if p.messageId.Some? { JoinIsPlain(MESSAGE_ID, p.messageId.value); }
      if p.inReplyTo.Some? { JoinIsPlain(IN_REPLY_TO, p.inReplyTo.value); }
    }
  }

  lemma HeadIsRead(p: Post)
    requires ValidPost(p)
    ensures ReadHead(Header(p), p.body, Trailers(p)) == Some(Parsed(p.kind, p.subject, p.body, None, None, map[], map[]))
  {
    hide MoreTrailers, Find;
    HeaderIsOneLine(p);
    var first := Trailers(p)[0];
    assert first == KIND + p.kind;
    assert first[|KIND|..] == p.kind;
  }

  /** A clean post reads back as it was written, with repeated trailers regrouped by name. */
  lemma CleanRoundTrip(p: Post)
    requires ValidPost(p) && Clean(p)
    ensures Parse(PostMessage(p)) == Read(Expected(p))
  {
    hide Header, Stripped, Find, RFind, StripNewlines, PostMessage, ReadTrailers, ReadHead, JoinLines, SplitLines, Expected, MoreTrailers;
    Sections(p);
    TrailersArePlain(p);
    SplitOfJoin(Trailers(p));
    HeadIsRead(p);
    ReadMoreTrailers(p);
    assert Trailers(p)[1..] == MoreTrailers(p);
  }

  // What a separator does to it

  predicate PlainEntry(e: Entry) {
    match e
    case One(t) => Plain(t)
    case Many(ts) => forall i :: 0 <= i < |ts| ==> Plain(ts[i])
  }

  predicate PlainTable(table: Table) {
    forall name :: name in table ==> Plain(name) && PlainEntry(table[name])
  }

  predicate PlainParsed(p: Parsed) {
    && (p.inReplyTo.Some? ==> Plain(p.inReplyTo.value))
    && PlainTable(p.links) && PlainTable(p.refs)
  }

  lemma PlainSlice(s: Text, i: nat, j: nat)
    requires Plain(s) && i <= j <= |s|
    ensures Plain(s[i..j])
  {
  }

  lemma SplitPairIsPlain(prefix: Text, line: Text)
    requires Plain(line) && SplitPair(prefix, line).Some?
    ensures CleanPair(SplitPair(prefix, line).value)
  {
    hide Find;
    var rest := line[|prefix|..];
    PlainSlice(line, |prefix|, |line|);
    var k := Find(rest, [EQUALS], 0).value;
    PlainSlice(rest, 0, k);
    PlainSlice(rest, k + 1, |rest|);
  }

  lemma AddValueIsPlain(table: Table, name: Text, value: Text)
    requires PlainTable(table) && Plain(name) && Plain(value) && AddValue(table, name, value).Some?
    ensures PlainTable(AddValue(table, name, value).value)
  {
    if name in table { assert PlainEntry(table[name]); }
    assert PlainEntry(AddValue(table, name, value).value[name]);
  }

  lemma ReadTrailerIsPlain(p: Parsed, line: Text)
    requires PlainParsed(p) && Plain(line) && ReadTrailer(p, line).Some?
    ensures PlainParsed(ReadTrailer(p, line).value)
  {
    hide PlainTable, SplitPair, AddValue;
    if MESSAGE_ID <= line {
    } else if IN_REPLY_TO <= line {
      PlainSlice(line, |IN_REPLY_TO|, |line|);
    } else if SplitPair(LINK, line).Some? {
      var link := SplitPair(LINK, line).value;
      SplitPairIsPlain(LINK, line);
      AddValueIsPlain(p.links, link.key, link.value);
    } else {
      var ref := SplitPair(REF, line).value;
      SplitPairIsPlain(REF, line);
      AddValueIsPlain(p.refs, ref.key, ref.value);
    }
  }

  lemma {:induction false} ReadTrailersIsPlain(p: Parsed, lines: seq<Text>)
    requires PlainParsed(p) && ReadTrailers(p, lines).Some?
    requires forall i :: 0 <= i < |lines| ==> Plain(lines[i])
    ensures PlainParsed(ReadTrailers(p, lines).value)
    decreases |lines|
  {
    hide ReadTrailer, PlainParsed;
    if lines != [] {
      ReadTrailerIsPlain(p, lines[0]);
      ReadTrailersIsPlain(ReadTrailer(p, lines[0]).value, lines[1..]);
    }
  }

  /** Whatever message is read, no trailer text that comes out of it holds a separator. */
  lemma ReadIsPlain(message: Text)
    requires Parse(message).Read?
    ensures PlainParsed(Parse(message).parsed)
  {
    hide Find, RFind, StripNewlines, ReadTrailers, ReadHead, SplitLines, PlainParsed;
    var stripped := StripNewlines(message);
    var k := Find(stripped, BLANK_LINE, 0).value;
    var remainder := stripped[k + 2..];
    var start := RFind(remainder, BLANK_LINE + KIND).value;
    var lines := SplitLines(remainder[start + 2..]);
    var head := ReadHead(stripped[..k], remainder[..start], lines).value;
    assert PlainParsed(head) by { HeadIsPlain(stripped[..k], remainder[..start], lines); }
    ReadTrailersIsPlain(head, if lines == [] then [] else lines[1..]);
  }

  lemma HeadIsPlain(subjectLine: Text, body: Text, lines: seq<Text>)
    requires ReadHead(subjectLine, body, lines).Some?
    ensures PlainParsed(ReadHead(subjectLine, body, lines).value)
  {
    hide Find, IsKind, Upper;
  }

  lemma UncleanTable(pairs: seq<Pair>, i: nat)
    requires i < |pairs| && !CleanPair(pairs[i])
    ensures !PlainTable(Regrouped(pairs))
  {
    hide Plain, Regrouped;
    var name := pairs[i].key;
    ValuesOfHolds(pairs, i);
    RegroupedAt(pairs, name);
  }

  /** The exact condition of the round trip. `post` refuses only newlines and carriage returns, but
      `splitlines` also breaks at eight other characters: a post reads back as written if and only if
      none of them stands in a trailer name, a trailer value or the reply. */
  lemma RoundTripExactly(p: Post)
    requires ValidPost(p)
    ensures Parse(PostMessage(p)) == Read(Expected(p)) <==> Clean(p)
  {
    hide Parse, PostMessage, CleanPair, PlainTable, Regrouped, ValidPair;
    if Clean(p) {
      CleanRoundTrip(p);
    } else if Parse(PostMessage(p)) == Read(Expected(p)) {
      ReadIsPlain(PostMessage(p));
      if i :| 0 <= i < |p.links| && !CleanPair(p.links[i]) { UncleanTable(p.links, i); }
      if i :| 0 <= i < |p.refs| && !CleanPair(p.refs[i]) { UncleanTable(p.refs, i); }
    }
  }

  /** The post {kind: qa, refs: {"k": "\v"}}: accepted by every check of `post`, not read back. */
  lemma SeparatorBreaksRoundTrip()
    ensures var p := Post(T("qa"), T("s"), [], None, [], None, [Keyed(T("k"), [0x0B])]);
            ValidPost(p) && Parse(PostMessage(p)) != Read(Expected(p))
  {
    hide Parse, PostMessage, Expected;
    var p := Post(T("qa"), T("s"), [], None, [], None, [Keyed(T("k"), [0x0B])]);
    assert T("qa") == [0x71, 0x61] && T("s") == [0x73] && T("k") == [0x6B];
    assert IsSeparator(p.refs[0].value[0]);
    RoundTripExactly(p);
  }

  // Mappings through a post

  function ValuesUnder(items: Mapping, name: Text): seq<Text> {
    if items == [] then []
    else (if items[0].key == name then items[0].value else []) + ValuesUnder(items[1..], name)
  }

  lemma {:induction false} ValuesOfSpread(key: Text, values: seq<Text>, name: Text)
    ensures ValuesOf(Spread(key, values), name) == if key == name then values else []
  {
    if values != [] {
      ValuesOfSpread(key, values[1..], name);
      assert Spread(key, values)[1..] == Spread(key, values[1..]);
      assert values == [values[0]] + values[1..];
    }
  }

  lemma {:induction false} ValuesOfSpreadAll(items: Mapping, name: Text)
    ensures ValuesOf(SpreadAll(items), name) == ValuesUnder(items, name)
  {
    if items != [] {
      ValuesOfSpreadAll(items[1..], name);
      ValuesOfSpread(items[0].key, items[0].value, name);
      ValuesOfJoin(Spread(items[0].key, items[0].value), SpreadAll(items[1..]), name);
    }
  }

  /** Insertion moves past other names only, so the order of one name's values is kept. */
  lemma {:induction false} ValuesUnderInsert(item: Keyed<seq<Text>>, items: Mapping, name: Text)
    ensures ValuesUnder(Insert(item, items), name) == ValuesUnder([item] + items, name)
  {
    LeqTotal(Concat(item.key), Concat(item.key));
    assert ([item] + items)[1..] == items;
    if !(items == [] || KeyLeq(item.key, items[0].key)) {
      ValuesUnderInsert(item, items[1..], name);
      assert ([item] + items[1..])[1..] == items[1..];
      assert ([items[0]] + Insert(item, items[1..]))[1..] == Insert(item, items[1..]);
    }
  }

  lemma {:induction false} ValuesUnderSort(items: Mapping, name: Text)
    ensures ValuesUnder(Sort(items), name) == ValuesUnder(items, name)
  {
    if items != [] {
      ValuesUnderSort(items[1..], name);
      ValuesUnderInsert(items[0], Sort(items[1..]), name);
      assert ([items[0]] + Sort(items[1..]))[1..] == Sort(items[1..]);
    }
  }

  lemma {:induction false} ValuesUnderStranger(items: Mapping, name: Text)
    requires forall i :: 0 <= i < |items| ==> items[i].key != name
    ensures ValuesUnder(items, name) == []
  {
    if items != [] { ValuesUnderStranger(items[1..], name); }
  }

  lemma {:induction false} ValuesUnderOwn(items: Mapping, i: nat)
    requires DistinctKeys(items) && i < |items|
    ensures ValuesUnder(items, items[i].key) == items[i].value
  {
    if i == 0 { ValuesUnderStranger(items[1..], items[0].key); } else { ValuesUnderOwn(items[1..], i - 1); }
  }

  /** Each name of a mapping keeps its values, in order, through sorting and spreading. */
  lemma NormalizeKeepsValues(items: Mapping, i: nat)
    requires Normalize(items).Some? && DistinctKeys(items) && i < |items|
    ensures ValuesOf(Normalize(items).value, items[i].key) == items[i].value
  {
    ValuesOfSpreadAll(Sort(items), items[i].key);
    ValuesUnderSort(items, items[i].key);
    ValuesUnderOwn(items, i);
  }

  lemma NormalizeAddsNoName(items: Mapping, name: Text)
    requires Normalize(items).Some? && forall i :: 0 <= i < |items| ==> items[i].key != name
    ensures ValuesOf(Normalize(items).value, name) == []
  {
    ValuesOfSpreadAll(Sort(items), name);
    ValuesUnderSort(items, name);
    ValuesUnderStranger(items, name);
  }

  /** The trailers do not depend on the order in which a mapping was filled. */
  lemma NormalizeIgnoresOrder(items: Mapping, others: Mapping)
    requires DistinctKeys(items) && DistinctKeys(others) && |items| == |others|
    requires forall m :: m in items <==> m in others
    requires forall m :: m in items ==> ScalarText(m.key)
    ensures Normalize(items) == Normalize(others)
  {
    SortIsCanonical(items, others);
    assert (forall i :: 0 <= i < |items| ==> ValidItem(items[i])) <==> forall m :: m in items ==> ValidItem(m);
    assert (forall i :: 0 <= i < |others| ==> ValidItem(others[i])) <==> forall m :: m in others ==> ValidItem(m);
  }

  /** A mapping given to `post` as refs comes out of `read` name for name: one value as a string,
      several as the list in order, a name with no value not at all. */
  lemma RefsSurvive(p: Post, items: Mapping, name: Text)
    requires ValidPost(p) && Clean(p) && Normalize(items) == Some(p.refs) && DistinctKeys(items)
    ensures Parse(PostMessage(p)).Read?
    ensures var refs := Parse(PostMessage(p)).parsed.refs;
            && (name in refs <==> exists i :: 0 <= i < |items| && items[i].key == name && items[i].value != [])
            && forall i :: 0 <= i < |items| && items[i].key == name && items[i].value != [] ==>
                 refs[name] == EntryOf(items[i].value)
  {
    hide Parse, PostMessage, Normalize, Clean, ValidPost;
    CleanRoundTrip(p);
    RegroupedAt(p.refs, name);
    if i :| 0 <= i < |items| && items[i].key == name {
      NormalizeKeepsValues(items, i);
    } else {
      NormalizeAddsNoName(items, name);
    }
  }

  // Message-Id

  const AT_LIST := T("@ai-org-list")
  const DOT: CodePoint := 0x2E

  /** `_message_id`. */
  function MessageId(kind: Text, coordinate: Text, sequence: nat): Text {
    kind + [DOT] + UrlQuote(coordinate) + [DOT] + NatText(sequence) + AT_LIST
  }

  lemma {:induction false} NatTextIsDigits(n: nat)
    ensures forall i :: 0 <= i < |NatText(n)| ==> 0x30 <= NatText(n)[i] <= 0x39
  {
    if n >= 10 { NatTextIsDigits(n / 10); }
  }

  lemma NatTextInjective(m: nat, n: nat)
    requires NatText(m) == NatText(n)
    ensures m == n
  {
    NatTextDigits(m);
    NatTextDigits(n);
  }

  /** A Message-Id names one kind, one coordinate and one sequence number. */
  lemma MessageIdInjective(k1: Text, c1: Text, n1: nat, k2: Text, c2: Text, n2: nat)
    requires IsKind(k1) && IsKind(k2) && ScalarText(c1) && ScalarText(c2)
    requires MessageId(k1, c1, n1) == MessageId(k2, c2, n2)
    ensures k1 == k2 && c1 == c2 && n1 == n2
  {
    hide UrlQuote, NatText;
    var x1, x2 := UrlQuote(c1) + [DOT] + NatText(n1), UrlQuote(c2) + [DOT] + NatText(n2);
    var a1, a2 := k1 + [DOT] + x1, k2 + [DOT] + x2;
    assert MessageId(k1, c1, n1) == a1 + AT_LIST && MessageId(k2, c2, n2) == a2 + AT_LIST;
    SameSuffix(a1, a2, AT_LIST);
    CutAtFirst(k1, x1, k2, x2, DOT);
    NatTextIsDigits(n1);
    NatTextIsDigits(n2);
    CutAtLast(UrlQuote(c1), NatText(n1), UrlQuote(c2), NatText(n2), DOT);
    UrlQuoteInjective(c1, c2);
    NatTextInjective(n1, n2);
  }

  lemma SameSuffix(a: Text, b: Text, suffix: Text)
    requires a + suffix == b + suffix
    ensures a == b
  {
    assert |a| == |b| && (a + suffix)[..|a|] == a && (b + suffix)[..|b|] == b;
  }

  /** A generated Message-Id is never broken by the parser, whatever the coordinate holds. */
  lemma MessageIdIsPlain(kind: Text, coordinate: Text, sequence: nat)
    requires IsKind(kind)
    ensures MessageId(kind, coordinate, sequence) != [] && Plain(MessageId(kind, coordinate, sequence))
  {
    hide UrlQuote, NatText, IsKind;
    KindIsPlain(kind);
    NatTextIsDigits(sequence);
    UrlQuoteIsPlain(coordinate);
  }
}
