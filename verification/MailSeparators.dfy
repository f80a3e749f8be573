/** What any valid post reads back as, whatever separators its trailer texts hold. */
module MailSeparators {
  import opened Prelude
  import opened Utf8
  import opened Json
  import opened PyText
  import opened MailMessage

  /** The lines the parser finds behind the kind: the trailers, broken at every separator they hold. */
  function Fragments(p: Post): seq<Text> {
    SplitLines(JoinLines(MoreTrailers(p)))
  }

  function Start(p: Post): Parsed {
    Parsed(p.kind, p.subject, p.body, None, None, map[], map[])
  }

  lemma LinesOfPost(p: Post)
    requires IsKind(p.kind)
    ensures SplitLines(JoinLines(Trailers(p))) == [KIND + p.kind] + Fragments(p)
  {
    hide IsKind, MoreTrailers, SplitLines, Plain;
    KindIsPlain(p.kind);
    var (first, more) := (KIND + p.kind, MoreTrailers(p));
    if more == [] {
      SplitOne(first);
      SplitNothing();
    } else {
      assert Trailers(p)[1..] == more;
      SplitFirst(first, JoinLines(more));
    }
  }

  lemma HeadNeedsKind(p: Post, lines: seq<Text>)
    requires ValidPost(p) && lines != [] && lines[0] == KIND + p.kind
    ensures ReadHead(Header(p), p.body, lines) == Some(Start(p))
  {
    hide Find, IsKind, Upper;
    HeadIsRead(p);
    assert Trailers(p)[0] == lines[0];
  }

  /** A valid post can only be malformed in its trailers, and those are read fragment by fragment. */
  lemma PostReadsFragments(p: Post)
    requires ValidPost(p)
    ensures Parse(PostMessage(p)) == match ReadTrailers(Start(p), Fragments(p))
                                     case None => Malformed("trailers")
                                     case Some(parsed) => Read(parsed)
  {
    hide Header, Stripped, Find, RFind, StripNewlines, PostMessage, ReadTrailers, ReadHead, JoinLines, SplitLines, Trailers,
      Fragments, Start, ValidPost;
    assert IsKind(p.kind) by { KindIsValid(p); }
    Sections(p);
    LinesOfPost(p);
    var lines := [KIND + p.kind] + Fragments(p);
    HeadNeedsKind(p, lines);
    assert lines[1..] == Fragments(p);
  }

  lemma KindIsValid(p: Post)
    requires ValidPost(p)
    ensures IsKind(p.kind)
  {
  }

  // When the trailers of a post are read

  /** A line that the trailer loop takes where it stands. */
  predicate IsTrailer(line: Text) {
    if MESSAGE_ID <= line then line != MESSAGE_ID
    else if IN_REPLY_TO <= line then line != IN_REPLY_TO
    else if SplitPair(LINK, line).Some? then SplitPair(LINK, line).value.key != []
    else SplitPair(REF, line).Some? && SplitPair(REF, line).value.key != []
  }

  function Starting(lines: seq<Text>, prefix: Text): nat {
    if lines == [] then 0 else (if prefix <= lines[0] then 1 else 0) + Starting(lines[1..], prefix)
  }

  function Known(t: Option<Text>): nat {
    if t.Some? then 1 else 0
  }

  lemma OnePrefix(line: Text)
    ensures MESSAGE_ID <= line ==> !(IN_REPLY_TO <= line) && !(LINK <= line) && !(REF <= line)
    ensures IN_REPLY_TO <= line ==> !(LINK <= line) && !(REF <= line)
    ensures LINK <= line ==> !(REF <= line)
  {
    assert MESSAGE_ID[0] == 0x4D && IN_REPLY_TO[0] == 0x49 && LINK[0] == 0x4C && REF[0] == 0x52;
  }

  lemma ReadTrailerExactly(p: Parsed, line: Text)
    ensures ReadTrailer(p, line).Some? <==>
      && IsTrailer(line)
      && (MESSAGE_ID <= line ==> p.messageId.None?) && (IN_REPLY_TO <= line ==> p.inReplyTo.None?)
    ensures ReadTrailer(p, line).Some? ==>
      && (ReadTrailer(p, line).value.messageId.Some? <==> p.messageId.Some? || MESSAGE_ID <= line)
      && (ReadTrailer(p, line).value.inReplyTo.Some? <==> p.inReplyTo.Some? || IN_REPLY_TO <= line)
  {
    hide SplitPair;
    OnePrefix(line);
  }

  /** The loop gets through exactly lines that are all trailers, with one Message-Id and one reply at most. */
  lemma {:induction false} ReadTrailersExactly(p: Parsed, lines: seq<Text>)
    ensures ReadTrailers(p, lines).Some? <==>
      && (forall i :: 0 <= i < |lines| ==> IsTrailer(lines[i]))
      && (lines == [] || Known(p.messageId) + Starting(lines, MESSAGE_ID) <= 1)
      && (lines == [] || Known(p.inReplyTo) + Starting(lines, IN_REPLY_TO) <= 1)
    decreases |lines|
  {
    hide IsTrailer, ReadTrailer;
    if lines != [] {
      ReadTrailerExactly(p, lines[0]);
      if ReadTrailer(p, lines[0]).Some? {
        ReadTrailersExactly(ReadTrailer(p, lines[0]).value, lines[1..]);
      }
    }
  }

  /** What has to hold of the fragments for the post to be read at all. */
  predicate ReadsBack(p: Post) {
    && (forall i :: 0 <= i < |Fragments(p)| ==> IsTrailer(Fragments(p)[i]))
    && Starting(Fragments(p), MESSAGE_ID) <= 1 && Starting(Fragments(p), IN_REPLY_TO) <= 1
  }

  /** The exact condition under which `read` gets through a post that `post` accepted: every piece that
      the separators make of its trailers is a trailer itself, with one Message-Id and one reply at most. */
  lemma ReadsBackExactly(p: Post)
    requires ValidPost(p)
    ensures Parse(PostMessage(p)).Read? <==> ReadsBack(p)
    ensures !ReadsBack(p) ==> Parse(PostMessage(p)) == Malformed("trailers")
  {
    hide Parse, PostMessage, Fragments, IsTrailer, ReadTrailers;
    PostReadsFragments(p);
    ReadTrailersExactly(Start(p), Fragments(p));
  }

  // Which refs come back

  /** The refs among the lines. */
  function RefPairs(lines: seq<Text>): seq<Pair> {
    if lines == [] then []
    else
      (if SplitPair(REF, lines[0]).Some? then [SplitPair(REF, lines[0]).value] else []) + RefPairs(lines[1..])
  }

  lemma ReadTrailerRefs(p: Parsed, line: Text, before: seq<Pair>)
    requires ReadTrailer(p, line).Some? && p.refs == Regrouped(before)
    ensures ReadTrailer(p, line).value.kind == p.kind
    ensures ReadTrailer(p, line).value.refs
         == Regrouped(before + if SplitPair(REF, line).Some? then [SplitPair(REF, line).value] else [])
  {
    hide Regrouped, Find;
    OnePrefix(line);
    assert before + [] == before;
    if SplitPair(REF, line).Some? {
      var ref := SplitPair(REF, line).value;
      assert ref.key != [];
      RegroupedGrows(before, ref);
    }
  }

  lemma {:induction false} ReadTrailersRefs(p: Parsed, lines: seq<Text>, before: seq<Pair>)
    requires ReadTrailers(p, lines).Some? && p.refs == Regrouped(before)
    ensures ReadTrailers(p, lines).value.kind == p.kind
    ensures ReadTrailers(p, lines).value.refs == Regrouped(before + RefPairs(lines))
    decreases |lines|
  {
    hide ReadTrailer, Regrouped, SplitPair;
    if lines == [] {
      assert before + RefPairs(lines) == before;
    } else {
      var more := if SplitPair(REF, lines[0]).Some? then [SplitPair(REF, lines[0]).value] else [];
      ReadTrailerRefs(p, lines[0], before);
      ReadTrailersRefs(ReadTrailer(p, lines[0]).value, lines[1..], before + more);
      assert before + more + RefPairs(lines[1..]) == before + RefPairs(lines);
    }
  }

  /** The refs that a post comes back with are those of its fragments. */
  lemma RefsReadBack(p: Post)
    requires ValidPost(p) && ReadsBack(p)
    ensures Parse(PostMessage(p)).Read?
    ensures Parse(PostMessage(p)).parsed.kind == p.kind
    ensures Parse(PostMessage(p)).parsed.refs == Regrouped(RefPairs(Fragments(p)))
  {
    hide Parse, PostMessage, Fragments, IsTrailer, ReadTrailers, Regrouped, RefPairs, ReadsBack;
    ReadsBackExactly(p);
    PostReadsFragments(p);
    assert Start(p).refs == Regrouped([]) by { NothingRegrouped(); }
    ReadTrailersRefs(Start(p), Fragments(p), []);
    assert [] + RefPairs(Fragments(p)) == RefPairs(Fragments(p));
  }

  /** A plain Message-Id is one fragment of its own, so it changes nothing about the others. */
  lemma FragmentsOfNumbered(p: Post, messageId: Text)
    requires p.messageId.None? && Plain(messageId)
    ensures Fragments(p.(messageId := Some(messageId))) == [MESSAGE_ID + messageId] + Fragments(p)
  {
    hide PairLines, OptionalLine, Plain, SplitLines;
    var q := p.(messageId := Some(messageId));
    var (first, more) := (MESSAGE_ID + messageId, MoreTrailers(p));
    PrefixesArePlain();
    JoinIsPlain(MESSAGE_ID, messageId);
    NumberedTrailers(p, messageId);
    if more == [] {
      assert MoreTrailers(q) == [first];
      SplitOne(first);
      SplitNothing();
    } else {
      assert MoreTrailers(q)[1..] == more;
      SplitFirst(first, JoinLines(more));
    }
  }

  lemma NumberedTrailers(p: Post, messageId: Text)
    requires p.messageId.None?
    ensures MoreTrailers(p.(messageId := Some(messageId))) == [MESSAGE_ID + messageId] + MoreTrailers(p)
  {
    hide PairLines;
  }

  /** The condition on a post before it is numbered. */
  predicate ReadsBackNumbered(p: Post) {
    ReadsBack(p) && Starting(Fragments(p), MESSAGE_ID) == 0
  }

  lemma NumberedReadsBack(p: Post, messageId: Text)
    requires p.messageId.None? && messageId != [] && Plain(messageId)
    ensures ReadsBack(p.(messageId := Some(messageId))) <==> ReadsBackNumbered(p)
    ensures RefPairs(Fragments(p.(messageId := Some(messageId)))) == RefPairs(Fragments(p))
  {
    hide Fragments, SplitPair, Plain;
    var line := MESSAGE_ID + messageId;
    var all := [line] + Fragments(p);
    FragmentsOfNumbered(p, messageId);
    OnePrefix(line);
    assert MESSAGE_ID <= line && IsTrailer(line);
    assert SplitPair(REF, line).None? by { NoPair(line); }
    assert all[0] == line && all[1..] == Fragments(p);
    if ReadsBack(p.(messageId := Some(messageId))) {
      forall i | 0 <= i < |Fragments(p)| ensures IsTrailer(Fragments(p)[i]) { assert all[i + 1] == Fragments(p)[i]; }
    }
  }

  lemma NoPair(line: Text)
    requires !(REF <= line)
    ensures SplitPair(REF, line).None?
  {
  }

  // One separator in an otherwise clean post

  /** The post whose last ref goes on with a separator and more text. */
  function Continued(q: Post, c: CodePoint, rest: Text): Post
    requires q.refs != []
  {
    var n := |q.refs| - 1;
    q.(refs := q.refs[..n] + [Keyed(q.refs[n].key, q.refs[n].value + [c] + rest)])
  }

  lemma PairLineGrows(prefix: Text, p: Pair, more: Text)
    ensures PairLine(prefix, Keyed(p.key, p.value + more)) == PairLine(prefix, p) + more
  {
  }

  lemma ContinuedTrailers(q: Post, c: CodePoint, rest: Text)
    requires q.refs != []
    ensures JoinLines(MoreTrailers(Continued(q, c, rest))) == JoinLines(MoreTrailers(q)) + [c] + rest
  {
    hide PairLine, OptionalLine, JoinLines;
    var n := |q.refs| - 1;
    var front := OptionalLine(MESSAGE_ID, q.messageId) + OptionalLine(IN_REPLY_TO, q.inReplyTo)
      + PairLines(LINK, q.links) + PairLines(REF, q.refs[..n]);
    var (p, last, more) := (Continued(q, c, rest), PairLine(REF, q.refs[n]), [c] + rest);
    PairLinesSplit(REF, q.refs);
    PairLinesSplit(REF, p.refs);
    assert p.refs[..n] == q.refs[..n];
    assert q.refs[n].value + more == p.refs[n].value;
    PairLineGrows(REF, q.refs[n], more);
    assert MoreTrailers(q) == front + [last];
    assert MoreTrailers(p) == front + [last + more];
    JoinLastGrows(front, last, more);
    assert JoinLines(MoreTrailers(q)) + more == JoinLines(MoreTrailers(q)) + [c] + rest;
  }

  lemma ContinuedFragments(q: Post, c: CodePoint, rest: Text)
    requires ValidPost(q) && Clean(q) && q.refs != [] && IsOtherSeparator(c)
    ensures Fragments(Continued(q, c, rest)) == MoreTrailers(q) + SplitLines(rest)
  {
    hide Clean, ValidPost, MoreTrailers, SplitLines, JoinLines, Plain, Continued;
    TrailersArePlain(q);
    ContinuedTrailers(q, c, rest);
    MoreTrailersArePlain(q);
    SplitOfContinued(MoreTrailers(q), c, rest);
  }

  lemma MoreTrailersArePlain(q: Post)
    requires q.refs != [] && PlainLines(Trailers(q))
    ensures MoreTrailers(q) != [] && PlainLines(MoreTrailers(q))
  {
    hide Plain, PairLine;
    forall i | 0 <= i < |MoreTrailers(q)| ensures Plain(MoreTrailers(q)[i]) && MoreTrailers(q)[i] != [] {
      assert Trailers(q)[i + 1] == MoreTrailers(q)[i];
    }
  }

  lemma ContinuedIsValid(q: Post, c: CodePoint, rest: Text)
    requires ValidPost(q) && q.refs != [] && IsOtherSeparator(c) && OneLine(rest)
    ensures ValidPost(Continued(q, c, rest))
  {
    hide IsKind;
    var n := |q.refs| - 1;
    assert ValidPair(q.refs[n]);
    assert ValidPair(Keyed(q.refs[n].key, q.refs[n].value + [c] + rest));
  }

  /** A clean post with a separator in its last ref reads back as the clean post, continued by whatever
      trailers the text behind the separator makes. */
  lemma ContinuedReadsBack(q: Post, c: CodePoint, rest: Text)
    requires ValidPost(q) && Clean(q) && q.refs != [] && IsOtherSeparator(c) && OneLine(rest)
    ensures ValidPost(Continued(q, c, rest))
    ensures Parse(PostMessage(Continued(q, c, rest))) == match ReadTrailers(Expected(q), SplitLines(rest))
                                                         case None => Malformed("trailers")
                                                         case Some(parsed) => Read(parsed)
  {
    hide Parse, PostMessage, ValidPost, Clean, Fragments, MoreTrailers, ReadTrailers, SplitLines, OneLine, IsOtherSeparator, Expected;
    ContinuedIsValid(q, c, rest);
    ContinuedFragments(q, c, rest);
    PostReadsFragments(Continued(q, c, rest));
    ReadMoreTrailers(q);
    ReadTrailersJoin(Start(q), MoreTrailers(q), SplitLines(rest));
  }

  /** A separator at the end of the last ref is lost: the post reads back as the one without it. */
  lemma TrailingSeparatorIsLost(q: Post, c: CodePoint)
    requires ValidPost(q) && Clean(q) && q.refs != [] && IsOtherSeparator(c)
    ensures ValidPost(Continued(q, c, [])) && Parse(PostMessage(Continued(q, c, []))) == Read(Expected(q))
  {
    hide Parse, PostMessage, ValidPost, Clean, Continued, Expected;
    ContinuedReadsBack(q, c, []);
    SplitNothing();
  }

  /** A separator followed by text that is no trailer makes the post malformed, though `post` accepts it. */
  lemma StrayTextIsMalformed(q: Post, c: CodePoint, rest: Text)
    requires ValidPost(q) && Clean(q) && q.refs != [] && IsOtherSeparator(c)
    requires rest != [] && Plain(rest) && !IsTrailer(rest)
    ensures ValidPost(Continued(q, c, rest)) && Parse(PostMessage(Continued(q, c, rest))) == Malformed("trailers")
  {
    hide Parse, PostMessage, ValidPost, Clean, Continued, Expected, IsTrailer;
    assert OneLine(rest) by { PlainIsOneLine(rest); }
    ContinuedReadsBack(q, c, rest);
    SplitOne(rest);
    ReadTrailersExactly(Expected(q), [rest]);
    assert [rest][0] == rest;
  }

  lemma PlainIsOneLine(t: Text)
    requires Plain(t)
    ensures OneLine(t)
  {
  }

  /** The post {kind: qa, refs: {"k": "a\vb"}} is accepted and never read. */
  lemma AcceptedAndMalformed()
    ensures var p := Post(T("qa"), T("s"), [], None, [], None, [Keyed(T("k"), [0x61, 0x0B, 0x62])]);
            ValidPost(p) && Parse(PostMessage(p)) == Malformed("trailers")
  {
    hide Parse, PostMessage, ValidPost, Clean;
    var q := Post(T("qa"), T("s"), [], None, [], None, [Keyed(T("k"), [0x61])]);
    assert T("qa") == [0x71, 0x61] && T("s") == [0x73] && T("k") == [0x6B];
    assert ValidPair(q.refs[0]) && CleanPair(q.refs[0]);
    assert ValidPost(q) && Clean(q) by { SmallPostIsClean(q); }
    assert MESSAGE_ID[0] == 0x4D && IN_REPLY_TO[0] == 0x49 && LINK[0] == 0x4C && REF[0] == 0x52;
    StrayTextIsMalformed(q, 0x0B, [0x62]);
    assert q.refs[0].value + [0x0B] + [0x62] == [0x61, 0x0B, 0x62];
    assert Continued(q, 0x0B, [0x62]) == q.(refs := [Keyed(T("k"), [0x61, 0x0B, 0x62])]);
  }

  lemma SmallPostIsClean(q: Post)
    requires q.kind == [0x71, 0x61] && q.subject == [0x73] && q.messageId.None? && q.links == [] && q.inReplyTo.None?
    requires |q.refs| == 1 && ValidPair(q.refs[0]) && CleanPair(q.refs[0])
    ensures ValidPost(q) && Clean(q)
  {
  }
}
