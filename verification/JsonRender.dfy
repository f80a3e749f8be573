/** The printed form as a plain function of the value, and the reader's inverse of it. */
module JsonRender {
  import opened Prelude
  import opened Utf8
  import opened JsonNumber
  import opened Json
  import opened JsonReader

  /** The printed form without the printer's limits and refusals. */
  function Render(v: Json): Text
    decreases v, 1
  {
    match v
    case Null => NULL_TOKEN
    case Bool(b) => if b then TRUE_TOKEN else FALSE_TOKEN
    case Number(lexeme) => lexeme
    case Int(i) => IntText(i)
    case Str(s) => Quote(s)
    case Foreign => []
    case Arr(items) => [0x5B] + RenderItems(items) + [0x5D]
    case Obj(members) => [0x7B] + RenderMembers(members) + [0x7D]
  }

  function RenderItems(items: seq<Json>): Text
    decreases items, 0
  {
    if items == [] then []
    else if |items| == 1 then Render(items[0])
    else Render(items[0]) + [0x2C] + RenderItems(items[1..])
  }

  function RenderMember(m: Member): Text
    decreases m, 0
  {
    Quote(m.key) + [0x3A] + Render(m.value)
  }

  function RenderMembers(members: seq<Member>): Text
    decreases members, 0
  {
    if members == [] then []
    else if |members| == 1 then RenderMember(members[0])
    else RenderMember(members[0]) + [0x2C] + RenderMembers(members[1..])
  }

  /** What the printer takes: no value of a foreign type anywhere. */
  predicate Supported(v: Json)
    decreases v
  {
    match v
    case Foreign => false
    case Arr(items) => forall i :: 0 <= i < |items| ==> Supported(items[i])
    case Obj(members) => forall i :: 0 <= i < |members| ==> Supported(members[i].value)
    case _ => true
  }

  /** What the reader yields: supported, and every number still a token. */
  predicate Lossless(v: Json)
    decreases v
  {
    match v
    case Foreign => false
    case Int(_) => false
    case Arr(items) => forall i :: 0 <= i < |items| ==> Lossless(items[i])
    case Obj(members) => forall i :: 0 <= i < |members| ==> Lossless(members[i].value)
    case _ => true
  }

  // The scanners read back what Render wrote

  lemma ScanEscapedCharacter(c: CodePoint, rest: Text)
    ensures EscapeOne(c) != [] && EscapeOne(c)[0] >= 0x20 && EscapeOne(c)[0] != 0x22
    ensures EscapeOne(c)[0] != 0x5C ==> EscapeOne(c) == [c]
    ensures EscapeOne(c)[0] == 0x5C ==> ScanEscape((EscapeOne(c) + rest)[1..]) == Done(c, rest)
  {
    var e := EscapeOne(c);
    if e[0] == 0x5C {
      assert (e + rest)[1..] == e[1..] + rest;
      if |e| == 6 {
        var s := e[1..] + rest;
        assert s[5..] == rest;
        var q := s[1..];
        assert q[0] == 0x30 && q[1] == 0x30 && q[2] == HexDigit(c / 16) && q[3] == HexDigit(c % 16);
        assert HexValue(q[2]) == Some(c / 16) && HexValue(q[3]) == Some(c % 16);
        assert HexQuad(q) == Some(c);
      } else {
        assert (e[1..] + rest)[1..] == rest;
      }
    }
  }

  lemma {:induction false} ScanEscaped(s: Text, rest: Text)
    ensures ScanString(Escape(s) + [0x22] + rest) == Done(s, rest)
  {
    if s == [] {
      assert ([0x22] + rest)[1..] == rest;
      assert Escape(s) + [0x22] + rest == [0x22] + rest;
    } else {
      var tail := Escape(s[1..]) + [0x22] + rest;
      var all := EscapeOne(s[0]) + tail;
      assert Escape(s) + [0x22] + rest == all;
      ScanEscapedCharacter(s[0], tail);
      ScanEscaped(s[1..], rest);
      if EscapeOne(s[0])[0] != 0x5C { assert all[1..] == tail; }
      assert all[0] == EscapeOne(s[0])[0];
      assert s == [s[0]] + s[1..];
    }
  }

  lemma ScanQuoted(s: Text, rest: Text)
    ensures var all := Quote(s) + rest; all[0] == 0x22 && ScanString(all[1..]) == Done(s, rest)
  {
    assert (Quote(s) + rest)[1..] == Escape(s) + [0x22] + rest;
    ScanEscaped(s, rest);
  }

  predicate StartsValue(s: Text) {
    s != [] && !IsSpace(s[0]) && s[0] != 0x5D && s[0] != 0x7D && s[0] != 0x2C
  }

  lemma NumberStart(lexeme: Text)
    requires IsNumber(lexeme)
    ensures IsDigit(lexeme[0]) || lexeme[0] == 0x2D
  {
  }

  lemma RenderStarts(v: Json, rest: Text)
    requires Valid(v) && Lossless(v)
    ensures StartsValue(Render(v) + rest)
  {
    if v.Number? { NumberStart(v.lexeme); }
  }

  lemma ScanToken(s: Text, n: nat)
    requires s != [] && (IsDigit(s[0]) || s[0] == 0x2D) && NumberLength(s) == n > 0
    ensures ScanValue(s) == Done(Number(s[..n]), s[n..])
  {
    hide NumberLength, SkipSpace, ScanString, ScanItems, ScanMembers, StartsWith;
  }

  lemma ScanNumber(lexeme: Text, rest: Text)
    requires IsNumber(lexeme) && Delimits(rest)
    ensures ScanValue(lexeme + rest) == Done(Number(lexeme), rest)
  {
    NumberStart(lexeme);
    TokenIsMaximal(lexeme, rest);
    var all := lexeme + rest;
    assert all[..|lexeme|] == lexeme && all[|lexeme|..] == rest;
    ScanToken(all, |lexeme|);
  }

  lemma ScanConstant(token: Text, rest: Text)
    requires token == NULL_TOKEN || token == TRUE_TOKEN || token == FALSE_TOKEN
    ensures ScanValue(token + rest)
         == Done(if token == NULL_TOKEN then Null else Bool(token == TRUE_TOKEN), rest)
  {
    var all := token + rest;
    assert all[..|token|] == token && all[|token|..] == rest;
    assert all[0] == token[0];
  }

  lemma ScanEmpty(open: CodePoint, rest: Text)
    requires open == 0x5B || open == 0x7B
    ensures ScanValue([open, open + 2] + rest) == Done(if open == 0x5B then Arr([]) else Obj([]), rest)
  {
    var all := [open, open + 2] + rest;
    assert all[1..] == [open + 2] + rest;
    assert all[1..][1..] == rest;
  }

  lemma {:induction false} ScanRendered(v: Json, rest: Text)
    requires Valid(v) && Lossless(v) && Delimits(rest)
    ensures ScanValue(Render(v) + rest) == Done(v, rest)
    decreases v, 1
  {
    match v
    case Null => ScanConstant(NULL_TOKEN, rest);
    case Bool(b) => ScanConstant(if b then TRUE_TOKEN else FALSE_TOKEN, rest);
    case Number(lexeme) => ScanNumber(lexeme, rest);
    case Str(s) => ScanQuoted(s, rest);
    case Arr(items) => ScanRenderedArray(v, items, rest);
    case Obj(members) => ScanRenderedObject(v, members, rest);
  }

  lemma {:induction false} ScanRenderedArray(v: Json, items: seq<Json>, rest: Text)
    requires v == Arr(items) && Valid(v) && Lossless(v)
    ensures ScanValue(Render(v) + rest) == Done(v, rest)
    decreases v, 0
  {
    if items == [] {
      assert Render(v) == [0x5B, 0x5D];
      ScanEmpty(0x5B, rest);
    } else {
      var inner := RenderItems(items) + [0x5D] + rest;
      assert (Render(v) + rest)[1..] == inner;
      ItemsStart(items, [0x5D] + rest);
      assert inner == RenderItems(items) + ([0x5D] + rest);
      ScanRenderedItems(items, rest);
    }
  }

  lemma {:induction false} ScanRenderedObject(v: Json, members: seq<Member>, rest: Text)
    requires v == Obj(members) && Valid(v) && Lossless(v)
    ensures ScanValue(Render(v) + rest) == Done(v, rest)
    decreases v, 0
  {
    if members == [] {
      assert Render(v) == [0x7B, 0x7D];
      ScanEmpty(0x7B, rest);
    } else {
      var inner := RenderMembers(members) + [0x7D] + rest;
      assert (Render(v) + rest)[1..] == inner;
      MembersStart(members);
      assert inner[0] == RenderMembers(members)[0];
      ScanRenderedMembers(members, rest);
    }
  }

  lemma MembersStart(members: seq<Member>)
    requires members != []
    ensures RenderMembers(members) != [] && RenderMembers(members)[0] == 0x22
  {
  }

  lemma ItemsStart(items: seq<Json>, rest: Text)
    requires items != [] && Valid(items[0]) && Lossless(items[0])
    ensures StartsValue(RenderItems(items) + rest)
  {
    RenderStarts(items[0], []);
    assert Render(items[0]) + [] == Render(items[0]);
  }

  lemma Regroup(head: Text, comma: Text, tail: Text, close: Text, rest: Text)
    ensures head + comma + tail + close + rest == head + (comma + (tail + close + rest))
  {
  }

  lemma LastItem(s: Text, head: Json, rest: Text)
    requires ScanValue(s) == Done(head, [0x5D] + rest)
    ensures ScanItems(s) == Done([head], rest)
  {
    assert ([0x5D] + rest)[1..] == rest;
  }

  lemma NextItem(s: Text, head: Json, next: Text, tail: seq<Json>, rest: Text)
    requires ScanValue(s) == Done(head, [0x2C] + next)
    requires StartsValue(next) && ScanItems(next) == Done(tail, rest)
    ensures ScanItems(s) == Done([head] + tail, rest)
  {
    assert ([0x2C] + next)[1..] == next;
  }

  lemma {:induction false} ScanRenderedItems(items: seq<Json>, rest: Text)
    requires forall i :: 0 <= i < |items| ==> Valid(items[i]) && Lossless(items[i])
    requires items != []
    ensures ScanItems(RenderItems(items) + [0x5D] + rest) == Done(items, rest)
    decreases items, 0
  {
    hide ScanItems, ScanValue, Render, StartsValue, Valid, Lossless;
    var all := RenderItems(items) + [0x5D] + rest;
    var head := Render(items[0]);
    if |items| == 1 {
      assert all == head + ([0x5D] + rest);
      ScanRendered(items[0], [0x5D] + rest);
      LastItem(all, items[0], rest);
      assert items == [items[0]];
    } else {
      var more := RenderItems(items[1..]);
      var next := more + [0x5D] + rest;
      assert all == head + ([0x2C] + next) by {
        assert RenderItems(items) == head + [0x2C] + more;
        Regroup(head, [0x2C], more, [0x5D], rest);
      }
      assert ScanValue(all) == Done(items[0], [0x2C] + next) by { ScanRendered(items[0], [0x2C] + next); }
      assert StartsValue(next) by {
        ItemsStart(items[1..], [0x5D] + rest);
        assert next == more + ([0x5D] + rest);
      }
      assert ScanItems(next) == Done(items[1..], rest) by { ScanRenderedItems(items[1..], rest); }
      NextItem(all, items[0], next, items[1..], rest);
      assert items == [items[0]] + items[1..];
    }
  }

  lemma ScanKeyed(key: Text, value: Json, text: Text, rest: Text)
    requires StartsValue(text) && ScanValue(text) == Done(value, rest)
    ensures ScanMember(Quote(key) + [0x3A] + text) == Done(Keyed(key, value), rest)
  {
    var colon := [0x3A] + text;
    var all := Quote(key) + [0x3A] + text;
    assert all == Quote(key) + colon;
    ScanQuoted(key, colon);
    assert colon[1..] == text;
  }

  lemma {:induction false} ScanRenderedMember(m: Member, rest: Text)
    requires Valid(m.value) && Lossless(m.value) && Delimits(rest)
    ensures ScanMember(RenderMember(m) + rest) == Done(m, rest)
    decreases m, 0
  {
    var text := Render(m.value) + rest;
    RenderStarts(m.value, rest);
    ScanRendered(m.value, rest);
    ScanKeyed(m.key, m.value, text, rest);
    assert RenderMember(m) + rest == Quote(m.key) + [0x3A] + text;
  }

  lemma LastMember(s: Text, head: Member, rest: Text)
    requires ScanMember(s) == Done(head, [0x7D] + rest)
    ensures ScanMembers(s) == Done([head], rest)
  {
    assert ([0x7D] + rest)[1..] == rest;
  }

  lemma NextMember(s: Text, head: Member, next: Text, tail: seq<Member>, rest: Text)
    requires ScanMember(s) == Done(head, [0x2C] + next)
    requires StartsValue(next) && ScanMembers(next) == Done(tail, rest)
    ensures ScanMembers(s) == Done([head] + tail, rest)
  {
    assert ([0x2C] + next)[1..] == next;
  }

  lemma {:induction false} ScanRenderedMembers(members: seq<Member>, rest: Text)
    requires forall i :: 0 <= i < |members| ==>
      Valid(members[i].value) && Lossless(members[i].value)
    requires members != []
    ensures ScanMembers(RenderMembers(members) + [0x7D] + rest) == Done(members, rest)
    decreases members, 0
  {
    hide ScanMembers, ScanMember, Quote;
    var all := RenderMembers(members) + [0x7D] + rest;
    if |members| == 1 {
      assert all == RenderMember(members[0]) + ([0x7D] + rest);
      ScanRenderedMember(members[0], [0x7D] + rest);
      LastMember(all, members[0], rest);
      assert members == [members[0]];
    } else {
      var next := RenderMembers(members[1..]) + [0x7D] + rest;
      assert all == RenderMember(members[0]) + ([0x2C] + next) by {
        assert RenderMembers(members) == RenderMember(members[0]) + [0x2C] + RenderMembers(members[1..]);
        Regroup(RenderMember(members[0]), [0x2C], RenderMembers(members[1..]), [0x7D], rest);
      }
      assert ScanMember(all) == Done(members[0], [0x2C] + next) by {
        ScanRenderedMember(members[0], [0x2C] + next);
      }
      assert StartsValue(next) by {
        MembersStart(members[1..]);
        assert next[0] == RenderMembers(members[1..])[0];
      }
      assert ScanMembers(next) == Done(members[1..], rest) by { ScanRenderedMembers(members[1..], rest); }
      NextMember(all, members[0], next, members[1..], rest);
      assert members == [members[0]] + members[1..];
    }
  }

  lemma ReadRendered(v: Json)
    requires Valid(v) && Lossless(v)
    ensures ReadText(Render(v)) == Ok(v)
  {
    RenderStarts(v, []);
    assert Render(v) + [] == Render(v);
    ScanRendered(v, []);
  }
}
