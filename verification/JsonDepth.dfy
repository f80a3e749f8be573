/** The byte scanner that bounds nesting before a record is decoded, and its agreement with the
    printer's and the reader's own depth checks. */
module JsonDepth {
  import opened Prelude
  import opened Utf8
  import opened JsonNumber
  import opened Json
  import opened JsonReader
  import opened JsonRender
  import opened JsonCanonical
  import opened JsonLossless

  /** The scanner's variables; peak is the greatest depth reached, which its early exit tests. */
  datatype ScanState = ScanState(depth: nat, peak: nat, inString: bool, escaped: bool)

  const START := ScanState(0, 0, false, false)

  function Step(st: ScanState, c: int): ScanState {
    if st.inString then
      if st.escaped then st.(escaped := false)
      else if c == 0x5C then st.(escaped := true)
      else if c == 0x22 then st.(inString := false)
      else st
    else if c == 0x22 then st.(inString := true)
    else if c == 0x7B || c == 0x5B then st.(depth := st.depth + 1, peak := Max(st.peak, st.depth + 1))
    else if c == 0x7D || c == 0x5D then st.(depth := if st.depth == 0 then 0 else st.depth - 1)
    else st
  }

  function Run(s: seq<int>, st: ScanState): ScanState {
    if s == [] then st else Run(s[1..], Step(st, s[0]))
  }

  predicate Exceeds(record: seq<int>, limit: nat) {
    Run(record, START).peak > limit
  }

  lemma {:induction false} RunJoins(s: seq<int>, t: seq<int>, st: ScanState)
    ensures Run(s + t, st) == Run(t, Run(s, st))
  {
    if s == [] {
      assert s + t == t;
    } else {
      assert (s + t)[1..] == s[1..] + t;
      RunJoins(s[1..], t, Step(st, s[0]));
    }
  }

  lemma {:induction false} PeakGrows(s: seq<int>, st: ScanState)
    ensures Run(s, st).peak >= st.peak
  {
    if s != [] { PeakGrows(s[1..], Step(st, s[0])); }
  }

  /** `_json_depth_exceeds`: the loop that stops at the first depth over the limit. */
  method JsonDepthExceeds(record: Bytes, limit: nat) returns (exceeds: bool)
    ensures exceeds <==> Exceeds(record, limit)
  {
    var depth: nat, inString, escaped := 0, false, false;
    ghost var st := START;
    for i := 0 to |record|
      invariant Run(record, START) == Run(record[i..], st)
      invariant st.depth == depth && st.inString == inString && st.escaped == escaped
      invariant depth <= st.peak <= limit
    {
      var byte := record[i];
      assert record[i..][1..] == record[i + 1..];
      st := Step(st, byte);
      if inString {
        if escaped {
          escaped := false;
        } else if byte == 0x5C {
          escaped := true;
        } else if byte == 0x22 {
          inString := false;
        }
        continue;
      }
      if byte == 0x22 {
        inString := true;
      } else if byte == 0x7B || byte == 0x5B {
        depth := depth + 1;
        if depth > limit {
          PeakGrows(record[i + 1..], st);
          return true;
        }
      } else if byte == 0x7D || byte == 0x5D {
        depth := if depth == 0 then 0 else depth - 1;
      }
    }
    return false;
  }

  // Scanning the bytes of a text is scanning its code points

  lemma RunEncodeOne(c: CodePoint, st: ScanState)
    ensures Run(EncodeOne(c), st) == Step(st, c)
  {
    var b := EncodeOne(c);
    if c < 0x80 {
      assert b[1..] == [];
    } else {
      RunHigh(b[1..], Step(st, b[0]));
    }
  }

  lemma {:induction false} RunHigh(b: Bytes, st: ScanState)
    requires forall i :: 0 <= i < |b| ==> b[i] >= 0x80
    requires !st.escaped || !st.inString
    ensures Run(b, st) == st
  {
    if b != [] { RunHigh(b[1..], st); }
  }

  lemma {:induction false} RunConcat(t: Text, st: ScanState)
    ensures Run(Concat(t), st) == Run(t, st)
  {
    if t != [] {
      RunJoins(EncodeOne(t[0]), Concat(t[1..]), st);
      RunEncodeOne(t[0], st);
      RunConcat(t[1..], Step(st, t[0]));
    }
  }

  // The scanner over one JSON value

  predicate Outside(st: ScanState) {
    !st.inString && !st.escaped && st.peak >= st.depth
  }

  lemma {:induction false} RunSpace(s: Text, st: ScanState)
    requires Outside(st)
    ensures Run(s, st) == Run(SkipSpace(s), st)
  {
    if s != [] && IsSpace(s[0]) { RunSpace(s[1..], st); }
  }

  /** Characters that mean nothing to the scanner outside a string. */
  predicate Plain(s: Text) {
    forall i :: 0 <= i < |s| ==> s[i] != 0x22 && s[i] != 0x5B && s[i] != 0x5D && s[i] != 0x7B && s[i] != 0x7D
  }

  lemma {:induction false} RunPlain(s: Text, n: nat, st: ScanState)
    requires n <= |s| && Plain(s[..n]) && Outside(st)
    ensures Run(s, st) == Run(s[n..], st)
  {
    if n > 0 {
      assert s[0] == s[..n][0];
      assert s[1..][..n - 1] == s[..n][1..];
      RunPlain(s[1..], n - 1, st);
      assert s[1..][n - 1..] == s[n..];
    }
  }

  lemma HexIsPlain(s: Text, st: ScanState)
    requires HexQuad(s).Some? && st.inString && !st.escaped
    ensures Run(s, st) == Run(s[4..], st)
  {
    assert s[1..][1..] == s[2..] && s[2..][1..] == s[3..] && s[3..][1..] == s[4..];
    assert HexValue(s[0]).Some? && HexValue(s[1]).Some? && HexValue(s[2]).Some? && HexValue(s[3]).Some?;
    assert Run(s, st) == Run(s[1..], st);
    assert Run(s[1..], st) == Run(s[2..], st);
    assert Run(s[2..], st) == Run(s[3..], st);
  }

  lemma RunEscape(s: Text, st: ScanState)
    requires ScanEscape(s).Done? && st.inString && st.escaped
    ensures Run(s, st) == Run(ScanEscape(s).rest, st.(escaped := false))
  {
    var inside := st.(escaped := false);
    assert Run(s, st) == Run(s[1..], inside);
    if s[0] == 0x75 {
      HexIsPlain(s[1..], inside);
      assert s[1..][4..] == s[5..];
      if ScanEscape(s).rest != s[5..] {
        assert s[5..][1..] == s[6..] && s[6..][1..] == s[7..];
        assert Run(s[5..], inside) == Run(s[6..], st);
        assert Run(s[6..], st) == Run(s[7..], inside);
        HexIsPlain(s[7..], inside);
        assert s[7..][4..] == s[11..];
      }
    }
  }

  lemma {:induction false} RunString(s: Text, st: ScanState)
    requires ScanString(s).Done? && st.inString && !st.escaped
    ensures Run(s, st) == Run(ScanString(s).rest, st.(inString := false))
    decreases |s|
  {
    if s[0] == 0x22 {
    } else if s[0] == 0x5C {
      RunEscape(s[1..], st.(escaped := true));
      RunString(ScanEscape(s[1..]).rest, st);
    } else {
      RunString(s[1..], st);
    }
  }

  /** The scanner's state after a value of the given height. */
  function After(st: ScanState, height: nat): ScanState {
    st.(peak := Max(st.peak, st.depth + height))
  }

  function Opened(st: ScanState): ScanState {
    st.(depth := st.depth + 1, peak := Max(st.peak, st.depth + 1))
  }

  function ItemsHeight(items: seq<Json>): nat {
    if items == [] then 0 else Max(Height(items[0]), ItemsHeight(items[1..]))
  }

  function MembersHeight(members: seq<Member>): nat {
    if members == [] then 0 else Max(Height(members[0].value), MembersHeight(members[1..]))
  }

  lemma {:induction false} MaxHeightIs(parent: Json, children: seq<Json>)
    requires forall i :: 0 <= i < |children| ==> children[i] < parent
    ensures MaxHeight(parent, children) == ItemsHeight(children)
    decreases |children|
  {
    if children != [] { MaxHeightIs(parent, children[1..]); }
  }

  lemma {:induction false} MembersHeightIs(members: seq<Member>, children: seq<Json>)
    requires |children| == |members| && forall i :: 0 <= i < |members| ==> children[i] == members[i].value
    ensures MembersHeight(members) == ItemsHeight(children)
  {
    if members != [] { MembersHeightIs(members[1..], children[1..]); }
  }

  lemma ContainerHeight(v: Json)
    ensures v.Arr? ==> Height(v) == 1 + ItemsHeight(v.items)
    ensures v.Obj? ==> Height(v) == 1 + MembersHeight(v.members)
  {
    if IsContainer(v) {
      MaxHeightIs(v, Children(v));
      if v.Obj? { MembersHeightIs(v.members, Children(v)); }
    }
  }

  lemma {:induction false} RunValue(s: Text, st: ScanState)
    requires ScanValue(s).Done? && Outside(st)
    ensures Run(s, st) == Run(ScanValue(s).rest, After(st, Height(ScanValue(s).value)))
    decreases |s|, 1
  {
    if s[0] == 0x22 {
      RunString(s[1..], st.(inString := true));
    } else if s[0] == 0x5B {
      RunArray(s, st);
    } else if s[0] == 0x7B {
      RunObject(s, st);
    } else {
      RunScalar(s, st);
    }
  }

  /** Outside strings and containers the reader consumes plain characters only. */
  lemma ScalarIsPlain(s: Text) returns (n: nat)
    requires ScanValue(s).Done? && s[0] != 0x22 && s[0] != 0x5B && s[0] != 0x7B
    ensures n <= |s| && ScanValue(s).rest == s[n..] && Plain(s[..n]) && !IsContainer(ScanValue(s).value)
  {
    if s[0] == 0x6E && StartsWith(s, NULL_TOKEN) {
      n := 4;
    } else if s[0] == 0x74 && StartsWith(s, TRUE_TOKEN) {
      n := 4;
    } else if s[0] == 0x66 && StartsWith(s, FALSE_TOKEN) {
      n := 5;
    } else {
      n := NumberLength(s);
      TokenIsNumber(s);
      NumberIsPlain(s[..n]);
    }
  }

  lemma NumberIsPlain(token: Text)
    requires NumberCharacters(token)
    ensures Plain(token)
  {
    forall i | 0 <= i < |token|
      ensures token[i] != 0x22 && token[i] != 0x5B && token[i] != 0x5D && token[i] != 0x7B && token[i] != 0x7D
    {
      assert IsNumberCharacter(token[i]);
    }
  }

  lemma RunScalar(s: Text, st: ScanState)
    requires ScanValue(s).Done? && Outside(st) && s[0] != 0x22 && s[0] != 0x5B && s[0] != 0x7B
    ensures Run(s, st) == Run(ScanValue(s).rest, After(st, Height(ScanValue(s).value)))
  {
    var n := ScalarIsPlain(s);
    RunPlain(s, n, st);
    assert After(st, 0) == st;
  }

  lemma AfterBoth(st: ScanState, a: nat, b: nat)
    ensures After(After(st, a), b) == After(st, Max(a, b))
  {
  }

  lemma {:induction false} RunArray(s: Text, st: ScanState)
    requires ScanValue(s).Done? && Outside(st) && s[0] == 0x5B
    ensures Run(s, st) == Run(ScanValue(s).rest, After(st, Height(ScanValue(s).value)))
    decreases |s|, 0
  {
    var inner := SkipSpace(s[1..]);
    RunSpace(s[1..], Opened(st));
    ContainerHeight(ScanValue(s).value);
    if !(inner[0] == 0x5D) { RunItems(inner, Opened(st)); }
  }

  /** The state after a closing bracket, the tallest child having the given height. */
  function Closed(st: ScanState, height: nat): ScanState
    requires st.depth > 0
  {
    After(st, height).(depth := st.depth - 1)
  }

  lemma RunClose(s: Text, st: ScanState)
    requires Outside(st) && st.depth > 0 && s != [] && (s[0] == 0x5D || s[0] == 0x7D)
    ensures Run(s, st) == Run(s[1..], st.(depth := st.depth - 1))
  {
  }

  lemma RunComma(s: Text, st: ScanState)
    requires Outside(st) && s != [] && s[0] == 0x2C
    ensures Run(s, st) == Run(SkipSpace(s[1..]), st)
  {
    RunSpace(s[1..], st);
  }

  lemma {:induction false} RunItems(s: Text, st: ScanState)
    requires ScanItems(s).Done? && Outside(st) && st.depth > 0
    ensures Run(s, st) == Run(ScanItems(s).rest, Closed(st, ItemsHeight(ScanItems(s).value)))
    decreases |s|, 2
  {
    var head := ScanValue(s);
    RunValue(s, st);
    var next := After(st, Height(head.value));
    RunSpace(head.rest, next);
    var after := SkipSpace(head.rest);
    if after[0] == 0x5D {
      RunClose(after, next);
      assert ItemsHeight([head.value]) == Height(head.value);
    } else {
      RunComma(after, next);
      var more := ScanItems(SkipSpace(after[1..]));
      RunItems(SkipSpace(after[1..]), next);
      AfterBoth(st, Height(head.value), ItemsHeight(more.value));
      assert ([head.value] + more.value)[1..] == more.value;
    }
  }

  lemma {:induction false} RunObject(s: Text, st: ScanState)
    requires ScanValue(s).Done? && Outside(st) && s[0] == 0x7B
    ensures Run(s, st) == Run(ScanValue(s).rest, After(st, Height(ScanValue(s).value)))
    decreases |s|, 0
  {
    var inner := SkipSpace(s[1..]);
    RunSpace(s[1..], Opened(st));
    ContainerHeight(ScanValue(s).value);
    if !(inner[0] == 0x7D) { RunMembers(inner, Opened(st)); }
  }

  lemma {:induction false} RunMember(s: Text, st: ScanState)
    requires ScanMember(s).Done? && Outside(st)
    ensures Run(s, st) == Run(ScanMember(s).rest, After(st, Height(ScanMember(s).value.value)))
    decreases |s|, 0
  {
    RunString(s[1..], st.(inString := true));
    var rest := ScanString(s[1..]).rest;
    RunSpace(rest, st);
    var colon := SkipSpace(rest);
    RunSpace(colon[1..], st);
    RunValue(SkipSpace(colon[1..]), st);
  }

  lemma {:induction false} RunMembers(s: Text, st: ScanState)
    requires ScanMembers(s).Done? && Outside(st) && st.depth > 0
    ensures Run(s, st) == Run(ScanMembers(s).rest, Closed(st, MembersHeight(ScanMembers(s).value)))
    decreases |s|, 2
  {
    var head := ScanMember(s);
    RunMember(s, st);
    var next := After(st, Height(head.value.value));
    RunSpace(head.rest, next);
    var after := SkipSpace(head.rest);
    if after[0] == 0x7D {
      RunClose(after, next);
      assert MembersHeight([head.value]) == Height(head.value.value);
    } else {
      RunComma(after, next);
      var more := ScanMembers(SkipSpace(after[1..]));
      RunMembers(SkipSpace(after[1..]), next);
      AfterBoth(st, Height(head.value.value), MembersHeight(more.value));
      assert ([head.value] + more.value)[1..] == more.value;
    }
  }

  // Main results

  /** On every text the reader accepts, the scanner's peak is the height of the value. */
  lemma PeakIsHeight(text: Text)
    requires ReadText(text).Ok?
    ensures Run(text, START).peak == Height(ReadText(text).value)
  {
    RunSpace(text, START);
    RunValue(SkipSpace(text), START);
    var rest := ScanValue(SkipSpace(text)).rest;
    RunSpace(rest, After(START, Height(ReadText(text).value)));
  }

  /** For every byte string that is one JSON value, the byte scanner and the reader's walk refuse alike. */
  lemma ScannerAgreesWithReader(data: Bytes, limit: nat)
    requires Decode(data).Some? && ReadText(Decode(data).value).Ok? && limit >= 1
    ensures Exceeds(data, limit) <==> Loads(data, limit) == Err(TooDeep)
  {
    var text := Decode(data).value;
    ConcatDecode(data);
    RunConcat(text, START);
    PeakIsHeight(text);
  }

  /** The three depth checks on one value: the printer refuses it, the scanner refuses its printed
      bytes and the reader refuses them, or none of them does. */
  lemma DepthChecksAgree(v: Json, limit: nat, sortKeys: bool)
    requires Valid(v) && Supported(v) && Unicode(v) && limit >= 1
    ensures var bytes := Concat(Render(Arranged(v, sortKeys)));
            && (Dumps(v, limit, sortKeys) == Err(DepthExceeded) <==> Exceeds(bytes, limit))
            && (Loads(bytes, limit) == Err(TooDeep) <==> Exceeds(bytes, limit))
            && (Exceeds(bytes, limit) <==> Height(v) > limit)
  {
    var w := Arranged(v, sortKeys);
    UnicodeKeys(v);
    PrintsWhenFits(v, 0, limit, sortKeys);
    ArrangedKeeps(v, sortKeys);
    RenderScalar(w);
    DecodeConcat(Render(w));
    ReadRendered(w);
    RunConcat(Render(w), START);
    PeakIsHeight(Render(w));
  }
}
