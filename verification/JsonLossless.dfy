/** What the lossless boundary promises: reading printed bytes gives the value back, and the bytes
    depend on the value alone, not on the order its members were inserted in. */
module JsonLossless {
  import opened Prelude
  import opened Utf8
  import opened JsonNumber
  import opened Json
  import opened JsonReader
  import opened JsonRender
  import opened JsonCanonical
  import opened JsonOrder

  /** Every string of v, keys included, has a UTF-8 encoding. */
  predicate Unicode(v: Json)
    decreases v
  {
    match v
    case Str(s) => ScalarText(s)
    case Arr(items) => forall i :: 0 <= i < |items| ==> Unicode(items[i])
    case Obj(members) => ScalarKeys(members) && forall i :: 0 <= i < |members| ==> Unicode(members[i].value)
    case _ => true
  }

  // Arranging keeps validity and height, and leaves tokens only

  lemma {:induction false} ArrangedMemberIs(members: seq<Member>, sortKeys: bool, i: nat)
    requires i < |members|
    ensures ArrangedMembers(members, sortKeys)[i] == Keyed(members[i].key, Arranged(members[i].value, sortKeys))
  {
    if i > 0 { ArrangedMemberIs(members[1..], sortKeys, i - 1); }
  }

  lemma {:induction false} ArrangedItemIs(items: seq<Json>, sortKeys: bool, i: nat)
    requires i < |items|
    ensures ArrangedItems(items, sortKeys)[i] == Arranged(items[i], sortKeys)
  {
    if i > 0 { ArrangedItemIs(items[1..], sortKeys, i - 1); }
  }

  /** The member of v that a member of its arrangement comes from. */
  lemma OrderedFrom(members: seq<Member>, sortKeys: bool, m: Member) returns (i: nat)
    requires m in Order(ArrangedMembers(members, sortKeys), sortKeys)
    ensures i < |members| && m == Keyed(members[i].key, Arranged(members[i].value, sortKeys))
  {
    var all := ArrangedMembers(members, sortKeys);
    OrderMember(all, sortKeys, m);
    i :| 0 <= i < |all| && all[i] == m;
    ArrangedMemberIs(members, sortKeys, i);
  }

  lemma OrderLength<T>(xs: seq<Keyed<T>>, sortKeys: bool)
    ensures |Order(xs, sortKeys)| == |xs|
  {
    if sortKeys { SortLength(xs); }
  }

  /** What arranging keeps of one value. */
  predicate Kept(v: Json, arranged: Json) {
    && (Valid(v) ==> Valid(arranged))
    && (Supported(v) ==> Lossless(arranged))
    && (Unicode(v) ==> Unicode(arranged))
    && Height(arranged) == Height(v)
  }

  lemma {:induction false} ArrangedKeeps(v: Json, sortKeys: bool)
    ensures Kept(v, Arranged(v, sortKeys))
    decreases v, 1
  {
    match v
    case Int(i) => IntTextIsToken(i);
    case Arr(items) =>
      var arranged := ArrangedItems(items, sortKeys);
      forall i | 0 <= i < |items| ensures arranged[i] == Arranged(items[i], sortKeys) && Kept(items[i], arranged[i]) {
        ArrangedItemIs(items, sortKeys, i);
        ArrangedKeeps(items[i], sortKeys);
      }
      SameHeights(v, Arr(arranged));
    case Obj(members) => ArrangedKeepsMembers(v, members, sortKeys);
    case _ =>
  }

  /** m comes from a member whose value keeps what m's value needs. */
  predicate FromMember(members: seq<Member>, m: Member) {
    exists i :: 0 <= i < |members| && m.key == members[i].key && Kept(members[i].value, m.value)
  }

  lemma KeptObject(members: seq<Member>, ordered: seq<Member>)
    requires forall k :: 0 <= k < |ordered| ==> FromMember(members, ordered[k])
    requires DistinctKeys(members) ==> DistinctKeys(ordered)
    requires Height(Obj(ordered)) == Height(Obj(members))
    ensures Kept(Obj(members), Obj(ordered))
  {
    hide Height, DistinctKeys;
    forall k | 0 <= k < |ordered|
      ensures Valid(Obj(members)) ==> Valid(ordered[k].value)
      ensures Supported(Obj(members)) ==> Lossless(ordered[k].value)
      ensures Unicode(Obj(members)) ==> Unicode(ordered[k].value) && ScalarText(ordered[k].key)
    {
      assert FromMember(members, ordered[k]);
    }
  }

  lemma {:induction false} ArrangedKeepsMembers(v: Json, members: seq<Member>, sortKeys: bool)
    requires v == Obj(members)
    ensures Kept(v, Arranged(v, sortKeys))
    decreases v, 0
  {
    hide Kept;
    var all := ArrangedMembers(members, sortKeys);
    var ordered := Order(all, sortKeys);
    forall i | 0 <= i < |members| ensures Kept(members[i].value, Arranged(members[i].value, sortKeys)) {
      ArrangedKeeps(members[i].value, sortKeys);
    }
    forall k | 0 <= k < |ordered| ensures FromMember(members, ordered[k]) {
      var i := OrderedFrom(members, sortKeys, ordered[k]);
    }
    if DistinctKeys(members) { OrderDistinct(all, sortKeys); }
    KeptHeights(members, sortKeys);
    KeptObject(members, ordered);
  }

  lemma KeptHeights(members: seq<Member>, sortKeys: bool)
    requires forall i :: 0 <= i < |members| ==> Kept(members[i].value, Arranged(members[i].value, sortKeys))
    ensures Height(Obj(Order(ArrangedMembers(members, sortKeys), sortKeys))) == Height(Obj(members))
  {
    ObjectHeights(members, sortKeys);
  }

  lemma SameHeights(v: Json, w: Json)
    requires v.Arr? && w.Arr? && |v.items| == |w.items|
    requires forall i :: 0 <= i < |v.items| ==> Height(v.items[i]) == Height(w.items[i])
    ensures Height(v) == Height(w)
  {
    MaxHeightBounds(v, Children(v), Height(w) - 1);
    MaxHeightBounds(w, Children(w), Height(v) - 1);
    MaxHeightBounds(w, Children(w), Height(w) - 1);
    MaxHeightBounds(v, Children(v), Height(v) - 1);
  }

  lemma ObjectHeights(members: seq<Member>, sortKeys: bool)
    requires forall i :: 0 <= i < |members| ==> Height(Arranged(members[i].value, sortKeys)) == Height(members[i].value)
    ensures Height(Obj(Order(ArrangedMembers(members, sortKeys), sortKeys))) == Height(Obj(members))
  {
    var all := ArrangedMembers(members, sortKeys);
    var ordered := Order(all, sortKeys);
    var v, w := Obj(members), Obj(ordered);
    MaxHeightBounds(v, Children(v), Height(v) - 1);
    MaxHeightBounds(w, Children(w), Height(w) - 1);
    forall k | 0 <= k < |ordered| ensures Height(Children(w)[k]) <= Height(v) - 1 {
      var i := OrderedFrom(members, sortKeys, ordered[k]);
      assert Height(Children(v)[i]) <= Height(v) - 1;
    }
    forall i | 0 <= i < |members| ensures Height(Children(v)[i]) <= Height(w) - 1 {
      ArrangedMemberIs(members, sortKeys, i);
      OrderMember(all, sortKeys, all[i]);
      var k :| 0 <= k < |ordered| && ordered[k] == all[i];
      assert Height(Children(w)[k]) <= Height(w) - 1;
    }
    MaxHeightBounds(w, Children(w), Height(v) - 1);
    MaxHeightBounds(v, Children(v), Height(w) - 1);
  }

  // Printed text is encodable exactly when the value is

  lemma ScalarJoin(s: Text, t: Text)
    ensures ScalarText(s + t) <==> ScalarText(s) && ScalarText(t)
  {
    assert (s + t)[..|s|] == s && (s + t)[|s|..] == t;
    if ScalarText(s + t) {
      forall i | 0 <= i < |t| ensures IsScalar(t[i]) { assert t[i] == (s + t)[|s| + i]; }
    }
  }

  lemma {:induction false} EscapeScalar(s: Text)
    ensures ScalarText(Escape(s)) <==> ScalarText(s)
  {
    if s != [] {
      EscapeScalar(s[1..]);
      ScalarJoin(EscapeOne(s[0]), Escape(s[1..]));
      ScalarJoin([s[0]], s[1..]);
      assert s == [s[0]] + s[1..];
      assert ScalarText(EscapeOne(s[0])) <==> ScalarText([s[0]]);
    }
  }

  lemma QuoteScalar(s: Text)
    ensures ScalarText(Quote(s)) <==> ScalarText(s)
  {
    EscapeScalar(s);
    ScalarJoin([0x22] + Escape(s), [0x22]);
    ScalarJoin([0x22], Escape(s));
  }

  lemma NumberScalar(lexeme: Text)
    requires IsNumber(lexeme)
    ensures ScalarText(lexeme)
  {
    TokenIsNumber(lexeme);
    assert lexeme[..NumberLength(lexeme)] == lexeme;
    forall i | 0 <= i < |lexeme| ensures IsScalar(lexeme[i]) { assert IsNumberCharacter(lexeme[i]); }
  }

  lemma BracketScalar(open: CodePoint, inner: Text, close: CodePoint)
    requires IsScalar(open) && IsScalar(close)
    ensures ScalarText([open] + inner + [close]) <==> ScalarText(inner)
  {
    ScalarJoin([open] + inner, [close]);
    ScalarJoin([open], inner);
  }

  lemma {:induction false} RenderScalar(v: Json)
    requires Valid(v) && Lossless(v)
    ensures ScalarText(Render(v)) <==> Unicode(v)
    decreases v, 1
  {
    match v
    case Number(lexeme) => NumberScalar(lexeme);
    case Str(s) => QuoteScalar(s);
    case Arr(items) =>
      RenderItemsScalar(items);
      BracketScalar(0x5B, RenderItems(items), 0x5D);
    case Obj(members) =>
      RenderMembersScalar(members);
      BracketScalar(0x7B, RenderMembers(members), 0x7D);
    case _ =>
  }

  lemma {:induction false} RenderItemsScalar(items: seq<Json>)
    requires forall i :: 0 <= i < |items| ==> Valid(items[i]) && Lossless(items[i])
    ensures ScalarText(RenderItems(items)) <==> forall i :: 0 <= i < |items| ==> Unicode(items[i])
    decreases items, 0
  {
    if items != [] {
      RenderScalar(items[0]);
      assert items == [items[0]] + items[1..];
      if |items| > 1 {
        RenderItemsScalar(items[1..]);
        ScalarJoin(Render(items[0]) + [0x2C], RenderItems(items[1..]));
        ScalarJoin(Render(items[0]), [0x2C]);
      }
    }
  }

  lemma {:induction false} RenderMemberScalar(m: Member)
    requires Valid(m.value) && Lossless(m.value)
    ensures ScalarText(RenderMember(m)) <==> ScalarText(m.key) && Unicode(m.value)
    decreases m, 0
  {
    QuoteScalar(m.key);
    RenderScalar(m.value);
    ScalarJoin(Quote(m.key) + [0x3A], Render(m.value));
    ScalarJoin(Quote(m.key), [0x3A]);
  }

  lemma {:induction false} RenderMembersScalar(members: seq<Member>)
    requires forall i :: 0 <= i < |members| ==> Valid(members[i].value) && Lossless(members[i].value)
    ensures ScalarText(RenderMembers(members))
      <==> forall i :: 0 <= i < |members| ==> ScalarText(members[i].key) && Unicode(members[i].value)
    decreases members, 0
  {
    if members != [] {
      RenderMemberScalar(members[0]);
      assert members == [members[0]] + members[1..];
      if |members| > 1 {
        RenderMembersScalar(members[1..]);
        ScalarJoin(RenderMember(members[0]) + [0x2C], RenderMembers(members[1..]));
        ScalarJoin(RenderMember(members[0]), [0x2C]);
      }
    }
  }

  lemma {:induction false} UnicodeKeys(v: Json)
    requires Unicode(v)
    ensures KeysScalar(v)
    decreases v
  {
    match v
    case Arr(items) => forall i | 0 <= i < |items| ensures KeysScalar(items[i]) { UnicodeKeys(items[i]); }
    case Obj(members) =>
      forall i | 0 <= i < |members| ensures KeysScalar(members[i].value) { UnicodeKeys(members[i].value); }
    case _ =>
  }

  // Main results

  /** Every value of JSON types whose strings are Unicode and whose height is within the limit
      prints, and reading the bytes gives it back: members in printing order, number tokens verbatim,
      a plain int as its decimal token. */
  lemma LosslessRoundTrip(v: Json, limit: int, sortKeys: bool)
    requires Valid(v) && Supported(v) && Unicode(v) && 1 <= limit && Height(v) <= limit
    ensures Dumps(v, limit, sortKeys).Ok?
    ensures Loads(Dumps(v, limit, sortKeys).value, limit) == Ok(Arranged(v, sortKeys))
  {
    UnicodeKeys(v);
    PrintsWhenFits(v, 0, limit, sortKeys);
    var arranged := Arranged(v, sortKeys);
    ArrangedKeeps(v, sortKeys);
    RenderScalar(arranged);
    DecodeConcat(Render(arranged));
    ReadRendered(arranged);
  }

  /** Arranging loses no string. */
  lemma {:induction false} UnicodeComesBack(v: Json, sortKeys: bool)
    requires Unicode(Arranged(v, sortKeys))
    ensures Unicode(v)
    decreases v
  {
    match v
    case Arr(items) =>
      forall i | 0 <= i < |items| ensures Unicode(items[i]) {
        ArrangedItemIs(items, sortKeys, i);
        assert Unicode(ArrangedItems(items, sortKeys)[i]);
        UnicodeComesBack(items[i], sortKeys);
      }
    case Obj(members) =>
      var all := ArrangedMembers(members, sortKeys);
      var ordered := Order(all, sortKeys);
      forall i | 0 <= i < |members| ensures ScalarText(members[i].key) && Unicode(members[i].value) {
        ArrangedMemberIs(members, sortKeys, i);
        OrderMember(all, sortKeys, all[i]);
        var k :| 0 <= k < |ordered| && ordered[k] == all[i];
        assert ScalarText(ordered[k].key) && Unicode(ordered[k].value);
        UnicodeComesBack(members[i].value, sortKeys);
      }
    case _ =>
  }

  /** A value prints if and only if it is made of JSON types and Unicode strings and is within the limit, and
      whatever is printed is text that the reader accepts and reads back as the arranged value. */
  lemma PrintsOnlyJson(v: Json, limit: int, sortKeys: bool)
    requires Valid(v)
    ensures Dumps(v, limit, sortKeys).Ok? <==> 1 <= limit && Supported(v) && Unicode(v) && Height(v) <= limit
    ensures Dumps(v, limit, sortKeys).Ok? ==>
      && Dumps(v, limit, sortKeys) == Ok(Concat(Render(Arranged(v, sortKeys))))
      && Loads(Dumps(v, limit, sortKeys).value, limit) == Ok(Arranged(v, sortKeys))
  {
    hide Loads, Render, Height, Supported, Unicode, Lossless;
    if 1 <= limit && Supported(v) && Unicode(v) && Height(v) <= limit { LosslessRoundTrip(v, limit, sortKeys); }
    if Dumps(v, limit, sortKeys).Ok? {
      PrintsWhenFits(v, 0, limit, sortKeys);
      ArrangedKeeps(v, sortKeys);
      RenderScalar(Arranged(v, sortKeys));
      UnicodeComesBack(v, sortKeys);
      LosslessRoundTrip(v, limit, sortKeys);
    }
  }

  // Insertion order

  /** Python's `==` on JSON values: objects are equal when they hold equal values under the same keys. */
  predicate SameValue(v: Json, w: Json)
    decreases v, 0
  {
    match (v, w)
    case (Arr(a), Arr(b)) => |a| == |b| && forall i :: 0 <= i < |a| ==> SameValue(a[i], b[i])
    case (Obj(a), Obj(b)) =>
      && |a| == |b|
      && (forall i :: 0 <= i < |a| ==> InTarget(a[i], b))
      && (forall j :: 0 <= j < |b| ==> InSource(a, b[j]))
    case _ => v == w
  }

  /** b holds an equal value under m's key. */
  predicate InTarget(m: Member, b: seq<Member>)
    decreases m, 0
  {
    exists j :: 0 <= j < |b| && m.key == b[j].key && SameValue(m.value, b[j].value)
  }

  predicate InSource(a: seq<Member>, m: Member)
    decreases a, 0
  {
    exists i :: 0 <= i < |a| && a[i].key == m.key && SameValue(a[i].value, m.value)
  }

  lemma {:induction false} SameValuesArrangeAlike(v: Json, w: Json)
    requires Valid(v) && Valid(w) && KeysScalar(v) && SameValue(v, w)
    ensures Arranged(v, true) == Arranged(w, true)
    decreases v, 1
  {
    match (v, w)
    case (Arr(a), Arr(b)) =>
      forall i | 0 <= i < |a| ensures ArrangedItems(a, true)[i] == ArrangedItems(b, true)[i] {
        SameValuesArrangeAlike(a[i], b[i]);
        ArrangedItemIs(a, true, i);
        ArrangedItemIs(b, true, i);
      }
    case (Obj(a), Obj(b)) =>
      SameMembersArrangeAlike(v, a, b);
    case _ =>
  }

  lemma {:induction false} MemberArrangesAlike(a: seq<Member>, b: seq<Member>, i: nat, j: nat)
    requires i < |a| && j < |b| && a[i].key == b[j].key && SameValue(a[i].value, b[j].value)
    requires Valid(a[i].value) && Valid(b[j].value) && KeysScalar(a[i].value)
    ensures ArrangedMembers(a, true)[i] == ArrangedMembers(b, true)[j]
    decreases a[i].value, 2
  {
    SameValuesArrangeAlike(a[i].value, b[j].value);
    ArrangedMemberIs(a, true, i);
    ArrangedMemberIs(b, true, j);
  }

  lemma {:induction false} SameMembersArrangeAlike(v: Json, a: seq<Member>, b: seq<Member>)
    requires v == Obj(a) && Valid(v) && Valid(Obj(b)) && KeysScalar(v) && SameValue(v, Obj(b))
    ensures Arranged(v, true) == Arranged(Obj(b), true)
    decreases v, 0
  {
    hide Sort, Arranged;
    var xs, ys := ArrangedMembers(a, true), ArrangedMembers(b, true);
    forall i | 0 <= i < |a| ensures xs[i] in ys {
      assert InTarget(a[i], b);
      var j :| 0 <= j < |b| && a[i].key == b[j].key && SameValue(a[i].value, b[j].value);
      MemberArrangesAlike(a, b, i, j);
    }
    forall j | 0 <= j < |b| ensures ys[j] in xs {
      assert InSource(a, b[j]);
      var i :| 0 <= i < |a| && a[i].key == b[j].key && SameValue(a[i].value, b[j].value);
      MemberArrangesAlike(a, b, i, j);
    }
    SameArrangedMembers(a, b);
  }

  lemma SameArrangedMembers(a: seq<Member>, b: seq<Member>)
    requires KeysScalar(Obj(a)) && DistinctKeys(a) && DistinctKeys(b) && |a| == |b|
    requires forall i :: 0 <= i < |a| ==> ArrangedMembers(a, true)[i] in ArrangedMembers(b, true)
    requires forall j :: 0 <= j < |b| ==> ArrangedMembers(b, true)[j] in ArrangedMembers(a, true)
    ensures Arranged(Obj(a), true) == Arranged(Obj(b), true)
  {
    hide Sort;
    SortIsCanonical(ArrangedMembers(a, true), ArrangedMembers(b, true));
  }

  /** A member of one arrangement of equal arrangements has its counterpart in the other value. */
  lemma ArrangedCounterpart(a: seq<Member>, b: seq<Member>, i: nat) returns (j: nat)
    requires Order(ArrangedMembers(a, true), true) == Order(ArrangedMembers(b, true), true)
    requires i < |a|
    ensures j < |b| && a[i].key == b[j].key && Arranged(a[i].value, true) == Arranged(b[j].value, true)
  {
    var m := Keyed(a[i].key, Arranged(a[i].value, true));
    ArrangedMemberIs(a, true, i);
    OrderMember(ArrangedMembers(a, true), true, m);
    j := OrderedFrom(b, true, m);
  }

  lemma {:induction false} ArrangedAlikeIsSame(v: Json, w: Json)
    requires Lossless(v) && Lossless(w) && Arranged(v, true) == Arranged(w, true)
    ensures SameValue(v, w)
    decreases v, 1
  {
    match (v, w)
    case (Arr(a), Arr(b)) =>
      assert |ArrangedItems(a, true)| == |ArrangedItems(b, true)|;
      forall i | 0 <= i < |a| ensures SameValue(a[i], b[i]) {
        ArrangedItemIs(a, true, i);
        ArrangedItemIs(b, true, i);
        ArrangedAlikeIsSame(a[i], b[i]);
      }
    case (Obj(a), Obj(b)) =>
      ArrangedAlikeIsSameObject(v, a, b);
    case _ =>
  }

  lemma {:induction false} ArrangedAlikeIsSameObject(v: Json, a: seq<Member>, b: seq<Member>)
    requires v == Obj(a) && Lossless(v) && Lossless(Obj(b)) && Arranged(v, true) == Arranged(Obj(b), true)
    ensures SameValue(v, Obj(b))
    decreases v, 0
  {
    OrderLength(ArrangedMembers(a, true), true);
    OrderLength(ArrangedMembers(b, true), true);
    forall i | 0 <= i < |a| ensures InTarget(a[i], b) {
      var j := ArrangedCounterpart(a, b, i);
      ArrangedAlikeIsSame(a[i].value, b[j].value);
    }
    forall j | 0 <= j < |b| ensures InSource(a, b[j]) {
      var i := ArrangedCounterpart(b, a, j);
      ArrangedAlikeIsSame(a[i].value, b[j].value);
    }
  }

  lemma {:induction false} ArrangedIsArranged(v: Json, sortKeys: bool)
    ensures Arranged(Arranged(v, sortKeys), sortKeys) == Arranged(v, sortKeys)
    decreases v
  {
    match v
    case Arr(items) =>
      var once := ArrangedItems(items, sortKeys);
      forall i | 0 <= i < |items| ensures ArrangedItems(once, sortKeys)[i] == once[i] {
        ArrangedItemIs(items, sortKeys, i);
        ArrangedItemIs(once, sortKeys, i);
        ArrangedIsArranged(items[i], sortKeys);
      }
    case Obj(members) =>
      var once := Order(ArrangedMembers(members, sortKeys), sortKeys);
      forall k | 0 <= k < |once| ensures ArrangedMembers(once, sortKeys)[k] == once[k] {
        var i := OrderedFrom(members, sortKeys, once[k]);
        ArrangedMemberIs(once, sortKeys, k);
        ArrangedIsArranged(members[i].value, sortKeys);
      }
      assert ArrangedMembers(once, sortKeys) == once;
      if sortKeys {
        SortIsSorted(ArrangedMembers(members, sortKeys));
        SortOfSorted(once);
      }
    case _ =>
  }

  /** The value with every plain int as its decimal token, members where they were. */
  function Tokens(v: Json): Json {
    Arranged(v, false)
  }

  lemma {:induction false} TokensOfLossless(v: Json)
    requires Lossless(v)
    ensures Tokens(v) == v
    decreases v
  {
    match v
    case Arr(items) =>
      forall i | 0 <= i < |items| ensures ArrangedItems(items, false)[i] == items[i] {
        ArrangedItemIs(items, false, i);
        TokensOfLossless(items[i]);
      }
    case Obj(members) =>
      var all := ArrangedMembers(members, false);
      OrderLength(all, false);
      forall i | 0 <= i < |members| ensures all[i] == members[i] {
        ArrangedMemberIs(members, false, i);
        TokensOfLossless(members[i].value);
      }
    case _ =>
  }

  /** Sorting after the ints have become tokens is sorting at once. */
  lemma {:induction false} ArrangedTokens(v: Json)
    ensures Arranged(Tokens(v), true) == Arranged(v, true)
    decreases v
  {
    match v
    case Arr(items) =>
      var tokens := ArrangedItems(items, false);
      forall i | 0 <= i < |items| ensures ArrangedItems(tokens, true)[i] == ArrangedItems(items, true)[i] {
        ArrangedItemIs(items, false, i);
        ArrangedItemIs(items, true, i);
        ArrangedItemIs(tokens, true, i);
        ArrangedTokens(items[i]);
      }
    case Obj(members) =>
      var tokens := ArrangedMembers(members, false);
      forall i | 0 <= i < |members| ensures ArrangedMembers(tokens, true)[i] == ArrangedMembers(members, true)[i] {
        ArrangedMemberIs(members, false, i);
        ArrangedMemberIs(members, true, i);
        ArrangedMemberIs(tokens, true, i);
        ArrangedTokens(members[i].value);
      }
      assert ArrangedMembers(tokens, true) == ArrangedMembers(members, true);
    case _ =>
  }

  /** The canonical bytes are a function of the value: equal values print the same bytes, whatever order their
      members were inserted in, and values that print the same bytes are equal up to a plain int and its
      decimal token, which is no difference at all for values as the reader yields them. */
  lemma CanonicalBytesDecideEquality(v: Json, w: Json, limit: int)
    requires Valid(v) && Supported(v) && Unicode(v) && Valid(w) && Supported(w) && Unicode(w)
    requires 1 <= limit && Height(v) <= limit && Height(w) <= limit
    ensures Dumps(v, limit, true).Ok? && Dumps(w, limit, true).Ok?
    ensures SameValue(v, w) ==> Dumps(v, limit, true) == Dumps(w, limit, true)
    ensures Dumps(v, limit, true) == Dumps(w, limit, true) <==> SameValue(Tokens(v), Tokens(w))
    ensures Lossless(v) && Lossless(w) ==> (Dumps(v, limit, true) == Dumps(w, limit, true) <==> SameValue(v, w))
  {
    hide Dumps, Loads, Render, Height, SameValue, Arranged, Supported;
    PrintsOnlyJson(v, limit, true);
    PrintsOnlyJson(w, limit, true);
    if SameValue(v, w) {
      UnicodeKeys(v);
      SameValuesArrangeAlike(v, w);
    }
    ArrangedKeeps(v, false);
    ArrangedKeeps(w, false);
    ArrangedTokens(v);
    ArrangedTokens(w);
    if Dumps(v, limit, true) == Dumps(w, limit, true) {
      ArrangedAlikeIsSame(Tokens(v), Tokens(w));
    }
    if SameValue(Tokens(v), Tokens(w)) {
      UnicodeKeys(Tokens(v));
      SameValuesArrangeAlike(Tokens(v), Tokens(w));
    }
    if Lossless(v) && Lossless(w) {
      TokensOfLossless(v);
      TokensOfLossless(w);
    }
  }

  lemma {:induction false} LosslessIsSupported(v: Json)
    requires Lossless(v)
    ensures Supported(v)
    decreases v
  {
    match v
    case Arr(items) => forall i | 0 <= i < |items| ensures Supported(items[i]) { LosslessIsSupported(items[i]); }
    case Obj(members) =>
      forall i | 0 <= i < |members| ensures Supported(members[i].value) { LosslessIsSupported(members[i].value); }
    case _ =>
  }

  /** What is read back is equal to what was printed, and prints to the same bytes again. */
  lemma PrintReadPrint(v: Json, limit: int)
    requires Valid(v) && Dumps(v, limit, true).Ok?
    ensures Loads(Dumps(v, limit, true).value, limit).Ok?
    ensures var w := Loads(Dumps(v, limit, true).value, limit).value;
            && Dumps(w, limit, true) == Dumps(v, limit, true)
            && (Lossless(v) ==> SameValue(v, w))
  {
    PrintsOnlyJson(v, limit, true);
    var w := Arranged(v, true);
    ArrangedKeeps(v, true);
    ArrangedIsArranged(v, true);
    LosslessIsSupported(w);
    LosslessRoundTrip(w, limit, true);
    PrintsOnlyJson(w, limit, true);
    if Lossless(v) { ArrangedAlikeIsSame(v, w); }
  }
}
