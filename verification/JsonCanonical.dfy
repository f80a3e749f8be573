/** The printer is the plain rendering of the value in printing order, under an exact limit. */
module JsonCanonical {
  import opened Prelude
  import opened Utf8
  import opened JsonNumber
  import opened Json
  import opened JsonReader
  import opened JsonRender

  /** v with its members in printing order and every plain int as the token that prints it. */
  function Arranged(v: Json, sortKeys: bool): Json
    decreases v, 1
  {
    match v
    case Int(i) => Number(IntText(i))
    case Arr(items) => Arr(ArrangedItems(items, sortKeys))
    case Obj(members) => Obj(Order(ArrangedMembers(members, sortKeys), sortKeys))
    case _ => v
  }

  function ArrangedItems(items: seq<Json>, sortKeys: bool): (r: seq<Json>)
    ensures |r| == |items|
    decreases items, 0
  {
    if items == [] then [] else [Arranged(items[0], sortKeys)] + ArrangedItems(items[1..], sortKeys)
  }

  function ArrangedMembers(members: seq<Member>, sortKeys: bool): (r: seq<Member>)
    ensures |r| == |members|
    ensures forall i :: 0 <= i < |r| ==> r[i].key == members[i].key
    decreases members, 0
  {
    if members == [] then []
    else [Keyed(members[0].key, Arranged(members[0].value, sortKeys))] + ArrangedMembers(members[1..], sortKeys)
  }

  predicate KeysScalar(v: Json)
    decreases v
  {
    match v
    case Arr(items) => forall i :: 0 <= i < |items| ==> KeysScalar(items[i])
    case Obj(members) => ScalarKeys(members) && forall i :: 0 <= i < |members| ==> KeysScalar(members[i].value)
    case _ => true
  }

  /** Nothing but depth can refuse v. */
  predicate Clean(v: Json, sortKeys: bool) {
    Supported(v) && (sortKeys ==> KeysScalar(v))
  }

  /** What the printer accepts for v at this depth. */
  predicate Fits(v: Json, depth: nat, limit: nat, sortKeys: bool) {
    Clean(v, sortKeys) && depth + Height(v) <= limit
  }

  predicate AllFit(children: seq<Json>, depth: nat, limit: nat, sortKeys: bool) {
    forall i :: 0 <= i < |children| ==> Fits(children[i], depth, limit, sortKeys)
  }

  predicate AllClean(children: seq<Json>, sortKeys: bool) {
    forall i :: 0 <= i < |children| ==> Clean(children[i], sortKeys)
  }

  lemma ContainerFits(v: Json, depth: nat, limit: nat, sortKeys: bool)
    requires IsContainer(v) && depth < limit
    requires v.Obj? && sortKeys ==> ScalarKeys(v.members)
    ensures Fits(v, depth, limit, sortKeys) <==> AllFit(Children(v), depth + 1, limit, sortKeys)
    ensures Clean(v, sortKeys) <==> AllClean(Children(v), sortKeys)
  {
    MaxHeightBounds(v, Children(v), limit - depth - 1);
    if v.Obj? {
      var members := v.members;
      assert forall i :: 0 <= i < |members| ==> Children(v)[i] == members[i].value;
    }
  }

  // Sorting two sequences with the same keys keeps related entries together

  ghost predicate Parallel<A, B>(xs: seq<Keyed<A>>, ys: seq<Keyed<B>>, related: (A, B) -> bool) {
    && |xs| == |ys|
    && forall i :: 0 <= i < |xs| ==> xs[i].key == ys[i].key && related(xs[i].value, ys[i].value)
  }

  lemma {:induction false} InsertParallel<A, B>(x: Keyed<A>, y: Keyed<B>, xs: seq<Keyed<A>>, ys: seq<Keyed<B>>, related: (A, B) -> bool)
    requires Parallel([x], [y], related) && Parallel(xs, ys, related)
    ensures Parallel(Insert(x, xs), Insert(y, ys), related)
  {
    assert x.key == y.key by { assert [x][0] == x && [y][0] == y; }
    assert related(x.value, y.value) by { assert [x][0] == x && [y][0] == y; }
    if xs != [] && !KeyLeq(x.key, xs[0].key) {
      InsertParallel(x, y, xs[1..], ys[1..], related);
    }
  }

  lemma {:induction false} OrderParallel<A, B>(xs: seq<Keyed<A>>, ys: seq<Keyed<B>>, related: (A, B) -> bool, sortKeys: bool)
    requires Parallel(xs, ys, related)
    ensures Parallel(Order(xs, sortKeys), Order(ys, sortKeys), related)
  {
    if sortKeys && xs != [] {
      OrderParallel(xs[1..], ys[1..], related, sortKeys);
      InsertParallel(xs[0], ys[0], Sort(xs[1..]), Sort(ys[1..]), related);
    }
  }

  // The printer

  /** r is the rendering t when the value fits; a refusal of a clean value is for its depth. */
  predicate Decides(r: Result<Text, PrintError>, fits: bool, clean: bool, t: Text) {
    && (fits ==> r == Ok(t))
    && (!fits ==> r.Err?)
    && (!fits && clean ==> r == Err(DepthExceeded))
  }

  lemma CommaDecides(head: Result<Text, PrintError>, tail: Result<Text, PrintError>,
                     headFits: bool, tailFits: bool, headClean: bool, tailClean: bool, h: Text, t: Text)
    requires Decides(head, headFits, headClean, h) && Decides(tail, tailFits, tailClean, t)
    ensures Decides(Comma(head, tail), headFits && tailFits, headClean && tailClean, h + [0x2C] + t)
  {
  }

  lemma AllSplit(children: seq<Json>, depth: nat, limit: nat, sortKeys: bool)
    requires children != []
    ensures AllFit(children, depth, limit, sortKeys)
      <==> Fits(children[0], depth, limit, sortKeys) && AllFit(children[1..], depth, limit, sortKeys)
    ensures AllClean(children, sortKeys) <==> Clean(children[0], sortKeys) && AllClean(children[1..], sortKeys)
  {
    assert children == [children[0]] + children[1..];
  }

  /** A value prints exactly when it fits, and then as Render of its arrangement; a supported value
      with scalar keys is refused for its depth only. */
  lemma {:induction false} PrintsWhenFits(v: Json, depth: nat, limit: nat, sortKeys: bool)
    requires depth <= limit
    ensures Decides(Print(v, depth, limit, sortKeys), Fits(v, depth, limit, sortKeys), Clean(v, sortKeys),
                    Render(Arranged(v, sortKeys)))
    decreases v, 1
  {
    if IsContainer(v) && depth < limit {
      if v.Arr? {
        ContainerFits(v, depth, limit, sortKeys);
        PrintsItems(v.items, depth + 1, limit, sortKeys);
      } else if sortKeys ==> ScalarKeys(v.members) {
        ContainerFits(v, depth, limit, sortKeys);
        PrintsObject(v, v.members, depth + 1, limit, sortKeys);
      }
    }
  }

  lemma {:induction false} PrintsItems(items: seq<Json>, depth: nat, limit: nat, sortKeys: bool)
    requires depth <= limit
    ensures Decides(PrintItems(items, depth, limit, sortKeys), AllFit(items, depth, limit, sortKeys),
                    AllClean(items, sortKeys), RenderItems(ArrangedItems(items, sortKeys)))
    decreases items, 0
  {
    if items != [] {
      AllSplit(items, depth, limit, sortKeys);
      PrintsWhenFits(items[0], depth, limit, sortKeys);
      if |items| > 1 {
        var all, rest := ArrangedItems(items, sortKeys), ArrangedItems(items[1..], sortKeys);
        assert all[1..] == rest;
        PrintsItems(items[1..], depth, limit, sortKeys);
        CommaDecides(Print(items[0], depth, limit, sortKeys), PrintItems(items[1..], depth, limit, sortKeys),
                     Fits(items[0], depth, limit, sortKeys), AllFit(items[1..], depth, limit, sortKeys),
                     Clean(items[0], sortKeys), AllClean(items[1..], sortKeys),
                     Render(all[0]), RenderItems(rest));
      }
    }
  }

  /** What became of one member: its printed value, whether it fits and whether it is clean. */
  datatype Verdict = Verdict(r: Result<Text, PrintError>, fits: bool, clean: bool)

  function Verdicts(members: seq<Member>, depth: nat, limit: nat, sortKeys: bool): (r: seq<Keyed<Verdict>>)
    ensures |r| == |members|
    ensures forall i :: 0 <= i < |r| ==> r[i] == Keyed(members[i].key,
      Verdict(Print(members[i].value, depth, limit, sortKeys), Fits(members[i].value, depth, limit, sortKeys), Clean(members[i].value, sortKeys)))
  {
    seq(|members|, i requires 0 <= i < |members| => Keyed(members[i].key,
      Verdict(Print(members[i].value, depth, limit, sortKeys), Fits(members[i].value, depth, limit, sortKeys), Clean(members[i].value, sortKeys))))
  }

  predicate Printed(verdict: Verdict, arranged: Json) {
    Decides(verdict.r, verdict.fits, verdict.clean, Render(arranged))
  }

  lemma {:induction false} PrintEachIs(members: seq<Member>, depth: nat, limit: nat, sortKeys: bool, i: nat)
    requires i < |members|
    ensures PrintEach(members, depth, limit, sortKeys)[i] == Keyed(members[i].key, Print(members[i].value, depth, limit, sortKeys))
    ensures ArrangedMembers(members, sortKeys)[i] == Keyed(members[i].key, Arranged(members[i].value, sortKeys))
  {
    if i > 0 { PrintEachIs(members[1..], depth, limit, sortKeys, i - 1); }
  }

  lemma {:induction false} InsertForAll<T>(x: Keyed<T>, xs: seq<Keyed<T>>, p: T -> bool)
    ensures (forall m :: m in Insert(x, xs) ==> p(m.value)) <==> p(x.value) && forall m :: m in xs ==> p(m.value)
  {
    if xs == [] || KeyLeq(x.key, xs[0].key) {
      assert x in [x] + xs;
      assert forall m :: m in xs ==> m in [x] + xs;
    } else {
      InsertForAll(x, xs[1..], p);
      var tail := Insert(x, xs[1..]);
      assert xs == [xs[0]] + xs[1..];
      assert forall m :: m in [xs[0]] + tail <==> m == xs[0] || m in tail;
      assert forall m :: m in xs <==> m == xs[0] || m in xs[1..];
    }
  }

  lemma {:induction false} OrderForAll<T>(xs: seq<Keyed<T>>, p: T -> bool, sortKeys: bool)
    ensures (forall m :: m in Order(xs, sortKeys) ==> p(m.value)) <==> forall m :: m in xs ==> p(m.value)
  {
    if sortKeys && xs != [] {
      OrderForAll(xs[1..], p, sortKeys);
      InsertForAll(xs[0], Sort(xs[1..]), p);
      assert xs == [xs[0]] + xs[1..];
      assert forall m :: m in xs <==> m == xs[0] || m in xs[1..];
    }
  }

  predicate SameResult(verdict: Verdict, r: Result<Text, PrintError>) {
    verdict.r == r
  }

  predicate EveryFits(verdicts: seq<Keyed<Verdict>>) {
    forall m :: m in verdicts ==> m.value.fits
  }

  predicate EveryClean(verdicts: seq<Keyed<Verdict>>) {
    forall m :: m in verdicts ==> m.value.clean
  }

  lemma EverySplit(verdicts: seq<Keyed<Verdict>>)
    requires verdicts != []
    ensures EveryFits(verdicts) <==> verdicts[0].value.fits && EveryFits(verdicts[1..])
    ensures EveryClean(verdicts) <==> verdicts[0].value.clean && EveryClean(verdicts[1..])
  {
    assert verdicts == [verdicts[0]] + verdicts[1..];
    assert forall m :: m in verdicts <==> m == verdicts[0] || m in verdicts[1..];
  }

  lemma MemberDecides(entry: Keyed<Result<Text, PrintError>>, verdict: Verdict, m: Member)
    requires entry.key == m.key && SameResult(verdict, entry.value) && Printed(verdict, m.value)
    ensures Decides(JoinMember(entry), verdict.fits, verdict.clean, RenderMember(m))
  {
  }

  /** Joining entries in any order that keeps them beside their verdicts and arranged members. */
  lemma {:induction false} JoinsMembers(entries: seq<Keyed<Result<Text, PrintError>>>, verdicts: seq<Keyed<Verdict>>, arranged: seq<Member>)
    requires Parallel(verdicts, entries, SameResult) && Parallel(verdicts, arranged, Printed)
    ensures Decides(JoinMembers(entries), EveryFits(verdicts), EveryClean(verdicts), RenderMembers(arranged))
  {
    if entries != [] {
      EverySplit(verdicts);
      MemberDecides(entries[0], verdicts[0].value, arranged[0]);
      if |entries| > 1 {
        JoinsMembers(entries[1..], verdicts[1..], arranged[1..]);
        CommaDecides(JoinMember(entries[0]), JoinMembers(entries[1..]),
                     verdicts[0].value.fits, EveryFits(verdicts[1..]),
                     verdicts[0].value.clean, EveryClean(verdicts[1..]),
                     RenderMember(arranged[0]), RenderMembers(arranged[1..]));
      }
    }
  }

  lemma VerdictsOfChildren(v: Json, members: seq<Member>, depth: nat, limit: nat, sortKeys: bool)
    requires v == Obj(members)
    ensures var ordered := Order(Verdicts(members, depth, limit, sortKeys), sortKeys);
            && (EveryFits(ordered) <==> AllFit(Children(v), depth, limit, sortKeys))
            && (EveryClean(ordered) <==> AllClean(Children(v), sortKeys))
  {
    var verdicts := Verdicts(members, depth, limit, sortKeys);
    OrderForAll(verdicts, (x: Verdict) => x.fits, sortKeys);
    OrderForAll(verdicts, (x: Verdict) => x.clean, sortKeys);
    assert forall i :: 0 <= i < |members| ==> verdicts[i] in verdicts && Children(v)[i] == members[i].value;
  }

  lemma {:induction false} PrintsObject(v: Json, members: seq<Member>, depth: nat, limit: nat, sortKeys: bool)
    requires depth <= limit && v == Obj(members)
    ensures Decides(JoinMembers(Order(PrintEach(members, depth, limit, sortKeys), sortKeys)),
                    AllFit(Children(v), depth, limit, sortKeys), AllClean(Children(v), sortKeys),
                    RenderMembers(Order(ArrangedMembers(members, sortKeys), sortKeys)))
    decreases v, 0
  {
    PrintsEach(members, depth, limit, sortKeys);
    var entries, arranged := PrintEach(members, depth, limit, sortKeys), ArrangedMembers(members, sortKeys);
    var verdicts := Verdicts(members, depth, limit, sortKeys);
    OrderParallel(verdicts, entries, SameResult, sortKeys);
    OrderParallel(verdicts, arranged, Printed, sortKeys);
    JoinsMembers(Order(entries, sortKeys), Order(verdicts, sortKeys), Order(arranged, sortKeys));
    VerdictsOfChildren(v, members, depth, limit, sortKeys);
  }

  lemma {:induction false} PrintsEach(members: seq<Member>, depth: nat, limit: nat, sortKeys: bool)
    requires depth <= limit
    ensures Parallel(Verdicts(members, depth, limit, sortKeys), PrintEach(members, depth, limit, sortKeys), SameResult)
    ensures Parallel(Verdicts(members, depth, limit, sortKeys), ArrangedMembers(members, sortKeys), Printed)
    decreases members, 0
  {
    forall i | 0 <= i < |members|
      ensures PrintEach(members, depth, limit, sortKeys)[i] == Keyed(members[i].key, Print(members[i].value, depth, limit, sortKeys))
      ensures Printed(Verdicts(members, depth, limit, sortKeys)[i].value, ArrangedMembers(members, sortKeys)[i].value)
    {
      PrintEachIs(members, depth, limit, sortKeys, i);
      PrintsWhenFits(members[i].value, depth, limit, sortKeys);
    }
  }
}
