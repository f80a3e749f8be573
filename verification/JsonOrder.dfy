/** Sorting by the UTF-8 bytes of the key: a sorted permutation that depends on the members only. */
module JsonOrder {
  import opened Prelude
  import opened Utf8
  import opened Json

  lemma {:induction false} LeqTotal(a: Bytes, b: Bytes)
    ensures BytesLeq(a, b) || BytesLeq(b, a)
    ensures BytesLeq(a, b) && BytesLeq(b, a) ==> a == b
  {
    if a != [] && b != [] {
      LeqTotal(a[1..], b[1..]);
      if a[0] == b[0] && a[1..] == b[1..] { assert a == [a[0]] + a[1..] && b == [b[0]] + b[1..]; }
    }
  }

  lemma {:induction false} LeqTransitive(a: Bytes, b: Bytes, c: Bytes)
    requires BytesLeq(a, b) && BytesLeq(b, c)
    ensures BytesLeq(a, c)
  {
    if a != [] && a[0] == b[0] && b[0] == c[0] { LeqTransitive(a[1..], b[1..], c[1..]); }
  }

  lemma KeysAntisymmetric(a: Text, b: Text)
    requires ScalarText(a) && ScalarText(b) && KeyLeq(a, b) && KeyLeq(b, a)
    ensures a == b
  {
    LeqTotal(Concat(a), Concat(b));
    DecodeConcat(a);
    DecodeConcat(b);
  }

  predicate Sorted<T>(xs: seq<Keyed<T>>) {
    forall i, j :: 0 <= i < j < |xs| ==> KeyLeq(xs[i].key, xs[j].key)
  }

  lemma {:induction false} InsertMember<T>(x: Keyed<T>, xs: seq<Keyed<T>>, m: Keyed<T>)
    ensures m in Insert(x, xs) <==> m == x || m in xs
  {
    if !(xs == [] || KeyLeq(x.key, xs[0].key)) {
      InsertMember(x, xs[1..], m);
      assert xs == [xs[0]] + xs[1..];
    }
  }

  lemma {:induction false} OrderMember<T>(xs: seq<Keyed<T>>, sortKeys: bool, m: Keyed<T>)
    ensures m in Order(xs, sortKeys) <==> m in xs
  {
    if sortKeys && xs != [] {
      OrderMember(xs[1..], sortKeys, m);
      InsertMember(xs[0], Sort(xs[1..]), m);
      assert xs == [xs[0]] + xs[1..];
    }
  }

  lemma HeadIsFresh<T>(xs: seq<Keyed<T>>)
    requires xs != [] && DistinctKeys(xs)
    ensures DistinctKeys(xs[1..]) && forall m :: m in xs[1..] ==> m.key != xs[0].key
  {
    forall m | m in xs[1..] ensures m.key != xs[0].key {
      var k :| 0 <= k < |xs| - 1 && xs[1..][k] == m;
      assert xs[k + 1] == m;
    }
  }

  lemma {:induction false} InsertDistinct<T>(x: Keyed<T>, xs: seq<Keyed<T>>)
    requires DistinctKeys(xs) && forall m :: m in xs ==> m.key != x.key
    ensures DistinctKeys(Insert(x, xs))
  {
    if xs == [] || KeyLeq(x.key, xs[0].key) {
      forall j | 0 <= j < |xs| ensures xs[j].key != x.key { assert xs[j] in xs; }
    } else {
      HeadIsFresh(xs);
      assert forall m :: m in xs[1..] ==> m in xs;
      InsertDistinct(x, xs[1..]);
      var tail := Insert(x, xs[1..]);
      assert xs[0] in xs;
      forall i | 0 <= i < |tail| ensures tail[i].key != xs[0].key {
        InsertMember(x, xs[1..], tail[i]);
      }
    }
  }

  lemma {:induction false} OrderDistinct<T>(xs: seq<Keyed<T>>, sortKeys: bool)
    requires DistinctKeys(xs)
    ensures DistinctKeys(Order(xs, sortKeys))
  {
    if sortKeys && xs != [] {
      HeadIsFresh(xs);
      OrderDistinct(xs[1..], sortKeys);
      forall m | m in Sort(xs[1..]) ensures m.key != xs[0].key { OrderMember(xs[1..], true, m); }
      InsertDistinct(xs[0], Sort(xs[1..]));
    }
  }

  lemma SortedCons<T>(x: Keyed<T>, xs: seq<Keyed<T>>)
    requires Sorted(xs) && forall m :: m in xs ==> KeyLeq(x.key, m.key)
    ensures Sorted([x] + xs)
  {
    forall j | 0 <= j < |xs| ensures KeyLeq(x.key, xs[j].key) { assert xs[j] in xs; }
  }

  lemma {:induction false} InsertSorted<T>(x: Keyed<T>, xs: seq<Keyed<T>>)
    requires Sorted(xs)
    ensures Sorted(Insert(x, xs))
  {
    if xs != [] {
      LeqTotal(Concat(x.key), Concat(xs[0].key));
      if KeyLeq(x.key, xs[0].key) {
        forall m | m in xs ensures KeyLeq(x.key, m.key) {
          var j :| 0 <= j < |xs| && xs[j] == m;
          if j > 0 { LeqTransitive(Concat(x.key), Concat(xs[0].key), Concat(m.key)); }
        }
        SortedCons(x, xs);
      } else {
        InsertSorted(x, xs[1..]);
        forall m | m in Insert(x, xs[1..]) ensures KeyLeq(xs[0].key, m.key) {
          InsertMember(x, xs[1..], m);
          if m != x {
            var j :| 0 <= j < |xs| - 1 && xs[1..][j] == m;
            assert xs[j + 1] == m;
          }
        }
        SortedCons(xs[0], Insert(x, xs[1..]));
      }
    }
  }

  lemma {:induction false} SortIsSorted<T>(xs: seq<Keyed<T>>)
    ensures Sorted(Sort(xs))
  {
    if xs != [] {
      SortIsSorted(xs[1..]);
      InsertSorted(xs[0], Sort(xs[1..]));
    }
  }

  lemma {:induction false} SortOfSorted<T>(xs: seq<Keyed<T>>)
    requires Sorted(xs)
    ensures Sort(xs) == xs
  {
    if xs != [] {
      SortOfSorted(xs[1..]);
      assert xs == [xs[0]] + xs[1..];
    }
  }

  lemma {:induction false} SortedUnique<T>(xs: seq<Keyed<T>>, ys: seq<Keyed<T>>)
    requires Sorted(xs) && Sorted(ys) && DistinctKeys(xs) && DistinctKeys(ys) && |xs| == |ys|
    requires forall m :: m in xs <==> m in ys
    requires forall m :: m in xs ==> ScalarText(m.key)
    ensures xs == ys
  {
    if xs != [] {
      var x, y := xs[0], ys[0];
      assert x in ys && y in xs;
      LeqTotal(Concat(x.key), Concat(x.key));
      LeqTotal(Concat(y.key), Concat(y.key));
      assert KeyLeq(x.key, y.key) && KeyLeq(y.key, x.key);
      KeysAntisymmetric(x.key, y.key);
      assert x == y;
      TailMembers(xs, ys);
      SortedUnique(xs[1..], ys[1..]);
    }
  }

  lemma TailMembers<T>(xs: seq<Keyed<T>>, ys: seq<Keyed<T>>)
    requires xs != [] && ys != [] && xs[0] == ys[0] && DistinctKeys(xs) && DistinctKeys(ys)
    requires forall m :: m in xs <==> m in ys
    ensures forall m :: m in xs[1..] <==> m in ys[1..]
  {
    HeadIsFresh(xs);
    HeadIsFresh(ys);
    assert xs == [xs[0]] + xs[1..] && ys == [ys[0]] + ys[1..];
    forall m ensures m in xs[1..] <==> m in ys[1..] {
      assert m in xs <==> m == xs[0] || m in xs[1..];
      assert m in ys <==> m == ys[0] || m in ys[1..];
    }
  }

  /** The sorted form is the same for every order of the same members. */
  lemma SortIsCanonical<T>(xs: seq<Keyed<T>>, ys: seq<Keyed<T>>)
    requires DistinctKeys(xs) && DistinctKeys(ys) && |xs| == |ys|
    requires forall m :: m in xs <==> m in ys
    requires forall m :: m in xs ==> ScalarText(m.key)
    ensures Sort(xs) == Sort(ys)
  {
    SortIsSorted(xs);
    SortIsSorted(ys);
    OrderDistinct(xs, true);
    OrderDistinct(ys, true);
    forall m ensures m in Sort(xs) <==> m in Sort(ys) {
      OrderMember(xs, true, m);
      OrderMember(ys, true, m);
    }
    forall m | m in Sort(xs) ensures ScalarText(m.key) { OrderMember(xs, true, m); }
    SortLength(xs);
    SortLength(ys);
    SortedUnique(Sort(xs), Sort(ys));
  }

  lemma {:induction false} InsertLength<T>(x: Keyed<T>, xs: seq<Keyed<T>>)
    ensures |Insert(x, xs)| == |xs| + 1
  {
    if !(xs == [] || KeyLeq(x.key, xs[0].key)) { InsertLength(x, xs[1..]); }
  }

  lemma {:induction false} SortLength<T>(xs: seq<Keyed<T>>)
    ensures |Sort(xs)| == |xs|
  {
    if xs != [] {
      SortLength(xs[1..]);
      InsertLength(xs[0], Sort(xs[1..]));
    }
  }

  // The same order, by code points

  /** Python's order on strings. */
  predicate TextLeq(a: Text, b: Text) {
    a == [] || (b != [] && (a[0] < b[0] || (a[0] == b[0] && TextLeq(a[1..], b[1..]))))
  }

  lemma {:induction false} LeqAfterPrefix(p: Bytes, a: Bytes, b: Bytes)
    ensures BytesLeq(p + a, p + b) <==> BytesLeq(a, b)
  {
    if p == [] {
      assert p + a == a && p + b == b;
    } else {
      assert (p + a)[1..] == p[1..] + a && (p + b)[1..] == p[1..] + b;
      LeqAfterPrefix(p[1..], a, b);
    }
  }

  lemma {:induction false} FirstDifference(a: Bytes, b: Bytes, k: nat)
    requires k < |a| && k < |b| && a[..k] == b[..k] && a[k] < b[k]
    ensures BytesLeq(a, b) && !BytesLeq(b, a)
  {
    if k > 0 {
      assert a[0] == a[..k][0] && b[0] == b[..k][0];
      assert a[1..][..k - 1] == a[..k][1..] && b[1..][..k - 1] == b[..k][1..];
      FirstDifference(a[1..], b[1..], k - 1);
    }
  }

  lemma DivideStep(c: nat, d: nat)
    requires c < d
    ensures c / 0x40 < d / 0x40 || (c / 0x40 == d / 0x40 && c % 0x40 < d % 0x40)
  {
  }

  /** Below a and b of one length, the first difference lies before or at the last byte. */
  predicate FirstByteBelow(a: Bytes, b: Bytes, k: nat) {
    k < |a| && k < |b| && a[..k] == b[..k] && a[k] < b[k]
  }

  lemma LongerStartsHigher(c: CodePoint, d: CodePoint)
    requires c < d && |EncodeOne(c)| != |EncodeOne(d)|
    ensures FirstByteBelow(EncodeOne(c), EncodeOne(d), 0)
  {
  }

  lemma AscendsInTwo(c: CodePoint, d: CodePoint) returns (k: nat)
    requires 0x80 <= c < d < 0x800
    ensures FirstByteBelow(EncodeOne(c), EncodeOne(d), k)
  {
    DivideStep(c, d);
    k := if c / 0x40 == d / 0x40 then 1 else 0;
  }

  lemma AscendsInThree(c: CodePoint, d: CodePoint) returns (k: nat)
    requires 0x800 <= c < d < 0x10000
    ensures FirstByteBelow(EncodeOne(c), EncodeOne(d), k)
  {
    DivideStep(c, d);
    if c / 0x40 == d / 0x40 {
      k := 2;
    } else {
      DivideStep(c / 0x40, d / 0x40);
      k := if c / 0x40 / 0x40 == d / 0x40 / 0x40 then 1 else 0;
    }
  }

  lemma AscendsInFour(c: CodePoint, d: CodePoint) returns (k: nat)
    requires 0x10000 <= c < d
    ensures FirstByteBelow(EncodeOne(c), EncodeOne(d), k)
  {
    var (c1, d1) := (c / 0x40, d / 0x40);
    var (c2, d2) := (c1 / 0x40, d1 / 0x40);
    DivideStep(c, d);
    if c1 == d1 {
      k := 3;
    } else {
      DivideStep(c1, d1);
      if c2 == d2 {
        k := 2;
      } else {
        DivideStep(c2, d2);
        k := if c2 / 0x40 == d2 / 0x40 then 1 else 0;
      }
    }
  }

  lemma EncodeOneAscends(c: CodePoint, d: CodePoint) returns (k: nat)
    requires c < d
    ensures FirstByteBelow(EncodeOne(c), EncodeOne(d), k)
  {
    if |EncodeOne(c)| != |EncodeOne(d)| {
      LongerStartsHigher(c, d);
      k := 0;
    } else if d < 0x80 {
      k := 0;
    } else if d < 0x800 {
      k := AscendsInTwo(c, d);
    } else if d < 0x10000 {
      k := AscendsInThree(c, d);
    } else {
      k := AscendsInFour(c, d);
    }
  }

  /** Sorting by UTF-8 bytes and sorting by code points order every two texts alike. */
  lemma {:induction false} KeyOrderIsTextOrder(a: Text, b: Text)
    ensures KeyLeq(a, b) <==> TextLeq(a, b)
  {
    if a != [] && b != [] {
      var x, y := EncodeOne(a[0]), EncodeOne(b[0]);
      if a[0] == b[0] {
        LeqAfterPrefix(x, Concat(a[1..]), Concat(b[1..]));
        KeyOrderIsTextOrder(a[1..], b[1..]);
      } else if a[0] < b[0] {
        EncodingsDiffer(a, b);
      } else {
        EncodingsDiffer(b, a);
      }
    }
  }

  lemma EncodingsDiffer(a: Text, b: Text)
    requires a != [] && b != [] && a[0] < b[0]
    ensures KeyLeq(a, b) && !KeyLeq(b, a)
  {
    hide EncodeOne;
    var x, y := EncodeOne(a[0]), EncodeOne(b[0]);
    var k := EncodeOneAscends(a[0], b[0]);
    assert Concat(a)[..k] == x[..k] && Concat(b)[..k] == y[..k];
    FirstDifference(Concat(a), Concat(b), k);
  }
}
