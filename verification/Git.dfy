/** An object store of immutable commits. A commit is named by its index, so every parent is older
    than its child; `commit-tree` either adds a commit or finds an identical one already stored. */
module Git {
  import opened Prelude
  import opened Utf8

  type Oid = nat

  datatype Commit<+T> = Commit(tree: T, parents: seq<Oid>, message: Text)

  type Store<T> = seq<Commit<T>>

  predicate ValidStore<T>(store: Store<T>) {
    forall i, k :: 0 <= i < |store| && 0 <= k < |store[i].parents| ==> store[i].parents[k] < i
  }

  /** The store after one `commit-tree` that returned id. */
  predicate Committed<T(==)>(store: Store<T>, after: Store<T>, c: Commit<T>, id: Oid) {
    && (forall k :: 0 <= k < |c.parents| ==> c.parents[k] < |store|)
    && id < |after| && after[id] == c
    && (after == store || (after == store + [c] && id == |store|))
  }

  /** `git merge-base --is-ancestor a b`: a commit is its own ancestor. */
  predicate IsAncestor<T>(store: Store<T>, a: Oid, b: Oid)
    requires ValidStore(store) && b < |store|
    decreases b
  {
    a == b || exists k :: 0 <= k < |store[b].parents| && IsAncestor(store, a, store[b].parents[k])
  }

  lemma {:induction false} AncestorIsOlder<T>(store: Store<T>, a: Oid, b: Oid)
    requires ValidStore(store) && b < |store| && IsAncestor(store, a, b)
    ensures a <= b
    decreases b
  {
    if a != b {
      var k :| 0 <= k < |store[b].parents| && IsAncestor(store, a, store[b].parents[k]);
      AncestorIsOlder(store, a, store[b].parents[k]);
    }
  }

  lemma {:induction false} AncestorTransitive<T>(store: Store<T>, a: Oid, b: Oid, c: Oid)
    requires ValidStore(store) && b < |store| && c < |store|
    requires IsAncestor(store, a, b) && IsAncestor(store, b, c)
    ensures IsAncestor(store, a, c)
    decreases c
  {
    if b != c {
      var k :| 0 <= k < |store[c].parents| && IsAncestor(store, b, store[c].parents[k]);
      AncestorTransitive(store, a, b, store[c].parents[k]);
    }
  }

  lemma AncestorAntisymmetric<T>(store: Store<T>, a: Oid, b: Oid)
    requires ValidStore(store) && a < |store| && b < |store|
    requires IsAncestor(store, a, b) && IsAncestor(store, b, a)
    ensures a == b
  {
    AncestorIsOlder(store, a, b);
    AncestorIsOlder(store, b, a);
  }

  /** A store that holds everything an older store holds. */
  predicate Extends<T(==)>(after: Store<T>, store: Store<T>) {
    |store| <= |after| && forall i :: 0 <= i < |store| ==> after[i] == store[i]
  }

  lemma CommittedExtends<T>(store: Store<T>, after: Store<T>, c: Commit<T>, id: Oid)
    requires ValidStore(store) && Committed(store, after, c, id)
    ensures ValidStore(after) && Extends(after, store)
  {
  }

  lemma {:induction false} AncestorStable<T>(store: Store<T>, after: Store<T>, a: Oid, b: Oid)
    requires ValidStore(store) && ValidStore(after) && Extends(after, store) && b < |store|
    ensures IsAncestor(store, a, b) <==> IsAncestor(after, a, b)
    decreases b
  {
    forall k | 0 <= k < |store[b].parents|
      ensures IsAncestor(store, a, store[b].parents[k]) <==> IsAncestor(after, a, store[b].parents[k])
    {
      AncestorStable(store, after, a, store[b].parents[k]);
    }
  }

  /** `rev-list --first-parent --reverse head`: the first-parent history, oldest first. */
  function Chain<T>(store: Store<T>, head: Oid): (chain: seq<Oid>)
    requires ValidStore(store) && head < |store|
    ensures chain != [] && chain[|chain| - 1] == head
    decreases head
  {
    if store[head].parents == [] then [head]
    else Chain(store, store[head].parents[0]) + [head]
  }

  lemma {:induction false} ChainStable<T>(store: Store<T>, after: Store<T>, head: Oid)
    requires ValidStore(store) && ValidStore(after) && Extends(after, store) && head < |store|
    ensures Chain(after, head) == Chain(store, head)
    decreases head
  {
    if store[head].parents != [] { ChainStable(store, after, store[head].parents[0]); }
  }

  /** Elements of a first-parent chain, by position. */
  lemma {:induction false} ChainAscends<T>(store: Store<T>, head: Oid, i: nat, j: nat)
    requires ValidStore(store) && head < |store| && i <= j < |Chain(store, head)|
    ensures Chain(store, head)[j] <= head
    ensures i < j ==> Chain(store, head)[i] < Chain(store, head)[j]
    decreases head
  {
    if store[head].parents != [] {
      var parent := store[head].parents[0];
      var older := Chain(store, parent);
      if j < |older| {
        ChainAscends(store, parent, i, j);
      } else if i < j {
        ChainAscends(store, parent, i, i);
      }
    }
  }
}
