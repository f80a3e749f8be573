/** The dependency graph of branches: the reduction of ancestry between named refs. */
module DependencyGraph {
  import opened Prelude
  import opened Utf8
  import opened JsonOrder
  import opened Git

  type Ref = Text

  type Edge = (Ref, Ref)

  datatype Repo<T> = Repo(store: Store<T>, heads: map<Ref, Oid>)

  predicate ValidRepo<T>(repo: Repo<T>) {
    ValidStore(repo.store) && forall r :: r in repo.heads ==> repo.heads[r] < |repo.store|
  }

  /** `is_ancestor` of two refs that resolve. */
  predicate Below<T>(repo: Repo<T>, a: Ref, b: Ref)
    requires ValidRepo(repo)
  {
    a in repo.heads && b in repo.heads && IsAncestor(repo.store, repo.heads[a], repo.heads[b])
  }

  predicate Known<T>(repo: Repo<T>, refs: seq<Ref>, r: Ref) {
    r in refs && r in repo.heads
  }

  /** A ref strictly named between two others. */
  predicate Between<T>(repo: Repo<T>, refs: seq<Ref>, a: Ref, m: Ref, b: Ref)
    requires ValidRepo(repo)
  {
    Known(repo, refs, m) && m != a && m != b && Below(repo, a, m) && Below(repo, m, b)
  }

  predicate Comparable<T>(repo: Repo<T>, refs: seq<Ref>, a: Ref, b: Ref)
    requires ValidRepo(repo)
  {
    Known(repo, refs, a) && Known(repo, refs, b) && a != b && Below(repo, a, b)
  }

  ghost predicate Kept<T>(repo: Repo<T>, refs: seq<Ref>, a: Ref, b: Ref)
    requires ValidRepo(repo)
  {
    Comparable(repo, refs, a, b) && forall m :: !Between(repo, refs, a, m, b)
  }

  /** The edges are exactly the comparable pairs that no third ref stands between. */
  ghost predicate IsGraph<T>(repo: Repo<T>, refs: seq<Ref>, edges: set<Edge>)
    requires ValidRepo(repo)
  {
    forall e: Edge :: e in edges <==> Kept(repo, refs, e.0, e.1)
  }

  // sorted(set(edges))

  predicate EdgeLeq(e: Edge, f: Edge) {
    if e.0 == f.0 then TextLeq(e.1, f.1) else TextLeq(e.0, f.0)
  }

  lemma {:induction false} TextLeqTotal(a: Text, b: Text)
    ensures TextLeq(a, b) || TextLeq(b, a)
    ensures TextLeq(a, b) && TextLeq(b, a) ==> a == b
  {
    if a != [] && b != [] {
      TextLeqTotal(a[1..], b[1..]);
      if a[0] == b[0] && a[1..] == b[1..] { assert a == [a[0]] + a[1..] && b == [b[0]] + b[1..]; }
    }
  }

  lemma {:induction false} TextLeqTransitive(a: Text, b: Text, c: Text)
    requires TextLeq(a, b) && TextLeq(b, c)
    ensures TextLeq(a, c)
  {
    if a != [] && a[0] == b[0] && b[0] == c[0] { TextLeqTransitive(a[1..], b[1..], c[1..]); }
  }

  lemma EdgeOrder(e: Edge, f: Edge, g: Edge)
    ensures EdgeLeq(e, f) || EdgeLeq(f, e)
    ensures EdgeLeq(e, f) && EdgeLeq(f, e) ==> e == f
    ensures EdgeLeq(e, f) && EdgeLeq(f, g) ==> EdgeLeq(e, g)
  {
    TextLeqTotal(e.0, f.0);
    TextLeqTotal(f.0, g.0);
    TextLeqTotal(e.1, f.1);
    if TextLeq(e.0, f.0) && TextLeq(f.0, g.0) { TextLeqTransitive(e.0, f.0, g.0); }
    if TextLeq(e.1, f.1) && TextLeq(f.1, g.1) { TextLeqTransitive(e.1, f.1, g.1); }
  }

  predicate Ascending(edges: seq<Edge>) {
    forall i, j :: 0 <= i < j < |edges| ==> edges[i] != edges[j] && EdgeLeq(edges[i], edges[j])
  }

  function InsertEdge(e: Edge, edges: seq<Edge>): seq<Edge> {
    if edges == [] then [e]
    else if edges[0] == e then edges
    else if EdgeLeq(e, edges[0]) then [e] + edges
    else [edges[0]] + InsertEdge(e, edges[1..])
  }

  /** `sorted(set(edges))`. */
  function SortedSet(edges: seq<Edge>): seq<Edge> {
    if edges == [] then [] else InsertEdge(edges[0], SortedSet(edges[1..]))
  }

  lemma {:induction false} InsertEdgeHolds(e: Edge, edges: seq<Edge>, x: Edge)
    ensures x in InsertEdge(e, edges) <==> x == e || x in edges
  {
    if edges != [] {
      assert edges == [edges[0]] + edges[1..];
      InsertEdgeHolds(e, edges[1..], x);
    }
  }

  lemma AscendingCons(e: Edge, edges: seq<Edge>)
    requires Ascending(edges) && forall x :: x in edges ==> x != e && EdgeLeq(e, x)
    ensures Ascending([e] + edges)
  {
    forall j | 0 <= j < |edges| ensures e != edges[j] && EdgeLeq(e, edges[j]) { assert edges[j] in edges; }
  }

  lemma {:induction false} InsertEdgeAscends(e: Edge, edges: seq<Edge>)
    requires Ascending(edges)
    ensures Ascending(InsertEdge(e, edges))
  {
    hide EdgeLeq;
    if edges != [] && edges[0] != e {
      EdgeOrder(e, edges[0], e);
      if EdgeLeq(e, edges[0]) {
        forall x | x in edges ensures x != e && EdgeLeq(e, x) {
          var j :| 0 <= j < |edges| && edges[j] == x;
          EdgeOrder(e, edges[0], x);
          EdgeOrder(x, edges[0], x);
        }
        AscendingCons(e, edges);
      } else {
        InsertEdgeAscends(e, edges[1..]);
        forall x | x in InsertEdge(e, edges[1..]) ensures x != edges[0] && EdgeLeq(edges[0], x) {
          InsertEdgeHolds(e, edges[1..], x);
          if x != e { var j :| 0 <= j < |edges| - 1 && edges[1..][j] == x; assert edges[j + 1] == x; }
        }
        AscendingCons(edges[0], InsertEdge(e, edges[1..]));
      }
    }
  }

  lemma {:induction false} SortedSetIs(edges: seq<Edge>, x: Edge)
    ensures Ascending(SortedSet(edges))
    ensures x in SortedSet(edges) <==> x in edges
  {
    if edges != [] {
      assert edges == [edges[0]] + edges[1..];
      SortedSetIs(edges[1..], x);
      InsertEdgeAscends(edges[0], SortedSet(edges[1..]));
      InsertEdgeHolds(edges[0], SortedSet(edges[1..]), x);
    }
  }

  // The algorithm

  method Existing<T>(repo: Repo<T>, refs: seq<Ref>) returns (existing: seq<Ref>)
    ensures forall r :: r in existing <==> Known(repo, refs, r)
  {
    existing := [];
    for i := 0 to |refs|
      invariant forall r :: r in existing <==> r in refs[..i] && r in repo.heads
    {
      if refs[i] in repo.heads { existing := existing + [refs[i]]; }
      assert refs[..i + 1] == refs[..i] + [refs[i]];
    }
    assert refs[..|refs|] == refs;
  }

  /** The first nested loop: every ordered pair of different names that are related. */
  method RelatedPairs<T>(repo: Repo<T>, existing: seq<Ref>) returns (edges: seq<Edge>)
    requires ValidRepo(repo)
    ensures forall a, b :: (a, b) in edges <==> a in existing && b in existing && a != b && Below(repo, a, b)
  {
    hide IsAncestor;
    edges := [];
    for i := 0 to |existing|
      invariant forall a, b :: (a, b) in edges <==> a in existing[..i] && b in existing && a != b && Below(repo, a, b)
    {
      var ancestor := existing[i];
      ghost var before := edges;
      for j := 0 to |existing|
        invariant forall a, b :: (a, b) in edges <==>
          (a, b) in before || (a == ancestor && b in existing[..j] && a != b && Below(repo, a, b))
      {
        var descendant := existing[j];
        if ancestor != descendant && Below(repo, ancestor, descendant) { edges := edges + [(ancestor, descendant)]; }
        assert existing[..j + 1] == existing[..j] + [descendant];
      }
      assert existing[..|existing|] == existing;
      assert existing[..i + 1] == existing[..i] + [ancestor];
    }
    assert existing[..|existing|] == existing;
  }

  /** The inner `any`: does a third ref stand between the two? */
  method IsTransitive<T>(repo: Repo<T>, ghost refs: seq<Ref>, existing: seq<Ref>, a: Ref, b: Ref) returns (transitive: bool)
    requires ValidRepo(repo) && forall r :: r in existing <==> Known(repo, refs, r)
    ensures transitive <==> exists m :: Between(repo, refs, a, m, b)
  {
    hide IsAncestor;
    for k := 0 to |existing|
      invariant forall m :: m in existing[..k] ==> !Between(repo, refs, a, m, b)
    {
      assert existing[k] in existing;
      var middle := existing[k];
      if middle != a && middle != b && Below(repo, a, middle) && Below(repo, middle, b) {
        assert Between(repo, refs, a, middle, b);
        return true;
      }
      assert existing[..k + 1] == existing[..k] + [middle];
    }
    assert existing[..|existing|] == existing;
    return false;
  }

  /** `dependency_graph`. */
  method Graph<T>(repo: Repo<T>, refs: seq<Ref>) returns (result: seq<Edge>)
    requires ValidRepo(repo)
    ensures Ascending(result)
    ensures IsGraph(repo, refs, set e | e in result)
  {
    hide Below, InsertEdge, EdgeLeq;
    var existing := Existing(repo, refs);
    var edges := RelatedPairs(repo, existing);
    var reduced: seq<Edge> := [];
    for i := 0 to |edges|
      invariant forall e :: e in reduced <==> e in edges[..i] && Kept(repo, refs, e.0, e.1)
    {
      var (ancestor, descendant) := edges[i];
      assert (ancestor, descendant) in edges;
      var transitive := IsTransitive(repo, refs, existing, ancestor, descendant);
      if !transitive { reduced := reduced + [edges[i]]; }
      assert edges[..i + 1] == edges[..i] + [edges[i]];
    }
    assert edges[..|edges|] == edges;
    result := SortedSet(reduced);
    forall e: Edge ensures e in (set x | x in result) <==> Kept(repo, refs, e.0, e.1) {
      SortedSetIs(reduced, e);
      assert e == (e.0, e.1);
    }
    SortedSetIs(reduced, ([], []));
  }

  // What the graph means

  predicate IsPath(edges: set<Edge>, p: seq<Ref>) {
    |p| >= 2 && forall i :: 0 <= i < |p| - 1 ==> (p[i], p[i + 1]) in edges
  }

  /** The transitive closure of the edges. */
  ghost predicate Reaches(edges: set<Edge>, a: Ref, b: Ref) {
    exists p :: IsPath(edges, p) && p[0] == a && p[|p| - 1] == b
  }

  lemma PathsJoin(edges: set<Edge>, a: Ref, m: Ref, b: Ref)
    requires Reaches(edges, a, m) && Reaches(edges, m, b)
    ensures Reaches(edges, a, b)
  {
    var p :| IsPath(edges, p) && p[0] == a && p[|p| - 1] == m;
    var q :| IsPath(edges, q) && q[0] == m && q[|q| - 1] == b;
    var r := p + q[1..];
    forall i | 0 <= i < |r| - 1 ensures (r[i], r[i + 1]) in edges {
      if i >= |p| - 1 {
        assert r[i] == q[i - (|p| - 1)] && r[i + 1] == q[i + 1 - (|p| - 1)];
      } else {
        assert r[i] == p[i] && r[i + 1] == p[i + 1];
      }
    }
    assert IsPath(edges, r);
  }

  lemma EdgeReaches(edges: set<Edge>, a: Ref, b: Ref)
    requires (a, b) in edges
    ensures Reaches(edges, a, b)
  {
    assert IsPath(edges, [a, b]);
  }

  lemma BelowTransitive<T>(repo: Repo<T>, a: Ref, b: Ref, c: Ref)
    requires ValidRepo(repo) && Below(repo, a, b) && Below(repo, b, c)
    ensures Below(repo, a, c)
  {
    AncestorTransitive(repo.store, repo.heads[a], repo.heads[b], repo.heads[c]);
  }

  /** Edges that only ever join related refs reach only related refs. */
  ghost predicate Sound<T>(repo: Repo<T>, refs: seq<Ref>, edges: set<Edge>)
    requires ValidRepo(repo)
  {
    forall e: Edge :: e in edges ==> Comparable(repo, refs, e.0, e.1)
  }

  lemma {:induction false} PathIsBelow<T>(repo: Repo<T>, refs: seq<Ref>, edges: set<Edge>, p: seq<Ref>)
    requires ValidRepo(repo) && Sound(repo, refs, edges) && IsPath(edges, p)
    ensures Below(repo, p[0], p[|p| - 1])
    decreases |p|
  {
    hide IsAncestor;
    assert (p[0], p[1]) in edges;
    if |p| > 2 {
      var q := p[1..];
      forall i | 0 <= i < |q| - 1 ensures (q[i], q[i + 1]) in edges { assert q[i] == p[i + 1] && q[i + 1] == p[i + 2]; }
      PathIsBelow(repo, refs, edges, q);
      BelowTransitive(repo, p[0], p[1], p[|p| - 1]);
    }
  }

  lemma GraphIsSound<T>(repo: Repo<T>, refs: seq<Ref>, edges: set<Edge>)
    requires ValidRepo(repo) && IsGraph(repo, refs, edges)
    ensures Sound(repo, refs, edges)
  {
  }

  /** Two names of one commit beside a third ref comparable with it. */
  predicate Aliased<T>(repo: Repo<T>, refs: seq<Ref>, a: Ref, b: Ref, c: Ref)
    requires ValidRepo(repo)
  {
    && Known(repo, refs, a) && Known(repo, refs, b) && a != b && repo.heads[a] == repo.heads[b]
    && Known(repo, refs, c) && c != a && c != b && (Below(repo, a, c) || Below(repo, c, a))
  }

  ghost predicate NoAliases<T>(repo: Repo<T>, refs: seq<Ref>)
    requires ValidRepo(repo)
  {
    forall a, b, c :: !Aliased(repo, refs, a, b, c)
  }

  /** Every comparable pair is joined by a path of the graph. */
  ghost predicate Complete<T>(repo: Repo<T>, refs: seq<Ref>, edges: set<Edge>)
    requires ValidRepo(repo)
  {
    forall a, b :: Comparable(repo, refs, a, b) ==> Reaches(edges, a, b)
  }

  lemma BelowIsOlder<T>(repo: Repo<T>, a: Ref, b: Ref)
    requires ValidRepo(repo) && Below(repo, a, b)
    ensures repo.heads[a] <= repo.heads[b]
  {
    AncestorIsOlder(repo.store, repo.heads[a], repo.heads[b]);
  }

  lemma {:induction false} ComparableIsReached<T>(repo: Repo<T>, refs: seq<Ref>, edges: set<Edge>, a: Ref, b: Ref)
    requires ValidRepo(repo) && IsGraph(repo, refs, edges) && NoAliases(repo, refs) && Comparable(repo, refs, a, b)
    ensures Reaches(edges, a, b)
    decreases repo.heads[b] + (|repo.store| - repo.heads[a])
  {
    hide IsAncestor, Reaches;
    BelowIsOlder(repo, a, b);
    if m :| Between(repo, refs, a, m, b) {
      assert !Aliased(repo, refs, a, m, b) && !Aliased(repo, refs, m, b, a);
      assert !Aliased(repo, refs, b, m, a);
      BelowIsOlder(repo, a, m);
      BelowIsOlder(repo, m, b);
      ComparableIsReached(repo, refs, edges, a, m);
      ComparableIsReached(repo, refs, edges, m, b);
      PathsJoin(edges, a, m, b);
    } else {
      assert (a, b) in edges;
      EdgeReaches(edges, a, b);
    }
  }

  /** An alias beside a third comparable ref loses its way to or from that ref. */
  lemma AliasLosesEdge<T>(repo: Repo<T>, refs: seq<Ref>, edges: set<Edge>, a: Ref, b: Ref, x: Ref)
    requires ValidRepo(repo) && IsGraph(repo, refs, edges)
    requires Known(repo, refs, a) && Known(repo, refs, b) && a != b && repo.heads[a] == repo.heads[b] && x != a && x != b
    ensures (a, x) !in edges && (x, a) !in edges
  {
    hide IsAncestor;
    SelfBelow(repo, a, b);
    SameBelow(repo, a, b, x);
    assert Comparable(repo, refs, a, x) ==> Between(repo, refs, a, b, x);
    assert Comparable(repo, refs, x, a) ==> Between(repo, refs, x, b, a);
    assert (a, x) in edges <==> Kept(repo, refs, a, x);
    assert (x, a) in edges <==> Kept(repo, refs, x, a);
  }

  lemma SelfBelow<T>(repo: Repo<T>, a: Ref, b: Ref)
    requires ValidRepo(repo) && a in repo.heads && b in repo.heads && repo.heads[a] == repo.heads[b]
    ensures Below(repo, a, b) && Below(repo, b, a)
  {
  }

  lemma SameBelow<T>(repo: Repo<T>, a: Ref, b: Ref, x: Ref)
    requires ValidRepo(repo) && a in repo.heads && b in repo.heads && repo.heads[a] == repo.heads[b]
    ensures Below(repo, a, x) == Below(repo, b, x) && Below(repo, x, a) == Below(repo, x, b)
  {
    hide IsAncestor;
  }

  /** No path leaves the pair of aliases a, b, in either direction. */
  lemma {:induction false} PairIsClosed<T>(repo: Repo<T>, refs: seq<Ref>, edges: set<Edge>, a: Ref, b: Ref, p: seq<Ref>)
    requires ValidRepo(repo) && IsGraph(repo, refs, edges) && IsPath(edges, p)
    requires Known(repo, refs, a) && Known(repo, refs, b) && a != b && repo.heads[a] == repo.heads[b]
    ensures p[0] in {a, b} <==> p[|p| - 1] in {a, b}
    decreases |p|
  {
    hide IsAncestor, IsGraph;
    assert (p[0], p[1]) in edges;
    if p[1] !in {a, b} { AliasLosesEdge(repo, refs, edges, a, b, p[1]); AliasLosesEdge(repo, refs, edges, b, a, p[1]); }
    if p[0] !in {a, b} { AliasLosesEdge(repo, refs, edges, a, b, p[0]); AliasLosesEdge(repo, refs, edges, b, a, p[0]); }
    if |p| > 2 {
      var q := p[1..];
      forall i | 0 <= i < |q| - 1 ensures (q[i], q[i + 1]) in edges { assert q[i] == p[i + 1] && q[i + 1] == p[i + 2]; }
      PairIsClosed(repo, refs, edges, a, b, q);
    }
  }

  lemma AliasBreaksGraph<T>(repo: Repo<T>, refs: seq<Ref>, edges: set<Edge>, a: Ref, b: Ref, c: Ref)
    requires ValidRepo(repo) && IsGraph(repo, refs, edges) && Aliased(repo, refs, a, b, c)
    ensures !Complete(repo, refs, edges)
  {
    hide IsAncestor, IsGraph;
    var (x, y) := if Below(repo, a, c) then (a, c) else (c, a);
    assert Comparable(repo, refs, x, y);
    if Reaches(edges, x, y) {
      var p :| IsPath(edges, p) && p[0] == x && p[|p| - 1] == y;
      PairIsClosed(repo, refs, edges, a, b, p);
    }
  }

  /** The closure of the graph is exactly ancestry between different refs, if and only if no two names
      of one commit stand beside a third ref comparable with it. */
  lemma ClosureIsAncestryExactly<T>(repo: Repo<T>, refs: seq<Ref>, edges: set<Edge>)
    requires ValidRepo(repo) && IsGraph(repo, refs, edges)
    ensures (forall a, b :: a != b ==> (Reaches(edges, a, b) <==> Comparable(repo, refs, a, b))) <==> NoAliases(repo, refs)
  {
    hide IsAncestor, IsGraph, Reaches;
    forall a, b | a != b && Reaches(edges, a, b) ensures Comparable(repo, refs, a, b) {
      ReachedIsComparable(repo, refs, edges, a, b);
    }
    if NoAliases(repo, refs) {
      forall a, b | Comparable(repo, refs, a, b) ensures Reaches(edges, a, b) { ComparableIsReached(repo, refs, edges, a, b); }
    } else {
      var a, b, c :| Aliased(repo, refs, a, b, c);
      AliasBreaksGraph(repo, refs, edges, a, b, c);
    }
  }

  lemma ReachedIsComparable<T>(repo: Repo<T>, refs: seq<Ref>, edges: set<Edge>, a: Ref, b: Ref)
    requires ValidRepo(repo) && IsGraph(repo, refs, edges) && a != b && Reaches(edges, a, b)
    ensures Comparable(repo, refs, a, b)
  {
    hide IsAncestor;
    var p :| IsPath(edges, p) && p[0] == a && p[|p| - 1] == b;
    GraphIsSound(repo, refs, edges);
    PathIsBelow(repo, refs, edges, p);
    assert (p[0], p[1]) in edges && (p[|p| - 2], p[|p| - 1]) in edges;
  }

  /** With one name a commit, the condition holds: the closure is strict ancestry. */
  lemma DistinctCommitsHaveNoAliases<T>(repo: Repo<T>, refs: seq<Ref>)
    requires ValidRepo(repo)
    requires forall a, b :: Known(repo, refs, a) && Known(repo, refs, b) && a != b ==> repo.heads[a] != repo.heads[b]
    ensures NoAliases(repo, refs)
  {
    hide IsAncestor;
  }

  /** The graph is the least one: any edges between comparable refs that reach the end of a kept edge
      from its start contain that edge. So no edge of the graph is implied by its others. */
  lemma KeptEdgeIsNeeded<T>(repo: Repo<T>, refs: seq<Ref>, edges: set<Edge>, others: set<Edge>, a: Ref, b: Ref)
    requires ValidRepo(repo) && IsGraph(repo, refs, edges) && (a, b) in edges
    requires Sound(repo, refs, others) && Reaches(others, a, b)
    ensures (a, b) in others
  {
    hide IsAncestor;
    var p :| IsPath(others, p) && p[0] == a && p[|p| - 1] == b;
    FirstStepBetween(repo, refs, others, p);
    assert Kept(repo, refs, a, b);
  }

  /** A path of more than one edge passes between its ends, unless it comes through its end at once. */
  lemma FirstStepBetween<T>(repo: Repo<T>, refs: seq<Ref>, edges: set<Edge>, p: seq<Ref>)
    requires ValidRepo(repo) && Sound(repo, refs, edges) && IsPath(edges, p)
    ensures (p[0], p[1]) in edges
    ensures p[1] != p[|p| - 1] ==> Between(repo, refs, p[0], p[1], p[|p| - 1])
  {
    hide IsAncestor;
    assert (p[0], p[1]) in edges;
    if |p| > 2 {
      var q := p[1..];
      forall i | 0 <= i < |q| - 1 ensures (q[i], q[i + 1]) in edges { assert q[i] == p[i + 1] && q[i + 1] == p[i + 2]; }
      PathIsBelow(repo, refs, edges, q);
    }
  }

  lemma NoEdgeIsImplied<T>(repo: Repo<T>, refs: seq<Ref>, edges: set<Edge>, a: Ref, b: Ref)
    requires ValidRepo(repo) && IsGraph(repo, refs, edges) && (a, b) in edges
    ensures !Reaches(edges - {(a, b)}, a, b)
  {
    hide IsAncestor;
    GraphIsSound(repo, refs, edges);
    if Reaches(edges - {(a, b)}, a, b) { KeptEdgeIsNeeded(repo, refs, edges, edges - {(a, b)}, a, b); }
  }

  /** Three branches, two of them at one commit: main at the root, a and b at its child. Nothing leads
      from main to a. */
  lemma AliasesLoseAnEdge()
    ensures var repo := Repo([Commit(0, [], []), Commit(0, [0], [])], map[T("main") := 0, T("a") := 1, T("b") := 1]);
            var refs := [T("main"), T("a"), T("b")];
            && ValidRepo(repo) && Comparable(repo, refs, T("main"), T("a"))
            && forall edges :: IsGraph(repo, refs, edges) ==> !Reaches(edges, T("main"), T("a"))
  {
    hide IsGraph;
    var repo := Repo([Commit(0, [], []), Commit(0, [0], [])], map[T("main") := 0, T("a") := 1, T("b") := 1]);
    var refs := [T("main"), T("a"), T("b")];
    assert |T("main")| == 4 && T("a")[0] == 0x61 && T("b")[0] == 0x62;
    assert IsAncestor(repo.store, 0, repo.store[1].parents[0]);
    forall edges | IsGraph(repo, refs, edges) ensures !Reaches(edges, T("main"), T("a")) {
      if Reaches(edges, T("main"), T("a")) {
        var p :| IsPath(edges, p) && p[0] == T("main") && p[|p| - 1] == T("a");
        PairIsClosed(repo, refs, edges, T("a"), T("b"), p);
      }
    }
  }
}
