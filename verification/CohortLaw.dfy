/** What the two validators of a network publication demand, told over the children lists and field by field,
    with neither keyed maps nor field tables. */
module CohortLaw {
  import opened Prelude
  import opened Utf8
  import opened NetworkCohort

  /** Both bodies say the same under this name. */
  predicate Same(a: Value, b: Value, name: Text) {
    Get(a, name) == Get(b, name)
  }

  function ChildrenOf(body: Value): seq<Value> {
    if Get(body, T("children")).List? then Get(body, T("children")).items else []
  }

  predicate IsKeyed(child: Value) {
    child.Record? && Get(child, T("child_key")).Words?
  }

  /** Every child has a string key of its own. */
  predicate KeysApart(children: seq<Value>) {
    && (forall i :: 0 <= i < |children| ==> IsKeyed(children[i]))
    && forall i, j :: 0 <= i < j < |children| ==> !Same(children[i], children[j], T("child_key"))
  }

  predicate SameView(a: Value, b: Value) {
    && Same(a, b, T("child_key")) && Same(a, b, T("node_path")) && Same(a, b, T("lifecycle_status")) && Same(a, b, T("edges"))
  }

  predicate HasView(children: seq<Value>, view: Value) {
    exists j :: 0 <= j < |children| && SameView(children[j], view)
  }

  predicate HasKey(children: seq<Value>, view: Value) {
    exists j :: 0 <= j < |children| && Same(children[j], view, T("child_key"))
  }

  /** The root's children are the rollup's, and each has a row of the ledger that agrees with it, of which there
      are no others. */
  ghost predicate ListsAgree(roots: seq<Value>, ledgers: seq<Value>, rollups: seq<Value>) {
    && KeysApart(roots) && KeysApart(ledgers) && KeysApart(rollups)
    && (forall view :: view in roots ==> HasView(ledgers, view))
    && (forall row :: row in ledgers ==> HasKey(roots, row))
    && forall view :: view in roots <==> view in rollups
  }

  ghost predicate RootLaw(p: Publication) {
    && p.root.Some? && p.ledger.Some? && p.rollup.Some?
    && ListsAgree(ChildrenOf(p.root.value), ChildrenOf(p.ledger.value), ChildrenOf(p.rollup.value))
    && Same(p.rollup.value, p.ledger.value, T("coverage"))
  }

  // Children lists and keyed maps

  lemma KeysApartExactly(children: seq<Value>)
    ensures KeysApart(children) <==> !CannotKey(children)
  {
    hide Get, T;
    forall i, j | 0 <= i < j < |children| && Keyed(children[i]) && Keyed(children[j])
      ensures SameKey(children, i, j) <==> Same(children[i], children[j], T("child_key"))
    {
    }
  }

  /** Each child stands under its own key, and nothing else does. */
  predicate IsKeyedBy(keyed: map<Text, Value>, children: seq<Value>) {
    && (forall key :: key in keyed ==> keyed[key] in children && Get(keyed[key], T("child_key")) == Words(key))
    && forall child :: child in children ==>
         IsKeyed(child) && Get(child, T("child_key")).t in keyed && keyed[Get(child, T("child_key")).t] == child
  }

  lemma ChildrenKeyed(body: Value)
    ensures KeyedChildren(body).Some? <==> KeysApart(ChildrenOf(body))
    ensures KeyedChildren(body).Some? ==> IsKeyedBy(KeyedChildren(body).value, ChildrenOf(body))
  {
    hide Get, T, KeyedItems, CannotKey;
    var children := ChildrenOf(body);
    KeysApartExactly(children);
    KeyedItemsExactly(children);
    if Get(body, CHILDREN).List? {
      if KeyedChildren(body).Some? {
        forall child | child in children
          ensures IsKeyed(child) && Get(child, T("child_key")).t in KeyedChildren(body).value
               && KeyedChildren(body).value[Get(child, T("child_key")).t] == child
        {
          var i :| 0 <= i < |children| && children[i] == child;
        }
      }
    } else {
      NothingKeyed();
    }
  }

  lemma KeyedIsThere(body: Value, key: Text)
    requires KeyedChildren(body).Some? && key in KeyedChildren(body).value
    ensures KeyedChildren(body).value[key] in ChildrenOf(body) && IsKeyed(KeyedChildren(body).value[key])
    ensures Get(KeyedChildren(body).value[key], T("child_key")) == Words(key)
  {
    hide Get, T, KeyedChildren, ChildrenOf;
    ChildrenKeyed(body);
    var child := KeyedChildren(body).value[key];
    assert child in ChildrenOf(body);
  }

  lemma NothingKeyed()
    ensures KeyedItems([]) == Some(map[]) && !CannotKey([])
  {
  }

  lemma SameViewIs(a: Value, b: Value)
    ensures SameFields(a, b, VIEW_FIELDS) <==> SameView(a, b)
  {
    hide SameFields, Get, T;
    ViewFieldsAre(a, b);
  }

  /** The root, the ledger and the rollup agree exactly when their lists do. */
  lemma RootsExactly(p: Publication)
    ensures RootsAgree(p) <==> RootLaw(p)
  {
    hide Get, T, SameFields, KeyedChildren, KeysApart, ChildrenOf, HasView, HasKey;
    if p.root.Some? && p.ledger.Some? && p.rollup.Some? {
      ChildrenKeyed(p.root.value);
      ChildrenKeyed(p.ledger.value);
      ChildrenKeyed(p.rollup.value);
      if KeyedChildren(p.root.value).Some? && KeyedChildren(p.ledger.value).Some? && KeyedChildren(p.rollup.value).Some? {
        KeysCover(p);
        ViewsAgree(p);
        RollupsAgree(p);
      }
    }
  }

  predicate AllKeyed(p: Publication) {
    && p.root.Some? && p.ledger.Some? && p.rollup.Some?
    && KeyedChildren(p.root.value).Some? && KeyedChildren(p.ledger.value).Some? && KeyedChildren(p.rollup.value).Some?
  }

  lemma HasKeyIs(body: Value, view: Value)
    requires KeyedChildren(body).Some? && IsKeyed(view)
    ensures HasKey(ChildrenOf(body), view) <==> Get(view, T("child_key")).t in KeyedChildren(body).value
  {
    hide Get, T, KeyedChildren, ChildrenOf;
    ChildrenKeyed(body);
    var (children, keyed, key) := (ChildrenOf(body), KeyedChildren(body).value, Get(view, T("child_key")).t);
    if key in keyed { assert keyed[key] in children && Same(keyed[key], view, T("child_key")); }
    if j :| 0 <= j < |children| && Same(children[j], view, T("child_key")) { assert children[j] in children; }
  }

  lemma HasViewIs(body: Value, view: Value)
    requires KeyedChildren(body).Some? && IsKeyed(view)
    ensures var (keyed, key) := (KeyedChildren(body).value, Get(view, T("child_key")).t);
            HasView(ChildrenOf(body), view) <==> key in keyed && SameView(keyed[key], view)
  {
    hide Get, T, KeyedChildren, ChildrenOf;
    ChildrenKeyed(body);
    var (children, keyed, key) := (ChildrenOf(body), KeyedChildren(body).value, Get(view, T("child_key")).t);
    if j :| 0 <= j < |children| && SameView(children[j], view) { assert children[j] in children; }
  }

  lemma KeysCover(p: Publication)
    requires AllKeyed(p)
    ensures var (roots, ledgers) := (KeyedChildren(p.root.value).value, KeyedChildren(p.ledger.value).value);
            && (roots.Keys <= ledgers.Keys <==>
                  forall view :: view in ChildrenOf(p.root.value) ==> HasKey(ChildrenOf(p.ledger.value), view))
            && (ledgers.Keys <= roots.Keys <==>
                  forall row :: row in ChildrenOf(p.ledger.value) ==> HasKey(ChildrenOf(p.root.value), row))
  {
    hide Get, T, KeyedChildren, ChildrenOf, HasKey;
    CoverOne(p.root.value, p.ledger.value);
    CoverOne(p.ledger.value, p.root.value);
  }

  lemma CoverOne(body: Value, other: Value)
    requires KeyedChildren(body).Some? && KeyedChildren(other).Some?
    ensures KeyedChildren(body).value.Keys <= KeyedChildren(other).value.Keys <==>
              forall view :: view in ChildrenOf(body) ==> HasKey(ChildrenOf(other), view)
  {
    hide Get, T, KeyedChildren, ChildrenOf, HasKey;
    ChildrenKeyed(body);
    var (keyed, others) := (KeyedChildren(body).value, KeyedChildren(other).value);
    forall view | view in ChildrenOf(body) ensures HasKey(ChildrenOf(other), view) <==> Get(view, T("child_key")).t in others {
      HasKeyIs(other, view);
    }
    if forall view :: view in ChildrenOf(body) ==> HasKey(ChildrenOf(other), view) {
      forall key | key in keyed ensures key in others { KeyedIsThere(body, key); }
    }
  }

  lemma ViewsAgree(p: Publication)
    requires AllKeyed(p)
    ensures var (roots, ledgers) := (KeyedChildren(p.root.value).value, KeyedChildren(p.ledger.value).value);
            roots.Keys <= ledgers.Keys && (forall key :: key in roots ==> key in ledgers && SameFields(roots[key], ledgers[key], VIEW_FIELDS))
            <==> forall view :: view in ChildrenOf(p.root.value) ==> HasView(ChildrenOf(p.ledger.value), view)
  {
    hide Get, T, KeyedChildren, ChildrenOf, HasView, SameFields;
    ChildrenKeyed(p.root.value);
    var (roots, ledgers) := (KeyedChildren(p.root.value).value, KeyedChildren(p.ledger.value).value);
    forall view | view in ChildrenOf(p.root.value)
      ensures var key := Get(view, T("child_key")).t;
              HasView(ChildrenOf(p.ledger.value), view) <==> key in ledgers && SameFields(roots[key], ledgers[key], VIEW_FIELDS)
    {
      HasViewIs(p.ledger.value, view);
      var key := Get(view, T("child_key")).t;
      if key in ledgers { SameViewIs(roots[key], ledgers[key]); }
    }
    if forall view :: view in ChildrenOf(p.root.value) ==> HasView(ChildrenOf(p.ledger.value), view) {
      forall key | key in roots ensures key in ledgers && SameFields(roots[key], ledgers[key], VIEW_FIELDS) {
        KeyedIsThere(p.root.value, key);
      }
    }
  }

  lemma RollupsAgree(p: Publication)
    requires AllKeyed(p)
    ensures KeyedChildren(p.rollup.value).value == KeyedChildren(p.root.value).value <==>
              forall view :: view in ChildrenOf(p.root.value) <==> view in ChildrenOf(p.rollup.value)
  {
    hide Get, T, KeyedChildren, ChildrenOf;
    ChildrenKeyed(p.root.value);
    ChildrenKeyed(p.rollup.value);
    var (roots, rollups) := (KeyedChildren(p.root.value).value, KeyedChildren(p.rollup.value).value);
    if rollups == roots {
      forall view ensures view in ChildrenOf(p.root.value) <==> view in ChildrenOf(p.rollup.value) {
        var key := Get(view, T("child_key"));
        if view in ChildrenOf(p.root.value) { assert rollups[key.t] == view; }
        if view in ChildrenOf(p.rollup.value) { assert roots[key.t] == view; }
      }
    }
    if forall view :: view in ChildrenOf(p.root.value) <==> view in ChildrenOf(p.rollup.value) {
      forall key ensures key in roots <==> key in rollups {
        if key in roots { KeyedIsThere(p.root.value, key); }
        if key in rollups { KeyedIsThere(p.rollup.value, key); }
      }
      forall key | key in roots ensures rollups[key] == roots[key] { KeyedIsThere(p.root.value, key); }
      assert rollups == roots;
    }
  }

  // A child against its view, its row and the bodies beside it

  predicate IsStale(child: Value) {
    Get(child, T("lifecycle_status")) == Words(T("stale"))
  }

  /** What both validators ask of a child and its row of the ledger. */
  predicate RowLaw(child: Value, row: Value) {
    && Same(child, row, T("id")) && Same(child, row, T("child_key")) && Same(child, row, T("node_path"))
    && Same(child, row, T("contrib_branch"))
    && (!IsStale(child) ==> Same(child, row, T("scope_item_ids")))
    && Get(child, T("write_scope")).Record?
    && Get(Get(child, T("write_scope")), T("allowed_subtree")) == Get(row, T("allowed_subtree"))
  }

  /** What both ask of the other bodies of a child's directory. */
  predicate BodiesLaw(node: Node) {
    && node.manifest.Some? && node.request.Some? && node.metadata.Some? && node.cover.Some? && node.approach.Some?
    && var (child, provenance) := (node.manifest.value, Get(node.request.value, T("provenance")));
    && provenance.Record? && Same(provenance, child, T("child_key")) && Same(provenance, child, T("parent_branch"))
    && Get(node.request.value, T("request")) == node.cover.value
    && Same(node.metadata.value, child, T("lifecycle_status"))
    && (Get(node.metadata.value, T("id")) == Null || Same(node.metadata.value, child, T("id")))
  }

  function Lineage(node: Node): Value
    requires node.approach.Some?
  {
    Get(node.approach.value, T("lineage_child"))
  }

  predicate LineageLaw(node: Node)
    requires node.manifest.Some? && node.approach.Some?
  {
    Same(Lineage(node), node.manifest.value, T("id")) && Same(Lineage(node), node.manifest.value, T("lifecycle_status"))
  }

  /** A view or row that the child may stand beside: one that says what it says, or less where it is stale. */
  predicate MayStandBeside(child: Value, view: Value) {
    && Same(child, view, T("child_key")) && Same(child, view, T("node_path"))
    && (!IsStale(child) ==> Same(child, view, T("lifecycle_status")) && Same(child, view, T("edges")))
  }

  lemma RowExactly(child: Value, row: Value)
    ensures LedgerBinds(child, row) <==> RowLaw(child, row)
  {
    hide Get, T, SameFields;
    FourFields(child, row, ID, CHILD_KEY, NODE_PATH, CONTRIB);
    OneField(child, row, SCOPE_IDS);
  }

  lemma OneField(left: Value, right: Value, name: Text)
    ensures SameFields(left, right, [name]) <==> Get(left, name) == Get(right, name)
  {
    hide Get;
    assert [name][0] == name;
  }

  lemma ComparedExactly(child: Value, view: Value)
    ensures SameFields(child, view, ComparedFields(child)) <==> MayStandBeside(child, view)
  {
    hide Get, T, SameFields;
    ViewFieldsAre(child, view);
  }

  /** The writer's law for the child of one directory. */
  ghost predicate WriterLaw(p: Publication, dir: Text)
    requires p.root.Some? && p.ledger.Some? && HasManifest(p, dir)
  {
    var (node, child) := (p.nodes[dir], p.nodes[dir].manifest.value);
    && Get(child, T("node_path")) == Words(dir) && Get(child, T("child_key")).Words?
    && (exists view :: view in ChildrenOf(p.root.value) && MayStandBeside(child, view))
    && (exists row :: row in ChildrenOf(p.ledger.value) && MayStandBeside(child, row) && RowLaw(child, row))
    && BodiesLaw(node) && (Lineage(node).Record? ==> LineageLaw(node))
  }

  lemma NodeExactly(node: Node)
    requires ShapeOfNode(node)
    ensures WriterNode(node) <==> BodiesLaw(node) && (Lineage(node).Record? ==> LineageLaw(node))
  {
    hide Get, T, SameFields;
    OneField(node.metadata.value, node.manifest.value, LIFECYCLE);
    TwoFields(Get(node.approach.value, LINEAGE), node.manifest.value, ID, LIFECYCLE);
  }

  /** The one child under a key is the keyed one. */
  lemma UnderKey(body: Value, view: Value, key: Text)
    requires KeyedChildren(body).Some? && view in ChildrenOf(body) && Get(view, T("child_key")) == Words(key)
    ensures key in KeyedChildren(body).value && KeyedChildren(body).value[key] == view
  {
    hide Get, T, KeyedChildren, ChildrenOf;
    ChildrenKeyed(body);
  }

  lemma WriterChildExactly(p: Publication, dir: Text)
    requires RootsAgree(p) && HasManifest(p, dir) && ShapeOfNode(p.nodes[dir])
    ensures WriterChild(p, dir, p.nodes[dir].manifest.value) && WriterNode(p.nodes[dir]) <==> WriterLaw(p, dir)
  {
    hide Get, T, SameFields, LedgerBinds, RowLaw, KeyedChildren, ChildrenOf, WriterNode, BodiesLaw, LineageLaw, ComparedFields;
    var child := p.nodes[dir].manifest.value;
    NodeExactly(p.nodes[dir]);
    if Get(child, T("child_key")).Words? {
      var key := Get(child, T("child_key")).t;
      if key in RootViews(p) && key in LedgerViews(p) {
        KeyedIsThere(p.root.value, key);
        KeyedIsThere(p.ledger.value, key);
        ComparedExactly(child, RootViews(p)[key]);
        ComparedExactly(child, LedgerViews(p)[key]);
        RowExactly(child, LedgerViews(p)[key]);
      }
      forall view | view in ChildrenOf(p.root.value) && MayStandBeside(child, view)
        ensures key in RootViews(p) && RootViews(p)[key] == view
      {
        UnderKey(p.root.value, view, key);
      }
      forall row | row in ChildrenOf(p.ledger.value) && MayStandBeside(child, row)
        ensures key in LedgerViews(p) && LedgerViews(p)[key] == row
      {
        UnderKey(p.ledger.value, row, key);
      }
    }
  }

  /** All five bodies of a child's directory, or none of them. */
  predicate WholeNode(node: Node) {
    ShapeOfNode(node) || node == Node(None, None, None, None, None)
  }

  /** The writer accepts exactly lawful publications. */
  lemma WriterExactly(p: Publication)
    ensures WriterAccepts(p) <==>
      && RootLaw(p) && p.metadata.Some?
      && (forall dir :: dir in p.nodes ==> WholeNode(p.nodes[dir]))
      && forall dir :: dir in p.nodes && HasManifest(p, dir) ==> WriterLaw(p, dir)
  {
    hide Get, T, SameFields, KeyedChildren, WriterChild, WriterNode, WriterLaw, RootsAgree, RootLaw;
    RootsExactly(p);
    assert ShapeOk(p) ==> forall dir :: dir in p.nodes ==> WholeNode(p.nodes[dir]);
    if RootsAgree(p) && forall dir :: dir in p.nodes ==> WholeNode(p.nodes[dir]) {
      RootsAreKeyed(p);
      forall dir | dir in p.nodes && HasManifest(p, dir)
        ensures WriterChild(p, dir, p.nodes[dir].manifest.value) && WriterNode(p.nodes[dir]) <==> WriterLaw(p, dir)
      {
        WriterChildExactly(p, dir);
      }
    }
  }

  // The reader

  /** The reader's law for one child that the root declares: its files stand in the directory that its path
      leads to, and say what the view and the row say. */
  ghost predicate ReaderLaw(p: Publication, view: Value)
    requires p.ledger.Some?
  {
    && Get(view, T("node_path")).Words? && Get(view, T("node_path")).t != []
    && var dir := Dir(Get(view, T("node_path")).t);
    && dir.Some? && dir.value in p.nodes
    && var node := p.nodes[dir.value];
    && BodiesLaw(node) && Lineage(node).Record? && LineageLaw(node)
    && SameView(node.manifest.value, view)
    && exists row :: row in ChildrenOf(p.ledger.value) && Same(row, view, T("child_key")) && RowLaw(node.manifest.value, row)
  }

  lemma GroundedExactly(p: Publication, key: Text)
    requires RootsAgree(p) && key in RootViews(p)
    ensures Grounded(p, key) <==> ReaderLaw(p, RootViews(p)[key])
  {
    hide Get, T, SameFields, LedgerBinds, RowLaw, KeyedChildren, ChildrenOf, Dir;
    var view := RootViews(p)[key];
    KeyedIsThere(p.root.value, key);
    KeyedIsThere(p.ledger.value, key);
    var row := LedgerViews(p)[key];
    forall other | other in ChildrenOf(p.ledger.value) && Same(other, view, T("child_key")) ensures other == row {
      UnderKey(p.ledger.value, other, key);
    }
    if Get(view, T("node_path")).Words? && Dir(Get(view, T("node_path")).t).Some? && Dir(Get(view, T("node_path")).t).value in p.nodes {
      var node := p.nodes[Dir(Get(view, T("node_path")).t).value];
      if ShapeOfNode(node) {
        SameViewIs(node.manifest.value, view);
        RowExactly(node.manifest.value, row);
        OneField(node.metadata.value, node.manifest.value, LIFECYCLE);
        TwoFields(Get(node.approach.value, LINEAGE), node.manifest.value, ID, LIFECYCLE);
      }
    }
  }

  /** The reader accepts exactly trees in which every declared child is grounded by law. */
  lemma ReaderExactly(p: Publication)
    ensures ReaderAccepts(p) <==>
      && RootLaw(p) && p.metadata.Some?
      && forall view :: view in ChildrenOf(p.root.value) ==> ReaderLaw(p, view)
  {
    hide Get, T, KeyedChildren, ChildrenOf, Grounded, ReaderLaw, RootsAgree;
    RootsExactly(p);
    if RootsAgree(p) {
      assert AllKeyed(p) by { RootsAreKeyed(p); }
      ChildrenKeyed(p.root.value);
      forall key | key in RootViews(p) ensures RootViews(p)[key] in ChildrenOf(p.root.value) && (Grounded(p, key) <==> ReaderLaw(p, RootViews(p)[key])) {
        KeyedIsThere(p.root.value, key);
        GroundedExactly(p, key);
      }
      forall view | view in ChildrenOf(p.root.value)
        ensures IsKeyed(view) && Get(view, T("child_key")).t in RootViews(p) && RootViews(p)[Get(view, T("child_key")).t] == view
      {
      }
    }
  }

  lemma RootsAreKeyed(p: Publication)
    requires RootsAgree(p)
    ensures AllKeyed(p)
  {
    hide SameFields;
  }

  // Node paths

  predicate HoldsNoSlash(t: Text) {
    forall i :: 0 <= i < |t| ==> t[i] != 0x2F
  }

  predicate ArePieces(pieces: seq<Text>) {
    pieces != [] && forall i :: 0 <= i < |pieces| ==> HoldsNoSlash(pieces[i])
  }

  /** What is left of a path's pieces: neither empty ones nor single dots. */
  function Kept(pieces: seq<Text>): seq<Text> {
    if pieces == [] then [] else (if pieces[0] == [] || pieces[0] == T(".") then [] else [pieces[0]]) + Kept(pieces[1..])
  }

  /** Every path is made up of pieces with slashes between them. */
  lemma {:induction false} PiecesOfPath(path: Text) returns (pieces: seq<Text>)
    ensures ArePieces(pieces) && Joined(pieces) == path
    decreases |path|
  {
    var k := NextSlash(path);
    if k == |path| {
      assert path[..k] == path;
      pieces := [path];
    } else {
      var more := PiecesOfPath(path[k + 1..]);
      pieces := [path[..k]] + more;
      assert pieces[1..] == more;
      assert path == path[..k] + [SLASH] + path[k + 1..];
    }
  }

  lemma {:induction false} PartsAreKept(pieces: seq<Text>)
    requires ArePieces(pieces)
    ensures Parts(Joined(pieces)) == Kept(pieces)
  {
    hide Parts;
    assert T(".") == DOT;
    var first := pieces[0];
    assert SLASH !in first;
    if |pieces| == 1 {
      assert pieces[1..] == [];
      if IsPart(first) { PartsOfOne(first); } else { NoPartsOf(first); }
    } else {
      PartsAreKept(pieces[1..]);
      PartsStep(first, Joined(pieces[1..]));
    }
  }

  lemma NoPartsOf(t: Text)
    requires t == [] || t == DOT
    ensures Parts(t) == []
  {
    if t == DOT { DotHasNoParts(); }
  }

  /** The directory of a relative path is its kept pieces, or the dot where none is left; an absolute path has none. */
  lemma DirExactly(pieces: seq<Text>)
    requires ArePieces(pieces)
    ensures Dir(Joined(pieces)) == if |pieces| > 1 && pieces[0] == [] then None
                                   else Some(if Kept(pieces) == [] then T(".") else Joined(Kept(pieces)))
  {
    hide Parts, Kept;
    PartsAreKept(pieces);
    assert T(".") == DOT;
    var path := Joined(pieces);
    if pieces[0] != [] { assert path[0] == pieces[0][0]; }
  }
}
