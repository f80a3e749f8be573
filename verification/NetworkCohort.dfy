/** The two validators of a network publication, written apart from each other: the writer's over the
    members it is about to publish, the reader's over a frozen tree. */
module NetworkCohort {
  import opened Prelude
  import opened Utf8

  /** A decoded body. An absent field and a null one read alike. */
  datatype Value =
    | Null
    | Flag(b: bool)
    | Number(lexeme: Text)
    | Words(t: Text)
    | List(items: seq<Value>)
    | Record(fields: map<Text, Value>)

  function Get(v: Value, field: Text): Value {
    if v.Record? && field in v.fields then v.fields[field] else Null
  }

  const CHILDREN := T("children")
  const CHILD_KEY := T("child_key")
  const NODE_PATH := T("node_path")
  const LIFECYCLE := T("lifecycle_status")
  const EDGES := T("edges")
  const ID := T("id")
  const CONTRIB := T("contrib_branch")
  const SCOPE_IDS := T("scope_item_ids")
  const WRITE_SCOPE := T("write_scope")
  const SUBTREE := T("allowed_subtree")
  const COVERAGE := T("coverage")
  const PROVENANCE := T("provenance")
  const PARENT_BRANCH := T("parent_branch")
  const REQUEST := T("request")
  const LINEAGE := T("lineage_child")
  const STALE := Words(T("stale"))

  /** `_same_fields`. */
  predicate SameFields(left: Value, right: Value, fields: seq<Text>) {
    forall i :: 0 <= i < |fields| ==> Get(left, fields[i]) == Get(right, fields[i])
  }

  const VIEW_FIELDS: seq<Text> := [CHILD_KEY, NODE_PATH, LIFECYCLE, EDGES]
  const AUTHORITY_FIELDS: seq<Text> := [ID, CHILD_KEY, NODE_PATH, CONTRIB]

  // _keyed_children

  predicate Keyed(child: Value) {
    child.Record? && Get(child, CHILD_KEY).Words?
  }

  /** The children of a body by key; None stands for a refusal. */
  function KeyedItems(items: seq<Value>): Option<map<Text, Value>> {
    if items == [] then Some(map[])
    else
      var last := items[|items| - 1];
      match KeyedItems(items[..|items| - 1])
      case None => None
      case Some(before) =>
        if !Keyed(last) || Get(last, CHILD_KEY).t in before then None else Some(before[Get(last, CHILD_KEY).t := last])
  }

  function KeyedChildren(body: Value): Option<map<Text, Value>> {
    if Get(body, CHILDREN).List? then KeyedItems(Get(body, CHILDREN).items) else Some(map[])
  }

  predicate SameKey(items: seq<Value>, i: int, j: int)
    requires 0 <= i < j < |items|
  {
    Keyed(items[i]) && Keyed(items[j]) && Get(items[i], CHILD_KEY) == Get(items[j], CHILD_KEY)
  }

  /** Why children are refused: one has no string key, or two have the same. */
  predicate CannotKey(items: seq<Value>) {
    || (exists i :: 0 <= i < |items| && !Keyed(items[i]))
    || (exists i, j :: 0 <= i < j < |items| && SameKey(items, i, j))
  }

  /** Each child is found under its own key, and nothing else is. */
  predicate KeyedAs(items: seq<Value>, keyed: map<Text, Value>) {
    && (forall i, j :: 0 <= i < j < |items| ==> !SameKey(items, i, j))
    && (forall key :: key in keyed ==> Get(keyed[key], CHILD_KEY) == Words(key) && keyed[key] in items)
    && forall i :: 0 <= i < |items| ==>
         Keyed(items[i]) && Get(items[i], CHILD_KEY).t in keyed && keyed[Get(items[i], CHILD_KEY).t] == items[i]
  }

  /** Children are keyed exactly when all have string keys and no two share one, each under its own key. */
  lemma {:induction false} KeyedItemsExactly(items: seq<Value>)
    ensures KeyedItems(items).None? <==> CannotKey(items)
    ensures KeyedItems(items).Some? ==> KeyedAs(items, KeyedItems(items).value)
  {
    hide Get, Keyed;
    if items != [] {
      var n := |items| - 1;
      var (front, last) := (items[..n], items[n]);
      KeyedItemsExactly(front);
      assert forall i :: 0 <= i < n ==> front[i] == items[i];
      if KeyedItems(front).None? {
        CannotKeyMore(items);
      } else {
        LastOfKeyed(items, KeyedItems(front).value);
      }
    }
  }

  lemma CannotKeyMore(items: seq<Value>)
    requires items != [] && CannotKey(items[..|items| - 1])
    ensures CannotKey(items)
  {
    hide Keyed, Get;
    var front := items[..|items| - 1];
    if i, j :| 0 <= i < j < |front| && SameKey(front, i, j) { assert SameKey(items, i, j); }
  }

  lemma LastOfKeyed(items: seq<Value>, before: map<Text, Value>)
    requires items != [] && KeyedAs(items[..|items| - 1], before)
    ensures var last := items[|items| - 1];
            && (CannotKey(items) <==> !Keyed(last) || Get(last, CHILD_KEY).t in before)
            && (!CannotKey(items) ==> KeyedAs(items, before[Get(last, CHILD_KEY).t := last]))
  {
    hide Get;
    var n := |items| - 1;
    var (front, last) := (items[..n], items[n]);
    assert forall i :: 0 <= i < n ==> front[i] == items[i];
    assert items[n] == last;
    forall i, j | 0 <= i < j < n ensures !SameKey(items, i, j) { assert !SameKey(front, i, j); }
    if Keyed(last) && Get(last, CHILD_KEY).t in before {
      var i :| 0 <= i < n && front[i] == before[Get(last, CHILD_KEY).t];
      assert SameKey(items, i, n);
    }
  }

  method KeyedChildrenLoop(body: Value) returns (result: Option<map<Text, Value>>)
    ensures result == KeyedChildren(body)
    ensures Get(body, CHILDREN).List? && result.Some? ==> KeyedAs(Get(body, CHILDREN).items, result.value)
    ensures result.None? <==> Get(body, CHILDREN).List? && CannotKey(Get(body, CHILDREN).items)
  {
    var value := Get(body, CHILDREN);
    if !value.List? { return Some(map[]); }
    KeyedItemsExactly(value.items);
    hide KeyedAs, CannotKey;
    var keyed: map<Text, Value> := map[];
    assert value.items[..0] == [];
    for i := 0 to |value.items|
      invariant KeyedItems(value.items[..i]) == Some(keyed)
    {
      var child := value.items[i];
      assert value.items[..i + 1][..i] == value.items[..i];
      KeyedPrefix(value.items, i + 1);
      if !Keyed(child) || Get(child, CHILD_KEY).t in keyed { return None; }
      keyed := keyed[Get(child, CHILD_KEY).t := child];
    }
    assert value.items[..|value.items|] == value.items;
    return Some(keyed);
  }

  lemma {:induction false} KeyedPrefix(items: seq<Value>, i: nat)
    requires i <= |items|
    ensures KeyedItems(items[..i]).None? ==> KeyedItems(items).None?
    decreases |items|
  {
    if i == |items| {
      assert items[..i] == items;
    } else {
      KeyedPrefix(items[..|items| - 1], i);
      assert items[..|items| - 1][..i] == items[..i];
    }
  }

  // Node paths

  const SLASH: CodePoint := 0x2F
  const DOT: Text := [0x2E]

  function NextSlash(t: Text): (k: nat)
    ensures k <= |t| && SLASH !in t[..k] && (k < |t| ==> t[k] == SLASH)
  {
    if t == [] || t[0] == SLASH then 0
    else
      var k := NextSlash(t[1..]);
      assert t[..k + 1] == [t[0]] + t[1..][..k];
      k + 1
  }

  /** The parts that `PurePosixPath` keeps: neither empty nor ".". */
  function Parts(t: Text): (parts: seq<Text>)
    ensures forall i :: 0 <= i < |parts| ==> IsPart(parts[i])
    decreases |t|
  {
    var k := NextSlash(t);
    (if t[..k] == [] || t[..k] == DOT then [] else [t[..k]]) + (if k < |t| then Parts(t[k + 1..]) else [])
  }

  predicate IsPart(t: Text) {
    t != [] && t != DOT && SLASH !in t
  }

  function Joined(parts: seq<Text>): Text {
    if parts == [] then []
    else if |parts| == 1 then parts[0]
    else parts[0] + [SLASH] + Joined(parts[1..])
  }

  /** The directory that `classify_path` finds for a file under this node path. None is an absolute path,
      which no tree holds. */
  function Dir(path: Text): Option<Text> {
    if path != [] && path[0] == SLASH then None
    else Some(if Parts(path) == [] then DOT else Joined(Parts(path)))
  }

  /** A path spelled as its directory. */
  predicate Normal(path: Text) {
    Dir(path) == Some(path)
  }

  lemma {:induction false} NextSlashIs(part: Text, rest: Text)
    requires SLASH !in part && (rest == [] || rest[0] == SLASH)
    ensures NextSlash(part + rest) == |part|
  {
    if part == [] {
      assert part + rest == rest;
    } else {
      assert part[0] in part && (part + rest)[1..] == part[1..] + rest;
      NextSlashIs(part[1..], rest);
    }
  }

  /** The parts of a path, one slash at a time. */
  lemma PartsStep(part: Text, rest: Text)
    requires SLASH !in part
    ensures Parts(part + [SLASH] + rest) == (if part == [] || part == DOT then [] else [part]) + Parts(rest)
  {
    hide NextSlash;
    var t := part + ([SLASH] + rest);
    NextSlashIs(part, [SLASH] + rest);
    assert t == part + [SLASH] + rest;
    assert t[..|part|] == part && t[|part| + 1..] == rest;
  }

  lemma PartsOfOne(part: Text)
    requires IsPart(part)
    ensures Parts(part) == [part]
  {
    hide NextSlash;
    NextSlashIs(part, []);
    assert part + [] == part && part[..|part|] == part;
  }

  lemma {:induction false} PartsOfJoined(parts: seq<Text>)
    requires parts != [] && forall i :: 0 <= i < |parts| ==> IsPart(parts[i])
    ensures Parts(Joined(parts)) == parts
  {
    hide Parts;
    if |parts| == 1 {
      PartsOfOne(parts[0]);
      assert parts == [parts[0]];
    } else {
      PartsOfJoined(parts[1..]);
      PartsStep(parts[0], Joined(parts[1..]));
      assert parts == [parts[0]] + parts[1..];
    }
  }

  lemma NormalIsNotEmpty(path: Text)
    requires Normal(path)
    ensures path != []
  {
    assert Parts([]) == [];
  }

  /** Directories are spelled in the one normal way, so spelling one again changes nothing. */
  lemma DirIsNormal(path: Text)
    requires Dir(path).Some?
    ensures Normal(Dir(path).value)
  {
    hide Parts;
    var parts := Parts(path);
    if parts == [] {
      DotHasNoParts();
    } else {
      PartsOfJoined(parts);
      assert Joined(parts)[0] == parts[0][0] && parts[0][0] in parts[0];
    }
  }

  lemma DotHasNoParts()
    ensures Parts(DOT) == []
  {
    assert NextSlash(DOT) == 1;
  }

  // Publications

  /** The network files of one child directory. */
  datatype Node = Node(
    manifest: Option<Value>, request: Option<Value>, metadata: Option<Value>, cover: Option<Value>, approach: Option<Value>
  )

  /** The network files of a tree or of a set of members: the root's and, by directory, the children's. */
  datatype Publication = Publication(
    root: Option<Value>, ledger: Option<Value>, rollup: Option<Value>, metadata: Option<Value>, nodes: map<Text, Node>
  )

  /** Child directories are spelled as `classify_path` spells them, and none is the root's own. */
  predicate ValidPublication(p: Publication) {
    forall dir :: dir in p.nodes ==> Normal(dir) && dir != DOT
  }

  predicate HasManifest(p: Publication, dir: Text) {
    dir in p.nodes && p.nodes[dir].manifest.Some?
  }

  // The writer

  /** `_validate_cohort_shape`: the three root bodies, and every child body exactly where there is a
      child manifest. */
  predicate ShapeOk(p: Publication) {
    && p.root.Some? && p.ledger.Some? && p.rollup.Some? && p.metadata.Some?
    && forall dir :: dir in p.nodes ==>
         && (p.nodes[dir].request.Some? <==> p.nodes[dir].manifest.Some?)
         && (p.nodes[dir].metadata.Some? <==> p.nodes[dir].manifest.Some?)
         && (p.nodes[dir].cover.Some? <==> p.nodes[dir].manifest.Some?)
         && (p.nodes[dir].approach.Some? <==> p.nodes[dir].manifest.Some?)
  }

  /** The root, ledger and rollup of one publication; both validators ask the same of them. */
  predicate RootsAgree(p: Publication) {
    && p.root.Some? && p.ledger.Some? && p.rollup.Some?
    && var (roots, ledgers, rollups) := (KeyedChildren(p.root.value), KeyedChildren(p.ledger.value), KeyedChildren(p.rollup.value));
    && roots.Some? && ledgers.Some? && rollups.Some?
    && roots.value.Keys == ledgers.value.Keys
    && (forall key :: key in roots.value ==> SameFields(roots.value[key], ledgers.value[key], VIEW_FIELDS))
    && rollups.value == roots.value
    && Get(p.rollup.value, COVERAGE) == Get(p.ledger.value, COVERAGE)
  }

  function RootViews(p: Publication): map<Text, Value>
    requires RootsAgree(p)
  {
    KeyedChildren(p.root.value).value
  }

  function LedgerViews(p: Publication): map<Text, Value>
    requires RootsAgree(p)
  {
    KeyedChildren(p.ledger.value).value
  }

  /** The fields in which the writer compares a child with its views: a stale child keeps older ones. */
  function ComparedFields(child: Value): seq<Text> {
    if Get(child, LIFECYCLE) == STALE then [CHILD_KEY, NODE_PATH] else VIEW_FIELDS
  }

  /** What both validators ask of a child and its ledger row. */
  predicate LedgerBinds(child: Value, ledger: Value) {
    && SameFields(child, ledger, AUTHORITY_FIELDS)
    && (Get(child, LIFECYCLE) != STALE ==> SameFields(child, ledger, [SCOPE_IDS]))
    && Get(child, WRITE_SCOPE).Record?
    && Get(Get(child, WRITE_SCOPE), SUBTREE) == Get(ledger, SUBTREE)
  }

  /** The writer's checks of one child manifest. A child_key that is no string never equals a view's. */
  predicate WriterChild(p: Publication, dir: Text, child: Value)
    requires RootsAgree(p)
  {
    && Get(child, NODE_PATH) == Words(dir)
    && Get(child, CHILD_KEY).Words?
    && var key := Get(child, CHILD_KEY).t;
    && key in RootViews(p) && key in LedgerViews(p)
    && SameFields(child, RootViews(p)[key], ComparedFields(child))
    && SameFields(child, LedgerViews(p)[key], ComparedFields(child))
    && LedgerBinds(child, LedgerViews(p)[key])
  }

  /** The writer's checks of the other bodies beside a child manifest. */
  predicate WriterNode(node: Node)
    requires node.manifest.Some? && node.request.Some? && node.metadata.Some? && node.cover.Some? && node.approach.Some?
  {
    var (child, request, metadata) := (node.manifest.value, node.request.value, node.metadata.value);
    var (provenance, lineage) := (Get(request, PROVENANCE), Get(node.approach.value, LINEAGE));
    && provenance.Record?
    && Get(provenance, CHILD_KEY) == Get(child, CHILD_KEY)
    && Get(provenance, PARENT_BRANCH) == Get(child, PARENT_BRANCH)
    && Get(request, REQUEST) == node.cover.value
    && SameFields(metadata, child, [LIFECYCLE])
    && (Get(metadata, ID) != Null ==> Get(metadata, ID) == Get(child, ID))
    && (lineage.Record? ==> SameFields(lineage, child, [ID, LIFECYCLE]))
  }

  /** `_validate_cohort_shape` and `_validate_pairwise`. */
  predicate WriterAccepts(p: Publication) {
    && ShapeOk(p) && RootsAgree(p)
    && forall dir :: dir in p.nodes && HasManifest(p, dir) ==> WriterChild(p, dir, p.nodes[dir].manifest.value) && WriterNode(p.nodes[dir])
  }

  // The reader

  /** `_validate_grounded_child_cohort` of one declared child. */
  predicate GroundedChild(node: Node, key: Text, path: Text, rootView: Value, ledgerView: Value) {
    && node.manifest.Some? && node.request.Some? && node.metadata.Some? && node.cover.Some? && node.approach.Some?
    && Get(rootView, NODE_PATH) == Words(path)
    && var (child, request, metadata) := (node.manifest.value, node.request.value, node.metadata.value);
    var (provenance, lineage) := (Get(request, PROVENANCE), Get(node.approach.value, LINEAGE));
    && SameFields(child, rootView, VIEW_FIELDS)
    && LedgerBinds(child, ledgerView)
    && provenance.Record?
    && Get(provenance, CHILD_KEY) == Words(key)
    && Get(provenance, PARENT_BRANCH) == Get(child, PARENT_BRANCH)
    && Get(request, REQUEST) == node.cover.value
    && SameFields(metadata, child, [LIFECYCLE])
    && (Get(metadata, ID) != Null ==> Get(metadata, ID) == Get(child, ID))
    && lineage.Record? && SameFields(lineage, child, [ID, LIFECYCLE])
  }

  /** The view's node path leads to this directory. */
  predicate DeclaredAt(view: Value, dir: Text) {
    Get(view, NODE_PATH).Words? && Get(view, NODE_PATH).t != [] && Dir(Get(view, NODE_PATH).t) == Some(dir)
  }

  /** Declared child `key` is grounded in the tree: its files are looked up by the normalized path. */
  predicate Grounded(p: Publication, key: Text)
    requires RootsAgree(p) && key in RootViews(p)
  {
    && key in LedgerViews(p)
    && var view := RootViews(p)[key];
    && Get(view, NODE_PATH).Words?
    && var path := Get(view, NODE_PATH).t;
    && path != [] && Dir(path).Some? && Dir(path).value in p.nodes
    && GroundedChild(p.nodes[Dir(path).value], key, path, view, LedgerViews(p)[key])
  }

  /** `_validate_grounded_manifest_input` for the root: the root bodies and every declared child. */
  predicate ReaderAccepts(p: Publication) {
    && p.root.Some? && p.ledger.Some? && p.rollup.Some? && p.metadata.Some?
    && RootsAgree(p)
    && forall key :: key in RootViews(p) ==> Grounded(p, key)
  }

  /** And for a child directory: its manifest is the grounded one of the key that it carries, and is
      spelled as it was asked for. */
  predicate ReaderAcceptsChild(p: Publication, dir: Text) {
    && ReaderAccepts(p) && HasManifest(p, dir)
    && var selected := p.nodes[dir].manifest.value;
    && Get(selected, CHILD_KEY).Words? && Get(selected, CHILD_KEY).t in RootViews(p)
    && var view := RootViews(p)[Get(selected, CHILD_KEY).t];
    && Get(view, NODE_PATH).Words? && Dir(Get(view, NODE_PATH).t).Some? && Dir(Get(view, NODE_PATH).t).value in p.nodes
    && p.nodes[Dir(Get(view, NODE_PATH).t).value].manifest == Some(selected)
    && Get(selected, NODE_PATH) == Words(dir)
  }

  // Each validator against the other

  predicate IsDeclared(p: Publication, dir: Text)
    requires RootsAgree(p)
  {
    exists key :: key in RootViews(p) && DeclaredAt(RootViews(p)[key], dir)
  }

  /** The files that a tree's root declares: what a reader looks at. */
  function Declared(p: Publication): Publication
    requires RootsAgree(p)
  {
    p.(nodes := map dir | dir in p.nodes && IsDeclared(p, dir) :: p.nodes[dir])
  }

  lemma ViewHasItsKey(p: Publication, key: Text)
    requires RootsAgree(p) && key in RootViews(p)
    ensures Get(RootViews(p)[key], CHILD_KEY) == Words(key)
  {
    hide KeyedItems, Get;
    KeyedItemsExactly(Get(p.root.value, CHILDREN).items);
  }

  lemma FourFields(left: Value, right: Value, a: Text, b: Text, c: Text, d: Text)
    ensures SameFields(left, right, [a, b, c, d]) <==>
      Get(left, a) == Get(right, a) && Get(left, b) == Get(right, b) && Get(left, c) == Get(right, c) && Get(left, d) == Get(right, d)
  {
    hide Get;
    var fields := [a, b, c, d];
    assert fields[0] == a && fields[1] == b && fields[2] == c && fields[3] == d;
  }

  lemma TwoFields(left: Value, right: Value, a: Text, b: Text)
    ensures SameFields(left, right, [a, b]) <==> Get(left, a) == Get(right, a) && Get(left, b) == Get(right, b)
  {
    hide Get;
    var fields := [a, b];
    assert fields[0] == a && fields[1] == b;
  }

  lemma ViewFieldsAre(left: Value, right: Value)
    ensures SameFields(left, right, VIEW_FIELDS) <==>
      && Get(left, CHILD_KEY) == Get(right, CHILD_KEY) && Get(left, NODE_PATH) == Get(right, NODE_PATH)
      && Get(left, LIFECYCLE) == Get(right, LIFECYCLE) && Get(left, EDGES) == Get(right, EDGES)
    ensures SameFields(left, right, [CHILD_KEY, NODE_PATH]) <==>
      Get(left, CHILD_KEY) == Get(right, CHILD_KEY) && Get(left, NODE_PATH) == Get(right, NODE_PATH)
  {
    hide Get, SameFields, T;
    FourFields(left, right, CHILD_KEY, NODE_PATH, LIFECYCLE, EDGES);
    TwoFields(left, right, CHILD_KEY, NODE_PATH);
  }

  /** A child grounded at a path in its normal spelling passes the writer's checks of that directory. */
  lemma GroundedChildIsWritable(p: Publication, key: Text, dir: Text)
    requires RootsAgree(p) && key in RootViews(p) && DeclaredAt(RootViews(p)[key], dir) && Grounded(p, key)
    ensures HasManifest(p, dir) && ShapeOfNode(p.nodes[dir]) && WriterNode(p.nodes[dir])
    ensures WriterChild(p, dir, p.nodes[dir].manifest.value) <==> Normal(Get(RootViews(p)[key], NODE_PATH).t)
  {
    hide Get, SameFields, LedgerBinds, KeyedChildren, Dir;
    var (child, view, ledger) := (p.nodes[dir].manifest.value, RootViews(p)[key], LedgerViews(p)[key]);
    ViewHasItsKey(p, key);
    ViewFieldsAre(child, view);
    ViewFieldsAre(view, ledger);
    ViewFieldsAre(child, ledger);
  }

  predicate ShapeOfNode(node: Node) {
    node.manifest.Some? && node.request.Some? && node.metadata.Some? && node.cover.Some? && node.approach.Some?
  }

  /** Every declared child's node path is spelled as its directory. */
  predicate PathsAreNormal(p: Publication)
    requires RootsAgree(p)
  {
    forall key :: key in RootViews(p) ==> Get(RootViews(p)[key], NODE_PATH).Words? && Normal(Get(RootViews(p)[key], NODE_PATH).t)
  }

  /** Of whatever tree the reader's grounding accepts, the writer accepts the declared cohort if and only if
      every declared node path is spelled as its directory: the reader looks a child up by the normalized
      path, the writer compares the spelling. */
  lemma ReaderAgreesWithWriterExactly(p: Publication)
    requires ReaderAccepts(p)
    ensures WriterAccepts(Declared(p)) <==> PathsAreNormal(p)
  {
    hide Get, SameFields, KeyedChildren, WriterChild, WriterNode, Grounded, Dir;
    var cohort := Declared(p);
    assert RootsAgree(cohort) && RootViews(cohort) == RootViews(p) && LedgerViews(cohort) == LedgerViews(p);
    forall dir | dir in cohort.nodes ensures ShapeOfNode(cohort.nodes[dir]) && WriterNode(cohort.nodes[dir])
    {
      var key :| key in RootViews(p) && DeclaredAt(RootViews(p)[key], dir);
      GroundedChildIsWritable(p, key, dir);
    }
    if PathsAreNormal(p) {
      forall dir | dir in cohort.nodes ensures WriterChild(cohort, dir, cohort.nodes[dir].manifest.value) {
        var key :| key in RootViews(p) && DeclaredAt(RootViews(p)[key], dir);
        GroundedChildIsWritable(p, key, dir);
        SameViews(p, cohort, dir, cohort.nodes[dir].manifest.value);
      }
    }
    if WriterAccepts(cohort) {
      forall key | key in RootViews(p)
        ensures Get(RootViews(p)[key], NODE_PATH).Words? && Normal(Get(RootViews(p)[key], NODE_PATH).t)
      {
        var dir := GroundedDirectory(p, key);
        GroundedChildIsWritable(p, key, dir);
        assert dir in cohort.nodes && HasManifest(cohort, dir);
        SameViews(p, cohort, dir, cohort.nodes[dir].manifest.value);
      }
    }
  }

  lemma GroundedDirectory(p: Publication, key: Text) returns (dir: Text)
    requires RootsAgree(p) && key in RootViews(p) && Grounded(p, key)
    ensures DeclaredAt(RootViews(p)[key], dir) && dir in p.nodes && IsDeclared(p, dir)
  {
    hide Get, SameFields, LedgerBinds, KeyedChildren, Dir;
    dir := Dir(Get(RootViews(p)[key], NODE_PATH).t).value;
  }

  lemma SameViews(p: Publication, q: Publication, dir: Text, child: Value)
    requires RootsAgree(p) && RootsAgree(q) && RootViews(p) == RootViews(q) && LedgerViews(p) == LedgerViews(q)
    ensures WriterChild(p, dir, child) <==> WriterChild(q, dir, child)
  {
    hide Get, SameFields, KeyedChildren, LedgerBinds;
  }

  /** Some directory holds the manifest of every declared child. */
  predicate EveryChildIsThere(p: Publication)
    requires RootsAgree(p)
  {
    forall key :: key in RootViews(p) ==>
      exists dir :: dir in p.nodes && HasManifest(p, dir) && Get(p.nodes[dir].manifest.value, CHILD_KEY) == Words(key)
  }

  /** Every child's approach names its lineage. */
  predicate EveryLineageIsThere(p: Publication) {
    forall dir :: dir in p.nodes && HasManifest(p, dir) && p.nodes[dir].approach.Some? ==> Get(p.nodes[dir].approach.value, LINEAGE).Record?
  }

  /** The root view of every stale child says that it is stale, with the same edges. */
  predicate StaleViewsAgree(p: Publication)
    requires RootsAgree(p)
  {
    forall dir :: dir in p.nodes && HasManifest(p, dir) && Get(p.nodes[dir].manifest.value, LIFECYCLE) == STALE ==>
      StaleViewAgrees(p, p.nodes[dir].manifest.value)
  }

  predicate StaleViewAgrees(p: Publication, child: Value)
    requires RootsAgree(p)
  {
    Get(child, CHILD_KEY).Words? && Get(child, CHILD_KEY).t in RootViews(p) ==>
      var view := RootViews(p)[Get(child, CHILD_KEY).t];
      Get(view, LIFECYCLE) == STALE && Get(view, EDGES) == Get(child, EDGES)
  }

  /** A written child whose lineage is there and whose view is not behind is grounded. */
  lemma WrittenChildIsGrounded(p: Publication, key: Text, dir: Text)
    requires ValidPublication(p) && WriterAccepts(p) && key in RootViews(p) && HasManifest(p, dir)
    requires Get(p.nodes[dir].manifest.value, CHILD_KEY) == Words(key)
    requires EveryLineageIsThere(p) && StaleViewsAgree(p)
    ensures Grounded(p, key)
  {
    hide Get, SameFields, LedgerBinds, KeyedChildren, Dir;
    var (child, view) := (p.nodes[dir].manifest.value, RootViews(p)[key]);
    assert WriterChild(p, dir, child) && WriterNode(p.nodes[dir]) && Normal(dir);
    NormalIsNotEmpty(dir);
    ViewFieldsAre(child, view);
  }

  /** And a grounded child has its manifest, its lineage and a view that agrees with it. */
  lemma GroundedChildConditions(p: Publication, dir: Text)
    requires ValidPublication(p) && WriterAccepts(p) && ReaderAccepts(p) && HasManifest(p, dir)
    ensures p.nodes[dir].approach.Some? && Get(p.nodes[dir].approach.value, LINEAGE).Record?
    ensures Get(p.nodes[dir].manifest.value, LIFECYCLE) == STALE ==> StaleViewAgrees(p, p.nodes[dir].manifest.value)
  {
    hide Get, SameFields, LedgerBinds, KeyedChildren, Dir;
    var child := p.nodes[dir].manifest.value;
    assert WriterChild(p, dir, child) && Normal(dir);
    var key := Get(child, CHILD_KEY).t;
    ViewFieldsAre(child, RootViews(p)[key]);
    assert Grounded(p, key);
  }

  lemma GroundedChildIsThere(p: Publication, key: Text)
    requires ReaderAccepts(p) && key in RootViews(p)
    ensures exists dir :: dir in p.nodes && HasManifest(p, dir) && Get(p.nodes[dir].manifest.value, CHILD_KEY) == Words(key)
  {
    hide Get, SameFields, LedgerBinds, KeyedChildren, Dir;
    assert Grounded(p, key);
    var (view, dir) := (RootViews(p)[key], Dir(Get(RootViews(p)[key], NODE_PATH).t).value);
    ViewHasItsKey(p, key);
    ViewFieldsAre(p.nodes[dir].manifest.value, view);
    assert HasManifest(p, dir);
  }

  /** The reader accepts what the writer accepted if and only if every declared child has its manifest in
      the publication, every approach names its lineage, and no stale child is ahead of its root view. */
  lemma WriterAgreesWithReaderExactly(p: Publication)
    requires ValidPublication(p) && WriterAccepts(p)
    ensures ReaderAccepts(p) <==> EveryChildIsThere(p) && EveryLineageIsThere(p) && StaleViewsAgree(p)
  {
    hide Get, SameFields, KeyedChildren, WriterChild, WriterNode, Grounded, StaleViewAgrees, Dir;
    if ReaderAccepts(p) {
      forall key | key in RootViews(p)
        ensures exists dir :: dir in p.nodes && HasManifest(p, dir) && Get(p.nodes[dir].manifest.value, CHILD_KEY) == Words(key)
      {
        GroundedChildIsThere(p, key);
      }
      forall dir | HasManifest(p, dir)
        ensures p.nodes[dir].approach.Some? && Get(p.nodes[dir].approach.value, LINEAGE).Record?
        ensures Get(p.nodes[dir].manifest.value, LIFECYCLE) == STALE ==> StaleViewAgrees(p, p.nodes[dir].manifest.value)
      {
        GroundedChildConditions(p, dir);
      }
    }
    if EveryChildIsThere(p) && EveryLineageIsThere(p) && StaleViewsAgree(p) {
      forall key | key in RootViews(p) ensures Grounded(p, key) {
        var dir :| dir in p.nodes && HasManifest(p, dir) && Get(p.nodes[dir].manifest.value, CHILD_KEY) == Words(key);
        WrittenChildIsGrounded(p, key, dir);
      }
    }
  }

  /** A reader that selects a child gets the grounded manifest of its key, and the writer's checks of that
      directory hold of it. */
  lemma SelectedChildIsGrounded(p: Publication, dir: Text)
    requires ValidPublication(p) && ReaderAcceptsChild(p, dir)
    ensures WriterChild(p, dir, p.nodes[dir].manifest.value)
    ensures exists key :: key in RootViews(p) && Grounded(p, key) && Get(p.nodes[dir].manifest.value, CHILD_KEY) == Words(key)
  {
    hide Get, SameFields, KeyedChildren, WriterChild, LedgerBinds, WriterNode, Dir;
    var key := Get(p.nodes[dir].manifest.value, CHILD_KEY).t;
    assert Grounded(p, key);
    var (child, view) := (p.nodes[dir].manifest.value, RootViews(p)[key]);
    ViewFieldsAre(child, view);
    assert Normal(dir);
    GroundedChildIsWritable(p, key, dir);
  }

  // A tree that the reader grounds and the writer refuses

  const DOUBLED := T("sub//x")
  const CHILD_DIR := T("sub/x")

  lemma DoubledSlashIsDropped()
    ensures Dir(DOUBLED) == Some(CHILD_DIR) && Normal(CHILD_DIR) && CHILD_DIR != DOT && !Normal(DOUBLED)
  {
    hide T, Parts;
    var sub: Text, x: Text := [0x73, 0x75, 0x62], [0x78];
    Spelled();
    PartsOfOne(x);
    PartsStep([], x);
    PartsStep(sub, [] + [SLASH] + x);
    assert DOUBLED == sub + [SLASH] + ([] + [SLASH] + x);
    assert Parts(DOUBLED) == [sub, x];
    assert [sub, x][1..] == [x];
    assert Joined([sub, x]) == sub + [SLASH] + x == CHILD_DIR;
    DirIsNormal(DOUBLED);
  }

  lemma Spelled()
    ensures DOUBLED == [0x73, 0x75, 0x62, SLASH, SLASH, 0x78] && CHILD_DIR == [0x73, 0x75, 0x62, SLASH, 0x78]
  {
  }

  const X := Words([0x78])
  const NOTHING := Record(map[])
  const VIEW := Record(map[CHILD_KEY := X, NODE_PATH := Words(DOUBLED)])
  const ROOTS := Record(map[CHILDREN := List([VIEW])])
  const CHILD := Record(map[CHILD_KEY := X, NODE_PATH := Words(DOUBLED), WRITE_SCOPE := NOTHING])
  const CHILD_REQUEST := Record(map[PROVENANCE := Record(map[CHILD_KEY := X]), REQUEST := NOTHING])

  /** One child whose bodies all spell its path "sub//x", in the directory sub/x. */
  function DoubledSlash(): Publication {
    Publication(Some(ROOTS), Some(ROOTS), Some(ROOTS), Some(NOTHING),
                map[CHILD_DIR := Node(Some(CHILD), Some(CHILD_REQUEST), Some(NOTHING), Some(NOTHING),
                                      Some(Record(map[LINEAGE := NOTHING])))])
  }

  /** A field that none of these bodies has. */
  predicate Unused(name: Text) {
    name != CHILD_KEY && name != NODE_PATH && name != WRITE_SCOPE && name != CHILDREN
  }

  lemma FieldsDiffer()
    ensures CHILD_KEY != NODE_PATH && CHILD_KEY != WRITE_SCOPE && NODE_PATH != WRITE_SCOPE && PROVENANCE != REQUEST
    ensures Unused(LIFECYCLE) && Unused(EDGES) && Unused(ID) && Unused(CONTRIB) && Unused(SCOPE_IDS)
    ensures Unused(SUBTREE) && Unused(PARENT_BRANCH) && Unused(COVERAGE)
  {
    assert CHILD_KEY[0] == 0x63 && NODE_PATH[0] == 0x6E && WRITE_SCOPE[0] == 0x77 && CHILDREN[1] == 0x68 && COVERAGE[1] == 0x6F;
  }

  lemma DoubledSlashRoots()
    ensures RootsAgree(DoubledSlash()) && RootViews(DoubledSlash()) == map[[0x78] := VIEW] == LedgerViews(DoubledSlash())
  {
    hide T, SameFields;
    FieldsDiffer();
    assert Get(ROOTS, CHILDREN) == List([VIEW]);
    assert [VIEW][..0] == [] && KeyedItems([]) == Some(map[]);
    assert Keyed(VIEW) && Get(VIEW, CHILD_KEY).t == [0x78];
    assert KeyedItems([VIEW]) == Some(map[[0x78] := VIEW]);
    assert SameFields(VIEW, VIEW, VIEW_FIELDS) by { SameAsItself(VIEW, VIEW_FIELDS); }
  }

  lemma SameAsItself(v: Value, fields: seq<Text>)
    ensures SameFields(v, v, fields)
  {
  }

  lemma DoubledSlashChild()
    ensures SameFields(CHILD, VIEW, VIEW_FIELDS) && LedgerBinds(CHILD, VIEW)
  {
    hide T;
    FieldsDiffer();
    ViewFieldsAre(CHILD, VIEW);
    FourFields(CHILD, VIEW, ID, CHILD_KEY, NODE_PATH, CONTRIB);
  }

  lemma DoubledSlashNode()
    ensures GroundedChild(DoubledSlash().nodes[CHILD_DIR], [0x78], DOUBLED, VIEW, VIEW)
  {
    hide LedgerBinds, T;
    DoubledSlashChild();
    FieldsDiffer();
  }

  /** The tree is read and grounded at sub/x, and the writer refuses the very same bodies. */
  lemma DoubledSlashIsReadOnly()
    ensures ValidPublication(DoubledSlash()) && ReaderAccepts(DoubledSlash())
    ensures !WriterAccepts(Declared(DoubledSlash()))
  {
    hide KeyedChildren, LedgerBinds, Dir, T, GroundedChild, WriterAccepts, Declared, RootsAgree;
    var p := DoubledSlash();
    DoubledSlashIsDropped();
    DoubledSlashRoots();
    DoubledSlashNode();
    assert Get(VIEW, NODE_PATH) == Words(DOUBLED) by { FieldsDiffer(); }
    assert DOUBLED != [];
    assert Grounded(p, [0x78]);
    ReaderAgreesWithWriterExactly(p);
    assert !PathsAreNormal(p);
  }
}
