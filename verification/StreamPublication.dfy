/** Concurrent appenders publishing stream records on one branch by compare-and-swap. */
module StreamPublication {
  import opened Prelude
  import opened Utf8
  import opened Git
  import opened Framing
  import opened EventStream
  import opened StreamAppend

  /** A commit's tree, file contents by path. */
  type Tree = map<Text, Bytes>

  /** What the publication takes as given: the body codec as two functions that need not be inverse,
      the registry a tree's root manifest declares, and the hex spelling of an object name. */
  datatype Engine = Engine(
    prepare: Body -> Option<Bytes>,
    parse: Bytes -> Option<Body>,
    registryOf: Tree -> Option<Registry>,
    oidText: Oid -> Text
  )

  /** One call of `append_to_git`. */
  datatype Request = Request(dir: Text, candidate: Bytes, registry: Registry, expected: Oid)

  const APPEND_MESSAGE := T("patchwork checks: append event")

  function CanonicalAt(dir: Text): Text {
    dir + CANONICAL_PATH
  }

  function LegacyAt(dir: Text): Text {
    dir + LEGACY_PATH
  }

  predicate Ambiguous(tree: Tree, dir: Text) {
    CanonicalAt(dir) in tree && LegacyAt(dir) in tree
  }

  /** `_validate_node_source_path`. */
  predicate BoundTo(body: Body, dir: Text) {
    "source_path" in body
    && (body["source_path"] == TextField(CanonicalAt(dir)) || body["source_path"] == TextField(LegacyAt(dir)))
  }

  /** `parse_canonical_body`: parsed, and printed back to the very same bytes. */
  function ParseCanonical(engine: Engine, raw: Bytes): Option<Body> {
    match engine.parse(raw)
    case None => None
    case Some(body) => if engine.prepare(body) == Some(raw) then Some(body) else None
  }

  /** The body an appender reads at one node of a frozen tree; None stands for every refusal. */
  function ReadBody(engine: Engine, tree: Tree, dir: Text, oid: Text): Option<Body> {
    if Ambiguous(tree, dir) then None
    else if CanonicalAt(dir) in tree then
      match ParseCanonical(engine, tree[CanonicalAt(dir)])
      case None => None
      case Some(body) => if BoundTo(body, dir) then Some(body) else None
    else
      var legacy := if LegacyAt(dir) in tree then tree[LegacyAt(dir)] else [];
      match BodyFromRawStream(legacy, oid, LegacyAt(dir))
      case Err(_) => None
      case Ok(body) => Some(body)
  }

  /** The exact stream bytes a tree holds for a node. */
  function StreamOf(engine: Engine, tree: Tree, dir: Text): Option<Bytes> {
    if Ambiguous(tree, dir) then None
    else if CanonicalAt(dir) in tree then
      match ParseCanonical(engine, tree[CanonicalAt(dir)])
      case None => None
      case Some(body) =>
        if !BoundTo(body, dir) || DecodeRawStream(body).Err? then None else Some(DecodeRawStream(body).value)
    else Some(if LegacyAt(dir) in tree then tree[LegacyAt(dir)] else [])
  }

  /** The tree `append_to_git` publishes on top of the expected commit's tree. */
  function Plan(engine: Engine, tree: Tree, request: Request): Option<Tree> {
    var dir := request.dir;
    if !IsNodeDirectory(dir) then None
    else
      match ReadBody(engine, tree, dir, engine.oidText(request.expected))
      case None => None
      case Some(body) =>
        if engine.registryOf(tree) != Some(request.registry) then None
        else
          match PrepareAppend(body, request.candidate, request.registry)
          case Err(_) => None
          case Ok(appended) =>
            if !BoundTo(appended.body, dir) then None
            else
              match engine.prepare(appended.body)
              case None => None
              case Some(canonical) =>
                if ParseCanonical(engine, canonical) != Some(appended.body) then None
                else Some(tree[CanonicalAt(dir) := canonical] - {LegacyAt(dir)})
  }

  // What one planned append does to a tree

  predicate NoSlash(t: Text) {
    forall i :: 0 <= i < |t| ==> t[i] != 0x2F
  }

  /** Length of the directory part of a path. */
  function DirectoryLength(path: Text): nat {
    if path == [] then 0
    else if path[|path| - 1] == 0x2F then |path|
    else DirectoryLength(path[..|path| - 1])
  }

  lemma {:induction false} DirectoryOfFile(dir: Text, file: Text)
    requires NoSlash(file) && (dir == [] || dir[|dir| - 1] == 0x2F)
    ensures DirectoryLength(dir + file) == |dir|
    decreases |file|
  {
    if file == [] {
      assert dir + file == dir;
    } else {
      assert (dir + file)[..|dir + file| - 1] == dir + file[..|file| - 1];
      DirectoryOfFile(dir, file[..|file| - 1]);
    }
  }

  lemma FileNames()
    ensures CANONICAL_PATH != LEGACY_PATH && NoSlash(CANONICAL_PATH) && NoSlash(LEGACY_PATH)
  {
    assert |CANONICAL_PATH| != |LEGACY_PATH|;
  }

  lemma PathDeterminesNode(d1: Text, f1: Text, d2: Text, f2: Text)
    requires IsNodeDirectory(d1) && IsNodeDirectory(d2) && NoSlash(f1) && NoSlash(f2)
    ensures d1 + f1 == d2 + f2 <==> d1 == d2 && f1 == f2
  {
    DirectoryOfFile(d1, f1);
    DirectoryOfFile(d2, f2);
    assert (d1 + f1)[..|d1|] == d1 && (d2 + f2)[..|d2|] == d2;
    assert (d1 + f1)[|d1|..] == f1 && (d2 + f2)[|d2|..] == f2;
  }

  /** The two files of one node differ, and no node's file is another node's. */
  lemma NodeFiles(d1: Text, d2: Text)
    requires IsNodeDirectory(d1) && IsNodeDirectory(d2)
    ensures CanonicalAt(d1) != LegacyAt(d2)
    ensures d1 != d2 ==> CanonicalAt(d1) != CanonicalAt(d2) && LegacyAt(d1) != LegacyAt(d2)
  {
    FileNames();
    PathDeterminesNode(d1, CANONICAL_PATH, d2, LEGACY_PATH);
    PathDeterminesNode(d1, CANONICAL_PATH, d2, CANONICAL_PATH);
    PathDeterminesNode(d1, LEGACY_PATH, d2, LEGACY_PATH);
  }

  lemma StreamIsBody(engine: Engine, tree: Tree, dir: Text, oid: Text)
    requires ReadBody(engine, tree, dir, oid).Some?
    requires DecodeRawStream(ReadBody(engine, tree, dir, oid).value).Ok?
    ensures StreamOf(engine, tree, dir) == Some(DecodeRawStream(ReadBody(engine, tree, dir, oid).value).value)
  {
    if CanonicalAt(dir) !in tree {
      var legacy := if LegacyAt(dir) in tree then tree[LegacyAt(dir)] else [];
      DecodeInvertsBody(legacy, oid, LegacyAt(dir));
    }
  }

  /** A planned append: the node's stream gains exactly the candidate's one record, every other file
      stays, and the node keeps no legacy file beside the canonical one. */
  lemma PlanAppends(engine: Engine, tree: Tree, request: Request) returns (prior: Bytes, clean: Bytes)
    requires Plan(engine, tree, request).Some?
    ensures var after := Plan(engine, tree, request).value;
            var dir := request.dir;
            && OnlyRecord(request.candidate) == Some(clean)
            && Unbroken(clean) && clean != []
            && StreamOf(engine, tree, dir) == Some(prior)
            && StreamOf(engine, after, dir) == Some(Appended(prior, clean))
            && !Ambiguous(after, dir)
            && forall path :: path != CanonicalAt(dir) && path != LegacyAt(dir) ==>
                 (path in after <==> path in tree) && (path in tree ==> after[path] == tree[path])
  {
    var dir := request.dir;
    var oid := engine.oidText(request.expected);
    var body := ReadBody(engine, tree, dir, oid).value;
    prior, clean := AcceptedParts(body, request.candidate, request.registry);
    BlankOrNot(clean);
    StreamIsBody(engine, tree, dir, oid);
    NodeFiles(dir, dir);
  }

  /** Other nodes read the same stream before and after. */
  lemma PlanKeepsOtherNodes(engine: Engine, tree: Tree, request: Request, other: Text)
    requires Plan(engine, tree, request).Some? && IsNodeDirectory(other) && other != request.dir
    ensures StreamOf(engine, Plan(engine, tree, request).value, other) == StreamOf(engine, tree, other)
    ensures Ambiguous(Plan(engine, tree, request).value, other) <==> Ambiguous(tree, other)
  {
    hide IsNodeDirectory, Plan, CanonicalAt, LegacyAt;
    var prior, clean := PlanAppends(engine, tree, request);
    assert IsNodeDirectory(request.dir) by { PlanIsAtNode(engine, tree, request); }
    NodeFiles(other, request.dir);
    NodeFiles(request.dir, other);
  }

  lemma PlanIsAtNode(engine: Engine, tree: Tree, request: Request)
    requires Plan(engine, tree, request).Some?
    ensures IsNodeDirectory(request.dir)
  {
  }
}
