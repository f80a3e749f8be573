/** When a publication is planned, and that a call with nobody in its way goes through. */
module StreamProgress {
  import opened Prelude
  import opened Utf8
  import opened Json
  import opened Git
  import opened Framing
  import opened EventStream
  import opened StreamAppend
  import opened StreamValues
  import opened StreamPublication
  import opened StreamProtocol
  import Base64

  // What a node holds

  /** The node's canonical file is one that the engine reads, prints back byte for byte, and whose body is bound to the
      node and decodes to these bytes. */
  predicate Carries(engine: Engine, file: Bytes, dir: Text, body: Body, raw: Bytes) {
    && engine.parse(file) == Some(body) && engine.prepare(body) == Some(file)
    && "source_path" in body
    && (body["source_path"] == TextField(dir + CANONICAL_PATH) || body["source_path"] == TextField(dir + LEGACY_PATH))
    && DecodeRawStream(body) == Ok(raw)
  }

  /** A node's stream is that of its canonical file, or the bytes of its legacy file, or nothing where it has neither;
      a node with both has none. */
  lemma StreamOfExactly(engine: Engine, tree: Tree, dir: Text, raw: Bytes)
    ensures StreamOf(engine, tree, dir) == Some(raw) <==>
      && !(dir + CANONICAL_PATH in tree && dir + LEGACY_PATH in tree)
      && if dir + CANONICAL_PATH in tree then
           engine.parse(tree[dir + CANONICAL_PATH]).Some?
           && Carries(engine, tree[dir + CANONICAL_PATH], dir, engine.parse(tree[dir + CANONICAL_PATH]).value, raw)
         else if dir + LEGACY_PATH in tree then tree[dir + LEGACY_PATH] == raw
         else raw == []
  {
    hide DecodeRawStream, T;
  }

  /** The commit and the path under which a node's bytes were first read: those of its canonical body, or else the
      expected commit and the legacy path. */
  function Anchors(engine: Engine, tree: Tree, request: Request): (Field, Field) {
    var dir := request.dir;
    if dir + CANONICAL_PATH in tree && engine.parse(tree[dir + CANONICAL_PATH]).Some?
       && ClosedBody(engine.parse(tree[dir + CANONICAL_PATH]).value) then
      var body := engine.parse(tree[dir + CANONICAL_PATH]).value;
      (body["source_oid"], body["source_path"])
    else (TextField(engine.oidText(request.expected)), TextField(dir + LEGACY_PATH))
  }

  /** The body that a planned publication carries. */
  function Extended(engine: Engine, tree: Tree, request: Request, prior: Bytes, clean: Bytes): Body {
    map["raw_stream_base64" := TextField(Base64.Encode(Appended(prior, clean))),
        "source_oid" := Anchors(engine, tree, request).0, "source_path" := Anchors(engine, tree, request).1]
  }

  /** What has to hold for a publication to be planned. */
  predicate Plannable(engine: Engine, tree: Tree, request: Request) {
    && IsNodeDirectory(request.dir)
    && StreamOf(engine, tree, request.dir).Some?
    && var prior := StreamOf(engine, tree, request.dir).value;
    && |prior| <= MAX_RAW_STREAM_BYTES
    && (request.dir + CANONICAL_PATH !in tree ==> IsOid(engine.oidText(request.expected)))
    && engine.registryOf(tree) == Some(request.registry) && ValidRegistry(request.registry)
    && |Records(request.candidate)| == 1 && !HoldsNothing(Records(request.candidate)[0])
    && Appendable(prior, Records(request.candidate)[0], request.registry)
    && var body := Extended(engine, tree, request, prior, Records(request.candidate)[0]);
    && engine.prepare(body).Some? && engine.parse(engine.prepare(body).value) == Some(body)
  }

  /** The tree that is then published. */
  function PlannedTree(engine: Engine, tree: Tree, request: Request): Tree
    requires Plannable(engine, tree, request)
  {
    var body := Extended(engine, tree, request, StreamOf(engine, tree, request.dir).value, Records(request.candidate)[0]);
    tree[request.dir + CANONICAL_PATH := engine.prepare(body).value] - {request.dir + LEGACY_PATH}
  }

  lemma LegacyAnchorIsValid(dir: Text, oid: Text)
    ensures IsNodeDirectory(dir) ==> (ValidAnchor(TextField(oid), TextField(dir + LEGACY_PATH)) <==> IsOid(oid))
    ensures BoundTo(map["source_path" := TextField(dir + LEGACY_PATH)], dir)
  {
    hide T, IsNodeDirectory, IsOid;
    if IsNodeDirectory(dir) {
      var path := dir + LEGACY_PATH;
      assert path[..|dir|] == dir && path[|dir|..] == LEGACY_PATH;
      assert IsSourcePath(path);
    }
  }

  /** The body that an appender reads at a node, by the stream the node holds. */
  lemma ReadBodyExactly(engine: Engine, tree: Tree, request: Request)
    requires IsNodeDirectory(request.dir)
    ensures var oid := engine.oidText(request.expected);
            var stream := StreamOf(engine, tree, request.dir);
            var read := ReadBody(engine, tree, request.dir, oid);
            && (read.Some? && DecodeRawStream(read.value).Ok? <==>
                  && stream.Some? && |stream.value| <= MAX_RAW_STREAM_BYTES
                  && (request.dir + CANONICAL_PATH !in tree ==> IsOid(oid)))
            && (read.Some? && DecodeRawStream(read.value).Ok? ==>
                  && DecodeRawStream(read.value).value == stream.value && BoundTo(read.value, request.dir)
                  && ClosedBody(read.value)
                  && (read.value["source_oid"], read.value["source_path"]) == Anchors(engine, tree, request))
  {
    hide T, IsNodeDirectory, IsOid, Base64.Encode, Base64.Shaped;
    var (dir, oid) := (request.dir, engine.oidText(request.expected));
    LegacyAnchorIsValid(dir, oid);
    if CanonicalAt(dir) !in tree {
      var legacy := if LegacyAt(dir) in tree then tree[LegacyAt(dir)] else [];
      if BodyFromRawStream(legacy, oid, LegacyAt(dir)).Ok? { DecodeInvertsBody(legacy, oid, LegacyAt(dir)); }
    } else if ReadBody(engine, tree, dir, oid).Some? {
      var body := ReadBody(engine, tree, dir, oid).value;
      if DecodeRawStream(body).Ok? { DecodedFits(body); }
    }
  }

  lemma DecodedFits(body: Body)
    requires DecodeRawStream(body).Ok?
    ensures |DecodeRawStream(body).value| <= MAX_RAW_STREAM_BYTES
  {
    DecodesExactly(body);
  }

  /** A publication is planned exactly when the node has a stream that fits, the registry is the manifest's, the
      candidate is one record that may be added, and the engine prints the longer body and reads it back; and what is
      then published is exactly that body in the canonical file, with no legacy file. */
  lemma PlanExactly(engine: Engine, tree: Tree, request: Request)
    ensures Plan(engine, tree, request).Some? <==> Plannable(engine, tree, request)
    ensures Plannable(engine, tree, request) ==> Plan(engine, tree, request) == Some(PlannedTree(engine, tree, request))
  {
    hide ReadBody, StreamOf, DecodeRawStream, IsNodeDirectory, Appendable, Records, HoldsNothing, IsBlank, ValidRegistry, PrepareAppend, Base64.Encode;
    var (dir, oid) := (request.dir, engine.oidText(request.expected));
    if IsNodeDirectory(dir) && ReadBody(engine, tree, dir, oid).Some? {
      ReadBodyExactly(engine, tree, request);
      var body := ReadBody(engine, tree, dir, oid).value;
      if DecodeRawStream(body).Ok? {
        if ValidRegistry(request.registry) { AppendSucceedsExactly(body, request.candidate, request.registry); }
        PrepareNeeds(body, request.candidate, request.registry);
      } else {
        PrepareNeeds(body, request.candidate, request.registry);
      }
    } else if IsNodeDirectory(dir) {
      ReadBodyExactly(engine, tree, request);
    }
  }

  lemma PrepareNeeds(body: Body, candidate: Bytes, registry: Registry)
    ensures PrepareAppend(body, candidate, registry).Ok? ==> DecodeRawStream(body).Ok? && ValidRegistry(registry)
  {
  }

  // A call with nobody in its way

  /** One call of `append_to_git` on the head it expects, with a publication that can be planned and no injected
      failure, publishes its commit. */
  lemma AloneIsPublished(engine: Engine, base: Oid, worlds: seq<World>, actions: seq<Action>, caller: nat, r: Request)
    returns (worlds': seq<World>, actions': seq<Action>, commit: Oid)
    requires IsRun(engine, base, worlds, actions)
    requires var w := worlds[|actions|];
             && caller !in w.calls && w.head == Some(r.expected) && r.expected < |w.store|
             && Plannable(engine, w.store[r.expected].tree, r)
    ensures IsRun(engine, base, worlds', actions') && worlds <= worlds' && |actions'| == |actions| + 4
    ensures actions <= actions' && actions'[|actions|] == Call(caller, r) && actions'[|actions| + 3] == Publish(caller, false)
    ensures var (w, w') := (worlds[|actions|], worlds'[|actions'|]);
            && w'.calls == w.calls[caller := Finished(UpdatedTo(commit))]
            && w'.head == Some(commit) && commit < |w'.store| && Extends(w'.store, w.store)
            && w'.store[commit].parents == [r.expected]
            && w'.store[commit].tree == PlannedTree(engine, w.store[r.expected].tree, r)
            && |w'.log| == |w.log| + 1 && w'.log[..|w.log|] == w.log && w'.log[|w.log|].caller == caller
            && w'.log[|w.log|].r == r && w'.log[|w.log|].commit == commit
  {
    var w := worlds[|actions|];
    hide Plannable, PlannedTree, Plan, OnlyRecord, Next, IsRun, Extends;
    PlanExactly(engine, w.store[r.expected].tree, r);
    var tree := Plan(engine, w.store[r.expected].tree, r).value;
    var clean := PlannedRecord(engine, w.store[r.expected].tree, r);
    commit := |w.store|;
    var (reached, steps) := (Stages(w, caller, r, tree, clean), AloneSteps(w, caller, r, tree));
    StagesFollow(engine, w, caller, r, tree, clean);
    FourMore(engine, base, worlds, actions, reached, steps);
    worlds', actions' := worlds + reached, actions + steps;
    assert worlds'[|actions'|] == reached[3];
    assert actions'[|actions|] == steps[0] && actions'[|actions| + 3] == steps[3];
  }

  /** The worlds that the four steps of an undisturbed call lead through. */
  function Stages(w: World, caller: nat, r: Request, tree: Tree, clean: Bytes): seq<World> {
    var commit := |w.store|;
    var called := w.(calls := w.calls[caller := Called(r)]);
    var frozen := w.(calls := w.calls[caller := Frozen(r)]);
    var built := World(w.store + [AppendCommit(tree, r.expected)], w.head, w.calls[caller := Built(r, commit)], w.log);
    var done := World(w.store + [AppendCommit(tree, r.expected)], Some(commit), w.calls[caller := Finished(UpdatedTo(commit))],
                      w.log + [Published(caller, r, clean, commit)]);
    [called, frozen, built, done]
  }

  function AloneSteps(w: World, caller: nat, r: Request, tree: Tree): seq<Action> {
    [Call(caller, r), CheckHead(caller), Build(caller, |w.store|, w.store + [AppendCommit(tree, r.expected)]), Publish(caller, false)]
  }

  lemma StagesFollow(engine: Engine, w: World, caller: nat, r: Request, tree: Tree, clean: Bytes)
    requires caller !in w.calls && w.head == Some(r.expected) && r.expected < |w.store|
    requires Plan(engine, w.store[r.expected].tree, r) == Some(tree) && OnlyRecord(r.candidate) == Some(clean)
    ensures var (reached, steps) := (Stages(w, caller, r, tree, clean), AloneSteps(w, caller, r, tree));
            && Next(engine, w, steps[0], reached[0]) && Next(engine, reached[0], steps[1], reached[1])
            && Next(engine, reached[1], steps[2], reached[2]) && Next(engine, reached[2], steps[3], reached[3])
    ensures var done := Stages(w, caller, r, tree, clean)[3];
            && Extends(done.store, w.store) && done.store[|w.store|] == AppendCommit(tree, r.expected)
            && done.log[..|w.log|] == w.log && done.log[|w.log|] == Published(caller, r, clean, |w.store|)
  {
    hide Plan, OnlyRecord;
    var (reached, c) := (Stages(w, caller, r, tree, clean), AppendCommit(tree, r.expected));
    assert Committed(w.store, w.store + [c], c, |w.store|);
    assert w.calls[caller := Called(r)][caller := Frozen(r)] == w.calls[caller := Frozen(r)];
    assert reached[1] == reached[0].(calls := reached[0].calls[caller := Frozen(r)]);
    assert w.calls[caller := Frozen(r)][caller := Built(r, |w.store|)] == w.calls[caller := Built(r, |w.store|)];
    assert w.calls[caller := Built(r, |w.store|)][caller := Finished(UpdatedTo(|w.store|))]
        == w.calls[caller := Finished(UpdatedTo(|w.store|))];
  }

  lemma PlannedRecord(engine: Engine, tree: Tree, r: Request) returns (clean: Bytes)
    requires Plan(engine, tree, r).Some?
    ensures OnlyRecord(r.candidate) == Some(clean)
  {
    hide StreamOf;
    var prior, only := PlanAppends(engine, tree, r);
    clean := only;
  }

  lemma FourMore(engine: Engine, base: Oid, worlds: seq<World>, actions: seq<Action>, reached: seq<World>, steps: seq<Action>)
    requires IsRun(engine, base, worlds, actions) && |reached| == |steps| == 4
    requires Next(engine, worlds[|actions|], steps[0], reached[0]) && Next(engine, reached[0], steps[1], reached[1])
    requires Next(engine, reached[1], steps[2], reached[2]) && Next(engine, reached[2], steps[3], reached[3])
    ensures IsRun(engine, base, worlds + reached, actions + steps)
  {
    hide Next, Initial;
    var (more, acts, n) := (worlds + reached, actions + steps, |actions|);
    forall i | 0 <= i < |acts| ensures Next(engine, more[i], acts[i], more[i + 1]) {
      if i < n {
        assert Next(engine, worlds[i], actions[i], worlds[i + 1]);
      } else {
        assert acts[i] == steps[i - n] && more[i + 1] == reached[i - n];
        assert more[i] == if i == n then worlds[n] else reached[i - n - 1];
      }
    }
  }

  /** Why the caller was refused by this action: the branch was no longer at the commit it expected, no publication
      could be planned on that commit, or a failure was injected. */
  predicate RefusedBy(engine: Engine, w: World, action: Action, caller: nat, r: Request) {
    match action
    case CheckHead(other) => other == caller && w.head != Some(r.expected)
    case Build(other, _, _) =>
      other == caller && (w.head != Some(r.expected)
                          || (r.expected < |w.store| && !Plannable(engine, w.store[r.expected].tree, r)))
    case Publish(other, injected) => other == caller && (injected || w.head != Some(r.expected))
    case Call(_, _) => false
  }

  predicate RefusedInRun(engine: Engine, worlds: seq<World>, actions: seq<Action>, n: nat, caller: nat) {
    exists m :: 0 <= m < n && m < |actions| && m < |worlds| && caller in worlds[m].calls && RequestOf(worlds[m].calls[caller]).Some?
             && RefusedBy(engine, worlds[m], actions[m], caller, RequestOf(worlds[m].calls[caller]).value)
  }

  lemma RefusingStep(engine: Engine, w: World, action: Action, w': World, caller: nat)
    requires Next(engine, w, action, w') && caller in w'.calls && w'.calls[caller] == Finished(Refused)
    ensures caller in w.calls
    ensures w.calls[caller] == Finished(Refused)
         || (RequestOf(w.calls[caller]).Some? && RefusedBy(engine, w, action, caller, RequestOf(w.calls[caller]).value))
  {
    hide Plan, OnlyRecord, Plannable;
    if action.Build? && action.caller == caller && w.calls[caller].Frozen? && w.calls[caller].r.expected < |w.store| {
      PlanExactly(engine, w.store[w.calls[caller].r.expected].tree, w.calls[caller].r);
    }
  }

  /** In every run a call is refused only for one of these reasons. */
  lemma {:induction false} RefusalHasReason(engine: Engine, base: Oid, worlds: seq<World>, actions: seq<Action>, n: nat, caller: nat)
    requires IsRun(engine, base, worlds, actions) && n < |worlds|
    requires caller in worlds[n].calls && worlds[n].calls[caller] == Finished(Refused)
    ensures RefusedInRun(engine, worlds, actions, n, caller)
  {
    hide Next, RefusedBy;
    if n > 0 {
      assert Next(engine, worlds[n - 1], actions[n - 1], worlds[n]);
      RefusingStep(engine, worlds[n - 1], actions[n - 1], worlds[n], caller);
      if worlds[n - 1].calls[caller] == Finished(Refused) {
        RefusalHasReason(engine, base, worlds, actions, n - 1, caller);
      }
    }
  }
}
