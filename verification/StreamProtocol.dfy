/** Every interleaving of stream appenders on one branch. Reads of the branch, commit creation and
    the compare-and-swap are separate steps, so calls overlap freely. */
module StreamProtocol {
  import opened Prelude
  import opened Utf8
  import opened Git
  import opened Framing
  import opened EventStream
  import opened StreamAppend
  import opened StreamPublication

  datatype Outcome = Refused | UpdatedTo(commit: Oid)

  /** Where a call stands: its head read, its commit built, or its result returned. */
  datatype Phase =
    | Called(r: Request)
    | Frozen(r: Request)
    | Built(r: Request, commit: Oid)
    | Finished(outcome: Outcome)

  /** One publication that moved the branch, kept for the statements only. */
  datatype Published = Published(caller: nat, r: Request, clean: Bytes, commit: Oid)

  datatype World = World(store: Store<Tree>, head: Option<Oid>, calls: map<nat, Phase>, log: seq<Published>)

  datatype Action =
    | Call(caller: nat, r: Request)
    | CheckHead(caller: nat)
    | Build(caller: nat, commit: Oid, after: Store<Tree>)
    | Publish(caller: nat, injectFailure: bool)

  function AppendCommit(tree: Tree, expected: Oid): Commit<Tree> {
    Commit(tree, [expected], APPEND_MESSAGE)
  }

  function Finish(w: World, caller: nat, outcome: Outcome): World {
    w.(calls := w.calls[caller := Finished(outcome)])
  }

  /** The steps of `append_to_git`, `_prepare_git_publication` and `_publish_git`. */
  predicate Next(engine: Engine, w: World, action: Action, w': World) {
    match action
    case Call(caller, r) =>
      caller !in w.calls && w' == w.(calls := w.calls[caller := Called(r)])
    case CheckHead(caller) =>
      && caller in w.calls && w.calls[caller].Called?
      && var r := w.calls[caller].r;
      if w.head == Some(r.expected) then w' == w.(calls := w.calls[caller := Frozen(r)])
      else w' == Finish(w, caller, Refused)
    case Build(caller, commit, after) =>
      && caller in w.calls && w.calls[caller].Frozen?
      && var r := w.calls[caller].r;
      r.expected < |w.store| &&
      var plan := Plan(engine, w.store[r.expected].tree, r);
      if plan.None? || w.head != Some(r.expected) then w' == Finish(w, caller, Refused)
      else
        && Committed(w.store, after, AppendCommit(plan.value, r.expected), commit)
        && w' == w.(store := after, calls := w.calls[caller := Built(r, commit)])
    case Publish(caller, injectFailure) =>
      && caller in w.calls && w.calls[caller].Built?
      && var (r, commit) := (w.calls[caller].r, w.calls[caller].commit);
      if injectFailure || w.head != Some(r.expected) then w' == Finish(w, caller, Refused)
      else
        && OnlyRecord(r.candidate).Some?
        && w' == Finish(w, caller, UpdatedTo(commit)).(
             head := Some(commit),
             log := w.log + [Published(caller, r, OnlyRecord(r.candidate).value, commit)])
  }

  /** The branch after the first n publications. */
  function TipAfter(base: Oid, log: seq<Published>, n: nat): Oid
    requires n <= |log|
  {
    if n == 0 then base else log[n - 1].commit
  }

  /** One publication: a commit whose only parent is the tip it was planned on. */
  predicate LogStep(engine: Engine, store: Store<Tree>, tip: Oid, e: Published) {
    && tip < e.commit < |store|
    && e.r.expected == tip
    && OnlyRecord(e.r.candidate) == Some(e.clean)
    && Plan(engine, store[tip].tree, e.r) == Some(store[e.commit].tree)
    && store[e.commit] == AppendCommit(store[e.commit].tree, tip)
  }

  predicate LogOk(engine: Engine, store: Store<Tree>, base: Oid, log: seq<Published>) {
    base < |store| && forall i :: 0 <= i < |log| ==> LogStep(engine, store, TipAfter(base, log, i), log[i])
  }

  predicate PhaseOk(engine: Engine, w: World, caller: nat)
    requires caller in w.calls
  {
    match w.calls[caller]
    case Called(_) => true
    case Frozen(r) => r.expected < |w.store|
    case Built(r, commit) =>
      && r.expected < commit < |w.store|
      && Plan(engine, w.store[r.expected].tree, r) == Some(w.store[commit].tree)
      && w.store[commit] == AppendCommit(w.store[commit].tree, r.expected)
    case Finished(Refused) => forall i :: 0 <= i < |w.log| ==> w.log[i].caller != caller
    case Finished(UpdatedTo(commit)) => exists i :: 0 <= i < |w.log| && w.log[i].caller == caller && w.log[i].commit == commit
  }

  predicate Inv(engine: Engine, base: Oid, w: World) {
    && ValidStore(w.store)
    && LogOk(engine, w.store, base, w.log)
    && w.head == Some(TipAfter(base, w.log, |w.log|))
    && (forall caller :: caller in w.calls ==> PhaseOk(engine, w, caller))
    && (forall i :: 0 <= i < |w.log| ==>
          w.log[i].caller in w.calls && w.calls[w.log[i].caller] == Finished(UpdatedTo(w.log[i].commit)))
    && (forall i, j :: 0 <= i < j < |w.log| ==> w.log[i].caller != w.log[j].caller)
  }

  predicate Initial(w: World, base: Oid) {
    ValidStore(w.store) && base < |w.store| && w.head == Some(base) && w.calls == map[] && w.log == []
  }

  lemma LogStable(engine: Engine, store: Store<Tree>, after: Store<Tree>, base: Oid, log: seq<Published>)
    requires LogOk(engine, store, base, log) && Extends(after, store)
    ensures LogOk(engine, after, base, log)
  {
    forall i | 0 <= i < |log| ensures LogStep(engine, after, TipAfter(base, log, i), log[i]) {
      assert LogStep(engine, store, TipAfter(base, log, i), log[i]);
    }
  }

  lemma LogStepAt(engine: Engine, store: Store<Tree>, base: Oid, log: seq<Published>, i: nat)
    requires LogOk(engine, store, base, log) && i < |log|
    ensures base < |store| && LogStep(engine, store, TipAfter(base, log, i), log[i])
  {
    hide LogStep, TipAfter;
  }

  lemma LogStartsInStore(engine: Engine, store: Store<Tree>, base: Oid, log: seq<Published>)
    requires LogOk(engine, store, base, log)
    ensures base < |store|
  {
    hide LogStep, TipAfter;
  }

  /** One publication as its effect on the trees it joins. */
  ghost predicate AppendsTo(engine: Engine, before: Tree, after: Tree, e: Published) {
    var dir := e.r.dir;
    && IsNodeDirectory(dir)
    && Unbroken(e.clean) && e.clean != []
    && StreamOf(engine, before, dir).Some?
    && StreamOf(engine, after, dir) == Some(Appended(StreamOf(engine, before, dir).value, e.clean))
    && !Ambiguous(after, dir)
    && forall path :: path != CanonicalAt(dir) && path != LegacyAt(dir) ==>
         (path in after <==> path in before) && (path in before ==> after[path] == before[path])
  }

  lemma LogStepExtends(engine: Engine, store: Store<Tree>, tip: Oid, e: Published)
    requires LogStep(engine, store, tip, e)
    ensures AppendsTo(engine, store[tip].tree, store[e.commit].tree, e)
  {
    hide Plan, StreamOf, OnlyRecord, Ambiguous, IsNodeDirectory, Appended, CanonicalAt, LegacyAt;
    var prior, clean := PlanAppends(engine, store[tip].tree, e.r);
    PlanIsAtNode(engine, store[tip].tree, e.r);
  }

  /** A step that only changes one caller's phase to a good one. */
  lemma PhaseChange(engine: Engine, base: Oid, w: World, w': World, caller: nat, phase: Phase)
    requires Inv(engine, base, w) && (caller in w.calls ==> !w.calls[caller].Finished?)
    requires ValidStore(w'.store) && Extends(w'.store, w.store)
    requires w' == w.(store := w'.store, calls := w.calls[caller := phase])
    requires PhaseOk(engine, w', caller)
    ensures Inv(engine, base, w')
  {
    hide LogOk, LogStep, TipAfter, Plan, OnlyRecord;
    LogStable(engine, w.store, w'.store, base, w.log);
    forall c | c in w'.calls ensures PhaseOk(engine, w', c) {
      if c != caller { assert PhaseOk(engine, w, c); }
    }
    forall i | 0 <= i < |w.log| ensures w.log[i].caller != caller {
    }
  }

  lemma BuildStep(engine: Engine, base: Oid, w: World, caller: nat, commit: Oid, after: Store<Tree>, w': World)
    requires Inv(engine, base, w) && Next(engine, w, Build(caller, commit, after), w')
    ensures Inv(engine, base, w')
  {
    hide LogOk, TipAfter, OnlyRecord, Plan;
    var r := w.calls[caller].r;
    var plan := Plan(engine, w.store[r.expected].tree, r);
    if plan.None? || w.head != Some(r.expected) {
      assert PhaseOk(engine, w', caller);
      PhaseChange(engine, base, w, w', caller, Finished(Refused));
    } else {
      var c := AppendCommit(plan.value, r.expected);
      CommittedExtends(w.store, after, c, commit);
      assert after[commit].parents[0] == r.expected;
      assert after[r.expected] == w.store[r.expected];
      PhaseChange(engine, base, w, w', caller, Built(r, commit));
    }
  }

  lemma LogGrows(engine: Engine, store: Store<Tree>, base: Oid, log: seq<Published>, e: Published)
    requires LogOk(engine, store, base, log) && LogStep(engine, store, TipAfter(base, log, |log|), e)
    ensures LogOk(engine, store, base, log + [e])
    ensures TipAfter(base, log + [e], |log| + 1) == e.commit
  {
    hide LogStep;
    var log' := log + [e];
    forall i | 0 <= i < |log'| ensures LogStep(engine, store, TipAfter(base, log', i), log'[i]) {
      assert TipAfter(base, log', i) == TipAfter(base, log, i);
      if i < |log| { LogStepAt(engine, store, base, log, i); }
    }
  }

  lemma PhaseKept(engine: Engine, w: World, w': World, e: Published, caller: nat)
    requires caller in w.calls && PhaseOk(engine, w, caller) && caller != e.caller
    requires caller in w'.calls && w'.calls[caller] == w.calls[caller]
    requires w'.store == w.store && w'.log == w.log + [e]
    ensures PhaseOk(engine, w', caller)
  {
    hide Plan, OnlyRecord;
    if w.calls[caller].Finished? && w.calls[caller].outcome.UpdatedTo? {
      var commit := w.calls[caller].outcome.commit;
      var i :| 0 <= i < |w.log| && w.log[i].caller == caller && w.log[i].commit == commit;
      assert w'.log[i] == w.log[i];
    }
  }

  lemma PublishStep(engine: Engine, base: Oid, w: World, caller: nat, injectFailure: bool, w': World)
    requires Inv(engine, base, w) && Next(engine, w, Publish(caller, injectFailure), w')
    ensures Inv(engine, base, w')
  {
    hide Plan, OnlyRecord, LogOk, TipAfter;
    assert PhaseOk(engine, w, caller);
    var (r, commit) := (w.calls[caller].r, w.calls[caller].commit);
    if injectFailure || w.head != Some(r.expected) {
      PhaseChange(engine, base, w, w', caller, Finished(Refused));
    } else {
      var e := Published(caller, r, OnlyRecord(r.candidate).value, commit);
      assert w'.log == w.log + [e];
      LogGrows(engine, w.store, base, w.log, e);
      forall c | c in w'.calls ensures PhaseOk(engine, w', c) {
        if c == caller {
          assert w'.log[|w.log|] == e;
        } else {
          PhaseKept(engine, w, w', e, c);
        }
      }
    }
  }

  lemma StepKeepsInvariant(engine: Engine, base: Oid, w: World, action: Action, w': World)
    requires Inv(engine, base, w) && Next(engine, w, action, w')
    ensures Inv(engine, base, w')
  {
    hide LogOk, TipAfter, Plan, OnlyRecord;
    match action
    case Call(caller, r) => PhaseChange(engine, base, w, w', caller, Called(r));
    case CheckHead(caller) =>
      LogTipInStore(engine, w.store, base, w.log);
      PhaseChange(engine, base, w, w', caller, w'.calls[caller]);
    case Build(caller, commit, after) => BuildStep(engine, base, w, caller, commit, after, w');
    case Publish(caller, injectFailure) => PublishStep(engine, base, w, caller, injectFailure, w');
  }

  predicate IsRun(engine: Engine, base: Oid, worlds: seq<World>, actions: seq<Action>) {
    && |worlds| == |actions| + 1
    && Initial(worlds[0], base)
    && forall i :: 0 <= i < |actions| ==> Next(engine, worlds[i], actions[i], worlds[i + 1])
  }

  lemma {:induction false} RunKeepsInvariant(engine: Engine, base: Oid, worlds: seq<World>, actions: seq<Action>, n: nat)
    requires IsRun(engine, base, worlds, actions) && n < |worlds|
    ensures Inv(engine, base, worlds[n])
  {
    if n > 0 {
      RunKeepsInvariant(engine, base, worlds, actions, n - 1);
      StepKeepsInvariant(engine, base, worlds[n - 1], actions[n - 1], worlds[n]);
    }
  }

  // What the publications did to each node's stream

  /** The records published for one node, in publication order. */
  function RecordsFor(log: seq<Published>, dir: Text): seq<Bytes> {
    if log == [] then []
    else
      var last := log[|log| - 1];
      RecordsFor(log[..|log| - 1], dir) + if last.r.dir == dir then [last.clean] else []
  }

  lemma {:induction false} StreamHistory(engine: Engine, store: Store<Tree>, base: Oid, log: seq<Published>, dir: Text, n: nat)
    requires LogOk(engine, store, base, log) && n <= |log| && IsNodeDirectory(dir)
    requires StreamOf(engine, store[base].tree, dir).Some?
    ensures TipAfter(base, log, n) < |store|
    ensures var tip := StreamOf(engine, store[TipAfter(base, log, n)].tree, dir);
            && tip.Some?
            && Records(tip.value) == Records(StreamOf(engine, store[base].tree, dir).value) + RecordsFor(log[..n], dir)
  {
    hide LogOk, StreamOf, Records, Plan, OnlyRecord, IsNodeDirectory, Appended, Ambiguous, CanonicalAt, LegacyAt;
    LogStartsInStore(engine, store, base, log);
    if n == 0 {
      assert log[..n] == [];
    } else {
      StreamHistory(engine, store, base, log, dir, n - 1);
      var e := log[n - 1];
      var tip := TipAfter(base, log, n - 1);
      LogStepAt(engine, store, base, log, n - 1);
      LogStepExtends(engine, store, tip, e);
      assert log[..n][..n - 1] == log[..n - 1];
      if e.r.dir == dir {
        AppendExtendsRecords(StreamOf(engine, store[tip].tree, dir).value, e.clean);
      } else {
        PlanKeepsOtherNodes(engine, store[tip].tree, e.r, dir);
      }
    }
  }

  lemma {:induction false} NeverAmbiguous(engine: Engine, store: Store<Tree>, base: Oid, log: seq<Published>, dir: Text, n: nat)
    requires LogOk(engine, store, base, log) && n <= |log| && IsNodeDirectory(dir)
    requires !Ambiguous(store[base].tree, dir)
    ensures TipAfter(base, log, n) < |store| && !Ambiguous(store[TipAfter(base, log, n)].tree, dir)
  {
    hide LogOk, StreamOf, Plan, OnlyRecord, IsNodeDirectory, Appended, Ambiguous, CanonicalAt, LegacyAt;
    LogStartsInStore(engine, store, base, log);
    if n > 0 {
      NeverAmbiguous(engine, store, base, log, dir, n - 1);
      var tip := TipAfter(base, log, n - 1);
      LogStepAt(engine, store, base, log, n - 1);
      LogStepExtends(engine, store, tip, log[n - 1]);
      if log[n - 1].r.dir != dir { PlanKeepsOtherNodes(engine, store[tip].tree, log[n - 1].r, dir); }
    }
  }

  /** A file that no publication's node owns is in every tip as it was in the base. */
  lemma {:induction false} OtherFilesKept(engine: Engine, store: Store<Tree>, base: Oid, log: seq<Published>, path: Text, n: nat)
    requires LogOk(engine, store, base, log) && n <= |log|
    requires forall i :: 0 <= i < |log| ==> path != CanonicalAt(log[i].r.dir) && path != LegacyAt(log[i].r.dir)
    ensures TipAfter(base, log, n) < |store|
    ensures path in store[TipAfter(base, log, n)].tree <==> path in store[base].tree
    ensures path in store[base].tree ==> store[TipAfter(base, log, n)].tree[path] == store[base].tree[path]
  {
    hide LogOk, StreamOf, Plan, OnlyRecord, IsNodeDirectory, Appended, Ambiguous, CanonicalAt, LegacyAt;
    LogStartsInStore(engine, store, base, log);
    if n > 0 {
      OtherFilesKept(engine, store, base, log, path, n - 1);
      LogStepAt(engine, store, base, log, n - 1);
      LogStepExtends(engine, store, TipAfter(base, log, n - 1), log[n - 1]);
    }
  }

  /** In every reachable world the branch tip is a descendant of the base through exactly the logged
      commits, each node's stream is the base's records followed by the records of its logged
      publications in order, and no node that had one coordinate ever has two. */
  lemma PublicationsAreAppends(engine: Engine, base: Oid, worlds: seq<World>, actions: seq<Action>, n: nat, dir: Text)
    requires IsRun(engine, base, worlds, actions) && n < |worlds| && IsNodeDirectory(dir)
    ensures var w := worlds[n];
            && w.head.Some? && w.head.value < |w.store| && base < |w.store|
            && (forall i :: 0 <= i < |w.log| ==>
                  w.log[i].commit < |w.store| && w.store[w.log[i].commit].parents == [TipAfter(base, w.log, i)])
            && w.head.value == TipAfter(base, w.log, |w.log|)
            && (StreamOf(engine, w.store[base].tree, dir).Some? ==>
                  && StreamOf(engine, w.store[w.head.value].tree, dir).Some?
                  && Records(StreamOf(engine, w.store[w.head.value].tree, dir).value)
                     == Records(StreamOf(engine, w.store[base].tree, dir).value) + RecordsFor(w.log, dir))
            && (!Ambiguous(w.store[base].tree, dir) ==> !Ambiguous(w.store[w.head.value].tree, dir))
  {
    hide IsRun, TipAfter, PhaseOk, Plan, OnlyRecord, StreamOf, Records, Ambiguous, IsNodeDirectory, RecordsFor;
    var w := worlds[n];
    RunKeepsInvariant(engine, base, worlds, actions, n);
    forall i | 0 <= i < |w.log|
      ensures w.log[i].commit < |w.store| && w.store[w.log[i].commit].parents == [TipAfter(base, w.log, i)]
    {
      assert LogStep(engine, w.store, TipAfter(base, w.log, i), w.log[i]);
    }
    assert w.log[..|w.log|] == w.log;
    if StreamOf(engine, w.store[base].tree, dir).Some? { StreamHistory(engine, w.store, base, w.log, dir, |w.log|); }
    if !Ambiguous(w.store[base].tree, dir) { NeverAmbiguous(engine, w.store, base, w.log, dir, |w.log|); }
    LogTipInStore(engine, w.store, base, w.log);
  }

  lemma LogTipInStore(engine: Engine, store: Store<Tree>, base: Oid, log: seq<Published>)
    requires LogOk(engine, store, base, log)
    ensures TipAfter(base, log, |log|) < |store|
  {
    if log != [] { assert LogStep(engine, store, TipAfter(base, log, |log| - 1), log[|log| - 1]); }
  }

  lemma {:induction false} CommitsAscend(engine: Engine, store: Store<Tree>, base: Oid, log: seq<Published>, i: nat, j: nat)
    requires LogOk(engine, store, base, log) && i < j < |log|
    ensures log[i].commit < log[j].commit
    decreases j
  {
    hide LogOk, Plan, OnlyRecord;
    LogStepAt(engine, store, base, log, j);
    if i < j - 1 { CommitsAscend(engine, store, base, log, i, j - 1); }
  }

  /** Entry i is the only publication of this caller and of this commit. */
  predicate OnlyEntry(log: seq<Published>, i: nat, caller: nat, commit: Oid) {
    && i < |log| && log[i].caller == caller && log[i].commit == commit
    && forall j :: 0 <= j < |log| && j != i ==> log[j].caller != caller && log[j].commit != commit
  }

  lemma EntryIsUnique(engine: Engine, base: Oid, w: World, i: nat)
    requires Inv(engine, base, w) && i < |w.log|
    ensures OnlyEntry(w.log, i, w.log[i].caller, w.log[i].commit)
  {
    hide Plan, OnlyRecord, LogOk, PhaseOk, TipAfter;
    forall j | 0 <= j < |w.log| && j != i ensures w.log[j].caller != w.log[i].caller && w.log[j].commit != w.log[i].commit {
      if i < j { CommitsAscend(engine, w.store, base, w.log, i, j); } else { CommitsAscend(engine, w.store, base, w.log, j, i); }
    }
  }

  /** The one action that started the caller's call, and its request. */
  predicate IsTheCall(actions: seq<Action>, caller: nat, r: Request) {
    exists m :: 0 <= m < |actions| && IsOnlyCall(actions, m, caller, r)
  }

  predicate IsOnlyCall(actions: seq<Action>, m: nat, caller: nat, r: Request) {
    && m < |actions| && actions[m] == Call(caller, r)
    && forall k :: 0 <= k < |actions| && actions[k].Call? && actions[k].caller == caller ==> k == m
  }

  function RequestOf(phase: Phase): Option<Request> {
    if phase.Finished? then None else Some(phase.r)
  }

  /** Every call under way, and every publication, works on the request it was called with. */
  predicate RequestsOk(w: World, actions: seq<Action>) {
    && (forall k :: 0 <= k < |actions| && actions[k].Call? ==> actions[k].caller in w.calls)
    && (forall caller :: caller in w.calls && RequestOf(w.calls[caller]).Some? ==>
          IsTheCall(actions, caller, RequestOf(w.calls[caller]).value))
    && forall i :: 0 <= i < |w.log| ==> w.log[i].caller in w.calls && IsTheCall(actions, w.log[i].caller, w.log[i].r)
  }

  lemma CallStays(actions: seq<Action>, action: Action, caller: nat, r: Request)
    requires IsTheCall(actions, caller, r) && (action.Call? ==> action.caller != caller)
    ensures IsTheCall(actions + [action], caller, r)
  {
    var m :| 0 <= m < |actions| && IsOnlyCall(actions, m, caller, r);
    assert IsOnlyCall(actions + [action], m, caller, r);
  }

  lemma StepKeepsRequests(engine: Engine, w: World, actions: seq<Action>, action: Action, w': World)
    requires RequestsOk(w, actions) && Next(engine, w, action, w')
    ensures RequestsOk(w', actions + [action])
  {
    hide IsTheCall, Plan, OnlyRecord;
    var acts := actions + [action];
    forall caller | caller in w'.calls && RequestOf(w'.calls[caller]).Some?
      ensures IsTheCall(acts, caller, RequestOf(w'.calls[caller]).value)
    {
      if caller in w.calls {
        CallStays(actions, action, caller, RequestOf(w.calls[caller]).value);
      } else {
        assert IsOnlyCall(acts, |actions|, caller, action.r);
        assert IsTheCall(acts, caller, action.r) by { OnlyCallIsIt(acts, |actions|, caller, action.r); }
      }
    }
    forall i | 0 <= i < |w'.log| ensures w'.log[i].caller in w'.calls && IsTheCall(acts, w'.log[i].caller, w'.log[i].r) {
      if i < |w.log| {
        CallStays(actions, action, w.log[i].caller, w.log[i].r);
      } else {
        CallStays(actions, action, action.caller, w.calls[action.caller].r);
      }
    }
  }

  lemma OnlyCallIsIt(actions: seq<Action>, m: nat, caller: nat, r: Request)
    requires IsOnlyCall(actions, m, caller, r)
    ensures IsTheCall(actions, caller, r)
  {
  }

  lemma {:induction false} RunKeepsRequests(engine: Engine, base: Oid, worlds: seq<World>, actions: seq<Action>, n: nat)
    requires IsRun(engine, base, worlds, actions) && n < |worlds|
    ensures RequestsOk(worlds[n], actions[..n])
  {
    hide Next, RequestsOk;
    if n == 0 {
      assert actions[..0] == [];
      assert RequestsOk(worlds[0], []) by { NothingRequested(worlds[0], base); }
    } else {
      RunKeepsRequests(engine, base, worlds, actions, n - 1);
      assert Next(engine, worlds[n - 1], actions[n - 1], worlds[n]);
      StepKeepsRequests(engine, worlds[n - 1], actions[..n - 1], actions[n - 1], worlds[n]);
      assert actions[..n - 1] + [actions[n - 1]] == actions[..n];
    }
  }

  lemma NothingRequested(w: World, base: Oid)
    requires Initial(w, base)
    ensures RequestsOk(w, [])
  {
  }

  /** Each "updated" result is exactly one publication, with its own commit, of the one record that the
      caller's own request carried; a refused call is none. */
  lemma ResultsMatchPublications(engine: Engine, base: Oid, worlds: seq<World>, actions: seq<Action>, n: nat, caller: nat)
    requires IsRun(engine, base, worlds, actions) && n < |worlds|
    requires caller in worlds[n].calls && worlds[n].calls[caller].Finished?
    ensures var log := worlds[n].log;
            match worlds[n].calls[caller].outcome
            case Refused => forall i :: 0 <= i < |log| ==> log[i].caller != caller
            case UpdatedTo(commit) =>
              exists i :: 0 <= i < |log| && OnlyEntry(log, i, caller, commit)
                       && IsTheCall(actions[..n], caller, log[i].r) && OnlyRecord(log[i].r.candidate) == Some(log[i].clean)
  {
    hide Plan, OnlyRecord, LogOk, TipAfter, IsRun, OnlyEntry, IsTheCall;
    var w := worlds[n];
    RunKeepsInvariant(engine, base, worlds, actions, n);
    RunKeepsRequests(engine, base, worlds, actions, n);
    assert PhaseOk(engine, w, caller);
    if w.calls[caller].outcome.UpdatedTo? {
      var commit := w.calls[caller].outcome.commit;
      var i :| 0 <= i < |w.log| && w.log[i].caller == caller && w.log[i].commit == commit;
      EntryIsUnique(engine, base, w, i);
      LogStepAt(engine, w.store, base, w.log, i);
    }
  }
}
