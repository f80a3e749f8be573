/** Readers of the mailing list: the chain they see, and cursors that only move forward. */
module MailReaders {
  import opened Prelude
  import opened Utf8
  import opened Git
  import opened PyText
  import MailMessage
  import opened MailList

  // What readers see of the list

  /** No merge anywhere in the history of head. */
  predicate Linear(store: Store<TreeId>, head: Oid)
    requires ValidStore(store) && head < |store|
    decreases head
  {
    store[head].parents == [] || (|store[head].parents| == 1 && Linear(store, store[head].parents[0]))
  }

  /** The list is one chain. Nothing is asked of its messages: cursors never read them. */
  predicate ListOk(store: Store<TreeId>, list: Option<Oid>) {
    ValidStore(store) && (list.Some? ==> list.value < |store| && Linear(store, list.value))
  }

  /** What concurrent creators and posters may do to the list between two steps of a reader. */
  predicate Grows(store: Store<TreeId>, list: Option<Oid>, store': Store<TreeId>, list': Option<Oid>) {
    && ListOk(store, list) && ListOk(store', list') && Extends(store', store)
    && (list.Some? ==> list'.Some? && IsAncestor(store', list.value, list'.value))
  }

  lemma {:induction false} ChainOfAncestor(store: Store<TreeId>, a: Oid, head: Oid)
    requires ValidStore(store) && head < |store| && Linear(store, head) && IsAncestor(store, a, head)
    ensures a < |store| && Linear(store, a) && Chain(store, a) <= Chain(store, head)
    decreases head
  {
    AncestorIsOlder(store, a, head);
    if a != head { ChainOfAncestor(store, a, store[head].parents[0]); }
  }

  lemma {:induction false} AncestorIsOnChain(store: Store<TreeId>, a: Oid, head: Oid)
    requires ValidStore(store) && head < |store| && Linear(store, head)
    ensures IsAncestor(store, a, head) <==> a in Chain(store, head)
    decreases head
  {
    if store[head].parents != [] {
      var parent := store[head].parents[0];
      AncestorIsOnChain(store, a, parent);
      assert IsAncestor(store, a, head) <==> a == head || IsAncestor(store, a, parent);
    }
  }

  /** Of two commits of one chain, one is an ancestor of the other. */
  lemma {:induction false} ChainIsTotal(store: Store<TreeId>, a: Oid, b: Oid, head: Oid)
    requires ValidStore(store) && head < |store| && Linear(store, head)
    requires IsAncestor(store, a, head) && IsAncestor(store, b, head)
    ensures a < |store| && b < |store| && (IsAncestor(store, a, b) || IsAncestor(store, b, a))
    decreases head
  {
    AncestorIsOlder(store, a, head);
    AncestorIsOlder(store, b, head);
    if a != head && b != head { ChainIsTotal(store, a, b, store[head].parents[0]); }
  }

  // The posters as the readers' environment

  lemma {:induction false} LogIsLinear(store: Store<TreeId>, list: Option<Oid>, log: seq<Entry>, i: nat)
    requires ValidStore(store) && LogOk(store, list, log) && i < |log|
    ensures log[i].commit < |store| && Linear(store, log[i].commit)
  {
    hide MailMessage.PostMessage, Numbered, ValidDraft;
    assert EntryOk(store, log, i);
    if i > 0 { LogIsLinear(store, list, log, i - 1); }
  }

  lemma ListIsLinear(w: World)
    requires Inv(w)
    ensures ListOk(w.store, w.list)
  {
    hide PhaseOk, CallerOk, EntryOk, Linear;
    if w.list.Some? {
      RefInStore(w);
      LogIsLinear(w.store, w.list, w.log, |w.log| - 1);
    }
  }

  /** Every step of creators and posters is growth of the list, whatever they post. */
  lemma PostersGrowTheList(worlds: seq<World>, actions: seq<Action>, n: nat)
    requires IsRun(worlds, actions) && n + 1 < |worlds|
    ensures Grows(worlds[n].store, worlds[n].list, worlds[n + 1].store, worlds[n + 1].list)
  {
    hide IsRun, Next, PhaseOk, CallerOk, EntryOk, Linear, Chain;
    var (w, w') := (worlds[n], worlds[n + 1]);
    RunKeepsInvariant(worlds, actions, n);
    RunKeepsInvariant(worlds, actions, n + 1);
    ListIsLinear(w);
    ListIsLinear(w');
    ListOnlyGrows(worlds, actions, n, n + 1);
    if w.list.Some? {
      var (i, j) := (|w.log| - 1, |w'.log| - 1);
      assert w'.log[i] == w.log[i];
      LogAncestry(w'.store, w'.list, w'.log, i, j);
    }
  }

  lemma {:induction false} LogAncestry(store: Store<TreeId>, list: Option<Oid>, log: seq<Entry>, i: nat, j: nat)
    requires ValidStore(store) && LogOk(store, list, log) && i <= j < |log|
    ensures log[j].commit < |store| && IsAncestor(store, log[i].commit, log[j].commit)
    decreases j
  {
    hide MailMessage.PostMessage, Numbered, ValidDraft;
    assert EntryOk(store, log, j);
    if i < j {
      LogAncestry(store, list, log, i, j - 1);
      assert store[log[j].commit].parents[0] == log[j - 1].commit;
    }
  }

  // Cursors

  datatype Advance = NotOnList | Behind(current: Oid) | Unmoved | Moved | Contended

  datatype CursorPhase =
    | Called(reader: Text, target: Oid)
    | Listed(reader: Text, target: Oid, attempt: nat)
    | Comparing(reader: Text, target: Oid, attempt: nat, current: Option<Oid>)
    | Returned(reader: Text, target: Oid, result: Advance)

  datatype CursorWorld = CursorWorld(
    store: Store<TreeId>, list: Option<Oid>, cursors: map<Text, Oid>, calls: map<nat, CursorPhase>
  )

  datatype CursorAction =
    | ListGrows(store: Store<TreeId>, list: Option<Oid>)
    | Advance(caller: nat, reader: Text, target: Oid)
    | CursorStep(caller: nat)

  predicate OnListNow(store: Store<TreeId>, list: Option<Oid>, c: Oid)
    requires ListOk(store, list)
  {
    list.Some? && c < |store| && IsAncestor(store, c, list.value)
  }

  function CursorOf(w: CursorWorld, reader: Text): Option<Oid> {
    if reader in w.cursors then Some(w.cursors[reader]) else None
  }

  /** One read, or one compare-and-swap, of `advance_cursor`. */
  function AfterCursorStep(w: CursorWorld, phase: CursorPhase): (CursorPhase, map<Text, Oid>)
    requires ListOk(w.store, w.list)
  {
    match phase
    case Called(reader, target) =>
      (if OnListNow(w.store, w.list, target) then Listed(reader, target, 0) else Returned(reader, target, NotOnList), w.cursors)
    case Listed(reader, target, attempt) =>
      if attempt >= APPEND_ATTEMPTS || target >= |w.store| then (Returned(reader, target, Contended), w.cursors)
      else
        var current := CursorOf(w, reader);
        if current == Some(target) then (Returned(reader, target, Unmoved), w.cursors)
        else if current.Some? && !IsAncestor(w.store, current.value, target) then
          (Returned(reader, target, Behind(current.value)), w.cursors)
        else (Comparing(reader, target, attempt, current), w.cursors)
    case Comparing(reader, target, attempt, current) =>
      if CursorOf(w, reader) == current then (Returned(reader, target, Moved), w.cursors[reader := target])
      else (Listed(reader, target, attempt + 1), w.cursors)
    case Returned(_, _, _) => (phase, w.cursors)
  }

  predicate CursorNext(w: CursorWorld, action: CursorAction, w': CursorWorld)
    requires ListOk(w.store, w.list)
  {
    match action
    case ListGrows(store, list) => Grows(w.store, w.list, store, list) && w' == w.(store := store, list := list)
    case Advance(caller, reader, target) =>
      caller !in w.calls && w' == w.(calls := w.calls[caller := Called(reader, target)])
    case CursorStep(caller) =>
      && caller in w.calls
      && var (phase, cursors) := AfterCursorStep(w, w.calls[caller]);
      w' == w.(cursors := cursors, calls := w.calls[caller := phase])
  }

  /** The reader's cursor is at the target or past it. */
  predicate Reached(w: CursorWorld, reader: Text, target: Oid)
    requires ListOk(w.store, w.list)
  {
    reader in w.cursors && w.cursors[reader] < |w.store| && IsAncestor(w.store, target, w.cursors[reader])
  }

  predicate CursorPhaseOk(w: CursorWorld, phase: CursorPhase)
    requires ListOk(w.store, w.list)
  {
    match phase
    case Called(_, _) => true
    case Listed(_, target, _) => OnListNow(w.store, w.list, target)
    case Comparing(_, target, _, current) =>
      && OnListNow(w.store, w.list, target)
      && (current.Some? ==> current.value != target && IsAncestor(w.store, current.value, target))
    case Returned(reader, target, Moved) => Reached(w, reader, target)
    case Returned(reader, target, Unmoved) => Reached(w, reader, target)
    case Returned(reader, target, Behind(_)) => Reached(w, reader, target)
    case Returned(_, _, _) => true
  }

  predicate CursorInv(w: CursorWorld) {
    && ListOk(w.store, w.list)
    && (forall reader :: reader in w.cursors ==> OnListNow(w.store, w.list, w.cursors[reader]))
    && forall caller :: caller in w.calls ==> CursorPhaseOk(w, w.calls[caller])
  }

  lemma OnListGrows(store: Store<TreeId>, list: Option<Oid>, store': Store<TreeId>, list': Option<Oid>, c: Oid)
    requires Grows(store, list, store', list') && OnListNow(store, list, c)
    ensures OnListNow(store', list', c)
  {
    hide Linear;
    AncestorStable(store, store', c, list.value);
    AncestorTransitive(store', c, list.value, list'.value);
  }

  lemma PhaseGrows(w: CursorWorld, w': CursorWorld, phase: CursorPhase)
    requires CursorInv(w) && Grows(w.store, w.list, w'.store, w'.list) && w'.cursors == w.cursors
    requires CursorPhaseOk(w, phase)
    ensures CursorPhaseOk(w', phase)
  {
    hide Linear, OnListNow, IsAncestor;
    match phase
    case Listed(_, target, _) => OnListGrows(w.store, w.list, w'.store, w'.list, target);
    case Comparing(_, target, _, current) =>
      OnListGrows(w.store, w.list, w'.store, w'.list, target);
      if current.Some? { TargetInStore(w, target); AncestorStable(w.store, w'.store, current.value, target); }
    case Returned(reader, target, _) =>
      if Reached(w, reader, target) { AncestorStable(w.store, w'.store, target, w.cursors[reader]); }
    case _ =>
  }

  lemma TargetInStore(w: CursorWorld, target: Oid)
    requires ListOk(w.store, w.list) && OnListNow(w.store, w.list, target)
    ensures target < |w.store|
  {
    hide Linear;
  }

  lemma GrowthStep(w: CursorWorld, w': CursorWorld)
    requires CursorInv(w) && Grows(w.store, w.list, w'.store, w'.list)
    requires w' == w.(store := w'.store, list := w'.list)
    ensures CursorInv(w')
  {
    hide OnListNow, CursorPhaseOk, Linear;
    forall reader | reader in w'.cursors ensures OnListNow(w'.store, w'.list, w'.cursors[reader]) {
      OnListGrows(w.store, w.list, w'.store, w'.list, w.cursors[reader]);
    }
    forall caller | caller in w'.calls ensures CursorPhaseOk(w', w'.calls[caller]) {
      PhaseGrows(w, w', w.calls[caller]);
    }
  }

  /** A cursor that refuses to go back has already reached the target. */
  lemma BehindHasReached(w: CursorWorld, reader: Text, target: Oid)
    requires CursorInv(w) && OnListNow(w.store, w.list, target) && reader in w.cursors
    requires w.cursors[reader] < |w.store| && !IsAncestor(w.store, w.cursors[reader], target)
    ensures Reached(w, reader, target)
  {
    hide CursorPhaseOk;
    assert OnListNow(w.store, w.list, w.cursors[reader]);
    ChainIsTotal(w.store, target, w.cursors[reader], w.list.value);
  }

  lemma CallMoves(w: CursorWorld, caller: nat)
    requires CursorInv(w) && caller in w.calls
    ensures var (phase, cursors) := AfterCursorStep(w, w.calls[caller]);
            && CursorPhaseOk(w.(cursors := cursors), phase)
            && (cursors == w.cursors
                || (w.calls[caller].Comparing?
                    && cursors == w.cursors[w.calls[caller].reader := w.calls[caller].target]
                    && CursorOf(w, w.calls[caller].reader) == w.calls[caller].current))
  {
    hide Linear, IsAncestor;
    assert CursorPhaseOk(w, w.calls[caller]);
    match w.calls[caller]
    case Listed(reader, target, _) =>
      TargetInStore(w, target);
      if reader in w.cursors {
        assert OnListNow(w.store, w.list, w.cursors[reader]);
        TargetInStore(w, w.cursors[reader]);
        if !IsAncestor(w.store, w.cursors[reader], target) { BehindHasReached(w, reader, target); }
        assert IsAncestor(w.store, target, target) by { SelfAncestor(w, target); }
      }
    case Comparing(_, target, _, _) =>
      TargetInStore(w, target);
      SelfAncestor(w, target);
    case _ =>
  }

  lemma SelfAncestor(w: CursorWorld, c: Oid)
    requires ListOk(w.store, w.list) && c < |w.store|
    ensures IsAncestor(w.store, c, c)
  {
    hide Linear;
  }

  /** A cursor that only moves from c to a descendant of c leaves every other promise standing. */
  lemma PhaseAfterMove(w: CursorWorld, w': CursorWorld, reader: Text, target: Oid, phase: CursorPhase)
    requires CursorInv(w) && w'.store == w.store && w'.list == w.list && w'.cursors == w.cursors[reader := target]
    requires target < |w.store| && (reader in w.cursors ==> IsAncestor(w.store, w.cursors[reader], target))
    requires CursorPhaseOk(w, phase)
    ensures CursorPhaseOk(w', phase)
  {
    hide Linear, OnListNow, IsAncestor;
    if phase.Returned? && phase.reader == reader && Reached(w, reader, phase.target) {
      AncestorTransitive(w.store, phase.target, w.cursors[reader], target);
    }
  }

  lemma CallStep(w: CursorWorld, caller: nat, w': CursorWorld)
    requires CursorInv(w) && CursorNext(w, CursorStep(caller), w')
    ensures CursorInv(w')
    ensures forall r :: r in w.cursors ==> CursorForward(w, w', r)
  {
    hide Linear, OnListNow, IsAncestor, AfterCursorStep, CursorPhaseOk;
    var phase := w.calls[caller];
    CallMoves(w, caller);
    if w'.cursors == w.cursors {
      forall c | c in w'.calls ensures CursorPhaseOk(w', w'.calls[c]) {
        if c != caller { SamePhase(w, w', w.calls[c]); } else { SamePhase(w.(cursors := w'.cursors), w', w'.calls[c]); }
      }
      forall r | r in w.cursors ensures CursorForward(w, w', r) { SelfForward(w, w', r); }
    } else {
      var (reader, target) := (phase.reader, phase.target);
      ComparingFacts(w, phase);
      forall c | c in w'.calls ensures CursorPhaseOk(w', w'.calls[c]) {
        if c != caller {
          PhaseAfterMove(w, w', reader, target, w.calls[c]);
        } else {
          SamePhase(w.(cursors := w'.cursors), w', w'.calls[c]);
        }
      }
      forall r | r in w.cursors ensures CursorForward(w, w', r) {
        if r != reader { SelfForward(w, w', r); }
      }
    }
  }

  /** A phase's promise is about the store, the list and the cursors only. */
  lemma SamePhase(w: CursorWorld, w': CursorWorld, phase: CursorPhase)
    requires ListOk(w.store, w.list) && CursorPhaseOk(w, phase)
    requires w'.store == w.store && w'.list == w.list && w'.cursors == w.cursors
    ensures CursorPhaseOk(w', phase)
  {
    hide Linear, IsAncestor;
  }

  lemma ComparingFacts(w: CursorWorld, phase: CursorPhase)
    requires ListOk(w.store, w.list) && phase.Comparing? && CursorPhaseOk(w, phase)
    ensures OnListNow(w.store, w.list, phase.target) && phase.target < |w.store|
    ensures phase.current.Some? ==> IsAncestor(w.store, phase.current.value, phase.target)
  {
    hide Linear, IsAncestor;
  }

  /** From w to w' the reader's cursor stayed or moved to a descendant. */
  predicate CursorForward(w: CursorWorld, w': CursorWorld, reader: Text)
    requires ListOk(w'.store, w'.list) && reader in w.cursors
  {
    reader in w'.cursors && w'.cursors[reader] < |w'.store| && IsAncestor(w'.store, w.cursors[reader], w'.cursors[reader])
  }

  lemma SelfForward(w: CursorWorld, w': CursorWorld, reader: Text)
    requires CursorInv(w) && ListOk(w'.store, w'.list) && Extends(w'.store, w.store)
    requires reader in w.cursors && reader in w'.cursors && w'.cursors[reader] == w.cursors[reader]
    ensures CursorForward(w, w', reader)
  {
    hide Linear, CursorPhaseOk;
    assert OnListNow(w.store, w.list, w.cursors[reader]);
  }

  predicate CursorInitial(w: CursorWorld) {
    && ListOk(w.store, w.list) && w.calls == map[]
    && forall reader :: reader in w.cursors ==> OnListNow(w.store, w.list, w.cursors[reader])
  }

  predicate CursorStepOk(w: CursorWorld, action: CursorAction, w': CursorWorld) {
    ListOk(w.store, w.list) && CursorNext(w, action, w')
  }

  predicate IsCursorRun(worlds: seq<CursorWorld>, actions: seq<CursorAction>) {
    && |worlds| == |actions| + 1
    && CursorInitial(worlds[0])
    && forall i :: 0 <= i < |actions| ==> CursorStepOk(worlds[i], actions[i], worlds[i + 1])
  }

  lemma CursorStepKeeps(w: CursorWorld, action: CursorAction, w': CursorWorld)
    requires CursorInv(w) && CursorStepOk(w, action, w')
    ensures CursorInv(w') && Extends(w'.store, w.store)
    ensures forall r :: r in w.cursors ==> CursorForward(w, w', r)
  {
    hide Linear, OnListNow, IsAncestor, AfterCursorStep;
    match action
    case ListGrows(_, _) =>
      GrowthStep(w, w');
      forall r | r in w.cursors ensures CursorForward(w, w', r) { SelfForward(w, w', r); }
    case Advance(caller, reader, target) =>
      forall c | c in w'.calls ensures CursorPhaseOk(w', w'.calls[c]) {
        if c != caller { SamePhase(w, w', w.calls[c]); }
      }
      forall r | r in w.cursors ensures CursorForward(w, w', r) { SelfForward(w, w', r); }
    case CursorStep(caller) => CallStep(w, caller, w');
  }

  /** With posters and any number of callers running, a cursor always points at a commit of the list,
      and a call that moves, finds or refuses to go behind its target leaves the cursor at or past it. */
  lemma {:induction false} CursorsStayOnList(worlds: seq<CursorWorld>, actions: seq<CursorAction>, n: nat)
    requires IsCursorRun(worlds, actions) && n < |worlds|
    ensures CursorInv(worlds[n])
  {
    hide CursorNext, CursorForward, ListOk;
    if n > 0 {
      CursorsStayOnList(worlds, actions, n - 1);
      assert CursorStepOk(worlds[n - 1], actions[n - 1], worlds[n]);
      CursorStepKeeps(worlds[n - 1], actions[n - 1], worlds[n]);
    }
  }

  /** A cursor never moves backward and is never lost. */
  lemma {:induction false} CursorsOnlyAdvance(worlds: seq<CursorWorld>, actions: seq<CursorAction>, m: nat, n: nat, reader: Text)
    requires IsCursorRun(worlds, actions) && m <= n < |worlds| && reader in worlds[m].cursors
    ensures ListOk(worlds[n].store, worlds[n].list)
    ensures CursorForward(worlds[m], worlds[n], reader)
    decreases n - m
  {
    hide CursorNext, ListOk, CursorPhaseOk, OnListNow, IsAncestor;
    CursorsStayOnList(worlds, actions, n);
    CursorsStayOnList(worlds, actions, m);
    if m == n {
      ExtendsItself(worlds[m].store);
      SelfForward(worlds[m], worlds[m], reader);
    } else {
      CursorsOnlyAdvance(worlds, actions, m, n - 1, reader);
      CursorsStayOnList(worlds, actions, n - 1);
      var (v, w) := (worlds[n - 1], worlds[n]);
      assert CursorStepOk(v, actions[n - 1], w);
      CursorStepKeeps(v, actions[n - 1], w);
      ForwardChains(worlds[m], v, w, reader);
    }
  }

  lemma ExtendsItself(store: Store<TreeId>)
    ensures Extends(store, store)
  {
  }

  lemma ForwardChains(u: CursorWorld, v: CursorWorld, w: CursorWorld, reader: Text)
    requires ListOk(v.store, v.list) && ListOk(w.store, w.list) && Extends(w.store, v.store)
    requires reader in u.cursors && CursorForward(u, v, reader) && CursorForward(v, w, reader)
    ensures CursorForward(u, w, reader)
  {
    hide Linear;
    AncestorStable(v.store, w.store, u.cursors[reader], v.cursors[reader]);
    AncestorTransitive(w.store, u.cursors[reader], v.cursors[reader], w.cursors[reader]);
  }
}
