/** The other half of "one qa post an item": every misfiled draft can be posted again and again. */
module MailDuplicates {
  import opened Prelude
  import opened Utf8
  import opened Json
  import opened PyText
  import opened MailMessage
  import opened MailSeparators
  import opened Git
  import opened MailList

  // What a search finds after a draft's own post

  lemma SearchOneMore(store: Store<TreeId>, chain: seq<Oid>, c: Oid, item: Text)
    requires (forall i :: 0 <= i < |chain| ==> chain[i] < |store|) && c < |store|
    requires SearchItem(store, chain, item) == Absent
    ensures forall i :: 0 <= i < |chain + [c]| ==> (chain + [c])[i] < |store|
    ensures SearchItem(store, chain + [c], item) ==
      if Parse(store[c].message).Malformed? then Unreadable
      else if ItemOf(store[c].message) == Some(item) then Found(c)
      else Absent
  {
    hide Parse, ItemOf, FirstMatch;
    var longer := chain + [c];
    assert longer[|chain|] == c;
    forall i | 0 <= i < |longer| ensures longer[i] < |store| {}
    assert forall i :: 0 <= i < |chain| ==> longer[i] == chain[i];
    var (filed, more) := (Filed(store, chain), Filed(store, longer));
    assert FirstMatch(filed, item) == |chain|;
    assert forall i :: 0 <= i < |chain| ==> more[i] == filed[i];
  }

  /** What the search of `post` answers for the item in this world. */
  function Answer(w: World, item: Text): Search
    requires Inv(w) && w.list.Some?
  {
    ListIsLog(w);
    ChainInStore(w.store, w.list.value);
    SearchItem(w.store, Chain(w.store, w.list.value), item)
  }

  /** A draft's item search finds its own post exactly when the draft is settled, misses it exactly when it
      is misfiled, and fails exactly when the post cannot be read. */
  lemma SearchFindsOwnPostExactly(w: World, w': World, e: MailList.Entry, item: Text)
    requires Inv(w) && Inv(w') && w.list.Some? && w'.list.Some? && Extends(w'.store, w.store)
    requires w'.log == w.log + [e] && e.origin.OfPost? && QaItem(e.origin.d) == Some(item)
    requires Answer(w, item) == Absent
    ensures Answer(w', item) == Found(e.commit) <==> Settled(e.origin.d)
    ensures Answer(w', item) == Absent <==> Misfiled(e.origin.d)
    ensures Answer(w', item) == Unreadable <==> !ReadsBackNumbered(Unnumbered(e.origin.d))
  {
    hide Inv, SearchItem, Parse, ItemOf, QaItem, ReadsBackNumbered, FiledItem;
    var n := |w.log|;
    var d := e.origin.d;
    ListIsLog(w);
    ListIsLog(w');
    assert Commits(w'.log) == Commits(w.log) + [e.commit];
    assert w'.log[n] == e;
    assert LogOk(w'.store, w'.list, w'.log) by { LogOfInv(w'); }
    ItemOnList(w', n);
    SameSearch(w.store, w'.store, Commits(w.log), item);
    SearchOneMore(w'.store, Commits(w.log), e.commit, item);
  }

  lemma SameSearch(store: Store<TreeId>, after: Store<TreeId>, chain: seq<Oid>, item: Text)
    requires Extends(after, store) && forall i :: 0 <= i < |chain| ==> chain[i] < |store|
    ensures SearchItem(after, chain, item) == SearchItem(store, chain, item)
  {
    hide Parse, ItemOf, FirstMatch;
    assert Filed(after, chain) == Filed(store, chain);
  }

  /** Nothing keeps the draft from being posted: it names no single item, or the search for it comes back empty. */
  predicate FreeToPost(w: World, d: Draft)
    requires Inv(w) && w.list.Some?
  {
    QaItem(d).Some? ==> Answer(w, QaItem(d).value) == Absent
  }

  // A run in which the draft is posted

  /** A run of creators and posters so far. */
  datatype Run = Run(worlds: seq<World>, actions: seq<Action>)

  predicate ValidRun(r: Run) {
    IsRun(r.worlds, r.actions)
  }

  /** The world a run has come to. */
  function Last(r: Run): World
    requires ValidRun(r)
  {
    r.worlds[|r.worlds| - 1]
  }

  /** A run that goes on from where the first one stands. */
  predicate GoesOn(r: Run, r': Run) {
    ValidRun(r) && ValidRun(r') && r.worlds <= r'.worlds
  }

  lemma GoesOnTwice(a: Run, b: Run, c: Run)
    requires GoesOn(a, b) && GoesOn(b, c)
    ensures GoesOn(a, c)
  {
    hide IsRun;
  }

  lemma OneStep(r: Run, action: Action, w': World) returns (r': Run)
    requires ValidRun(r) && StepOk(Last(r), action, w')
    ensures GoesOn(r, r') && Last(r') == w' && Inv(w') && r'.actions == r.actions + [action]
  {
    hide StepOk, Initial, Inv;
    r' := Run(r.worlds + [w'], r.actions + [action]);
    forall i | 0 <= i < |r'.actions| ensures StepOk(r'.worlds[i], r'.actions[i], r'.worlds[i + 1]) {
      if i < |r.actions| { assert StepOk(r.worlds[i], r.actions[i], r.worlds[i + 1]); }
    }
    RunKeepsInvariant(r'.worlds, r'.actions, |r.worlds|);
  }

  function AtPhase(w: World, caller: nat, phase: Phase): World {
    w.(calls := w.calls[caller := phase])
  }

  lemma CallIsStep(w: World, caller: nat, d: Draft)
    requires Inv(w) && caller !in w.calls && ValidDraft(d)
    ensures StepOk(w, Call(caller, BeforePost(d)), AtPhase(w, caller, EnsureRead(BeforePost(d))))
  {
    hide ValidDraft, LogOk, PhaseOk, CallerOk;
    RefInStore(w);
  }

  /** One quiet step of a call, as a step of the run. */
  lemma QuietStep(r: Run, caller: nat, phase: Phase) returns (r': Run)
    requires ValidRun(r)
    requires var w := Last(r);
             && ValidStore(w.store) && w.list.Some? && w.list.value < |w.store| && caller in w.calls
             && Quiet(w.store, w.list, w.calls[caller]) == Some(phase)
    ensures GoesOn(r, r') && Last(r') == AtPhase(Last(r), caller, phase) && Inv(Last(r'))
    ensures r'.actions == r.actions + [Step(caller)]
  {
    hide ValidRun, Inv, Quiet;
    r' := OneStep(r, Step(caller), AtPhase(Last(r), caller, phase));
  }

  /** Up to the point where the search has come back empty. */
  lemma CallGoesThrough(r: Run, caller: nat, d: Draft) returns (r': Run)
    requires ValidRun(r) && ValidDraft(d)
    requires var w := Last(r); Inv(w) && w.list.Some? && caller !in w.calls && FreeToPost(w, d)
    ensures GoesOn(r, r') && Inv(Last(r')) && Last(r).list.Some?
    ensures Last(r') == AtPhase(Last(r), caller, Committing(d, 0, Last(r).list.value))
    ensures r'.actions == r.actions + [Call(caller, BeforePost(d)), Step(caller), Step(caller), Step(caller)]
  {
    hide ValidRun, Inv, ValidDraft, FreeToPost, StepOk, Quiet, GoesOn;
    var w := Last(r);
    CallIsStep(w, caller, d);
    var r1 := OneStep(r, Call(caller, BeforePost(d)), AtPhase(w, caller, EnsureRead(BeforePost(d))));
    assert ValidRun(r1) by { LaterIsRun(r, r1); }
    QuietPhases(w, d);
    var r2 := QuietStep(r1, caller, Attempting(d, 0));
    assert ValidRun(r2) by { LaterIsRun(r1, r2); }
    var r3 := QuietStep(r2, caller, Checking(d, 0, w.list.value));
    assert ValidRun(r3) by { LaterIsRun(r2, r3); }
    r' := QuietStep(r3, caller, Committing(d, 0, w.list.value));
    GoesOnTwice(r, r1, r2);
    GoesOnTwice(r, r2, r3);
    GoesOnTwice(r, r3, r');
  }

  lemma LaterIsRun(r: Run, r': Run)
    requires GoesOn(r, r')
    ensures ValidRun(r')
  {
    hide ValidRun;
  }

  /** A listed head and an empty search lead a call straight to its commit. */
  lemma QuietPhases(w: World, d: Draft)
    requires Inv(w) && w.list.Some? && FreeToPost(w, d)
    ensures ValidStore(w.store) && w.list.value < |w.store|
    ensures Quiet(w.store, w.list, EnsureRead(BeforePost(d))) == Some(Attempting(d, 0))
    ensures Quiet(w.store, w.list, Attempting(d, 0)) == Some(Checking(d, 0, w.list.value))
    ensures Quiet(w.store, w.list, Checking(d, 0, w.list.value)) == Some(Committing(d, 0, w.list.value))
  {
    hide Inv, QaItem, SearchItem;
    ListIsLog(w);
    InvHasStore(w);
  }

  /** The world with the new commit in its store. */
  function WithCommit(w: World, caller: nat, d: Draft, head: Oid): World
    requires ValidStore(w.store) && head < |w.store|
  {
    AtPhase(w, caller, Swapping(d, 0, head, |w.store|)).(store := w.store + [PostCommit(w.store, d, head)])
  }

  lemma CommitIsStep(w: World, caller: nat, d: Draft)
    requires Inv(w) && w.list.Some? && caller in w.calls && w.calls[caller] == Committing(d, 0, w.list.value)
    ensures ValidStore(w.store) && w.list.value < |w.store|
    ensures var w' := WithCommit(w, caller, d, w.list.value);
            StepOk(w, Action.Commit(caller, Some(([], [])), |w.store|, w'.store), w') && Extends(w'.store, w.store)
  {
    hide PhaseOk, CallerOk, LogOk, PostMessage;
    RefInStore(w);
    var (head, c) := (w.list.value, PostCommit(w.store, d, w.list.value));
    var after := w.store + [c];
    assert after[|w.store|] == c;
    assert c.parents == [head];
    assert Committed(w.store, after, c, |w.store|);
  }

  /** The world after the compare-and-swap. */
  function WithPost(w: World, caller: nat, d: Draft, head: Oid, commit: Oid): World
    requires ValidStore(w.store) && head < |w.store|
  {
    w.(list := Some(commit),
       calls := w.calls[caller := Done(Posted(commit, MessageId(d.kind, d.coordinate, |Chain(w.store, head)|)))],
       log := w.log + [MailList.Entry(Some(caller), commit, OfPost(d))])
  }

  lemma SwapIsStep(w: World, caller: nat, d: Draft, head: Oid, commit: Oid)
    requires Inv(w) && w.list == Some(head) && caller in w.calls && w.calls[caller] == Swapping(d, 0, head, commit)
    ensures ValidStore(w.store) && head < |w.store|
    ensures StepOk(w, Step(caller), WithPost(w, caller, d, head, commit))
  {
    hide PhaseOk, CallerOk, LogOk, MessageId;
    RefInStore(w);
  }

  /** A whole call of `post` with nobody in its way: one more entry. */
  lemma PostGoesThrough(r: Run, caller: nat, d: Draft) returns (r': Run)
    requires ValidRun(r) && ValidDraft(d)
    requires var w := Last(r); Inv(w) && w.list.Some? && caller !in w.calls && FreeToPost(w, d)
    ensures GoesOn(r, r') && Inv(Last(r'))
    ensures var (w, w') := (Last(r), Last(r'));
            && w'.list.Some? && Extends(w'.store, w.store) && w'.calls.Keys == w.calls.Keys + {caller}
            && w'.log == w.log + [MailList.Entry(Some(caller), w'.list.value, OfPost(d))]
            && w'.calls == w.calls[caller := Done(Posted(w'.list.value, MessageId(d.kind, d.coordinate, |w.log|)))]
    ensures exists seed, commit, after ::
      r'.actions == r.actions + [Call(caller, BeforePost(d)), Step(caller), Step(caller), Step(caller),
                                 Action.Commit(caller, Some(seed), commit, after), Step(caller)]
  {
    hide ValidRun, Inv, ValidDraft, FreeToPost, PostCommit, MessageId, StepOk, GoesOn, Extends;
    var (w, head) := (Last(r), Last(r).list.value);
    var r1 := CallGoesThrough(r, caller, d);
    assert ValidRun(r1) by { LaterIsRun(r, r1); }
    var w1 := Last(r1);
    CommitIsStep(w1, caller, d);
    var w2 := WithCommit(w1, caller, d, head);
    var r2 := OneStep(r1, Action.Commit(caller, Some(([], [])), |w.store|, w2.store), w2);
    assert ValidRun(r2) by { LaterIsRun(r1, r2); }
    SwapIsStep(w2, caller, d, head, |w.store|);
    r' := OneStep(r2, Step(caller), WithPost(w2, caller, d, head, |w.store|));
    assert ValidRun(r') by { LaterIsRun(r2, r'); }
    SequenceIsPlace(w, w2, head);
    assert Last(r').calls == w.calls[caller := Done(Posted(|w.store|, MessageId(d.kind, d.coordinate, |w.log|)))];
    GoesOnTwice(r, r1, r2);
    GoesOnTwice(r, r2, r');
  }

  lemma SequenceIsPlace(w: World, w': World, head: Oid)
    requires Inv(w) && w.list == Some(head) && ValidStore(w'.store) && Extends(w'.store, w.store)
    ensures head < |w'.store| && |Chain(w'.store, head)| == |w.log|
  {
    hide Inv;
    ListIsLog(w);
    ChainStable(w.store, w'.store, head);
  }

  /** In any world of any run where the list can be read and holds no post for the item yet, two calls of
      `post` with the same misfiled draft, one after the other, add two posts for that item. */
  lemma MisfiledDraftPostsTwice(r: Run, first: nat, second: nat, d: Draft) returns (r': Run)
    requires ValidRun(r) && ValidDraft(d) && QaItem(d).Some? && Misfiled(d) && first != second
    requires var w := Last(r);
             && Inv(w) && w.list.Some? && first !in w.calls && second !in w.calls
             && Answer(w, QaItem(d).value) == Absent
    ensures GoesOn(r, r')
    ensures var (w, w') := (Last(r), Last(r'));
            && |w'.log| == |w.log| + 2 && w.log <= w'.log
            && w'.log[|w.log|].origin == OfPost(d) && w'.log[|w.log| + 1].origin == OfPost(d)
            && w'.log[|w.log|].caller == Some(first) && w'.log[|w.log| + 1].caller == Some(second)
  {
    hide ValidRun, Inv, ValidDraft, QaItem, Answer, Misfiled, Settled, Extends, GoesOn;
    var w := Last(r);
    var r1 := PostGoesThrough(r, first, d);
    assert ValidRun(r1) by { LaterIsRun(r, r1); }
    var w1 := Last(r1);
    SearchFindsOwnPostExactly(w, w1, w1.log[|w.log|], QaItem(d).value);
    r' := PostGoesThrough(r1, second, d);
    assert ValidRun(r') by { LaterIsRun(r1, r'); }
    GoesOnTwice(r, r1, r');
  }

  /** The list right after its genesis. */
  function Fresh(): World {
    World([Git.Commit(EMPTY_TREE, [], GenesisMessage([], []))], Some(0), map[], [MailList.Entry(None, 0, AtGenesis)])
  }

  lemma FreshRun()
    ensures ValidRun(Run([Fresh()], [])) && TidyLog(Fresh().log) && Inv(Fresh())
    ensures Last(Run([Fresh()], [])) == Fresh()
    ensures forall item :: Answer(Fresh(), item) == Absent
  {
    hide Parse, ItemOf, FirstMatch, GenesisMessage;
    var w := Fresh();
    GenesisIsMarked([], []);
    assert EntryOk(w.store, w.log, 0);
    assert LogOk(w.store, w.list, w.log);
    InitialHolds(w);
    ListIsLog(w);
    GenesisIsRead(w.store[0].message);
    forall item ensures Answer(w, item) == Absent {
      var chain := Chain(w.store, 0);
      assert chain == [0];
      assert Filed(w.store, chain) == [None];
      assert FirstMatch(Filed(w.store, chain), item) == 1;
    }
  }

  /** Two qa posts for one item, from a fresh list: any clean draft whose item gets one of the eight
      separators at its end, posted twice. Both are listed under the item without the separator. */
  lemma TwoQaPostsForOneItem(d: Draft, c: CodePoint) returns (r: Run, unclean: Draft)
    requires ValidDraft(d) && CleanDraft(d) && d.kind == QA && |d.refs| == 1 && d.refs[0].key == ITEM
    requires IsOtherSeparator(c)
    ensures ValidRun(r) && TidyLog(r.worlds[0].log)
    ensures unclean == d.(refs := [Keyed(ITEM, d.refs[0].value + [c])]) && QaItem(unclean) == Some(d.refs[0].value + [c])
    ensures var w := Last(r);
            && |w.log| == 3 && w.log[1].origin == OfPost(unclean) && w.log[2].origin == OfPost(unclean)
            && forall i :: 1 <= i < 3 ==>
                 w.log[i].commit < |w.store| && ItemOf(w.store[w.log[i].commit].message) == Some(d.refs[0].value)
  {
    hide IsRun, Inv, ValidDraft, CleanDraft, Answer, ItemOf, ReadsBackNumbered, FiledItem, IsOtherSeparator, Parse, Fresh;
    unclean := d.(refs := [Keyed(ITEM, d.refs[0].value + [c])]);
    UncleanItemIsFiledElsewhere(d, c);
    assert (d.refs[0].value + [c])[|d.refs[0].value|] == c;
    FreshRun();
    FreshIs();
    r := MisfiledDraftPostsTwice(Run([Fresh()], []), 0, 1, unclean);
    var w := Last(r);
    assert r.worlds[0] == Fresh();
    LastKeepsInvariant(r);
    LogOfInv(w);
    forall i | 1 <= i < 3
      ensures w.log[i].commit < |w.store| && ItemOf(w.store[w.log[i].commit].message) == Some(d.refs[0].value)
    {
      ItemOnList(w, i);
    }
  }

  lemma LastKeepsInvariant(r: Run)
    requires ValidRun(r)
    ensures Inv(Last(r))
  {
    RunKeepsInvariant(r.worlds, r.actions, |r.worlds| - 1);
  }

  lemma FreshIs()
    ensures Fresh().calls == map[] && Fresh().list.Some? && |Fresh().log| == 1
  {
  }
}
