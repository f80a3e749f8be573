/** The shared mailing list: concurrent creators and posters moving one ref by compare-and-swap. */
module MailList {
  import opened Prelude
  import opened Utf8
  import opened Json
  import opened PyText
  import opened MailMessage
  import opened MailSeparators
  import opened Git

  /** A tree object; posts only ever pass one on. */
  type TreeId = nat

  const EMPTY_TREE: TreeId := 0
  const APPEND_ATTEMPTS := 4

  // What is posted

  /** A validated call of `post`; the Message-Id is made only once the sequence is known. */
  datatype Draft = Draft(
    kind: Text, subject: Text, body: Text, links: seq<Pair>, inReplyTo: Option<Text>, refs: seq<Pair>, coordinate: Text
  )

  /** The post before its Message-Id is made. */
  function Unnumbered(d: Draft): Post {
    Post(d.kind, d.subject, d.body, None, d.links, d.inReplyTo, d.refs)
  }

  function Numbered(d: Draft, sequence: nat): Post {
    Unnumbered(d).(messageId := Some(MessageId(d.kind, d.coordinate, sequence)))
  }

  predicate ValidDraft(d: Draft) {
    && ValidPost(Unnumbered(d))
    && d.coordinate != [] && OneLine(d.coordinate) && ScalarText(d.coordinate)
  }

  predicate CleanDraft(d: Draft) {
    Clean(Unnumbered(d))
  }

  const QA := T("qa")
  const ITEM := T("item")

  /** `_qa_item_ref`: the item of a qa post that names exactly one. */
  function QaItem(d: Draft): Option<Text> {
    var values := ValuesOf(d.refs, ITEM);
    if d.kind != QA || |values| != 1 then None else Some(values[0])
  }

  /** The item under which a reader files a message: that of a qa post whose refs hold one string. */
  function ItemOf(message: Text): Option<Text> {
    match Parse(message)
    case Read(q) => if q.kind == QA && ITEM in q.refs && q.refs[ITEM].One? then Some(q.refs[ITEM].t) else None
    case _ => None
  }

  lemma NumberedIsValid(d: Draft, sequence: nat)
    requires ValidDraft(d)
    ensures ValidPost(Numbered(d, sequence))
    ensures CleanDraft(d) ==> Clean(Numbered(d, sequence))
  {
    hide MessageId, ValidPair, Plain, IsKind;
    MessageIdIsPlain(d.kind, d.coordinate, sequence);
  }

  /** The item under which a draft will be filed: the one that the pieces of its trailers name. */
  function FiledItem(d: Draft): Option<Text> {
    var values := ValuesOf(RefPairs(Fragments(Unnumbered(d))), ITEM);
    if d.kind != QA || |values| != 1 then None else Some(values[0])
  }

  /** The draft will be read, and filed under the item that its caller named. */
  predicate Settled(d: Draft) {
    ReadsBackNumbered(Unnumbered(d)) && FiledItem(d) == QaItem(d)
  }

  lemma OneValueUnder(pairs: seq<Pair>, name: Text)
    ensures (name in Regrouped(pairs) && Regrouped(pairs)[name].One?) <==> |ValuesOf(pairs, name)| == 1
    ensures name in Regrouped(pairs) && Regrouped(pairs)[name].One? ==> Regrouped(pairs)[name].t == ValuesOf(pairs, name)[0]
  {
    hide ValuesOf, Regrouped;
    RegroupedAt(pairs, name);
  }

  /** Whether a posted draft is read, and where it is filed, whatever its trailers hold and whatever its
      sequence: both can be told from the draft before it is posted. */
  lemma FiledExactly(d: Draft, sequence: nat)
    requires ValidDraft(d)
    ensures var message := PostMessage(Numbered(d, sequence));
            && (Parse(message).Read? <==> ReadsBackNumbered(Unnumbered(d)))
            && (Parse(message).Malformed? <==> !ReadsBackNumbered(Unnumbered(d)))
            && ItemOf(message) == if ReadsBackNumbered(Unnumbered(d)) then FiledItem(d) else None
  {
    hide PostMessage, Parse, ValidDraft, ValidPost, Regrouped, ReadsBack, ReadsBackNumbered, RefPairs, Fragments, ValuesOf, MessageId;
    var p := Numbered(d, sequence);
    NumberedIsValid(d, sequence);
    assert d.kind == p.kind && p.messageId.value != [] && Plain(p.messageId.value) by { NumberIsPlain(d, sequence); }
    assert p == Unnumbered(d).(messageId := Some(p.messageId.value));
    NumberedReadsBack(Unnumbered(d), p.messageId.value);
    ReadsBackExactly(p);
    if ReadsBack(p) {
      RefsReadBack(p);
      OneValueUnder(RefPairs(Fragments(p)), ITEM);
    }
  }

  lemma NumberIsPlain(d: Draft, sequence: nat)
    requires ValidDraft(d)
    ensures MessageId(d.kind, d.coordinate, sequence) != [] && Plain(MessageId(d.kind, d.coordinate, sequence))
  {
    hide MessageId, Plain;
    MessageIdIsPlain(d.kind, d.coordinate, sequence);
  }

  /** A settled post is filed under the item its caller named, and under none otherwise. */
  lemma FiledUnderItsItem(d: Draft, sequence: nat)
    requires ValidDraft(d) && Settled(d)
    ensures Parse(PostMessage(Numbered(d, sequence))).Read?
    ensures ItemOf(PostMessage(Numbered(d, sequence))) == QaItem(d)
  {
    hide PostMessage, Parse, ValidDraft, ReadsBackNumbered, FiledItem, QaItem, ItemOf;
    FiledExactly(d, sequence);
  }

  /** Drafts without the eight separators are settled. */
  lemma CleanIsSettled(d: Draft)
    requires ValidDraft(d) && CleanDraft(d)
    ensures Settled(d)
  {
    hide PostMessage, Parse, ValidDraft, ValidPost, Clean, CleanDraft, Regrouped, ReadsBackNumbered, ValuesOf, MessageId, FiledItem;
    NumberedIsValid(d, 1);
    CleanRoundTrip(Numbered(d, 1));
    OneValueUnder(d.refs, ITEM);
    FiledExactly(d, 1);
  }

  /** A draft whose item holds one of those separators is never settled. */
  lemma UnplainItemIsNotSettled(d: Draft)
    requires ValidDraft(d) && QaItem(d).Some? && !Plain(QaItem(d).value)
    ensures !Settled(d)
  {
    hide PostMessage, Parse, ValidDraft, Plain, ReadsBackNumbered, FiledItem, QaItem, ItemOf;
    FiledExactly(d, 1);
    if Settled(d) { ReadItemIsPlain(PostMessage(Numbered(d, 1))); }
  }

  lemma ReadItemIsPlain(message: Text)
    requires ItemOf(message).Some?
    ensures Plain(ItemOf(message).value)
  {
    hide Parse, Plain;
    ReadIsPlain(message);
    assert PlainEntry(Parse(message).parsed.refs[ITEM]);
  }

  /** A separator at the end of an item is lost, so two posts whose callers named different items are
      filed under the same one. */
  lemma UncleanItemIsFiledElsewhere(d: Draft, c: CodePoint)
    requires ValidDraft(d) && CleanDraft(d) && d.kind == QA && |d.refs| == 1 && d.refs[0].key == ITEM
    requires IsOtherSeparator(c)
    ensures var unclean := d.(refs := [Keyed(ITEM, d.refs[0].value + [c])]);
            && ValidDraft(unclean) && QaItem(unclean) == Some(d.refs[0].value + [c])
            && ReadsBackNumbered(Unnumbered(unclean)) && FiledItem(unclean) == QaItem(d) == Some(d.refs[0].value)
  {
    hide PostMessage, Parse, ValidPost, Clean, Regrouped, MessageId, IsOtherSeparator, ReadsBackNumbered, FiledItem, ReadsBack;
    var unclean := d.(refs := [Keyed(ITEM, d.refs[0].value + [c])]);
    NumberedIsValid(d, 1);
    assert d.refs[0].value + [c] + [] == d.refs[0].value + [c];
    assert unclean.refs == d.refs[..0] + [Keyed(ITEM, d.refs[0].value + [c] + [])];
    assert Numbered(unclean, 1) == Continued(Numbered(d, 1), c, []);
    TrailingSeparatorIsLost(Numbered(d, 1), c);
    ValidWithout(Numbered(unclean, 1));
    FiledExactly(unclean, 1);
    OneValueUnder(d.refs, ITEM);
    assert d.refs[1..] == [] && unclean.refs[1..] == [];
  }

  lemma ValidWithout(p: Post)
    requires ValidPost(p)
    ensures ValidPost(p.(messageId := None))
  {
  }

  function GenesisMessage(seed: Text, seedTree: Text): Text {
    GENESIS + T("\n\nSeed: ") + seed + T("\nSeed-Tree: ") + seedTree + [NEWLINE]
  }

  /** `_qa_post_for_item`: every message is parsed before the first match is taken. */
  datatype Search = Unreadable | Found(commit: Oid) | Absent

  /** Each commit by the item it is filed under. */
  function Filed(store: Store<TreeId>, chain: seq<Oid>): (filed: seq<Option<Text>>)
    requires forall i :: 0 <= i < |chain| ==> chain[i] < |store|
    ensures |filed| == |chain| && forall i :: 0 <= i < |chain| ==> filed[i] == ItemOf(store[chain[i]].message)
  {
    seq(|chain|, i requires 0 <= i < |chain| => ItemOf(store[chain[i]].message))
  }

  /** The place of the first match; the length where there is none. */
  function FirstMatch(filed: seq<Option<Text>>, item: Text): (k: nat)
    ensures k <= |filed| && (k < |filed| ==> filed[k] == Some(item))
    ensures forall j :: 0 <= j < k ==> filed[j] != Some(item)
  {
    if filed == [] || filed[0] == Some(item) then 0 else 1 + FirstMatch(filed[1..], item)
  }

  function SearchItem(store: Store<TreeId>, chain: seq<Oid>, item: Text): Search
    requires forall i :: 0 <= i < |chain| ==> chain[i] < |store|
  {
    if exists i :: 0 <= i < |chain| && Parse(store[chain[i]].message).Malformed? then Unreadable
    else
      var k := FirstMatch(Filed(store, chain), item);
      if k == |chain| then Absent else Found(chain[k])
  }

  // Calls

  datatype Outcome =
    | Failed
    | Ensured(created: bool, head: Oid)
    | Posted(commit: Oid, messageId: Text)
    | Existing(commit: Oid, item: Text)

  /** What goes on when `ensure_list` returns: nothing, the post's loop, or the attempt it is in. */
  datatype Job = EnsureOnly | BeforePost(d: Draft) | WithinPost(d: Draft, attempt: nat)

  datatype Phase =
    | EnsureRead(job: Job)
    | EnsureCommit(job: Job)
    | EnsureSwap(job: Job, genesis: Oid)
    | EnsureReread(job: Job)
    | Attempting(d: Draft, attempt: nat)
    | Checking(d: Draft, attempt: nat, expected: Oid)
    | Committing(d: Draft, attempt: nat, expected: Oid)
    | Swapping(d: Draft, attempt: nat, expected: Oid, commit: Oid)
    | Done(outcome: Outcome)

  datatype Origin = AtGenesis | OfPost(d: Draft)

  /** A move of the list ref and the call that made it, kept for the statements only. */
  datatype Entry = Entry(caller: Option<nat>, commit: Oid, origin: Origin)

  datatype World = World(store: Store<TreeId>, list: Option<Oid>, calls: map<nat, Phase>, log: seq<Entry>)

  datatype Action =
    | Call(caller: nat, job: Job)
    | Step(caller: nat)
    | Commit(caller: nat, seed: Option<(Text, Text)>, commit: Oid, after: Store<TreeId>)

  function AfterEnsure(job: Job, created: bool, head: Oid): Phase {
    match job
    case EnsureOnly => Done(Ensured(created, head))
    case BeforePost(d) => Attempting(d, 0)
    case WithinPost(d, attempt) => Checking(d, attempt, head)
  }

  function PostCommit(store: Store<TreeId>, d: Draft, expected: Oid): Git.Commit<TreeId>
    requires ValidStore(store) && expected < |store|
  {
    var sequence := |Chain(store, expected)|;
    Git.Commit(store[expected].tree, [expected], PostMessage(Numbered(d, sequence)))
  }

  function AfterSearch(search: Search, item: Text, d: Draft, attempt: nat, expected: Oid): Phase {
    match search
    case Unreadable => Done(Failed)
    case Found(commit) => Done(Existing(commit, item))
    case Absent => Committing(d, attempt, expected)
  }

  /** A step that touches neither the store nor the ref: the phase it leads to. */
  function Quiet(store: Store<TreeId>, list: Option<Oid>, phase: Phase): Option<Phase>
    requires ValidStore(store) && (list.Some? ==> list.value < |store|)
  {
    match phase
    case EnsureRead(job) => Some(if list.Some? then AfterEnsure(job, false, list.value) else EnsureCommit(job))
    case EnsureReread(job) => Some(if list.Some? then AfterEnsure(job, false, list.value) else Done(Failed))
    case EnsureSwap(job, genesis) => if list.Some? then Some(EnsureReread(job)) else None
    case Attempting(d, attempt) =>
      if attempt >= APPEND_ATTEMPTS then Some(Done(Failed))
      else if list.None? then Some(EnsureRead(WithinPost(d, attempt)))
      else Some(Checking(d, attempt, list.value))
    case Checking(d, attempt, expected) =>
      var item := QaItem(d);
      if item.None? || list.None? then Some(Committing(d, attempt, expected))
      else
        ChainInStore(store, list.value);
        Some(AfterSearch(SearchItem(store, Chain(store, list.value), item.value), item.value, d, attempt, expected))
    case Swapping(d, attempt, expected, commit) =>
      if list != Some(expected) then Some(Attempting(d, attempt + 1)) else None
    case _ => None
  }

  lemma ChainInStore(store: Store<TreeId>, head: Oid)
    requires ValidStore(store) && head < |store|
    ensures forall i :: 0 <= i < |Chain(store, head)| ==> Chain(store, head)[i] < |store|
  {
    forall i | 0 <= i < |Chain(store, head)| ensures Chain(store, head)[i] < |store| {
      ChainAscends(store, head, i, i);
    }
  }

  /** The compare-and-swap that succeeds: the ref's new value, its log entry and the phase after. */
  predicate Move(w: World, caller: nat, w': World)
    requires caller in w.calls && ValidStore(w.store)
  {
    match w.calls[caller]
    case EnsureSwap(job, genesis) =>
      && w.list.None? && genesis < |w.store|
      && w' == w.(list := Some(genesis),
                  calls := w.calls[caller := AfterEnsure(job, true, genesis)],
                  log := w.log + [Entry(Some(caller), genesis, AtGenesis)])
    case Swapping(d, attempt, expected, commit) =>
      && w.list == Some(expected) && expected < |w.store|
      && var messageId := MessageId(d.kind, d.coordinate, |Chain(w.store, expected)|);
      w' == w.(list := Some(commit),
               calls := w.calls[caller := Done(Posted(commit, messageId))],
               log := w.log + [Entry(Some(caller), commit, OfPost(d))])
    case _ => false
  }

  /** One `commit-tree`, or the failure that keeps it from happening. */
  predicate MakeCommit(w: World, caller: nat, seed: Option<(Text, Text)>, commit: Oid, w': World)
    requires caller in w.calls && ValidStore(w.store)
  {
    if seed.None? then
      (w.calls[caller].EnsureCommit? || w.calls[caller].Committing?) && w' == w.(calls := w.calls[caller := Done(Failed)])
    else
      match w.calls[caller]
      case EnsureCommit(job) =>
        var c := Git.Commit(EMPTY_TREE, [], GenesisMessage(seed.value.0, seed.value.1));
        && Committed(w.store, w'.store, c, commit)
        && w' == w.(store := w'.store, calls := w.calls[caller := EnsureSwap(job, commit)])
      case Committing(d, attempt, expected) =>
        && expected < |w.store|
        && Committed(w.store, w'.store, PostCommit(w.store, d, expected), commit)
        && w' == w.(store := w'.store, calls := w.calls[caller := Swapping(d, attempt, expected, commit)])
      case _ => false
  }

  predicate ValidJob(job: Job) {
    job.EnsureOnly? || ValidDraft(job.d)
  }

  predicate Next(w: World, action: Action, w': World)
    requires ValidStore(w.store) && (w.list.Some? ==> w.list.value < |w.store|)
  {
    match action
    case Call(caller, job) =>
      && caller !in w.calls && !job.WithinPost? && ValidJob(job)
      && (forall i :: 0 <= i < |w.log| ==> w.log[i].caller != Some(caller))
      && w' == w.(calls := w.calls[caller := EnsureRead(job)])
    case Step(caller) =>
      && caller in w.calls
      && var quiet := Quiet(w.store, w.list, w.calls[caller]);
      if quiet.Some? then w' == w.(calls := w.calls[caller := quiet.value]) else Move(w, caller, w')
    case Commit(caller, seed, commit, after) =>
      caller in w.calls && w'.store == (if seed.None? then w.store else after) && MakeCommit(w, caller, seed, commit, w')
  }

  // The list as the log tells it

  function Commits(log: seq<Entry>): (commits: seq<Oid>)
    ensures |commits| == |log| && forall i :: 0 <= i < |log| ==> commits[i] == log[i].commit
  {
    seq(|log|, i requires 0 <= i < |log| => log[i].commit)
  }

  /** Entry i of the list: the genesis, or a post on its predecessor that keeps the tree and carries
      its own position as its sequence. */
  predicate EntryOk(store: Store<TreeId>, log: seq<Entry>, i: nat)
    requires i < |log|
  {
    && log[i].commit < |store|
    && var c := store[log[i].commit];
    && c.tree == EMPTY_TREE
    && if i == 0 then log[i].origin.AtGenesis? && c.parents == [] && GENESIS <= c.message
       else
         && log[i].origin.OfPost? && ValidDraft(log[i].origin.d)
         && c.parents == [log[i - 1].commit]
         && c.message == PostMessage(Numbered(log[i].origin.d, i))
  }

  predicate LogOk(store: Store<TreeId>, list: Option<Oid>, log: seq<Entry>) {
    && (list.None? <==> log == [])
    && (log != [] ==> list == Some(log[|log| - 1].commit))
    && forall i :: 0 <= i < |log| ==> EntryOk(store, log, i)
  }

  /** The list is one first-parent chain, and it is the log. */
  lemma {:induction false} ChainIsLog(store: Store<TreeId>, list: Option<Oid>, log: seq<Entry>, i: nat)
    requires ValidStore(store) && LogOk(store, list, log) && i < |log|
    ensures log[i].commit < |store| && Chain(store, log[i].commit) == Commits(log[..i + 1])
  {
    hide PostMessage, Numbered, ValidDraft;
    assert EntryOk(store, log, i);
    if i == 0 {
      assert Commits(log[..1]) == [log[0].commit];
    } else {
      ChainIsLog(store, list, log, i - 1);
      assert Commits(log[..i + 1]) == Commits(log[..i]) + [log[i].commit];
    }
  }

  lemma ListedAscend(store: Store<TreeId>, list: Option<Oid>, log: seq<Entry>, i: nat, j: nat)
    requires ValidStore(store) && LogOk(store, list, log) && i < j < |log|
    ensures log[i].commit < log[j].commit
  {
    hide LogOk;
    ChainIsLog(store, list, log, j);
    ChainAscends(store, log[j].commit, i, j);
  }

  predicate OnList(log: seq<Entry>, c: Oid) {
    exists i :: 0 <= i < |log| && log[i].commit == c
  }

  predicate PhaseOk(store: Store<TreeId>, log: seq<Entry>, caller: nat, phase: Phase)
    requires ValidStore(store)
  {
    match phase
    case EnsureRead(job) => ValidJob(job)
    case EnsureCommit(job) => ValidJob(job)
    case EnsureReread(job) => ValidJob(job)
    case EnsureSwap(job, genesis) =>
      && ValidJob(job)
      && genesis < |store| && store[genesis].tree == EMPTY_TREE && store[genesis].parents == []
      && GENESIS <= store[genesis].message
    case Attempting(d, _) => ValidDraft(d)
    case Checking(d, _, expected) => ValidDraft(d) && expected < |store| && OnList(log, expected)
    case Committing(d, _, expected) => ValidDraft(d) && expected < |store| && OnList(log, expected)
    case Swapping(d, _, expected, commit) =>
      && ValidDraft(d) && expected < commit < |store| && OnList(log, expected)
      && store[commit] == PostCommit(store, d, expected)
    case Done(Posted(commit, messageId)) => exists i :: 0 <= i < |log| && IsPostedAs(log, i, caller, commit, messageId)
    case Done(Ensured(true, head)) => exists i :: 0 <= i < |log| && IsGenesisOf(log, i, caller, head)
    case Done(Ensured(false, head)) => OnList(log, head)
    case Done(Existing(commit, _)) => OnList(log, commit)
    case Done(Failed) => true
  }

  /** Entry i is the caller's post, and messageId is made from its position. */
  predicate IsPostedAs(log: seq<Entry>, i: nat, caller: nat, commit: Oid, messageId: Text) {
    && 0 < i < |log| && log[i].caller == Some(caller) && log[i].commit == commit && log[i].origin.OfPost?
    && messageId == MessageId(log[i].origin.d.kind, log[i].origin.d.coordinate, i)
  }

  predicate IsGenesisOf(log: seq<Entry>, i: nat, caller: nat, head: Oid) {
    i < |log| && log[i].caller == Some(caller) && log[i].commit == head && log[i].origin.AtGenesis?
  }

  /** Entries come from calls that have got past their own entry: a posted entry's call is done. */
  predicate CallerOk(w: World, i: nat)
    requires i < |w.log|
  {
    w.log[i].caller.Some? && w.log[i].origin.OfPost? ==>
      && w.log[i].caller.value in w.calls
      && var phase := w.calls[w.log[i].caller.value];
      phase.Done? && phase.outcome.Posted? && phase.outcome.commit == w.log[i].commit
  }

  predicate Inv(w: World) {
    && ValidStore(w.store)
    && LogOk(w.store, w.list, w.log)
    && (forall caller :: caller in w.calls ==> PhaseOk(w.store, w.log, caller, w.calls[caller]))
    && (forall i :: 0 <= i < |w.log| ==> CallerOk(w, i))
    && (forall i :: 0 <= i < |w.log| && w.log[i].caller.Some? ==> w.log[i].caller.value in w.calls)
  }

  predicate Initial(w: World) {
    && ValidStore(w.store) && LogOk(w.store, w.list, w.log) && w.calls == map[]
    && forall i :: 0 <= i < |w.log| ==> w.log[i].caller == None
  }

  // Every step keeps the invariant

  lemma LogStable(store: Store<TreeId>, after: Store<TreeId>, list: Option<Oid>, log: seq<Entry>)
    requires LogOk(store, list, log) && Extends(after, store)
    ensures LogOk(after, list, log)
  {
    hide PostMessage, Numbered, ValidDraft;
    forall i | 0 <= i < |log| ensures EntryOk(after, log, i) { assert EntryOk(store, log, i); }
  }

  lemma PostCommitStable(store: Store<TreeId>, after: Store<TreeId>, d: Draft, expected: Oid)
    requires ValidStore(store) && ValidStore(after) && Extends(after, store) && expected < |store|
    ensures PostCommit(after, d, expected) == PostCommit(store, d, expected)
  {
    ChainStable(store, after, expected);
  }

  /** What a phase promises outlives every other call's step. */
  lemma PhaseStable(store: Store<TreeId>, after: Store<TreeId>, log: seq<Entry>, more: seq<Entry>, caller: nat, phase: Phase)
    requires ValidStore(store) && ValidStore(after) && Extends(after, store)
    requires PhaseOk(store, log, caller, phase)
    ensures PhaseOk(after, log + more, caller, phase)
  {
    hide PostCommit, ValidDraft, MessageId;
    var longer := log + more;
    assert forall i :: 0 <= i < |log| ==> longer[i] == log[i];
    match phase
    case Swapping(d, _, expected, commit) =>
      OnListStable(log, more, expected);
      PostCommitStable(store, after, d, expected);
    case Checking(_, _, expected) => OnListStable(log, more, expected);
    case Committing(_, _, expected) => OnListStable(log, more, expected);
    case Done(Ensured(created, head)) =>
      if created {
        var i :| 0 <= i < |log| && IsGenesisOf(log, i, caller, head);
        assert IsGenesisOf(longer, i, caller, head);
      } else {
        OnListStable(log, more, head);
      }
    case Done(Existing(commit, _)) => OnListStable(log, more, commit);
    case Done(Posted(commit, messageId)) =>
      var i :| 0 <= i < |log| && IsPostedAs(log, i, caller, commit, messageId);
      assert IsPostedAs(longer, i, caller, commit, messageId);
    case _ =>
  }

  lemma OnListStable(log: seq<Entry>, more: seq<Entry>, c: Oid)
    requires OnList(log, c)
    ensures OnList(log + more, c)
  {
    var i :| 0 <= i < |log| && log[i].commit == c;
    assert (log + more)[i].commit == c;
  }

  lemma TipOnList(w: World)
    requires LogOk(w.store, w.list, w.log) && w.list.Some?
    ensures OnList(w.log, w.list.value) && w.list.value < |w.store|
  {
    hide PostMessage, Numbered, ValidDraft;
    assert EntryOk(w.store, w.log, |w.log| - 1);
  }

  /** A step that changes one call's phase and adds commits, with the ref where it was. */
  lemma PhaseChange(w: World, w': World, caller: nat, phase: Phase)
    requires Inv(w) && ValidStore(w'.store) && Extends(w'.store, w.store)
    requires w' == w.(store := w'.store, calls := w.calls[caller := phase])
    requires PhaseOk(w'.store, w'.log, caller, phase)
    requires caller in w.calls ==> !w.calls[caller].Done?
    requires caller !in w.calls ==> forall i :: 0 <= i < |w.log| ==> w.log[i].caller != Some(caller)
    ensures Inv(w')
  {
    hide LogOk, PhaseOk;
    LogStable(w.store, w'.store, w.list, w.log);
    forall c | c in w'.calls ensures PhaseOk(w'.store, w'.log, c, w'.calls[c]) {
      if c != caller {
        PhaseStable(w.store, w'.store, w.log, [], c, w.calls[c]);
        assert w.log + [] == w'.log;
      }
    }
    forall i | 0 <= i < |w'.log| ensures CallerOk(w', i) { assert CallerOk(w, i); }
  }

  lemma SearchPhase(w: World, caller: nat)
    requires Inv(w) && caller in w.calls && (w.list.Some? ==> w.list.value < |w.store|)
    requires w.calls[caller].Checking?
    ensures Quiet(w.store, w.list, w.calls[caller]).Some?
    ensures PhaseOk(w.store, w.log, caller, Quiet(w.store, w.list, w.calls[caller]).value)
  {
    hide ValidDraft, LogOk, CallerOk, SearchItem, OnList, QaItem, ItemOf, PostCommit;
    var d := w.calls[caller].d;
    assert PhaseOk(w.store, w.log, caller, w.calls[caller]);
    if QaItem(d).Some? && w.list.Some? { FoundOnList(w, QaItem(d).value); }
  }

  lemma QuietPhase(w: World, caller: nat)
    requires Inv(w) && caller in w.calls && (w.list.Some? ==> w.list.value < |w.store|)
    requires Quiet(w.store, w.list, w.calls[caller]).Some?
    ensures PhaseOk(w.store, w.log, caller, Quiet(w.store, w.list, w.calls[caller]).value)
  {
    hide ValidDraft, LogOk, CallerOk, SearchItem, OnList, QaItem, ItemOf, PostCommit, IsPostedAs, IsGenesisOf;
    assert PhaseOk(w.store, w.log, caller, w.calls[caller]);
    if w.list.Some? { TipOnList(w); }
    if w.calls[caller].Checking? { SearchPhase(w, caller); }
  }

  lemma QuietStep(w: World, caller: nat, w': World)
    requires Inv(w) && caller in w.calls && (w.list.Some? ==> w.list.value < |w.store|)
    requires Quiet(w.store, w.list, w.calls[caller]).Some?
    requires w' == w.(calls := w.calls[caller := Quiet(w.store, w.list, w.calls[caller]).value])
    ensures Inv(w')
  {
    hide LogOk, CallerOk, PhaseOk;
    QuietPhase(w, caller);
    assert !w.calls[caller].Done?;
    PhaseChange(w, w', caller, w'.calls[caller]);
  }

  lemma FoundOnList(w: World, item: Text)
    requires ValidStore(w.store) && LogOk(w.store, w.list, w.log) && w.list.Some? && w.list.value < |w.store|
    ensures forall i :: 0 <= i < |Chain(w.store, w.list.value)| ==> Chain(w.store, w.list.value)[i] < |w.store|
    ensures match SearchItem(w.store, Chain(w.store, w.list.value), item)
            case Found(commit) => OnList(w.log, commit) && commit < |w.store| && ItemOf(w.store[commit].message) == Some(item)
            case Absent => forall i :: 0 <= i < |w.log| ==>
                             && w.log[i].commit < |w.store| && ItemOf(w.store[w.log[i].commit].message) != Some(item)
                             && !Parse(w.store[w.log[i].commit].message).Malformed?
            case Unreadable => true
  {
    hide ItemOf, EntryOk, PostMessage, Chain, FirstMatch, Filed;
    var n := |w.log|;
    ChainInStore(w.store, w.list.value);
    ChainIsLog(w.store, w.list, w.log, n - 1);
    assert w.log[..n] == w.log;
    var chain := Chain(w.store, w.list.value);
    assert forall i :: 0 <= i < n ==> chain[i] == w.log[i].commit;
  }

  lemma CommitStep(w: World, caller: nat, seed: Option<(Text, Text)>, commit: Oid, w': World)
    requires Inv(w) && caller in w.calls && MakeCommit(w, caller, seed, commit, w')
    ensures Inv(w')
  {
    hide ValidDraft, LogOk, CallerOk, PostMessage, Numbered;
    var phase := w.calls[caller];
    assert PhaseOk(w.store, w.log, caller, phase);
    if seed.None? {
      PhaseChange(w, w', caller, Done(Failed));
    } else if phase.EnsureCommit? {
      var c := Git.Commit(EMPTY_TREE, [], GenesisMessage(seed.value.0, seed.value.1));
      CommittedExtends(w.store, w'.store, c, commit);
      GenesisIsMarked(seed.value.0, seed.value.1);
      PhaseChange(w, w', caller, w'.calls[caller]);
    } else {
      var c := PostCommit(w.store, phase.d, phase.expected);
      CommittedExtends(w.store, w'.store, c, commit);
      PostCommitStable(w.store, w'.store, phase.d, phase.expected);
      assert w'.store[commit].parents[0] == phase.expected;
      PhaseChange(w, w', caller, w'.calls[caller]);
    }
  }

  lemma GenesisIsMarked(seed: Text, seedTree: Text)
    ensures GENESIS <= GenesisMessage(seed, seedTree)
  {
  }

  lemma LogGrows(store: Store<TreeId>, list: Option<Oid>, log: seq<Entry>, e: Entry)
    requires LogOk(store, list, log) && EntryOk(store, log + [e], |log|)
    ensures LogOk(store, Some(e.commit), log + [e])
  {
    hide PostMessage, Numbered, ValidDraft;
    forall i | 0 <= i < |log + [e]| ensures EntryOk(store, log + [e], i) {
      if i < |log| { assert EntryOk(store, log, i); }
    }
  }

  /** The ref moves onto one new entry, made by a call that had none of this kind. */
  lemma RefMoves(w: World, w': World, caller: nat, phase: Phase, e: Entry)
    requires Inv(w) && caller in w.calls && !w.calls[caller].Done?
    requires w' == w.(list := Some(e.commit), calls := w.calls[caller := phase], log := w.log + [e])
    requires e.caller == Some(caller) && EntryOk(w.store, w'.log, |w.log|)
    requires PhaseOk(w.store, w'.log, caller, phase)
    requires e.origin.OfPost? ==> phase.Done? && phase.outcome.Posted? && phase.outcome.commit == e.commit
    ensures Inv(w')
  {
    hide LogOk, PhaseOk, EntryOk;
    LogGrows(w.store, w.list, w.log, e);
    forall c | c in w'.calls ensures PhaseOk(w'.store, w'.log, c, w'.calls[c]) {
      if c != caller { PhaseStable(w.store, w.store, w.log, [e], c, w.calls[c]); }
    }
    forall i | 0 <= i < |w'.log| ensures CallerOk(w', i) {
      if i < |w.log| { assert CallerOk(w, i) && w'.log[i] == w.log[i]; }
    }
  }

  lemma MoveToGenesis(w: World, caller: nat, w': World)
    requires Inv(w) && caller in w.calls && w.calls[caller].EnsureSwap? && Move(w, caller, w')
    ensures Inv(w')
  {
    hide ValidDraft, CallerOk, PostMessage, Numbered, MessageId, Inv;
    var phase := w.calls[caller];
    InvPart(w, caller);
    assert w.log == [];
    var e := Entry(Some(caller), phase.genesis, AtGenesis);
    assert w'.log == [e];
    GenesisPhase(w', caller, phase.job, phase.genesis);
    RefMoves(w, w', caller, w'.calls[caller], e);
  }

  /** A post built on the head is the next entry of the list. */
  lemma NewEntryOk(store: Store<TreeId>, list: Option<Oid>, log: seq<Entry>, e: Entry)
    requires ValidStore(store) && LogOk(store, list, log) && log != [] && list.value < |store|
    requires e.commit < |store| && e.origin.OfPost? && ValidDraft(e.origin.d)
    requires store[e.commit] == PostCommit(store, e.origin.d, list.value)
    ensures EntryOk(store, log + [e], |log|)
  {
    hide ValidDraft, PostMessage, Numbered, Chain;
    var n := |log|;
    ChainIsLog(store, list, log, n - 1);
    assert EntryOk(store, log, n - 1);
    assert log[..n] == log && (log + [e])[n] == e && (log + [e])[n - 1] == log[n - 1];
  }

  lemma MoveToPost(w: World, caller: nat, w': World)
    requires Inv(w) && caller in w.calls && w.calls[caller].Swapping? && Move(w, caller, w')
    ensures Inv(w')
  {
    hide ValidDraft, CallerOk, PostMessage, Numbered, MessageId, Inv, OnList, EntryOk, PostCommit;
    var phase := w.calls[caller];
    var n := |w.log|;
    InvPart(w, caller);
    var e := Entry(Some(caller), phase.commit, OfPost(phase.d));
    NewEntryOk(w.store, w.list, w.log, e);
    assert w'.log[n] == e;
    ChainIsLog(w.store, w.list, w.log, n - 1);
    assert w.log[..n] == w.log;
    assert IsPostedAs(w'.log, n, caller, phase.commit, MessageId(phase.d.kind, phase.d.coordinate, n));
    RefMoves(w, w', caller, w'.calls[caller], e);
  }

  lemma InvPart(w: World, caller: nat)
    requires Inv(w) && caller in w.calls
    ensures ValidStore(w.store) && LogOk(w.store, w.list, w.log) && PhaseOk(w.store, w.log, caller, w.calls[caller])
    ensures w.list.None? <==> w.log == []
  {
    hide PhaseOk, CallerOk;
  }

  lemma MoveStep(w: World, caller: nat, w': World)
    requires Inv(w) && caller in w.calls && Move(w, caller, w')
    ensures Inv(w')
  {
    hide Inv;
    assert ValidStore(w.store) by { InvHasStore(w); }
    if w.calls[caller].EnsureSwap? { MoveToGenesis(w, caller, w'); } else { MoveToPost(w, caller, w'); }
  }

  lemma GenesisPhase(w': World, caller: nat, job: Job, genesis: Oid)
    requires ValidStore(w'.store) && ValidJob(job) && genesis < |w'.store|
    requires w'.log == [Entry(Some(caller), genesis, AtGenesis)]
    ensures PhaseOk(w'.store, w'.log, caller, AfterEnsure(job, true, genesis))
  {
    hide ValidDraft;
    assert w'.log[0].commit == genesis;
    assert IsGenesisOf(w'.log, 0, caller, genesis);
  }

  lemma CallStep(w: World, caller: nat, job: Job, w': World)
    requires Inv(w) && (w.list.Some? ==> w.list.value < |w.store|) && Next(w, Call(caller, job), w')
    ensures Inv(w')
  {
    hide LogOk, CallerOk, ValidDraft;
    PhaseChange(w, w', caller, EnsureRead(job));
  }

  lemma StepKeepsInvariant(w: World, action: Action, w': World)
    requires Inv(w) && (w.list.Some? ==> w.list.value < |w.store|) && Next(w, action, w')
    ensures Inv(w')
  {
    hide LogOk, PhaseOk, CallerOk, Quiet, Move, MakeCommit;
    match action
    case Call(caller, job) => CallStep(w, caller, job, w');
    case Step(caller) =>
      if Quiet(w.store, w.list, w.calls[caller]).Some? {
        QuietStep(w, caller, w');
      } else {
        MoveStep(w, caller, w');
      }
    case Commit(caller, seed, commit, after) => CommitStep(w, caller, seed, commit, w');
  }

  // Runs

  lemma RefInStore(w: World)
    requires Inv(w)
    ensures w.list.Some? ==> w.list.value < |w.store|
  {
    hide PhaseOk, CallerOk;
    if w.list.Some? { TipOnList(w); }
  }

  predicate StepOk(w: World, action: Action, w': World) {
    ValidStore(w.store) && (w.list.Some? ==> w.list.value < |w.store|) && Next(w, action, w')
  }

  predicate IsRun(worlds: seq<World>, actions: seq<Action>) {
    && |worlds| == |actions| + 1
    && Initial(worlds[0])
    && forall i :: 0 <= i < |actions| ==> StepOk(worlds[i], actions[i], worlds[i + 1])
  }

  lemma {:induction false} RunKeepsInvariant(worlds: seq<World>, actions: seq<Action>, n: nat)
    requires IsRun(worlds, actions) && n < |worlds|
    ensures Inv(worlds[n])
  {
    hide Inv, Initial, Next;
    if n == 0 {
      InitialHolds(worlds[0]);
    } else {
      RunKeepsInvariant(worlds, actions, n - 1);
      assert StepOk(worlds[n - 1], actions[n - 1], worlds[n]);
      StepKeepsInvariant(worlds[n - 1], actions[n - 1], worlds[n]);
    }
  }

  lemma InitialHolds(w: World)
    requires Initial(w)
    ensures Inv(w)
  {
    hide LogOk, PhaseOk;
  }

  lemma StepOnlyAppends(w: World, action: Action, w': World)
    requires Inv(w) && StepOk(w, action, w')
    ensures w.log <= w'.log && Extends(w'.store, w.store)
  {
    hide LogOk, PhaseOk, CallerOk, Quiet, PostMessage, GenesisMessage, MessageId;
  }

  lemma LogOfInv(w: World)
    requires Inv(w)
    ensures ValidStore(w.store) && LogOk(w.store, w.list, w.log)
  {
    hide PhaseOk, CallerOk;
  }

  /** The list of a log, oldest first. */
  lemma ListIsLog(w: World)
    requires Inv(w) && w.list.Some?
    ensures ValidStore(w.store) && w.list.value < |w.store| && w.log != []
    ensures Chain(w.store, w.list.value) == Commits(w.log)
    ensures forall i :: 0 <= i < |w.log| ==> w.log[i].commit < |w.store|
  {
    hide PhaseOk, CallerOk, EntryOk;
    RefInStore(w);
    ChainIsLog(w.store, w.list, w.log, |w.log| - 1);
    assert w.log[..|w.log|] == w.log;
    ChainInStore(w.store, w.list.value);
    assert forall i :: 0 <= i < |w.log| ==> Commits(w.log)[i] == w.log[i].commit;
  }

  /** The list only grows: at every later moment it is what it was plus later entries, so its old
      head is still on it. */
  lemma {:induction false} ListOnlyGrows(worlds: seq<World>, actions: seq<Action>, m: nat, n: nat)
    requires IsRun(worlds, actions) && m <= n < |worlds|
    ensures worlds[m].log <= worlds[n].log && Extends(worlds[n].store, worlds[m].store)
    decreases n - m
  {
    hide Inv, Initial, Next, LogOk;
    if m < n {
      ListOnlyGrows(worlds, actions, m, n - 1);
      RunKeepsInvariant(worlds, actions, n - 1);
      StepOnlyAppends(worlds[n - 1], actions[n - 1], worlds[n]);
    }
  }

  /** In every reachable world the list is one first-parent chain: its root is a parentless genesis,
      every later commit is a post on its predecessor, all carry the empty tree, and a post's sequence
      is its position. */
  lemma ListIsOneChain(worlds: seq<World>, actions: seq<Action>, n: nat, i: nat)
    requires IsRun(worlds, actions) && n < |worlds| && i < |worlds[n].log|
    ensures var w := worlds[n];
            && w.list.Some? && w.list.value < |w.store| && ValidStore(w.store)
            && |Chain(w.store, w.list.value)| == |w.log|
            && Chain(w.store, w.list.value)[i] == w.log[i].commit
            && EntryOk(w.store, w.log, i)
  {
    hide IsRun, PhaseOk, CallerOk, EntryOk;
    var w := worlds[n];
    RunKeepsInvariant(worlds, actions, n);
    RefInStore(w);
    ChainIsLog(w.store, w.list, w.log, |w.log| - 1);
    assert w.log[..|w.log|] == w.log;
  }

  /** No two posts of a list carry the same Message-Id. */
  lemma MessageIdsAreUnique(worlds: seq<World>, actions: seq<Action>, n: nat, i: nat, j: nat)
    requires IsRun(worlds, actions) && n < |worlds| && 0 < i < j < |worlds[n].log|
    ensures worlds[n].log[i].origin.OfPost? && worlds[n].log[j].origin.OfPost?
    ensures var (a, b) := (worlds[n].log[i].origin.d, worlds[n].log[j].origin.d);
            Numbered(a, i).messageId != Numbered(b, j).messageId
  {
    hide IsRun, MessageId;
    ListIsOneChain(worlds, actions, n, i);
    ListIsOneChain(worlds, actions, n, j);
    var (a, b) := (worlds[n].log[i].origin.d, worlds[n].log[j].origin.d);
    if Numbered(a, i).messageId == Numbered(b, j).messageId {
      MessageIdInjective(a.kind, a.coordinate, i, b.kind, b.coordinate, j);
    }
  }

  /** Entry i is the only one with this commit and the caller's only post. */
  predicate OnlyPost(log: seq<Entry>, i: nat, caller: nat, commit: Oid, messageId: Text) {
    && IsPostedAs(log, i, caller, commit, messageId)
    && forall j :: 0 <= j < |log| && j != i ==>
         log[j].commit != commit && !(log[j].caller == Some(caller) && log[j].origin.OfPost?)
  }

  /** The one action that started the caller's post, and its draft. */
  predicate IsTheCall(actions: seq<Action>, caller: nat, d: Draft) {
    exists m :: 0 <= m < |actions| && IsOnlyCall(actions, m, caller, d)
  }

  predicate IsOnlyCall(actions: seq<Action>, m: nat, caller: nat, d: Draft) {
    && m < |actions| && actions[m] == Call(caller, BeforePost(d))
    && forall k :: 0 <= k < |actions| && actions[k].Call? && actions[k].caller == caller ==> k == m
  }

  function DraftOfJob(job: Job): Option<Draft> {
    if job.EnsureOnly? then None else Some(job.d)
  }

  function DraftOf(phase: Phase): Option<Draft> {
    match phase
    case EnsureRead(job) => DraftOfJob(job)
    case EnsureCommit(job) => DraftOfJob(job)
    case EnsureSwap(job, _) => DraftOfJob(job)
    case EnsureReread(job) => DraftOfJob(job)
    case Attempting(d, _) => Some(d)
    case Checking(d, _, _) => Some(d)
    case Committing(d, _, _) => Some(d)
    case Swapping(d, _, _, _) => Some(d)
    case Done(_) => None
  }

  /** An entry that a call of this run made. */
  predicate EntryIsCalled(w: World, actions: seq<Action>, e: Entry) {
    e.caller.Some? && e.origin.OfPost? ==> e.caller.value in w.calls && IsTheCall(actions, e.caller.value, e.origin.d)
  }

  /** Every call under way, and every post that one has made, is of the draft it was called with. */
  predicate DraftsOk(w: World, actions: seq<Action>) {
    && (forall k :: 0 <= k < |actions| && actions[k].Call? ==> actions[k].caller in w.calls)
    && (forall caller :: caller in w.calls && DraftOf(w.calls[caller]).Some? ==>
          IsTheCall(actions, caller, DraftOf(w.calls[caller]).value))
    && forall i :: 0 <= i < |w.log| ==> EntryIsCalled(w, actions, w.log[i])
  }

  lemma CallStays(actions: seq<Action>, action: Action, caller: nat, d: Draft)
    requires IsTheCall(actions, caller, d) && (action.Call? ==> action.caller != caller)
    ensures IsTheCall(actions + [action], caller, d)
  {
    var m :| 0 <= m < |actions| && IsOnlyCall(actions, m, caller, d);
    assert IsOnlyCall(actions + [action], m, caller, d);
  }

  lemma QuietKeepsDraft(store: Store<TreeId>, list: Option<Oid>, phase: Phase)
    requires ValidStore(store) && (list.Some? ==> list.value < |store|) && Quiet(store, list, phase).Some?
    ensures var next := DraftOf(Quiet(store, list, phase).value); next.Some? ==> next == DraftOf(phase)
  {
    hide SearchItem, QaItem;
  }

  /** What a step does to one call's draft and to the log. */
  lemma StepKeepsDraft(w: World, action: Action, w': World, caller: nat)
    requires StepOk(w, action, w') && caller in w'.calls && DraftOf(w'.calls[caller]).Some?
    ensures caller in w.calls ==> DraftOf(w'.calls[caller]) == DraftOf(w.calls[caller])
    ensures caller !in w.calls ==> action == Call(caller, BeforePost(DraftOf(w'.calls[caller]).value))
    ensures w.calls.Keys <= w'.calls.Keys
  {
    hide Quiet, PostCommit, GenesisMessage, MessageId;
    if action.Step? && Quiet(w.store, w.list, w.calls[action.caller]).Some? {
      QuietKeepsDraft(w.store, w.list, w.calls[action.caller]);
    }
  }

  lemma StepKeepsLog(w: World, action: Action, w': World)
    requires StepOk(w, action, w')
    ensures w.calls.Keys <= w'.calls.Keys && (action.Call? ==> action.caller !in w.calls && action.caller in w'.calls)
    ensures w'.log == w.log || (exists e :: w'.log == w.log + [e] && action.Step? && action.caller in w.calls
                                        && e.caller == Some(action.caller)
                                        && (e.origin.OfPost? ==> DraftOf(w.calls[action.caller]) == Some(e.origin.d)))
  {
    hide Quiet, PostCommit, GenesisMessage, MessageId;
  }

  lemma StepKeepsDrafts(w: World, actions: seq<Action>, action: Action, w': World)
    requires DraftsOk(w, actions) && StepOk(w, action, w')
    ensures DraftsOk(w', actions + [action])
  {
    hide IsTheCall, StepOk;
    var acts := actions + [action];
    StepKeepsLog(w, action, w');
    forall caller | caller in w'.calls && DraftOf(w'.calls[caller]).Some?
      ensures IsTheCall(acts, caller, DraftOf(w'.calls[caller]).value)
    {
      StepKeepsDraft(w, action, w', caller);
      var d := DraftOf(w'.calls[caller]).value;
      if caller in w.calls {
        CallStays(actions, action, caller, d);
      } else {
        OnlyCallIsIt(acts, |actions|, caller, d);
      }
    }
    forall i | 0 <= i < |w'.log| ensures EntryIsCalled(w', acts, w'.log[i]) {
      var e := w'.log[i];
      if e.caller.Some? && e.origin.OfPost? {
        if i < |w.log| { assert EntryIsCalled(w, actions, w.log[i]); }
        CallStays(actions, action, e.caller.value, e.origin.d);
      }
    }
  }

  lemma OnlyCallIsIt(actions: seq<Action>, m: nat, caller: nat, d: Draft)
    requires IsOnlyCall(actions, m, caller, d)
    ensures IsTheCall(actions, caller, d)
  {
  }

  lemma {:induction false} RunKeepsDrafts(worlds: seq<World>, actions: seq<Action>, n: nat)
    requires IsRun(worlds, actions) && n < |worlds|
    ensures DraftsOk(worlds[n], actions[..n])
  {
    hide StepOk, DraftsOk;
    if n == 0 {
      assert actions[..0] == [];
      assert DraftsOk(worlds[0], []) by { NothingDrafted(worlds[0]); }
    } else {
      RunKeepsDrafts(worlds, actions, n - 1);
      assert StepOk(worlds[n - 1], actions[n - 1], worlds[n]);
      StepKeepsDrafts(worlds[n - 1], actions[..n - 1], actions[n - 1], worlds[n]);
      assert actions[..n - 1] + [actions[n - 1]] == actions[..n];
    }
  }

  lemma NothingDrafted(w: World)
    requires Initial(w)
    ensures DraftsOk(w, [])
  {
  }

  /** A successful post that found nothing existing is exactly one commit of the list, of the draft that the
      caller posted; every other call, and every call still under way, has posted none. */
  lemma ResultsMatchPosts(worlds: seq<World>, actions: seq<Action>, n: nat, caller: nat)
    requires IsRun(worlds, actions) && n < |worlds| && caller in worlds[n].calls
    ensures var (log, phase) := (worlds[n].log, worlds[n].calls[caller]);
            match phase
            case Done(Posted(commit, messageId)) =>
              exists i :: 0 <= i < |log| && OnlyPost(log, i, caller, commit, messageId)
                       && IsTheCall(actions[..n], caller, log[i].origin.d)
            case _ => forall i :: 0 <= i < |log| ==> !(log[i].caller == Some(caller) && log[i].origin.OfPost?)
  {
    var (w, acts) := (worlds[n], actions[..n]);
    hide IsRun, LogOk, MessageId, ValidDraft, IsTheCall;
    RunKeepsInvariant(worlds, actions, n);
    RunKeepsDrafts(worlds, actions, n);
    var phase := w.calls[caller];
    assert PhaseOk(w.store, w.log, caller, phase);
    if phase.Done? && phase.outcome.Posted? {
      var (commit, messageId) := (phase.outcome.commit, phase.outcome.messageId);
      var i :| 0 <= i < |w.log| && IsPostedAs(w.log, i, caller, commit, messageId);
      forall j | 0 <= j < |w.log| && j != i
        ensures w.log[j].commit != commit && !(w.log[j].caller == Some(caller) && w.log[j].origin.OfPost?)
      {
        if i < j { ListedAscend(w.store, w.list, w.log, i, j); } else { ListedAscend(w.store, w.list, w.log, j, i); }
        assert CallerOk(w, j);
      }
      assert OnlyPost(w.log, i, caller, commit, messageId);
      assert EntryIsCalled(w, acts, w.log[i]);
    } else {
      forall i | 0 <= i < |w.log| ensures !(w.log[i].caller == Some(caller) && w.log[i].origin.OfPost?) {
        assert CallerOk(w, i);
      }
    }
  }

  // One qa post per item

  /** The draft will be read, but filed under another item than its caller named, or under none. */
  predicate Misfiled(d: Draft) {
    ReadsBackNumbered(Unnumbered(d)) && FiledItem(d) != QaItem(d)
  }

  /** An entry that keeps any search for the item from coming back empty: its message is filed under the
      item, or cannot be read at all. */
  predicate Blocks(e: Entry, item: Text) {
    e.origin.OfPost? && (ReadsBackNumbered(Unnumbered(e.origin.d)) ==> FiledItem(e.origin.d) == Some(item))
  }

  /** No entry up to the expected one blocks the draft's item. */
  predicate Unblocked(log: seq<Entry>, expected: Oid, d: Draft) {
    QaItem(d).Some? ==>
      forall i, j :: 0 <= i <= j < |log| && log[j].commit == expected ==> !Blocks(log[i], QaItem(d).value)
  }

  predicate TidyPhase(log: seq<Entry>, phase: Phase) {
    match phase
    case Committing(d, _, expected) => Unblocked(log, expected, d)
    case Swapping(d, _, expected, _) => Unblocked(log, expected, d)
    case Done(Existing(commit, item)) => exists i :: 0 <= i < |log| && IsFiled(log, i, commit, item)
    case _ => true
  }

  predicate IsFiled(log: seq<Entry>, i: nat, commit: Oid, item: Text) {
    && i < |log| && log[i].commit == commit && log[i].origin.OfPost?
    && ReadsBackNumbered(Unnumbered(log[i].origin.d)) && FiledItem(log[i].origin.d) == Some(item)
  }

  /** No post whose item an earlier entry blocks. */
  predicate TidyLog(log: seq<Entry>) {
    forall i, j :: 0 <= i < j < |log| && log[j].origin.OfPost? && QaItem(log[j].origin.d).Some? ==>
      !Blocks(log[i], QaItem(log[j].origin.d).value)
  }

  predicate Tidy(w: World) {
    TidyLog(w.log) && forall caller :: caller in w.calls ==> TidyPhase(w.log, w.calls[caller])
  }

  /** How the messages of the list read, from the drafts in the log. */
  lemma ItemOnList(w: World, i: nat)
    requires LogOk(w.store, w.list, w.log) && i < |w.log|
    ensures w.log[i].commit < |w.store|
    ensures var message := w.store[w.log[i].commit].message;
            && (w.log[i].origin.AtGenesis? ==> Parse(message).Genesis? && ItemOf(message) == None)
            && (w.log[i].origin.OfPost? ==>
                  && (Parse(message).Read? <==> ReadsBackNumbered(Unnumbered(w.log[i].origin.d)))
                  && (Parse(message).Malformed? <==> !ReadsBackNumbered(Unnumbered(w.log[i].origin.d)))
                  && ItemOf(message) == if Parse(message).Read? then FiledItem(w.log[i].origin.d) else None)
  {
    hide PostMessage, Numbered, ValidDraft, ReadsBackNumbered, FiledItem;
    assert EntryOk(w.store, w.log, i);
    if i == 0 {
      GenesisIsRead(w.store[w.log[0].commit].message);
    } else {
      hide Parse, ItemOf;
      FiledExactly(w.log[i].origin.d, i);
    }
  }

  lemma GenesisIsRead(message: Text)
    requires GENESIS <= message
    ensures Parse(message).Genesis? && ItemOf(message) == None
  {
    StripKeepsGenesis(message);
  }

  lemma {:induction false} StripKeepsGenesis(message: Text)
    requires GENESIS <= message
    ensures GENESIS <= StripNewlines(message)
  {
    assert GENESIS[|GENESIS| - 1] == 0x73;
    assert message[|GENESIS| - 1] == GENESIS[|GENESIS| - 1];
    if message[|message| - 1] == NEWLINE {
      assert message[..|message| - 1][..|GENESIS|] == message[..|GENESIS|] == GENESIS;
      StripKeepsGenesis(message[..|message| - 1]);
    }
  }

  lemma UnblockedStable(store: Store<TreeId>, list: Option<Oid>, log: seq<Entry>, e: Entry, expected: Oid, d: Draft)
    requires ValidStore(store) && LogOk(store, list, log + [e]) && OnList(log, expected) && Unblocked(log, expected, d)
    ensures Unblocked(log + [e], expected, d)
  {
    hide LogOk, QaItem, Blocks;
    var k :| 0 <= k < |log| && log[k].commit == expected;
    ListedAscend(store, list, log + [e], k, |log|);
  }

  lemma TidyPhaseStable(w: World, w': World, e: Entry, caller: nat)
    requires Inv(w) && Inv(w') && caller in w.calls && w'.log == w.log + [e]
    requires TidyPhase(w.log, w.calls[caller])
    ensures TidyPhase(w'.log, w.calls[caller])
  {
    hide LogOk, QaItem, ReadsBackNumbered, FiledItem, CallerOk, Unblocked;
    assert PhaseOk(w.store, w.log, caller, w.calls[caller]);
    match w.calls[caller]
    case Committing(d, _, expected) => UnblockedStable(w'.store, w'.list, w.log, e, expected, d);
    case Swapping(d, _, expected, _) => UnblockedStable(w'.store, w'.list, w.log, e, expected, d);
    case Done(Existing(commit, item)) =>
      var i :| 0 <= i < |w.log| && IsFiled(w.log, i, commit, item);
      assert IsFiled(w'.log, i, commit, item);
    case _ =>
  }

  lemma TidySearch(w: World, caller: nat)
    requires Inv(w) && caller in w.calls && w.calls[caller].Checking?
    requires w.list.Some? ==> w.list.value < |w.store|
    ensures Quiet(w.store, w.list, w.calls[caller]).Some?
    ensures TidyPhase(w.log, Quiet(w.store, w.list, w.calls[caller]).value)
  {
    hide LogOk, QaItem, ReadsBackNumbered, FiledItem, CallerOk, PhaseOk, ItemOf, SearchItem, Parse;
    var d := w.calls[caller].d;
    if QaItem(d).Some? && w.list.Some? {
      var item := QaItem(d).value;
      FoundOnList(w, item);
      var search := SearchItem(w.store, Chain(w.store, w.list.value), item);
      if search.Found? {
        var i :| 0 <= i < |w.log| && w.log[i].commit == search.commit;
        ItemOnList(w, i);
        assert IsFiled(w.log, i, search.commit, item);
      } else if search.Absent? {
        forall i | 0 <= i < |w.log| ensures !Blocks(w.log[i], item) { ItemOnList(w, i); }
      }
    } else if w.list.None? {
      assert w.log == [] by { EmptyLog(w); }
    }
  }

  lemma EmptyLog(w: World)
    requires Inv(w) && w.list.None?
    ensures w.log == []
  {
  }

  lemma TidyQuiet(w: World, caller: nat)
    requires Inv(w) && Tidy(w) && caller in w.calls && (w.list.Some? ==> w.list.value < |w.store|)
    requires Quiet(w.store, w.list, w.calls[caller]).Some?
    ensures TidyPhase(w.log, Quiet(w.store, w.list, w.calls[caller]).value)
  {
    hide Inv, QaItem, SearchItem, Unblocked;
    assert TidyPhase(w.log, w.calls[caller]);
    if w.calls[caller].Checking? { TidySearch(w, caller); }
  }

  lemma TidyLogGrows(w: World, e: Entry, caller: nat)
    requires Inv(w) && Tidy(w) && caller in w.calls
    requires e.origin.OfPost? ==>
      && w.calls[caller].Swapping? && w.calls[caller].d == e.origin.d && w.list == Some(w.calls[caller].expected)
    ensures TidyLog(w.log + [e])
  {
    hide PhaseOk, CallerOk, QaItem, Blocks, EntryOk;
    assert TidyPhase(w.log, w.calls[caller]);
    var log := w.log + [e];
    var n := |w.log|;
    if e.origin.OfPost? {
      assert Unblocked(w.log, w.log[n - 1].commit, e.origin.d);
    }
    forall i, j | 0 <= i < j < |log| && log[j].origin.OfPost? && QaItem(log[j].origin.d).Some?
      ensures !Blocks(log[i], QaItem(log[j].origin.d).value)
    {
      if j == n { assert w.log[i] == log[i] && i <= n - 1; }
    }
  }

  lemma TidyMove(w: World, caller: nat, w': World)
    requires Inv(w) && Inv(w') && Tidy(w) && caller in w.calls && Move(w, caller, w')
    ensures Tidy(w')
  {
    hide Inv, QaItem, Blocks, Unblocked, TidyLog, MessageId, PostMessage;
    assert ValidStore(w.store) by { InvHasStore(w); }
    assert TidyPhase(w.log, w.calls[caller]);
    var e := w'.log[|w.log|];
    assert w'.log == w.log + [e];
    TidyLogGrows(w, e, caller);
    forall c | c in w'.calls ensures TidyPhase(w'.log, w'.calls[c]) {
      if c != caller { TidyPhaseStable(w, w', e, c); }
    }
  }

  lemma InvHasStore(w: World)
    requires Inv(w)
    ensures ValidStore(w.store)
  {
  }

  lemma StepKeepsTidy(w: World, action: Action, w': World)
    requires Inv(w) && Inv(w') && Tidy(w) && StepOk(w, action, w')
    ensures Tidy(w')
  {
    hide Inv, Quiet, Move, Blocks, Unblocked, TidyLog, PostMessage, QaItem;
    match action
    case Step(caller) =>
      if Quiet(w.store, w.list, w.calls[caller]).Some? { TidyQuiet(w, caller); } else { TidyMove(w, caller, w'); }
    case Commit(caller, seed, commit, after) =>
      assert TidyPhase(w.log, w.calls[caller]);
    case _ =>
  }

  lemma {:induction false} RunStaysTidy(worlds: seq<World>, actions: seq<Action>, n: nat)
    requires IsRun(worlds, actions) && n < |worlds| && TidyLog(worlds[0].log)
    ensures Tidy(worlds[n])
  {
    hide Next, LogOk, TidyLog;
    if n > 0 {
      RunStaysTidy(worlds, actions, n - 1);
      RunKeepsInvariant(worlds, actions, n - 1);
      RunKeepsInvariant(worlds, actions, n);
      assert StepOk(worlds[n - 1], actions[n - 1], worlds[n]);
      StepKeepsTidy(worlds[n - 1], actions[n - 1], worlds[n]);
    }
  }

  /** Whatever is posted, and however many posters and harvesters run at once: a second qa post for an item
      can only follow one that was misfiled. In particular no two settled posts are filed under one item. */
  lemma OneQaPostPerItem(worlds: seq<World>, actions: seq<Action>, n: nat, i: nat, j: nat)
    requires IsRun(worlds, actions) && n < |worlds| && TidyLog(worlds[0].log)
    requires i < j < |worlds[n].log| && worlds[n].log[i].origin.OfPost? && worlds[n].log[j].origin.OfPost?
    ensures var (w, a, b) := (worlds[n], worlds[n].log[i].origin.d, worlds[n].log[j].origin.d);
            && (QaItem(a).Some? && QaItem(a) == QaItem(b) ==> Misfiled(a))
            && w.log[i].commit < |w.store| && w.log[j].commit < |w.store|
            && var (left, right) := (ItemOf(w.store[w.log[i].commit].message), ItemOf(w.store[w.log[j].commit].message));
            (left.Some? && left == right ==> Misfiled(a) || Misfiled(b))
  {
    hide IsRun, Parse, ItemOf, QaItem, ReadsBackNumbered, FiledItem, LogOk, PhaseOk, CallerOk;
    var w := worlds[n];
    RunKeepsInvariant(worlds, actions, n);
    RunStaysTidy(worlds, actions, n);
    ItemOnList(w, i);
    ItemOnList(w, j);
    TidyAt(w.log, i, j);
  }

  /** Once a post that cannot be read is listed, no post that names one item follows it. */
  lemma MalformedPostIsLast(worlds: seq<World>, actions: seq<Action>, n: nat, i: nat, j: nat)
    requires IsRun(worlds, actions) && n < |worlds| && TidyLog(worlds[0].log)
    requires i < j < |worlds[n].log| && worlds[n].log[i].origin.OfPost? && worlds[n].log[j].origin.OfPost?
    requires !ReadsBackNumbered(Unnumbered(worlds[n].log[i].origin.d))
    ensures QaItem(worlds[n].log[j].origin.d).None?
  {
    hide IsRun, QaItem, ReadsBackNumbered, FiledItem;
    RunStaysTidy(worlds, actions, n);
    TidyAt(worlds[n].log, i, j);
  }

  lemma TidyAt(log: seq<Entry>, i: nat, j: nat)
    requires TidyLog(log) && i < j < |log| && log[j].origin.OfPost?
    ensures QaItem(log[j].origin.d).Some? ==> !Blocks(log[i], QaItem(log[j].origin.d).value)
  {
    hide QaItem, Blocks;
  }
}
