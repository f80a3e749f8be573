/** Why a post fails, and that a post with nobody in its way goes through. */
module MailProgress {
  import opened Prelude
  import opened Utf8
  import opened PyText
  import opened MailMessage
  import opened MailSeparators
  import opened Git
  import opened MailList
  import opened MailDuplicates

  // Reasons

  /** How many entries behind the first `from` ones are other callers'. */
  function Others(log: seq<MailList.Entry>, from: nat, caller: nat): nat {
    if |log| <= from then 0
    else Others(log[..|log| - 1], from, caller) + if log[|log| - 1].caller != Some(caller) then 1 else 0
  }

  lemma {:induction false} OthersGrow(log: seq<MailList.Entry>, more: seq<MailList.Entry>, from: nat, caller: nat)
    requires log <= more
    ensures Others(log, from, caller) <= Others(more, from, caller)
    decreases |more|
  {
    if |log| == |more| {
      assert log == more;
    } else {
      assert log <= more[..|more| - 1];
      OthersGrow(log, more[..|more| - 1], from, caller);
    }
  }

  predicate CalledAt(actions: seq<Action>, m: nat, caller: nat) {
    m < |actions| && actions[m].Call? && actions[m].caller == caller
  }

  /** The caller's commit could not be made. */
  predicate CommitFailed(actions: seq<Action>, n: nat, caller: nat) {
    exists k :: 0 <= k < n && k < |actions| && actions[k].Commit? && actions[k].caller == caller && actions[k].seed.None?
  }

  predicate HoldsMalformed(w: World) {
    exists i :: 0 <= i < |w.log| && w.log[i].commit < |w.store| && Parse(w.store[w.log[i].commit].message).Malformed?
  }

  /** The caller posts for an item, and took a step while the list held a message that cannot be read. */
  predicate SearchFailed(worlds: seq<World>, actions: seq<Action>, m: nat, n: nat, caller: nat)
    requires CalledAt(actions, m, caller)
  {
    && actions[m].job.BeforePost? && QaItem(actions[m].job.d).Some?
    && exists k :: m < k < n && k < |actions| && k < |worlds| && actions[k] == Step(caller) && HoldsMalformed(worlds[k])
  }

  /** Why the call that was made by action m has failed before world n. */
  predicate FailedFor(worlds: seq<World>, actions: seq<Action>, m: nat, n: nat, caller: nat)
    requires CalledAt(actions, m, caller) && m < n < |worlds|
  {
    || CommitFailed(actions, n, caller)
    || SearchFailed(worlds, actions, m, n, caller)
    || (actions[m].job.BeforePost? && Others(worlds[n].log, |worlds[m].log|, caller) >= APPEND_ATTEMPTS)
  }

  // What each phase says about the attempts so far

  /** The commit is listed no earlier than the head that the call found, with so many other entries up to it. */
  predicate ListedBehind(log: seq<MailList.Entry>, from: nat, caller: nat, attempt: nat, c: Oid) {
    exists j :: 0 <= j < |log| && from <= j + 1 && log[j].commit == c && Others(log[..j + 1], from, caller) >= attempt
  }

  function AttemptOf(job: Job): nat {
    if job.WithinPost? then job.attempt else 0
  }

  predicate JobIs(job: Job, called: Job) {
    match job
    case EnsureOnly => called.EnsureOnly?
    case BeforePost(d) => called == BeforePost(d)
    case WithinPost(d, _) => called == BeforePost(d)
  }

  predicate Explained(worlds: seq<World>, actions: seq<Action>, m: nat, n: nat, caller: nat, phase: Phase)
    requires CalledAt(actions, m, caller) && m < n < |worlds|
  {
    var (log, from, called) := (worlds[n].log, |worlds[m].log|, actions[m].job);
    match phase
    case EnsureRead(job) => JobIs(job, called) && Others(log, from, caller) >= AttemptOf(job)
    case EnsureCommit(job) => JobIs(job, called) && Others(log, from, caller) >= AttemptOf(job)
    case EnsureSwap(job, _) => JobIs(job, called) && Others(log, from, caller) >= AttemptOf(job)
    case EnsureReread(job) => JobIs(job, called) && Others(log, from, caller) >= AttemptOf(job) && worlds[n].list.Some?
    case Attempting(d, attempt) => called == BeforePost(d) && Others(log, from, caller) >= attempt
    case Checking(d, attempt, expected) => called == BeforePost(d) && ListedBehind(log, from, caller, attempt, expected)
    case Committing(d, attempt, expected) => called == BeforePost(d) && ListedBehind(log, from, caller, attempt, expected)
    case Swapping(d, attempt, expected, _) => called == BeforePost(d) && ListedBehind(log, from, caller, attempt, expected)
    case Done(Failed) => FailedFor(worlds, actions, m, n, caller)
    case Done(_) => true
  }

  lemma ListedBehindGrows(log: seq<MailList.Entry>, more: seq<MailList.Entry>, from: nat, caller: nat, attempt: nat, c: Oid)
    requires log <= more && ListedBehind(log, from, caller, attempt, c)
    ensures ListedBehind(more, from, caller, attempt, c)
  {
    var j :| 0 <= j < |log| && from <= j + 1 && log[j].commit == c && Others(log[..j + 1], from, caller) >= attempt;
    assert more[..j + 1] == log[..j + 1];
  }

  /** An explanation outlives steps that leave the phase alone. */
  lemma ExplainedLater(worlds: seq<World>, actions: seq<Action>, m: nat, n: nat, caller: nat, phase: Phase)
    requires CalledAt(actions, m, caller) && m < n < n + 1 < |worlds|
    requires worlds[n].log <= worlds[n + 1].log && (worlds[n].list.Some? ==> worlds[n + 1].list.Some?)
    requires Explained(worlds, actions, m, n, caller, phase)
    ensures Explained(worlds, actions, m, n + 1, caller, phase)
  {
    hide Others, ListedBehind, HoldsMalformed, QaItem;
    OthersGrow(worlds[n].log, worlds[n + 1].log, |worlds[m].log|, caller);
    match phase
    case Checking(d, attempt, expected) => ListedBehindGrows(worlds[n].log, worlds[n + 1].log, |worlds[m].log|, caller, attempt, expected);
    case Committing(d, attempt, expected) => ListedBehindGrows(worlds[n].log, worlds[n + 1].log, |worlds[m].log|, caller, attempt, expected);
    case Swapping(d, attempt, expected, _) => ListedBehindGrows(worlds[n].log, worlds[n + 1].log, |worlds[m].log|, caller, attempt, expected);
    case _ =>
  }

  /** The head of the list is listed behind every other entry. */
  lemma HeadIsBehind(w: World, from: nat, caller: nat, attempt: nat)
    requires Inv(w) && w.list.Some? && from <= |w.log| && Others(w.log, from, caller) >= attempt
    ensures ListedBehind(w.log, from, caller, attempt, w.list.value)
  {
    hide PhaseOk, CallerOk, EntryOk, Others;
    var n := |w.log|;
    assert w.log[..n] == w.log;
    assert w.log[n - 1].commit == w.list.value;
  }

  /** A head that is not the expected one is another caller's entry behind it. */
  lemma LostToAnother(w: World, from: nat, caller: nat, attempt: nat, expected: Oid)
    requires Inv(w) && caller in w.calls && w.calls[caller].Swapping? && w.calls[caller].expected == expected
    requires w.list != Some(expected) && ListedBehind(w.log, from, caller, attempt, expected)
    ensures Others(w.log, from, caller) >= attempt + 1
  {
    hide PhaseOk, EntryOk, Others;
    var n := |w.log|;
    var j :| 0 <= j < n && from <= j + 1 && w.log[j].commit == expected && Others(w.log[..j + 1], from, caller) >= attempt;
    assert w.list == Some(w.log[n - 1].commit);
    assert j < n - 1;
    assert CallerOk(w, n - 1);
    assert w.log[n - 1].origin.OfPost? by { LastIsPost(w); }
    assert w.log[..j + 1] <= w.log[..n - 1];
    OthersGrow(w.log[..j + 1], w.log[..n - 1], from, caller);
    OneMoreOther(w.log, from, caller);
  }

  lemma OneMoreOther(log: seq<MailList.Entry>, from: nat, caller: nat)
    requires from < |log| && log[|log| - 1].caller != Some(caller)
    ensures Others(log, from, caller) == Others(log[..|log| - 1], from, caller) + 1
  {
  }

  lemma LastIsPost(w: World)
    requires Inv(w) && |w.log| > 1
    ensures w.log[|w.log| - 1].origin.OfPost?
  {
    hide PhaseOk, CallerOk;
    assert EntryOk(w.store, w.log, |w.log| - 1);
  }

  // Every step of the caller

  lemma QuietExplained(worlds: seq<World>, actions: seq<Action>, m: nat, n: nat, caller: nat)
    requires CalledAt(actions, m, caller) && m < n < n + 1 < |worlds| && n < |actions| && actions[n] == Step(caller)
    requires var w := worlds[n];
             && Inv(w) && caller in w.calls && ValidStore(w.store) && (w.list.Some? ==> w.list.value < |w.store|)
             && |worlds[m].log| <= |w.log| && Explained(worlds, actions, m, n, caller, w.calls[caller])
             && Quiet(w.store, w.list, w.calls[caller]).Some?
    requires worlds[n + 1].log == worlds[n].log && worlds[n + 1].list == worlds[n].list
    ensures Explained(worlds, actions, m, n + 1, caller, Quiet(worlds[n].store, worlds[n].list, worlds[n].calls[caller]).value)
  {
    hide Inv, Others, ListedBehind, CommitFailed, SearchItem, QaItem, HoldsMalformed;
    var w := worlds[n];
    var from := |worlds[m].log|;
    var phase := w.calls[caller];
    match phase
    case EnsureRead(job) => if w.list.Some? { HeadIsBehind(w, from, caller, AttemptOf(job)); }
    case EnsureReread(job) => HeadIsBehind(w, from, caller, AttemptOf(job));
    case Attempting(d, attempt) => if w.list.Some? { HeadIsBehind(w, from, caller, attempt); }
    case Checking(d, attempt, expected) => CheckingExplained(worlds, actions, m, n, caller);
    case Swapping(d, attempt, expected, _) => LostToAnother(w, from, caller, attempt, expected);
    case _ =>
  }

  lemma CheckingExplained(worlds: seq<World>, actions: seq<Action>, m: nat, n: nat, caller: nat)
    requires CalledAt(actions, m, caller) && m < n < n + 1 < |worlds| && n < |actions| && actions[n] == Step(caller)
    requires var w := worlds[n];
             && Inv(w) && caller in w.calls && ValidStore(w.store) && (w.list.Some? ==> w.list.value < |w.store|)
             && w.calls[caller].Checking? && Explained(worlds, actions, m, n, caller, w.calls[caller])
    requires worlds[n + 1].log == worlds[n].log && worlds[n + 1].list == worlds[n].list
    ensures Quiet(worlds[n].store, worlds[n].list, worlds[n].calls[caller]).Some?
    ensures Explained(worlds, actions, m, n + 1, caller, Quiet(worlds[n].store, worlds[n].list, worlds[n].calls[caller]).value)
  {
    hide Inv, Others, ListedBehind, CommitFailed, QaItem, FirstMatch, Filed, ItemOf, Parse;
    var w := worlds[n];
    var item := QaItem(w.calls[caller].d);
    if item.Some? && w.list.Some? {
      ListIsLog(w);
      ChainInStore(w.store, w.list.value);
      if SearchItem(w.store, Chain(w.store, w.list.value), item.value) == Unreadable {
        var i :| 0 <= i < |w.log| && Parse(w.store[Chain(w.store, w.list.value)[i]].message).Malformed?;
        assert w.log[i].commit == Chain(w.store, w.list.value)[i];
        assert HoldsMalformed(w);
      }
    }
  }

  lemma MoveExplained(worlds: seq<World>, actions: seq<Action>, m: nat, n: nat, caller: nat)
    requires CalledAt(actions, m, caller) && m < n < n + 1 < |worlds|
    requires var (w, w') := (worlds[n], worlds[n + 1]);
             && Inv(w) && Inv(w') && caller in w.calls && caller in w'.calls && ValidStore(w.store) && Move(w, caller, w')
             && |worlds[m].log| <= |w.log| && w.log <= w'.log && Explained(worlds, actions, m, n, caller, w.calls[caller])
    ensures Explained(worlds, actions, m, n + 1, caller, worlds[n + 1].calls[caller])
  {
    hide Inv, Others, ListedBehind, CommitFailed, QaItem, HoldsMalformed, MessageId;
    OthersGrow(worlds[n].log, worlds[n + 1].log, |worlds[m].log|, caller);
    if worlds[n].calls[caller].EnsureSwap? {
      HeadIsBehind(worlds[n + 1], |worlds[m].log|, caller, AttemptOf(worlds[n].calls[caller].job));
    }
  }

  lemma CommitExplained(worlds: seq<World>, actions: seq<Action>, m: nat, n: nat, caller: nat)
    requires CalledAt(actions, m, caller) && m < n < n + 1 < |worlds| && n < |actions|
    requires actions[n].Commit? && actions[n].caller == caller
    requires var (w, w') := (worlds[n], worlds[n + 1]);
             && caller in w.calls && ValidStore(w.store) && MakeCommit(w, caller, actions[n].seed, actions[n].commit, w')
             && Explained(worlds, actions, m, n, caller, w.calls[caller])
    ensures caller in worlds[n + 1].calls && Explained(worlds, actions, m, n + 1, caller, worlds[n + 1].calls[caller])
  {
    hide Others, ListedBehind, QaItem, HoldsMalformed, PostCommit, GenesisMessage;
  }

  lemma StepExplained(worlds: seq<World>, actions: seq<Action>, m: nat, n: nat, caller: nat)
    requires CalledAt(actions, m, caller) && m < n < n + 1 < |worlds| && n < |actions|
    requires Inv(worlds[n]) && Inv(worlds[n + 1]) && StepOk(worlds[n], actions[n], worlds[n + 1])
    requires |worlds[m].log| <= |worlds[n].log| && worlds[n].log <= worlds[n + 1].log
    requires caller in worlds[n].calls && Explained(worlds, actions, m, n, caller, worlds[n].calls[caller])
    ensures caller in worlds[n + 1].calls && Explained(worlds, actions, m, n + 1, caller, worlds[n + 1].calls[caller])
  {
    hide Inv, Explained, Quiet, Move, MakeCommit;
    var (w, w') := (worlds[n], worlds[n + 1]);
    var own := actions[n].caller == caller;
    if own && actions[n].Step? {
      if Quiet(w.store, w.list, w.calls[caller]).Some? {
        QuietExplained(worlds, actions, m, n, caller);
      } else {
        MovedCaller(w, caller, w');
        MoveExplained(worlds, actions, m, n, caller);
      }
    } else if own && actions[n].Commit? {
      CommitExplained(worlds, actions, m, n, caller);
    } else {
      OtherCaller(w, actions[n], w', caller);
      ExplainedLater(worlds, actions, m, n, caller, w.calls[caller]);
    }
  }

  lemma MovedCaller(w: World, caller: nat, w': World)
    requires caller in w.calls && ValidStore(w.store) && Move(w, caller, w')
    ensures caller in w'.calls
  {
    hide MessageId;
  }

  /** A step of one caller leaves the others' phases alone, and the list is never lost. */
  lemma OtherCaller(w: World, action: Action, w': World, caller: nat)
    requires StepOk(w, action, w') && caller in w.calls && action.caller != caller
    ensures caller in w'.calls && w'.calls[caller] == w.calls[caller] && (w.list.Some? ==> w'.list.Some?)
  {
    hide Quiet, PostCommit, GenesisMessage, MessageId;
  }

  lemma CallExplained(worlds: seq<World>, actions: seq<Action>, m: nat, caller: nat)
    requires CalledAt(actions, m, caller) && m + 1 < |worlds| && StepOk(worlds[m], actions[m], worlds[m + 1])
    ensures caller in worlds[m + 1].calls && Explained(worlds, actions, m, m + 1, caller, worlds[m + 1].calls[caller])
  {
    hide QaItem, HoldsMalformed;
  }

  lemma {:induction false} RunIsExplained(worlds: seq<World>, actions: seq<Action>, m: nat, n: nat, caller: nat)
    requires IsRun(worlds, actions) && CalledAt(actions, m, caller) && m < n < |worlds|
    ensures caller in worlds[n].calls && Explained(worlds, actions, m, n, caller, worlds[n].calls[caller])
    decreases n - m
  {
    hide Inv, Initial, Next, Explained;
    if n == m + 1 {
      assert StepOk(worlds[m], actions[m], worlds[m + 1]);
      CallExplained(worlds, actions, m, caller);
    } else {
      RunIsExplained(worlds, actions, m, n - 1, caller);
      RunKeepsInvariant(worlds, actions, n - 1);
      RunKeepsInvariant(worlds, actions, n);
      ListOnlyGrows(worlds, actions, m, n - 1);
      ListOnlyGrows(worlds, actions, n - 1, n);
      assert StepOk(worlds[n - 1], actions[n - 1], worlds[n]);
      StepExplained(worlds, actions, m, n - 1, caller);
    }
  }

  /** In every run a call that has failed could not make a commit, or searched for its item in a list with a
      message that cannot be read, or lost to four other entries that were listed since it began. */
  lemma FailureHasReason(worlds: seq<World>, actions: seq<Action>, m: nat, n: nat, caller: nat)
    requires IsRun(worlds, actions) && CalledAt(actions, m, caller) && m < n < |worlds|
    ensures caller in worlds[n].calls
    ensures worlds[n].calls[caller] == Done(Failed) ==> FailedFor(worlds, actions, m, n, caller)
  {
    hide IsRun, FailedFor;
    RunIsExplained(worlds, actions, m, n, caller);
  }

  // A caller that steps alone

  /** Between its call and world n only the caller takes steps, and its commit can be made. */
  predicate StepsAlone(actions: seq<Action>, m: nat, n: nat, caller: nat) {
    forall k :: m < k < n && k < |actions| ==>
      actions[k].caller == caller && !actions[k].Call? && (actions[k].Commit? ==> actions[k].seed.Some?)
  }

  /** What an undisturbed call has come to after k steps of its own, from the world it was made in. */
  predicate Stage(before: World, w: World, k: nat, caller: nat, d: Draft)
    requires Inv(before) && before.list.Some?
  {
    && caller in w.calls
    && var head := before.list.value;
    match w.calls[caller]
    case EnsureRead(job) => k == 0 && job == BeforePost(d) && SameList(before, w)
    case Attempting(other, 0) => k == 1 && other == d && SameList(before, w)
    case Checking(other, 0, expected) => k == 2 && other == d && expected == head && SameList(before, w)
    case Committing(other, 0, expected) => k == 3 && other == d && expected == head && FreeToPost(before, d) && SameList(before, w)
    case Swapping(other, 0, expected, _) => k == 4 && other == d && expected == head && FreeToPost(before, d) && SameList(before, w)
    case Done(Existing(commit, item)) =>
      k == 3 && QaItem(d) == Some(item) && Answer(before, item) == Found(commit) && SameList(before, w)
    case Done(Failed) => k == 3 && QaItem(d).Some? && Answer(before, QaItem(d).value) == Unreadable && SameList(before, w)
    case Done(Posted(commit, messageId)) =>
      && k == 5 && FreeToPost(before, d) && w.list == Some(commit)
      && w.log == before.log + [MailList.Entry(Some(caller), commit, OfPost(d))]
      && messageId == MessageId(d.kind, d.coordinate, |before.log|)
    case _ => false
  }

  predicate SameList(before: World, w: World) {
    w.list == before.list && w.log == before.log
  }

  lemma SameAnswer(before: World, w: World, item: Text)
    requires Inv(before) && Inv(w) && before.list.Some? && SameList(before, w) && Extends(w.store, before.store)
    ensures Answer(w, item) == Answer(before, item)
  {
    hide Inv, SearchItem;
    ListIsLog(before);
    ListIsLog(w);
    SameSearch(before.store, w.store, Commits(w.log), item);
  }

  lemma StageStep(before: World, w: World, k: nat, caller: nat, d: Draft, action: Action, w': World)
    requires Inv(before) && before.list.Some? && Inv(w) && Extends(w.store, before.store) && Stage(before, w, k, caller, d)
    requires StepOk(w, action, w') && action.caller == caller && !action.Call? && (action.Commit? ==> action.seed.Some?)
    ensures Stage(before, w', k + 1, caller, d)
  {
    hide Inv, SearchItem, QaItem, PostCommit, GenesisMessage, MessageId, Answer;
    if w.calls[caller].Checking? && QaItem(d).Some? {
      SameAnswer(before, w, QaItem(d).value);
      AnswerIs(w, QaItem(d).value);
    }
    if w.calls[caller].Swapping? { SequenceIsPlace(before, w, before.list.value); }
  }

  lemma AnswerIs(w: World, item: Text)
    requires Inv(w) && w.list.Some?
    ensures ValidStore(w.store) && w.list.value < |w.store|
    ensures forall i :: 0 <= i < |Chain(w.store, w.list.value)| ==> Chain(w.store, w.list.value)[i] < |w.store|
    ensures Answer(w, item) == SearchItem(w.store, Chain(w.store, w.list.value), item)
  {
    hide Inv, SearchItem;
    ListIsLog(w);
    ChainInStore(w.store, w.list.value);
  }

  /** A post by a caller that steps alone, from any reachable world with a list, is over after at most five steps. It has
      posted exactly one more entry, of its draft and under its place's Message-Id, unless the search for its item found
      a post or could not read the list. */
  lemma {:induction false} AlonePosts(worlds: seq<World>, actions: seq<Action>, m: nat, n: nat, caller: nat, d: Draft)
    requires IsRun(worlds, actions) && m < n < |worlds| && actions[m] == Call(caller, BeforePost(d))
    requires Inv(worlds[m]) && worlds[m].list.Some? && StepsAlone(actions, m, n, caller)
    ensures n - m - 1 <= 5 && Stage(worlds[m], worlds[n], n - m - 1, caller, d)
    decreases n - m
  {
    hide Inv, Initial, Next, Stage;
    if n == m + 1 {
      assert StepOk(worlds[m], actions[m], worlds[m + 1]);
      CallIsStage(worlds[m], worlds[m + 1], caller, d);
    } else {
      AlonePosts(worlds, actions, m, n - 1, caller, d);
      RunKeepsInvariant(worlds, actions, n - 1);
      ListOnlyGrows(worlds, actions, m, n - 1);
      assert StepOk(worlds[n - 1], actions[n - 1], worlds[n]);
      StageStep(worlds[m], worlds[n - 1], n - m - 2, caller, d, actions[n - 1], worlds[n]);
      StageIsShort(worlds[m], worlds[n], n - m - 1, caller, d);
    }
  }

  lemma CallIsStage(before: World, w: World, caller: nat, d: Draft)
    requires Inv(before) && before.list.Some? && StepOk(before, Call(caller, BeforePost(d)), w)
    ensures Stage(before, w, 0, caller, d)
  {
    hide Inv;
  }

  lemma StageIsShort(before: World, w: World, k: nat, caller: nat, d: Draft)
    requires Inv(before) && before.list.Some? && Stage(before, w, k, caller, d)
    ensures k <= 5
  {
    hide Inv, FreeToPost, Answer, QaItem;
  }
}
