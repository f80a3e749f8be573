/** The maintainer's two boundaries: accepting a leaf into the subsystem tree and handing a finished
    series to mainline. */
module Subsystem {
  import opened Prelude
  import opened Utf8
  import opened PyText
  import opened Git

  type TreeId = nat

  type Branch = Text

  const SUBSYSTEM := T("ai-org/subsystem")
  const MAINLINE := T("ai-org/mainline")
  const ACCEPTANCE_SUBJECT := T("acceptance: reachable")

  datatype Repo = Repo(store: Store<TreeId>, heads: map<Branch, Oid>)

  predicate ValidRepo(repo: Repo) {
    ValidStore(repo.store) && forall b :: b in repo.heads ==> repo.heads[b] < |repo.store|
  }

  // Subjects

  /** `--format=%s` of a one-line subject. */
  function SubjectOf(message: Text): Text {
    if message == [] || message[0] == NEWLINE then [] else [message[0]] + SubjectOf(message[1..])
  }

  function Message(subject: Text, rest: Text): Text {
    subject + [NEWLINE] + rest
  }

  lemma {:induction false} SubjectOfMessage(subject: Text, rest: Text)
    requires NEWLINE !in subject
    ensures SubjectOf(Message(subject, rest)) == subject
  {
    if subject != [] {
      assert Message(subject, rest)[1..] == Message(subject[1..], rest);
      SubjectOfMessage(subject[1..], rest);
      assert subject == [subject[0]] + subject[1..];
    }
  }

  const SERIES_PREFIX := T("mainline: accept series ")
  const LEAF_PREFIX := T("subsystem: accept ")

  function SeriesSubject(slug: Text): Text {
    SERIES_PREFIX + slug
  }

  /** A merge recorded under a series subject. */
  predicate IsRecord(store: Store<TreeId>, c: Oid, subject: Text) {
    c < |store| && |store[c].parents| >= 2 && SubjectOf(store[c].message) == subject
  }

  // The history walks

  /** The record under a subject that stands highest on a first-parent chain. */
  predicate IsNewestRecord(store: Store<TreeId>, chain: seq<Oid>, subject: Text, record: Oid) {
    exists i :: 0 <= i < |chain| && chain[i] == record && IsRecord(store, record, subject)
                && forall j :: i < j < |chain| ==> !IsRecord(store, chain[j], subject)
  }

  /** `_mainline_record_commit`: the newest record on the first-parent chain. */
  method RecordCommit(store: Store<TreeId>, head: Option<Oid>, subject: Text) returns (record: Option<Oid>)
    requires ValidStore(store) && (head.Some? ==> head.value < |store|)
    ensures record.None? ==> head.None? || forall c :: c in Chain(store, head.value) ==> !IsRecord(store, c, subject)
    ensures record.Some? ==> head.Some? && IsNewestRecord(store, Chain(store, head.value), subject, record.value)
  {
    if head.None? { return None; }
    var current: Oid := head.value;
    ghost var newer: seq<Oid> := [];
    assert Chain(store, current) + newer == Chain(store, head.value);
    while true
      invariant current < |store|
      invariant Chain(store, current) + newer == Chain(store, head.value)
      invariant forall c :: c in newer ==> !IsRecord(store, c, subject)
      decreases current
    {
      var chain := Chain(store, current);
      assert chain[|chain| - 1] == current && current in chain + newer;
      if IsRecord(store, current, subject) {
        assert (chain + newer)[|chain| - 1] == current;
        assert forall j :: |chain| <= j < |chain + newer| ==> (chain + newer)[j] == newer[j - |chain|];
        return Some(current);
      }
      if store[current].parents == [] {
        assert chain == [current];
        return None;
      }
      var parent := store[current].parents[0];
      assert chain == Chain(store, parent) + [current];
      newer := [current] + newer;
      assert Chain(store, parent) + newer == chain + newer[1..];
      current := parent;
    }
  }

  /** The leaf's tip came in by this merge. */
  predicate Accepts(store: Store<TreeId>, c: Oid, leaf: Oid) {
    c < |store| && exists k :: 1 <= k < |store[c].parents| && store[c].parents[k] == leaf
  }

  /** Every leaf has an acceptance merge among these commits. */
  predicate AllAccepted(store: Store<TreeId>, commits: seq<Oid>, leaves: set<Oid>) {
    forall leaf :: leaf in leaves ==> exists j :: 0 <= j < |commits| && Accepts(store, commits[j], leaf)
  }

  /** i is the newest place on the chain with an acceptance merge of every leaf above it. */
  predicate IsNewestBase(store: Store<TreeId>, chain: seq<Oid>, leaves: set<Oid>, i: nat) {
    && i + 1 < |chain|
    && AllAccepted(store, chain[i + 1..], leaves)
    && !AllAccepted(store, chain[i + 2..], leaves)
  }

  predicate IsBase(store: Store<TreeId>, chain: seq<Oid>, leaves: set<Oid>, base: Oid) {
    exists i :: 0 <= i < |chain| && chain[i] == base && IsNewestBase(store, chain, leaves, i)
  }

  lemma {:induction false} ChainSteps(store: Store<TreeId>, head: Oid, j: nat)
    requires ValidStore(store) && head < |store| && j < |Chain(store, head)|
    ensures Chain(store, head)[j] < |store|
    ensures store[Chain(store, head)[j]].parents == [] <==> j == 0
    ensures j > 0 ==> store[Chain(store, head)[j]].parents[0] == Chain(store, head)[j - 1]
    decreases head
  {
    if store[head].parents != [] {
      var parent := store[head].parents[0];
      if j < |Chain(store, parent)| { ChainSteps(store, parent, j); }
    }
  }

  /** The leaves that some of these commits accept. */
  function AcceptedIn(store: Store<TreeId>, commits: seq<Oid>, leaves: set<Oid>): set<Oid> {
    set leaf | leaf in leaves && exists j :: 0 <= j < |commits| && Accepts(store, commits[j], leaf)
  }

  function AcceptedHere(store: Store<TreeId>, c: Oid, leaves: set<Oid>): set<Oid> {
    set leaf | leaf in leaves && Accepts(store, c, leaf)
  }

  lemma AcceptedOneMore(store: Store<TreeId>, chain: seq<Oid>, j: nat, leaves: set<Oid>)
    requires j < |chain|
    ensures AcceptedIn(store, chain[j..], leaves) == AcceptedIn(store, chain[j + 1..], leaves) + AcceptedHere(store, chain[j], leaves)
  {
    var (all, rest) := (chain[j..], chain[j + 1..]);
    assert all == [chain[j]] + rest;
    assert all[0] == chain[j] && forall k :: 0 <= k < |rest| ==> all[k + 1] == rest[k];
  }

  lemma AllAcceptedIs(store: Store<TreeId>, commits: seq<Oid>, leaves: set<Oid>)
    ensures AllAccepted(store, commits, leaves) <==> AcceptedIn(store, commits, leaves) == leaves
  {
  }

  /** `_base_before_series_acceptance`: the walk down from the subsystem tip. */
  method BaseBefore(store: Store<TreeId>, tip: Oid, leaves: set<Oid>) returns (base: Option<Oid>)
    requires ValidStore(store) && tip < |store|
    ensures base.Some? ==> leaves != {} && IsBase(store, Chain(store, tip), leaves, base.value)
    ensures base.None? ==> leaves == {} || !AllAccepted(store, Chain(store, tip), leaves)
  {
    hide Chain, Accepts, AllAccepted, AcceptedIn, AcceptedHere;
    var matched: set<Oid> := {};
    var current: Oid := tip;
    ghost var chain := Chain(store, tip);
    ghost var j: nat := |chain| - 1;
    NothingAccepted(store, leaves);
    assert chain[j + 1..] == [];
    while true
      invariant j < |chain| && current == chain[j] && current < |store|
      invariant matched == AcceptedIn(store, chain[j + 1..], leaves)
      invariant leaves != {} ==> matched != leaves
      decreases j
    {
      ChainSteps(store, tip, j);
      AcceptedOneMore(store, chain, j, leaves);
      var parents := store[current].parents;
      if parents == [] {
        RootAcceptsNothing(store, current, leaves);
        assert chain[0..] == chain;
        AllAcceptedIs(store, chain, leaves);
        return None;
      }
      var acceptedHere := AcceptedHere(store, current, leaves);
      if acceptedHere != {} {
        matched := matched + acceptedHere;
        if matched == leaves {
          AllAcceptedIs(store, chain[j..], leaves);
          AllAcceptedIs(store, chain[j + 1..], leaves);
          NothingToAccept(store, current, leaves);
          assert IsNewestBase(store, chain, leaves, j - 1);
          return Some(parents[0]);
        }
      }
      current := parents[0];
      j := j - 1;
    }
  }

  lemma NothingAccepted(store: Store<TreeId>, leaves: set<Oid>)
    ensures AcceptedIn(store, [], leaves) == {}
  {
  }

  lemma RootAcceptsNothing(store: Store<TreeId>, c: Oid, leaves: set<Oid>)
    requires c < |store| && store[c].parents == []
    ensures AcceptedHere(store, c, leaves) == {}
  {
  }

  lemma NothingToAccept(store: Store<TreeId>, c: Oid, leaves: set<Oid>)
    requires AcceptedHere(store, c, leaves) != {}
    ensures leaves != {}
  {
  }

  /** A place on the chain has every leaf accepted above it exactly when it is no newer than the newest base,
      so there is at most one newest base. */
  lemma NewestBaseExactly(store: Store<TreeId>, chain: seq<Oid>, leaves: set<Oid>, i: nat, j: nat)
    requires IsNewestBase(store, chain, leaves, i) && j + 1 < |chain|
    ensures AllAccepted(store, chain[j + 1..], leaves) <==> j <= i
  {
    hide AllAccepted;
    if j <= i {
      AcceptedAbove(store, chain, leaves, j + 1, i + 1);
    } else {
      AcceptedAbove(store, chain, leaves, i + 2, j + 1);
    }
  }

  /** There is a base exactly when there are leaves and the whole chain accepts every one. */
  lemma BaseExistsExactly(store: Store<TreeId>, tip: Oid, leaves: set<Oid>)
    requires ValidStore(store) && tip < |store|
    ensures (exists base :: IsBase(store, Chain(store, tip), leaves, base))
       <==> leaves != {} && AllAccepted(store, Chain(store, tip), leaves)
  {
    hide AllAccepted, Accepts, Chain;
    var chain := Chain(store, tip);
    assert chain[0..] == chain;
    if base :| IsBase(store, chain, leaves, base) {
      var i :| 0 <= i < |chain| && chain[i] == base && IsNewestBase(store, chain, leaves, i);
      AcceptedAbove(store, chain, leaves, 0, i + 1);
      if leaves == {} { AllAcceptedIs(store, chain[i + 2..], leaves); }
    }
    if leaves != {} && AllAccepted(store, chain, leaves) {
      ChainSteps(store, tip, 0);
      RootAcceptsNothing(store, chain[0], leaves);
      AcceptedOneMore(store, chain, 0, leaves);
      AllAcceptedIs(store, chain, leaves);
      AllAcceptedIs(store, chain[1..], leaves);
      var i := NewestFrom(store, chain, leaves, 1);
      assert IsBase(store, chain, leaves, chain[i]);
    }
  }

  lemma {:induction false} NewestFrom(store: Store<TreeId>, chain: seq<Oid>, leaves: set<Oid>, j: nat) returns (i: nat)
    requires leaves != {} && 1 <= j <= |chain| && AllAccepted(store, chain[j..], leaves)
    ensures i < |chain| && IsNewestBase(store, chain, leaves, i)
    decreases |chain| - j
  {
    hide AllAccepted;
    if j == |chain| {
      assert chain[j..] == [];
      NothingAccepted(store, leaves);
      AllAcceptedIs(store, [], leaves);
      assert false;
    } else if AllAccepted(store, chain[j + 1..], leaves) {
      i := NewestFrom(store, chain, leaves, j + 1);
    } else {
      i := j - 1;
    }
  }

  lemma AcceptedAbove(store: Store<TreeId>, chain: seq<Oid>, leaves: set<Oid>, low: nat, high: nat)
    requires low <= high <= |chain|
    ensures AllAccepted(store, chain[high..], leaves) ==> AllAccepted(store, chain[low..], leaves)
  {
    hide Accepts;
    if AllAccepted(store, chain[high..], leaves) {
      forall leaf | leaf in leaves ensures exists j :: 0 <= j < |chain[low..]| && Accepts(store, chain[low..][j], leaf) {
        var j :| 0 <= j < |chain[high..]| && Accepts(store, chain[high..][j], leaf);
        assert chain[low..][j + (high - low)] == chain[high..][j];
      }
    }
  }

  // The branches and the two boundaries

  /** Which Git commands of an acceptance fail: the empty commit, the checkout back, the branch, the merge with
      its worktree, the fast-forward. */
  datatype AcceptFaults = AcceptFaults(mark: bool, restore: bool, start: bool, merge: bool, forward: bool)

  /** Which Git commands of a hand-off fail: the branch, the merge with its worktree. */
  datatype HandFaults = HandFaults(start: bool, merge: bool)

  /** How far an acceptance got. */
  datatype Acceptance =
    | ContribMissing
    | NotMarked
    | Marked(marker: Oid)
    | Started(marker: Oid)
    | Merged(marker: Oid, merge: Oid)
    | Accepted(marker: Oid, merge: Oid)

  datatype HandOffResult =
    | SeriesIncomplete
    | SubsystemMissing
    | BaseMissing
    | AlreadyCurrent(commit: Oid)
    | GitError
    | Recorded(commit: Oid, anchor: Oid)

  /** What `git merge --no-ff other` leaves on a branch. */
  predicate IsMerge(store: Store<TreeId>, tip: Oid, other: Oid, subject: Text, merge: Oid)
    requires ValidStore(store)
  {
    && tip < |store| && other < |store| && merge < |store|
    && if IsAncestor(store, other, tip) then merge == tip
       else
         && store[merge].parents == [tip, other]
         && exists n :: 0 <= n <= |store[merge].message| && store[merge].message[..n] == subject + [NEWLINE]
  }

  class Maintainer {
    var store: Store<TreeId>
    var heads: map<Branch, Oid>

    function State(): Repo
      reads this
    {
      Repo(store, heads)
    }

    constructor (store: Store<TreeId>, heads: map<Branch, Oid>)
      ensures this.store == store && this.heads == heads
    {
      this.store := store;
      this.heads := heads;
    }

    /** `git commit-tree`: a new commit, or an identical one that is already there. */
    method MakeCommit(c: Commit<TreeId>) returns (id: Oid)
      requires ValidRepo(State()) && forall k :: 0 <= k < |c.parents| ==> c.parents[k] < |store|
      modifies this`store
      ensures ValidRepo(State()) && Extends(store, old(store)) && Committed(old(store), store, c, id)
    {
      var reuse: bool := *;
      if reuse && exists i :: 0 <= i < |store| && store[i] == c {
        id :| 0 <= id < |store| && store[id] == c;
      } else {
        id := |store|;
        store := store + [c];
      }
    }

    /** `git merge --no-ff -m subject other` on a branch, or its failure, which leaves the branch alone. */
    method MergeInto(branch: Branch, other: Oid, subject: Text, rest: Text, fails: bool) returns (merge: Option<Oid>)
      requires ValidRepo(State()) && branch in heads && other < |store|
      modifies this
      ensures ValidRepo(State()) && Extends(store, old(store))
      ensures merge.None? <==> fails
      ensures merge.None? ==> heads == old(heads)
      ensures merge.Some? ==> heads == old(heads)[branch := merge.value]
      ensures merge.Some? ==> IsMerge(store, old(heads)[branch], other, subject, merge.value)
    {
      var tip := heads[branch];
      if fails { return None; }
      if IsAncestor(store, other, tip) {
        assert heads[branch := tip] == heads;
        return Some(tip);
      }
      var tree: TreeId := *;
      ghost var before := store;
      var id := MakeCommit(Commit(tree, [tip, other], Message(subject, rest)));
      AncestorStable(before, store, other, tip);
      assert store[id].message[..|subject| + 1] == subject + [NEWLINE];
      heads := heads[branch := id];
      return Some(id);
    }

    /** `_accept_leaf`. */
    method AcceptLeaf(contrib: Branch, default: Branch, faults: AcceptFaults) returns (r: Acceptance)
      requires ValidRepo(State())
      modifies this
      ensures AcceptStep(old(State()), contrib, default, r, State())
      ensures AcceptsAs(old(State()), contrib, default, faults, r, State())
    {
      hide IsAncestor, IsMerge, Message, ValidStore;
      if contrib !in heads { return ContribMissing; }
      if default !in heads { return NotMarked; }
      if faults.mark { return NotMarked; }
      hide AcceptStep, AcceptsAs;
      var tree: TreeId := *;
      var rest: Text := *;
      ghost var b := State();
      var marker := MakeCommit(Commit(tree, [heads[contrib]], Message(ACCEPTANCE_SUBJECT, rest)));
      heads := heads[contrib := marker];
      if faults.restore {
        EndsMarked(b, contrib, default, faults, marker, State());
        return Marked(marker);
      }
      if SUBSYSTEM !in heads {
        if faults.start {
          EndsMarked(b, contrib, default, faults, marker, State());
          return Marked(marker);
        }
        heads := heads[SUBSYSTEM := heads[default]];
      }
      ghost var started := State();
      StartsAs(b, contrib, default, faults, marker, started);
      var merge := MergeInto(SUBSYSTEM, marker, LEAF_PREFIX + contrib, rest, faults.merge);
      if merge.None? {
        EndsStarted(b, contrib, default, faults, marker, started, State());
        return Started(marker);
      }
      ghost var merged := State();
      if !IsAncestor(store, heads[default], merge.value) {
        EndsMerged(b, contrib, default, faults, marker, started, merge.value, State());
        return Merged(marker, merge.value);
      }
      if faults.forward {
        EndsMerged(b, contrib, default, faults, marker, started, merge.value, State());
        return Merged(marker, merge.value);
      }
      heads := heads[default := merge.value];
      EndsAccepted(b, contrib, default, faults, marker, started, merged, merge.value, State());
      return Accepted(marker, merge.value);
    }

    /** `_handoff_series`, from the leaves' tips and whether all leaves are resolved. */
    method HandOff(slug: Text, resolved: bool, leaves: set<Oid>, seriesTip: bool, faults: HandFaults) returns (r: HandOffResult)
      requires ValidRepo(State())
      modifies this
      ensures HandOffStep(old(State()), slug, leaves, r, State())
      ensures HandsOffAs(old(State()), slug, resolved, leaves, seriesTip, faults, r)
    {
      hide IsAncestor, Chain, IsBase, IsRecord, AllAccepted, IsNewestRecord;
      if !resolved { return SeriesIncomplete; }
      var record := RecordCommit(store, HeadOf(State(), MAINLINE), SeriesSubject(slug));
      if record.Some? {
        NewestIsThere(store, Chain(store, heads[MAINLINE]), SeriesSubject(slug), record.value);
        return AlreadyCurrent(record.value);
      }
      if MAINLINE in heads { NoneIsNewest(store, Chain(store, heads[MAINLINE]), SeriesSubject(slug)); }
      if !seriesTip { return SeriesIncomplete; }
      if SUBSYSTEM !in heads { return SubsystemMissing; }
      var tip := heads[SUBSYSTEM];
      var anchor: Oid;
      if MAINLINE in heads {
        anchor := heads[MAINLINE];
        if IsAncestor(store, tip, anchor) { return AlreadyCurrent(anchor); }
      } else {
        BaseExistsExactly(store, tip, leaves);
        var base := BaseBefore(store, tip, leaves);
        if base.None? { return BaseMissing; }
        BaseIsOlder(store, tip, leaves, base.value);
        if faults.start { return GitError; }
        anchor := base.value;
        heads := heads[MAINLINE := anchor];
      }
      var rest: Text := *;
      var merge := MergeInto(MAINLINE, tip, SeriesSubject(slug), rest, faults.merge);
      if merge.None? { return GitError; }
      return Recorded(merge.value, anchor);
    }
  }

  lemma NewestIsThere(store: Store<TreeId>, chain: seq<Oid>, subject: Text, record: Oid)
    requires IsNewestRecord(store, chain, subject, record)
    ensures record in chain && IsRecord(store, record, subject)
  {
    hide IsRecord;
  }

  lemma NoneIsNewest(store: Store<TreeId>, chain: seq<Oid>, subject: Text)
    requires forall c :: c in chain ==> !IsRecord(store, c, subject)
    ensures forall c :: !IsNewestRecord(store, chain, subject, c)
  {
    hide IsRecord;
  }

  function HeadOf(repo: Repo, branch: Branch): Option<Oid> {
    if branch in repo.heads then Some(repo.heads[branch]) else None
  }

  lemma BaseIsOlder(store: Store<TreeId>, tip: Oid, leaves: set<Oid>, base: Oid)
    requires ValidStore(store) && tip < |store| && IsBase(store, Chain(store, tip), leaves, base)
    ensures base < |store| && !IsAncestor(store, tip, base)
  {
    hide IsAncestor, AllAccepted;
    var chain := Chain(store, tip);
    var i :| 0 <= i < |chain| && chain[i] == base && IsNewestBase(store, chain, leaves, i);
    ChainAscends(store, tip, i, |chain| - 1);
    if IsAncestor(store, tip, base) { AncestorIsOlder(store, tip, base); }
  }

  /** The contributor's branch has its acceptance marker. */
  predicate IsMarked(b: Repo, contrib: Branch, marker: Oid, store: Store<TreeId>) {
    && contrib in b.heads && marker < |store|
    && store[marker].parents == [b.heads[contrib]]
  }

  /** The branches once the marker is in place and the subsystem branch exists. */
  function StartedHeads(b: Repo, contrib: Branch, default: Branch, marker: Oid): map<Branch, Oid>
    requires default in b.heads
  {
    var marked := b.heads[contrib := marker];
    if SUBSYSTEM in marked then marked else marked[SUBSYSTEM := marked[default]]
  }

  /** What one acceptance, complete or cut short by a failing command, does to the repository. */
  predicate AcceptStep(b: Repo, contrib: Branch, default: Branch, r: Acceptance, a: Repo) {
    && ValidRepo(b) && ValidRepo(a) && Extends(a.store, b.store)
    && match r
       case ContribMissing => a == b
       case NotMarked => a == b
       case Marked(marker) =>
         && default in b.heads && IsMarked(b, contrib, marker, a.store)
         && a.heads == b.heads[contrib := marker]
       case Started(marker) =>
         && default in b.heads && IsMarked(b, contrib, marker, a.store)
         && a.heads == StartedHeads(b, contrib, default, marker)
       case Merged(marker, merge) =>
         && default in b.heads && IsMarked(b, contrib, marker, a.store)
         && var started := StartedHeads(b, contrib, default, marker);
         && a.heads == started[SUBSYSTEM := merge]
         && IsMerge(a.store, started[SUBSYSTEM], marker, LEAF_PREFIX + contrib, merge)
       case Accepted(marker, merge) =>
         && default in b.heads && IsMarked(b, contrib, marker, a.store)
         && var started := StartedHeads(b, contrib, default, marker);
         && IsMerge(a.store, started[SUBSYSTEM], marker, LEAF_PREFIX + contrib, merge)
         && var merged := started[SUBSYSTEM := merge];
         && a.heads == merged[default := merge]
         && IsAncestor(a.store, merged[default], merge)
  }

  /** Which of the six endings an acceptance has, from the branches there were and the commands that fail. */
  predicate AcceptsAs(b: Repo, contrib: Branch, default: Branch, f: AcceptFaults, r: Acceptance, a: Repo)
    requires AcceptStep(b, contrib, default, r, a)
  {
    var marks := contrib in b.heads && default in b.heads && !f.mark;
    var starts := marks && !f.restore && (SUBSYSTEM in b.heads || !f.start);
    && (r.ContribMissing? <==> contrib !in b.heads)
    && (r.NotMarked? <==> contrib in b.heads && !marks)
    && (r.Marked? <==> marks && !starts)
    && (r.Started? <==> starts && f.merge)
    && (r.Merged? || r.Accepted? <==> starts && !f.merge)
    && (r.Merged? ==> f.forward || !IsAncestor(a.store, a.heads[default], r.merge))
    && (r.Accepted? ==> !f.forward)
  }

  // The endings of an acceptance, one by one

  lemma EndsMarked(b: Repo, contrib: Branch, default: Branch, f: AcceptFaults, marker: Oid, a: Repo)
    requires ValidRepo(b) && ValidRepo(a) && Extends(a.store, b.store) && default in b.heads && IsMarked(b, contrib, marker, a.store)
    requires !f.mark && (f.restore || (f.start && SUBSYSTEM !in b.heads)) && a.heads == b.heads[contrib := marker]
    ensures AcceptStep(b, contrib, default, Marked(marker), a) && AcceptsAs(b, contrib, default, f, Marked(marker), a)
  {
  }

  /** The marker is in place and the subsystem branch is there. */
  predicate HasStarted(b: Repo, contrib: Branch, default: Branch, f: AcceptFaults, marker: Oid, started: Repo) {
    && ValidRepo(b) && ValidRepo(started) && Extends(started.store, b.store) && default in b.heads
    && IsMarked(b, contrib, marker, started.store) && started.heads == StartedHeads(b, contrib, default, marker)
    && !f.mark && !f.restore && (SUBSYSTEM in b.heads || !f.start)
  }

  lemma StartsAs(b: Repo, contrib: Branch, default: Branch, f: AcceptFaults, marker: Oid, started: Repo)
    requires ValidRepo(b) && ValidRepo(started) && Extends(started.store, b.store) && default in b.heads
    requires IsMarked(b, contrib, marker, started.store) && !f.mark && !f.restore
    requires SUBSYSTEM in b.heads[contrib := marker] || !f.start
    requires var marked := b.heads[contrib := marker];
             started.heads == if SUBSYSTEM in marked then marked else marked[SUBSYSTEM := marked[default]]
    ensures HasStarted(b, contrib, default, f, marker, started)
  {
  }

  lemma EndsStarted(b: Repo, contrib: Branch, default: Branch, f: AcceptFaults, marker: Oid, started: Repo, a: Repo)
    requires HasStarted(b, contrib, default, f, marker, started) && f.merge
    requires ValidRepo(a) && Extends(a.store, started.store) && a.heads == started.heads
    ensures AcceptStep(b, contrib, default, Started(marker), a) && AcceptsAs(b, contrib, default, f, Started(marker), a)
  {
  }

  lemma EndsMerged(b: Repo, contrib: Branch, default: Branch, f: AcceptFaults, marker: Oid, started: Repo, merge: Oid, a: Repo)
    requires HasStarted(b, contrib, default, f, marker, started) && !f.merge
    requires ValidRepo(a) && Extends(a.store, started.store) && a.heads == started.heads[SUBSYSTEM := merge]
    requires IsMerge(a.store, started.heads[SUBSYSTEM], marker, LEAF_PREFIX + contrib, merge)
    requires f.forward || !IsAncestor(a.store, a.heads[default], merge)
    ensures AcceptStep(b, contrib, default, Merged(marker, merge), a) && AcceptsAs(b, contrib, default, f, Merged(marker, merge), a)
  {
    hide IsMerge, IsAncestor;
  }

  lemma EndsAccepted(b: Repo, contrib: Branch, default: Branch, f: AcceptFaults, marker: Oid, started: Repo, merged: Repo,
                     merge: Oid, a: Repo)
    requires HasStarted(b, contrib, default, f, marker, started) && !f.merge && !f.forward
    requires ValidRepo(a) && Extends(a.store, started.store) && merged == Repo(a.store, started.heads[SUBSYSTEM := merge])
    requires IsMerge(a.store, started.heads[SUBSYSTEM], marker, LEAF_PREFIX + contrib, merge)
    requires IsAncestor(a.store, merged.heads[default], merge) && a.heads == merged.heads[default := merge]
    ensures AcceptStep(b, contrib, default, Accepted(marker, merge), a) && AcceptsAs(b, contrib, default, f, Accepted(marker, merge), a)
  {
    hide IsMerge, IsAncestor;
  }

  /** Which ending a hand-off has, from the branches there were, the leaves and the commands that fail. */
  ghost predicate HandsOffAs(b: Repo, slug: Text, resolved: bool, leaves: set<Oid>, seriesTip: bool, f: HandFaults, r: HandOffResult)
    requires ValidRepo(b)
  {
    var recorded := exists c :: IsMainlineRecord(b, SeriesSubject(slug), c);
    var contained := MAINLINE in b.heads && SUBSYSTEM in b.heads && IsAncestor(b.store, b.heads[SUBSYSTEM], b.heads[MAINLINE]);
    var asked := resolved && !recorded && seriesTip;
    var based := MAINLINE in b.heads
      || (SUBSYSTEM in b.heads && leaves != {} && AllAccepted(b.store, Chain(b.store, b.heads[SUBSYSTEM]), leaves));
    var goes := asked && SUBSYSTEM in b.heads && !contained && based;
    && (r.SeriesIncomplete? <==> !resolved || (!recorded && !seriesTip))
    && (r.AlreadyCurrent? <==> (resolved && recorded) || (asked && contained))
    && (r.AlreadyCurrent? ==> if recorded then IsMainlineRecord(b, SeriesSubject(slug), r.commit) else r.commit == b.heads[MAINLINE])
    && (r.SubsystemMissing? <==> asked && SUBSYSTEM !in b.heads)
    && (r.BaseMissing? <==> asked && SUBSYSTEM in b.heads && !based)
    && (r.GitError? <==> goes && (f.merge || (f.start && MAINLINE !in b.heads)))
    && (r.Recorded? <==> goes && !f.merge && (MAINLINE in b.heads || !f.start))
  }

  predicate IsMainlineRecord(b: Repo, subject: Text, c: Oid)
    requires ValidRepo(b)
  {
    MAINLINE in b.heads && IsNewestRecord(b.store, Chain(b.store, b.heads[MAINLINE]), subject, c)
  }

  /** What one hand-off does to the repository. */
  predicate HandOffStep(b: Repo, slug: Text, leaves: set<Oid>, r: HandOffResult, a: Repo) {
    && ValidRepo(b) && ValidRepo(a) && Extends(a.store, b.store)
    && match r
       case Recorded(commit, anchor) =>
         && SUBSYSTEM in b.heads && a.heads == b.heads[MAINLINE := commit]
         && anchor < |b.store| && !IsAncestor(b.store, b.heads[SUBSYSTEM], anchor)
         && IsMerge(a.store, anchor, b.heads[SUBSYSTEM], SeriesSubject(slug), commit)
         && if MAINLINE in b.heads then
              anchor == b.heads[MAINLINE] && NoRecord(b.store, anchor, SeriesSubject(slug))
            else
              IsBase(b.store, Chain(b.store, b.heads[SUBSYSTEM]), leaves, anchor)
       case GitError =>
         a.heads == b.heads
         || (MAINLINE !in b.heads && SUBSYSTEM in b.heads && MAINLINE in a.heads && a.heads == b.heads[MAINLINE := a.heads[MAINLINE]]
             && IsBase(b.store, Chain(b.store, b.heads[SUBSYSTEM]), leaves, a.heads[MAINLINE]))
       case AlreadyCurrent(commit) =>
         && a.heads == b.heads && MAINLINE in b.heads
         && (commit == b.heads[MAINLINE] || IsRecord(b.store, commit, SeriesSubject(slug)))
       case _ => a.heads == b.heads
  }

  predicate NoRecord(store: Store<TreeId>, head: Oid, subject: Text)
    requires ValidStore(store) && head < |store|
  {
    forall i :: 0 <= i < |Chain(store, head)| ==> !IsRecord(store, Chain(store, head)[i], subject)
  }

  // What the boundaries keep

  function Marker(r: Acceptance): Option<Oid> {
    match r
    case ContribMissing => None
    case NotMarked => None
    case Marked(marker) => Some(marker)
    case Started(marker) => Some(marker)
    case Merged(marker, _) => Some(marker)
    case Accepted(marker, _) => Some(marker)
  }

  /** Acceptance leaves mainline alone, however it ends, unless one of its own two branches is mainline. */
  lemma AcceptanceKeepsMainline(b: Repo, contrib: Branch, default: Branch, r: Acceptance, a: Repo)
    requires AcceptStep(b, contrib, default, r, a) && contrib != MAINLINE && default != MAINLINE
    ensures HeadOf(a, MAINLINE) == HeadOf(b, MAINLINE)
  {
    hide IsAncestor, IsMerge;
    assert SUBSYSTEM != MAINLINE by { BranchNames(); }
  }

  lemma BranchNames()
    ensures SUBSYSTEM != MAINLINE
  {
    assert SUBSYSTEM[7] == 0x73 && MAINLINE[7] == 0x6D;
  }

  /** And when the contributor's branch is mainline, every acceptance that gets to mark it moves mainline. */
  lemma AcceptingMainlineMovesIt(b: Repo, default: Branch, r: Acceptance, a: Repo)
    requires AcceptStep(b, MAINLINE, default, r, a) && Marker(r).Some?
    ensures MAINLINE in b.heads && MAINLINE in a.heads && b.heads[MAINLINE] < a.heads[MAINLINE]
  {
    hide IsAncestor, IsMerge;
    assert SUBSYSTEM != MAINLINE by { BranchNames(); }
    var marker := Marker(r).value;
    assert a.store[marker].parents[0] == b.heads[MAINLINE];
    if r.Accepted? && default == MAINLINE {
      ForwardIsOlder(a.store, marker, r.merge);
    }
  }

  /** When DEFAULT is mainline, a complete acceptance makes mainline the new subsystem tip, which holds the old
      mainline and the marker; a cut-short one moves it only where the contributor's branch is mainline too. */
  lemma AcceptingIntoMainlineMovesIt(b: Repo, contrib: Branch, r: Acceptance, a: Repo)
    requires AcceptStep(b, contrib, MAINLINE, r, a)
    ensures r.Accepted? ==>
      && HeadOf(a, MAINLINE) == Some(r.merge) && MAINLINE in b.heads && r.merge < |a.store|
      && IsAncestor(a.store, r.marker, r.merge)
      && (contrib != MAINLINE ==> IsAncestor(a.store, b.heads[MAINLINE], r.merge))
      && (contrib != MAINLINE && !IsAncestor(a.store, r.marker, b.heads[MAINLINE]) ==> r.merge != b.heads[MAINLINE])
    ensures !r.Accepted? && contrib != MAINLINE ==> HeadOf(a, MAINLINE) == HeadOf(b, MAINLINE)
  {
    hide IsMerge, IsAncestor;
    assert SUBSYSTEM != MAINLINE by { BranchNames(); }
    if r.Accepted? { AcceptedMeansInherited(b, contrib, MAINLINE, r, a); }
  }

  lemma ForwardIsOlder(store: Store<TreeId>, c: Oid, d: Oid)
    requires ValidStore(store) && d < |store| && IsAncestor(store, c, d)
    ensures c <= d
  {
    AncestorIsOlder(store, c, d);
  }

  /** A complete acceptance leaves DEFAULT at the new subsystem tip, which holds the marker, the old
      subsystem tip and the old DEFAULT. Unless the marker was there already, that tip is a new merge
      whose first parent is the old subsystem tip and whose second is the marker. */
  lemma AcceptedMeansInherited(b: Repo, contrib: Branch, default: Branch, r: Acceptance, a: Repo)
    requires AcceptStep(b, contrib, default, r, a) && r.Accepted?
    ensures SUBSYSTEM in a.heads && default in a.heads
    ensures a.heads[default] == a.heads[SUBSYSTEM] == r.merge < |a.store|
    ensures IsAncestor(a.store, r.marker, r.merge)
    ensures var tip := StartedHeads(b, contrib, default, r.marker)[SUBSYSTEM];
            && tip < |a.store| && IsAncestor(a.store, tip, r.merge)
            && (!IsAncestor(a.store, r.marker, tip) ==> a.store[r.merge].parents == [tip, r.marker])
    ensures IsAncestor(a.store, StartedHeads(b, contrib, default, r.marker)[SUBSYSTEM := r.merge][default], r.merge)
  {
    var tip := StartedHeads(b, contrib, default, r.marker)[SUBSYSTEM];
    var parents := a.store[r.merge].parents;
    if !IsAncestor(a.store, r.marker, tip) {
      assert IsAncestor(a.store, parents[0], parents[0]) && IsAncestor(a.store, parents[1], parents[1]);
    }
  }

  /** A hand-off that is recorded moves mainline by one merge: its first parent is the old mainline, or
      the base where there was none, and its second is the subsystem tip. No other result moves a
      mainline that exists. */
  lemma MainlineMovesByMerge(b: Repo, slug: Text, leaves: set<Oid>, r: HandOffResult, a: Repo)
    requires HandOffStep(b, slug, leaves, r, a)
    ensures MAINLINE in b.heads && !r.Recorded? ==> a.heads == b.heads
    ensures r.Recorded? ==>
      && MAINLINE in a.heads && a.heads[MAINLINE] == r.commit < |a.store|
      && SUBSYSTEM in b.heads && a.store[r.commit].parents == [r.anchor, b.heads[SUBSYSTEM]]
      && (MAINLINE in b.heads ==> r.anchor == b.heads[MAINLINE])
      && (MAINLINE !in b.heads ==> IsBase(b.store, Chain(b.store, b.heads[SUBSYSTEM]), leaves, r.anchor))
      && forall other :: other !in {MAINLINE} ==> HeadOf(a, other) == HeadOf(b, other)
  {
    hide Chain, IsBase;
    if r.Recorded? { AncestorStable(b.store, a.store, b.heads[SUBSYSTEM], r.anchor); }
  }

  // At most one record a series

  predicate AtMostOneRecord(store: Store<TreeId>, head: Oid, subject: Text)
    requires ValidStore(store) && head < |store|
  {
    forall i, j :: 0 <= i < j < |Chain(store, head)| ==>
      !(IsRecord(store, Chain(store, head)[i], subject) && IsRecord(store, Chain(store, head)[j], subject))
  }

  /** Mainline records the series at most once, and so does the subsystem where DEFAULT is mainline itself; where
      there is no mainline yet, the branches it could start from record it nowhere. */
  predicate RecordsOk(repo: Repo, default: Branch, slug: Text)
    requires ValidRepo(repo)
  {
    var subject := SeriesSubject(slug);
    if MAINLINE in repo.heads then
      && AtMostOneRecord(repo.store, repo.heads[MAINLINE], subject)
      && (default == MAINLINE && SUBSYSTEM in repo.heads ==> AtMostOneRecord(repo.store, repo.heads[SUBSYSTEM], subject))
    else
      && (default in repo.heads ==> NoRecord(repo.store, repo.heads[default], subject))
      && (SUBSYSTEM in repo.heads ==> NoRecord(repo.store, repo.heads[SUBSYSTEM], subject))
  }

  lemma RecordStable(store: Store<TreeId>, after: Store<TreeId>, head: Oid, subject: Text)
    requires ValidStore(store) && ValidStore(after) && Extends(after, store) && head < |store|
    ensures NoRecord(store, head, subject) ==> NoRecord(after, head, subject)
    ensures AtMostOneRecord(store, head, subject) ==> AtMostOneRecord(after, head, subject)
  {
    hide SubjectOf;
    ChainStable(store, after, head);
    var chain := Chain(store, head);
    forall i | 0 <= i < |chain| ensures IsRecord(after, chain[i], subject) <==> IsRecord(store, chain[i], subject) {
      ChainAscends(store, head, i, i);
    }
  }

  lemma NoRecordOnTop(store: Store<TreeId>, tip: Oid, c: Oid, subject: Text)
    requires ValidStore(store) && tip < |store| && c < |store| && |store[c].parents| > 0 && store[c].parents[0] == tip
    requires NoRecord(store, tip, subject)
    ensures !IsRecord(store, c, subject) ==> NoRecord(store, c, subject)
    ensures AtMostOneRecord(store, c, subject)
  {
    hide IsRecord;
    var (below, chain) := (Chain(store, tip), Chain(store, c));
    assert chain == below + [c];
    forall i | 0 <= i < |below| ensures chain[i] == below[i] {
    }
  }

  lemma OneRecordOnTop(store: Store<TreeId>, tip: Oid, c: Oid, subject: Text)
    requires ValidStore(store) && tip < |store| && c < |store| && |store[c].parents| > 0 && store[c].parents[0] == tip
    requires AtMostOneRecord(store, tip, subject) && !IsRecord(store, c, subject)
    ensures AtMostOneRecord(store, c, subject)
  {
    hide IsRecord;
    var (below, chain) := (Chain(store, tip), Chain(store, c));
    assert chain == below + [c];
    forall i | 0 <= i < |below| ensures chain[i] == below[i] {
    }
  }

  /** A merge's subject is the one it was made with. */
  lemma {:induction false} SubjectOfMerge(message: Text, subject: Text, n: nat)
    requires NEWLINE !in subject && n <= |message| && message[..n] == subject + [NEWLINE]
    ensures SubjectOf(message) == subject
  {
    assert message[0] == message[..n][0];
    if subject != [] {
      assert message[1..][..n - 1] == message[..n][1..] == subject[1..] + [NEWLINE];
      SubjectOfMerge(message[1..], subject[1..], n - 1);
      assert subject == [subject[0]] + subject[1..];
    }
  }

  lemma SubjectsDiffer(contrib: Branch, slug: Text)
    ensures LEAF_PREFIX + contrib != SeriesSubject(slug)
  {
    assert (LEAF_PREFIX + contrib)[0] == LEAF_PREFIX[0] == 0x73;
    assert SeriesSubject(slug)[0] == SERIES_PREFIX[0] == 0x6D;
  }

  lemma OtherMergeIsNoRecord(store: Store<TreeId>, tip: Oid, other: Oid, made: Text, merge: Oid, subject: Text)
    requires ValidStore(store) && IsMerge(store, tip, other, made, merge) && !IsAncestor(store, other, tip)
    requires NEWLINE !in made && made != subject
    ensures !IsRecord(store, merge, subject)
  {
    hide IsAncestor, SubjectOf;
    var n :| 0 <= n <= |store[merge].message| && store[merge].message[..n] == made + [NEWLINE];
    SubjectOfMerge(store[merge].message, made, n);
  }

  /** Neither the marker nor the acceptance merge adds a record to a chain that has none. */
  lemma AcceptanceAddsNoRecord(store: Store<TreeId>, tip: Oid, marker: Oid, contrib: Branch, merge: Oid, slug: Text)
    requires ValidStore(store) && IsMerge(store, tip, marker, LEAF_PREFIX + contrib, merge) && NEWLINE !in contrib
    requires NoRecord(store, tip, SeriesSubject(slug))
    ensures NoRecord(store, merge, SeriesSubject(slug))
  {
    hide IsAncestor, IsRecord, SubjectOf;
    if !IsAncestor(store, marker, tip) {
      SubjectsDiffer(contrib, slug);
      assert NEWLINE !in LEAF_PREFIX;
      OtherMergeIsNoRecord(store, tip, marker, LEAF_PREFIX + contrib, merge, SeriesSubject(slug));
      NoRecordOnTop(store, tip, merge, SeriesSubject(slug));
    }
  }

  lemma MarkerIsNoRecord(b: Repo, contrib: Branch, marker: Oid, store: Store<TreeId>, subject: Text)
    requires ValidRepo(b) && ValidStore(store) && Extends(store, b.store) && IsMarked(b, contrib, marker, store)
    ensures NoRecord(b.store, b.heads[contrib], subject) ==> NoRecord(store, marker, subject)
  {
    hide SubjectOf;
    RecordStable(b.store, store, b.heads[contrib], subject);
    if NoRecord(b.store, b.heads[contrib], subject) { NoRecordOnTop(store, b.heads[contrib], marker, subject); }
  }

  /** The branches before the merge, with no record on DEFAULT or the subsystem. */
  lemma StartedHasNoRecord(b: Repo, contrib: Branch, default: Branch, marker: Oid, a: Repo, slug: Text)
    requires ValidRepo(b) && ValidRepo(a) && Extends(a.store, b.store) && IsMarked(b, contrib, marker, a.store)
    requires MAINLINE !in b.heads && default in b.heads && RecordsOk(b, default, slug)
    ensures var started := StartedHeads(b, contrib, default, marker);
            var subject := SeriesSubject(slug);
            && started[default] < |a.store| && NoRecord(a.store, started[default], subject)
            && started[SUBSYSTEM] < |a.store| && NoRecord(a.store, started[SUBSYSTEM], subject)
  {
    hide NoRecord;
    var subject := SeriesSubject(slug);
    MarkerIsNoRecord(b, contrib, marker, a.store, subject);
    RecordStable(b.store, a.store, b.heads[default], subject);
    if SUBSYSTEM in b.heads { RecordStable(b.store, a.store, b.heads[SUBSYSTEM], subject); }
  }

  lemma MarkerKeepsOne(b: Repo, contrib: Branch, marker: Oid, store: Store<TreeId>, subject: Text)
    requires ValidRepo(b) && ValidStore(store) && Extends(store, b.store) && IsMarked(b, contrib, marker, store)
    requires AtMostOneRecord(b.store, b.heads[contrib], subject)
    ensures AtMostOneRecord(store, marker, subject)
  {
    hide SubjectOf;
    RecordStable(b.store, store, b.heads[contrib], subject);
    OneRecordOnTop(store, b.heads[contrib], marker, subject);
  }

  lemma AcceptanceKeepsOne(store: Store<TreeId>, tip: Oid, marker: Oid, contrib: Branch, merge: Oid, slug: Text)
    requires ValidStore(store) && IsMerge(store, tip, marker, LEAF_PREFIX + contrib, merge) && NEWLINE !in contrib
    requires AtMostOneRecord(store, tip, SeriesSubject(slug))
    ensures AtMostOneRecord(store, merge, SeriesSubject(slug))
  {
    hide IsAncestor, IsRecord, SubjectOf;
    if !IsAncestor(store, marker, tip) {
      SubjectsDiffer(contrib, slug);
      assert NEWLINE !in LEAF_PREFIX;
      OtherMergeIsNoRecord(store, tip, marker, LEAF_PREFIX + contrib, merge, SeriesSubject(slug));
      OneRecordOnTop(store, tip, merge, SeriesSubject(slug));
    }
  }

  /** Where mainline exists, also when it is the contributor's branch, or DEFAULT, or both. */
  lemma AcceptanceKeepsOneRecord(b: Repo, contrib: Branch, default: Branch, r: Acceptance, a: Repo, slug: Text)
    requires AcceptStep(b, contrib, default, r, a) && MAINLINE in b.heads
    requires NEWLINE !in contrib && RecordsOk(b, default, slug)
    ensures RecordsOk(a, default, slug)
  {
    hide IsAncestor, IsMerge, AtMostOneRecord;
    BranchNames();
    var subject := SeriesSubject(slug);
    RecordStable(b.store, a.store, b.heads[MAINLINE], subject);
    if SUBSYSTEM in b.heads { RecordStable(b.store, a.store, b.heads[SUBSYSTEM], subject); }
    if Marker(r).Some? {
      var marker := Marker(r).value;
      if contrib == MAINLINE || (contrib == SUBSYSTEM && default == MAINLINE) {
        MarkerKeepsOne(b, contrib, marker, a.store, subject);
      }
      if default == MAINLINE && (r.Merged? || r.Accepted?) {
        var tip := StartedHeads(b, contrib, default, marker)[SUBSYSTEM];
        AcceptanceKeepsOne(a.store, tip, marker, contrib, r.merge, slug);
      }
    }
  }

  lemma AcceptanceKeepsRecords(b: Repo, contrib: Branch, default: Branch, r: Acceptance, a: Repo, slug: Text)
    requires AcceptStep(b, contrib, default, r, a) && NEWLINE !in contrib && RecordsOk(b, default, slug)
    ensures RecordsOk(a, default, slug)
  {
    hide IsAncestor, IsMerge, NoRecord, AtMostOneRecord;
    if MAINLINE in b.heads {
      AcceptanceKeepsOneRecord(b, contrib, default, r, a, slug);
    } else {
      AcceptanceKeepsNoRecord(b, contrib, default, r, a, slug);
    }
  }

  /** Where there is no mainline yet. */
  lemma AcceptanceKeepsNoRecord(b: Repo, contrib: Branch, default: Branch, r: Acceptance, a: Repo, slug: Text)
    requires AcceptStep(b, contrib, default, r, a) && MAINLINE !in b.heads
    requires NEWLINE !in contrib && RecordsOk(b, default, slug)
    ensures RecordsOk(a, default, slug)
  {
    hide IsAncestor, IsMerge, NoRecord, AtMostOneRecord;
    var subject := SeriesSubject(slug);
    if default != MAINLINE && contrib != MAINLINE { AcceptanceKeepsMainline(b, contrib, default, r, a); }
    if default in b.heads { RecordStable(b.store, a.store, b.heads[default], subject); }
    if SUBSYSTEM in b.heads { RecordStable(b.store, a.store, b.heads[SUBSYSTEM], subject); }
    if Marker(r).Some? {
      MarkerIsNoRecord(b, contrib, Marker(r).value, a.store, subject);
      StartedHasNoRecord(b, contrib, default, Marker(r).value, a, slug);
      if r.Merged? || r.Accepted? {
        var tip := StartedHeads(b, contrib, default, r.marker)[SUBSYSTEM];
        AcceptanceAddsNoRecord(a.store, tip, r.marker, contrib, r.merge, slug);
      }
    }
  }

  lemma {:induction false} ChainIsPrefix(store: Store<TreeId>, head: Oid, i: nat)
    requires ValidStore(store) && head < |store| && i < |Chain(store, head)|
    ensures Chain(store, head)[i] < |store| && Chain(store, Chain(store, head)[i]) == Chain(store, head)[..i + 1]
    decreases head
  {
    if store[head].parents != [] {
      var below := Chain(store, store[head].parents[0]);
      if i < |below| {
        ChainIsPrefix(store, store[head].parents[0], i);
        assert Chain(store, head)[..i + 1] == below[..i + 1];
      } else {
        assert Chain(store, head)[..i + 1] == Chain(store, head);
      }
    }
  }

  lemma BaseHasNoRecord(store: Store<TreeId>, tip: Oid, leaves: set<Oid>, base: Oid, subject: Text)
    requires ValidStore(store) && tip < |store| && NoRecord(store, tip, subject)
    requires IsBase(store, Chain(store, tip), leaves, base)
    ensures base < |store| && NoRecord(store, base, subject)
  {
    hide IsRecord, AllAccepted;
    var i :| 0 <= i < |Chain(store, tip)| && Chain(store, tip)[i] == base
      && IsNewestBase(store, Chain(store, tip), leaves, i);
    ChainIsPrefix(store, tip, i);
  }

  lemma HandOffKeepsRecords(b: Repo, default: Branch, handed: Text, leaves: set<Oid>, r: HandOffResult, a: Repo, slug: Text)
    requires HandOffStep(b, handed, leaves, r, a) && NEWLINE !in handed && RecordsOk(b, default, slug)
    ensures RecordsOk(a, default, slug)
  {
    hide IsAncestor, NoRecord, AtMostOneRecord, IsRecord, IsBase, Chain;
    BranchNames();
    var subject := SeriesSubject(slug);
    if MAINLINE in b.heads { RecordStable(b.store, a.store, b.heads[MAINLINE], subject); }
    if default in b.heads { RecordStable(b.store, a.store, b.heads[default], subject); }
    if SUBSYSTEM in b.heads { RecordStable(b.store, a.store, b.heads[SUBSYSTEM], subject); }
    if MAINLINE !in b.heads && MAINLINE in a.heads {
      var anchor := if r.Recorded? then r.anchor else a.heads[MAINLINE];
      BaseHasNoRecord(b.store, b.heads[SUBSYSTEM], leaves, anchor, subject);
      RecordStable(b.store, a.store, anchor, subject);
      NoneIsAtMostOne(a.store, anchor, subject);
      NoneIsAtMostOne(a.store, b.heads[SUBSYSTEM], subject);
    }
    if r.Recorded? { RecordedKeepsRecords(b, handed, leaves, r, a, slug); }
  }

  lemma NoneIsAtMostOne(store: Store<TreeId>, head: Oid, subject: Text)
    requires ValidStore(store) && head < |store| && NoRecord(store, head, subject)
    ensures AtMostOneRecord(store, head, subject)
  {
    hide IsRecord, Chain;
  }

  lemma RecordedKeepsRecords(b: Repo, handed: Text, leaves: set<Oid>, r: HandOffResult, a: Repo, slug: Text)
    requires HandOffStep(b, handed, leaves, r, a) && r.Recorded? && NEWLINE !in handed
    requires r.anchor < |a.store|
    requires AtMostOneRecord(a.store, r.anchor, SeriesSubject(slug))
    requires MAINLINE !in b.heads ==> NoRecord(a.store, r.anchor, SeriesSubject(slug))
    ensures r.commit < |a.store| && AtMostOneRecord(a.store, r.commit, SeriesSubject(slug))
  {
    hide NoRecord, AtMostOneRecord, IsRecord, IsBase, Chain;
    var subject := SeriesSubject(slug);
    MainlineMovesByMerge(b, handed, leaves, r, a);
    AncestorStable(b.store, a.store, b.heads[SUBSYSTEM], r.anchor);
    if handed == slug {
      if MAINLINE in b.heads { RecordStable(b.store, a.store, r.anchor, subject); }
      NoRecordOnTop(a.store, r.anchor, r.commit, subject);
    } else {
      SeriesSubjectsDiffer(handed, slug);
      OtherMergeIsNoRecord(a.store, r.anchor, b.heads[SUBSYSTEM], SeriesSubject(handed), r.commit, subject);
      OneRecordOnTop(a.store, r.anchor, r.commit, subject);
    }
  }

  lemma SeriesSubjectsDiffer(slug: Text, other: Text)
    requires NEWLINE !in slug
    ensures NEWLINE !in SeriesSubject(slug)
    ensures slug != other ==> SeriesSubject(slug) != SeriesSubject(other)
  {
    assert SeriesSubject(slug)[|SERIES_PREFIX|..] == slug && SeriesSubject(other)[|SERIES_PREFIX|..] == other;
  }

  // Runs

  datatype Call =
    | Accept(contrib: Branch, acceptance: Acceptance)
    | Hand(slug: Text, leaves: set<Oid>, result: HandOffResult)
    | Work

  /** Contributors' commits and branches between two calls: anything but the maintainer's three branches. */
  predicate WorkStep(b: Repo, default: Branch, a: Repo) {
    && ValidRepo(b) && ValidRepo(a) && Extends(a.store, b.store)
    && HeadOf(a, MAINLINE) == HeadOf(b, MAINLINE)
    && HeadOf(a, SUBSYSTEM) == HeadOf(b, SUBSYSTEM)
    && HeadOf(a, default) == HeadOf(b, default)
  }

  /** One call, of any branch or series whose name is one line, or work between calls. */
  predicate Step(b: Repo, default: Branch, call: Call, a: Repo) {
    match call
    case Accept(contrib, r) => NEWLINE !in contrib && AcceptStep(b, contrib, default, r, a)
    case Hand(slug, leaves, r) => NEWLINE !in slug && HandOffStep(b, slug, leaves, r, a)
    case Work => WorkStep(b, default, a)
  }

  lemma WorkKeepsRecords(b: Repo, default: Branch, a: Repo, slug: Text)
    requires WorkStep(b, default, a) && RecordsOk(b, default, slug)
    ensures RecordsOk(a, default, slug)
  {
    hide NoRecord, AtMostOneRecord;
    var subject := SeriesSubject(slug);
    if MAINLINE in b.heads { RecordStable(b.store, a.store, b.heads[MAINLINE], subject); }
    if default in b.heads { RecordStable(b.store, a.store, b.heads[default], subject); }
    if SUBSYSTEM in b.heads { RecordStable(b.store, a.store, b.heads[SUBSYSTEM], subject); }
  }

  /** Over any run of acceptances, hand-offs and work on other branches, each series has at most one record on mainline. */
  lemma {:induction false} OneRecordPerSeries(repos: seq<Repo>, default: Branch, calls: seq<Call>, n: nat, slug: Text)
    requires |repos| == |calls| + 1 && n < |repos| && ValidRepo(repos[0]) && RecordsOk(repos[0], default, slug)
    requires forall i :: 0 <= i < |calls| ==> Step(repos[i], default, calls[i], repos[i + 1])
    ensures ValidRepo(repos[n]) && RecordsOk(repos[n], default, slug)
  {
    hide RecordsOk, AcceptStep, HandOffStep, WorkStep;
    if n > 0 {
      OneRecordPerSeries(repos, default, calls, n - 1, slug);
      StepKeepsRecords(repos[n - 1], default, calls[n - 1], repos[n], slug);
    }
  }

  lemma StepKeepsRecords(b: Repo, default: Branch, call: Call, a: Repo, slug: Text)
    requires ValidRepo(b) && Step(b, default, call, a) && RecordsOk(b, default, slug)
    ensures ValidRepo(a) && RecordsOk(a, default, slug)
  {
    hide RecordsOk;
    match call
    case Accept(contrib, r) => AcceptanceKeepsRecords(b, contrib, default, r, a, slug);
    case Hand(handed, leaves, r) => HandOffKeepsRecords(b, default, handed, leaves, r, a, slug);
    case Work => WorkKeepsRecords(b, default, a, slug);
  }
}
