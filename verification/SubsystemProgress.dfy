/** What the two maintainer boundaries achieve when no Git command fails. */
module SubsystemProgress {
  import opened Prelude
  import opened Utf8
  import opened PyText
  import opened Git
  import opened Subsystem

  // When an acceptance that has merged can forward DEFAULT

  /** DEFAULT stands on a commit that the subsystem or the contributor's branch holds, or is one of the two, or
      the subsystem starts from it. */
  predicate HoldsDefault(b: Repo, contrib: Branch, default: Branch)
    requires ValidRepo(b) && contrib in b.heads && default in b.heads
  {
    || default == SUBSYSTEM || default == contrib || SUBSYSTEM !in b.heads
    || IsAncestor(b.store, b.heads[default], b.heads[SUBSYSTEM])
    || IsAncestor(b.store, b.heads[default], b.heads[contrib])
  }

  lemma AncestorOfChild(store: Store<TreeId>, a: Oid, c: Oid)
    requires ValidStore(store) && c < |store|
    ensures |store[c].parents| == 1 ==> (IsAncestor(store, a, c) <==> a == c || IsAncestor(store, a, store[c].parents[0]))
    ensures |store[c].parents| == 2 ==>
      (IsAncestor(store, a, c) <==>
         a == c || IsAncestor(store, a, store[c].parents[0]) || IsAncestor(store, a, store[c].parents[1]))
  {
  }

  /** The ancestors of what `git merge` leaves are those of both sides. */
  lemma AncestorOfMerge(store: Store<TreeId>, a: Oid, tip: Oid, other: Oid, subject: Text, merge: Oid)
    requires ValidStore(store) && IsMerge(store, tip, other, subject, merge)
    ensures IsAncestor(store, a, merge) <==> a == merge || IsAncestor(store, a, tip) || IsAncestor(store, a, other)
    ensures merge < |store| && IsAncestor(store, tip, merge) && IsAncestor(store, other, merge)
  {
    hide IsAncestor;
    AncestorOfChild(store, a, merge);
    AncestorOfChild(store, tip, merge);
    AncestorOfChild(store, other, merge);
    SelfIsAncestor(store, tip);
    SelfIsAncestor(store, other);
    if IsAncestor(store, other, tip) && IsAncestor(store, a, other) { AncestorTransitive(store, a, other, tip); }
  }

  lemma SelfIsAncestor(store: Store<TreeId>, c: Oid)
    requires ValidStore(store) && c < |store|
    ensures IsAncestor(store, c, c)
  {
  }

  /** An acceptance that has merged, and whose fast-forward does not fail by itself, completes if and only if
      DEFAULT's commit is held by the subsystem or the contribution, or is itself the marker or the merge. */
  lemma ForwardsExactly(b: Repo, contrib: Branch, default: Branch, f: AcceptFaults, r: Acceptance, a: Repo)
    requires AcceptStep(b, contrib, default, r, a) && AcceptsAs(b, contrib, default, f, r, a)
    requires (r.Merged? || r.Accepted?) && !f.forward
    ensures r.Accepted? <==> HoldsDefault(b, contrib, default) || b.heads[default] == r.marker || b.heads[default] == r.merge
  {
    hide IsAncestor, IsMerge;
    var started := StartedHeads(b, contrib, default, r.marker);
    var (tip, before) := (started[SUBSYSTEM], b.heads[default]);
    var now := started[SUBSYSTEM := r.merge][default];
    AncestorOfMerge(a.store, now, tip, r.marker, LEAF_PREFIX + contrib, r.merge);
    AncestorOfMerge(a.store, before, tip, r.marker, LEAF_PREFIX + contrib, r.merge);
    AncestorOfChild(a.store, before, r.marker);
    AncestorStable(b.store, a.store, before, b.heads[contrib]);
    if SUBSYSTEM in b.heads { AncestorStable(b.store, a.store, before, b.heads[SUBSYSTEM]); }
    SelfIsAncestor(a.store, tip);
    SelfIsAncestor(a.store, r.merge);
  }

  const NO_FAULTS := AcceptFaults(false, false, false, false, false)

  /** DEFAULT is there, and the subsystem, where there is one, holds its commit. */
  predicate Forwardable(repo: Repo, default: Branch) {
    && ValidRepo(repo) && default in repo.heads
    && (SUBSYSTEM in repo.heads ==> IsAncestor(repo.store, repo.heads[default], repo.heads[SUBSYSTEM]))
  }

  /** With no failing command, the acceptance of any branch that exists completes. */
  lemma FaultlessAcceptanceCompletes(b: Repo, contrib: Branch, default: Branch, r: Acceptance, a: Repo)
    requires Forwardable(b, default) && contrib in b.heads
    requires AcceptStep(b, contrib, default, r, a)
    requires AcceptsAs(b, contrib, default, NO_FAULTS, r, a)
    ensures r.Accepted?
  {
    hide IsAncestor, IsMerge;
    if r.Merged? { ForwardsExactly(b, contrib, default, NO_FAULTS, r, a); }
  }

  /** An acceptance of an existing branch that no command fails is complete. */
  predicate Completes(b: Repo, default: Branch, call: Call, a: Repo) {
    && call.Accept? && call.contrib in b.heads
    && AcceptStep(b, call.contrib, default, call.acceptance, a)
    && AcceptsAs(b, call.contrib, default, NO_FAULTS, call.acceptance, a)
    ==> call.acceptance.Accepted?
  }

  /** Work and calls that leave DEFAULT to the maintainer. */
  predicate LeavesDefault(call: Call, default: Branch) {
    call.Accept? ==> call.contrib != default && call.contrib != SUBSYSTEM
  }

  lemma AcceptanceKeepsForwardable(b: Repo, contrib: Branch, default: Branch, r: Acceptance, a: Repo)
    requires AcceptStep(b, contrib, default, r, a) && Forwardable(b, default)
    requires contrib != default && contrib != SUBSYSTEM && default != SUBSYSTEM
    ensures Forwardable(a, default)
  {
    hide IsAncestor, IsMerge;
    var before := b.heads[default];
    SelfIsAncestor(a.store, before);
    if SUBSYSTEM in b.heads { AncestorStable(b.store, a.store, before, b.heads[SUBSYSTEM]); }
    if r.Merged? || r.Accepted? {
      var tip := StartedHeads(b, contrib, default, r.marker)[SUBSYSTEM];
      AncestorOfMerge(a.store, before, tip, r.marker, LEAF_PREFIX + contrib, r.merge);
      SelfIsAncestor(a.store, r.merge);
    }
  }

  lemma OtherStepsKeepForwardable(b: Repo, default: Branch, call: Call, a: Repo)
    requires Step(b, default, call, a) && !call.Accept? && Forwardable(b, default) && default != MAINLINE
    ensures Forwardable(a, default)
  {
    hide IsAncestor, IsMerge, IsBase, Chain, IsRecord;
    BranchNames();
    if SUBSYSTEM in b.heads { AncestorStable(b.store, a.store, b.heads[default], b.heads[SUBSYSTEM]); }
    assert HeadOf(a, default) == HeadOf(b, default) && HeadOf(a, SUBSYSTEM) == HeadOf(b, SUBSYSTEM);
  }

  /** Whatever acceptances were cut short before it, and whatever was handed off, the next acceptance that no
      command fails completes: no failure strands the subsystem. */
  lemma {:induction false} AcceptanceNeverStrands(repos: seq<Repo>, default: Branch, calls: seq<Call>, n: nat)
    requires |repos| == |calls| + 1 && n < |repos| && Forwardable(repos[0], default)
    requires default != MAINLINE && default != SUBSYSTEM
    requires forall i :: 0 <= i < |calls| ==> Step(repos[i], default, calls[i], repos[i + 1]) && LeavesDefault(calls[i], default)
    ensures Forwardable(repos[n], default)
    ensures n < |calls| ==> Completes(repos[n], default, calls[n], repos[n + 1])
  {
    hide Forwardable, AcceptStep, AcceptsAs, HandOffStep, WorkStep;
    if n > 0 {
      AcceptanceNeverStrands(repos, default, calls, n - 1);
      assert Step(repos[n - 1], default, calls[n - 1], repos[n]) && LeavesDefault(calls[n - 1], default);
      if calls[n - 1].Accept? {
        AcceptanceKeepsForwardable(repos[n - 1], calls[n - 1].contrib, default, calls[n - 1].acceptance, repos[n]);
      } else {
        OtherStepsKeepForwardable(repos[n - 1], default, calls[n - 1], repos[n]);
      }
    }
    if n < |calls| && calls[n].Accept? {
      var (call, b, a) := (calls[n], repos[n], repos[n + 1]);
      assert Step(b, default, call, a);
      if call.contrib in b.heads && AcceptsAs(b, call.contrib, default, NO_FAULTS, call.acceptance, a) {
        FaultlessAcceptanceCompletes(b, call.contrib, default, call.acceptance, a);
      }
    }
  }

  // Where the first hand-off starts mainline

  /** Merge i takes in leaf i above the merge before it. */
  predicate StackedAt(store: Store<TreeId>, below: Oid, merges: seq<Oid>, leaves: seq<Oid>, i: nat)
    requires i < |merges| && i < |leaves|
  {
    merges[i] < |store| && store[merges[i]].parents == [if i == 0 then below else merges[i - 1], leaves[i]]
  }

  /** One acceptance merge above another, from below: each takes in one leaf. */
  predicate IsStack(store: Store<TreeId>, below: Oid, merges: seq<Oid>, leaves: seq<Oid>) {
    |merges| == |leaves| && forall i :: 0 <= i < |merges| ==> StackedAt(store, below, merges, leaves, i)
  }

  lemma {:induction false} ChainOfStack(store: Store<TreeId>, below: Oid, merges: seq<Oid>, leaves: seq<Oid>)
    requires ValidStore(store) && below < |store| && IsStack(store, below, merges, leaves)
    ensures var tip := if merges == [] then below else merges[|merges| - 1];
            tip < |store| && Chain(store, tip) == Chain(store, below) + merges
    decreases |merges|
  {
    if merges == [] {
      assert Chain(store, below) + [] == Chain(store, below);
    } else {
      var n := |merges| - 1;
      forall i | 0 <= i < n ensures StackedAt(store, below, merges[..n], leaves[..n], i) {
        assert StackedAt(store, below, merges, leaves, i);
      }
      assert StackedAt(store, below, merges, leaves, n);
      ChainOfStack(store, below, merges[..n], leaves[..n]);
      assert merges == merges[..n] + [merges[n]];
      assert Chain(store, below) + merges == Chain(store, below) + merges[..n] + [merges[n]];
    }
  }

  lemma StackAccepts(store: Store<TreeId>, below: Oid, merges: seq<Oid>, leaves: seq<Oid>, i: nat, leaf: Oid)
    requires IsStack(store, below, merges, leaves) && i < |merges|
    ensures Accepts(store, merges[i], leaf) <==> leaf == leaves[i]
  {
    assert StackedAt(store, below, merges, leaves, i);
    var parents := store[merges[i]].parents;
    assert parents[1] == leaves[i] && |parents| == 2;
  }

  lemma StackIsBased(store: Store<TreeId>, below: Oid, merges: seq<Oid>, leaves: seq<Oid>, tip: Oid)
    requires ValidStore(store) && below < |store| && IsStack(store, below, merges, leaves)
    requires merges != [] && tip == merges[|merges| - 1]
    requires forall i :: 0 < i < |leaves| ==> leaves[i] != leaves[0]
    ensures tip < |store| && IsBase(store, Chain(store, tip), set i | 0 <= i < |leaves| :: leaves[i], below)
  {
    hide Accepts;
    var all := set i | 0 <= i < |leaves| :: leaves[i];
    assert StackedAt(store, below, merges, leaves, |merges| - 1);
    ChainOfStack(store, below, merges, leaves);
    hide Chain, IsStack;
    var (chain, seen) := (Chain(store, tip), Chain(store, below));
    var n := |seen| - 1;
    assert seen[n] == below;
    assert chain[n] == below && chain[n + 1..] == merges && chain[n + 2..] == merges[1..];
    forall leaf | leaf in all ensures exists j :: 0 <= j < |merges| && Accepts(store, merges[j], leaf) {
      var j :| 0 <= j < |leaves| && leaves[j] == leaf;
      StackAccepts(store, below, merges, leaves, j, leaf);
    }
    assert !AllAccepted(store, merges[1..], all) by {
      assert leaves[0] in all;
      forall j | 0 <= j < |merges[1..]| ensures !Accepts(store, merges[1..][j], leaves[0]) {
        StackAccepts(store, below, merges, leaves, j + 1, leaves[0]);
      }
    }
    assert IsNewestBase(store, chain, all, n);
  }

  /** Where the series' leaves were accepted one above another and there is no mainline yet, the hand-off
      starts mainline at the commit that the subsystem stood at before the first of them. */
  lemma HandOffStartsBelowTheSeries(b: Repo, slug: Text, below: Oid, merges: seq<Oid>, leaves: seq<Oid>, r: HandOffResult, a: Repo)
    requires HandOffStep(b, slug, set i | 0 <= i < |leaves| :: leaves[i], r, a) && r.Recorded? && MAINLINE !in b.heads
    requires below < |b.store| && IsStack(b.store, below, merges, leaves)
    requires merges != [] && b.heads[SUBSYSTEM] == merges[|merges| - 1]
    requires forall i :: 0 < i < |leaves| ==> leaves[i] != leaves[0]
    ensures r.anchor == below && r.commit < |a.store| && a.store[r.commit].parents == [below, b.heads[SUBSYSTEM]]
  {
    hide Chain, IsAncestor, AllAccepted, IsStack, IsRecord;
    var all := set i | 0 <= i < |leaves| :: leaves[i];
    var tip := b.heads[SUBSYSTEM];
    StackIsBased(b.store, below, merges, leaves, tip);
    BaseIsOne(b.store, Chain(b.store, tip), all, below, r.anchor);
    MainlineMovesByMerge(b, slug, all, r, a);
  }

  /** There is at most one newest base. */
  lemma BaseIsOne(store: Store<TreeId>, chain: seq<Oid>, leaves: set<Oid>, base: Oid, other: Oid)
    requires IsBase(store, chain, leaves, base) && IsBase(store, chain, leaves, other)
    ensures base == other
  {
    hide AllAccepted;
    var i :| 0 <= i < |chain| && chain[i] == base && IsNewestBase(store, chain, leaves, i);
    var j :| 0 <= j < |chain| && chain[j] == other && IsNewestBase(store, chain, leaves, j);
    NewestBaseExactly(store, chain, leaves, i, j);
    NewestBaseExactly(store, chain, leaves, j, i);
  }

  // Handing off again

  /** What a hand-off records is what the walk down mainline finds. */
  lemma RecordedIsFound(b: Repo, slug: Text, leaves: set<Oid>, r: HandOffResult, a: Repo)
    requires HandOffStep(b, slug, leaves, r, a) && r.Recorded? && NEWLINE !in slug
    ensures IsMainlineRecord(a, SeriesSubject(slug), r.commit)
  {
    hide IsAncestor, IsBase, NoRecord, SubjectOf;
    var subject := SeriesSubject(slug);
    MainlineMovesByMerge(b, slug, leaves, r, a);
    AncestorStable(b.store, a.store, b.heads[SUBSYSTEM], r.anchor);
    assert NEWLINE !in SERIES_PREFIX;
    var n :| 0 <= n <= |a.store[r.commit].message| && a.store[r.commit].message[..n] == subject + [NEWLINE];
    SubjectOfMerge(a.store[r.commit].message, subject, n);
    var chain := Chain(a.store, r.commit);
    assert chain == Chain(a.store, r.anchor) + [r.commit];
    assert chain[|chain| - 1] == r.commit && IsRecord(a.store, r.commit, subject);
  }

  lemma NewestIsOne(store: Store<TreeId>, chain: seq<Oid>, subject: Text, c: Oid, d: Oid)
    requires IsNewestRecord(store, chain, subject, c) && IsNewestRecord(store, chain, subject, d)
    ensures c == d
  {
    hide IsRecord;
    var i :| 0 <= i < |chain| && chain[i] == c && IsRecord(store, c, subject) && forall j :: i < j < |chain| ==> !IsRecord(store, chain[j], subject);
    var k :| 0 <= k < |chain| && chain[k] == d && IsRecord(store, d, subject) && forall j :: k < j < |chain| ==> !IsRecord(store, chain[j], subject);
  }

  /** A series that has been handed off is current from then on: handing it off again, with whatever leaves and
      whether or not its branch is still there, finds that record and changes nothing. */
  lemma HandOffIsIdempotent(b: Repo, slug: Text, leaves: set<Oid>, r: HandOffResult, a: Repo,
                            again: set<Oid>, seriesTip: bool, f: HandFaults, r': HandOffResult, a': Repo)
    requires HandOffStep(b, slug, leaves, r, a) && r.Recorded? && NEWLINE !in slug
    requires HandOffStep(a, slug, again, r', a') && HandsOffAs(a, slug, true, again, seriesTip, f, r')
    ensures r' == AlreadyCurrent(r.commit) && a'.heads == a.heads
  {
    hide IsNewestRecord, IsAncestor, IsBase, IsMerge, AllAccepted, NoRecord, IsRecord, Chain;
    RecordedIsFound(b, slug, leaves, r, a);
    assert r'.AlreadyCurrent?;
    NewestIsOne(a.store, Chain(a.store, a.heads[MAINLINE]), SeriesSubject(slug), r.commit, r'.commit);
  }
}
