/** What `advance_cursor` and the reader's loop achieve: when a call ends in which result, and that a reader
    that is left alone catches up. */
module MailReading {
  import opened Prelude
  import opened Utf8
  import opened Git
  import MailMessage
  import opened MailList
  import opened MailReaders
  import D = MailDelivery

  // A call that steps alone

  predicate SteppedOnce(w: CursorWorld, caller: nat, w': CursorWorld) {
    ListOk(w.store, w.list) && CursorNext(w, CursorStep(caller), w')
  }

  /** The one result that the list and the cursor ask for. */
  predicate AsksFor(w: CursorWorld, reader: Text, target: Oid, result: Advance)
    requires ListOk(w.store, w.list)
  {
    match result
    case NotOnList => !OnListNow(w.store, w.list, target)
    case Unmoved => OnListNow(w.store, w.list, target) && CursorOf(w, reader) == Some(target)
    case Behind(c) =>
      && OnListNow(w.store, w.list, target) && CursorOf(w, reader) == Some(c)
      && (target < |w.store| ==> !IsAncestor(w.store, c, target))
    case Moved =>
      && OnListNow(w.store, w.list, target) && CursorOf(w, reader) != Some(target)
      && (reader in w.cursors && target < |w.store| ==> IsAncestor(w.store, w.cursors[reader], target))
    case Contended => false
  }

  /** Three steps of one call, with nobody in between, end in the result that the list and the cursor ask for.
      It is the only one they ask for, and only a move changes anything. */
  lemma AloneAdvances(w: CursorWorld, w1: CursorWorld, w2: CursorWorld, w3: CursorWorld, caller: nat, reader: Text, target: Oid)
    requires CursorInv(w) && caller in w.calls && w.calls[caller] == Called(reader, target)
    requires SteppedOnce(w, caller, w1) && SteppedOnce(w1, caller, w2) && SteppedOnce(w2, caller, w3)
    ensures caller in w3.calls && w3.calls[caller].Returned?
    ensures var result := w3.calls[caller].result;
            && w3.calls[caller] == Returned(reader, target, result)
            && AsksFor(w, reader, target, result)
            && (forall other :: AsksFor(w, reader, target, other) ==> other == result)
            && w3 == w.(calls := w.calls[caller := w3.calls[caller]],
                        cursors := if result.Moved? then w.cursors[reader := target] else w.cursors)
  {
    hide Linear, IsAncestor, OnListNow, CursorPhaseOk;
    if OnListNow(w.store, w.list, target) {
      TargetInStore(w, target);
      SelfAncestor(w, target);
    }
    assert w1.store == w.store && w1.list == w.list && w2.store == w.store && w2.list == w.list;
    assert w.calls[caller := w1.calls[caller]] == w1.calls;
  }

  // A call that loses

  /** The reader's cursor changes in step i. */
  predicate Changes(worlds: seq<CursorWorld>, reader: Text, i: nat)
    requires i + 1 < |worlds|
  {
    CursorOf(worlds[i], reader) != CursorOf(worlds[i + 1], reader)
  }

  /** How often the cursor changes from m to n. */
  function ChangesBetween(worlds: seq<CursorWorld>, reader: Text, m: nat, n: nat): nat
    requires m <= n < |worlds|
    decreases n - m
  {
    if m == n then 0 else ChangesBetween(worlds, reader, m, n - 1) + if Changes(worlds, reader, n - 1) then 1 else 0
  }

  /** The call of this caller, begun in step m. */
  predicate IsCallFrom(worlds: seq<CursorWorld>, actions: seq<CursorAction>, m: nat, caller: nat, reader: Text, target: Oid) {
    m < |actions| && |worlds| == |actions| + 1 && actions[m] == CursorAction.Advance(caller, reader, target)
  }

  /** What the phase of a call says about the changes since it began. */
  predicate LostEnough(worlds: seq<CursorWorld>, reader: Text, target: Oid, m: nat, n: nat, phase: CursorPhase)
    requires m <= n < |worlds|
  {
    var changes := ChangesBetween(worlds, reader, m, n);
    match phase
    case Called(r, t) => r == reader && t == target
    case Listed(r, t, attempt) => r == reader && t == target && changes >= attempt
    case Comparing(r, t, attempt, current) =>
      && r == reader && t == target && changes >= attempt && attempt < APPEND_ATTEMPTS
      && (CursorOf(worlds[n], reader) != current ==> changes > attempt)
    case Returned(r, t, Contended) => r == reader && t == target && changes >= APPEND_ATTEMPTS
    case Returned(r, t, _) => r == reader && t == target
  }

  lemma {:induction false} CallLoses(worlds: seq<CursorWorld>, actions: seq<CursorAction>, m: nat, n: nat, caller: nat, reader: Text, target: Oid)
    requires IsCursorRun(worlds, actions) && IsCallFrom(worlds, actions, m, caller, reader, target) && m + 1 <= n < |worlds|
    ensures caller in worlds[n].calls && LostEnough(worlds, reader, target, m + 1, n, worlds[n].calls[caller])
    decreases n
  {
    hide IsAncestor, ListOk, OnListNow;
    assert CursorStepOk(worlds[n - 1], actions[n - 1], worlds[n]);
    if n > m + 1 {
      CallLoses(worlds, actions, m, n - 1, caller, reader, target);
      CursorsStayOnList(worlds, actions, n - 1);
      assert ChangesBetween(worlds, reader, m + 1, n)
          == ChangesBetween(worlds, reader, m + 1, n - 1) + if Changes(worlds, reader, n - 1) then 1 else 0;
      if actions[n - 1] == CursorStep(caller) {
        OwnStepLoses(worlds, actions, m, n, caller, reader, target);
      }
    }
  }

  lemma OwnStepLoses(worlds: seq<CursorWorld>, actions: seq<CursorAction>, m: nat, n: nat, caller: nat, reader: Text, target: Oid)
    requires m + 1 < n < |worlds| && |worlds| == |actions| + 1 && actions[n - 1] == CursorStep(caller)
    requires CursorInv(worlds[n - 1]) && CursorStepOk(worlds[n - 1], actions[n - 1], worlds[n])
    requires caller in worlds[n - 1].calls && LostEnough(worlds, reader, target, m + 1, n - 1, worlds[n - 1].calls[caller])
    ensures caller in worlds[n].calls && LostEnough(worlds, reader, target, m + 1, n, worlds[n].calls[caller])
  {
    hide IsAncestor, ListOk;
    var (v, w) := (worlds[n - 1], worlds[n]);
    assert ChangesBetween(worlds, reader, m + 1, n)
        == ChangesBetween(worlds, reader, m + 1, n - 1) + if Changes(worlds, reader, n - 1) then 1 else 0;
    assert CursorPhaseOk(v, v.calls[caller]);
    if v.calls[caller].Listed? { TargetIsStored(v, target); }
  }

  lemma TargetIsStored(w: CursorWorld, target: Oid)
    requires ListOk(w.store, w.list) && OnListNow(w.store, w.list, target)
    ensures target < |w.store|
  {
    hide Linear, IsAncestor;
  }

  /** In any run, a call gives up as contended only after the reader's cursor was changed four times under it. */
  lemma ContendedHasReason(worlds: seq<CursorWorld>, actions: seq<CursorAction>, m: nat, n: nat, caller: nat, reader: Text, target: Oid)
    requires IsCursorRun(worlds, actions) && IsCallFrom(worlds, actions, m, caller, reader, target) && m < n < |worlds|
    ensures caller in worlds[n].calls
    ensures worlds[n].calls[caller].Returned? && worlds[n].calls[caller].result.Contended? ==>
      ChangesBetween(worlds, reader, m + 1, n) >= APPEND_ATTEMPTS
  {
    hide IsCursorRun, ChangesBetween;
    CallLoses(worlds, actions, m, n, caller, reader, target);
  }

  // The reader's loop, left alone

  /** Everything on the list has been given, and the cursor stands at its head. */
  predicate CaughtUp(w: D.Reader)
    requires ListOk(w.store, w.list)
  {
    && w.delivered == D.PostsUpTo(w.store, w.list)
    && w.cursor == if w.delivered == [] then None else w.list
  }

  /** Everything on the list has been given. */
  predicate AllGiven(w: D.Reader)
    requires ListOk(w.store, w.list)
  {
    w.delivered == D.PostsUpTo(w.store, w.list)
  }

  /** At most how many steps a reader alone takes to catch up. */
  function StepsLeft(w: D.Reader): nat
    requires ListOk(w.store, w.list)
  {
    if CaughtUp(w) then 0
    else
      match w.phase
      case Idle => 6
      case Broken => 6
      case Reading(_) => 5
      case Listing(_) => 4
      case Given(_) => if AllGiven(w) then 3 else 9
      case Checked(_) => if AllGiven(w) then 2 else 8
      case Moving(_, _) => if AllGiven(w) then 1 else 7
  }

  /** A cursor that a reader keeps is of no list, or of the list there is. */
  lemma KeptIsListed(w: D.Reader)
    requires D.ReaderInv(w)
    ensures w.cursor.Some? ==> w.cursor.value < |w.store| && w.list.Some? && D.PostOnList(w, w.cursor.value)
    ensures D.Mark(w).Some? ==> D.Mark(w).value < |w.store| && w.list.Some? && D.PostOnList(w, D.Mark(w).value)
  {
    hide Linear, IsAncestor, D.PostsUpTo, D.Blocked, D.Rooted, D.Parsed;
  }

  /** Of two listed posts with the same posts up to them, both are the same. */
  lemma SamePostsSamePlace(w: D.Reader, c: Oid, d: Oid)
    requires ListOk(w.store, w.list) && D.PostOnList(w, c) && D.PostOnList(w, d)
    requires c < |w.store| && d < |w.store| && D.PostsUpTo(w.store, Some(c)) == D.PostsUpTo(w.store, Some(d))
    ensures c == d && D.PostsUpTo(w.store, Some(c)) != []
  {
    hide Linear, IsAncestor;
    LastOfPosts(w.store, c);
    LastOfPosts(w.store, d);
  }

  lemma LastOfPosts(store: Store<TreeId>, c: Oid)
    requires ValidStore(store) && c < |store| && store[c].parents != []
    ensures var posts := D.PostsUpTo(store, Some(c)); posts != [] && posts[|posts| - 1] == c
  {
    var chain := Chain(store, c);
    assert chain == Chain(store, store[c].parents[0]) + [c];
    assert chain[|chain| - 1] == c && |chain| > 1;
  }

  lemma RootIsAlone(store: Store<TreeId>, c: Oid)
    requires ValidStore(store) && c < |store|
    ensures store[c].parents == [] ==> Chain(store, c) == [c]
  {
  }

  /** The head of a list that holds a post is a post. */
  lemma HeadIsPost(w: D.Reader)
    requires ListOk(w.store, w.list) && w.list.Some? && D.PostsUpTo(w.store, w.list) != []
    ensures D.PostOnList(w, w.list.value)
  {
    var head := w.list.value;
    assert Some(head) == w.list;
    RootIsAlone(w.store, head);
    assert IsAncestor(w.store, head, head);
  }

  /** Where everything has been given, the mark stands at the head of the list. */
  lemma AllGivenIsHead(w: D.Reader)
    requires D.ReaderInv(w) && AllGiven(w)
    ensures D.Mark(w) == if w.delivered == [] then None else w.list
  {
    hide Linear, IsAncestor, D.PostsUpTo, D.Blocked, D.Rooted, D.Parsed, D.PostOnList, D.Mark;
    KeptIsListed(w);
    DeliveredIsMarked(w);
    if D.Mark(w).Some? {
      assert D.PostsUpTo(w.store, Some(D.Mark(w).value)) == w.delivered;
      MarkIsPost(w);
      if w.delivered != [] {
        HeadIsPost(w);
        SamePostsSamePlace(w, D.Mark(w).value, w.list.value);
      }
    }
  }

  lemma DeliveredIsMarked(w: D.Reader)
    requires D.ReaderInv(w)
    ensures D.Mark(w).Some? ==> D.Mark(w).value < |w.store|
    ensures w.delivered == D.PostsUpTo(w.store, D.Mark(w))
    ensures D.Mark(w).None? ==> w.delivered == []
  {
    hide Linear, IsAncestor, D.Blocked, D.Rooted, D.Parsed;
    KeptIsListed(w);
  }

  lemma MarkIsPost(w: D.Reader)
    requires D.ReaderInv(w) && D.Mark(w).Some?
    ensures w.delivered != []
  {
    hide Linear, IsAncestor, D.Blocked, D.Rooted, D.Parsed;
    KeptIsListed(w);
    LastOfPosts(w.store, D.Mark(w).value);
  }

  /** A reader whose cursor has moved on is not blocked where it was not before. */
  lemma UnblockedStays(w: D.Reader, c: Option<Oid>, d: Option<Oid>)
    requires ListOk(w.store, w.list) && (c.Some? ==> c.value < |w.store|) && (d.Some? ==> d.value < |w.store|)
    requires D.Behind(w.store, c) <= D.Behind(w.store, d)
    ensures !D.Blocked(w, c) ==> !D.Blocked(w, d)
  {
    hide D.Unparsed, D.Behind;
  }

  /** One read, with nobody in between. */
  predicate ReadOnce(w: D.Reader, w': D.Reader) {
    D.ReaderNext(w, D.ReaderAction.Read, w')
  }

  lemma ReadKeeps(w: D.Reader, w': D.Reader)
    requires D.ReaderInv(w) && ReadOnce(w, w')
    ensures D.ReaderInv(w') && ListOk(w.store, w.list) && w'.store == w.store && w'.list == w.list
  {
    hide D.AfterStep, D.ReaderInv, D.ListStands;
    D.StepKeepsInvariant(w, D.ReaderAction.Read, w');
    D.InvStands(w);
    StandsIsOk(w);
  }

  lemma StandsIsOk(w: D.Reader)
    requires D.ListStands(w.store, w.list)
    ensures ListOk(w.store, w.list)
  {
    hide Linear, D.Rooted;
  }

  predicate CursorStored(w: D.Reader) {
    w.cursor.Some? ==> w.cursor.value < |w.store|
  }

  /** What is left after a listing that is not blocked: everything has been given. */
  lemma ListingGivesAll(w: D.Reader, w': D.Reader)
    requires D.ReaderInv(w) && w.phase.Listing? && ReadOnce(w, w')
    requires ListOk(w.store, w.list) && CursorStored(w) && !D.Blocked(w, w.cursor)
    ensures ListOk(w'.store, w'.list) && AllGiven(w') && (w'.phase.Idle? || w'.phase.Given?) && w'.cursor == w.cursor
  {
    hide Linear, OnListNow, D.Selected, D.Posts, D.PostsUpTo, D.Blocked, D.Rooted, D.Parsed, D.PostOnList, MailMessage.Parse;
    D.ListingStep(w);
  }

  /** A post that everything has been given up to is caught up with as soon as the cursor stands there. */
  lemma MarkedIsCaughtUp(w: D.Reader)
    requires D.ReaderInv(w) && ListOk(w.store, w.list) && AllGiven(w) && D.Mark(w) == w.cursor
    ensures CaughtUp(w)
  {
    hide D.ReaderInv, D.PostsUpTo, D.Mark, ListOk;
    AllGivenIsHead(w);
  }

  /** A step between two listings gives nothing and moves only the cursor, and that to the mark. */
  lemma BetweenListings(w: D.Reader, w': D.Reader)
    requires D.ReaderInv(w) && ReadOnce(w, w') && !w.phase.Listing?
    ensures w'.delivered == w.delivered
    ensures w'.cursor == w.cursor || (w.phase.Moving? && w'.cursor == Some(w.phase.last) && w'.phase.Idle?)
    ensures w.phase.Given? ==> w'.phase == D.Checked(w.phase.last)
    ensures w.phase.Checked? ==> (w'.phase.Idle? && w.cursor == Some(w.phase.last)) || w'.phase == D.Moving(w.phase.last, w.cursor)
    ensures w.phase.Moving? ==> w'.phase.Idle? && w'.cursor == Some(w.phase.last)
    ensures w.phase.Idle? || w.phase.Broken? ==> w'.phase == D.Reading(w.cursor)
    ensures w.phase.Reading? ==> if w.list.None? then w'.phase.Idle? else w'.phase == D.Listing(w.phase.since)
  {
    hide Linear, OnListNow, IsAncestor, D.Selected, D.Posts, D.PostsUpTo, D.Blocked, D.Rooted, D.Parsed, MailMessage.Parse;
    assert w.delivered + [] == w.delivered;
    D.OnlyReadsBreak(w);
    if w.phase.Given? || w.phase.Checked? || w.phase.Moving? { D.AdvanceStep(w); }
  }

  lemma NoListIsCaughtUp(w: D.Reader)
    requires D.ReaderInv(w) && ListOk(w.store, w.list) && w.list.None?
    ensures CaughtUp(w)
  {
    hide Linear, IsAncestor, D.Blocked, D.Rooted, D.Parsed;
    KeptIsListed(w);
    DeliveredIsMarked(w);
  }

  /** A reader that is not blocked takes one step fewer, or has caught up. */
  lemma ReadMakesProgress(w: D.Reader, w': D.Reader)
    requires D.ReaderInv(w) && ReadOnce(w, w') && ListOk(w.store, w.list) && ListOk(w'.store, w'.list)
    requires CursorStored(w) && !D.Blocked(w, w.cursor) && !CaughtUp(w)
    ensures StepsLeft(w') < StepsLeft(w)
  {
    hide Linear, ListOk, D.ReaderInv, D.PostsUpTo, D.Blocked, CaughtUp, ReadOnce;
    ReadKeeps(w, w');
    if w.list.None? { NoListIsCaughtUp(w); }
    if w.phase.Listing? {
      ListingGivesAll(w, w');
      if w'.phase.Idle? { MarkedIsCaughtUp(w'); }
    } else {
      BetweenListings(w, w');
      if AllGiven(w) {
        AllGivenIsHead(w);
        if D.Mark(w) == w.cursor { MarkedIsCaughtUp(w); }
        if w'.phase.Idle? { MarkedIsCaughtUp(w'); }
      }
    }
  }

  /** What has been caught up with stays so while the list does not grow. */
  lemma CaughtUpStays(w: D.Reader, w': D.Reader)
    requires D.ReaderInv(w) && ReadOnce(w, w') && ListOk(w.store, w.list) && ListOk(w'.store, w'.list)
    requires CursorStored(w) && !D.Blocked(w, w.cursor) && CaughtUp(w)
    ensures CaughtUp(w')
  {
    hide Linear, ListOk, D.ReaderInv, D.PostsUpTo, D.Blocked, ReadOnce;
    ReadKeeps(w, w');
    AllGivenIsHead(w);
    if w.phase.Listing? {
      ListingGivesAll(w, w');
    } else {
      BetweenListings(w, w');
      MovesToMark(w);
    }
  }

  lemma MovesToMark(w: D.Reader)
    ensures w.phase.Moving? ==> D.Mark(w) == Some(w.phase.last)
  {
  }

  lemma UnblockedAfter(w: D.Reader, w': D.Reader)
    requires D.ReaderInv(w) && ReadOnce(w, w') && ListOk(w.store, w.list) && CursorStored(w) && !D.Blocked(w, w.cursor)
    ensures ListOk(w'.store, w'.list) && CursorStored(w') && !D.Blocked(w', w'.cursor)
  {
    hide Linear, ListOk, D.ReaderInv, D.PostsUpTo, D.Blocked, ReadOnce, D.Mark, IsAncestor;
    ReadKeeps(w, w');
    KeptIsListed(w);
    KeptIsListed(w');
    CursorBehindMark(w);
    if w.phase.Listing? {
      ListingGivesAll(w, w');
    } else {
      BetweenListings(w, w');
      MovesToMark(w);
    }
    if w'.cursor != w.cursor { UnblockedStays(w, w.cursor, w'.cursor); }
    D.SameBlocked(w, w', w'.cursor);
  }

  /** The mark is no further back than the cursor. */
  lemma CursorBehindMark(w: D.Reader)
    requires D.ReaderInv(w)
    ensures CursorStored(w) && (D.Mark(w).Some? ==> D.Mark(w).value < |w.store|)
    ensures D.Mark(w).Some? ==> D.Behind(w.store, w.cursor) <= D.Behind(w.store, D.Mark(w))
  {
    hide Linear, IsAncestor, D.Blocked, D.Rooted, D.Parsed, D.PostsUpTo;
    KeptIsListed(w);
    if w.cursor.Some? && D.Mark(w).Some? {
      MarkIsLinear(w, D.Mark(w).value);
      ChainOfAncestor(w.store, w.cursor.value, D.Mark(w).value);
    }
  }

  lemma MarkIsLinear(w: D.Reader, c: Oid)
    requires ListOk(w.store, w.list) && OnListNow(w.store, w.list, c)
    ensures c < |w.store| && Linear(w.store, c)
  {
    hide IsAncestor;
    ChainOfAncestor(w.store, c, w.list.value);
  }

  /** From any moment of any run at which no message behind its cursor is malformed, a reader that reads k times
      on, while nobody posts, has at most 9 - k steps left to where everything on the list has been given and
      its cursor stands at the head; and there it stays. */
  lemma {:induction false} ReaderCatchesUp(worlds: seq<D.Reader>, actions: seq<D.ReaderAction>, m: nat, k: nat)
    requires D.IsReaderRun(worlds, actions) && m + k < |worlds|
    requires forall i :: m <= i < m + k ==> actions[i].Read?
    requires ListOk(worlds[m].store, worlds[m].list) && CursorStored(worlds[m]) && !D.Blocked(worlds[m], worlds[m].cursor)
    ensures var w := worlds[m + k];
            && ListOk(w.store, w.list) && CursorStored(w) && !D.Blocked(w, w.cursor)
            && w.store == worlds[m].store && w.list == worlds[m].list
            && (CaughtUp(w) || StepsLeft(w) + k <= 9)
            && (k >= 9 ==> CaughtUp(w))
  {
    hide Linear, ListOk, D.ReaderInv, D.PostsUpTo, D.Blocked, CursorStored, CaughtUp, ReadOnce, D.ReaderNext;
    if k > 0 {
      ReaderCatchesUp(worlds, actions, m, k - 1);
      var (v, w) := (worlds[m + k - 1], worlds[m + k]);
      D.RunKeepsInvariant(worlds, actions, m + k - 1);
      assert ReadOnce(v, w) by { StepIsRead(worlds, actions, m + k - 1); }
      ReadKeeps(v, w);
      UnblockedAfter(v, w);
      if CaughtUp(v) { CaughtUpStays(v, w); } else { ReadMakesProgress(v, w); }
    }
  }

  lemma StepIsRead(worlds: seq<D.Reader>, actions: seq<D.ReaderAction>, i: nat)
    requires D.IsReaderRun(worlds, actions) && i < |actions| && actions[i].Read?
    ensures ReadOnce(worlds[i], worlds[i + 1])
  {
    hide D.ReaderNext;
    assert D.ReaderNext(worlds[i], actions[i], worlds[i + 1]);
  }
}
