/** One reader that reads since its cursor and then advances it to the last post it was given, while
    posters keep posting. */
module MailDelivery {
  import opened Prelude
  import opened Git
  import MailMessage
  import opened MailSeparators
  import opened MailList
  import opened MailReaders

  /** Where the reader's loop stands; Broken is any error of `read` or `advance_cursor`, after which the
      reader starts over. */
  datatype ReaderPhase =
    | Idle
    | Reading(since: Option<Oid>)
    | Listing(since: Option<Oid>)
    | Given(last: Oid)
    | Checked(last: Oid)
    | Moving(last: Oid, current: Option<Oid>)
    | Broken

  datatype Reader = Reader(
    store: Store<TreeId>, list: Option<Oid>, cursor: Option<Oid>, delivered: seq<Oid>, phase: ReaderPhase
  )

  /** `git log --reverse since..list`: what the list holds and since does not. */
  function Unread(store: Store<TreeId>, chain: seq<Oid>, since: Oid): seq<Oid>
    requires ValidStore(store) && since < |store|
  {
    if chain == [] then []
    else (if IsAncestor(store, chain[0], since) then [] else [chain[0]]) + Unread(store, chain[1..], since)
  }

  /** `read` over these commits: genesis is skipped, a message that does not parse raises. */
  function Posts(store: Store<TreeId>, commits: seq<Oid>): Option<seq<Oid>>
    requires forall i :: 0 <= i < |commits| ==> commits[i] < |store|
  {
    if commits == [] then Some([])
    else
      match MailMessage.Parse(store[commits[0]].message)
      case Malformed(_) => None
      case Genesis => Posts(store, commits[1..])
      case Read(_) =>
        match Posts(store, commits[1..])
        case None => None
        case Some(rest) => Some([commits[0]] + rest)
  }

  function Selected(w: Reader, since: Option<Oid>): (commits: seq<Oid>)
    requires ListOk(w.store, w.list) && w.list.Some? && (since.Some? ==> since.value < |w.store|)
    ensures forall i :: 0 <= i < |commits| ==> commits[i] < |w.store|
  {
    ChainInStore(w.store, w.list.value);
    var chain := Chain(w.store, w.list.value);
    if since.None? then chain
    else
      UnreadInStore(w.store, chain, since.value);
      Unread(w.store, chain, since.value)
  }

  lemma {:induction false} UnreadInStore(store: Store<TreeId>, chain: seq<Oid>, since: Oid)
    requires ValidStore(store) && since < |store| && forall i :: 0 <= i < |chain| ==> chain[i] < |store|
    ensures forall i :: 0 <= i < |Unread(store, chain, since)| ==> Unread(store, chain, since)[i] < |store|
  {
    if chain != [] { UnreadInStore(store, chain[1..], since); }
  }

  /** The reader's next phase, cursor and newly delivered posts. */
  function AfterStep(w: Reader): (ReaderPhase, Option<Oid>, seq<Oid>)
    requires ListOk(w.store, w.list)
  {
    match w.phase
    case Idle => (Reading(w.cursor), w.cursor, [])
    case Reading(since) =>
      if w.list.None? then (Idle, w.cursor, [])
      else if since.Some? && !OnListNow(w.store, w.list, since.value) then (Broken, w.cursor, [])
      else (Listing(since), w.cursor, [])
    case Listing(since) =>
      if w.list.None? || (since.Some? && since.value >= |w.store|) then (Broken, w.cursor, [])
      else
        var posts := Posts(w.store, Selected(w, since));
        if posts.None? then (Broken, w.cursor, [])
        else if posts.value == [] then (Idle, w.cursor, [])
        else (Given(posts.value[|posts.value| - 1]), w.cursor, posts.value)
    case Given(last) => (if OnListNow(w.store, w.list, last) then Checked(last) else Broken, w.cursor, [])
    case Checked(last) =>
      if last >= |w.store| then (Broken, w.cursor, [])
      else if w.cursor == Some(last) then (Idle, w.cursor, [])
      else if w.cursor.Some? && !IsAncestor(w.store, w.cursor.value, last) then (Broken, w.cursor, [])
      else (Moving(last, w.cursor), w.cursor, [])
    case Moving(last, current) =>
      if w.cursor == current then (Idle, Some(last), []) else (Checked(last), w.cursor, [])
    case Broken => (Reading(w.cursor), w.cursor, [])
  }

  /** The root of the list reads as the genesis, and nothing else does. */
  predicate Rooted(store: Store<TreeId>, list: Option<Oid>)
    requires ListOk(store, list)
  {
    list.Some? ==>
      forall i :: 0 <= i < |Chain(store, list.value)| ==>
        Chain(store, list.value)[i] < |store|
        && (MailMessage.Parse(store[Chain(store, list.value)[i]].message).Genesis? <==> i == 0)
  }

  /** A list that can grow under a reader. */
  predicate ListStands(store: Store<TreeId>, list: Option<Oid>) {
    ListOk(store, list) && Rooted(store, list)
  }

  datatype ReaderAction = Growth(store: Store<TreeId>, list: Option<Oid>) | Read

  predicate ReaderNext(w: Reader, action: ReaderAction, w': Reader) {
    && ListStands(w.store, w.list)
    && match action
       case Growth(store, list) => Grows(w.store, w.list, store, list) && Rooted(store, list) && w' == w.(store := store, list := list)
       case Read =>
         var (phase, cursor, posts) := AfterStep(w);
         w' == w.(phase := phase, cursor := cursor, delivered := w.delivered + posts)
  }

  // What has been delivered

  /** The posts of the list up to and including c, oldest first. */
  function PostsUpTo(store: Store<TreeId>, c: Option<Oid>): seq<Oid>
    requires ValidStore(store) && (c.Some? ==> c.value < |store|)
  {
    if c.None? then [] else Chain(store, c.value)[1..]
  }

  /** A post that is on the list: not its genesis. */
  predicate PostOnList(w: Reader, c: Oid)
    requires ListOk(w.store, w.list)
  {
    OnListNow(w.store, w.list, c) && w.store[c].parents != []
  }

  /** How far delivery has got: the cursor, or the post that the cursor is being moved to. */
  function Mark(w: Reader): Option<Oid> {
    match w.phase
    case Given(last) => Some(last)
    case Checked(last) => Some(last)
    case Moving(last, _) => Some(last)
    case _ => w.cursor
  }

  predicate PhaseOk(w: Reader) {
    match w.phase
    case Reading(since) => since == w.cursor
    case Listing(since) => since == w.cursor && w.list.Some?
    case Moving(_, current) => current == w.cursor
    case _ => true
  }

  predicate Unparsed(store: Store<TreeId>, c: Oid) {
    c < |store| && MailMessage.Parse(store[c].message).Malformed?
  }

  predicate Parsed(store: Store<TreeId>, c: Oid) {
    c < |store| && MailMessage.Parse(store[c].message).Read?
  }

  /** The place on the list right behind since. */
  function Behind(store: Store<TreeId>, since: Option<Oid>): nat
    requires ValidStore(store) && (since.Some? ==> since.value < |store|)
  {
    if since.None? then 0 else |Chain(store, since.value)|
  }

  /** A message behind since cannot be read. */
  predicate Blocked(w: Reader, since: Option<Oid>)
    requires ListOk(w.store, w.list) && (since.Some? ==> since.value < |w.store|)
  {
    w.list.Some? && exists i :: Behind(w.store, since) <= i < |Chain(w.store, w.list.value)|
                             && Unparsed(w.store, Chain(w.store, w.list.value)[i])
  }

  predicate ReaderInv(w: Reader) {
    && ListStands(w.store, w.list)
    && PhaseOk(w)
    && (w.cursor.Some? ==> PostOnList(w, w.cursor.value))
    && (Mark(w).Some? ==> PostOnList(w, Mark(w).value))
    && (w.cursor.Some? ==> Mark(w).Some? && IsAncestor(w.store, w.cursor.value, Mark(w).value))
    && w.delivered == PostsUpTo(w.store, Mark(w))
    && (forall i :: 0 <= i < |w.delivered| ==> Parsed(w.store, w.delivered[i]))
    && (w.phase.Broken? ==> (w.cursor.Some? ==> w.cursor.value < |w.store|) && Blocked(w, w.cursor))
  }

  lemma {:induction false} UnreadJoin(store: Store<TreeId>, a: seq<Oid>, b: seq<Oid>, since: Oid)
    requires ValidStore(store) && since < |store|
    ensures Unread(store, a + b, since) == Unread(store, a, since) + Unread(store, b, since)
  {
    if a == [] {
      assert a + b == b;
    } else {
      assert (a + b)[1..] == a[1..] + b;
      UnreadJoin(store, a[1..], b, since);
    }
  }

  lemma {:induction false} AllRead(store: Store<TreeId>, commits: seq<Oid>, since: Oid)
    requires ValidStore(store) && since < |store|
    requires forall i :: 0 <= i < |commits| ==> IsAncestor(store, commits[i], since)
    ensures Unread(store, commits, since) == []
  {
    if commits != [] { AllRead(store, commits[1..], since); }
  }

  lemma {:induction false} NoneRead(store: Store<TreeId>, commits: seq<Oid>, since: Oid)
    requires ValidStore(store) && since < |store|
    requires forall i :: 0 <= i < |commits| ==> !IsAncestor(store, commits[i], since)
    ensures Unread(store, commits, since) == commits
  {
    if commits != [] { NoneRead(store, commits[1..], since); }
  }

  /** What the range since..head selects is the part of the chain behind since. */
  lemma UnreadIsSuffix(store: Store<TreeId>, since: Oid, head: Oid)
    requires ValidStore(store) && head < |store| && Linear(store, head) && IsAncestor(store, since, head)
    ensures since < |store| && Chain(store, since) <= Chain(store, head)
    ensures Unread(store, Chain(store, head), since) == Chain(store, head)[|Chain(store, since)|..]
  {
    hide Chain, IsAncestor, Linear, Unread;
    ChainOfAncestor(store, since, head);
    var (seen, all) := (Chain(store, since), Chain(store, head));
    var more := all[|seen|..];
    forall i | 0 <= i < |seen| ensures IsAncestor(store, seen[i], since) {
      AncestorIsOnChain(store, seen[i], since);
    }
    forall i | 0 <= i < |more| ensures !IsAncestor(store, more[i], since) {
      ChainAscends(store, head, |seen| - 1, |seen| + i);
      assert all[|seen| - 1] == seen[|seen| - 1] == since;
      if IsAncestor(store, more[i], since) { AncestorIsOlder(store, more[i], since); }
    }
    assert all == seen + more;
    UnreadJoin(store, seen, more, since);
    AllRead(store, seen, since);
    NoneRead(store, more, since);
  }

  /** `read` gets through exactly commits that hold no malformed message, and gives them all back. */
  lemma {:induction false} PostsExactly(store: Store<TreeId>, commits: seq<Oid>)
    requires forall i :: 0 <= i < |commits| ==> commits[i] < |store| && (Parsed(store, commits[i]) || Unparsed(store, commits[i]))
    ensures Posts(store, commits).Some? <==> forall i :: 0 <= i < |commits| ==> !Unparsed(store, commits[i])
    ensures Posts(store, commits).Some? ==>
      Posts(store, commits).value == commits && forall i :: 0 <= i < |commits| ==> Parsed(store, commits[i])
  {
    hide MailMessage.Parse;
    if commits != [] {
      PostsExactly(store, commits[1..]);
      assert commits == [commits[0]] + commits[1..];
    }
  }

  lemma PostsSkipGenesis(store: Store<TreeId>, chain: seq<Oid>)
    requires chain != [] && (forall i :: 0 <= i < |chain| ==> chain[i] < |store|)
    requires MailMessage.Parse(store[chain[0]].message).Genesis?
    ensures Posts(store, chain) == Posts(store, chain[1..])
  {
  }

  /** What lies behind since, without the genesis. */
  function Rest(w: Reader, since: Option<Oid>): seq<Oid>
    requires ListOk(w.store, w.list) && w.list.Some? && (since.Some? ==> since.value < |w.store|)
  {
    var chain := Chain(w.store, w.list.value);
    var n := if since.None? then 1 else Behind(w.store, since);
    if n <= |chain| then chain[n..] else []
  }

  /** Where the rest starts on the chain, and what stands in front of it. */
  lemma RestIsSuffix(w: Reader, since: Option<Oid>)
    requires ListStands(w.store, w.list) && w.list.Some? && (since.Some? ==> PostOnList(w, since.value))
    ensures since.Some? ==> since.value < |w.store|
    ensures var (chain, rest) := (Chain(w.store, w.list.value), Rest(w, since));
            && |rest| < |chain| && rest == chain[|chain| - |rest|..]
            && (since.Some? ==> |chain| - |rest| == Behind(w.store, since))
            && (since.None? ==> |chain| - |rest| == 1)
    ensures PostsUpTo(w.store, since) + Rest(w, since) == PostsUpTo(w.store, w.list)
    ensures Posts(w.store, Selected(w, since)) == Posts(w.store, Rest(w, since))
  {
    hide MailMessage.Parse, Posts, Linear, Unread, IsAncestor;
    var (store, head) := (w.store, w.list.value);
    var chain := Chain(store, head);
    if since.None? {
      PostsSkipGenesis(store, chain);
    } else {
      UnreadIsSuffix(store, since.value, head);
      var n := |Chain(store, since.value)|;
      assert chain[1..] == chain[..n][1..] + chain[n..];
    }
  }

  lemma RestIsRead(w: Reader, since: Option<Oid>)
    requires ListStands(w.store, w.list) && w.list.Some? && (since.Some? ==> PostOnList(w, since.value))
    ensures since.Some? ==> since.value < |w.store|
    ensures forall i :: 0 <= i < |Rest(w, since)| ==>
      Rest(w, since)[i] < |w.store| && (Parsed(w.store, Rest(w, since)[i]) || Unparsed(w.store, Rest(w, since)[i]))
    ensures Blocked(w, since) <==> exists i :: 0 <= i < |Rest(w, since)| && Unparsed(w.store, Rest(w, since)[i])
  {
    hide MailMessage.Parse, Posts, Linear, Unread, IsAncestor, Rest, Selected, PostsUpTo, Chain, PostOnList;
    RestIsSuffix(w, since);
    var (chain, rest) := (Chain(w.store, w.list.value), Rest(w, since));
    var n := |chain| - |rest|;
    assert forall i :: 0 <= i < |rest| ==> rest[i] == chain[n + i];
    assert !Unparsed(w.store, chain[0]);
    if i :| Behind(w.store, since) <= i < |chain| && Unparsed(w.store, chain[i]) {
      assert i >= n;
      assert rest[i - n] == chain[i];
    }
  }

  /** A read since a listed post succeeds if and only if no message behind that post is malformed, and then
      it gives exactly the posts between it and the head. */
  lemma ReadGivesTheRest(w: Reader, since: Option<Oid>)
    requires ListStands(w.store, w.list) && w.list.Some? && (since.Some? ==> PostOnList(w, since.value))
    ensures since.Some? ==> since.value < |w.store|
    ensures Posts(w.store, Selected(w, since)).Some? <==> !Blocked(w, since)
    ensures !Blocked(w, since) ==>
      var posts := Posts(w.store, Selected(w, since)).value;
      && PostsUpTo(w.store, since) + posts == PostsUpTo(w.store, w.list)
      && forall i :: 0 <= i < |posts| ==> Parsed(w.store, posts[i])
  {
    hide MailMessage.Parse, Posts, Selected, Rest, PostsUpTo, PostOnList, Blocked, Parsed, Unparsed, Rooted;
    RestIsSuffix(w, since);
    RestIsRead(w, since);
    PostsExactly(w.store, Rest(w, since));
  }

  lemma BlockedGrows(w: Reader, w': Reader, since: Option<Oid>)
    requires Grows(w.store, w.list, w'.store, w'.list) && (since.Some? ==> since.value < |w.store|) && Blocked(w, since)
    ensures (since.Some? ==> since.value < |w'.store|) && Blocked(w', since)
  {
    hide MailMessage.Parse, Linear, IsAncestor;
    var (chain, longer) := (Chain(w.store, w.list.value), Chain(w'.store, w'.list.value));
    ChainStable(w.store, w'.store, w.list.value);
    ChainOfAncestor(w'.store, w.list.value, w'.list.value);
    if since.Some? { ChainStable(w.store, w'.store, since.value); }
    var i :| Behind(w.store, since) <= i < |chain| && Unparsed(w.store, chain[i]);
    assert longer[i] == chain[i] && Unparsed(w'.store, longer[i]);
  }

  lemma GrowthKeepsInvariant(w: Reader, w': Reader)
    requires ReaderInv(w) && Grows(w.store, w.list, w'.store, w'.list) && Rooted(w'.store, w'.list)
    requires w' == w.(store := w'.store, list := w'.list)
    ensures ReaderInv(w')
  {
    hide Linear, OnListNow, IsAncestor, MailMessage.Parse, Blocked, Rooted;
    if w.cursor.Some? { PostGrows(w, w', w.cursor.value); }
    if Mark(w).Some? {
      PostGrows(w, w', Mark(w).value);
      ChainStable(w.store, w'.store, Mark(w).value);
      if w.cursor.Some? { AncestorStable(w.store, w'.store, w.cursor.value, Mark(w).value); }
    }
    forall i | 0 <= i < |w'.delivered| ensures Parsed(w'.store, w'.delivered[i]) { assert Parsed(w.store, w.delivered[i]); }
    if w.phase.Broken? { BlockedGrows(w, w', w.cursor); }
  }

  lemma PostGrows(w: Reader, w': Reader, c: Oid)
    requires Grows(w.store, w.list, w'.store, w'.list) && PostOnList(w, c)
    ensures c < |w.store| && PostOnList(w', c)
  {
    hide Linear, IsAncestor;
    OnListGrows(w.store, w.list, w'.store, w'.list, c);
  }

  /** The last post a read gives is the head of the list, past or at the cursor. */
  lemma LastIsHead(w: Reader, posts: seq<Oid>)
    requires ReaderInv(w) && w.phase.Listing? && posts != []
    requires PostsUpTo(w.store, w.cursor) + posts == PostsUpTo(w.store, w.list)
    ensures posts[|posts| - 1] == w.list.value && PostOnList(w, w.list.value)
    ensures w.cursor.Some? ==> IsAncestor(w.store, w.cursor.value, w.list.value)
  {
    hide Linear;
    var chain := Chain(w.store, w.list.value);
    var all := chain[1..];
    assert all[|all| - 1] == posts[|posts| - 1];
    assert all[|all| - 1] == chain[|chain| - 1];
  }

  lemma ListingStep(w: Reader)
    requires ReaderInv(w) && w.phase.Listing?
    ensures w.cursor.Some? ==> w.cursor.value < |w.store|
    ensures var (phase, cursor, posts) := AfterStep(w);
            && ReaderInv(w.(phase := phase, cursor := cursor, delivered := w.delivered + posts))
            && (phase.Broken? <==> Blocked(w, w.cursor))
            && if phase.Broken? then posts == []
               else (phase.Idle? || phase.Given?) && w.delivered + posts == PostsUpTo(w.store, w.list)
  {
    hide Linear, OnListNow, IsAncestor, Selected, Posts, PostsUpTo, Blocked, Rooted, Parsed, MailMessage.Parse;
    ReadGivesTheRest(w, w.cursor);
    assert w.delivered + [] == w.delivered;
    if !Blocked(w, w.cursor) {
      var posts := Posts(w.store, Selected(w, w.cursor)).value;
      if posts != [] { LastIsHead(w, posts); }
      JoinedAreParsed(w, posts);
    } else {
      SameBlocked(w, w.(phase := Broken), w.cursor);
      assert w.(phase := Broken, cursor := w.cursor, delivered := w.delivered + []) == w.(phase := Broken);
    }
  }

  lemma SameBlocked(w: Reader, w': Reader, since: Option<Oid>)
    requires ListOk(w.store, w.list) && w'.store == w.store && w'.list == w.list && (since.Some? ==> since.value < |w.store|)
    ensures Blocked(w', since) <==> Blocked(w, since)
  {
  }

  lemma JoinedAreParsed(w: Reader, posts: seq<Oid>)
    requires forall i :: 0 <= i < |w.delivered| ==> Parsed(w.store, w.delivered[i])
    requires forall i :: 0 <= i < |posts| ==> Parsed(w.store, posts[i])
    ensures forall i :: 0 <= i < |w.delivered + posts| ==> Parsed(w.store, (w.delivered + posts)[i])
  {
    hide Parsed;
  }

  lemma AdvanceStep(w: Reader)
    requires ReaderInv(w) && (w.phase.Given? || w.phase.Checked? || w.phase.Moving?)
    ensures var (phase, cursor, posts) := AfterStep(w);
            posts == [] && !phase.Broken? && ReaderInv(w.(phase := phase, cursor := cursor))
  {
    hide Linear, OnListNow, PostsUpTo, Blocked, Rooted, Parsed, MailMessage.Parse;
    var last := Mark(w).value;
    MarkInStore(w);
    assert IsAncestor(w.store, last, last);
  }

  lemma MarkInStore(w: Reader)
    requires ReaderInv(w) && Mark(w).Some?
    ensures Mark(w).value < |w.store| && OnListNow(w.store, w.list, Mark(w).value)
  {
    hide Linear, IsAncestor, PostsUpTo;
  }

  lemma StepKeepsInvariant(w: Reader, action: ReaderAction, w': Reader)
    requires ReaderInv(w) && ReaderNext(w, action, w')
    ensures ReaderInv(w')
  {
    hide Linear, OnListNow, IsAncestor, Selected, Posts, PostsUpTo, Blocked, Rooted, Parsed, MailMessage.Parse;
    match action
    case Growth(_, _) => GrowthKeepsInvariant(w, w');
    case Read =>
      assert w.delivered + [] == w.delivered;
      if w.phase.Listing? {
        ListingStep(w);
      } else if w.phase.Given? || w.phase.Checked? || w.phase.Moving? {
        AdvanceStep(w);
        assert w'.delivered == w.delivered;
      } else {
        StartStep(w, w');
      }
  }

  lemma StartStep(w: Reader, w': Reader)
    requires ReaderInv(w) && (w.phase.Idle? || w.phase.Reading? || w.phase.Broken?) && ReaderNext(w, Read, w')
    ensures ReaderInv(w')
  {
    hide Linear, OnListNow, IsAncestor, Selected, Posts, PostsUpTo, Blocked, Rooted, Parsed, MailMessage.Parse;
    assert w'.delivered == w.delivered;
  }

  predicate ReaderInitial(w: Reader) {
    ListStands(w.store, w.list) && w.cursor == None && w.delivered == [] && w.phase == Idle
  }

  predicate IsReaderRun(worlds: seq<Reader>, actions: seq<ReaderAction>) {
    && |worlds| == |actions| + 1
    && ReaderInitial(worlds[0])
    && forall i :: 0 <= i < |actions| ==> ReaderNext(worlds[i], actions[i], worlds[i + 1])
  }

  lemma {:induction false} RunKeepsInvariant(worlds: seq<Reader>, actions: seq<ReaderAction>, n: nat)
    requires IsReaderRun(worlds, actions) && n < |worlds|
    ensures ReaderInv(worlds[n])
  {
    hide ReaderInv, ReaderNext, ListStands;
    if n == 0 {
      StartHolds(worlds[0]);
    } else {
      RunKeepsInvariant(worlds, actions, n - 1);
      assert ReaderNext(worlds[n - 1], actions[n - 1], worlds[n]);
      StepKeepsInvariant(worlds[n - 1], actions[n - 1], worlds[n]);
    }
  }

  lemma StartHolds(w: Reader)
    requires ReaderInitial(w)
    ensures ReaderInv(w)
  {
    hide Linear;
  }

  /** At every moment, what the reader has been given is a prefix of the posts of the list, in list order and
      each once. A read that lists what is there gives all the rest, or, exactly when a message behind the
      cursor is malformed, raises and gives nothing; nothing else ever fails. */
  lemma DeliversExactlyOnce(worlds: seq<Reader>, actions: seq<ReaderAction>, n: nat)
    requires IsReaderRun(worlds, actions) && n < |worlds|
    ensures var w := worlds[n];
            && ListOk(w.store, w.list) && (w.cursor.Some? ==> w.cursor.value < |w.store|)
            && w.delivered <= PostsUpTo(w.store, w.list)
            && (forall i, j :: 0 <= i < j < |w.delivered| ==> w.delivered[i] != w.delivered[j])
            && (w.phase.Broken? ==> Blocked(w, w.cursor))
            && (n + 1 < |worlds| && actions[n].Read? ==>
                  var next := worlds[n + 1];
                  && (next.phase.Broken? <==> w.phase.Listing? && Blocked(w, w.cursor))
                  && (w.phase.Listing? ==>
                        next.delivered == if Blocked(w, w.cursor) then w.delivered else PostsUpTo(w.store, w.list)))
  {
    hide Linear, OnListNow, Selected, Posts, AfterStep, Blocked, Rooted, Parsed, MailMessage.Parse, PostsUpTo;
    var w := worlds[n];
    RunKeepsInvariant(worlds, actions, n);
    NothingReadYet(w);
    if Mark(w).Some? {
      MarkInStore(w);
      OnListIsLog(w, Mark(w).value);
    }
    if n + 1 < |worlds| && actions[n].Read? {
      assert ReaderNext(w, actions[n], worlds[n + 1]);
      if w.phase.Listing? {
        ListingStep(w);
        assert w.delivered + [] == w.delivered;
      } else {
        OnlyReadsBreak(w);
      }
    }
  }

  lemma NothingReadYet(w: Reader)
    requires ReaderInv(w)
    ensures Mark(w).None? ==> w.delivered == []
    ensures w.cursor.Some? ==> w.cursor.value < |w.store|
  {
    hide Linear, IsAncestor, Blocked, Rooted, Parsed;
  }

  lemma OnlyReadsBreak(w: Reader)
    requires ReaderInv(w) && !w.phase.Listing?
    ensures !AfterStep(w).0.Broken?
  {
    hide Linear, OnListNow, IsAncestor, Selected, Posts, PostsUpTo, Blocked, Rooted, Parsed, MailMessage.Parse;
    if w.phase.Given? || w.phase.Checked? || w.phase.Moving? { AdvanceStep(w); }
  }

  lemma StepKeepsList(worlds: seq<Reader>, actions: seq<ReaderAction>, n: nat)
    requires IsReaderRun(worlds, actions) && n + 1 < |worlds|
    ensures Extends(worlds[n + 1].store, worlds[n].store)
    ensures ListOk(worlds[n].store, worlds[n].list) && ListOk(worlds[n + 1].store, worlds[n + 1].list)
    ensures worlds[n].list.Some? ==>
      worlds[n + 1].list.Some? && Chain(worlds[n].store, worlds[n].list.value) <= Chain(worlds[n + 1].store, worlds[n + 1].list.value)
  {
    hide Linear, AfterStep, IsAncestor, Rooted;
    var (w, w') := (worlds[n], worlds[n + 1]);
    assert ReaderNext(w, actions[n], w');
    if w.list.Some? {
      ChainStable(w.store, w'.store, w.list.value);
      if actions[n].Growth? { ChainOfAncestor(w'.store, w.list.value, w'.list.value); }
    }
  }

  lemma {:induction false} ListPrefixKept(worlds: seq<Reader>, actions: seq<ReaderAction>, m: nat, n: nat)
    requires IsReaderRun(worlds, actions) && m <= n < |worlds|
    ensures Extends(worlds[n].store, worlds[m].store)
    ensures ListOk(worlds[m].store, worlds[m].list) && ListOk(worlds[n].store, worlds[n].list)
    ensures worlds[m].list.Some? ==>
      worlds[n].list.Some? && Chain(worlds[m].store, worlds[m].list.value) <= Chain(worlds[n].store, worlds[n].list.value)
    decreases n - m
  {
    hide ReaderNext, ReaderInv, Chain;
    if m == n {
      RunKeepsInvariant(worlds, actions, n);
      assert ListStands(worlds[n].store, worlds[n].list) by { InvStands(worlds[n]); }
    } else {
      ListPrefixKept(worlds, actions, m, n - 1);
      StepKeepsList(worlds, actions, n - 1);
    }
  }

  lemma InvStands(w: Reader)
    requires ReaderInv(w)
    ensures ListStands(w.store, w.list)
  {
  }

  /** One malformed message stops a reader for good: from the moment it is listed at place k, no reader that
      keeps its cursor on what it was given is ever given it or anything behind it. */
  lemma NothingPastMalformed(worlds: seq<Reader>, actions: seq<ReaderAction>, m: nat, n: nat, k: nat)
    requires IsReaderRun(worlds, actions) && m <= n < |worlds|
    requires worlds[m].list.Some? && ListOk(worlds[m].store, worlds[m].list)
    requires k < |Chain(worlds[m].store, worlds[m].list.value)|
    requires Unparsed(worlds[m].store, Chain(worlds[m].store, worlds[m].list.value)[k])
    ensures |worlds[n].delivered| < k
  {
    hide IsReaderRun, ReaderInv, Linear, Blocked, MailMessage.Parse, OnListNow, Mark;
    var w := worlds[n];
    ListPrefixKept(worlds, actions, m, n);
    RunKeepsInvariant(worlds, actions, n);
    DeliversExactlyOnce(worlds, actions, n);
    var chain := Chain(w.store, w.list.value);
    assert chain[k] == Chain(worlds[m].store, worlds[m].list.value)[k];
    assert Unparsed(w.store, chain[k]);
    assert k != 0 by { RootIsGenesis(w); }
    if |w.delivered| >= k { DeliveredIsParsed(w, k); }
  }

  lemma DeliveredIsParsed(w: Reader, k: nat)
    requires ReaderInv(w) && w.list.Some? && 0 < k <= |w.delivered| && w.delivered <= PostsUpTo(w.store, w.list)
    ensures k < |Chain(w.store, w.list.value)| && !Unparsed(w.store, Chain(w.store, w.list.value)[k])
  {
    hide MailMessage.Parse, Linear, OnListNow, Mark, IsAncestor, Rooted;
    assert w.delivered[k - 1] == PostsUpTo(w.store, w.list)[k - 1];
    assert Parsed(w.store, w.delivered[k - 1]);
  }

  lemma RootIsGenesis(w: Reader)
    requires ReaderInv(w) && w.list.Some?
    ensures !Unparsed(w.store, Chain(w.store, w.list.value)[0])
  {
    hide MailMessage.Parse, Linear;
  }

  lemma OnListIsLog(w: Reader, c: Oid)
    requires ListOk(w.store, w.list) && OnListNow(w.store, w.list, c)
    ensures PostsUpTo(w.store, Some(c)) <= PostsUpTo(w.store, w.list)
    ensures forall i, j :: 0 <= i < j < |PostsUpTo(w.store, Some(c))| ==>
      PostsUpTo(w.store, Some(c))[i] != PostsUpTo(w.store, Some(c))[j]
  {
    hide Chain, IsAncestor, MailMessage.Parse;
    ChainOfAncestor(w.store, c, w.list.value);
    var posts := PostsUpTo(w.store, Some(c));
    forall i, j | 0 <= i < j < |posts| ensures posts[i] != posts[j] {
      ChainAscends(w.store, c, i + 1, j + 1);
    }
  }

  // The posters as the reader's environment

  lemma ListIsRooted(w: World)
    requires Inv(w)
    ensures ListStands(w.store, w.list)
  {
    hide PhaseOk, CallerOk, EntryOk, Linear, Chain, MailMessage.Parse, ItemOf, ReadsBackNumbered, FiledItem, LogOk, Inv;
    ListIsLinear(w);
    LogOfInv(w);
    if w.list.Some? {
      ListIsLog(w);
      forall i | 0 <= i < |w.log|
        ensures w.log[i].commit < |w.store| && (MailMessage.Parse(w.store[w.log[i].commit].message).Genesis? <==> i == 0)
      {
        ItemOnList(w, i);
        OriginAt(w, i);
      }
    }
  }

  lemma OriginAt(w: World, i: nat)
    requires LogOk(w.store, w.list, w.log) && i < |w.log|
    ensures w.log[i].origin.AtGenesis? <==> i == 0
  {
    hide MailMessage.PostMessage, Numbered, ValidDraft;
    assert EntryOk(w.store, w.log, i);
  }

  /** Every step of creators and posters, whatever they post, is growth that a reader can be under. */
  lemma PostersFeedReaders(worlds: seq<World>, actions: seq<Action>, n: nat)
    requires IsRun(worlds, actions) && n + 1 < |worlds|
    ensures ListStands(worlds[n].store, worlds[n].list) && ListStands(worlds[n + 1].store, worlds[n + 1].list)
    ensures Grows(worlds[n].store, worlds[n].list, worlds[n + 1].store, worlds[n + 1].list)
  {
    hide IsRun, Inv, Grows, ListStands;
    PostersGrowTheList(worlds, actions, n);
    MailList.RunKeepsInvariant(worlds, actions, n);
    MailList.RunKeepsInvariant(worlds, actions, n + 1);
    ListIsRooted(worlds[n]);
    ListIsRooted(worlds[n + 1]);
  }

  /** On a list that posters have built, a reader is blocked exactly by a draft behind its cursor whose
      trailers do not read back; without such a draft every read succeeds. */
  lemma BlockedExactlyByDrafts(w: World, r: Reader, since: Option<Oid>)
    requires Inv(w) && r.store == w.store && r.list == w.list && (since.Some? ==> since.value < |w.store|)
    ensures ListOk(r.store, r.list)
    ensures Blocked(r, since) <==>
      exists i :: Behind(r.store, since) <= i < |w.log| && w.log[i].origin.OfPost?
               && !ReadsBackNumbered(Unnumbered(w.log[i].origin.d))
  {
    hide Inv, LogOk, Linear, Chain, MailMessage.Parse, ItemOf, ReadsBackNumbered, FiledItem, EntryOk;
    ListIsLinear(w);
    LogOfInv(w);
    if w.list.Some? {
      ListIsLog(w);
      var chain := Chain(w.store, w.list.value);
      forall i | 0 <= i < |w.log|
        ensures chain[i] == w.log[i].commit
        ensures Unparsed(w.store, chain[i]) <==> w.log[i].origin.OfPost? && !ReadsBackNumbered(Unnumbered(w.log[i].origin.d))
      {
        ItemOnList(w, i);
      }
      if Blocked(r, since) {
        var i :| Behind(r.store, since) <= i < |chain| && Unparsed(r.store, chain[i]);
        assert w.log[i].origin.OfPost?;
      }
      if i :| Behind(r.store, since) <= i < |w.log| && w.log[i].origin.OfPost? && !ReadsBackNumbered(Unnumbered(w.log[i].origin.d)) {
        assert Unparsed(r.store, chain[i]);
      }
    } else {
      assert w.log == [] by { NoList(w); }
    }
  }

  lemma NoList(w: World)
    requires LogOk(w.store, w.list, w.log) && w.list.None?
    ensures w.log == []
  {
  }
}
