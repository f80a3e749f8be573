/** The two sliding-window limits on outgoing searches. Time is whole microseconds of a clock that never
    goes back. */
module RateLimiter {
  const WINDOW := 60_000_000

  /** The reply to a request: granted, or the time to wait before asking again. */
  datatype Answer = Granted | Wait(delay: int)

  predicate Sorted(ts: seq<int>) {
    forall i, j :: 0 <= i < j < |ts| ==> ts[i] <= ts[j]
  }

  /** The timestamps that are still inside the window at a time. */
  function Recent(ts: seq<int>, now: int): (recent: seq<int>)
    ensures |recent| <= |ts|
  {
    if ts == [] then []
    else
      var rest := Recent(ts[..|ts| - 1], now);
      if ts[|ts| - 1] > now - WINDOW then rest + [ts[|ts| - 1]] else rest
  }

  /** One request against the kept timestamps. */
  function Ask(kept: seq<int>, now: int, limit: nat): (Answer, seq<int>)
    requires limit > 0
  {
    var recent := Recent(kept, now);
    if |recent| < limit then (Granted, recent + [now])
    else (Wait(recent[0] + WINDOW - now), recent)
  }

  lemma {:induction false} RecentIs(ts: seq<int>, now: int)
    ensures forall k :: 0 <= k < |Recent(ts, now)| ==> Recent(ts, now)[k] > now - WINDOW && Recent(ts, now)[k] in ts
    ensures Sorted(ts) ==> Sorted(Recent(ts, now))
  {
    if ts != [] {
      var shorter := ts[..|ts| - 1];
      RecentIs(shorter, now);
      assert ts == shorter + [ts[|ts| - 1]];
      if Sorted(ts) {
        forall k | 0 <= k < |Recent(shorter, now)| ensures Recent(shorter, now)[k] <= ts[|ts| - 1] {
          var i :| 0 <= i < |shorter| && shorter[i] == Recent(shorter, now)[k];
          assert ts[i] == shorter[i];
        }
      }
    }
  }

  /** Of sorted timestamps, the recent ones are a suffix: the first n are the stale ones. */
  lemma {:induction false} RecentIsSuffix(ts: seq<int>, now: int, n: nat)
    requires Sorted(ts) && n <= |ts|
    requires forall i :: 0 <= i < n ==> ts[i] <= now - WINDOW
    requires n < |ts| ==> ts[n] > now - WINDOW
    ensures Recent(ts, now) == ts[n..]
  {
    if ts == [] {
    } else if n == |ts| {
      RecentIsSuffix(ts[..|ts| - 1], now, n - 1);
      assert ts[..|ts| - 1][n - 1..] == [];
    } else {
      RecentIsSuffix(ts[..|ts| - 1], now, n);
      assert ts[..|ts| - 1][n..] + [ts[|ts| - 1]] == ts[n..];
    }
  }

  /** The web-search limiter: a list in the process, trimmed from its front. */
  class WebSearchLimiter {
    var timestamps: seq<int>
    const limit: nat

    predicate Valid()
      reads this
    {
      limit > 0 && Sorted(timestamps)
    }

    constructor (limit: nat)
      requires limit > 0
      ensures Valid() && timestamps == [] && this.limit == limit
    {
      this.limit := limit;
      timestamps := [];
    }

    /** One turn of `_acquire_web_search_slot` under its lock. */
    method TryAcquire(now: int) returns (answer: Answer)
      requires Valid() && forall i :: 0 <= i < |timestamps| ==> timestamps[i] <= now
      modifies this
      ensures Valid()
      ensures (answer, timestamps) == Ask(old(timestamps), now, limit)
    {
      ghost var before := timestamps;
      ghost var n := 0;
      while timestamps != [] && timestamps[0] <= now - WINDOW
        invariant n <= |before| && timestamps == before[n..]
        invariant forall i :: 0 <= i < n ==> before[i] <= now - WINDOW
        decreases |timestamps|
      {
        timestamps := timestamps[1..];
        n := n + 1;
      }
      RecentIsSuffix(before, now, n);
      if |timestamps| < limit {
        timestamps := timestamps + [now];
        return Granted;
      }
      return Wait(timestamps[0] + WINDOW - now);
    }
  }

  /** The GitHub-search limiter: a ledger file read, filtered and rewritten under a file lock. */
  class GitHubSearchLedger {
    var ledger: seq<int>
    const limit: nat

    constructor (limit: nat)
      ensures ledger == [] && this.limit == limit
    {
      this.limit := limit;
      ledger := [];
    }

    /** `_reserve_gh_search_slot_or_delay`. */
    method Reserve(now: int) returns (answer: Answer)
      requires limit > 0
      modifies this
      ensures (answer, ledger) == Ask(old(ledger), now, limit)
    {
      var recent: seq<int> := [];
      ghost var before := ledger;
      assert before[..|before|] == before;
      for i := 0 to |ledger|
        invariant ledger == before && recent == Recent(before[..i], now)
      {
        assert before[..i + 1][..i] == before[..i];
        if ledger[i] > now - WINDOW { recent := recent + [ledger[i]]; }
      }
      if |recent| < limit {
        ledger := recent + [now];
        return Granted;
      }
      ledger := recent;
      return Wait(recent[0] + WINDOW - now);
    }
  }

  // Whole runs

  /** The requests of a run in the order they got the lock: what is kept and what was granted so far. */
  datatype History = History(kept: seq<int>, grants: seq<int>)

  function After(times: seq<int>, limit: nat): History
    requires limit > 0
  {
    if times == [] then History([], [])
    else
      var before := After(times[..|times| - 1], limit);
      var now := times[|times| - 1];
      var (answer, kept) := Ask(before.kept, now, limit);
      History(kept, if answer.Granted? then before.grants + [now] else before.grants)
  }

  lemma {:induction false} RecentJoin(a: seq<int>, b: seq<int>, now: int)
    ensures Recent(a + b, now) == Recent(a, now) + Recent(b, now)
  {
    if b == [] {
      assert a + b == a;
    } else {
      assert (a + b)[..|a + b| - 1] == a + b[..|b| - 1];
      RecentJoin(a, b[..|b| - 1], now);
    }
  }

  /** What was recent earlier and is recent now is what is recent now. */
  lemma {:induction false} RecentAgain(ts: seq<int>, earlier: int, now: int)
    requires earlier <= now
    ensures Recent(Recent(ts, earlier), now) == Recent(ts, now)
  {
    if ts != [] {
      var shorter := ts[..|ts| - 1];
      RecentAgain(shorter, earlier, now);
      if ts[|ts| - 1] > earlier - WINDOW { RecentJoin(Recent(shorter, earlier), [ts[|ts| - 1]], now); }
      assert [ts[|ts| - 1]][..0] == [];
    }
  }

  /** The kept timestamps are exactly the grants of the last window, so nothing is forgotten early. */
  lemma {:induction false} KeptAreRecentGrants(times: seq<int>, limit: nat)
    requires limit > 0 && Sorted(times)
    ensures var h := After(times, limit);
            && Sorted(h.grants)
            && (forall k :: 0 <= k < |h.grants| ==> h.grants[k] in times)
            && |h.kept| <= limit
            && (times != [] ==> h.kept == Recent(h.grants, times[|times| - 1]))
  {
    hide Recent;
    if times != [] {
      var n := |times| - 1;
      var now := times[n];
      var before := After(times[..n], limit);
      KeptAreRecentGrants(times[..n], limit);
      if n > 0 { RecentAgain(before.grants, times[n - 1], now); } else { assert before.grants == []; }
      assert Recent(before.kept, now) == Recent(before.grants, now);
      assert times == times[..n] + [now];
      forall k | 0 <= k < |before.grants| ensures before.grants[k] <= now && before.grants[k] in times {
        var i :| 0 <= i < n && times[i] == before.grants[k];
      }
      OneMoreRequest(before, now, limit);
    }
  }

  /** One request, when what is kept has the same recent part as the grants. */
  lemma OneMoreRequest(before: History, now: int, limit: nat)
    requires limit > 0 && Sorted(before.grants) && |before.kept| <= limit
    requires forall k :: 0 <= k < |before.grants| ==> before.grants[k] <= now
    requires Recent(before.kept, now) == Recent(before.grants, now)
    ensures var (answer, kept) := Ask(before.kept, now, limit);
            var grants := if answer.Granted? then before.grants + [now] else before.grants;
            Sorted(grants) && |kept| <= limit && kept == Recent(grants, now)
  {
    RecentJoin(before.grants, [now], now);
    assert [now][..0] == [];
    assert Recent([now], now) == [now];
  }

  /** A request is granted exactly when fewer than the limit were granted in the minute before it. */
  lemma GrantedExactly(times: seq<int>, now: int, limit: nat)
    requires limit > 0 && Sorted(times + [now])
    ensures Ask(After(times, limit).kept, now, limit).0.Granted?
      <==> |Recent(After(times, limit).grants, now)| < limit
  {
    forall i, j | 0 <= i < j < |times| ensures times[i] <= times[j] {
      assert (times + [now])[i] <= (times + [now])[j];
    }
    KeptAreRecentGrants(times, limit);
    var h := After(times, limit);
    if times != [] {
      var n := |times|;
      assert (times + [now])[n - 1] <= (times + [now])[n];
      RecentAgain(h.grants, times[n - 1], now);
    }
  }

  lemma SortedPrefix(ts: seq<int>, n: nat)
    requires Sorted(ts) && n <= |ts|
    ensures Sorted(ts[..n])
  {
  }

  /** Two grants that are `limit` places apart are a whole window apart. */
  lemma {:induction false} GrantsAreSpaced(times: seq<int>, limit: nat, i: nat)
    requires limit > 0 && Sorted(times) && limit <= i < |After(times, limit).grants|
    ensures After(times, limit).grants[i] - After(times, limit).grants[i - limit] >= WINDOW
  {
    hide Recent, Sorted;
    var n := |times| - 1;
    var before := After(times[..n], limit);
    assert Sorted(times[..n]) by { SortedPrefix(times, n); }
    if i < |before.grants| {
      GrantsAreSpaced(times[..n], limit, i);
    } else {
      assert times[..n] + [times[n]] == times;
      GrantedExactly(times[..n], times[n], limit);
      KeptAreRecentGrants(times[..n], limit);
      if before.grants[i - limit] > times[n] - WINDOW { ManyRecent(before.grants, times[n], i - limit); }
    }
  }

  /** If entry k of sorted timestamps is recent, so is every later one. */
  lemma {:induction false} ManyRecent(ts: seq<int>, now: int, k: nat)
    requires Sorted(ts) && k < |ts| && ts[k] > now - WINDOW
    ensures |Recent(ts, now)| >= |ts| - k
  {
    var shorter := ts[..|ts| - 1];
    if k < |ts| - 1 { ManyRecent(shorter, now, k); }
  }

  /** How many grants fall into the window that ends at a time. */
  function CountIn(grants: seq<int>, end: int): nat {
    if grants == [] then 0
    else
      CountIn(grants[..|grants| - 1], end) + if end - WINDOW < grants[|grants| - 1] <= end then 1 else 0
  }

  lemma {:induction false} CountJoin(a: seq<int>, b: seq<int>, end: int)
    ensures CountIn(a + b, end) == CountIn(a, end) + CountIn(b, end)
    ensures CountIn(b, end) <= |b|
  {
    if b == [] {
      assert a + b == a;
    } else {
      assert (a + b)[..|a + b| - 1] == a + b[..|b| - 1];
      CountJoin(a, b[..|b| - 1], end);
    }
  }

  lemma {:induction false} CountNone(grants: seq<int>, end: int)
    requires forall i :: 0 <= i < |grants| ==> !(end - WINDOW < grants[i] <= end)
    ensures CountIn(grants, end) == 0
  {
    if grants != [] { CountNone(grants[..|grants| - 1], end); }
  }

  lemma CountBefore(grants: seq<int>, end: int)
    requires grants != [] && grants[|grants| - 1] > end
    ensures CountIn(grants, end) == CountIn(grants[..|grants| - 1], end)
  {
  }

  lemma {:induction false} SpacedCount(grants: seq<int>, limit: nat, end: int)
    requires limit > 0 && Sorted(grants)
    requires forall i :: limit <= i < |grants| ==> grants[i] - grants[i - limit] >= WINDOW
    ensures CountIn(grants, end) <= limit
  {
    hide CountIn;
    var n := |grants|;
    if n <= limit {
      CountJoin([], grants, end);
    } else if grants[n - 1] > end {
      SpacedCount(grants[..n - 1], limit, end);
      CountBefore(grants, end);
    } else {
      var (a, b) := (grants[..n - limit], grants[n - limit..]);
      forall i | 0 <= i < |a| ensures a[i] <= end - WINDOW {
        assert grants[i] <= grants[n - 1 - limit];
        assert grants[n - 1] - grants[n - 1 - limit] >= WINDOW;
      }
      CountNone(a, end);
      CountJoin(a, b, end);
      assert a + b == grants;
    }
  }

  /** However the requests of all processes interleave, no 60-second window holds more grants than the
      limit. */
  lemma NoWindowExceedsLimit(times: seq<int>, limit: nat, end: int)
    requires limit > 0 && Sorted(times)
    ensures CountIn(After(times, limit).grants, end) <= limit
  {
    KeptAreRecentGrants(times, limit);
    forall i | limit <= i < |After(times, limit).grants|
      ensures After(times, limit).grants[i] - After(times, limit).grants[i - limit] >= WINDOW
    {
      GrantsAreSpaced(times, limit, i);
    }
    SpacedCount(After(times, limit).grants, limit, end);
  }

  /** A refusal asks for a positive wait of at most the window; a request made no sooner than that, with
      none in between, is granted. */
  lemma WaitingSuffices(times: seq<int>, now: int, later: int, limit: nat)
    requires limit > 0 && Sorted(times + [now])
    ensures var (answer, kept) := Ask(After(times, limit).kept, now, limit);
            answer.Wait? ==>
              && 0 < answer.delay <= WINDOW
              && (now + answer.delay <= later ==> Ask(kept, later, limit).0.Granted?)
  {
    forall i, j | 0 <= i < j < |times| ensures times[i] <= times[j] {
      assert (times + [now])[i] <= (times + [now])[j];
    }
    KeptAreRecentGrants(times, limit);
    var h := After(times, limit);
    RecentIs(h.kept, now);
    var recent := Recent(h.kept, now);
    if |recent| >= limit {
      assert h.kept[0] in h.kept;
      if times != [] { RecentIs(h.grants, times[|times| - 1]); }
      assert recent[0] in h.grants;
      var k :| 0 <= k < |h.grants| && h.grants[k] == recent[0];
      var i :| 0 <= i < |times| && times[i] == h.grants[k];
      assert (times + [now])[i] <= (times + [now])[|times|];
      var delay := recent[0] + WINDOW - now;
      if now + delay <= later {
        FirstIsStale(recent, later);
      }
    }
  }

  lemma FirstIsStale(ts: seq<int>, now: int)
    requires ts != [] && ts[0] <= now - WINDOW
    ensures |Recent(ts, now)| < |ts|
  {
    RecentJoin([ts[0]], ts[1..], now);
    assert [ts[0]] + ts[1..] == ts;
    assert [ts[0]][..0] == [];
    assert Recent([ts[0]], now) == [];
  }
}
