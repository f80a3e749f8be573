/** What the scope decomposition demands of a ledger and a root, told over their rows, and the body it
    returns for them. */
module ScopeLaw {
  import opened Prelude
  import opened Utf8
  import opened JsonNumber
  import opened Json
  import opened PyDigits
  import opened ScopeDecomposition
  import opened ScopeLedger

  // Assignments by position

  /** Obligation j of assignment a. */
  predicate NamedAt(assignments: seq<Assignment>, a: int, j: int, id: Text) {
    0 <= a < |assignments| && 0 <= j < |assignments[a].obligations| && assignments[a].obligations[j] == id
  }

  ghost predicate IsAssigned(assignments: seq<Assignment>, id: Text, item: Text) {
    exists a, j :: NamedAt(assignments, a, j, id) && assignments[a].item == item
  }

  /** No obligation is named at two positions. */
  ghost predicate NamesOnce(assignments: seq<Assignment>) {
    forall a, j, b, k, id :: NamedAt(assignments, a, j, id) && NamedAt(assignments, b, k, id) ==> a == b && j == k
  }

  lemma FrontAt(assignments: seq<Assignment>, a: int, j: int, id: Text)
    requires assignments != []
    ensures var n := |assignments| - 1;
            NamedAt(assignments, a, j, id)
            <==> NamedAt(assignments[..n], a, j, id)
                 || (a == n && 0 <= j < |assignments[n].obligations| && assignments[n].obligations[j] == id)
    ensures NamedAt(assignments[..|assignments| - 1], a, j, id) ==> assignments[..|assignments| - 1][a] == assignments[a]
  {
  }

  lemma FlattenParts(assignments: seq<Assignment>)
    requires assignments != []
    ensures var last := assignments[|assignments| - 1];
            Flatten(assignments) == Flatten(assignments[..|assignments| - 1]) + Each(last.obligations, last.item)
  {
    hide Each;
  }

  lemma EachHolds(obligations: seq<Text>, item: Text, id: Text, of: Text)
    ensures Assigned(id, of) in Each(obligations, item)
       <==> of == item && exists j :: 0 <= j < |obligations| && obligations[j] == id
  {
    var each := Each(obligations, item);
    if j :| 0 <= j < |obligations| && obligations[j] == id { assert each[j] == Assigned(id, item); }
  }

  lemma {:induction false} FlattenHolds(assignments: seq<Assignment>, id: Text, item: Text)
    ensures Assigned(id, item) in Flatten(assignments) <==> IsAssigned(assignments, id, item)
  {
    hide Each, NamedAt, Flatten;
    if assignments == [] {
      assert Flatten([]) == [] by { NothingAssigned(); }
      forall a, j ensures !NamedAt(assignments, a, j, id) { NamedNowhere(a, j, id); }
    } else {
      var n := |assignments| - 1;
      var (front, last) := (assignments[..n], assignments[n]);
      FlattenHolds(front, id, item);
      FlattenParts(assignments);
      EachHolds(last.obligations, last.item, id, item);
      assert IsAssigned(assignments, id, item) <==>
        IsAssigned(front, id, item) || (last.item == item && exists j :: 0 <= j < |last.obligations| && last.obligations[j] == id) by {
        AssignedInParts(assignments, id, item);
      }
    }
  }

  lemma NamedNowhere(a: int, j: int, id: Text)
    ensures !NamedAt([], a, j, id)
  {
  }

  lemma AssignedInParts(assignments: seq<Assignment>, id: Text, item: Text)
    requires assignments != []
    ensures var (front, last) := (assignments[..|assignments| - 1], assignments[|assignments| - 1]);
            IsAssigned(assignments, id, item) <==>
              IsAssigned(front, id, item) || (last.item == item && exists j :: 0 <= j < |last.obligations| && last.obligations[j] == id)
  {
    var n := |assignments| - 1;
    var (front, last) := (assignments[..n], assignments[n]);
    if a, j :| NamedAt(front, a, j, id) && front[a].item == item {
      FrontAt(assignments, a, j, id);
      assert NamedAt(assignments, a, j, id);
    }
    if j :| 0 <= j < |last.obligations| && last.obligations[j] == id {
      assert NamedAt(assignments, n, j, id);
    }
    if a, j :| NamedAt(assignments, a, j, id) && assignments[a].item == item {
      FrontAt(assignments, a, j, id);
      if a < n { assert NamedAt(front, a, j, id); }
    }
  }

  /** The filled map is told by positions: it holds what some position names, and its item. */
  lemma ItemIs(assignments: seq<Assignment>, id: Text, item: Text)
    requires AssignedOnce(Flatten(assignments))
    ensures id in ItemOf(Flatten(assignments)) && ItemOf(Flatten(assignments))[id] == item <==> IsAssigned(assignments, id, item)
  {
    hide Flatten, ItemOf, IsAssigned;
    var pairs := Flatten(assignments);
    FlattenHolds(assignments, id, item);
    ItemOfKeys(pairs, id);
    if i :| 0 <= i < |pairs| && pairs[i].obligation == id {
      ItemOfValue(pairs, i);
      assert pairs[i] == Assigned(id, pairs[i].item);
      if Assigned(id, item) in pairs {
        var j :| 0 <= j < |pairs| && pairs[j] == Assigned(id, item);
        assert i == j;
      }
    }
  }

  lemma {:induction false} ItemOfValue(pairs: seq<Assigned>, i: nat)
    requires AssignedOnce(pairs) && i < |pairs|
    ensures pairs[i].obligation in ItemOf(pairs) && ItemOf(pairs)[pairs[i].obligation] == pairs[i].item
  {
    var n := |pairs| - 1;
    if i < n {
      ItemOfValue(pairs[..n], i);
      assert pairs[..n][i] == pairs[i];
    }
  }

  lemma KeysAreAssigned(assignments: seq<Assignment>, id: Text)
    ensures id in ItemOf(Flatten(assignments)) <==> exists item :: IsAssigned(assignments, id, item)
  {
    hide Flatten, ItemOf, IsAssigned;
    var pairs := Flatten(assignments);
    ItemOfKeys(pairs, id);
    if i :| 0 <= i < |pairs| && pairs[i].obligation == id {
      assert pairs[i] == Assigned(id, pairs[i].item);
      FlattenHolds(assignments, id, pairs[i].item);
    }
    if item :| IsAssigned(assignments, id, item) { FlattenHolds(assignments, id, item); }
  }

  /** No obligation is named twice by one assignment. */
  predicate OnceWithin(obligations: seq<Text>) {
    forall j, k :: 0 <= j < k < |obligations| ==> obligations[j] != obligations[k]
  }

  /** None of these is named by the assignments in front. */
  ghost predicate IsNew(front: seq<Assignment>, obligations: seq<Text>) {
    forall a, j, id :: NamedAt(front, a, j, id) ==> id !in obligations
  }

  lemma NamesOnceParts(assignments: seq<Assignment>)
    requires assignments != []
    ensures var n := |assignments| - 1;
            NamesOnce(assignments) <==> NamesOnce(assignments[..n]) && OnceWithin(assignments[n].obligations) && IsNew(assignments[..n], assignments[n].obligations)
  {
    hide NamedAt;
    var n := |assignments| - 1;
    var (front, ids) := (assignments[..n], assignments[n].obligations);
    forall a, j, id ensures NamedAt(assignments, a, j, id) <==> NamedAt(front, a, j, id) || (a == n && 0 <= j < |ids| && ids[j] == id) {
      FrontAt(assignments, a, j, id);
    }
    forall a, j, id | NamedAt(front, a, j, id) ensures a < n { PlaceInFront(front, a, j, id); }
    if NamesOnce(assignments) {
      forall j, k | 0 <= j < k < |ids| ensures ids[j] != ids[k] {
        assert NamedAt(assignments, n, j, ids[j]) && NamedAt(assignments, n, k, ids[k]);
      }
      forall a, j, id | NamedAt(front, a, j, id) ensures id !in ids {
        assert NamedAt(assignments, a, j, id);
        forall k | 0 <= k < |ids| ensures ids[k] != id { assert NamedAt(assignments, n, k, ids[k]); }
      }
    }
  }

  lemma PlaceInFront(front: seq<Assignment>, a: int, j: int, id: Text)
    requires NamedAt(front, a, j, id)
    ensures 0 <= a < |front|
  {
  }

  lemma OnceParts(x: seq<Assigned>, y: seq<Assigned>)
    ensures AssignedOnce(x + y) <==>
      AssignedOnce(x) && AssignedOnce(y) && forall i, k :: 0 <= i < |x| && 0 <= k < |y| ==> x[i].obligation != y[k].obligation
  {
    var all := x + y;
    assert forall i :: 0 <= i < |x| ==> all[i] == x[i];
    assert forall k :: 0 <= k < |y| ==> all[|x| + k] == y[k];
    assert forall i :: |x| <= i < |all| ==> all[i] == y[i - |x|];
  }

  lemma EachOnce(obligations: seq<Text>, item: Text)
    ensures AssignedOnce(Each(obligations, item)) <==> OnceWithin(obligations)
  {
    var each := Each(obligations, item);
    assert forall j :: 0 <= j < |each| ==> each[j].obligation == obligations[j];
  }

  lemma NewExactly(assignments: seq<Assignment>)
    requires assignments != []
    ensures var (front, last) := (Flatten(assignments[..|assignments| - 1]), assignments[|assignments| - 1]);
            IsNew(assignments[..|assignments| - 1], last.obligations) <==>
              forall i, k :: 0 <= i < |front| && 0 <= k < |last.obligations| ==> front[i].obligation != last.obligations[k]
  {
    hide Flatten, NamedAt;
    var (before, last) := (assignments[..|assignments| - 1], assignments[|assignments| - 1]);
    var front := Flatten(before);
    if IsNew(before, last.obligations) {
      forall i, k | 0 <= i < |front| && 0 <= k < |last.obligations| ensures front[i].obligation != last.obligations[k] {
        assert front[i] == Assigned(front[i].obligation, front[i].item);
        FlattenHolds(before, front[i].obligation, front[i].item);
        var a, j := AssignedIsNamed(before, front[i].obligation, front[i].item);
      }
    } else {
      var a, j, id :| NamedAt(before, a, j, id) && id in last.obligations;
      PlaceInFront(before, a, j, id);
      FlattenHolds(before, id, before[a].item);
      var i :| 0 <= i < |front| && front[i] == Assigned(id, before[a].item);
      var k :| 0 <= k < |last.obligations| && last.obligations[k] == id;
    }
  }

  lemma AssignedIsNamed(assignments: seq<Assignment>, id: Text, item: Text) returns (a: int, j: int)
    requires IsAssigned(assignments, id, item)
    ensures NamedAt(assignments, a, j, id) && assignments[a].item == item
  {
    a, j :| NamedAt(assignments, a, j, id) && assignments[a].item == item;
  }

  lemma {:induction false} NamesOnceIs(assignments: seq<Assignment>)
    ensures AssignedOnce(Flatten(assignments)) <==> NamesOnce(assignments)
  {
    hide Flatten, AssignedOnce, NamedAt, IsNew, Each, OnceWithin;
    if assignments == [] {
      NothingAssigned();
      forall a, j, id ensures !NamedAt(assignments, a, j, id) { NamedNowhere(a, j, id); }
    } else {
      var n := |assignments| - 1;
      var last := assignments[n];
      var x, y := Flatten(assignments[..n]), Each(last.obligations, last.item);
      NamesOnceIs(assignments[..n]);
      FlattenParts(assignments);
      OnceParts(x, y);
      EachOnce(last.obligations, last.item);
      NamesOnceParts(assignments);
      NewExactly(assignments);
      forall k | 0 <= k < |y| ensures y[k].obligation == last.obligations[k] { EachAt(last.obligations, last.item, k); }
    }
  }

  lemma EachAt(obligations: seq<Text>, item: Text, j: int)
    requires 0 <= j < |obligations|
    ensures Each(obligations, item)[j] == Assigned(obligations[j], item)
  {
  }

  // The owner of an obligation

  predicate IsKnown(rows: Rows, k: nat, id: Text)
    requires k <= |rows.duties|
  {
    (exists i :: 0 <= i < |rows.scope| && rows.scope[i].id == id) || exists j :: 0 <= j < k && rows.duties[j].id == id
  }

  /** c is the first of the item's coordinates that a historical row or an earlier obligation has. */
  predicate OwnerFound(rows: Rows, k: nat, item: Text, c: Text)
    requires k <= |rows.duties|
  {
    Candidates(item).Some?
    && var all := Candidates(item).value;
    exists m :: 0 <= m < |all| && all[m] == c && IsKnown(rows, k, c) && forall n :: 0 <= n < m ==> !IsKnown(rows, k, all[n])
  }

  lemma {:induction false} FirstKnownExactly(candidates: seq<Text>, known: set<Text>, c: Text)
    ensures FirstKnown(candidates, known) == Some(c) <==>
      exists m :: 0 <= m < |candidates| && candidates[m] == c && c in known && forall n :: 0 <= n < m ==> candidates[n] !in known
  {
    if candidates != [] && candidates[0] !in known {
      var rest := candidates[1..];
      FirstKnownExactly(rest, known, c);
      assert forall m :: 0 <= m < |rest| ==> rest[m] == candidates[m + 1];
      if m :| 0 <= m < |candidates| && candidates[m] == c && c in known && forall n :: 0 <= n < m ==> candidates[n] !in known {
        assert rest[m - 1] == c && forall n :: 0 <= n < m - 1 ==> rest[n] !in known;
      }
      if m :| 0 <= m < |rest| && rest[m] == c && c in known && forall n :: 0 <= n < m ==> rest[n] !in known {
        assert candidates[m + 1] == c;
        assert forall n :: 0 <= n < m + 1 ==> candidates[n] !in known by {
          forall n | 0 <= n < m + 1 ensures candidates[n] !in known { if n > 0 { assert rest[n - 1] == candidates[n]; } }
        }
      }
    }
  }

  lemma KnownIs(rows: Rows, k: nat, id: Text)
    requires k <= |rows.duties|
    ensures id in Ids(rows.scope) + DutyIds(rows.duties[..k]) <==> IsKnown(rows, k, id)
  {
    var front := rows.duties[..k];
    assert forall j :: 0 <= j < k ==> front[j] == rows.duties[j];
    if j :| 0 <= j < k && rows.duties[j].id == id { assert front[j].id == id; }
  }

  lemma OwnerScopeExactly(rows: Rows, k: nat, c: Text)
    requires k < |rows.duties| && AssignedOnce(Flatten(rows.assignments))
    ensures OwnerScope(rows, k) == Some(c) <==>
      exists item :: IsAssigned(rows.assignments, rows.duties[k].id, item) && OwnerFound(rows, k, item, c)
  {
    hide Flatten, ItemOf, Candidates, IsAssigned, IsKnown, FirstKnown, AssignedOnce;
    var (items, id) := (ItemOf(Flatten(rows.assignments)), rows.duties[k].id);
    var known := Ids(rows.scope) + DutyIds(rows.duties[..k]);
    forall x ensures x in known <==> IsKnown(rows, k, x) { KnownIs(rows, k, x); }
    if id in items {
      ItemIs(rows.assignments, id, items[id]);
      if Candidates(items[id]).Some? { FirstKnownExactly(Candidates(items[id]).value, known, c); }
    }
    forall item | IsAssigned(rows.assignments, id, item) ensures id in items && items[id] == item {
      ItemIs(rows.assignments, id, item);
    }
  }

  // The law

  predicate HasRow(scope: seq<Scope>, id: Text, kind: Text) {
    exists i :: 0 <= i < |scope| && scope[i].Established? && scope[i].id == id && scope[i].kind == kind
  }

  predicate IsWanted(goals: seq<Goal>, id: Text) {
    exists i :: 0 <= i < |goals| && goals[i].id == id && goals[i].requiresDeliverable
  }

  ghost predicate DutyLawful(rows: Rows, k: nat)
    requires k < |rows.duties|
  {
    var d := rows.duties[k];
    && IsWanted(rows.goals, d.goal)
    && Requirement(d.requirement, Some(Str(d.goal)), Some(Str(d.id)), Some(Str(d.deliverable))) in rows.requirements
    && (forall j :: 0 <= j < k ==>
          rows.duties[j].goal != d.goal && rows.duties[j].requirement != d.requirement && rows.duties[j].id != d.id)
    && (forall i :: 0 <= i < |rows.scope| ==> rows.scope[i].id != d.id)
    && exists item, c ::
         && IsAssigned(rows.assignments, d.id, item) && OwnerFound(rows, k, item, c)
         && HasRow(rows.scope, c, T("patch_plan"))
  }

  lemma DutyLawfulExactly(rows: Rows, k: nat)
    requires k < |rows.duties| && AssignedOnce(Flatten(rows.assignments))
    ensures DutyOk(rows, k) <==> DutyLawful(rows, k)
  {
    hide Flatten, ItemOf, IsAssigned, OwnerFound, OwnerScope, T, AssignedOnce, MatchesRequirement, IsWanted, RefereeGoals, HasKind,
      HasRow, Ids;
    var d := rows.duties[k];
    RequirementFound(rows.requirements, d);
    WantedIs(rows.goals, d.goal);
    assert d.id !in Ids(rows.scope) <==> forall i :: 0 <= i < |rows.scope| ==> rows.scope[i].id != d.id by { NoScope(rows.scope, d.id); }
    if OwnerScope(rows, k).Some? {
      OwnerScopeExactly(rows, k, OwnerScope(rows, k).value);
      PlanRowIs(rows.scope, OwnerScope(rows, k).value);
    }
    forall item, c | IsAssigned(rows.assignments, d.id, item) && OwnerFound(rows, k, item, c)
      ensures OwnerScope(rows, k) == Some(c) && (HasKind(rows.scope, c, {PATCH_PLAN}) <==> HasRow(rows.scope, c, T("patch_plan")))
    {
      OwnerScopeExactly(rows, k, c);
      PlanRowIs(rows.scope, c);
    }
  }

  lemma NoScope(scope: seq<Scope>, id: Text)
    ensures id !in Ids(scope) <==> forall i :: 0 <= i < |scope| ==> scope[i].id != id
  {
  }

  lemma RequirementFound(requirements: seq<Requirement>, d: Duty)
    ensures (exists i :: 0 <= i < |requirements| && MatchesRequirement(requirements[i], d))
      <==> Requirement(d.requirement, Some(Str(d.goal)), Some(Str(d.id)), Some(Str(d.deliverable))) in requirements
  {
    var r := Requirement(d.requirement, Some(Str(d.goal)), Some(Str(d.id)), Some(Str(d.deliverable)));
    forall i | 0 <= i < |requirements| ensures MatchesRequirement(requirements[i], d) <==> requirements[i] == r {
    }
  }

  // The coordinates of a patch item

  /** tail is what stands behind the item's last "#", or the whole item where it has none. */
  predicate EndsIn(item: Text, tail: Text) {
    HASH !in tail && exists m :: 0 <= m <= |item| && item[m..] == tail && (m == 0 || item[m - 1] == HASH)
  }

  lemma {:induction false} AfterLastHashIs(item: Text) returns (m: nat)
    ensures m <= |item| && AfterLastHash(item) == item[m..] && HASH !in item[m..] && (m == 0 || item[m - 1] == HASH)
  {
    if item == [] || item[|item| - 1] == HASH {
      m := |item|;
    } else {
      var n := |item| - 1;
      m := AfterLastHashIs(item[..n]);
      assert item[m..] == item[..n][m..] + [item[n]];
    }
  }

  lemma TailIsOne(item: Text, tail: Text)
    ensures EndsIn(item, tail) <==> tail == AfterLastHash(item)
  {
    var m := AfterLastHashIs(item);
    if EndsIn(item, tail) {
      var n :| 0 <= n <= |item| && item[n..] == tail && (n == 0 || item[n - 1] == HASH);
      SuffixHolds(item, n, m);
      SuffixHolds(item, m, n);
    }
  }

  lemma SuffixHolds(item: Text, n: nat, m: nat)
    requires n <= |item| && m <= |item|
    ensures n < m ==> item[m - 1] in item[n..]
  {
    if n < m { assert item[n..][m - 1 - n] == item[m - 1]; }
  }

  /** The same letter, whatever its case, where a dash stands for an underscore. */
  predicate SameLetter(c: CodePoint, d: CodePoint) {
    if 0x41 <= c <= 0x5A then d == c + 0x20 else if c == 0x2D then d == 0x5F else d == c
  }

  predicate Sounds(t: Text, name: Text) {
    |t| == |name| && forall i :: 0 <= i < |t| ==> SameLetter(t[i], name[i])
  }

  lemma SoundsIs(t: Text, name: Text)
    ensures Sounds(t, name) <==> Normalized(t) == name
  {
  }

  /** The item ends in this name, however it is spelled. */
  predicate IsNamed(item: Text, name: Text) {
    exists m :: 0 <= m <= |item| && EndsIn(item, item[m..]) && Sounds(item[m..], name)
  }

  lemma NamedIs(item: Text, name: Text)
    ensures IsNamed(item, name) <==> Normalized(AfterLastHash(item)) == name
  {
    var m := AfterLastHashIs(item);
    TailIsOne(item, item[m..]);
    SoundsIs(item[m..], name);
    if k :| 0 <= k <= |item| && EndsIn(item, item[k..]) && Sounds(item[k..], name) { TailIsOne(item, item[k..]); }
  }

  /** The item ends in this name and an ordinal of this value. */
  ghost predicate IsNumbered(item: Text, name: Text, n: nat) {
    exists digits :: AllDigits(digits) && IntOf(digits) == Some(n) && IsNamed(item, name + digits)
  }

  ghost predicate IsCoordinate(item: Text, c: Text) {
    || c == item
    || (c == T("patch_plan:first_proof_moment") && (IsNamed(item, T("first_proof_moment")) || IsNamed(item, T("first_proof"))))
    || (exists n :: IsNumbered(item, T("follow_up_"), n) && c == T("patch_plan:follow_up:") + NatText(n))
    || (exists n :: IsNumbered(item, T("deferred_"), n) && c == T("patch_plan:deferred:") + NatText(n))
  }

  lemma NumberedIs(item: Text, name: Text, coordinate: Text, c: Text)
    requires OrdinalCoordinate(Normalized(AfterLastHash(item)), name, coordinate).Some?
    ensures c in OrdinalCoordinate(Normalized(AfterLastHash(item)), name, coordinate).value
       <==> exists n :: IsNumbered(item, name, n) && c == coordinate + NatText(n)
  {
    hide AllDigits, IntOf, Normalized, AfterLastHash;
    var normalized := Normalized(AfterLastHash(item));
    if c in OrdinalCoordinate(normalized, name, coordinate).value {
      var digits := normalized[|name|..];
      assert normalized == name + digits;
      NamedIs(item, name + digits);
      assert IsNumbered(item, name, IntOf(digits).value);
    }
    if n: nat :| IsNumbered(item, name, n) && c == coordinate + NatText(n) {
      var digits :| AllDigits(digits) && IntOf(digits) == Some(n) && IsNamed(item, name + digits);
      NamedIs(item, name + digits);
      assert normalized[|name|..] == digits;
    }
  }

  /** Where its candidates can be made, an item's coordinates are itself and at most one historical one, by
      the name or the ordinal it ends in. */
  lemma CoordinatesExactly(item: Text, c: Text)
    requires Candidates(item).Some?
    ensures c in Candidates(item).value <==> IsCoordinate(item, c)
    ensures Candidates(item).value[0] == item && |Candidates(item).value| <= 2
  {
    hide AllDigits, IntOf, Normalized, AfterLastHash, OrdinalCoordinate, T;
    var normalized := Normalized(AfterLastHash(item));
    var followUp := OrdinalCoordinate(normalized, FOLLOW_UP, T("patch_plan:follow_up:")).value;
    var deferred := OrdinalCoordinate(normalized, DEFERRED, T("patch_plan:deferred:")).value;
    NamedIs(item, T("first_proof_moment"));
    NamedIs(item, T("first_proof"));
    NumberedIs(item, FOLLOW_UP, T("patch_plan:follow_up:"), c);
    NumberedIs(item, DEFERRED, T("patch_plan:deferred:"), c);
    AtMostOne(normalized);
  }

  lemma AtMostOne(normalized: Text)
    ensures var followUp := OrdinalCoordinate(normalized, FOLLOW_UP, T("patch_plan:follow_up:"));
            var deferred := OrdinalCoordinate(normalized, DEFERRED, T("patch_plan:deferred:"));
            && (followUp.Some? && followUp.value != [] ==> |followUp.value| == 1 && FOLLOW_UP <= normalized)
            && (deferred.Some? && deferred.value != [] ==> |deferred.value| == 1 && DEFERRED <= normalized)
    ensures !(FOLLOW_UP <= normalized && DEFERRED <= normalized)
    ensures normalized == T("first_proof_moment") || normalized == T("first_proof") ==>
      !(FOLLOW_UP <= normalized) && !(DEFERRED <= normalized)
  {
    hide AllDigits, IntOf;
    assert FOLLOW_UP[0] == 0x66 && FOLLOW_UP[1] == 0x6F && DEFERRED[0] == 0x64;
    assert T("first_proof")[1] == 0x69 && T("first_proof_moment")[1] == 0x69 && T("first_proof")[0] == 0x66 && T("first_proof_moment")[0] == 0x66;
  }

  // What has to hold between the rows

  predicate ScopesOnce(scope: seq<Scope>) {
    forall i, j :: 0 <= i < j < |scope| ==> scope[i].id != scope[j].id
  }

  predicate GoalsOnce(goals: seq<Goal>) {
    forall i, j :: 0 <= i < j < |goals| ==> goals[i].id != goals[j].id
  }

  predicate RequirementsOnce(requirements: seq<Requirement>) {
    forall i, j :: 0 <= i < j < |requirements| ==> requirements[i].id != requirements[j].id
  }

  predicate IsScopeId(scope: seq<Scope>, id: Text) {
    exists i :: 0 <= i < |scope| && scope[i].id == id
  }

  predicate IsOwned(owners: seq<Owner>, id: Text) {
    exists j :: 0 <= j < |owners| && owners[j].scope == id
  }

  predicate OwnersOnce(owners: seq<Owner>) {
    forall i, j :: 0 <= i < j < |owners| ==> owners[i].scope != owners[j].scope
  }

  predicate HasDutyForGoal(duties: seq<Duty>, id: Text) {
    exists k :: 0 <= k < |duties| && duties[k].goal == id
  }

  predicate HasDutyForRequirement(duties: seq<Duty>, id: Text) {
    exists k :: 0 <= k < |duties| && duties[k].requirement == id
  }

  predicate HasDuty(duties: seq<Duty>, id: Text) {
    exists k :: 0 <= k < |duties| && duties[k].id == id
  }

  /** Nothing is left without its obligation. */
  ghost predicate AllServed(rows: Rows) {
    && (forall id :: IsWanted(rows.goals, id) ==> HasDutyForGoal(rows.duties, id))
    && (forall r :: r in rows.requirements ==> HasDutyForRequirement(rows.duties, r.id))
    && forall id, item :: IsAssigned(rows.assignments, id, item) ==> HasDuty(rows.duties, id)
  }

  ghost predicate Lawful(rows: Rows) {
    && ScopesOnce(rows.scope)
    && OwnersOnce(rows.owners) && (forall id :: IsScopeId(rows.scope, id) <==> IsOwned(rows.owners, id))
    && GoalsOnce(rows.goals) && (forall id :: IsWanted(rows.goals, id) ==> IsGoalRetained(rows.scope, id))
    && RequirementsOnce(rows.requirements)
    && NamesOnce(rows.assignments)
    && (forall k :: 0 <= k < |rows.duties| ==> DutyLawful(rows, k))
    && AllServed(rows)
  }

  predicate IsGoalRetained(scope: seq<Scope>, id: Text) {
    HasRow(scope, id, T("referee_goal")) || HasRow(scope, id, T("goal"))
  }

  lemma OwnersExactly(rows: Rows)
    ensures OwnsExactly(rows.owners, Ids(rows.scope)) <==>
      OwnersOnce(rows.owners) && forall id :: IsScopeId(rows.scope, id) <==> IsOwned(rows.owners, id)
  {
    forall id ensures id in Ids(rows.scope) <==> IsScopeId(rows.scope, id) {
    }
    forall id ensures id in Owned(rows.owners) <==> IsOwned(rows.owners, id) {
    }
    hide Ids, Owned, IsScopeId, IsOwned;
    assert Owned(rows.owners) == Ids(rows.scope) <==> forall id :: IsScopeId(rows.scope, id) <==> IsOwned(rows.owners, id) by {
      if Owned(rows.owners) == Ids(rows.scope) {
        forall id ensures IsScopeId(rows.scope, id) <==> IsOwned(rows.owners, id) {
          assert id in Owned(rows.owners) <==> id in Ids(rows.scope);
        }
      }
    }
  }

  lemma GoalsExactly(rows: Rows)
    ensures GoalsOk(rows.goals, rows.scope) <==>
      GoalsOnce(rows.goals) && forall id :: IsWanted(rows.goals, id) ==> IsGoalRetained(rows.scope, id)
  {
    forall id ensures HasKind(rows.scope, id, {T("referee_goal"), T("goal")}) <==> IsGoalRetained(rows.scope, id) {
      GoalRetainedIs(rows.scope, id);
    }
    hide HasKind, IsGoalRetained, T;
    if forall id :: IsWanted(rows.goals, id) ==> IsGoalRetained(rows.scope, id) {
      forall i | 0 <= i < |rows.goals| && rows.goals[i].requiresDeliverable
        ensures HasKind(rows.scope, rows.goals[i].id, {T("referee_goal"), T("goal")})
      {
        assert IsWanted(rows.goals, rows.goals[i].id);
      }
    }
  }

  lemma GoalRetainedIs(scope: seq<Scope>, id: Text)
    ensures HasKind(scope, id, {T("referee_goal"), T("goal")}) <==> IsGoalRetained(scope, id)
  {
    hide T;
  }

  lemma PlanRowIs(scope: seq<Scope>, id: Text)
    ensures HasKind(scope, id, {PATCH_PLAN}) <==> HasRow(scope, id, T("patch_plan"))
  {
    hide T;
  }

  lemma WantedIs(goals: seq<Goal>, id: Text)
    ensures id in RefereeGoals(goals) <==> IsWanted(goals, id)
  {
  }

  /** The obligations belong to what is wanted, so the three completeness checks are about what is missing. */
  lemma CompleteExactly(rows: Rows)
    requires AssignedOnce(Flatten(rows.assignments)) && DutiesOk(rows, |rows.duties|)
    ensures Complete(rows) <==> AllServed(rows)
  {
    hide Flatten, ItemOf, IsAssigned, IsWanted, RefereeGoals, AssignedOnce, DutyOk, HasDuty, HasDutyForGoal, HasDutyForRequirement,
      RequirementIds, DutyIds;
    DutySetsAre(rows.duties);
    var (goals, requirements, ids) := (DutyGoals(rows.duties), DutyRequirements(rows.duties), DutyIds(rows.duties));
    assert goals <= RefereeGoals(rows.goals) && requirements <= RequirementIds(rows.requirements)
        && ids <= ItemOf(Flatten(rows.assignments)).Keys by { DutiesBelong(rows); }
    forall id ensures id in RefereeGoals(rows.goals) <==> IsWanted(rows.goals, id) { WantedIs(rows.goals, id); }
    forall id ensures id in ItemOf(Flatten(rows.assignments)) <==> exists item :: IsAssigned(rows.assignments, id, item) {
      KeysAreAssigned(rows.assignments, id);
    }
    RequirementIdsAre(rows.requirements);
    SameWhenCovered(goals, RefereeGoals(rows.goals));
    SameWhenCovered(requirements, RequirementIds(rows.requirements));
    SameWhenCovered(ids, ItemOf(Flatten(rows.assignments)).Keys);
    assert (set k | 0 <= k < |rows.duties| :: rows.duties[k].goal) == goals;
    assert (set k | 0 <= k < |rows.duties| :: rows.duties[k].requirement) == requirements;
  }

  lemma SameWhenCovered(small: set<Text>, big: set<Text>)
    requires small <= big
    ensures small == big <==> forall x :: x in big ==> x in small
  {
  }

  lemma RequirementIdsAre(requirements: seq<Requirement>)
    ensures forall id :: id in RequirementIds(requirements) <==> exists r :: r in requirements && r.id == id
  {
    forall r | r in requirements ensures r.id in RequirementIds(requirements) {
      var i :| 0 <= i < |requirements| && requirements[i] == r;
      assert requirements[i].id in RequirementIds(requirements);
    }
  }

  lemma DutySetsAre(duties: seq<Duty>)
    ensures forall id :: id in DutyGoals(duties) <==> HasDutyForGoal(duties, id)
    ensures forall id :: id in DutyRequirements(duties) <==> HasDutyForRequirement(duties, id)
    ensures forall id :: id in DutyIds(duties) <==> HasDuty(duties, id)
  {
  }

  lemma DutiesBelong(rows: Rows)
    requires DutiesOk(rows, |rows.duties|)
    ensures DutyGoals(rows.duties) <= RefereeGoals(rows.goals)
    ensures DutyRequirements(rows.duties) <= RequirementIds(rows.requirements)
    ensures DutyIds(rows.duties) <= ItemOf(Flatten(rows.assignments)).Keys
  {
    hide Flatten, ItemOf, RefereeGoals, DutyOk, RequirementIds;
    forall k | 0 <= k < |rows.duties|
      ensures rows.duties[k].goal in RefereeGoals(rows.goals) && rows.duties[k].requirement in RequirementIds(rows.requirements)
           && rows.duties[k].id in ItemOf(Flatten(rows.assignments))
    {
      assert DutyOk(rows, k);
      DutyParts(rows, k);
    }
  }

  lemma DutyParts(rows: Rows, k: nat)
    requires k < |rows.duties| && DutyOk(rows, k)
    ensures rows.duties[k].goal in RefereeGoals(rows.goals) && rows.duties[k].requirement in RequirementIds(rows.requirements)
    ensures rows.duties[k].id in ItemOf(Flatten(rows.assignments))
  {
    hide Flatten, ItemOf, RefereeGoals, HasKind, Resolved;
    var i :| 0 <= i < |rows.requirements| && MatchesRequirement(rows.requirements[i], rows.duties[k]);
    assert rows.requirements[i].id in RequirementIds(rows.requirements);
  }

  /** The checks pass exactly on lawful rows. */
  lemma LawfulExactly(rows: Rows)
    ensures Consistent(rows) <==> Lawful(rows)
  {
    hide Flatten, ItemOf, IsAssigned, IsWanted, DutyOk, DutyLawful, OwnsExactly, GoalsOk, Complete, NamesOnce, AssignedOnce,
      AllServed, IsGoalRetained, IsScopeId, IsOwned, OwnersOnce, GoalsOnce;
    OwnersExactly(rows);
    GoalsExactly(rows);
    NamesOnceIs(rows.assignments);
    if AssignedOnce(Flatten(rows.assignments)) {
      forall k | 0 <= k < |rows.duties| ensures DutyOk(rows, k) <==> DutyLawful(rows, k) { DutyLawfulExactly(rows, k); }
      if DutiesOk(rows, |rows.duties|) { CompleteExactly(rows); }
    }
  }

  // The other members of the ledger

  predicate IsLowerHex(t: Text, n: nat) {
    |t| == n && forall i :: 0 <= i < |t| ==> t[i] in T("0123456789abcdef")
  }

  lemma HexIs(t: Text, n: nat)
    ensures IsHexOf(t, n) <==> IsLowerHex(t, n)
    ensures IsLowerHex(t, n) && n > 0 ==> t != []
  {
    forall c: CodePoint ensures c in T("0123456789abcdef") <==> 0x30 <= c <= 0x39 || 0x61 <= c <= 0x66 { HexDigitIs(c); }
    hide T;
  }

  lemma HexDigitIs(c: CodePoint)
    ensures c in T("0123456789abcdef") <==> 0x30 <= c <= 0x39 || 0x61 <= c <= 0x66
  {
    var digits := T("0123456789abcdef");
    assert digits == [0x30, 0x31, 0x32, 0x33, 0x34, 0x35, 0x36, 0x37, 0x38, 0x39, 0x61, 0x62, 0x63, 0x64, 0x65, 0x66];
  }

  /** The ordinal of a review round: decimal, with four digits or as many as it needs. */
  predicate IsOrdinal(t: Text, n: nat) {
    && |t| >= 4 && (forall i :: 0 <= i < |t| ==> 0x30 <= t[i] <= 0x39) && NatValue(t) == n
    && (|t| > 4 ==> t[0] != 0x30)
  }

  predicate IsRecordPath(path: Text, round: nat) {
    exists m :: 0 <= m <= |path| && IsRecordPathAt(path, round, m)
  }

  predicate IsRecordPathAt(path: Text, round: nat, m: nat)
    requires m <= |path|
  {
    var (start, end) := (T("patch-series-review-rounds/round-"), T("-direction-review-record.cue"));
    |start| <= m && path == start + path[|start|..m] + end && IsOrdinal(path[|start|..m], round)
  }

  function PowerOfTen(k: nat): (p: nat)
    ensures p > 0
  {
    if k == 0 then 1 else 10 * PowerOfTen(k - 1)
  }

  predicate AreDigits(t: Text) {
    forall i :: 0 <= i < |t| ==> 0x30 <= t[i] <= 0x39
  }

  lemma {:induction false} DigitsBounded(t: Text)
    requires AreDigits(t)
    ensures 0 <= NatValue(t) < PowerOfTen(|t|)
    ensures t != [] && t[0] != 0x30 ==> NatValue(t) >= PowerOfTen(|t| - 1)
  {
    if t != [] {
      var front := t[..|t| - 1];
      DigitsBounded(front);
      if front != [] { assert front[0] == t[0]; }
    }
  }

  lemma {:induction false} PowersAscend(j: nat, k: nat)
    requires j <= k
    ensures PowerOfTen(j) <= PowerOfTen(k)
  {
    if j < k { PowersAscend(j, k - 1); }
  }

  lemma {:induction false} SameDigits(s: Text, t: Text)
    requires AreDigits(s) && AreDigits(t) && |s| == |t| && NatValue(s) == NatValue(t)
    ensures s == t
  {
    if s != [] {
      var n := |s| - 1;
      DigitsBounded(s[..n]);
      DigitsBounded(t[..n]);
      SameDigits(s[..n], t[..n]);
      assert s == s[..n] + [s[n]] && t == t[..n] + [t[n]];
    }
  }

  lemma NotShorter(s: Text, t: Text)
    requires AreDigits(s) && AreDigits(t) && |s| < |t| && t[0] != 0x30
    ensures NatValue(s) < NatValue(t)
  {
    DigitsBounded(s);
    DigitsBounded(t);
    PowersAscend(|s|, |t| - 1);
  }

  lemma OrdinalIsOne(s: Text, t: Text, n: nat)
    requires IsOrdinal(s, n) && IsOrdinal(t, n)
    ensures s == t
  {
    hide NatValue;
    if |s| < |t| { NotShorter(s, t); }
    if |t| < |s| { NotShorter(t, s); }
    SameDigits(s, t);
  }

  lemma {:induction false} PaddedValue(k: nat, t: Text)
    requires AreDigits(t)
    ensures NatValue(seq(k, _ => 0x30) + t) == NatValue(t)
  {
    var zeros: Text := seq(k, _ => 0x30);
    if t == [] {
      assert zeros + t == zeros;
      ZerosAreZero(k);
    } else {
      PaddedValue(k, t[..|t| - 1]);
      assert (zeros + t)[..|zeros + t| - 1] == zeros + t[..|t| - 1];
    }
  }

  lemma {:induction false} ZerosAreZero(k: nat)
    ensures NatValue(seq(k, _ => 0x30)) == 0
  {
    var zeros: Text := seq(k, _ => 0x30);
    if k > 0 {
      var fewer: Text := seq(k - 1, _ => 0x30);
      ZerosAreZero(k - 1);
      assert zeros[..k - 1] == fewer;
    }
  }

  lemma FourDigitsIsOrdinal(n: nat)
    ensures IsOrdinal(FourDigits(n), n)
  {
    hide NatValue;
    var t := NatText(n);
    NatTextDigits(n);
    forall i | 0 <= i < |t| ensures 0x30 <= t[i] <= 0x39 { DigitsAreDigits(t, i); }
    if |t| >= 4 {
      assert [] + t == t;
      LeadingDigit(t, n);
    } else {
      PaddedValue(4 - |t|, t);
    }
  }

  lemma LeadingDigit(t: Text, n: nat)
    requires t == NatText(n) && |t| >= 4
    ensures t[0] != 0x30
  {
    NatTextDigits(n);
  }

  lemma OrdinalExactly(t: Text, n: nat)
    ensures IsOrdinal(t, n) <==> t == FourDigits(n)
  {
    hide IsOrdinal, FourDigits;
    FourDigitsIsOrdinal(n);
    if IsOrdinal(t, n) { OrdinalIsOne(t, FourDigits(n), n); }
  }

  lemma RecordPathExactly(path: Text, round: nat)
    ensures IsRecordPath(path, round) <==> path == RecordPath(round)
  {
    hide IsOrdinal, FourDigits, T;
    var (start, end) := (T("patch-series-review-rounds/round-"), T("-direction-review-record.cue"));
    OrdinalExactly(FourDigits(round), round);
    if path == RecordPath(round) {
      var m := |start| + |FourDigits(round)|;
      assert path[|start|..m] == FourDigits(round);
      assert IsRecordPathAt(path, round, m);
    }
    if m :| 0 <= m <= |path| && IsRecordPathAt(path, round, m) { OrdinalExactly(path[|start|..m], round); }
  }

  /** How the ledger tells of the escalation it was rebaselined from: not at all, or by round, branch and
      commit, where a record path may be left out, be null or be the path of that round. */
  predicate IsEscalation(v: Json, e: Consumption) {
    match e
    case NotConsumed => v == Obj([])
    case Consumed(round, branch, commit) =>
      && round >= 1 && branch != [] && IsLowerHex(commit, 40)
      && Has(v, T("review_round"), Int(round)) && Has(v, T("child_branch"), Str(branch)) && Has(v, T("git_result_commit"), Str(commit))
      && OnlyNames(v, {T("review_round"), T("child_branch"), T("git_result_commit"), T("review_record_path")})
      && PathAgrees(v, round)
  }

  predicate PathAgrees(v: Json, round: nat) {
    Lacks(v, T("review_record_path")) || Has(v, T("review_record_path"), Null)
    || exists i :: v.Obj? && 0 <= i < |v.members| && v.members[i].key == T("review_record_path")
                   && v.members[i].value.Str? && IsRecordPath(v.members[i].value.s, round)
  }

  lemma PathAgreesExactly(v: Json, round: nat)
    requires v.Obj? && IsDict(v)
    ensures var path := Field(v, REVIEW_RECORD_PATH);
            PathAgrees(v, round) <==> path.None? || path.value == Null || path.value == Str(RecordPath(round))
  {
    hide T, Field, RecordPath, IsRecordPath;
    var name := T("review_record_path");
    var path := Field(v, name);
    FieldIs(v, name, Null);
    if path.Some? {
      FieldIs(v, name, path.value);
      if path.value.Str? { RecordPathExactly(path.value.s, round); }
    }
    forall i | 0 <= i < |v.members| && v.members[i].key == name ensures path == Some(v.members[i].value) {
      assert v.members[i] == Keyed(name, v.members[i].value);
      FieldIs(v, name, v.members[i].value);
    }
  }

  lemma EscalationExactly(v: Json, e: Consumption)
    requires IsDict(v)
    ensures ClosedEscalation(Some(v)) == Some(e) <==> IsEscalation(v, e)
  {
    hide T, Has, Field, TextAt, Names, OnlyNames, IsLowerHex, IsHexOf, RecordPath, PathAgrees, IsDict;
    if v.Obj? && v.members != [] && e.Consumed? {
      ConsumedExactly(v, e);
    } else if v.Obj? && v.members == [] {
      NothingHas(v, T("review_round"));
    } else {
      NoObjectHas(v, T("review_round"));
    }
  }

  lemma NothingHas(v: Json, name: Text)
    requires v.Obj? && v.members == []
    ensures forall value :: !Has(v, name, value)
  {
  }

  lemma NoObjectHas(v: Json, name: Text)
    ensures !v.Obj? ==> forall value :: !Has(v, name, value)
  {
  }

  lemma ConsumedExactly(v: Json, e: Consumption)
    requires IsDict(v) && v.Obj? && v.members != [] && e.Consumed?
    ensures ClosedEscalation(Some(v)) == Some(e) <==> IsEscalation(v, e)
  {
    hide T, Has, Field, TextAt, Names, OnlyNames, IsLowerHex, IsHexOf, RecordPath, PathAgrees, IsDict;
    var (a, b, c) := (T("review_round"), T("child_branch"), T("git_result_commit"));
    FieldIs(v, a, Int(e.round));
    TextAtIs(v, b, e.branch);
    TextAtIs(v, c, e.commit);
    HexIs(e.commit, 40);
    PathAgreesExactly(v, e.round);
    OnlyNamesIs(v, {a, b, c, T("review_record_path")});
    assert CONSUMPTION_FIELDS + {REVIEW_RECORD_PATH} == {a, b, c, T("review_record_path")};
    if Has(v, a, Int(e.round)) && Has(v, b, Str(e.branch)) && Has(v, c, Str(e.commit)) {
      HasIsNamed(v, a, Int(e.round));
      HasIsNamed(v, b, Str(e.branch));
      HasIsNamed(v, c, Str(e.commit));
      if Names(v) <= {a, b, c, T("review_record_path")} {
        assert Names(v) == {a, b, c} || Names(v) == {a, b, c, T("review_record_path")};
      }
    }
  }

  /** The members of the ledger beside its rows. */
  ghost predicate IsTail(input: Input, revision: nat, supersedes: Text, escalation: Consumption, retained: seq<Text>) {
    && revision >= 1 && Has(input.ledger, T("ledger_revision"), Int(revision))
    && Has(input.ledger, T("supersedes_ledger_commit"), Str(supersedes))
    && (if revision == 1 then supersedes == [] else IsLowerHex(supersedes, 40))
    && (exists v :: Has(input.ledger, T("rebaselined_from_escalation"), v) && IsEscalation(v, escalation))
    && Lists(input.ledger, T("parent_retained_scope_ids"), retained, IsText)
  }

  predicate IsText(v: Json, t: Text) {
    v == Str(t)
  }

  lemma LineageExactly(ledger: Json, revision: nat, supersedes: Text)
    requires IsDict(ledger)
    ensures Revision(ledger) == Some(revision) <==> revision >= 1 && Has(ledger, T("ledger_revision"), Int(revision))
    ensures revision >= 1 ==>
      (Lineage(ledger, revision) == Some(supersedes) <==>
         && Has(ledger, T("supersedes_ledger_commit"), Str(supersedes))
         && (if revision == 1 then supersedes == [] else IsLowerHex(supersedes, 40)))
  {
    hide T, Has, Field;
    FieldIs(ledger, T("ledger_revision"), Int(revision));
    FieldIs(ledger, T("supersedes_ledger_commit"), Str(supersedes));
    HexIs(supersedes, 40);
  }

  lemma RetainedExactly(input: Input, retained: seq<Text>)
    requires IsDocument(input)
    ensures DecodeList(input.ledger, T("parent_retained_scope_ids"), AnyText) == Some(retained)
       <==> Lists(input.ledger, T("parent_retained_scope_ids"), retained, IsText)
  {
    hide T, Has, Lists, DecodeAll;
    DecodeListExactly(input.ledger, T("parent_retained_scope_ids"), retained, AnyText, IsText);
  }

  lemma TailExactly(input: Input, revision: nat, supersedes: Text, escalation: Consumption, retained: seq<Text>)
    requires IsDocument(input)
    ensures IsTail(input, revision, supersedes, escalation, retained) <==>
      && Revision(input.ledger) == Some(revision) && Lineage(input.ledger, revision) == Some(supersedes)
      && ClosedEscalation(Field(input.ledger, T("rebaselined_from_escalation"))) == Some(escalation)
      && DecodeList(input.ledger, T("parent_retained_scope_ids"), AnyText) == Some(retained)
  {
    hide T, Has, Field, Lists, DecodeList, Revision, Lineage, ClosedEscalation, IsEscalation, IsLowerHex;
    var name := T("rebaselined_from_escalation");
    assert IsDict(input.ledger);
    LineageExactly(input.ledger, revision, supersedes);
    RetainedExactly(input, retained);
    var field := Field(input.ledger, name);
    if field.Some? {
      FieldIs(input.ledger, name, field.value);
      HasValid(input.ledger, name, field.value);
      EscalationExactly(field.value, escalation);
    } else {
      NothingEscalated();
    }
    forall v | Has(input.ledger, name, v) ensures field == Some(v) { FieldIs(input.ledger, name, v); }
  }

  lemma NothingEscalated()
    ensures ClosedEscalation(None) == None
  {
  }

  // What is accepted, and what comes out

  /** An input that says everything the decomposition asks for. */
  ghost predicate IsAcceptable(input: Input, rows: Rows, revision: nat, supersedes: Text, escalation: Consumption, retained: seq<Text>) {
    && IsLowerHex(input.frozenOid, 40) && IsLowerHex(input.rootDigest, 64)
    && Has(input.ledger, T("schema"), Str(T("series-coverage-ledger-v1")))
    && Documented(input, rows) && Lawful(rows)
    && IsTail(input, revision, supersedes, escalation, retained)
    && (forall i, j :: 0 <= i < j < |retained| ==> retained[i] != retained[j])
    && forall i :: 0 <= i < |retained| ==> IsScopeId(rows.scope, retained[i]) || HasDuty(rows.duties, retained[i])
  }

  lemma HeaderExactly(input: Input)
    requires IsDocument(input)
    ensures HeaderOk(input) <==>
      && IsLowerHex(input.frozenOid, 40) && IsLowerHex(input.rootDigest, 64)
      && Has(input.ledger, T("schema"), Str(T("series-coverage-ledger-v1")))
  {
    hide T, Has, Field, IsHexOf, IsLowerHex;
    HexIs(input.frozenOid, 40);
    HexIs(input.rootDigest, 64);
    FieldIs(input.ledger, T("schema"), Str(T("series-coverage-ledger-v1")));
  }

  lemma RetainedIds(rows: Rows, retained: seq<Text>)
    requires Consistent(rows)
    ensures RetainedOk(retained, Ids(ScopeItems(rows, |rows.duties|))) <==>
      && (forall i, j :: 0 <= i < j < |retained| ==> retained[i] != retained[j])
      && forall i :: 0 <= i < |retained| ==> IsScopeId(rows.scope, retained[i]) || HasDuty(rows.duties, retained[i])
  {
    hide ScopeItems, DutiesOk, Complete, GoalsOk, RequirementsOk, AssignedOnce, OwnsExactly, DistinctScopes;
    var n := |rows.duties|;
    OwnerRowsOwn(rows, n);
    assert rows.duties[..n] == rows.duties;
    forall id ensures id in Ids(rows.scope) + DutyIds(rows.duties) <==> IsScopeId(rows.scope, id) || HasDuty(rows.duties, id) {
    }
    hide Ids, DutyIds, IsScopeId, HasDuty;
    var ids := Ids(ScopeItems(rows, n));
    assert forall id :: id in ids <==> IsScopeId(rows.scope, id) || HasDuty(rows.duties, id);
  }

  /** The decomposition accepts exactly the acceptable documents, and its body holds what they say. */
  lemma AcceptsExactly(input: Input, rows: Rows, revision: nat, supersedes: Text, escalation: Consumption, retained: seq<Text>)
    requires IsDocument(input)
    ensures IsAcceptable(input, rows, revision, supersedes, escalation, retained) <==>
      && Accepts(input) && RowsOf(input) == Some(rows)
      && var body := BodyOf(input);
      body.revision == revision && body.supersedes == supersedes && body.escalation == escalation && body.retained == retained
  {
    hide T, Has, Field, RowsOf, DecodeList, Consistent, Lawful, IsTail, Documented, IsLowerHex, HeaderOk, RetainedOk, Revision,
      Lineage, ClosedEscalation, ScopeItems, OwnerRows, Ids, IsScopeId, HasDuty;
    HeaderExactly(input);
    RowsExactly(input, rows);
    LawfulExactly(rows);
    TailExactly(input, revision, supersedes, escalation, retained);
    if Consistent(rows) { RetainedIds(rows, retained); }
  }

  /** Row by row: behind the historical rows stands one row for every obligation, with its assigned item, and
      its owner is that of the first of the item's coordinates that is known. */
  lemma BodyExactly(input: Input, rows: Rows, k: nat) returns (item: Text, owner: Owner)
    requires Accepts(input) && RowsOf(input) == Some(rows) && k < |rows.duties|
    ensures IsAssigned(rows.assignments, rows.duties[k].id, item)
    ensures owner in rows.owners && OwnerFound(rows, k, item, owner.scope) && HasRow(rows.scope, owner.scope, T("patch_plan"))
    ensures var (body, d) := (BodyOf(input), rows.duties[k]);
            && |body.scopeItems| == |rows.scope| + |rows.duties| && |body.ownership| == |rows.owners| + |rows.duties|
            && rows.scope <= body.scopeItems && rows.owners <= body.ownership
            && body.scopeItems[|rows.scope| + k] == Obligation(d.id, d.goal, d.requirement, item, d.deliverable, d.predicate_)
            && body.ownership[|rows.owners| + k] == Owner(d.id, owner.owner, owner.path)
  {
    hide RowsOf, Complete, GoalsOk, RequirementsOk, T, MatchesRequirement, RefereeGoals, Candidates, ItemOf, Flatten, HasKind,
      OwnerScope, IsAssigned, OwnerFound, HasRow, AssignedOnce, TailOk, HeaderOk, DistinctScopes;
    var n := |rows.duties|;
    ScopeItemAt(rows, n, k);
    HistoryIsKept(rows, n);
    CountOwners(rows.owners, rows.scope);
    assert DutyOk(rows, k);
    var c := OwnerScope(rows, k).value;
    item := ItemOf(Flatten(rows.assignments))[rows.duties[k].id];
    owner := OwnerOf(rows.owners, c);
    OwnerOfIs(rows.owners, c);
    ItemIs(rows.assignments, rows.duties[k].id, item);
    OwnerScopeExactly(rows, k, c);
    PlanRowIs(rows.scope, c);
    forall other | IsAssigned(rows.assignments, rows.duties[k].id, other) ensures other == item {
      ItemIs(rows.assignments, rows.duties[k].id, other);
    }
  }
}
