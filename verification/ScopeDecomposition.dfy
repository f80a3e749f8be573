/** The series scope decomposition: how a historical ledger and the canonical root become one closed
    body in which every scope row has exactly one owner. */
module ScopeDecomposition {
  import opened Prelude
  import opened Utf8
  import opened JsonNumber
  import opened Json
  import opened PyDigits

  // Reading JSON rows

  function Field(v: Json, name: Text): Option<Json> {
    if v.Obj? then Get(v.members, name) else None
  }

  function Names(v: Json): set<Text> {
    if v.Obj? then set i | 0 <= i < |v.members| :: v.members[i].key else {}
  }

  /** A nonempty string field. */
  function TextAt(v: Json, name: Text): Option<Text> {
    match Field(v, name)
    case Some(Str(t)) => if t == [] then None else Some(t)
    case _ => None
  }

  function ListAt(v: Json, name: Text): Option<seq<Json>> {
    match Field(v, name)
    case Some(Arr(items)) => Some(items)
    case _ => None
  }

  /** Every row decoded, or None when one does not decode. */
  function DecodeAll<R>(raw: seq<Json>, decode: Json -> Option<R>): Option<seq<R>> {
    if raw == [] then Some([])
    else
      var rest := DecodeAll(raw[..|raw| - 1], decode);
      var last := decode(raw[|raw| - 1]);
      if rest.None? || last.None? then None else Some(rest.value + [last.value])
  }

  lemma {:induction false} DecodePrefix<R>(raw: seq<Json>, decode: Json -> Option<R>, i: nat)
    requires i <= |raw|
    ensures DecodeAll(raw[..i], decode).None? ==> DecodeAll(raw, decode).None?
    ensures DecodeAll(raw, decode).Some? ==> |DecodeAll(raw, decode).value| == |raw|
    ensures DecodeAll(raw, decode).Some? ==> DecodeAll(raw[..i], decode) == Some(DecodeAll(raw, decode).value[..i])
  {
    if i == |raw| {
      assert raw[..i] == raw;
      if raw != [] { DecodePrefix(raw[..|raw| - 1], decode, |raw| - 1); }
      if DecodeAll(raw, decode).Some? { assert DecodeAll(raw, decode).value[..i] == DecodeAll(raw, decode).value; }
    } else {
      DecodePrefix(raw[..|raw| - 1], decode, i);
      assert raw[..|raw| - 1][..i] == raw[..i];
      if DecodeAll(raw, decode).Some? {
        var rest := DecodeAll(raw[..|raw| - 1], decode).value;
        assert DecodeAll(raw, decode).value[..i] == rest[..i];
      }
    }
  }

  lemma DecodeStep<R>(raw: seq<Json>, decode: Json -> Option<R>, i: nat)
    requires i < |raw|
    ensures DecodeAll(raw[..i + 1], decode)
         == if DecodeAll(raw[..i], decode).None? || decode(raw[i]).None? then None
            else Some(DecodeAll(raw[..i], decode).value + [decode(raw[i]).value])
  {
    assert raw[..i + 1][..i] == raw[..i];
  }

  // Rows

  datatype Scope =
    | Established(id: Text, kind: Text, text: Text)
    | Obligation(id: Text, goal: Text, requirement: Text, item: Text, deliverable: Text, predicate_: Text)

  datatype Owner = Owner(scope: Text, owner: Text, path: Text)

  datatype Goal = Goal(id: Text, requiresDeliverable: bool)

  datatype Requirement = Requirement(id: Text, goal: Option<Json>, obligation: Option<Json>, deliverable: Option<Json>)

  datatype Assignment = Assignment(item: Text, obligations: seq<Text>)

  datatype Duty = Duty(id: Text, goal: Text, requirement: Text, deliverable: Text, predicate_: Text)

  const PATCH_PLAN := T("patch_plan")

  const ESTABLISHED: set<Text> := {
    T("desired_outcome"), T("referee_goal"), T("goal"), T("ux_acceptance_test"), PATCH_PLAN,
    T("must_address_risk"), T("domain_specification")
  }

  const REQUIRED_DUTY_FIELDS: set<Text> := {
    T("id"), T("referee_goal_id"), T("deliverable_requirement_id"), T("deliverable"), T("eligibility_predicate")
  }

  function EstablishedRow(v: Json): Option<Scope> {
    var (id, kind, text) := (TextAt(v, T("id")), TextAt(v, T("kind")), TextAt(v, T("text")));
    if Names(v) != {T("id"), T("kind"), T("text")} || id.None? || kind.None? || text.None? then None
    else if kind.value !in ESTABLISHED then None
    else Some(Established(id.value, kind.value, text.value))
  }

  function OwnerRow(v: Json): Option<Owner> {
    var (scope, owner, path) := (TextAt(v, T("scope_item_id")), TextAt(v, T("owner")), TextAt(v, T("owner_node_path")));
    if Names(v) != {T("scope_item_id"), T("owner"), T("owner_node_path")} || scope.None? || owner.None? || path.None? then None
    else Some(Owner(scope.value, owner.value, path.value))
  }

  function GoalRow(v: Json): Option<Goal> {
    match (TextAt(v, T("id")), Field(v, T("requires_deliverable")))
    case (Some(id), Some(Bool(b))) => Some(Goal(id, b))
    case _ => None
  }

  function RequirementRow(v: Json): Option<Requirement> {
    if Names(v) != {T("id"), T("referee_goal_id"), T("production_obligation_id"), T("deliverable")} then None
    else
      match TextAt(v, T("id"))
      case None => None
      case Some(id) =>
        Some(Requirement(id, Field(v, T("referee_goal_id")), Field(v, T("production_obligation_id")), Field(v, T("deliverable"))))
  }

  function NonemptyText(v: Json): Option<Text> {
    if v.Str? && v.s != [] then Some(v.s) else None
  }

  function AssignmentRow(v: Json): Option<Assignment> {
    if Names(v) != {T("item_id"), T("production_obligation_ids")} then None
    else
      match (TextAt(v, T("item_id")), ListAt(v, T("production_obligation_ids")))
      case (Some(item), Some(ids)) =>
        var decoded := DecodeAll(ids, NonemptyText);
        if decoded.None? then None else Some(Assignment(item, decoded.value))
      case _ => None
  }

  function DutyRow(v: Json): Option<Duty> {
    var (id, goal, requirement) := (TextAt(v, T("id")), TextAt(v, T("referee_goal_id")), TextAt(v, T("deliverable_requirement_id")));
    var (deliverable, predicate_) := (TextAt(v, T("deliverable")), TextAt(v, T("eligibility_predicate")));
    if !(REQUIRED_DUTY_FIELDS <= Names(v) <= REQUIRED_DUTY_FIELDS + {T("replacement_links")}) then None
    else if id.None? || goal.None? || requirement.None? || deliverable.None? || predicate_.None? then None
    else Some(Duty(id.value, goal.value, requirement.value, deliverable.value, predicate_.value))
  }

  // Where a patch item is filed in the historical ledger

  const HASH: CodePoint := 0x23

  /** `t.rsplit("#", 1)[-1]`. */
  function AfterLastHash(t: Text): Text {
    if t == [] then []
    else if t[|t| - 1] == HASH then []
    else AfterLastHash(t[..|t| - 1]) + [t[|t| - 1]]
  }

  /** `t.lower().replace("-", "_")`, as far as the comparisons below can tell: no other letter's lower case
      takes part in them. */
  function Normalized(t: Text): Text {
    seq(|t|, i requires 0 <= i < |t| =>
      if 0x41 <= t[i] <= 0x5A then t[i] + 0x20 else if t[i] == 0x2D then 0x5F else t[i])
  }

  /** The coordinate of an ordinal behind a prefix, as `int` reads the ordinal; None stands for its ValueError. */
  function OrdinalCoordinate(normalized: Text, prefix: Text, coordinate: Text): Option<seq<Text>> {
    if !(prefix <= normalized) then Some([])
    else
      var ordinal := normalized[|prefix|..];
      if !AllDigits(ordinal) then Some([])
      else if IntOf(ordinal).None? then None
      else Some([coordinate + NatText(IntOf(ordinal).value)])
  }

  const FOLLOW_UP := T("follow_up_")
  const DEFERRED := T("deferred_")

  /** All candidates, made before any of them is looked up. */
  function Candidates(item: Text): Option<seq<Text>> {
    var normalized := Normalized(AfterLastHash(item));
    var first := if normalized == T("first_proof_moment") || normalized == T("first_proof") then [T("patch_plan:first_proof_moment")] else [];
    match (OrdinalCoordinate(normalized, FOLLOW_UP, T("patch_plan:follow_up:")),
           OrdinalCoordinate(normalized, DEFERRED, T("patch_plan:deferred:")))
    case (Some(followUp), Some(deferred)) => Some([item] + first + followUp + deferred)
    case _ => None
  }

  function FirstKnown(candidates: seq<Text>, known: set<Text>): Option<Text> {
    if candidates == [] then None
    else if candidates[0] in known then Some(candidates[0])
    else FirstKnown(candidates[1..], known)
  }

  /** The owned coordinate of a patch item, where its candidates can be made at all. */
  function Resolved(item: Text, known: set<Text>): Option<Text> {
    match Candidates(item)
    case None => None
    case Some(candidates) => FirstKnown(candidates, known)
  }

  /** `_historical_patch_plan_scope_id`, as its loop over the candidates; the error is the ValueError of `int`. */
  method HistoricalScopeId(item: Text, known: set<Text>) returns (id: Result<Option<Text>, string>)
    ensures id.Err? <==> Candidates(item).None?
    ensures id.Ok? ==>
      && id.value == Resolved(item, known)
      && (item in known ==> id.value == Some(item))
      && (id.value.Some? ==> id.value.value in Candidates(item).value && id.value.value in known)
      && (id.value.None? ==> forall c :: c in Candidates(item).value ==> c !in known)
    ensures id.Err? ==> id.error !in ROW_DELTAS
  {
    var made := Candidates(item);
    if made.None? { return Err("ordinal-value"); }
    var candidates := made.value;
    assert candidates[0] == item;
    hide Candidates;
    var i := 0;
    while i < |candidates|
      invariant i <= |candidates|
      invariant FirstKnown(candidates, known) == FirstKnown(candidates[i..], known)
      invariant forall j :: 0 <= j < i ==> candidates[j] !in known
    {
      assert candidates[i..][1..] == candidates[i + 1..];
      if candidates[i] in known { return Ok(Some(candidates[i])); }
      i := i + 1;
    }
    return Ok(None);
  }

  lemma NormalizedOrdinal(prefix: Text, digits: Text)
    requires (prefix == FOLLOW_UP || prefix == DEFERRED) && forall i :: 0 <= i < |digits| ==> !(0x41 <= digits[i] <= 0x5A || digits[i] == 0x2D || digits[i] == HASH)
    ensures Normalized(AfterLastHash(prefix + digits)) == prefix + digits
  {
    assert forall i :: 0 <= i < |prefix| ==> prefix[i] != HASH && prefix[i] != 0x2D && !(0x41 <= prefix[i] <= 0x5A);
    NoHash(prefix + digits);
    assert Normalized(prefix + digits) == prefix + digits;
  }

  lemma {:induction false} NoHash(t: Text)
    requires forall i :: 0 <= i < |t| ==> t[i] != HASH
    ensures AfterLastHash(t) == t
  {
    if t != [] { NoHash(t[..|t| - 1]); }
  }

  /** A numbered follow-up is found under its historical coordinate. */
  lemma FollowUpIsFound(n: nat)
    ensures var made := Candidates(FOLLOW_UP + NatText(n));
            made == Some([FOLLOW_UP + NatText(n), T("patch_plan:follow_up:") + NatText(n)])
  {
    hide AllDigits, IntOf, AfterLastHash, Normalized;
    IntOfNatText(n);
    NatTextIsAscii(n);
    NormalizedOrdinal(FOLLOW_UP, NatText(n));
    assert (FOLLOW_UP + NatText(n))[|FOLLOW_UP|..] == NatText(n);
    assert (FOLLOW_UP + NatText(n))[0] == 0x66 && DEFERRED[0] == 0x64 && T("first_proof")[1] == 0x69 && T("first_proof_moment")[1] == 0x69;
    assert (FOLLOW_UP + NatText(n))[1] == 0x6F;
    var name := FOLLOW_UP + NatText(n);
    assert OrdinalCoordinate(name, FOLLOW_UP, T("patch_plan:follow_up:")) == Some([T("patch_plan:follow_up:") + NatText(n)]);
    assert OrdinalCoordinate(name, DEFERRED, T("patch_plan:deferred:")) == Some([]);
    assert name != T("first_proof_moment") && name != T("first_proof");
    var coordinate := T("patch_plan:follow_up:") + NatText(n);
    assert [name] + [] + [coordinate] + [] == [name, coordinate];
  }

  lemma {:induction false} NatTextIsAscii(n: nat)
    ensures forall i :: 0 <= i < |NatText(n)| ==> 0x30 <= NatText(n)[i] <= 0x39
  {
    if n >= 10 { NatTextIsAscii(n / 10); }
  }

  /** A superscript ordinal raises although the item itself is owned: the candidates are made first. */
  lemma SuperscriptOrdinalRaises()
    ensures Candidates(FOLLOW_UP + [SUPERSCRIPT_TWO]) == None
    ensures forall known :: Resolved(FOLLOW_UP + [SUPERSCRIPT_TWO], known) == None
  {
    hide AllDigits, IntOf, AfterLastHash, Normalized;
    SuperscriptIsNoInt();
    NormalizedOrdinal(FOLLOW_UP, [SUPERSCRIPT_TWO]);
    assert (FOLLOW_UP + [SUPERSCRIPT_TWO])[|FOLLOW_UP|..] == [SUPERSCRIPT_TWO];
  }

  /** The exact condition: the ordinal behind the prefix is all digits, of which one has no decimal value. */
  predicate OrdinalRaises(normalized: Text, prefix: Text) {
    && prefix <= normalized && AllDigits(normalized[|prefix|..])
    && exists i :: |prefix| <= i < |normalized| && IsOtherDigit(normalized[i]) && Decimal(normalized[i]).None?
  }

  lemma CandidatesRaiseExactly(item: Text)
    ensures Candidates(item).None? <==>
      OrdinalRaises(Normalized(AfterLastHash(item)), FOLLOW_UP) || OrdinalRaises(Normalized(AfterLastHash(item)), DEFERRED)
  {
    var normalized := Normalized(AfterLastHash(item));
    RaisesExactly(normalized, FOLLOW_UP, T("patch_plan:follow_up:"));
    RaisesExactly(normalized, DEFERRED, T("patch_plan:deferred:"));
  }

  lemma RaisesExactly(normalized: Text, prefix: Text, coordinate: Text)
    ensures OrdinalCoordinate(normalized, prefix, coordinate).None? <==> OrdinalRaises(normalized, prefix)
  {
    hide Decimal, IsOtherDigit;
    if prefix <= normalized {
      var ordinal := normalized[|prefix|..];
      IntOfExactly(ordinal);
      if AllDigits(ordinal) && IntOf(ordinal).None? {
        var i :| 0 <= i < |ordinal| && Decimal(ordinal[i]).None?;
        assert normalized[|prefix| + i] == ordinal[i];
      }
      if OrdinalRaises(normalized, prefix) {
        var i :| |prefix| <= i < |normalized| && IsOtherDigit(normalized[i]) && Decimal(normalized[i]).None?;
        assert ordinal[i - |prefix|] == normalized[i];
      }
    }
  }

  // What has to hold between the rows

  predicate DistinctScopes(scope: seq<Scope>) {
    forall i, j :: 0 <= i < j < |scope| ==> scope[i].id != scope[j].id
  }

  function Ids(scope: seq<Scope>): set<Text> {
    set i | 0 <= i < |scope| :: scope[i].id
  }

  predicate HasKind(scope: seq<Scope>, id: Text, kinds: set<Text>) {
    exists i :: 0 <= i < |scope| && scope[i].Established? && scope[i].id == id && scope[i].kind in kinds
  }

  predicate DistinctOwners(owners: seq<Owner>) {
    forall i, j :: 0 <= i < j < |owners| ==> owners[i].scope != owners[j].scope
  }

  function Owned(owners: seq<Owner>): set<Text> {
    set i | 0 <= i < |owners| :: owners[i].scope
  }

  /** One owner for every scope row and no other. */
  predicate OwnsExactly(owners: seq<Owner>, ids: set<Text>) {
    DistinctOwners(owners) && Owned(owners) == ids
  }

  predicate GoalsOk(goals: seq<Goal>, scope: seq<Scope>) {
    && (forall i, j :: 0 <= i < j < |goals| ==> goals[i].id != goals[j].id)
    && forall i :: 0 <= i < |goals| && goals[i].requiresDeliverable ==>
         HasKind(scope, goals[i].id, {T("referee_goal"), T("goal")})
  }

  function RefereeGoals(goals: seq<Goal>): set<Text> {
    set i | 0 <= i < |goals| && goals[i].requiresDeliverable :: goals[i].id
  }

  predicate RequirementsOk(requirements: seq<Requirement>) {
    forall i, j :: 0 <= i < j < |requirements| ==> requirements[i].id != requirements[j].id
  }

  function RequirementIds(requirements: seq<Requirement>): set<Text> {
    set i | 0 <= i < |requirements| :: requirements[i].id
  }

  /** One obligation of one assignment. */
  datatype Assigned = Assigned(obligation: Text, item: Text)

  function Each(obligations: seq<Text>, item: Text): (r: seq<Assigned>)
    ensures |r| == |obligations|
  {
    seq(|obligations|, i requires 0 <= i < |obligations| => Assigned(obligations[i], item))
  }

  function Flatten(assignments: seq<Assignment>): seq<Assigned> {
    if assignments == [] then []
    else
      var last := assignments[|assignments| - 1];
      Flatten(assignments[..|assignments| - 1]) + Each(last.obligations, last.item)
  }

  predicate AssignedOnce(pairs: seq<Assigned>) {
    forall i, j :: 0 <= i < j < |pairs| ==> pairs[i].obligation != pairs[j].obligation
  }

  /** The assignments as the map that the loop fills. */
  function ItemOf(pairs: seq<Assigned>): map<Text, Text> {
    if pairs == [] then map[]
    else
      var last := pairs[|pairs| - 1];
      ItemOf(pairs[..|pairs| - 1])[last.obligation := last.item]
  }

  /** The rows of a ledger and a root, once decoded. */
  datatype Rows = Rows(
    scope: seq<Scope>, owners: seq<Owner>, goals: seq<Goal>, requirements: seq<Requirement>,
    assignments: seq<Assignment>, duties: seq<Duty>
  )

  predicate MatchesRequirement(r: Requirement, d: Duty) {
    && r.id == d.requirement && r.goal == Some(Str(d.goal))
    && r.obligation == Some(Str(d.id)) && r.deliverable == Some(Str(d.deliverable))
  }

  function DutyIds(duties: seq<Duty>): set<Text> {
    set i | 0 <= i < |duties| :: duties[i].id
  }

  /** Where duty k finds its owner: the historical row of its patch item. */
  function OwnerScope(rows: Rows, k: nat): Option<Text>
    requires k < |rows.duties|
  {
    var items := ItemOf(Flatten(rows.assignments));
    if rows.duties[k].id !in items then None
    else Resolved(items[rows.duties[k].id], Ids(rows.scope) + DutyIds(rows.duties[..k]))
  }

  predicate DutyOk(rows: Rows, k: nat)
    requires k < |rows.duties|
  {
    var d := rows.duties[k];
    && d.goal in RefereeGoals(rows.goals)
    && (exists i :: 0 <= i < |rows.requirements| && MatchesRequirement(rows.requirements[i], d))
    && (forall j :: 0 <= j < k ==>
          rows.duties[j].goal != d.goal && rows.duties[j].requirement != d.requirement && rows.duties[j].id != d.id)
    && d.id !in Ids(rows.scope)
    && OwnerScope(rows, k).Some? && HasKind(rows.scope, OwnerScope(rows, k).value, {PATCH_PLAN})
  }

  predicate DutiesOk(rows: Rows, n: nat)
    requires n <= |rows.duties|
  {
    forall k :: 0 <= k < n ==> DutyOk(rows, k)
  }

  /** Nothing producer-aware is left without its obligation. */
  predicate Complete(rows: Rows) {
    && (set k | 0 <= k < |rows.duties| :: rows.duties[k].goal) == RefereeGoals(rows.goals)
    && (set k | 0 <= k < |rows.duties| :: rows.duties[k].requirement) == RequirementIds(rows.requirements)
    && DutyIds(rows.duties) == ItemOf(Flatten(rows.assignments)).Keys
  }

  predicate Consistent(rows: Rows) {
    && DistinctScopes(rows.scope)
    && OwnsExactly(rows.owners, Ids(rows.scope))
    && GoalsOk(rows.goals, rows.scope)
    && RequirementsOk(rows.requirements)
    && AssignedOnce(Flatten(rows.assignments))
    && DutiesOk(rows, |rows.duties|)
    && Complete(rows)
  }

  // What is projected

  function OwnerOf(owners: seq<Owner>, scope: Text): Owner
    requires scope in Owned(owners)
    decreases |owners|
  {
    var last := owners[|owners| - 1];
    if last.scope == scope then last
    else
      assert scope in Owned(owners[..|owners| - 1]) by {
        var i :| 0 <= i < |owners| && owners[i].scope == scope;
        assert owners[..|owners| - 1][i] == owners[i];
      }
      OwnerOf(owners[..|owners| - 1], scope)
  }

  function Projected(rows: Rows, k: nat): Scope
    requires k < |rows.duties| && rows.duties[k].id in ItemOf(Flatten(rows.assignments))
  {
    var d := rows.duties[k];
    Obligation(d.id, d.goal, d.requirement, ItemOf(Flatten(rows.assignments))[d.id], d.deliverable, d.predicate_)
  }

  function ProjectedOwner(rows: Rows, k: nat): Owner
    requires k < |rows.duties| && OwnerScope(rows, k).Some? && OwnerScope(rows, k).value in Owned(rows.owners)
  {
    var historical := OwnerOf(rows.owners, OwnerScope(rows, k).value);
    Owner(rows.duties[k].id, historical.owner, historical.path)
  }

  lemma DutyFacts(rows: Rows, k: nat)
    requires k < |rows.duties| && DutyOk(rows, k) && OwnsExactly(rows.owners, Ids(rows.scope))
    ensures rows.duties[k].id in ItemOf(Flatten(rows.assignments))
    ensures OwnerScope(rows, k).Some? && OwnerScope(rows, k).value in Owned(rows.owners)
  {
    hide ItemOf, Flatten, Resolved, MatchesRequirement;
    var i :| 0 <= i < |rows.scope| && rows.scope[i].id == OwnerScope(rows, k).value;
    assert rows.scope[i].id in Ids(rows.scope);
  }

  /** The scope rows after the first n obligations. */
  function ScopeItems(rows: Rows, n: nat): seq<Scope>
    requires n <= |rows.duties| && DutiesOk(rows, n) && OwnsExactly(rows.owners, Ids(rows.scope))
  {
    if n == 0 then rows.scope
    else
      DutyFacts(rows, n - 1);
      ScopeItems(rows, n - 1) + [Projected(rows, n - 1)]
  }

  function OwnerRows(rows: Rows, n: nat): seq<Owner>
    requires n <= |rows.duties| && DutiesOk(rows, n) && OwnsExactly(rows.owners, Ids(rows.scope))
  {
    if n == 0 then rows.owners
    else
      DutyFacts(rows, n - 1);
      OwnerRows(rows, n - 1) + [ProjectedOwner(rows, n - 1)]
  }

  // The loops

  /** The codes of the two row-delta guards. */
  const ROW_DELTAS := {"obligation-row-delta", "ownership-row-delta"}

  method ReadScopeItems(raw: seq<Json>) returns (r: Result<seq<Scope>, string>)
    ensures r.Ok? <==> DecodeAll(raw, EstablishedRow).Some? && DistinctScopes(DecodeAll(raw, EstablishedRow).value)
    ensures r.Ok? ==> r.value == DecodeAll(raw, EstablishedRow).value
    ensures r.Err? ==> r.error !in ROW_DELTAS
  {
    hide EstablishedRow;
    var items: seq<Scope> := [];
    var ids: set<Text> := {};
    assert raw[..0] == [];
    for i := 0 to |raw|
      invariant DecodeAll(raw[..i], EstablishedRow) == Some(items)
      invariant DistinctScopes(items) && ids == Ids(items)
    {
      DecodeStep(raw, EstablishedRow, i);
      DecodePrefix(raw, EstablishedRow, i + 1);
      var row := EstablishedRow(raw[i]);
      if row.None? { return Err("established-scope-shape"); }
      if row.value.id in ids {
        RepeatedScope(raw, items, row.value);
        return Err("duplicate-scope-id");
      }
      IdsGrow(items, row.value);
      ids := ids + {row.value.id};
      items := items + [row.value];
    }
    assert raw[..|raw|] == raw;
    return Ok(items);
  }

  lemma IdsGrow(items: seq<Scope>, row: Scope)
    ensures Ids(items + [row]) == Ids(items) + {row.id}
  {
    var more := items + [row];
    assert forall i :: 0 <= i < |items| ==> more[i] == items[i];
    assert more[|items|] == row;
    forall x | x in Ids(items) ensures x in Ids(more) {
      var i :| 0 <= i < |items| && items[i].id == x;
      assert more[i].id == x;
    }
    assert row.id in Ids(more);
  }

  /** A repeated id among the first rows keeps the whole from being distinct. */
  lemma RepeatedScope(raw: seq<Json>, items: seq<Scope>, row: Scope)
    requires row.id in Ids(items)
    requires DecodeAll(raw, EstablishedRow).Some? ==> items + [row] <= DecodeAll(raw, EstablishedRow).value
    ensures !(DecodeAll(raw, EstablishedRow).Some? && DistinctScopes(DecodeAll(raw, EstablishedRow).value))
  {
    hide EstablishedRow, DecodeAll;
    if DecodeAll(raw, EstablishedRow).Some? {
      var all := DecodeAll(raw, EstablishedRow).value;
      var i :| 0 <= i < |items| && items[i].id == row.id;
      assert all[i] == (items + [row])[i] && all[|items|] == (items + [row])[|items|];
    }
  }

  method ReadOwners(raw: seq<Json>, ids: set<Text>) returns (r: Result<seq<Owner>, string>)
    ensures r.Ok? <==> DecodeAll(raw, OwnerRow).Some? && OwnsExactly(DecodeAll(raw, OwnerRow).value, ids)
    ensures r.Ok? ==> r.value == DecodeAll(raw, OwnerRow).value
    ensures r.Err? ==> r.error !in ROW_DELTAS
  {
    hide OwnerRow;
    var owners: seq<Owner> := [];
    assert raw[..0] == [];
    for i := 0 to |raw|
      invariant DecodeAll(raw[..i], OwnerRow) == Some(owners)
      invariant DistinctOwners(owners) && Owned(owners) <= ids
    {
      DecodeStep(raw, OwnerRow, i);
      DecodePrefix(raw, OwnerRow, i + 1);
      var row := OwnerRow(raw[i]);
      if row.None? { return Err("ownership-shape"); }
      if row.value.scope !in ids {
        StrangeOwner(raw, owners, row.value, ids);
        return Err("fabricated-ownership");
      }
      if row.value.scope in Owned(owners) {
        StrangeOwner(raw, owners, row.value, ids);
        return Err("duplicate-ownership");
      }
      OwnedGrow(owners, row.value);
      owners := owners + [row.value];
    }
    assert raw[..|raw|] == raw;
    if Owned(owners) != ids { return Err("missing-ownership"); }
    return Ok(owners);
  }

  lemma OwnedGrow(owners: seq<Owner>, row: Owner)
    ensures Owned(owners + [row]) == Owned(owners) + {row.scope}
  {
    var more := owners + [row];
    assert forall i :: 0 <= i < |owners| ==> more[i] == owners[i];
    assert more[|owners|] == row;
    forall x | x in Owned(owners) ensures x in Owned(more) {
      var i :| 0 <= i < |owners| && owners[i].scope == x;
      assert more[i].scope == x;
    }
    assert row.scope in Owned(more);
  }

  lemma StrangeOwner(raw: seq<Json>, owners: seq<Owner>, row: Owner, ids: set<Text>)
    requires row.scope !in ids || row.scope in Owned(owners)
    requires DecodeAll(raw, OwnerRow).Some? ==> owners + [row] <= DecodeAll(raw, OwnerRow).value
    ensures !(DecodeAll(raw, OwnerRow).Some? && OwnsExactly(DecodeAll(raw, OwnerRow).value, ids))
  {
    hide OwnerRow, DecodeAll;
    if DecodeAll(raw, OwnerRow).Some? {
      var all := DecodeAll(raw, OwnerRow).value;
      assert all[|owners|] == (owners + [row])[|owners|] == row;
      assert row.scope in Owned(all);
      if row.scope in Owned(owners) {
        var i :| 0 <= i < |owners| && owners[i].scope == row.scope;
        assert all[i] == (owners + [row])[i];
      }
    }
  }

  method ReadGoals(raw: seq<Json>, scope: seq<Scope>) returns (r: Result<seq<Goal>, string>)
    ensures r.Ok? <==> DecodeAll(raw, GoalRow).Some? && GoalsOk(DecodeAll(raw, GoalRow).value, scope)
    ensures r.Ok? ==> r.value == DecodeAll(raw, GoalRow).value
    ensures r.Err? ==> r.error !in ROW_DELTAS
  {
    hide GoalRow, HasKind;
    var goals: seq<Goal> := [];
    var ids: set<Text> := {};
    assert raw[..0] == [];
    for i := 0 to |raw|
      invariant DecodeAll(raw[..i], GoalRow) == Some(goals)
      invariant GoalsOk(goals, scope) && ids == GoalIds(goals)
    {
      DecodeStep(raw, GoalRow, i);
      DecodePrefix(raw, GoalRow, i + 1);
      var row := GoalRow(raw[i]);
      if row.None? { return Err("referee-goal-identity"); }
      if row.value.id in ids {
        BadGoal(raw, goals, row.value, scope);
        return Err("referee-goal-identity");
      }
      if row.value.requiresDeliverable && !HasKind(scope, row.value.id, {T("referee_goal"), T("goal")}) {
        BadGoal(raw, goals, row.value, scope);
        return Err("obligation-referee-association");
      }
      GoalIdsGrow(goals, row.value);
      ids := ids + {row.value.id};
      goals := goals + [row.value];
    }
    assert raw[..|raw|] == raw;
    return Ok(goals);
  }

  function GoalIds(goals: seq<Goal>): set<Text> {
    set i | 0 <= i < |goals| :: goals[i].id
  }

  lemma GoalIdsGrow(goals: seq<Goal>, row: Goal)
    ensures GoalIds(goals + [row]) == GoalIds(goals) + {row.id}
  {
    var more := goals + [row];
    assert forall k :: 0 <= k < |goals| ==> more[k] == goals[k];
    assert more[|goals|] == row;
    forall x | x in GoalIds(goals) ensures x in GoalIds(more) {
      var i :| 0 <= i < |goals| && goals[i].id == x;
      assert more[i].id == x;
    }
    assert row.id in GoalIds(more);
  }

  lemma BadGoal(raw: seq<Json>, goals: seq<Goal>, row: Goal, scope: seq<Scope>)
    requires row.id in GoalIds(goals)
      || (row.requiresDeliverable && !HasKind(scope, row.id, {T("referee_goal"), T("goal")}))
    requires DecodeAll(raw, GoalRow).Some? ==> goals + [row] <= DecodeAll(raw, GoalRow).value
    ensures !(DecodeAll(raw, GoalRow).Some? && GoalsOk(DecodeAll(raw, GoalRow).value, scope))
  {
    hide GoalRow, DecodeAll, HasKind;
    if DecodeAll(raw, GoalRow).Some? {
      var all := DecodeAll(raw, GoalRow).value;
      assert all[|goals|] == (goals + [row])[|goals|] == row;
      if k :| 0 <= k < |goals| && goals[k].id == row.id { assert all[k] == (goals + [row])[k]; }
    }
  }

  method ReadRequirements(raw: seq<Json>) returns (r: Result<seq<Requirement>, string>)
    ensures r.Ok? <==> DecodeAll(raw, RequirementRow).Some? && RequirementsOk(DecodeAll(raw, RequirementRow).value)
    ensures r.Ok? ==> r.value == DecodeAll(raw, RequirementRow).value
    ensures r.Err? ==> r.error !in ROW_DELTAS
  {
    hide RequirementRow;
    var requirements: seq<Requirement> := [];
    assert raw[..0] == [];
    for i := 0 to |raw|
      invariant DecodeAll(raw[..i], RequirementRow) == Some(requirements)
      invariant RequirementsOk(requirements)
    {
      DecodeStep(raw, RequirementRow, i);
      DecodePrefix(raw, RequirementRow, i + 1);
      var row := RequirementRow(raw[i]);
      if row.None? { return Err("requirement-identity"); }
      if row.value.id in RequirementIds(requirements) {
        RepeatedRequirement(raw, requirements, row.value);
        return Err("requirement-identity");
      }
      FreshRequirement(requirements, row.value);
      requirements := requirements + [row.value];
    }
    assert raw[..|raw|] == raw;
    return Ok(requirements);
  }

  lemma FreshRequirement(requirements: seq<Requirement>, row: Requirement)
    requires RequirementsOk(requirements) && row.id !in RequirementIds(requirements)
    ensures RequirementsOk(requirements + [row])
  {
    assert forall i :: 0 <= i < |requirements| ==> requirements[i].id in RequirementIds(requirements);
  }

  lemma RepeatedRequirement(raw: seq<Json>, requirements: seq<Requirement>, row: Requirement)
    requires row.id in RequirementIds(requirements)
    requires DecodeAll(raw, RequirementRow).Some? ==> requirements + [row] <= DecodeAll(raw, RequirementRow).value
    ensures !(DecodeAll(raw, RequirementRow).Some? && RequirementsOk(DecodeAll(raw, RequirementRow).value))
  {
    hide RequirementRow, DecodeAll;
    if DecodeAll(raw, RequirementRow).Some? {
      var all := DecodeAll(raw, RequirementRow).value;
      var i :| 0 <= i < |requirements| && requirements[i].id == row.id;
      assert all[i] == (requirements + [row])[i] && all[|requirements|] == (requirements + [row])[|requirements|];
    }
  }

  // Assignments

  lemma FlattenStep(assignments: seq<Assignment>, row: Assignment)
    ensures Flatten(assignments + [row]) == Flatten(assignments) + Each(row.obligations, row.item)
  {
    assert (assignments + [row])[..|assignments|] == assignments;
  }

  lemma ItemOfStep(pairs: seq<Assigned>, p: Assigned)
    ensures ItemOf(pairs + [p]) == ItemOf(pairs)[p.obligation := p.item]
  {
    assert (pairs + [p])[..|pairs|] == pairs;
  }

  lemma {:induction false} ItemOfKeys(pairs: seq<Assigned>, x: Text)
    ensures x in ItemOf(pairs) <==> exists i :: 0 <= i < |pairs| && pairs[i].obligation == x
  {
    if pairs != [] {
      var n := |pairs| - 1;
      ItemOfKeys(pairs[..n], x);
      assert forall i :: 0 <= i < n ==> pairs[..n][i] == pairs[i];
    }
  }

  lemma {:induction false} FlattenPrefix(assignments: seq<Assignment>, i: nat)
    requires i <= |assignments|
    ensures Flatten(assignments[..i]) <= Flatten(assignments)
    decreases |assignments|
  {
    if i == |assignments| {
      assert assignments[..i] == assignments;
    } else {
      var shorter := assignments[..|assignments| - 1];
      FlattenPrefix(shorter, i);
      assert shorter[..i] == assignments[..i];
    }
  }

  /** The inner loop over one assignment's obligations. */
  method AddAssignment(before: seq<Assigned>, row: Assignment) returns (ok: bool, items: map<Text, Text>)
    requires AssignedOnce(before)
    ensures ok <==> AssignedOnce(before + Each(row.obligations, row.item))
    ensures ok ==> items == ItemOf(before + Each(row.obligations, row.item))
  {
    hide ItemOf;
    var each := Each(row.obligations, row.item);
    items := ItemOf(before);
    assert before + each[..0] == before;
    for j := 0 to |each|
      invariant AssignedOnce(before + each[..j]) && items == ItemOf(before + each[..j])
    {
      var so := before + each[..j];
      assert before + each[..j + 1] == so + [each[j]];
      ItemOfKeys(so, each[j].obligation);
      if each[j].obligation in items {
        assert so + [each[j]] <= before + each;
        RepeatedAssignment(so, each[j], before + each);
        return false, map[];
      }
      ItemOfStep(so, each[j]);
      items := items[each[j].obligation := each[j].item];
    }
    assert each[..|each|] == each;
    return true, items;
  }

  lemma RepeatedAssignment(so: seq<Assigned>, p: Assigned, all: seq<Assigned>)
    requires so + [p] <= all && exists i :: 0 <= i < |so| && so[i].obligation == p.obligation
    ensures !AssignedOnce(all)
  {
    var i :| 0 <= i < |so| && so[i].obligation == p.obligation;
    assert all[i] == (so + [p])[i] && all[|so|] == (so + [p])[|so|];
  }

  lemma OnceOfPrefix(pairs: seq<Assigned>, all: seq<Assigned>)
    requires pairs <= all && AssignedOnce(all)
    ensures AssignedOnce(pairs)
  {
  }

  method ReadAssignments(raw: seq<Json>) returns (r: Result<seq<Assignment>, string>, items: map<Text, Text>)
    ensures r.Ok? <==> DecodeAll(raw, AssignmentRow).Some? && AssignedOnce(Flatten(DecodeAll(raw, AssignmentRow).value))
    ensures r.Ok? ==> r.value == DecodeAll(raw, AssignmentRow).value && items == ItemOf(Flatten(r.value))
    ensures r.Err? ==> r.error !in ROW_DELTAS
  {
    hide AssignmentRow, Flatten, ItemOf, AssignedOnce, Each;
    var assignments: seq<Assignment> := [];
    items := map[];
    assert raw[..0] == [];
    NothingAssigned();
    for i := 0 to |raw|
      invariant DecodeAll(raw[..i], AssignmentRow) == Some(assignments)
      invariant AssignedOnce(Flatten(assignments)) && items == ItemOf(Flatten(assignments))
    {
      DecodeStep(raw, AssignmentRow, i);
      DecodePrefix(raw, AssignmentRow, i + 1);
      var row := AssignmentRow(raw[i]);
      if row.None? { return Err("patch-plan-assignment"), map[]; }
      FlattenStep(assignments, row.value);
      var ok;
      ok, items := AddAssignment(Flatten(assignments), row.value);
      assignments := assignments + [row.value];
      if !ok {
        if DecodeAll(raw, AssignmentRow).Some? { PrefixNotOnce(DecodeAll(raw, AssignmentRow).value, i + 1); }
        return Err("inexact-obligation-assignment"), map[];
      }
    }
    assert raw[..|raw|] == raw;
    return Ok(assignments), items;
  }

  lemma NothingAssigned()
    ensures Flatten([]) == [] && ItemOf([]) == map[] && AssignedOnce([])
  {
  }

  lemma PrefixNotOnce(all: seq<Assignment>, i: nat)
    requires i <= |all| && !AssignedOnce(Flatten(all[..i]))
    ensures !AssignedOnce(Flatten(all))
  {
    hide Flatten, AssignedOnce;
    FlattenPrefix(all, i);
    if AssignedOnce(Flatten(all)) { OnceOfPrefix(Flatten(all[..i]), Flatten(all)); }
  }

  // Obligations

  function WithDuties(rows: Rows, duties: seq<Duty>): Rows {
    rows.(duties := duties)
  }

  /** A duty is judged against the rows and the duties before it only. */
  lemma DutyOkStable(rows: Rows, duties: seq<Duty>, more: seq<Duty>, k: nat)
    requires k < |duties|
    ensures DutyOk(WithDuties(rows, duties), k) <==> DutyOk(WithDuties(rows, duties + more), k)
    ensures OwnerScope(WithDuties(rows, duties), k) == OwnerScope(WithDuties(rows, duties + more), k)
  {
    hide ItemOf, Flatten, Resolved, HasKind, MatchesRequirement, RefereeGoals;
    assert (duties + more)[..k] == duties[..k];
    assert forall j :: 0 <= j <= k ==> (duties + more)[j] == duties[j];
  }

  lemma DutiesOkStable(rows: Rows, duties: seq<Duty>, more: seq<Duty>, n: nat)
    requires n <= |duties|
    ensures DutiesOk(WithDuties(rows, duties), n) <==> DutiesOk(WithDuties(rows, duties + more), n)
  {
    hide DutyOk;
    forall k | 0 <= k < n ensures DutyOk(WithDuties(rows, duties), k) <==> DutyOk(WithDuties(rows, duties + more), k) {
      DutyOkStable(rows, duties, more, k);
    }
  }

  lemma {:induction false} ProjectionStable(rows: Rows, duties: seq<Duty>, more: seq<Duty>, n: nat)
    requires n <= |duties| && DutiesOk(WithDuties(rows, duties), n) && DutiesOk(WithDuties(rows, duties + more), n)
    requires OwnsExactly(rows.owners, Ids(rows.scope))
    ensures ScopeItems(WithDuties(rows, duties), n) == ScopeItems(WithDuties(rows, duties + more), n)
    ensures OwnerRows(WithDuties(rows, duties), n) == OwnerRows(WithDuties(rows, duties + more), n)
  {
    hide DutyOk, ItemOf, Flatten, OwnerScope, OwnerOf;
    if n > 0 {
      ProjectionStable(rows, duties, more, n - 1);
      DutyOkStable(rows, duties, more, n - 1);
      DutyFacts(WithDuties(rows, duties), n - 1);
      DutyFacts(WithDuties(rows, duties + more), n - 1);
      assert (duties + more)[n - 1] == duties[n - 1];
    }
  }

  function FindRequirement(requirements: seq<Requirement>, id: Text): Option<Requirement> {
    if requirements == [] then None
    else if requirements[0].id == id then Some(requirements[0])
    else FindRequirement(requirements[1..], id)
  }

  lemma {:induction false} FindRequirementMatches(requirements: seq<Requirement>, d: Duty)
    requires RequirementsOk(requirements)
    ensures (exists i :: 0 <= i < |requirements| && MatchesRequirement(requirements[i], d))
      <==> FindRequirement(requirements, d.requirement).Some?
           && MatchesRequirement(FindRequirement(requirements, d.requirement).value, d)
  {
    if requirements != [] {
      var rest := requirements[1..];
      FindRequirementMatches(rest, d);
      assert forall i :: 0 <= i < |rest| ==> rest[i] == requirements[i + 1];
    }
  }

  function DutyGoals(duties: seq<Duty>): set<Text> {
    set i | 0 <= i < |duties| :: duties[i].goal
  }

  function DutyRequirements(duties: seq<Duty>): set<Text> {
    set i | 0 <= i < |duties| :: duties[i].requirement
  }

  lemma DutySetsGrow(duties: seq<Duty>, d: Duty)
    ensures DutyIds(duties + [d]) == DutyIds(duties) + {d.id}
    ensures DutyGoals(duties + [d]) == DutyGoals(duties) + {d.goal}
    ensures DutyRequirements(duties + [d]) == DutyRequirements(duties) + {d.requirement}
  {
    var more := duties + [d];
    assert more[|duties|] == d && forall i :: 0 <= i < |duties| ==> more[i] == duties[i];
    forall x | x in DutyIds(duties) ensures x in DutyIds(more) {
      var i :| 0 <= i < |duties| && duties[i].id == x;
      assert more[i].id == x;
    }
    forall x | x in DutyGoals(duties) ensures x in DutyGoals(more) {
      var i :| 0 <= i < |duties| && duties[i].goal == x;
      assert more[i].goal == x;
    }
    forall x | x in DutyRequirements(duties) ensures x in DutyRequirements(more) {
      var i :| 0 <= i < |duties| && duties[i].requirement == x;
      assert more[i].requirement == x;
    }
  }

  lemma NotSeen(duties: seq<Duty>, d: Duty)
    ensures (forall j :: 0 <= j < |duties| ==> duties[j].goal != d.goal && duties[j].requirement != d.requirement && duties[j].id != d.id)
      <==> d.goal !in DutyGoals(duties) && d.requirement !in DutyRequirements(duties) && d.id !in DutyIds(duties)
  {
    forall j | 0 <= j < |duties|
      ensures duties[j].goal in DutyGoals(duties) && duties[j].requirement in DutyRequirements(duties)
           && duties[j].id in DutyIds(duties)
    {
    }
  }

  /** DutyOk of the newest duty, in terms of what the loop keeps. */
  lemma NewDutyOk(rows: Rows, duties: seq<Duty>, d: Duty)
    requires RequirementsOk(rows.requirements)
    ensures var found := FindRequirement(rows.requirements, d.requirement);
            var items := ItemOf(Flatten(rows.assignments));
            var known := Ids(rows.scope) + DutyIds(duties);
            DutyOk(WithDuties(rows, duties + [d]), |duties|) <==>
              && d.goal in RefereeGoals(rows.goals)
              && found.Some? && MatchesRequirement(found.value, d)
              && d.goal !in DutyGoals(duties) && d.requirement !in DutyRequirements(duties)
              && d.id in items && d.id !in known
              && Resolved(items[d.id], known).Some?
              && HasKind(rows.scope, Resolved(items[d.id], known).value, {PATCH_PLAN})
    ensures d.id in ItemOf(Flatten(rows.assignments)) ==>
      OwnerScope(WithDuties(rows, duties + [d]), |duties|)
      == Resolved(ItemOf(Flatten(rows.assignments))[d.id], Ids(rows.scope) + DutyIds(duties))
  {
    hide ItemOf, Flatten, Resolved, HasKind, MatchesRequirement, RefereeGoals, FindRequirement, RequirementsOk;
    var after := WithDuties(rows, duties + [d]);
    assert after.duties[|duties|] == d && after.duties[..|duties|] == duties;
    assert forall j :: 0 <= j < |duties| ==> after.duties[j] == duties[j];
    FindRequirementMatches(rows.requirements, d);
    NotSeen(duties, d);
  }

  /** A duty that fails keeps the whole list from being accepted. */
  lemma BadDuty(rows: Rows, raw: seq<Json>, duties: seq<Duty>, d: Duty)
    requires DecodeAll(raw, DutyRow).Some? ==> duties + [d] <= DecodeAll(raw, DutyRow).value
    requires !DutyOk(WithDuties(rows, duties + [d]), |duties|)
    ensures DecodeAll(raw, DutyRow).Some? ==>
      !DutiesOk(WithDuties(rows, DecodeAll(raw, DutyRow).value), |DecodeAll(raw, DutyRow).value|)
  {
    hide DutyOk, DecodeAll, DutyRow;
    if DecodeAll(raw, DutyRow).Some? {
      var all := DecodeAll(raw, DutyRow).value;
      var rest := all[|duties| + 1..];
      assert duties + [d] + rest == all;
      DutyOkStable(rows, duties + [d], rest, |duties|);
    }
  }

  lemma {:induction false} OwnerRowsOwn(rows: Rows, n: nat)
    requires n <= |rows.duties| && DutiesOk(rows, n) && OwnsExactly(rows.owners, Ids(rows.scope))
    ensures Owned(OwnerRows(rows, n)) == Ids(rows.scope) + DutyIds(rows.duties[..n])
    ensures Ids(ScopeItems(rows, n)) == Ids(rows.scope) + DutyIds(rows.duties[..n])
    ensures |OwnerRows(rows, n)| == |rows.owners| + n && |ScopeItems(rows, n)| == |rows.scope| + n
  {
    hide DutyOk, ItemOf, Flatten, OwnerScope, OwnerOf;
    if n == 0 {
      assert DutyIds(rows.duties[..0]) == {};
    } else {
      hide DutyIds, Ids, Owned;
      OwnerRowsOwn(rows, n - 1);
      DutyFacts(rows, n - 1);
      OwnedGrow(OwnerRows(rows, n - 1), ProjectedOwner(rows, n - 1));
      IdsGrow(ScopeItems(rows, n - 1), Projected(rows, n - 1));
      assert rows.duties[..n] == rows.duties[..n - 1] + [rows.duties[n - 1]];
      DutySetsGrow(rows.duties[..n - 1], rows.duties[n - 1]);
    }
  }

  /** A historical row keeps its owner while obligations are added. */
  lemma {:induction false} OwnerOfHistorical(rows: Rows, n: nat, scope: Text)
    requires n <= |rows.duties| && DutiesOk(rows, n) && OwnsExactly(rows.owners, Ids(rows.scope))
    requires scope in Ids(rows.scope)
    ensures scope in Owned(OwnerRows(rows, n)) && OwnerOf(OwnerRows(rows, n), scope) == OwnerOf(rows.owners, scope)
  {
    hide ItemOf, Flatten, OwnerScope, HasKind, MatchesRequirement, RefereeGoals;
    OwnerRowsOwn(rows, n);
    if n > 0 {
      OwnerOfHistorical(rows, n - 1, scope);
      DutyFacts(rows, n - 1);
      assert DutyOk(rows, n - 1);
      var before := OwnerRows(rows, n - 1);
      assert OwnerRows(rows, n)[..|before|] == before;
    }
  }

  /** What the loop holds after the first duties. */
  ghost predicate Holds(rows: Rows, duties: seq<Duty>, scopeItems: seq<Scope>, owners: seq<Owner>, ids: set<Text>)
    requires OwnsExactly(rows.owners, Ids(rows.scope))
  {
    && DutiesOk(WithDuties(rows, duties), |duties|)
    && scopeItems == ScopeItems(WithDuties(rows, duties), |duties|)
    && owners == OwnerRows(WithDuties(rows, duties), |duties|)
    && ids == Ids(rows.scope) + DutyIds(duties)
  }

  lemma HoldsOneMore(rows: Rows, duties: seq<Duty>, d: Duty, scopeItems: seq<Scope>, owners: seq<Owner>, ids: set<Text>)
    requires OwnsExactly(rows.owners, Ids(rows.scope)) && Holds(rows, duties, scopeItems, owners, ids)
    requires DutyOk(WithDuties(rows, duties + [d]), |duties|)
    ensures var after := WithDuties(rows, duties + [d]);
            var n := |duties|;
            && d.id in ItemOf(Flatten(rows.assignments))
            && OwnerScope(after, n).Some? && OwnerScope(after, n).value in Owned(owners)
            && Holds(rows, duties + [d], scopeItems + [Projected(after, n)],
                     owners + [Owner(d.id, OwnerOf(owners, OwnerScope(after, n).value).owner,
                                     OwnerOf(owners, OwnerScope(after, n).value).path)],
                     ids + {d.id})
  {
    hide DutyOk, ItemOf, Flatten, OwnerScope, OwnerOf;
    var after := WithDuties(rows, duties + [d]);
    var n := |duties|;
    DutiesOkStable(rows, duties, [d], n);
    assert DutiesOk(after, n + 1);
    ProjectionStable(rows, duties, [d], n);
    DutyFacts(after, n);
    DutySetsGrow(duties, d);
    OwnerOfHistorical(after, n, OwnerScope(after, n).value);
  }

  /** The obligation loop, the completeness checks and the two row-delta guards. */
  method ProjectDuties(rows: Rows, items: map<Text, Text>, raw: seq<Json>)
    returns (r: Result<(seq<Scope>, seq<Owner>), string>)
    requires OwnsExactly(rows.owners, Ids(rows.scope)) && RequirementsOk(rows.requirements)
    requires items == ItemOf(Flatten(rows.assignments))
    ensures r.Ok? <==>
      && DecodeAll(raw, DutyRow).Some?
      && var all := WithDuties(rows, DecodeAll(raw, DutyRow).value);
      DutiesOk(all, |all.duties|) && Complete(all)
    ensures r.Ok? ==>
      var all := WithDuties(rows, DecodeAll(raw, DutyRow).value);
      r.value == (ScopeItems(all, |all.duties|), OwnerRows(all, |all.duties|))
    ensures r.Err? ==> r.error !in ROW_DELTAS
  {
    hide DutyRow, DutyOk, ItemOf, Flatten, OwnerScope, OwnerOf, RequirementsOk, Resolved, Candidates, FindRequirement,
      HasKind, MatchesRequirement, DecodeAll, ScopeItems, OwnerRows, OwnsExactly, DutiesOk, RefereeGoals, RequirementIds;
    var scopeItems, owners, ids, remaining := rows.scope, rows.owners, Ids(rows.scope), items;
    var goalsSeen: set<Text>, requirementsSeen: set<Text> := {}, {};
    ghost var duties: seq<Duty> := [];
    assert raw[..0] == [];
    NothingProjected(rows);
    for k := 0 to |raw|
      invariant DecodeAll(raw[..k], DutyRow) == Some(duties) && |duties| == k
      invariant Holds(rows, duties, scopeItems, owners, ids)
      invariant goalsSeen == DutyGoals(duties) && requirementsSeen == DutyRequirements(duties)
      invariant remaining == items - DutyIds(duties)
    {
      DecodeStep(raw, DutyRow, k);
      DecodePrefix(raw, DutyRow, k + 1);
      var row := DutyRow(raw[k]);
      if row.None? { return Err("obligation-shape"); }
      var d := row.value;
      NewDutyOk(rows, duties, d);
      var requirement := FindRequirement(rows.requirements, d.requirement);
      if d.goal !in RefereeGoals(rows.goals) || requirement.None? || d.goal in goalsSeen || d.requirement in requirementsSeen
         || !MatchesRequirement(requirement.value, d) {
        BadDuty(rows, raw, duties, d);
        return Err("obligation-referee-association");
      }
      if d.id !in remaining {
        BadDuty(rows, raw, duties, d);
        return Err("missing-obligation-assignment");
      }
      var item := remaining[d.id];
      if d.id in ids {
        BadDuty(rows, raw, duties, d);
        return Err("duplicate-scope-id");
      }
      var ownerScope := HistoricalScopeId(item, ids);
      if ownerScope.Err? || ownerScope.value.None? || !HasKind(rows.scope, ownerScope.value.value, {PATCH_PLAN}) {
        if ownerScope.Err? { NothingResolved(item, ids); }
        BadDuty(rows, raw, duties, d);
        return Err(if ownerScope.Err? then ownerScope.error else "patch-plan-owner");
      }
      HoldsOneMore(rows, duties, d, scopeItems, owners, ids);
      DutySetsGrow(duties, d);
      var owner := OwnerOf(owners, ownerScope.value.value);
      goalsSeen, requirementsSeen := goalsSeen + {d.goal}, requirementsSeen + {d.requirement};
      remaining := remaining - {d.id};
      scopeItems := scopeItems + [Obligation(d.id, d.goal, d.requirement, item, d.deliverable, d.predicate_)];
      owners := owners + [Owner(d.id, owner.owner, owner.path)];
      ids := ids + {d.id};
      duties := duties + [d];
    }
    assert raw[..|raw|] == raw;
    ghost var all := WithDuties(rows, duties);
    AllAssigned(rows, duties, items, remaining);
    if remaining != map[] { return Err("fabricated-obligation-assignment"); }
    if goalsSeen != RefereeGoals(rows.goals) || requirementsSeen != RequirementIds(rows.requirements) {
      return Err("obligation-referee-association");
    }
    OwnerRowsOwn(all, |duties|);
    if |scopeItems| != |rows.scope| + |raw| { return Err("obligation-row-delta"); }
    if |owners| != |rows.owners| + |raw| { return Err("ownership-row-delta"); }
    return Ok((scopeItems, owners));
  }

  lemma NothingResolved(item: Text, known: set<Text>)
    requires Candidates(item).None?
    ensures Resolved(item, known) == None
  {
  }

  lemma NothingProjected(rows: Rows)
    requires OwnsExactly(rows.owners, Ids(rows.scope))
    ensures Holds(rows, [], rows.scope, rows.owners, Ids(rows.scope))
    ensures DutyGoals([]) == {} && DutyRequirements([]) == {} && DutyIds([]) == {}
    ensures DecodeAll([], DutyRow) == Some([])
  {
    assert DutyIds([]) == {} && DutyGoals([]) == {} && DutyRequirements([]) == {};
  }

  /** Every assignment is taken exactly when the assigned ids are the duties' ids. */
  lemma AllAssigned(rows: Rows, duties: seq<Duty>, items: map<Text, Text>, remaining: map<Text, Text>)
    requires items == ItemOf(Flatten(rows.assignments)) && remaining == items - DutyIds(duties)
    requires OwnsExactly(rows.owners, Ids(rows.scope)) && DutiesOk(WithDuties(rows, duties), |duties|)
    ensures remaining == map[] <==> DutyIds(duties) == items.Keys
    ensures Complete(WithDuties(rows, duties)) <==>
      DutyGoals(duties) == RefereeGoals(rows.goals) && DutyRequirements(duties) == RequirementIds(rows.requirements)
      && DutyIds(duties) == items.Keys
  {
    hide DutyOk, ItemOf, Flatten, RefereeGoals, RequirementIds;
    forall x | x in DutyIds(duties) ensures x in items {
      var k :| 0 <= k < |duties| && duties[k].id == x;
      assert DutyOk(WithDuties(rows, duties), k);
      DutyFacts(WithDuties(rows, duties), k);
    }
    assert remaining == map[] <==> forall x :: x in items ==> x in DutyIds(duties) by {
      assert forall x :: x in remaining <==> x in items && x !in DutyIds(duties);
      if forall x :: x in items ==> x in DutyIds(duties) { assert remaining.Keys == {}; }
    }
  }

  // The ledger's own fields

  datatype Input = Input(frozenOid: Text, rootDigest: Text, root: Json, ledger: Json)

  predicate IsHexOf(t: Text, n: nat) {
    |t| == n && forall i :: 0 <= i < |t| ==> 0x30 <= t[i] <= 0x39 || 0x61 <= t[i] <= 0x66
  }

  datatype Consumption = NotConsumed | Consumed(round: nat, branch: Text, commit: Text)

  const CONSUMPTION_FIELDS: set<Text> := {T("review_round"), T("child_branch"), T("git_result_commit")}
  const REVIEW_RECORD_PATH := T("review_record_path")

  /** `f"{n:04d}"`. */
  function FourDigits(n: nat): Text {
    var t := NatText(n);
    (if |t| >= 4 then [] else seq(4 - |t|, _ => 0x30)) + t
  }

  function RecordPath(round: nat): Text {
    T("patch-series-review-rounds/round-") + FourDigits(round) + T("-direction-review-record.cue")
  }

  /** `_closed_escalation_consumption`: the review-record path is checked and then dropped. */
  function ClosedEscalation(v: Option<Json>): Option<Consumption> {
    if v.None? || !v.value.Obj? then None
    else if v.value.members == [] then Some(NotConsumed)
    else
      var fields := Names(v.value);
      if fields != CONSUMPTION_FIELDS && fields != CONSUMPTION_FIELDS + {REVIEW_RECORD_PATH} then None
      else
        match (Field(v.value, T("review_round")), TextAt(v.value, T("child_branch")), TextAt(v.value, T("git_result_commit")))
        case (Some(Int(round)), Some(branch), Some(commit)) =>
          var path := Field(v.value, REVIEW_RECORD_PATH);
          if round < 1 || !IsHexOf(commit, 40) then None
          else if path.Some? && path.value != Null && path.value != Str(RecordPath(round)) then None
          else Some(Consumed(round, branch, commit))
        case _ => None
  }

  function Revision(ledger: Json): Option<nat> {
    match Field(ledger, T("ledger_revision"))
    case Some(Int(i)) => if i < 1 then None else Some(i)
    case _ => None
  }

  /** The superseded commit, which revision one does not have and every later one does. */
  function Lineage(ledger: Json, revision: nat): Option<Text> {
    match Field(ledger, T("supersedes_ledger_commit"))
    case Some(Str(t)) =>
      if (t != [] && !IsHexOf(t, 40)) || (revision == 1 && t != []) || (revision > 1 && t == []) then None else Some(t)
    case _ => None
  }

  predicate DistinctTexts(ts: seq<Text>) {
    forall i, j :: 0 <= i < j < |ts| ==> ts[i] != ts[j]
  }

  predicate RetainedOk(ts: seq<Text>, ids: set<Text>) {
    DistinctTexts(ts) && forall i :: 0 <= i < |ts| ==> ts[i] in ids
  }

  function AnyText(v: Json): Option<Text> {
    if v.Str? then Some(v.s) else None
  }

  method ReadRetained(raw: seq<Json>, ids: set<Text>) returns (r: Result<seq<Text>, string>)
    ensures r.Ok? <==> DecodeAll(raw, AnyText).Some? && RetainedOk(DecodeAll(raw, AnyText).value, ids)
    ensures r.Ok? ==> r.value == DecodeAll(raw, AnyText).value
    ensures r.Err? ==> r.error !in ROW_DELTAS
  {
    var retained: seq<Text> := [];
    assert raw[..0] == [];
    for i := 0 to |raw|
      invariant DecodeAll(raw[..i], AnyText) == Some(retained) && RetainedOk(retained, ids)
    {
      DecodeStep(raw, AnyText, i);
      DecodePrefix(raw, AnyText, i + 1);
      var item := AnyText(raw[i]);
      if item.None? { return Err("parent-retained-scope"); }
      if item.value !in ids {
        BadRetained(raw, retained, item.value, ids);
        return Err("parent-retained-scope");
      }
      if item.value in retained {
        BadRetained(raw, retained, item.value, ids);
        return Err("duplicate-parent-retained-scope");
      }
      retained := retained + [item.value];
    }
    assert raw[..|raw|] == raw;
    return Ok(retained);
  }

  lemma BadRetained(raw: seq<Json>, retained: seq<Text>, item: Text, ids: set<Text>)
    requires item !in ids || item in retained
    requires DecodeAll(raw, AnyText).Some? ==> retained + [item] <= DecodeAll(raw, AnyText).value
    ensures !(DecodeAll(raw, AnyText).Some? && RetainedOk(DecodeAll(raw, AnyText).value, ids))
  {
    hide DecodeAll;
    if DecodeAll(raw, AnyText).Some? {
      var all := DecodeAll(raw, AnyText).value;
      assert all[|retained|] == (retained + [item])[|retained|] == item;
      if item in retained {
        var i :| 0 <= i < |retained| && retained[i] == item;
        assert all[i] == (retained + [item])[i];
      }
    }
  }

  // The whole procedure

  function DecodeList<R>(v: Json, name: Text, decode: Json -> Option<R>): Option<seq<R>> {
    match ListAt(v, name)
    case None => None
    case Some(raw) => DecodeAll(raw, decode)
  }

  /** Every row of the ledger and the root, when all of them have their shape. */
  function RowsOf(input: Input): Option<Rows> {
    var problem := Field(input.root, T("problem"));
    var scope := DecodeList(input.ledger, T("scope_items"), EstablishedRow);
    var owners := DecodeList(input.ledger, T("coverage"), OwnerRow);
    if problem.None? || !problem.value.Obj? || scope.None? || owners.None? then None
    else
      var goals := DecodeList(problem.value, T("goals"), GoalRow);
      var requirements := DecodeList(problem.value, T("deliverable_requirements"), RequirementRow);
      var assignments := DecodeList(problem.value, T("patch_plan"), AssignmentRow);
      var duties := DecodeList(problem.value, T("production_obligations"), DutyRow);
      if goals.None? || requirements.None? || assignments.None? || duties.None? then None
      else Some(Rows(scope.value, owners.value, goals.value, requirements.value, assignments.value, duties.value))
  }

  datatype Body = Body(
    frozenOid: Text, rootDigest: Text, revision: nat, supersedes: Text, escalation: Consumption,
    scopeItems: seq<Scope>, ownership: seq<Owner>, retained: seq<Text>
  )

  const LEDGER_SCHEMA := T("series-coverage-ledger-v1")

  predicate HeaderOk(input: Input) {
    IsHexOf(input.frozenOid, 40) && IsHexOf(input.rootDigest, 64)
    && Field(input.ledger, T("schema")) == Some(Str(LEDGER_SCHEMA))
  }

  predicate RowsOk(input: Input) {
    RowsOf(input).Some? && Consistent(RowsOf(input).value)
  }

  predicate TailOk(input: Input)
    requires RowsOk(input)
  {
    var rows := RowsOf(input).value;
    && Revision(input.ledger).Some?
    && Lineage(input.ledger, Revision(input.ledger).value).Some?
    && ClosedEscalation(Field(input.ledger, T("rebaselined_from_escalation"))).Some?
    && var retained := DecodeList(input.ledger, T("parent_retained_scope_ids"), AnyText);
    retained.Some? && RetainedOk(retained.value, Ids(ScopeItems(rows, |rows.duties|)))
  }

  predicate Accepts(input: Input) {
    HeaderOk(input) && RowsOk(input) && TailOk(input)
  }

  function BodyOf(input: Input): Body
    requires Accepts(input)
  {
    var rows := RowsOf(input).value;
    var n := |rows.duties|;
    var revision := Revision(input.ledger).value;
    Body(input.frozenOid, input.rootDigest, revision, Lineage(input.ledger, revision).value,
         ClosedEscalation(Field(input.ledger, T("rebaselined_from_escalation"))).value,
         ScopeItems(rows, n), OwnerRows(rows, n),
         DecodeList(input.ledger, T("parent_retained_scope_ids"), AnyText).value)
  }

  method Project(input: Input) returns (r: Result<(seq<Scope>, seq<Owner>), string>)
    ensures r.Ok? <==> RowsOk(input)
    ensures r.Ok? ==> var rows := RowsOf(input).value;
                      r.value == (ScopeItems(rows, |rows.duties|), OwnerRows(rows, |rows.duties|))
    ensures r.Err? ==> r.error !in ROW_DELTAS
  {
    hide EstablishedRow, OwnerRow, GoalRow, RequirementRow, AssignmentRow, DutyRow, DutyOk, ItemOf, Flatten, DecodeAll,
      ScopeItems, OwnerRows, OwnsExactly, DutiesOk, GoalsOk, RequirementsOk, AssignedOnce, DistinctScopes, Complete, Ids, T;
    var rawScope, rawCoverage := ListAt(input.ledger, T("scope_items")), ListAt(input.ledger, T("coverage"));
    if rawScope.None? || rawCoverage.None? { return Err("historical-ledger-shape"); }
    var scope := ReadScopeItems(rawScope.value);
    if scope.Err? { return Err(scope.error); }
    var owners := ReadOwners(rawCoverage.value, Ids(scope.value));
    if owners.Err? { return Err(owners.error); }
    var problem := Field(input.root, T("problem"));
    if problem.None? || !problem.value.Obj? { return Err("root-problem"); }
    var rawGoals := ListAt(problem.value, T("goals"));
    var rawRequirements := ListAt(problem.value, T("deliverable_requirements"));
    var rawDuties := ListAt(problem.value, T("production_obligations"));
    var rawAssignments := ListAt(problem.value, T("patch_plan"));
    if rawGoals.None? || rawRequirements.None? || rawDuties.None? || rawAssignments.None? { return Err("root-producer-scope"); }
    var goals := ReadGoals(rawGoals.value, scope.value);
    if goals.Err? { return Err(goals.error); }
    var requirements := ReadRequirements(rawRequirements.value);
    if requirements.Err? { return Err(requirements.error); }
    var assignments, items := ReadAssignments(rawAssignments.value);
    if assignments.Err? { return Err(assignments.error); }
    var rows := Rows(scope.value, owners.value, goals.value, requirements.value, assignments.value, []);
    r := ProjectDuties(rows, items, rawDuties.value);
  }

  /** `_series_scope_decomposition_body`: it accepts exactly the consistent inputs, projects their rows
      and never reports a row delta. */
  method Decompose(input: Input) returns (r: Result<Body, string>)
    ensures r.Ok? <==> Accepts(input)
    ensures r.Ok? ==> r.value == BodyOf(input)
    ensures r.Err? ==> r.error !in ROW_DELTAS
  {
    hide RowsOf, Consistent, ScopeItems, OwnerRows, DecodeAll, RetainedOk, ClosedEscalation, Lineage, Revision, T;
    if !IsHexOf(input.frozenOid, 40) { return Err("frozen-root-identity"); }
    if !IsHexOf(input.rootDigest, 64) { return Err("canonical-root-digest"); }
    if Field(input.ledger, T("schema")) != Some(Str(LEDGER_SCHEMA)) { return Err("historical-ledger-schema"); }
    var projected := Project(input);
    if projected.Err? { return Err(projected.error); }
    var (scopeItems, ownership) := projected.value;
    var revision := Revision(input.ledger);
    if revision.None? { return Err("ledger-revision"); }
    var supersedes := Lineage(input.ledger, revision.value);
    if supersedes.None? { return Err("ledger-lineage"); }
    var escalation := ClosedEscalation(Field(input.ledger, T("rebaselined_from_escalation")));
    if escalation.None? { return Err("escalation-consumption"); }
    var rawRetained := ListAt(input.ledger, T("parent_retained_scope_ids"));
    if rawRetained.None? { return Err("parent-retained-scope"); }
    var retained := ReadRetained(rawRetained.value, Ids(scopeItems));
    if retained.Err? { return Err(retained.error); }
    return Ok(Body(input.frozenOid, input.rootDigest, revision.value, supersedes.value, escalation.value,
                   scopeItems, ownership, retained.value));
  }

  // What acceptance means

  lemma {:induction false} ScopeItemAt(rows: Rows, n: nat, k: nat)
    requires k < n <= |rows.duties| && DutiesOk(rows, n) && OwnsExactly(rows.owners, Ids(rows.scope))
    ensures rows.duties[k].id in ItemOf(Flatten(rows.assignments))
    ensures OwnerScope(rows, k).Some? && OwnerScope(rows, k).value in Owned(rows.owners)
    ensures |ScopeItems(rows, n)| == |rows.scope| + n && ScopeItems(rows, n)[|rows.scope| + k] == Projected(rows, k)
    ensures |OwnerRows(rows, n)| == |rows.owners| + n && OwnerRows(rows, n)[|rows.owners| + k] == ProjectedOwner(rows, k)
  {
    hide DutyOk, ItemOf, Flatten, OwnerScope, OwnerOf;
    OwnerRowsOwn(rows, n);
    OwnerRowsOwn(rows, n - 1);
    DutyFacts(rows, k);
    if k < n - 1 { ScopeItemAt(rows, n - 1, k); }
  }

  lemma {:induction false} HistoryIsKept(rows: Rows, n: nat)
    requires n <= |rows.duties| && DutiesOk(rows, n) && OwnsExactly(rows.owners, Ids(rows.scope))
    ensures rows.scope <= ScopeItems(rows, n) && rows.owners <= OwnerRows(rows, n)
  {
    hide DutyOk, ItemOf, Flatten, OwnerScope, OwnerOf;
    if n > 0 { HistoryIsKept(rows, n - 1); }
  }

  lemma {:induction false} ProjectionIsDistinct(rows: Rows, n: nat)
    requires n <= |rows.duties| && DutiesOk(rows, n) && OwnsExactly(rows.owners, Ids(rows.scope)) && DistinctScopes(rows.scope)
    ensures DistinctScopes(ScopeItems(rows, n)) && DistinctOwners(OwnerRows(rows, n))
  {
    hide ItemOf, Flatten, OwnerScope, OwnerOf, HasKind, MatchesRequirement, RefereeGoals;
    if n > 0 {
      ProjectionIsDistinct(rows, n - 1);
      OwnerRowsOwn(rows, n - 1);
      DutyFacts(rows, n - 1);
      assert DutyOk(rows, n - 1);
      FreshId(rows, n - 1);
      FreshScope(ScopeItems(rows, n - 1), Projected(rows, n - 1));
      FreshOwner(OwnerRows(rows, n - 1), ProjectedOwner(rows, n - 1));
    }
  }

  lemma FreshId(rows: Rows, k: nat)
    requires k < |rows.duties| && DutyOk(rows, k)
    ensures rows.duties[k].id !in Ids(rows.scope) + DutyIds(rows.duties[..k])
  {
    hide ItemOf, Flatten, OwnerScope, HasKind, MatchesRequirement, RefereeGoals;
    NotSeen(rows.duties[..k], rows.duties[k]);
  }

  lemma FreshScope(items: seq<Scope>, row: Scope)
    requires DistinctScopes(items) && row.id !in Ids(items)
    ensures DistinctScopes(items + [row])
  {
    assert forall i :: 0 <= i < |items| ==> items[i].id in Ids(items);
  }

  lemma FreshOwner(owners: seq<Owner>, row: Owner)
    requires DistinctOwners(owners) && row.scope !in Owned(owners)
    ensures DistinctOwners(owners + [row])
  {
    assert forall i :: 0 <= i < |owners| ==> owners[i].scope in Owned(owners);
  }

  /** Every accepted decomposition is an exact partition: scope ids are distinct, every row has exactly
      one owner and no other is owned, and the historical rows and owners stand first, unchanged. */
  lemma AcceptanceIsPartition(input: Input)
    requires Accepts(input)
    ensures var body := BodyOf(input);
            var rows := RowsOf(input).value;
            && DistinctScopes(body.scopeItems)
            && OwnsExactly(body.ownership, Ids(body.scopeItems))
            && rows.scope <= body.scopeItems && rows.owners <= body.ownership
            && |body.scopeItems| == |rows.scope| + |rows.duties|
            && |body.ownership| == |body.scopeItems|
  {
    hide RowsOf, DutyOk, Complete, GoalsOk, RequirementsOk, AssignedOnce, T;
    var rows := RowsOf(input).value;
    var n := |rows.duties|;
    HistoryIsKept(rows, n);
    ProjectionIsDistinct(rows, n);
    OwnerRowsOwn(rows, n);
    CountOwners(rows.owners, rows.scope);
  }

  lemma {:induction false} OwnedCount(owners: seq<Owner>)
    requires DistinctOwners(owners)
    ensures |Owned(owners)| == |owners|
  {
    if owners != [] {
      var n := |owners| - 1;
      OwnedCount(owners[..n]);
      OwnedGrow(owners[..n], owners[n]);
      assert owners == owners[..n] + [owners[n]];
    }
  }

  lemma {:induction false} IdsCount(scope: seq<Scope>)
    requires DistinctScopes(scope)
    ensures |Ids(scope)| == |scope|
  {
    if scope != [] {
      var n := |scope| - 1;
      IdsCount(scope[..n]);
      IdsGrow(scope[..n], scope[n]);
      assert scope == scope[..n] + [scope[n]];
    }
  }

  lemma CountOwners(owners: seq<Owner>, scope: seq<Scope>)
    requires DistinctScopes(scope) && OwnsExactly(owners, Ids(scope))
    ensures |owners| == |scope|
  {
    OwnedCount(owners);
    IdsCount(scope);
  }

  /** Obligation k is projected with the patch item it is assigned to, and inherits the owner of that
      item's historical patch-plan row. */
  lemma ObligationInheritsOwner(input: Input, k: nat) returns (historical: Scope, owner: Owner)
    requires Accepts(input) && k < |RowsOf(input).value.duties|
    ensures var body := BodyOf(input);
            var rows := RowsOf(input).value;
            var d := rows.duties[k];
            && historical in rows.scope && historical.Established? && historical.kind == PATCH_PLAN
            && owner in rows.owners && owner.scope == historical.id
            && |body.scopeItems| == |rows.scope| + |rows.duties| && |body.ownership| == |rows.owners| + |rows.duties|
            && body.ownership[|rows.owners| + k] == Owner(d.id, owner.owner, owner.path)
            && d.id in ItemOf(Flatten(rows.assignments))
            && var item := ItemOf(Flatten(rows.assignments))[d.id];
            && Candidates(item).Some? && historical.id in Candidates(item).value
            && body.scopeItems[|rows.scope| + k] == Obligation(d.id, d.goal, d.requirement, item, d.deliverable, d.predicate_)
  {
    hide RowsOf, Complete, GoalsOk, RequirementsOk, AssignedOnce, T, MatchesRequirement, RefereeGoals, Candidates, ItemOf, Flatten;
    var rows := RowsOf(input).value;
    var n := |rows.duties|;
    ScopeItemAt(rows, n, k);
    assert DutyOk(rows, k);
    var id := OwnerScope(rows, k).value;
    var i :| 0 <= i < |rows.scope| && rows.scope[i].Established? && rows.scope[i].id == id && rows.scope[i].kind in {PATCH_PLAN};
    historical := rows.scope[i];
    owner := OwnerOf(rows.owners, id);
    OwnerOfIs(rows.owners, id);
    ResolvedIs(ItemOf(Flatten(rows.assignments))[rows.duties[k].id], Ids(rows.scope) + DutyIds(rows.duties[..k]));
  }

  lemma {:induction false} OwnerOfIs(owners: seq<Owner>, scope: Text)
    requires scope in Owned(owners)
    ensures OwnerOf(owners, scope) in owners && OwnerOf(owners, scope).scope == scope
  {
    if owners[|owners| - 1].scope != scope {
      var i :| 0 <= i < |owners| && owners[i].scope == scope;
      assert owners[..|owners| - 1][i] == owners[i];
      OwnerOfIs(owners[..|owners| - 1], scope);
    }
  }

  lemma {:induction false} FirstKnownIs(candidates: seq<Text>, known: set<Text>)
    ensures FirstKnown(candidates, known).Some? ==>
      FirstKnown(candidates, known).value in candidates && FirstKnown(candidates, known).value in known
  {
    if candidates != [] { FirstKnownIs(candidates[1..], known); }
  }

  lemma ResolvedIs(item: Text, known: set<Text>)
    ensures Resolved(item, known).Some? ==>
      Candidates(item).Some? && Resolved(item, known).value in Candidates(item).value && Resolved(item, known).value in known
  {
    hide Candidates;
    if Candidates(item).Some? { FirstKnownIs(Candidates(item).value, known); }
  }

  /** The one duty for a goal, a requirement and an assigned obligation. */
  predicate OnlyDuty(duties: seq<Duty>, k: nat, goal: Text, requirement: Text, id: Text) {
    && k < |duties|
    && duties[k].goal == goal && duties[k].requirement == requirement && duties[k].id == id
    && forall j :: 0 <= j < |duties| && j != k ==>
         duties[j].goal != goal && duties[j].requirement != requirement && duties[j].id != id
  }

  lemma DutyIsOnly(rows: Rows, k: nat)
    requires DutiesOk(rows, |rows.duties|) && k < |rows.duties|
    ensures OnlyDuty(rows.duties, k, rows.duties[k].goal, rows.duties[k].requirement, rows.duties[k].id)
  {
    hide ItemOf, Flatten, OwnerScope, HasKind, MatchesRequirement, RefereeGoals;
    forall j | 0 <= j < |rows.duties| && j != k
      ensures rows.duties[j].goal != rows.duties[k].goal && rows.duties[j].requirement != rows.duties[k].requirement
           && rows.duties[j].id != rows.duties[k].id
    {
      assert DutyOk(rows, j) && DutyOk(rows, k);
    }
  }

  // Deliverable-requiring goals, requirements, assigned obligations and obligations correspond one to one

  /** Every obligation serves a goal, a requirement and an assignment of the root. */
  lemma DutyBelongs(rows: Rows, k: nat)
    requires Consistent(rows) && k < |rows.duties|
    ensures rows.duties[k].goal in RefereeGoals(rows.goals)
    ensures rows.duties[k].requirement in RequirementIds(rows.requirements)
    ensures rows.duties[k].id in ItemOf(Flatten(rows.assignments))
  {
    hide DutyOk, ItemOf, Flatten, OwnsExactly, GoalsOk, AssignedOnce, DistinctScopes, DutiesOk;
    assert rows.duties[k].id in DutyIds(rows.duties);
  }

  /** Every goal that requires a deliverable has exactly one obligation. */
  lemma GoalHasOneDuty(rows: Rows, goal: Text) returns (k: nat)
    requires Consistent(rows) && goal in RefereeGoals(rows.goals)
    ensures k < |rows.duties| && OnlyDuty(rows.duties, k, goal, rows.duties[k].requirement, rows.duties[k].id)
  {
    hide DutyOk, ItemOf, Flatten, OwnsExactly, GoalsOk, AssignedOnce, DistinctScopes, OnlyDuty, DutiesOk;
    k :| 0 <= k < |rows.duties| && rows.duties[k].goal == goal;
    DutyIsOnly(rows, k);
  }

  /** Every requirement has exactly one obligation, and the two agree on goal, obligation and deliverable. */
  lemma RequirementHasOneDuty(rows: Rows, i: nat) returns (k: nat)
    requires Consistent(rows) && i < |rows.requirements|
    ensures k < |rows.duties| && MatchesRequirement(rows.requirements[i], rows.duties[k])
    ensures OnlyDuty(rows.duties, k, rows.duties[k].goal, rows.requirements[i].id, rows.duties[k].id)
  {
    hide DutyOk, ItemOf, Flatten, OwnsExactly, GoalsOk, AssignedOnce, DistinctScopes, OnlyDuty, DutiesOk, MatchesRequirement;
    assert rows.requirements[i].id in RequirementIds(rows.requirements);
    k :| 0 <= k < |rows.duties| && rows.duties[k].requirement == rows.requirements[i].id;
    DutyIsOnly(rows, k);
    RequirementFits(rows, k, i);
  }

  /** Every obligation id that the patch plan assigns is exactly one obligation. */
  lemma AssignmentHasOneDuty(rows: Rows, id: Text) returns (k: nat)
    requires Consistent(rows) && id in ItemOf(Flatten(rows.assignments))
    ensures k < |rows.duties| && OnlyDuty(rows.duties, k, rows.duties[k].goal, rows.duties[k].requirement, id)
  {
    hide DutyOk, ItemOf, Flatten, OwnsExactly, GoalsOk, AssignedOnce, DistinctScopes, OnlyDuty, DutiesOk;
    assert id in DutyIds(rows.duties);
    k :| 0 <= k < |rows.duties| && rows.duties[k].id == id;
    DutyIsOnly(rows, k);
  }

  lemma RequirementFits(rows: Rows, k: nat, i: nat)
    requires DutiesOk(rows, |rows.duties|) && RequirementsOk(rows.requirements)
    requires k < |rows.duties| && i < |rows.requirements| && rows.duties[k].requirement == rows.requirements[i].id
    ensures MatchesRequirement(rows.requirements[i], rows.duties[k])
  {
    hide ItemOf, Flatten, OwnerScope, HasKind, RefereeGoals;
    assert DutyOk(rows, k);
  }
}
