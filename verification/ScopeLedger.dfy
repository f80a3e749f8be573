/** The documents that the scope decomposition accepts, told member by member: which objects its rows are,
    what has to hold between them, and which row owns an obligation. */
module ScopeLedger {
  import opened Prelude
  import opened Utf8
  import opened JsonNumber
  import opened Json
  import opened PyDigits
  import opened ScopeDecomposition

  // Objects by their members

  /** The object has this member. */
  predicate Has(v: Json, name: Text, value: Json) {
    v.Obj? && exists i :: 0 <= i < |v.members| && v.members[i] == Keyed(name, value)
  }

  predicate Lacks(v: Json, name: Text) {
    v.Obj? ==> forall i :: 0 <= i < |v.members| ==> v.members[i].key != name
  }

  /** A dict holds a key once. */
  predicate IsDict(v: Json) {
    v.Obj? ==> DistinctKeys(v.members)
  }

  predicate OnlyNames(v: Json, names: set<Text>) {
    v.Obj? && forall i :: 0 <= i < |v.members| ==> v.members[i].key in names
  }

  lemma {:induction false} GetIs(members: seq<Member>, name: Text, value: Json)
    requires DistinctKeys(members)
    ensures Get(members, name) == Some(value) <==> exists i :: 0 <= i < |members| && members[i] == Keyed(name, value)
    ensures Get(members, name) == None <==> forall i :: 0 <= i < |members| ==> members[i].key != name
  {
    if members != [] {
      GetIs(members[1..], name, value);
      assert forall i :: 0 <= i < |members| - 1 ==> members[1..][i] == members[i + 1];
      if members[0].key == name {
        assert members[0] == Keyed(name, members[0].value);
      } else if i :| 0 <= i < |members| && members[i] == Keyed(name, value) {
        assert members[1..][i - 1] == members[i];
      }
    }
  }

  lemma FieldIs(v: Json, name: Text, value: Json)
    requires IsDict(v)
    ensures Field(v, name) == Some(value) <==> Has(v, name, value)
    ensures Field(v, name) == None <==> Lacks(v, name)
  {
    if v.Obj? { GetIs(v.members, name, value); }
  }

  lemma TextAtIs(v: Json, name: Text, t: Text)
    requires IsDict(v)
    ensures TextAt(v, name) == Some(t) <==> t != [] && Has(v, name, Str(t))
  {
    hide Has;
    FieldIs(v, name, Str(t));
  }

  lemma ListAtIs(v: Json, name: Text, items: seq<Json>)
    requires IsDict(v)
    ensures ListAt(v, name) == Some(items) <==> Has(v, name, Arr(items))
  {
    hide Has;
    FieldIs(v, name, Arr(items));
  }

  lemma HasIsNamed(v: Json, name: Text, value: Json)
    requires Has(v, name, value)
    ensures name in Names(v)
  {
  }

  lemma NamedHas(v: Json, name: Text) returns (value: Json)
    requires name in Names(v)
    ensures Has(v, name, value)
  {
    var i :| 0 <= i < |v.members| && v.members[i].key == name;
    assert v.members[i] == Keyed(name, v.members[i].value);
    value := v.members[i].value;
  }

  lemma OnlyNamesIs(v: Json, names: set<Text>)
    ensures OnlyNames(v, names) <==> v.Obj? && Names(v) <= names
  {
    if v.Obj? && Names(v) <= names {
      forall i | 0 <= i < |v.members| ensures v.members[i].key in names {
        assert v.members[i].key in Names(v);
      }
    }
  }

  /** Every row is one of these values' spellings, in order. */
  ghost predicate Spells<R(!new)>(raw: seq<Json>, rows: seq<R>, fits: (Json, R) -> bool) {
    |raw| == |rows| && forall i :: 0 <= i < |raw| ==> fits(raw[i], rows[i])
  }

  /** What a decoder accepts, and as what. */
  ghost predicate Decodes<R(!new)>(raw: seq<Json>, decode: Json -> Option<R>, fits: (Json, R) -> bool) {
    forall i, r :: 0 <= i < |raw| ==> (decode(raw[i]) == Some(r) <==> fits(raw[i], r))
  }

  lemma DecodedAt<R>(raw: seq<Json>, decode: Json -> Option<R>, i: nat)
    requires i < |raw| && DecodeAll(raw, decode).Some?
    ensures |DecodeAll(raw, decode).value| == |raw| && decode(raw[i]) == Some(DecodeAll(raw, decode).value[i])
  {
    hide DecodeAll;
    DecodePrefix(raw, decode, i);
    DecodePrefix(raw, decode, i + 1);
    DecodeStep(raw, decode, i);
  }

  lemma {:induction false} AllDecoded<R>(raw: seq<Json>, rows: seq<R>, decode: Json -> Option<R>, i: nat)
    requires |raw| == |rows| && i <= |raw| && forall j :: 0 <= j < |raw| ==> decode(raw[j]) == Some(rows[j])
    ensures DecodeAll(raw[..i], decode) == Some(rows[..i])
  {
    if i > 0 {
      AllDecoded(raw, rows, decode, i - 1);
      DecodeStep(raw, decode, i - 1);
      assert rows[..i] == rows[..i - 1] + [rows[i - 1]];
    }
  }

  lemma DecodeAllExactly<R(!new)>(raw: seq<Json>, rows: seq<R>, decode: Json -> Option<R>, fits: (Json, R) -> bool)
    requires Decodes(raw, decode, fits)
    ensures DecodeAll(raw, decode) == Some(rows) <==> Spells(raw, rows, fits)
  {
    hide DecodeAll;
    if DecodeAll(raw, decode) == Some(rows) {
      DecodePrefix(raw, decode, |raw|);
      forall i | 0 <= i < |raw| ensures fits(raw[i], rows[i]) { DecodedAt(raw, decode, i); }
    }
    if Spells(raw, rows, fits) {
      AllDecoded(raw, rows, decode, |raw|);
      assert raw[..|raw|] == raw && rows[..|rows|] == rows;
    }
  }

  /** The member of this name is a list that spells these rows. */
  ghost predicate Lists<R(!new)>(v: Json, name: Text, rows: seq<R>, fits: (Json, R) -> bool) {
    exists raw :: Has(v, name, Arr(raw)) && Spells(raw, rows, fits)
  }

  /** Every object of a decoded document is a dict. */
  lemma HasValid(v: Json, name: Text, value: Json)
    requires Valid(v) && Has(v, name, value)
    ensures IsDict(v) && Valid(value)
  {
    var i :| 0 <= i < |v.members| && v.members[i] == Keyed(name, value);
    assert Valid(v.members[i].value);
  }

  lemma DecodeListExactly<R(!new)>(v: Json, name: Text, rows: seq<R>, decode: Json -> Option<R>, fits: (Json, R) -> bool)
    requires Valid(v) && forall raw :: Has(v, name, Arr(raw)) ==> Decodes(raw, decode, fits)
    ensures DecodeList(v, name, decode) == Some(rows) <==> Lists(v, name, rows, fits)
  {
    hide Has, DecodeAll, Spells, Decodes;
    if DecodeList(v, name, decode) == Some(rows) {
      var raw := ListAt(v, name).value;
      ListAtIs(v, name, raw);
      DecodeAllExactly(raw, rows, decode, fits);
    }
    if Lists(v, name, rows, fits) {
      var raw :| Has(v, name, Arr(raw)) && Spells(raw, rows, fits);
      ListAtIs(v, name, raw);
      DecodeAllExactly(raw, rows, decode, fits);
    }
  }

  // Rows

  predicate IsEstablishedKind(kind: Text) {
    || kind == T("desired_outcome") || kind == T("referee_goal") || kind == T("goal") || kind == T("ux_acceptance_test")
    || kind == T("patch_plan") || kind == T("must_address_risk") || kind == T("domain_specification")
  }

  predicate IsScopeRow(v: Json, r: Scope) {
    && r.Established? && r.id != [] && r.text != [] && IsEstablishedKind(r.kind)
    && Has(v, T("id"), Str(r.id)) && Has(v, T("kind"), Str(r.kind)) && Has(v, T("text"), Str(r.text))
    && OnlyNames(v, {T("id"), T("kind"), T("text")})
  }

  predicate IsOwnerRow(v: Json, r: Owner) {
    && r.scope != [] && r.owner != [] && r.path != []
    && Has(v, T("scope_item_id"), Str(r.scope)) && Has(v, T("owner"), Str(r.owner)) && Has(v, T("owner_node_path"), Str(r.path))
    && OnlyNames(v, {T("scope_item_id"), T("owner"), T("owner_node_path")})
  }

  predicate IsGoalRow(v: Json, r: Goal) {
    r.id != [] && Has(v, T("id"), Str(r.id)) && Has(v, T("requires_deliverable"), Bool(r.requiresDeliverable))
  }

  predicate IsRequirementRow(v: Json, r: Requirement) {
    && r.id != [] && Has(v, T("id"), Str(r.id)) && r.goal.Some? && r.obligation.Some? && r.deliverable.Some?
    && Has(v, T("referee_goal_id"), r.goal.value) && Has(v, T("production_obligation_id"), r.obligation.value)
    && Has(v, T("deliverable"), r.deliverable.value)
    && OnlyNames(v, {T("id"), T("referee_goal_id"), T("production_obligation_id"), T("deliverable")})
  }

  predicate IsNonempty(v: Json, t: Text) {
    t != [] && v == Str(t)
  }

  ghost predicate IsAssignmentRow(v: Json, r: Assignment) {
    && r.item != [] && Has(v, T("item_id"), Str(r.item))
    && Lists(v, T("production_obligation_ids"), r.obligations, IsNonempty)
    && OnlyNames(v, {T("item_id"), T("production_obligation_ids")})
  }

  predicate IsDutyRow(v: Json, r: Duty) {
    && r.id != [] && r.goal != [] && r.requirement != [] && r.deliverable != [] && r.predicate_ != []
    && Has(v, T("id"), Str(r.id)) && Has(v, T("referee_goal_id"), Str(r.goal))
    && Has(v, T("deliverable_requirement_id"), Str(r.requirement)) && Has(v, T("deliverable"), Str(r.deliverable))
    && Has(v, T("eligibility_predicate"), Str(r.predicate_))
    && OnlyNames(v, {T("id"), T("referee_goal_id"), T("deliverable_requirement_id"), T("deliverable"),
                     T("eligibility_predicate"), T("replacement_links")})
  }

  lemma ScopeRowExactly(v: Json, r: Scope)
    requires IsDict(v)
    ensures EstablishedRow(v) == Some(r) <==> IsScopeRow(v, r)
  {
    hide T, Has, TextAt, Names, OnlyNames, IsDict;
    var (a, b, c) := (T("id"), T("kind"), T("text"));
    OnlyNamesIs(v, {a, b, c});
    if EstablishedRow(v) == Some(r) {
      TextAtIs(v, a, r.id);
      TextAtIs(v, b, r.kind);
      TextAtIs(v, c, r.text);
      TextIsNamed(v, a);
    }
    if IsScopeRow(v, r) {
      KindIsNotEmpty(r.kind);
      TextAtIs(v, a, r.id);
      TextAtIs(v, b, r.kind);
      TextAtIs(v, c, r.text);
      HasIsNamed(v, a, Str(r.id));
      HasIsNamed(v, b, Str(r.kind));
      HasIsNamed(v, c, Str(r.text));
    }
  }

  lemma KindIsNotEmpty(kind: Text)
    requires IsEstablishedKind(kind)
    ensures kind != []
  {
  }

  lemma TextIsNamed(v: Json, name: Text)
    requires TextAt(v, name).Some?
    ensures v.Obj?
  {
  }

  lemma OwnerRowExactly(v: Json, r: Owner)
    requires IsDict(v)
    ensures OwnerRow(v) == Some(r) <==> IsOwnerRow(v, r)
  {
    hide T, Has, TextAt, Names, OnlyNames, IsDict;
    var (a, b, c) := (T("scope_item_id"), T("owner"), T("owner_node_path"));
    OnlyNamesIs(v, {a, b, c});
    TextAtIs(v, a, r.scope);
    TextAtIs(v, b, r.owner);
    TextAtIs(v, c, r.path);
    if OwnerRow(v) == Some(r) { TextIsNamed(v, a); }
    if IsOwnerRow(v, r) {
      HasIsNamed(v, a, Str(r.scope));
      HasIsNamed(v, b, Str(r.owner));
      HasIsNamed(v, c, Str(r.path));
    }
  }

  lemma GoalRowExactly(v: Json, r: Goal)
    requires IsDict(v)
    ensures GoalRow(v) == Some(r) <==> IsGoalRow(v, r)
  {
    hide T, Has, TextAt, Field, IsDict;
    TextAtIs(v, T("id"), r.id);
    FieldIs(v, T("requires_deliverable"), Bool(r.requiresDeliverable));
  }

  lemma RequirementRowExactly(v: Json, r: Requirement)
    requires IsDict(v)
    ensures RequirementRow(v) == Some(r) <==> IsRequirementRow(v, r)
  {
    hide T, Has, TextAt, Names, OnlyNames, IsDict, Field;
    var (a, b, c, d) := (T("id"), T("referee_goal_id"), T("production_obligation_id"), T("deliverable"));
    OnlyNamesIs(v, {a, b, c, d});
    TextAtIs(v, a, r.id);
    if r.goal.Some? { FieldIs(v, b, r.goal.value); }
    if r.obligation.Some? { FieldIs(v, c, r.obligation.value); }
    if r.deliverable.Some? { FieldIs(v, d, r.deliverable.value); }
    if RequirementRow(v) == Some(r) {
      TextIsNamed(v, a);
      NamedIsField(v, b);
      NamedIsField(v, c);
      NamedIsField(v, d);
    }
    if IsRequirementRow(v, r) {
      HasIsNamed(v, a, Str(r.id));
      HasIsNamed(v, b, r.goal.value);
      HasIsNamed(v, c, r.obligation.value);
      HasIsNamed(v, d, r.deliverable.value);
    }
  }

  lemma NamedIsField(v: Json, name: Text)
    requires IsDict(v) && name in Names(v)
    ensures Field(v, name).Some?
  {
    hide Has, Field;
    var value := NamedHas(v, name);
    FieldIs(v, name, value);
  }

  lemma AssignmentRowExactly(v: Json, r: Assignment)
    requires Valid(v)
    ensures AssignmentRow(v) == Some(r) <==> IsAssignmentRow(v, r)
  {
    hide T, Has, TextAt, Names, OnlyNames, ListAt, DecodeAll, Lists;
    var (a, b) := (T("item_id"), T("production_obligation_ids"));
    OnlyNamesIs(v, {a, b});
    TextAtIs(v, a, r.item);
    DecodeListExactly(v, b, r.obligations, NonemptyText, IsNonempty);
    if AssignmentRow(v) == Some(r) { TextIsNamed(v, a); }
    if IsAssignmentRow(v, r) {
      HasIsNamed(v, a, Str(r.item));
      ListIsNamed(v, b, r.obligations, IsNonempty);
    }
  }

  lemma ListIsNamed<R(!new)>(v: Json, name: Text, rows: seq<R>, fits: (Json, R) -> bool)
    requires Lists(v, name, rows, fits)
    ensures name in Names(v)
  {
    hide Has, Names;
    var raw :| Has(v, name, Arr(raw)) && Spells(raw, rows, fits);
    HasIsNamed(v, name, Arr(raw));
  }

  lemma DutyRowExactly(v: Json, r: Duty)
    requires IsDict(v)
    ensures DutyRow(v) == Some(r) <==> IsDutyRow(v, r)
  {
    hide T, Has, TextAt, Names, OnlyNames, IsDict;
    var (a, b, c, d, e) :=
      (T("id"), T("referee_goal_id"), T("deliverable_requirement_id"), T("deliverable"), T("eligibility_predicate"));
    OnlyNamesIs(v, {a, b, c, d, e, T("replacement_links")});
    assert REQUIRED_DUTY_FIELDS + {T("replacement_links")} == {a, b, c, d, e, T("replacement_links")};
    TextAtIs(v, a, r.id);
    TextAtIs(v, b, r.goal);
    TextAtIs(v, c, r.requirement);
    TextAtIs(v, d, r.deliverable);
    TextAtIs(v, e, r.predicate_);
    if DutyRow(v) == Some(r) { TextIsNamed(v, a); }
    if IsDutyRow(v, r) {
      HasIsNamed(v, a, Str(r.id));
      HasIsNamed(v, b, Str(r.goal));
      HasIsNamed(v, c, Str(r.requirement));
      HasIsNamed(v, d, Str(r.deliverable));
      HasIsNamed(v, e, Str(r.predicate_));
    }
  }

  /** What a ledger and a root say, row by row. */
  ghost predicate Documented(input: Input, rows: Rows) {
    && Lists(input.ledger, T("scope_items"), rows.scope, IsScopeRow)
    && Lists(input.ledger, T("coverage"), rows.owners, IsOwnerRow)
    && exists problem ::
         && Has(input.root, T("problem"), problem) && problem.Obj?
         && Lists(problem, T("goals"), rows.goals, IsGoalRow)
         && Lists(problem, T("deliverable_requirements"), rows.requirements, IsRequirementRow)
         && Lists(problem, T("patch_plan"), rows.assignments, IsAssignmentRow)
         && Lists(problem, T("production_obligations"), rows.duties, IsDutyRow)
  }

  predicate IsDocument(input: Input) {
    Valid(input.root) && Valid(input.ledger)
  }

  lemma ItemsAreDicts(v: Json, name: Text, raw: seq<Json>)
    requires Valid(v) && Has(v, name, Arr(raw))
    ensures forall i :: 0 <= i < |raw| ==> IsDict(raw[i]) && Valid(raw[i])
  {
    hide Has;
    HasValid(v, name, Arr(raw));
  }

  lemma LedgerRows(input: Input, rows: Rows)
    requires IsDocument(input)
    ensures DecodeList(input.ledger, T("scope_items"), EstablishedRow) == Some(rows.scope)
       <==> Lists(input.ledger, T("scope_items"), rows.scope, IsScopeRow)
    ensures DecodeList(input.ledger, T("coverage"), OwnerRow) == Some(rows.owners)
       <==> Lists(input.ledger, T("coverage"), rows.owners, IsOwnerRow)
  {
    hide T, Has, EstablishedRow, OwnerRow, IsScopeRow, IsOwnerRow, Lists, DecodeAll, IsDict;
    forall raw | Has(input.ledger, T("scope_items"), Arr(raw)) ensures Decodes(raw, EstablishedRow, IsScopeRow) {
      ItemsAreDicts(input.ledger, T("scope_items"), raw);
      forall i, r | 0 <= i < |raw| ensures EstablishedRow(raw[i]) == Some(r) <==> IsScopeRow(raw[i], r) { ScopeRowExactly(raw[i], r); }
    }
    forall raw | Has(input.ledger, T("coverage"), Arr(raw)) ensures Decodes(raw, OwnerRow, IsOwnerRow) {
      ItemsAreDicts(input.ledger, T("coverage"), raw);
      forall i, r | 0 <= i < |raw| ensures OwnerRow(raw[i]) == Some(r) <==> IsOwnerRow(raw[i], r) { OwnerRowExactly(raw[i], r); }
    }
    DecodeListExactly(input.ledger, T("scope_items"), rows.scope, EstablishedRow, IsScopeRow);
    DecodeListExactly(input.ledger, T("coverage"), rows.owners, OwnerRow, IsOwnerRow);
  }

  lemma GoalRows(problem: Json, rows: Rows)
    requires Valid(problem)
    ensures DecodeList(problem, T("goals"), GoalRow) == Some(rows.goals) <==> Lists(problem, T("goals"), rows.goals, IsGoalRow)
    ensures DecodeList(problem, T("deliverable_requirements"), RequirementRow) == Some(rows.requirements)
       <==> Lists(problem, T("deliverable_requirements"), rows.requirements, IsRequirementRow)
  {
    hide T, Has, GoalRow, RequirementRow, IsGoalRow, IsRequirementRow, Lists, DecodeAll, IsDict;
    forall raw | Has(problem, T("goals"), Arr(raw)) ensures Decodes(raw, GoalRow, IsGoalRow) {
      ItemsAreDicts(problem, T("goals"), raw);
      forall i, r | 0 <= i < |raw| ensures GoalRow(raw[i]) == Some(r) <==> IsGoalRow(raw[i], r) { GoalRowExactly(raw[i], r); }
    }
    forall raw | Has(problem, T("deliverable_requirements"), Arr(raw)) ensures Decodes(raw, RequirementRow, IsRequirementRow) {
      ItemsAreDicts(problem, T("deliverable_requirements"), raw);
      forall i, r | 0 <= i < |raw| ensures RequirementRow(raw[i]) == Some(r) <==> IsRequirementRow(raw[i], r) {
        RequirementRowExactly(raw[i], r);
      }
    }
    DecodeListExactly(problem, T("goals"), rows.goals, GoalRow, IsGoalRow);
    DecodeListExactly(problem, T("deliverable_requirements"), rows.requirements, RequirementRow, IsRequirementRow);
  }

  lemma DutyRows(problem: Json, rows: Rows)
    requires Valid(problem)
    ensures DecodeList(problem, T("patch_plan"), AssignmentRow) == Some(rows.assignments)
       <==> Lists(problem, T("patch_plan"), rows.assignments, IsAssignmentRow)
    ensures DecodeList(problem, T("production_obligations"), DutyRow) == Some(rows.duties)
       <==> Lists(problem, T("production_obligations"), rows.duties, IsDutyRow)
  {
    hide T, Has, AssignmentRow, DutyRow, IsAssignmentRow, IsDutyRow, Lists, DecodeAll, IsDict;
    forall raw | Has(problem, T("patch_plan"), Arr(raw)) ensures Decodes(raw, AssignmentRow, IsAssignmentRow) {
      ItemsAreDicts(problem, T("patch_plan"), raw);
      forall i, r | 0 <= i < |raw| ensures AssignmentRow(raw[i]) == Some(r) <==> IsAssignmentRow(raw[i], r) {
        AssignmentRowExactly(raw[i], r);
      }
    }
    forall raw | Has(problem, T("production_obligations"), Arr(raw)) ensures Decodes(raw, DutyRow, IsDutyRow) {
      ItemsAreDicts(problem, T("production_obligations"), raw);
      forall i, r | 0 <= i < |raw| ensures DutyRow(raw[i]) == Some(r) <==> IsDutyRow(raw[i], r) { DutyRowExactly(raw[i], r); }
    }
    DecodeListExactly(problem, T("patch_plan"), rows.assignments, AssignmentRow, IsAssignmentRow);
    DecodeListExactly(problem, T("production_obligations"), rows.duties, DutyRow, IsDutyRow);
  }

  /** The rows that are read are exactly the rows that the two documents spell. */
  lemma RowsExactly(input: Input, rows: Rows)
    requires IsDocument(input)
    ensures RowsOf(input) == Some(rows) <==> Documented(input, rows)
  {
    hide T, Has, Lists, DecodeList, Field;
    LedgerRows(input, rows);
    if RowsOf(input) == Some(rows) {
      var problem := Field(input.root, T("problem")).value;
      FieldIs(input.root, T("problem"), problem);
      HasValid(input.root, T("problem"), problem);
      GoalRows(problem, rows);
      DutyRows(problem, rows);
    }
    if Documented(input, rows) {
      var problem :|
        && Has(input.root, T("problem"), problem) && problem.Obj?
        && Lists(problem, T("goals"), rows.goals, IsGoalRow)
        && Lists(problem, T("deliverable_requirements"), rows.requirements, IsRequirementRow)
        && Lists(problem, T("patch_plan"), rows.assignments, IsAssignmentRow)
        && Lists(problem, T("production_obligations"), rows.duties, IsDutyRow);
      FieldIs(input.root, T("problem"), problem);
      HasValid(input.root, T("problem"), problem);
      GoalRows(problem, rows);
      DutyRows(problem, rows);
    }
  }
}
