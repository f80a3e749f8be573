/** Extending a stream by one record, and what replaying the extended stream gives. */
module StreamAppend {
  import opened Prelude
  import opened Utf8
  import opened Json
  import opened JsonReader
  import opened JsonNumber
  import opened JsonRender
  import opened JsonCanonical
  import opened JsonLossless
  import opened JsonDepth
  import opened Framing
  import opened EventStream
  import Base64

  datatype Prepared = Prepared(body: Body, raw: Bytes)

  const TOO_LARGE := Failure("INPUT_LIMIT", RAW_LOCATION)
  const NOT_ONE_RECORD := Failure("SCHEMA_VALIDATION", "/record")

  /** The bound checked before the candidate is framed. */
  function MaximumCandidate(prior: Bytes): int {
    MAX_RAW_STREAM_BYTES - |prior| - |Separator(prior)| - 1 + 2
  }

  /** The one nonblank record of a candidate. */
  function OnlyRecord(candidate: Bytes): Option<Bytes> {
    var records := Records(candidate);
    if |records| == 1 && !IsBlank(records[0]) then Some(records[0]) else None
  }

  /** The checks of an already framed record: size, decoding, and application to scratch values. */
  function CheckRecord(prior: Bytes, clean: Bytes, registry: Registry): Option<Failure>
    requires ValidRegistry(registry)
  {
    if |prior| + |Separator(prior)| + |clean| + 1 > MAX_RAW_STREAM_BYTES then Some(TOO_LARGE)
    else
      match DecodeRecord(clean)
      case Undecodable(code, _) => Some(Failure(code, "/record"))
      case Event(event) =>
        match ApplyEvent(Defaults(registry), event, registry)
        case Aborted => Some(HostTypeError)
        case Rejected(_) => Some(Failure("SCHEMA_VALIDATION", "/record"))
        case Updated(_) => None
  }

  /** `prepare_append`. */
  function PrepareAppend(body: Body, candidate: Bytes, registry: Registry): Result<Prepared, Failure> {
    match DecodeRawStream(body)
    case Err(e) => Err(e)
    case Ok(prior) =>
      if !ValidRegistry(registry) then Err(Failure("SCHEMA_VALIDATION", "/manifest/declared_patchwork_checks"))
      else if |candidate| > MaximumCandidate(prior) then Err(TOO_LARGE)
      else
        match OnlyRecord(candidate)
        case None => Err(NOT_ONE_RECORD)
        case Some(clean) =>
          match CheckRecord(prior, clean, registry)
          case Some(e) => Err(e)
          case None =>
            var appended := Appended(prior, clean);
            BodyInvertsDecode(body);
            match BodyFromRawStream(appended, body["source_oid"].t, body["source_path"].t)
            case Err(e) => Err(e)
            case Ok(updated) => Ok(Prepared(updated, appended))
  }

  /** `prepare_append` as it runs: the framing loop stops at the first blank or second record. */
  method PrepareAppendLoop(body: Body, candidate: Bytes, registry: Registry) returns (r: Result<Prepared, Failure>)
    ensures r == PrepareAppend(body, candidate, registry)
  {
    var decoded := DecodeRawStream(body);
    if decoded.Err? { return Err(decoded.error); }
    if !ValidRegistry(registry) { return Err(Failure("SCHEMA_VALIDATION", "/manifest/declared_patchwork_checks")); }
    var prior := decoded.value;
    if |candidate| > MaximumCandidate(prior) { return Err(TOO_LARGE); }
    var clean: Option<Bytes> := None;
    var records := PhysicalRecords(candidate);
    for i := 0 to |records|
      invariant clean.None? <==> i == 0
      invariant clean.Some? ==> i == 1 && clean == Some(records[0]) && !IsBlank(records[0])
    {
      if IsBlank(records[i]) || clean.Some? { return Err(NOT_ONE_RECORD); }
      clean := Some(records[i]);
    }
    if clean.None? { return Err(NOT_ONE_RECORD); }
    var refusal := CheckRecord(prior, clean.value, registry);
    if refusal.Some? { return Err(refusal.value); }
    var appended := prior + Separator(prior) + clean.value + [LF];
    BodyInvertsDecode(body);
    var updated := BodyFromRawStream(appended, body["source_oid"].t, body["source_path"].t);
    if updated.Err? { return Err(updated.error); }
    return Ok(Prepared(updated.value, appended));
  }

  lemma BlankOrNot(record: Bytes)
    ensures !IsBlank(record) ==> record != []
  {
  }

  /** An append succeeds exactly for one nonblank record that fits within 4 MiB with its separator and
      line end, decodes to an event, and applies. The early size check refuses nothing else. */
  lemma AppendAcceptsExactly(body: Body, candidate: Bytes, registry: Registry)
    requires DecodeRawStream(body).Ok? && ValidRegistry(registry)
    ensures PrepareAppend(body, candidate, registry).Ok?
      <==> OnlyRecord(candidate).Some? && CheckRecord(DecodeRawStream(body).value, OnlyRecord(candidate).value, registry).None?
    ensures PrepareAppend(body, candidate, registry).Ok? ==>
      PrepareAppend(body, candidate, registry).value.raw == Appended(DecodeRawStream(body).value, OnlyRecord(candidate).value)
  {
    var prior := DecodeRawStream(body).value;
    if OnlyRecord(candidate).Some? {
      var clean := OnlyRecord(candidate).value;
      assert Records(candidate) == [clean];
      OneRecordSize(candidate, clean);
      BodyInvertsDecode(body);
    }
  }

  /** The replay of the extended stream, from the replay of the old one. */
  function Extended(outcome: Outcome, event: seq<Member>, registry: Registry, line: nat): Outcome
    requires Sound(outcome, registry)
  {
    if outcome.Died? then Died
    else
      match ApplyEvent(outcome.p.state, event, registry)
      case Updated(state) =>
        Running(Projection(state, outcome.p.lastEvents[Target(event) := line], outcome.p.diagnostics))
      case _ => Died
  }

  lemma AcceptedRecordApplies(outcome: Outcome, prior: Bytes, clean: Bytes, registry: Registry, line: nat)
    requires ValidRegistry(registry) && Sound(outcome, registry)
    requires !IsBlank(clean) && CheckRecord(prior, clean, registry).None?
    ensures DecodeRecord(clean).Event?
    ensures var event := DecodeRecord(clean).members;
            && ReplayRecord(outcome, clean, registry, line) == Extended(outcome, event, registry, line)
            && (outcome.Running? ==> ApplyEvent(outcome.p.state, event, registry).Updated?)
  {
    hide DecodeRecord, IsBlank, ApplyEvent, Defaults;
    if outcome.Running? {
      ApplyIsUniform(outcome.p.state, Defaults(registry), DecodeRecord(clean).members, registry);
    }
  }

  /** One more accepted record at the end of the raw stream. */
  lemma AcceptedRecordReplays(prior: Bytes, clean: Bytes, registry: Registry, state: State)
    requires ValidRegistry(registry) && Typed(state, registry)
    requires Unbroken(clean) && !IsBlank(clean) && CheckRecord(prior, clean, registry).None?
    ensures DecodeRecord(clean).Event?
    ensures var before := ReplayRaw(prior, registry, state);
            var event := DecodeRecord(clean).members;
            && ReplayRaw(Appended(prior, clean), registry, state)
               == Extended(before, event, registry, |Records(prior)| + 1)
            && (before.Running? ==> ApplyEvent(before.p.state, event, registry).Updated?)
  {
    hide DecodeRecord, IsBlank, ApplyEvent, Records, CheckRecord;
    BlankOrNot(clean);
    AppendExtendsRecords(prior, clean);
    ReplayAppends(Running(Projection(state, map[], [])), Records(prior), clean, registry, 1);
    AcceptedRecordApplies(ReplayRaw(prior, registry, state), prior, clean, registry, |Records(prior)| + 1);
  }

  /** The parts of an accepted append. */
  lemma AcceptedParts(body: Body, candidate: Bytes, registry: Registry) returns (prior: Bytes, clean: Bytes)
    requires PrepareAppend(body, candidate, registry).Ok?
    ensures DecodeRawStream(body) == Ok(prior) && ValidRegistry(registry) && OnlyRecord(candidate) == Some(clean)
    ensures Unbroken(clean) && !IsBlank(clean) && CheckRecord(prior, clean, registry).None?
    ensures PrepareAppend(body, candidate, registry).value.raw == Appended(prior, clean)
    ensures DecodeRawStream(PrepareAppend(body, candidate, registry).value.body) == Ok(Appended(prior, clean))
  {
    prior := DecodeRawStream(body).value;
    clean := OnlyRecord(candidate).value;
    RecordsAreUnbroken(candidate);
    BodyInvertsDecode(body);
    DecodeInvertsBody(Appended(prior, clean), body["source_oid"].t, body["source_path"].t);
  }

  /** An accepted append is never rejected later: from every initial state, replaying the extended
      stream is replaying the old one and then applying that event on the next line. Earlier
      diagnostics and line numbers are unchanged and no diagnostic is added. */
  lemma AcceptedAppendReplays(body: Body, candidate: Bytes, registry: Registry, initial: Option<map<Text, HostValue>>)
    requires PrepareAppend(body, candidate, registry).Ok?
    ensures OnlyRecord(candidate).Some? && DecodeRecord(OnlyRecord(candidate).value).Event?
    ensures var event := DecodeRecord(OnlyRecord(candidate).value).members;
            var line := |Records(DecodeRawStream(body).value)| + 1;
            var after := Replay(PrepareAppend(body, candidate, registry).value.body, registry, initial);
            match Replay(body, registry, initial)
            case Err(e) => after == Err(e)
            case Ok(outcome) =>
              && Sound(outcome, registry)
              && after == Ok(Extended(outcome, event, registry, line))
              && (outcome.Running? ==> ApplyEvent(outcome.p.state, event, registry).Updated?)
  {
    var prior, clean := AcceptedParts(body, candidate, registry);
    InitialStateIsTyped(registry, initial);
    var start := InitialState(registry, initial);
    AcceptedRecordReplays(prior, clean, registry, if start.Ok? then start.value else Defaults(registry));
  }

  // When replay does not finish

  /** A record that makes replay raise TypeError: a declared variable and an unhashable operation. */
  predicate Fatal(record: Bytes, registry: Registry) {
    && !IsBlank(record)
    && DecodeRecord(record).Event?
    && Target(DecodeRecord(record).members) != []
    && Target(DecodeRecord(record).members) in registry
    && Unhashable(Get(DecodeRecord(record).members, T("op")))
  }

  lemma FatalRecord(outcome: Outcome, record: Bytes, registry: Registry, line: nat)
    requires ValidRegistry(registry) && Sound(outcome, registry) && outcome.Running?
    ensures ReplayRecord(outcome, record, registry, line) == Died <==> Fatal(record, registry)
  {
    if DecodeRecord(record).Event? {
      var op := Get(DecodeRecord(record).members, T("op"));
      assert Unhashable(op) ==> op != Some(Str(T("set")));
    }
  }

  lemma {:induction false} DiesOnFatalRecord(outcome: Outcome, records: seq<Bytes>, registry: Registry, line: nat)
    requires ValidRegistry(registry) && Sound(outcome, registry) && outcome.Running?
    ensures ReplayRecords(outcome, records, registry, line) == Died
      <==> exists k :: 0 <= k < |records| && Fatal(records[k], registry)
    decreases |records|
  {
    if records != [] {
      FatalRecord(outcome, records[0], registry, line);
      var next := ReplayRecord(outcome, records[0], registry, line);
      if next.Running? {
        DiesOnFatalRecord(next, records[1..], registry, line + 1);
        if k :| 0 <= k < |records| && Fatal(records[k], registry) { assert records[1..][k - 1] == records[k]; }
        if k :| 0 <= k < |records| - 1 && Fatal(records[1..][k], registry) { assert records[k + 1] == records[1..][k]; }
      } else {
        DiedStaysDead(records[1..], registry, line + 1);
      }
    }
  }

  /** Replay goes on after every rejection, except that a fatal record ends it: it completes exactly
      when the stream holds none, whatever the initial state. */
  lemma ReplayCompletesExactly(body: Body, registry: Registry, initial: Option<map<Text, HostValue>>)
    requires Replay(body, registry, initial).Ok?
    ensures Replay(body, registry, initial) == Ok(Died)
      <==> exists k :: 0 <= k < |Records(DecodeRawStream(body).value)|
             && Fatal(Records(DecodeRawStream(body).value)[k], registry)
  {
    InitialStateIsTyped(registry, initial);
    var start := InitialState(registry, initial).value;
    DiesOnFatalRecord(Running(Projection(start, map[], [])), Records(DecodeRawStream(body).value), registry, 1);
  }

  // A printed object is one physical record

  predicate NoControl(t: seq<int>) {
    forall i :: 0 <= i < |t| ==> t[i] >= 0x20
  }

  lemma {:induction false} EscapeNoControl(s: Text)
    ensures NoControl(Escape(s))
  {
    if s != [] { EscapeNoControl(s[1..]); }
  }

  lemma {:induction false} RenderNoControl(v: Json)
    requires Valid(v) && Lossless(v)
    ensures NoControl(Render(v))
    decreases v, 1
  {
    match v
    case Number(lexeme) =>
      TokenIsNumber(lexeme);
      assert lexeme[..NumberLength(lexeme)] == lexeme;
      forall i | 0 <= i < |lexeme| ensures lexeme[i] >= 0x20 { assert IsNumberCharacter(lexeme[i]); }
    case Str(s) => EscapeNoControl(s);
    case Arr(items) => RenderItemsNoControl(items);
    case Obj(members) => RenderMembersNoControl(members);
    case _ =>
  }

  lemma {:induction false} RenderItemsNoControl(items: seq<Json>)
    requires forall i :: 0 <= i < |items| ==> Valid(items[i]) && Lossless(items[i])
    ensures NoControl(RenderItems(items))
    decreases items, 0
  {
    if items != [] {
      RenderNoControl(items[0]);
      RenderItemsNoControl(items[1..]);
    }
  }

  lemma {:induction false} RenderMembersNoControl(members: seq<Member>)
    requires forall i :: 0 <= i < |members| ==> Valid(members[i].value) && Lossless(members[i].value)
    ensures NoControl(RenderMembers(members))
    decreases members, 0
  {
    if members != [] {
      EscapeNoControl(members[0].key);
      RenderNoControl(members[0].value);
      RenderMembersNoControl(members[1..]);
    }
  }

  lemma {:induction false} ConcatNoControl(t: Text)
    requires NoControl(t)
    ensures NoControl(Concat(t)) && |Concat(t)| >= |t|
  {
    if t != [] { ConcatNoControl(t[1..]); }
  }

  /** The printed bytes of an object within the depth limit are one nonblank record that decodes to
      exactly its members. */
  lemma PrintedObjectIsOneRecord(v: Json)
    requires v.Obj? && Valid(v) && Lossless(v) && Unicode(v) && Height(v) <= MAX_RECORD_DEPTH
    ensures var bytes := Concat(Render(v));
            && Records(bytes) == [bytes]
            && !IsBlank(bytes)
            && DecodeRecord(bytes) == Event(v.members)
  {
    var text := Render(v);
    var bytes := Concat(text);
    RenderNoControl(v);
    ConcatNoControl(text);
    RecordsOfUnended(bytes);
    RenderScalar(v);
    DecodeConcat(text);
    ReadRendered(v);
    RunConcat(text, START);
    PeakIsHeight(text);
    assert bytes[0] == EncodeOne(text[0])[0] == 0x7B;
  }

  /** The event {"var": name, "op": []}. */
  function FatalEvent(name: Text): Json {
    Obj([Keyed(T("var"), Str(name)), Keyed(T("op"), Arr([]))])
  }

  lemma LiteralIsScalar(s: string)
    requires forall i :: 0 <= i < |s| ==> s[i] <= 'z'
    ensures ScalarText(T(s))
  {
  }

  lemma FatalEventIsFatal(name: Text, registry: Registry)
    requires ValidRegistry(registry) && name in registry
    ensures var v := FatalEvent(name);
            && Valid(v) && Lossless(v) && Unicode(v) && Height(v) == 2
            && Fatal(Concat(Render(v)), registry)
  {
    var v := FatalEvent(name);
    var var_, op := T("var"), T("op");
    assert |var_| != |op|;
    assert ScalarText(name);
    LiteralIsScalar("var");
    LiteralIsScalar("op");
    assert v.members[1..][0] == Keyed(op, Arr([]));
    ContainerHeight(v);
    ContainerHeight(v.members[1].value);
    assert MembersHeight(v.members) == 1 by {
      assert v.members[1..][1..] == [];
      assert MembersHeight(v.members[1..]) == 1;
    }
    PrintedObjectIsOneRecord(v);
    assert Get(v.members, var_) == Some(Str(name));
    assert Get(v.members, op) == Get(v.members[1..], op) == Some(Arr([]));
  }

  /** For every declared check there is a one-record stream with a canonical body on which replay dies. */
  lemma ReplayCanDie(registry: Registry, name: Text, oid: Text, path: Text)
    requires ValidRegistry(registry) && name in registry && ValidAnchor(TextField(oid), TextField(path))
    requires |Concat(Render(FatalEvent(name)))| <= MAX_RAW_STREAM_BYTES
    ensures var body := BodyFromRawStream(Concat(Render(FatalEvent(name))), oid, path);
            body.Ok? && Replay(body.value, registry, None) == Ok(Died)
  {
    var raw := Concat(Render(FatalEvent(name)));
    FatalEventIsFatal(name, registry);
    PrintedObjectIsOneRecord(FatalEvent(name));
    DecodeInvertsBody(raw, oid, path);
    assert Fatal(Records(raw)[0], registry);
    ReplayCompletesExactly(BodyFromRawStream(raw, oid, path).value, registry, None);
  }
}
