/** The Patchwork Check event stream: opaque bytes carried as canonical base64, replayed record by
    record into typed check values, and extended one record at a time. */
module EventStream {
  import opened Prelude
  import opened Utf8
  import opened JsonNumber
  import opened Json
  import opened JsonReader
  import opened JsonDepth
  import opened Framing
  import Base64

  const MAX_RAW_STREAM_BYTES := 4194304
  const MAX_RECORD_DEPTH := 64

  const CANONICAL_PATH := T("patchwork-check-event-stream.cue")
  const LEGACY_PATH := T("patchwork-check-events.jsonl")

  /** A StreamFailure by its code and location, or the TypeError of an unhashable operation. */
  datatype Failure = Failure(code: string, location: string) | HostTypeError

  const RAW_LOCATION := "/body/raw_stream_base64"

  // Anchors

  predicate IsHex(c: CodePoint) {
    0x30 <= c <= 0x39 || 0x61 <= c <= 0x66
  }

  predicate IsOid(t: Text) {
    (|t| == 40 || |t| == 64) && forall i :: 0 <= i < |t| ==> IsHex(t[i])
  }

  /** `[a-z0-9_]+`. */
  predicate IsCheckName(t: Text) {
    t != [] && forall i :: 0 <= i < |t| ==> 0x61 <= t[i] <= 0x7A || 0x30 <= t[i] <= 0x39 || t[i] == 0x5F
  }

  /** The root, or the directory of one direct child. */
  predicate IsNodeDirectory(t: Text) {
    t == [] || (|t| >= 6 && t[..4] == T("sub/") && IsCheckName(t[4..|t| - 1]) && t[|t| - 1] == 0x2F)
  }

  predicate IsSourcePath(t: Text) {
    exists k :: 0 <= k <= |t| && IsNodeDirectory(t[..k]) && (t[k..] == CANONICAL_PATH || t[k..] == LEGACY_PATH)
  }

  // The durable body

  /** A member of the body mapping: a string or a value of any other type. */
  datatype Field = TextField(t: Text) | OtherField

  type Body = map<string, Field>

  predicate ValidAnchor(oid: Field, path: Field) {
    oid.TextField? && IsOid(oid.t) && path.TextField? && IsSourcePath(path.t)
  }

  function AnchorFailure(oid: Field): Failure {
    if oid.TextField? && IsOid(oid.t) then Failure("GIT_IDENTITY", "/body/source_path")
    else Failure("GIT_IDENTITY", "/body/source_oid")
  }

  function MakeBody(encoded: Text, oid: Text, path: Text): Body {
    map["raw_stream_base64" := TextField(encoded), "source_oid" := TextField(oid), "source_path" := TextField(path)]
  }

  function BodyFromRawStream(raw: Bytes, oid: Text, path: Text): Result<Body, Failure> {
    if !ValidAnchor(TextField(oid), TextField(path)) then Err(AnchorFailure(TextField(oid)))
    else if |raw| > MAX_RAW_STREAM_BYTES then Err(Failure("INPUT_LIMIT", RAW_LOCATION))
    else Ok(MakeBody(Base64.Encode(raw), oid, path))
  }

  predicate ClosedBody(body: Body) {
    body.Keys == {"raw_stream_base64", "source_oid", "source_path"}
  }

  /** `decode_raw_stream`, with its checks in order; the last one is the length check. */
  function DecodeRawStream(body: Body): Result<Bytes, Failure> {
    if !ClosedBody(body) then Err(Failure("SCHEMA_VALIDATION", "/body"))
    else if !ValidAnchor(body["source_oid"], body["source_path"]) then Err(AnchorFailure(body["source_oid"]))
    else
      var encoded := body["raw_stream_base64"];
      if encoded.OtherField? || !Base64.Shaped(encoded.t) then Err(Failure("ENCODING", RAW_LOCATION))
      else if Base64.AnnouncedSize(encoded.t) > MAX_RAW_STREAM_BYTES then Err(Failure("INPUT_LIMIT", RAW_LOCATION))
      else
        var decoded := Base64.LooseDecode(encoded.t);
        if Base64.Encode(decoded) != encoded.t then Err(Failure("NON_CANONICAL", RAW_LOCATION))
        else if |decoded| != Base64.AnnouncedSize(encoded.t) then Err(Failure("ENCODING", RAW_LOCATION))
        else Ok(decoded)
  }

  /** What is decoded is what was encoded, for every byte string within the limit. */
  lemma DecodeInvertsBody(raw: Bytes, oid: Text, path: Text)
    requires BodyFromRawStream(raw, oid, path).Ok?
    ensures DecodeRawStream(BodyFromRawStream(raw, oid, path).value) == Ok(raw)
  {
    Base64.DecodeOfEncode(raw);
    Base64.AnnouncedSizeIsExact(Base64.Encode(raw));
  }

  /** Only canonical bodies within the limit decode, and they are rebuilt exactly from their bytes. */
  lemma BodyInvertsDecode(body: Body)
    requires DecodeRawStream(body).Ok?
    ensures body["source_oid"].TextField? && body["source_path"].TextField?
    ensures BodyFromRawStream(DecodeRawStream(body).value, body["source_oid"].t, body["source_path"].t) == Ok(body)
  {
    var encoded := body["raw_stream_base64"].t;
    Base64.AnnouncedSizeIsExact(encoded);
    assert body == MakeBody(encoded, body["source_oid"].t, body["source_path"].t);
  }

  /** The exact acceptance of the gate, pad bits included; no length mismatch is ever reported. */
  lemma DecodesExactly(body: Body)
    ensures DecodeRawStream(body).Ok? <==>
      && ClosedBody(body)
      && ValidAnchor(body["source_oid"], body["source_path"])
      && body["raw_stream_base64"].TextField?
      && Base64.Shaped(body["raw_stream_base64"].t)
      && Base64.PadBitsZero(body["raw_stream_base64"].t)
      && |Base64.LooseDecode(body["raw_stream_base64"].t)| <= MAX_RAW_STREAM_BYTES
  {
    if ClosedBody(body) && body["raw_stream_base64"].TextField? && Base64.Shaped(body["raw_stream_base64"].t) {
      Base64.AnnouncedSizeIsExact(body["raw_stream_base64"].t);
      Base64.EncodeOfDecode(body["raw_stream_base64"].t);
    }
  }

  // Registry and state

  datatype CheckType = Counter | TextCheck | UnknownCheck

  type Registry = map<Text, CheckType>

  predicate ValidRegistry(registry: Registry) {
    forall name :: name in registry ==> IsCheckName(name) && !registry[name].UnknownCheck?
  }

  datatype CheckValue = Count(i: int) | Words(t: Text)

  type State = map<Text, CheckValue>

  predicate HasType(v: CheckValue, declared: CheckType) {
    (declared.Counter? ==> v.Count?) && (declared.TextCheck? ==> v.Words?)
  }

  predicate Typed(state: State, registry: Registry) {
    state.Keys == registry.Keys && forall name :: name in registry ==> HasType(state[name], registry[name])
  }

  function Defaults(registry: Registry): (state: State)
    ensures Typed(state, registry)
  {
    map name | name in registry :: if registry[name].Counter? then Count(0) else Words([])
  }

  /** A value of the caller's initial state; bool and every other type is Neither. */
  datatype HostValue = Given(v: CheckValue) | Neither

  predicate ValidInitial(registry: Registry, initial: map<Text, HostValue>) {
    forall name :: name in initial ==>
      name in registry && initial[name].Given? && HasType(initial[name].v, registry[name])
  }

  /** `_validated_initial_state`: declared defaults overridden by well-typed initial values. */
  function InitialState(registry: Registry, initial: Option<map<Text, HostValue>>): Result<State, Failure> {
    if initial.None? then Ok(Defaults(registry))
    else if !ValidInitial(registry, initial.value) then Err(Failure("SCHEMA_VALIDATION", "/initial_state"))
    else Ok(map name | name in registry :: if name in initial.value then initial.value[name].v else Defaults(registry)[name])
  }

  lemma InitialStateIsTyped(registry: Registry, initial: Option<map<Text, HostValue>>)
    ensures InitialState(registry, initial).Ok? ==> Typed(InitialState(registry, initial).value, registry)
  {
  }

  // One record

  predicate IsBlank(record: Bytes) {
    forall i :: 0 <= i < |record| ==> record[i] == 0x09 || record[i] == 0x20
  }

  datatype Decoded = Event(members: seq<Member>) | Undecodable(code: string, rule: string)

  const EVENT_INVALID := "patchwork_check_event_invalid"
  const INGESTION_INVALID := "ingestion_invalid"

  /** `_decode_record`: the depth bound comes before any decoding. */
  function DecodeRecord(record: Bytes): Decoded {
    if Exceeds(record, MAX_RECORD_DEPTH) then Undecodable(EVENT_INVALID, "record-depth-64")
    else
      match Decode(record)
      case None => Undecodable(INGESTION_INVALID, "utf8")
      case Some(text) =>
        match ReadText(text)
        case Err(_) => Undecodable(INGESTION_INVALID, "json-record")
        case Ok(v) => if v.Obj? then Event(v.members) else Undecodable(EVENT_INVALID, "record-object")
  }

  /** The check value of a JSON value: `json.loads` makes an int of an integer token only. */
  function AsCheckValue(v: Option<Json>): Option<CheckValue> {
    match v
    case Some(Str(s)) => Some(Words(s))
    case Some(Number(lexeme)) => if IsIntegerToken(lexeme) then Some(Count(IntValue(lexeme))) else None
    case _ => None
  }

  datatype Applied = Updated(state: State) | Rejected(rule: string) | Aborted

  predicate Unhashable(op: Option<Json>) {
    op.Some? && (op.value.Arr? || op.value.Obj?)
  }

  /** `_apply_event`. A list or an object as operation raises TypeError in the set lookup: Aborted. */
  function ApplyEvent(state: State, event: seq<Member>, registry: Registry): Applied
    requires Typed(state, registry)
  {
    var name, op := Get(event, T("var")), Get(event, T("op"));
    if name.None? || !name.value.Str? || name.value.s == [] then Rejected("declared-variable")
    else if name.value.s !in registry then Rejected("declared-variable")
    else
      var x := name.value.s;
      var declared := registry[x];
      if op == Some(Str(T("set"))) then
        var value := AsCheckValue(Get(event, T("value")));
        if value.None? then Rejected("event-value")
        else if declared.Counter? && !value.value.Count? then Rejected("counter-integer")
        else if declared.TextCheck? && !value.value.Words? then Rejected("text-string")
        else Updated(state[x := value.value])
      else if Unhashable(op) then Aborted
      else if op == Some(Str(T("inc"))) || op == Some(Str(T("dec"))) then
        var given := Get(event, T("value"));
        var delta := if given.None? then Some(Count(1)) else AsCheckValue(given);
        if !declared.Counter? then Rejected("counter-delta")
        else if delta.None? || !delta.value.Count? then Rejected("counter-delta")
        else
          var change := if op == Some(Str(T("inc"))) then delta.value.i else -delta.value.i;
          Updated(state[x := Count(state[x].i + change)])
      else Rejected("event-operation")
  }

  /** The variable an accepted event writes. */
  function Target(event: seq<Member>): Text {
    match Get(event, T("var"))
    case Some(Str(s)) => s
    case _ => []
  }

  /** Applying keeps the state typed and changes the target only; the verdict is the same in
      every typed state. */
  lemma ApplyIsUniform(s: State, t: State, event: seq<Member>, registry: Registry)
    requires Typed(s, registry) && Typed(t, registry) && ValidRegistry(registry)
    ensures match (ApplyEvent(s, event, registry), ApplyEvent(t, event, registry))
            case (Updated(a), Updated(b)) =>
              && Typed(a, registry)
              && Target(event) in registry
              && a == s[Target(event) := a[Target(event)]]
            case (a, b) => a == b
  {
  }

  // Replay

  datatype Diagnostic = Diagnostic(code: string, line: nat, rule: string)

  datatype Projection = Projection(state: State, lastEvents: map<Text, nat>, diagnostics: seq<Diagnostic>)

  /** Replay either goes on or has died of a TypeError. */
  datatype Outcome = Running(p: Projection) | Died

  predicate Sound(outcome: Outcome, registry: Registry) {
    outcome.Running? ==> Typed(outcome.p.state, registry)
  }

  function ReplayRecord(outcome: Outcome, record: Bytes, registry: Registry, line: nat): (r: Outcome)
    requires ValidRegistry(registry) && Sound(outcome, registry)
    ensures Sound(r, registry)
  {
    if outcome.Died? || IsBlank(record) then outcome
    else
      var p := outcome.p;
      match DecodeRecord(record)
      case Undecodable(code, rule) => Running(p.(diagnostics := p.diagnostics + [Diagnostic(code, line, rule)]))
      case Event(event) =>
        ApplyIsUniform(p.state, p.state, event, registry);
        match ApplyEvent(p.state, event, registry)
        case Aborted => Died
        case Rejected(rule) => Running(p.(diagnostics := p.diagnostics + [Diagnostic(EVENT_INVALID, line, rule)]))
        case Updated(state) => Running(p.(state := state, lastEvents := p.lastEvents[Target(event) := line]))
  }

  function ReplayRecords(outcome: Outcome, records: seq<Bytes>, registry: Registry, line: nat): (r: Outcome)
    requires ValidRegistry(registry) && Sound(outcome, registry)
    ensures Sound(r, registry)
    decreases |records|
  {
    if records == [] then outcome
    else ReplayRecords(ReplayRecord(outcome, records[0], registry, line), records[1..], registry, line + 1)
  }

  /** `replay` of the records of a decoded stream. */
  function ReplayRaw(raw: Bytes, registry: Registry, state: State): (r: Outcome)
    requires ValidRegistry(registry) && Typed(state, registry)
    ensures Sound(r, registry)
  {
    ReplayRecords(Running(Projection(state, map[], [])), Records(raw), registry, 1)
  }

  function Replay(body: Body, registry: Registry, initial: Option<map<Text, HostValue>>): Result<Outcome, Failure> {
    match DecodeRawStream(body)
    case Err(e) => Err(e)
    case Ok(raw) =>
      if !ValidRegistry(registry) then Err(Failure("SCHEMA_VALIDATION", "/manifest/declared_patchwork_checks"))
      else
        InitialStateIsTyped(registry, initial);
        match InitialState(registry, initial)
        case Err(e) => Err(e)
        case Ok(state) => Ok(ReplayRaw(raw, registry, state))
  }

  lemma {:induction false} ReplayAppends(outcome: Outcome, records: seq<Bytes>, record: Bytes, registry: Registry, line: nat)
    requires ValidRegistry(registry) && Sound(outcome, registry)
    ensures ReplayRecords(outcome, records + [record], registry, line)
         == ReplayRecord(ReplayRecords(outcome, records, registry, line), record, registry, line + |records|)
    decreases |records|
  {
    if records == [] {
      assert records + [record] == [record];
      assert [record][1..] == [];
    } else {
      assert (records + [record])[1..] == records[1..] + [record];
      ReplayAppends(ReplayRecord(outcome, records[0], registry, line), records[1..], record, registry, line + 1);
    }
  }

  /** `replay` as it runs: state, last events and diagnostics updated record by record. */
  method ReplayLoop(body: Body, registry: Registry, initial: Option<map<Text, HostValue>>)
    returns (r: Result<Outcome, Failure>)
    ensures r == Replay(body, registry, initial)
  {
    var raw := DecodeRawStream(body);
    if raw.Err? { return Err(raw.error); }
    if !ValidRegistry(registry) { return Err(Failure("SCHEMA_VALIDATION", "/manifest/declared_patchwork_checks")); }
    InitialStateIsTyped(registry, initial);
    var start := InitialState(registry, initial);
    if start.Err? { return Err(start.error); }
    var state := start.value;
    var lastEvents: map<Text, nat> := map[];
    var diagnostics: seq<Diagnostic> := [];
    var records := PhysicalRecords(raw.value);
    ghost var whole := ReplayRaw(raw.value, registry, state);
    assert records[0..] == records;
    for i := 0 to |records|
      invariant Typed(state, registry)
      invariant whole == ReplayRecords(Running(Projection(state, lastEvents, diagnostics)), records[i..], registry, i + 1)
    {
      ghost var before := Running(Projection(state, lastEvents, diagnostics));
      assert records[i..][1..] == records[i + 1..];
      var record, line := records[i], i + 1;
      if IsBlank(record) { continue; }
      var decoded := DecodeRecord(record);
      if decoded.Undecodable? {
        diagnostics := diagnostics + [Diagnostic(decoded.code, line, decoded.rule)];
        continue;
      }
      ApplyIsUniform(state, state, decoded.members, registry);
      var applied := ApplyEvent(state, decoded.members, registry);
      if applied.Aborted? {
        DiedStaysDead(records[i + 1..], registry, i + 2);
        return Ok(Died);
      }
      if applied.Rejected? {
        diagnostics := diagnostics + [Diagnostic(EVENT_INVALID, line, applied.rule)];
        continue;
      }
      state := applied.state;
      lastEvents := lastEvents[Target(decoded.members) := line];
    }
    return Ok(Running(Projection(state, lastEvents, diagnostics)));
  }

  lemma {:induction false} DiedStaysDead(records: seq<Bytes>, registry: Registry, line: nat)
    requires ValidRegistry(registry)
    ensures ReplayRecords(Died, records, registry, line) == Died
    decreases |records|
  {
    if records != [] { DiedStaysDead(records[1..], registry, line + 1); }
  }
}
