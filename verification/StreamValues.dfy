/** What a replayed stream amounts to, said over its records alone: the value of every check, the line of its
    last event, and the diagnostics. */
module StreamValues {
  import opened Prelude
  import opened Utf8
  import opened JsonNumber
  import opened Json
  import opened JsonReader
  import opened JsonDepth
  import opened Framing
  import opened EventStream
  import opened StreamAppend
  import Base64

  // What one record asks for

  /** A record of spaces and tabs. */
  predicate HoldsNothing(record: Bytes) {
    forall b :: b in record ==> b as int in {0x20, 0x09}
  }

  lemma BlankIs(record: Bytes)
    ensures IsBlank(record) <==> HoldsNothing(record)
  {
    if HoldsNothing(record) {
      forall i | 0 <= i < |record| ensures record[i] == 0x09 || record[i] == 0x20 { assert record[i] in record; }
    }
  }

  /** The event of a record that holds one. */
  function EventOf(record: Bytes): Option<seq<Member>> {
    if !HoldsNothing(record) && DecodeRecord(record).Event? then Some(DecodeRecord(record).members) else None
  }

  predicate Names(event: seq<Member>, x: Text) {
    x != [] && Get(event, T("var")) == Some(Str(x))
  }

  const SET := T("set")
  const INC := T("inc")
  const DEC := T("dec")

  predicate Asks(event: seq<Member>, op: Text) {
    Get(event, T("op")) == Some(Str(op))
  }

  function Given(event: seq<Member>): Option<Json> {
    Get(event, T("value"))
  }

  /** The integer that an integer token stands for. */
  function IntegerIn(v: Option<Json>): Option<int> {
    if v.Some? && v.value.Number? && IsIntegerToken(v.value.lexeme) then Some(IntValue(v.value.lexeme)) else None
  }

  function TextIn(v: Option<Json>): Option<Text> {
    if v.Some? && v.value.Str? then Some(v.value.s) else None
  }

  /** The integer to which the event sets x. */
  function SetsTo(event: seq<Member>, x: Text): Option<int> {
    if Names(event, x) && Asks(event, SET) then IntegerIn(Given(event)) else None
  }

  /** By how much the event moves x in this direction: by one where it gives no value. */
  function MovesBy(event: seq<Member>, op: Text, x: Text): Option<int> {
    if !(Names(event, x) && Asks(event, op)) then None
    else if Given(event) == None then Some(1)
    else IntegerIn(Given(event))
  }

  /** The integer to which the record sets x. */
  function CounterSet(record: Bytes, x: Text): Option<int> {
    match EventOf(record)
    case None => None
    case Some(event) => SetsTo(event, x)
  }

  /** The string to which the record sets x. */
  function TextSet(record: Bytes, x: Text): Option<Text> {
    match EventOf(record)
    case None => None
    case Some(event) => if Names(event, x) && Asks(event, SET) then TextIn(Given(event)) else None
  }

  /** By how much the record moves x in this direction. */
  function Moved(record: Bytes, op: Text, x: Text): Option<int> {
    match EventOf(record)
    case None => None
    case Some(event) => MovesBy(event, op, x)
  }

  // The values over a whole stream

  function Total(records: seq<Bytes>, op: Text, x: Text): int {
    if records == [] then 0
    else
      var moved := Moved(records[|records| - 1], op, x);
      Total(records[..|records| - 1], op, x) + if moved.Some? then moved.value else 0
  }

  /** Record k is the last one that sets counter x. */
  predicate LastCounterSet(records: seq<Bytes>, x: Text, k: nat) {
    k < |records| && CounterSet(records[k], x).Some? && forall j :: k < j < |records| ==> CounterSet(records[j], x).None?
  }

  predicate LastTextSet(records: seq<Bytes>, x: Text, k: nat) {
    k < |records| && TextSet(records[k], x).Some? && forall j :: k < j < |records| ==> TextSet(records[j], x).None?
  }

  /** The value of counter x: what its last set says, or else its start, and the moves behind that. */
  predicate CounterIs(records: seq<Bytes>, x: Text, start: int, v: int) {
    && (forall k :: 0 <= k < |records| && LastCounterSet(records, x, k) ==>
          v == CounterSet(records[k], x).value + Total(records[k + 1..], INC, x) - Total(records[k + 1..], DEC, x))
    && ((forall k :: 0 <= k < |records| ==> CounterSet(records[k], x).None?) ==>
          v == start + Total(records, INC, x) - Total(records, DEC, x))
  }

  /** The value of text x: what its last set says, or else its start. */
  predicate TextIs(records: seq<Bytes>, x: Text, start: Text, v: Text) {
    && (forall k :: 0 <= k < |records| && LastTextSet(records, x, k) ==> v == TextSet(records[k], x).value)
    && ((forall k :: 0 <= k < |records| ==> TextSet(records[k], x).None?) ==> v == start)
  }

  // One record of a replay

  lemma OpsDiffer()
    ensures SET != INC && SET != DEC && INC != DEC
  {
    assert SET[0] == 0x73 && INC[0] == 0x69 && DEC[0] == 0x64;
  }

  function Amount(moved: Option<int>): int {
    if moved.Some? then moved.value else 0
  }

  /** A record that replay gets over leaves each counter where the record says. */
  lemma CounterStep(p: Projection, record: Bytes, registry: Registry, line: nat, x: Text)
    requires ValidRegistry(registry) && Typed(p.state, registry) && x in registry && registry[x].Counter?
    requires ReplayRecord(Running(p), record, registry, line).Running?
    ensures var after := ReplayRecord(Running(p), record, registry, line).p.state;
            && x in after && after[x].Count? && x in p.state && p.state[x].Count?
            && after[x].i == if CounterSet(record, x).Some? then CounterSet(record, x).value
                             else p.state[x].i + Amount(Moved(record, INC, x)) - Amount(Moved(record, DEC, x))
  {
    hide DecodeRecord, IsBlank, HoldsNothing, T, ApplyEvent, SetsTo, MovesBy, ValidRegistry;
    BlankIs(record);
    if EventOf(record).Some? { CounterApplied(p.state, EventOf(record).value, registry, x); }
  }

  /** What an event leaves a counter at. */
  lemma CounterApplied(state: State, event: seq<Member>, registry: Registry, x: Text)
    requires ValidRegistry(registry) && Typed(state, registry) && x in registry && registry[x].Counter?
    requires !ApplyEvent(state, event, registry).Aborted?
    ensures var applied := ApplyEvent(state, event, registry);
            var after := if applied.Updated? then applied.state else state;
            && x in after && after[x].Count? && x in state && state[x].Count?
            && after[x].i == if SetsTo(event, x).Some? then SetsTo(event, x).value
                             else state[x].i + Amount(MovesBy(event, INC, x)) - Amount(MovesBy(event, DEC, x))
  {
    hide T, IsIntegerToken, IntValue;
    OpsDiffer();
    assert x != [];
  }

  /** And each text. */
  lemma TextStep(p: Projection, record: Bytes, registry: Registry, line: nat, x: Text)
    requires ValidRegistry(registry) && Typed(p.state, registry) && x in registry && registry[x].TextCheck?
    requires ReplayRecord(Running(p), record, registry, line).Running?
    ensures var after := ReplayRecord(Running(p), record, registry, line).p.state;
            && x in after && after[x].Words? && x in p.state && p.state[x].Words?
            && after[x].t == if TextSet(record, x).Some? then TextSet(record, x).value else p.state[x].t
  {
    hide DecodeRecord, IsBlank, HoldsNothing, T;
    BlankIs(record);
    OpsDiffer();
    assert x != [];
  }

  lemma ReplayOfFront(p: Projection, records: seq<Bytes>, registry: Registry, line: nat)
    requires ValidRegistry(registry) && Typed(p.state, registry) && records != []
    requires ReplayRecords(Running(p), records, registry, line).Running?
    ensures var n := |records| - 1;
            && ReplayRecords(Running(p), records[..n], registry, line).Running?
            && ReplayRecords(Running(p), records, registry, line)
               == ReplayRecord(ReplayRecords(Running(p), records[..n], registry, line), records[n], registry, line + n)
  {
    hide ReplayRecord;
    var n := |records| - 1;
    assert records == records[..n] + [records[n]];
    ReplayAppends(Running(p), records[..n], records[n], registry, line);
    if ReplayRecords(Running(p), records[..n], registry, line).Died? { DeadStaysDead(records[n], registry, line + n); }
  }

  lemma DeadStaysDead(record: Bytes, registry: Registry, line: nat)
    requires ValidRegistry(registry)
    ensures ReplayRecord(Died, record, registry, line) == Died
  {
  }

  lemma CounterGrows(records: seq<Bytes>, x: Text, start: int, before: int, v: int)
    requires records != [] && CounterIs(records[..|records| - 1], x, start, before)
    requires var last := records[|records| - 1];
             v == if CounterSet(last, x).Some? then CounterSet(last, x).value
                  else before + Amount(Moved(last, INC, x)) - Amount(Moved(last, DEC, x))
    ensures CounterIs(records, x, start, v)
  {
    hide CounterSet, Moved, T, Total;
    var n := |records| - 1;
    var (front, last) := (records[..n], records[n]);
    assert forall k :: 0 <= k < n ==> front[k] == records[k];
    assert records[0..] == records && front[0..] == front;
    TotalBehind(records, INC, x, 0);
    TotalBehind(records, DEC, x, 0);
    forall k | 0 <= k < |records| && LastCounterSet(records, x, k)
      ensures v == CounterSet(records[k], x).value + Total(records[k + 1..], INC, x) - Total(records[k + 1..], DEC, x)
    {
      if k < n {
        assert LastCounterSet(front, x, k);
        TotalBehind(records, INC, x, k + 1);
        TotalBehind(records, DEC, x, k + 1);
      } else {
        assert records[k + 1..] == [];
        NothingMoved(INC, x);
        NothingMoved(DEC, x);
      }
    }
  }

  /** The last record's move comes on top of what stands before it, from any place on. */
  lemma TotalBehind(records: seq<Bytes>, op: Text, x: Text, k: nat)
    requires k < |records|
    ensures var n := |records| - 1;
            Total(records[k..], op, x) == Total(records[..n][k..], op, x) + Amount(Moved(records[n], op, x))
  {
    hide Moved;
    var n := |records| - 1;
    assert records[k..][..n - k] == records[..n][k..];
  }

  lemma NothingMoved(op: Text, x: Text)
    ensures Total([], op, x) == 0
  {
  }

  /** A counter's final value, for every typed start and every stream that replay gets through. */
  lemma {:induction false} CounterIsReplayed(p: Projection, records: seq<Bytes>, registry: Registry, line: nat, x: Text)
    requires ValidRegistry(registry) && Typed(p.state, registry) && x in registry && registry[x].Counter?
    requires ReplayRecords(Running(p), records, registry, line).Running?
    ensures var after := ReplayRecords(Running(p), records, registry, line).p.state;
            && x in after && after[x].Count? && x in p.state && p.state[x].Count?
            && CounterIs(records, x, p.state[x].i, after[x].i)
    decreases |records|
  {
    hide ReplayRecord, CounterIs, CounterSet, Moved, T;
    if records == [] {
      NothingCounted(x, p.state[x].i);
    } else {
      var n := |records| - 1;
      ReplayOfFront(p, records, registry, line);
      CounterIsReplayed(p, records[..n], registry, line, x);
      var before := ReplayRecords(Running(p), records[..n], registry, line).p;
      CounterStep(before, records[n], registry, line + n, x);
      CounterGrows(records, x, p.state[x].i, before.state[x].i, ReplayRecords(Running(p), records, registry, line).p.state[x].i);
    }
  }

  lemma NothingCounted(x: Text, start: int)
    ensures CounterIs([], x, start, start)
  {
  }

  lemma TextGrows(records: seq<Bytes>, x: Text, start: Text, before: Text, v: Text)
    requires records != [] && TextIs(records[..|records| - 1], x, start, before)
    requires var last := records[|records| - 1];
             v == if TextSet(last, x).Some? then TextSet(last, x).value else before
    ensures TextIs(records, x, start, v)
  {
    hide TextSet, T;
    var n := |records| - 1;
    var (front, last) := (records[..n], records[n]);
    assert forall k :: 0 <= k < n ==> front[k] == records[k];
    forall k | 0 <= k < |records| && LastTextSet(records, x, k) ensures v == TextSet(records[k], x).value {
      if k < n { assert LastTextSet(front, x, k); }
    }
  }

  /** And a text's. */
  lemma {:induction false} TextIsReplayed(p: Projection, records: seq<Bytes>, registry: Registry, line: nat, x: Text)
    requires ValidRegistry(registry) && Typed(p.state, registry) && x in registry && registry[x].TextCheck?
    requires ReplayRecords(Running(p), records, registry, line).Running?
    ensures var after := ReplayRecords(Running(p), records, registry, line).p.state;
            && x in after && after[x].Words? && x in p.state && p.state[x].Words?
            && TextIs(records, x, p.state[x].t, after[x].t)
    decreases |records|
  {
    hide ReplayRecord, TextIs, TextSet, T;
    if records == [] {
      NothingWritten(x, p.state[x].t);
    } else {
      var n := |records| - 1;
      ReplayOfFront(p, records, registry, line);
      TextIsReplayed(p, records[..n], registry, line, x);
      var before := ReplayRecords(Running(p), records[..n], registry, line).p;
      TextStep(before, records[n], registry, line + n, x);
      TextGrows(records, x, p.state[x].t, before.state[x].t, ReplayRecords(Running(p), records, registry, line).p.state[x].t);
    }
  }

  lemma NothingWritten(x: Text, start: Text)
    ensures TextIs([], x, start, start)
  {
  }

  // Which records are accepted, and what is said of the others

  /** The event is of a declared check and asks for something that its type allows. */
  predicate Allowed(event: seq<Member>, registry: Registry) {
    exists x :: x in registry && AllowedOn(event, x, registry[x])
  }

  predicate AllowedOn(event: seq<Member>, x: Text, declared: CheckType) {
    && Names(event, x)
    && ((declared.Counter? && Asks(event, SET) && IntegerIn(Given(event)).Some?)
        || (declared.Counter? && (Asks(event, INC) || Asks(event, DEC)) && (Given(event) == None || IntegerIn(Given(event)).Some?))
        || (declared.TextCheck? && Asks(event, SET) && TextIn(Given(event)).Some?))
  }

  /** The rule that a refused event breaks. */
  predicate Breaks(event: seq<Member>, registry: Registry, rule: string) {
    match rule
    case "declared-variable" => forall x :: x in registry ==> !Names(event, x)
    case "event-value" =>
      (exists x :: x in registry && Names(event, x)) && Asks(event, SET) && IntegerIn(Given(event)).None? && TextIn(Given(event)).None?
    case "counter-integer" =>
      (exists x :: x in registry && Names(event, x) && registry[x].Counter?) && Asks(event, SET) && TextIn(Given(event)).Some?
    case "text-string" =>
      (exists x :: x in registry && Names(event, x) && registry[x].TextCheck?) && Asks(event, SET) && IntegerIn(Given(event)).Some?
    case "counter-delta" =>
      && (Asks(event, INC) || Asks(event, DEC))
      && exists x :: x in registry && Names(event, x)
                   && (registry[x].TextCheck? || (Given(event) != None && IntegerIn(Given(event)).None?))
    case "event-operation" =>
      && (exists x :: x in registry && Names(event, x))
      && !Asks(event, SET) && !Asks(event, INC) && !Asks(event, DEC) && !Unhashable(Get(event, T("op")))
    case _ => false
  }

  lemma RuleIsBroken(state: State, event: seq<Member>, registry: Registry, x: Text, rule: string)
    requires ValidRegistry(registry) && Typed(state, registry) && x in registry && Names(event, x)
    ensures ApplyEvent(state, event, registry) == Rejected(rule) <==> Breaks(event, registry, rule)
  {
    hide T, IsIntegerToken, IntValue, Typed;
    OpsDiffer();
    OneName(event, x);
  }

  lemma OneName(event: seq<Member>, x: Text)
    requires Names(event, x)
    ensures forall y :: Names(event, y) <==> y == x
  {
  }

  lemma EventIsAllowed(state: State, event: seq<Member>, registry: Registry, x: Text)
    requires ValidRegistry(registry) && Typed(state, registry) && x in registry && Names(event, x)
    ensures ApplyEvent(state, event, registry).Updated? <==> Allowed(event, registry)
    ensures ApplyEvent(state, event, registry).Aborted? <==> Unhashable(Get(event, T("op")))
  {
    hide T, IsIntegerToken, IntValue, Typed;
    OpsDiffer();
    OneName(event, x);
    assert Allowed(event, registry) <==> AllowedOn(event, x, registry[x]);
  }

  lemma NothingIsNamed(state: State, event: seq<Member>, registry: Registry, rule: string)
    requires ValidRegistry(registry) && Typed(state, registry) && forall x :: x in registry ==> !Names(event, x)
    ensures ApplyEvent(state, event, registry) == Rejected("declared-variable")
    ensures !Allowed(event, registry) && (Breaks(event, registry, rule) <==> rule == "declared-variable")
  {
    hide T, IsIntegerToken, IntValue, Typed;
    NamedIsName(event);
  }

  lemma NamedIsName(event: seq<Member>)
    ensures var name := Get(event, T("var"));
            name.Some? && name.value.Str? && name.value.s != [] ==> Names(event, name.value.s)
  {
  }

  /** Each event is accepted exactly when it is allowed, refused under a rule exactly when it breaks that rule, and
      ends the replay exactly when its operation on a declared check is an array or an object. */
  lemma VerdictExactly(state: State, event: seq<Member>, registry: Registry, rule: string)
    requires ValidRegistry(registry) && Typed(state, registry)
    ensures ApplyEvent(state, event, registry).Updated? <==> Allowed(event, registry)
    ensures ApplyEvent(state, event, registry) == Rejected(rule) <==> Breaks(event, registry, rule)
    ensures ApplyEvent(state, event, registry).Aborted? <==>
      (exists x :: x in registry && Names(event, x)) && Unhashable(Get(event, T("op")))
  {
    hide T, ApplyEvent, Allowed, Breaks, Names, ValidRegistry, Typed;
    if x :| x in registry && Names(event, x) {
      RuleIsBroken(state, event, registry, x, rule);
      EventIsAllowed(state, event, registry, x);
    } else {
      NothingIsNamed(state, event, registry, rule);
    }
  }

  /** What becomes of a record before its event is looked at: the depth bound, UTF-8, JSON and the object, in
      this order and under these codes. */
  lemma DecodedExactly(record: Bytes, code: string, rule: string, members: seq<Member>)
    ensures var deep := Exceeds(record, 64);
            var text := Decode(record);
            && (DecodeRecord(record) == Undecodable(code, rule) <==>
                  || (deep && code == "patchwork_check_event_invalid" && rule == "record-depth-64")
                  || (!deep && text.None? && code == "ingestion_invalid" && rule == "utf8")
                  || (!deep && text.Some? && ReadText(text.value).Err? && code == "ingestion_invalid" && rule == "json-record")
                  || (!deep && text.Some? && ReadText(text.value).Ok? && !ReadText(text.value).value.Obj?
                      && code == "patchwork_check_event_invalid" && rule == "record-object"))
            && (DecodeRecord(record) == Event(members) <==>
                  !deep && text.Some? && ReadText(text.value) == Ok(Obj(members)))
  {
    hide Exceeds, Decode, ReadText;
  }

  /** The record holds something, and it is refused under this code and rule. */
  predicate Refused(record: Bytes, registry: Registry, code: string, rule: string) {
    && !HoldsNothing(record)
    && (DecodeRecord(record) == Undecodable(code, rule)
        || (code == "patchwork_check_event_invalid" && DecodeRecord(record).Event?
            && Breaks(DecodeRecord(record).members, registry, rule)))
  }

  predicate AcceptedFor(record: Bytes, registry: Registry, x: Text) {
    EventOf(record).Some? && x in registry && AllowedOn(EventOf(record).value, x, registry[x])
  }

  // Diagnostics and last events over a whole stream

  /** The diagnostics name exactly the refused records, by line and with their code and rule, in line order. */
  predicate DiagnosticsAre(records: seq<Bytes>, registry: Registry, line: nat, diagnostics: seq<Diagnostic>) {
    && (forall i, j :: 0 <= i < j < |diagnostics| ==> diagnostics[i].line < diagnostics[j].line)
    && (forall i :: 0 <= i < |diagnostics| ==>
          && line <= diagnostics[i].line < line + |records|
          && Refused(records[diagnostics[i].line - line], registry, diagnostics[i].code, diagnostics[i].rule))
    && forall k :: 0 <= k < |records| ==> (NamedAt(diagnostics, line + k) <==> IsRefused(records[k], registry))
  }

  predicate NamedAt(diagnostics: seq<Diagnostic>, line: nat) {
    exists i :: 0 <= i < |diagnostics| && diagnostics[i].line == line
  }

  /** The record is neither blank nor accepted. */
  predicate IsRefused(record: Bytes, registry: Registry) {
    !HoldsNothing(record) && (DecodeRecord(record).Event? ==> !Allowed(DecodeRecord(record).members, registry))
  }

  /** The last event of x is on the line of the last record that was accepted for it. */
  predicate LastEventIs(records: seq<Bytes>, registry: Registry, line: nat, x: Text, last: Option<nat>) {
    match last
    case None => forall k :: 0 <= k < |records| ==> !AcceptedFor(records[k], registry, x)
    case Some(at) =>
      && line <= at < line + |records| && AcceptedFor(records[at - line], registry, x)
      && forall k :: at - line < k < |records| ==> !AcceptedFor(records[k], registry, x)
  }

  function LastEventOf(p: Projection, x: Text): Option<nat> {
    if x in p.lastEvents then Some(p.lastEvents[x]) else None
  }

  /** What one more record does to the diagnostics. */
  ghost predicate OneMoreDiagnosed(record: Bytes, registry: Registry, at: nat, before: seq<Diagnostic>, after: seq<Diagnostic>) {
    if IsRefused(record, registry) then
      exists d: Diagnostic :: after == before + [d] && d.line == at && Refused(record, registry, d.code, d.rule)
    else after == before
  }

  /** What one record adds to the diagnostics and the last events. */
  lemma RecordStep(p: Projection, record: Bytes, registry: Registry, line: nat, x: Text)
    requires ValidRegistry(registry) && Typed(p.state, registry)
    requires ReplayRecord(Running(p), record, registry, line).Running?
    ensures var after := ReplayRecord(Running(p), record, registry, line).p;
            && LastEventOf(after, x) == (if AcceptedFor(record, registry, x) then Some(line) else LastEventOf(p, x))
            && OneMoreDiagnosed(record, registry, line, p.diagnostics, after.diagnostics)
  {
    hide DecodeRecord, IsBlank, HoldsNothing, ApplyEvent, Breaks, AllowedOn, T;
    BlankIs(record);
    if !IsBlank(record) && DecodeRecord(record).Event? {
      var event := DecodeRecord(record).members;
      var applied := ApplyEvent(p.state, event, registry);
      VerdictExactly(p.state, event, registry, if applied.Rejected? then applied.rule else "");
      TargetIsNamed(event, registry, x);
    }
  }

  lemma TargetIsNamed(event: seq<Member>, registry: Registry, x: Text)
    ensures Allowed(event, registry) ==>
      (Target(event) == x <==> x in registry && AllowedOn(event, x, registry[x]))
    ensures !Allowed(event, registry) ==> !(x in registry && AllowedOn(event, x, registry[x]))
  {
    hide T, IsIntegerToken, IntValue;
    if Allowed(event, registry) {
      var y :| y in registry && AllowedOn(event, y, registry[y]);
      assert Target(event) == y;
    }
  }

  lemma NamesGrow(records: seq<Bytes>, registry: Registry, line: nat, before: seq<Diagnostic>, after: seq<Diagnostic>, k: nat)
    requires records != [] && DiagnosticsAre(records[..|records| - 1], registry, line, before) && k < |records|
    requires OneMoreDiagnosed(records[|records| - 1], registry, line + |records| - 1, before, after)
    ensures NamedAt(after, line + k) <==> IsRefused(records[k], registry)
  {
    hide Refused, IsRefused;
    var n := |records| - 1;
    if k < n {
      assert records[..n][k] == records[k];
      assert NamedAt(before, line + k) <==> IsRefused(records[k], registry);
      if i :| 0 <= i < |before| && before[i].line == line + k { assert after[i].line == line + k; }
      if i :| 0 <= i < |after| && after[i].line == line + k { assert before[i].line == line + k; }
    } else if IsRefused(records[n], registry) {
      assert after[|before|].line == line + n;
    } else {
      assert forall i :: 0 <= i < |before| ==> before[i].line < line + n;
    }
  }

  lemma DiagnosticsGrow(records: seq<Bytes>, registry: Registry, line: nat, before: seq<Diagnostic>, after: seq<Diagnostic>)
    requires records != [] && DiagnosticsAre(records[..|records| - 1], registry, line, before)
    requires OneMoreDiagnosed(records[|records| - 1], registry, line + |records| - 1, before, after)
    ensures DiagnosticsAre(records, registry, line, after)
  {
    hide Refused, IsRefused, NamedAt;
    var n := |records| - 1;
    var front := records[..n];
    forall k | 0 <= k < |records| ensures NamedAt(after, line + k) <==> IsRefused(records[k], registry) {
      NamesGrow(records, registry, line, before, after, k);
    }
    forall i | 0 <= i < |after|
      ensures line <= after[i].line < line + |records|
           && Refused(records[after[i].line - line], registry, after[i].code, after[i].rule)
    {
      if i < |before| {
        assert after[i] == before[i];
        assert front[before[i].line - line] == records[before[i].line - line];
      }
    }
  }

  lemma LastEventGrows(records: seq<Bytes>, registry: Registry, line: nat, x: Text, before: Option<nat>)
    requires records != [] && LastEventIs(records[..|records| - 1], registry, line, x, before)
    ensures var n := |records| - 1;
            LastEventIs(records, registry, line, x, if AcceptedFor(records[n], registry, x) then Some(line + n) else before)
  {
    hide AcceptedFor;
    var front := records[..|records| - 1];
    assert forall k :: 0 <= k < |front| ==> front[k] == records[k];
  }

  lemma {:induction false} RecordsAreTold(p: Projection, records: seq<Bytes>, registry: Registry, line: nat, x: Text)
    requires ValidRegistry(registry) && Typed(p.state, registry) && p.lastEvents == map[] && p.diagnostics == []
    requires ReplayRecords(Running(p), records, registry, line).Running?
    ensures var after := ReplayRecords(Running(p), records, registry, line).p;
            DiagnosticsAre(records, registry, line, after.diagnostics) && LastEventIs(records, registry, line, x, LastEventOf(after, x))
    decreases |records|
  {
    hide ReplayRecord, Refused, IsRefused, AcceptedFor, DiagnosticsAre, LastEventIs;
    if records == [] {
      NothingTold(registry, line, x);
    } else {
      var n := |records| - 1;
      ReplayOfFront(p, records, registry, line);
      RecordsAreTold(p, records[..n], registry, line, x);
      var before := ReplayRecords(Running(p), records[..n], registry, line).p;
      var after := ReplayRecords(Running(p), records, registry, line).p;
      RecordStep(before, records[n], registry, line + n, x);
      DiagnosticsGrow(records, registry, line, before.diagnostics, after.diagnostics);
      LastEventGrows(records, registry, line, x, LastEventOf(before, x));
    }
  }

  lemma NothingTold(registry: Registry, line: nat, x: Text)
    ensures DiagnosticsAre([], registry, line, []) && LastEventIs([], registry, line, x, None)
  {
  }

  // The replay of a body

  /** Where x starts: at the caller's value, or else at zero or the empty string. */
  function StartOf(registry: Registry, initial: Option<map<Text, HostValue>>, x: Text): CheckValue
    requires x in registry
  {
    if initial.Some? && x in initial.value && initial.value[x].Given? then initial.value[x].v
    else if registry[x].Counter? then Count(0)
    else Words([])
  }

  lemma InitialStateExactly(registry: Registry, initial: Option<map<Text, HostValue>>, x: Text)
    requires x in registry
    ensures InitialState(registry, initial).Err? <==>
      && initial.Some?
      && (exists y :: y in initial.value
                   && (y !in registry || initial.value[y].Neither? || (registry[y].Counter? && initial.value[y].v.Words?)
                       || (registry[y].TextCheck? && initial.value[y].v.Count?)))
    ensures InitialState(registry, initial).Ok? ==>
      x in InitialState(registry, initial).value && InitialState(registry, initial).value[x] == StartOf(registry, initial, x)
  {
  }

  /** A replay that gets to its end, for every body, registry and initial state: each counter and text has the value
      that its records give it, each last event is the last accepted one, and the diagnostics name exactly the
      refused records. */
  lemma ReplayMeans(body: Body, registry: Registry, initial: Option<map<Text, HostValue>>, x: Text)
    requires Replay(body, registry, initial).Ok? && Replay(body, registry, initial).value.Running?
    ensures DecodeRawStream(body).Ok?
    ensures var (p, records) := (Replay(body, registry, initial).value.p, Records(DecodeRawStream(body).value));
            && p.state.Keys == registry.Keys
            && DiagnosticsAre(records, registry, 1, p.diagnostics)
            && LastEventIs(records, registry, 1, x, LastEventOf(p, x))
            && (x in registry ==>
                  match registry[x]
                  case Counter => && StartOf(registry, initial, x).Count? && p.state[x].Count?
                                  && CounterIs(records, x, StartOf(registry, initial, x).i, p.state[x].i)
                  case TextCheck => && StartOf(registry, initial, x).Words? && p.state[x].Words?
                                    && TextIs(records, x, StartOf(registry, initial, x).t, p.state[x].t)
                  case UnknownCheck => false)
  {
    hide ReplayRecords, Records, DecodeRawStream, DiagnosticsAre, LastEventIs, CounterIs, TextIs;
    InitialStateIsTyped(registry, initial);
    var start := Projection(InitialState(registry, initial).value, map[], []);
    var records := Records(DecodeRawStream(body).value);
    RecordsAreTold(start, records, registry, 1, x);
    if x in registry {
      InitialStateExactly(registry, initial, x);
      if registry[x].Counter? { CounterIsReplayed(start, records, registry, 1, x); }
      if registry[x].TextCheck? { TextIsReplayed(start, records, registry, 1, x); }
    }
  }

  // What an append asks of its record

  /** The record may be added to the stream: the longer stream fits, and its event is allowed. */
  predicate Appendable(prior: Bytes, clean: Bytes, registry: Registry) {
    && |Appended(prior, clean)| <= MAX_RAW_STREAM_BYTES
    && DecodeRecord(clean).Event? && Allowed(DecodeRecord(clean).members, registry)
  }

  /** Why a record may not: in this order. */
  function Refusal(prior: Bytes, clean: Bytes, registry: Registry): Failure
    requires !Appendable(prior, clean, registry)
  {
    if |Appended(prior, clean)| > MAX_RAW_STREAM_BYTES then Failure("INPUT_LIMIT", "/body/raw_stream_base64")
    else if DecodeRecord(clean).Undecodable? then Failure(DecodeRecord(clean).code, "/record")
    else if (exists x :: x in registry && Names(DecodeRecord(clean).members, x))
            && Unhashable(Get(DecodeRecord(clean).members, T("op"))) then HostTypeError
    else Failure("SCHEMA_VALIDATION", "/record")
  }

  lemma CheckRecordExactly(prior: Bytes, clean: Bytes, registry: Registry)
    requires ValidRegistry(registry)
    ensures CheckRecord(prior, clean, registry).None? <==> Appendable(prior, clean, registry)
    ensures !Appendable(prior, clean, registry) ==> CheckRecord(prior, clean, registry) == Some(Refusal(prior, clean, registry))
  {
    hide DecodeRecord, ApplyEvent, Allowed, Unhashable, Breaks, T;
    if DecodeRecord(clean).Event? {
      var event := DecodeRecord(clean).members;
      VerdictExactly(Defaults(registry), event, registry, "");
    }
  }

  /** An append to a decodable body succeeds exactly for a candidate of one nonblank record whose event is allowed
      and with which the stream still fits in 4 MiB; it adds that record and keeps the anchors. */
  lemma AppendSucceedsExactly(body: Body, candidate: Bytes, registry: Registry)
    requires DecodeRawStream(body).Ok? && ValidRegistry(registry)
    ensures ClosedBody(body) && body["source_oid"].TextField? && body["source_path"].TextField?
    ensures var prior := DecodeRawStream(body).value;
            && (PrepareAppend(body, candidate, registry).Ok? <==>
                  |Records(candidate)| == 1 && !HoldsNothing(Records(candidate)[0]) && Appendable(prior, Records(candidate)[0], registry))
            && (PrepareAppend(body, candidate, registry).Ok? ==>
                  && PrepareAppend(body, candidate, registry).value.raw == Appended(prior, Records(candidate)[0])
                  && PrepareAppend(body, candidate, registry).value.body
                     == MakeBody(Base64.Encode(Appended(prior, Records(candidate)[0])), body["source_oid"].t, body["source_path"].t))
            && (PrepareAppend(body, candidate, registry).Err? ==>
                  PrepareAppend(body, candidate, registry).error ==
                    if |candidate| > 4194304 - |prior| - |Separator(prior)| + 1 then Failure("INPUT_LIMIT", "/body/raw_stream_base64")
                    else if |Records(candidate)| != 1 || HoldsNothing(Records(candidate)[0]) then Failure("SCHEMA_VALIDATION", "/record")
                    else Refusal(prior, Records(candidate)[0], registry))
  {
    hide DecodeRecord, Allowed, Records, IsBlank, HoldsNothing, CheckRecord, Appendable;
    if Records(candidate) != [] { BlankIs(Records(candidate)[0]); }
    AppendAcceptsExactly(body, candidate, registry);
    BodyInvertsDecode(body);
    if OnlyRecord(candidate).Some? { CheckRecordExactly(DecodeRawStream(body).value, OnlyRecord(candidate).value, registry); }
  }
}
