/** Recorded checks of a contributor's session: how call rows, output rows and the cells that outputs
    leave running are put together, one row at a time. */
module Rollout {
  import opened Prelude
  import opened Utf8

  datatype Family = Custom | Function

  /** A call by what it asks for: a command that is a check, more output of a cell, or anything else. */
  datatype Tool = Exec(command: Text) | Wait(cell: Text) | OtherTool

  datatype Row = Call(family: Family, id: Text, tool: Tool) | Output(family: Family, id: Text, text: Text) | OtherRow

  /** How an output is read: the cell it leaves running, empty when none, and its outcome lines. */
  datatype Reading = Reading(running: Text -> Text, outcome: Text -> seq<Text>)

  datatype Held = Held(sequence: nat, family: Family, tool: Tool)

  /** A call row and the output row it was given. */
  datatype Pair = Pair(call: nat, output: nat)

  datatype Record = Record(sequence: nat, command: Text, outputs: seq<Text>, pairs: seq<Pair>)

  datatype Check = Check(sequence: nat, command: Text, lines: seq<Text>, pairs: seq<Pair>)

  datatype State = State(
    pending: map<Text, Held>, ambiguous: set<Text>, custom: seq<Held>, function_: seq<Held>,
    cells: map<Text, Record>, ambiguousCells: set<Text>, checks: seq<Check>
  )

  const START := State(map[], {}, [], [], map[], {}, [])

  function Queue(st: State, f: Family): seq<Held> {
    if f.Custom? then st.custom else st.function_
  }

  function WithQueue(st: State, f: Family, q: seq<Held>): State {
    if f.Custom? then st.(custom := q) else st.(function_ := q)
  }

  // One row

  function AddCall(st: State, n: nat, f: Family, id: Text, tool: Tool): State {
    var held := Held(n, f, tool);
    if id == [] then WithQueue(st, f, Queue(st, f) + [held])
    else if id in st.pending || id in st.ambiguous then
      st.(pending := st.pending - {id}, ambiguous := st.ambiguous + {id})
    else st.(pending := st.pending[id := held])
  }

  /** The call that an output takes, if any, and what is left. */
  function TakeCall(st: State, f: Family, id: Text): (Option<Held>, State) {
    if id != [] then
      if id in st.ambiguous || id !in st.pending then (None, st)
      else
        var held := st.pending[id];
        (if held.family == f then Some(held) else None, st.(pending := st.pending - {id}))
    else if Queue(st, f) == [] then (None, st)
    else
      var held := Queue(st, f)[0];
      (if held.family == f then Some(held) else None, WithQueue(st, f, Queue(st, f)[1..]))
  }

  function Lines(reading: Reading, outputs: seq<Text>): seq<Text> {
    if outputs == [] then [] else Lines(reading, outputs[..|outputs| - 1]) + reading.outcome(outputs[|outputs| - 1])
  }

  /** `_finish_check`. */
  function Finish(reading: Reading, st: State, r: Record): State {
    var lines := Lines(reading, r.outputs);
    if lines == [] then st else st.(checks := st.checks + [Check(r.sequence, r.command, lines, r.pairs)])
  }

  /** `_consume_tool_pair`. */
  function Consume(reading: Reading, st: State, held: Held, n: nat, text: Text): State {
    var running := reading.running(text);
    match held.tool
    case OtherTool => st
    case Wait(cell) =>
      if cell == [] || cell !in st.cells then st
      else
        var r := st.cells[cell];
        var more := r.(outputs := r.outputs + [text], pairs := r.pairs + [Pair(held.sequence, n)]);
        if running == cell then st.(cells := st.cells[cell := more])
        else if running != [] then st.(cells := st.cells - {cell}, ambiguousCells := st.ambiguousCells + {cell})
        else Finish(reading, st.(cells := st.cells - {cell}), more)
    case Exec(command) =>
      var r := Record(held.sequence, command, [text], [Pair(held.sequence, n)]);
      if running == [] then Finish(reading, st, r)
      else if running in st.cells || running in st.ambiguousCells then
        st.(cells := st.cells - {running}, ambiguousCells := st.ambiguousCells + {running})
      else st.(cells := st.cells[running := r])
  }

  function Step(reading: Reading, st: State, n: nat, row: Row): State {
    match row
    case OtherRow => st
    case Call(f, id, tool) => AddCall(st, n, f, id, tool)
    case Output(f, id, text) =>
      var (held, rest) := TakeCall(st, f, id);
      if held.None? then rest else Consume(reading, rest, held.value, n, text)
  }

  function After(reading: Reading, rows: seq<Row>, n: nat): State
    requires n <= |rows|
  {
    if n == 0 then START else Step(reading, After(reading, rows, n - 1), n - 1, rows[n - 1])
  }

  // The scan as it runs

  method ConsumePair(reading: Reading, st: State, held: Held, n: nat, text: Text) returns (after: State)
    ensures after == Consume(reading, st, held, n, text)
  {
    after := st;
    var running := reading.running(text);
    match held.tool {
      case OtherTool =>
      case Wait(cell) =>
        if cell == [] || cell !in st.cells { return; }
        var active := st.cells[cell];
        active := active.(outputs := active.outputs + [text], pairs := active.pairs + [Pair(held.sequence, n)]);
        if running == cell {
          after := after.(cells := after.cells[cell := active]);
          return;
        }
        after := after.(cells := after.cells - {cell});
        if running != [] {
          after := after.(ambiguousCells := after.ambiguousCells + {cell});
          return;
        }
        after := Finish(reading, after, active);
      case Exec(command) =>
        var r := Record(held.sequence, command, [text], [Pair(held.sequence, n)]);
        if running == [] {
          after := Finish(reading, after, r);
        } else if running in st.cells || running in st.ambiguousCells {
          after := after.(cells := after.cells - {running}, ambiguousCells := after.ambiguousCells + {running});
        } else {
          after := after.(cells := after.cells[running := r]);
        }
    }
  }

  /** `_extract_rollout`: the rows in order, and the checks by sequence at the end. */
  method Extract(reading: Reading, rows: seq<Row>) returns (checks: seq<Check>)
    ensures checks == SortChecks(After(reading, rows, |rows|).checks)
  {
    hide Consume;
    var st := START;
    for n := 0 to |rows|
      invariant st == After(reading, rows, n)
    {
      match rows[n] {
        case OtherRow =>
        case Call(family, id, tool) =>
          var call := Held(n, family, tool);
          if id != [] {
            if id in st.pending || id in st.ambiguous {
              st := st.(pending := st.pending - {id}, ambiguous := st.ambiguous + {id});
            } else {
              st := st.(pending := st.pending[id := call]);
            }
          } else {
            st := WithQueue(st, family, Queue(st, family) + [call]);
          }
        case Output(family, id, text) =>
          var call: Option<Held> := None;
          if id != [] && id !in st.ambiguous && id in st.pending {
            call := Some(st.pending[id]);
            st := st.(pending := st.pending - {id});
          }
          if call.None? && id == [] && Queue(st, family) != [] {
            call := Some(Queue(st, family)[0]);
            st := WithQueue(st, family, Queue(st, family)[1..]);
          }
          if call.None? || call.value.family != family {
            continue;
          }
          st := ConsumePair(reading, st, call.value, n, text);
      }
    }
    checks := SortChecks(st.checks);
  }

  function InsertCheck(c: Check, sorted: seq<Check>): seq<Check> {
    if sorted == [] || c.sequence <= sorted[0].sequence then [c] + sorted
    else [sorted[0]] + InsertCheck(c, sorted[1..])
  }

  /** `checks.sort(key=sequence)`. */
  function SortChecks(checks: seq<Check>): seq<Check> {
    if checks == [] then [] else InsertCheck(checks[0], SortChecks(checks[1..]))
  }

  // What a call id and a queue are doing, row by row

  /** One call id on its own: not in use, open since a row, or reopened while it was open. */
  datatype Status = Idle | Open(at: nat) | Reopened

  function StatusOf(rows: seq<Row>, n: nat, id: Text): Status
    requires n <= |rows|
  {
    if n == 0 then Idle
    else
      var before := StatusOf(rows, n - 1, id);
      match rows[n - 1]
      case OtherRow => before
      case Call(_, other, _) => if other != id then before else if before.Idle? then Open(n - 1) else Reopened
      case Output(_, other, _) => if other == id && before.Open? then Idle else before
  }

  /** The anonymous calls of a family, in order. */
  function Anonymous(rows: seq<Row>, n: nat, f: Family): seq<Held>
    requires n <= |rows|
  {
    if n == 0 then []
    else
      Anonymous(rows, n - 1, f)
      + if rows[n - 1].Call? && rows[n - 1].id == [] && rows[n - 1].family == f then [Held(n - 1, f, rows[n - 1].tool)] else []
  }

  /** How many of them outputs have taken: each anonymous output takes the next one there is. */
  function Taken(rows: seq<Row>, n: nat, f: Family): (k: nat)
    requires n <= |rows|
    ensures k <= |Anonymous(rows, n, f)|
  {
    if n == 0 then 0
    else
      var before := Taken(rows, n - 1, f);
      if rows[n - 1].Output? && rows[n - 1].id == [] && rows[n - 1].family == f && before < |Anonymous(rows, n - 1, f)| then
        before + 1
      else before
  }

  /** The output is the call's own: same family and id, with the id open since the call, or the call
      first in its family's queue when both are anonymous. */
  predicate Paired(rows: seq<Row>, p: Pair) {
    && p.call < p.output < |rows|
    && rows[p.call].Call? && rows[p.output].Output?
    && rows[p.call].family == rows[p.output].family && rows[p.call].id == rows[p.output].id
    && var (f, id) := (rows[p.output].family, rows[p.output].id);
    if id != [] then StatusOf(rows, p.output, id) == Open(p.call)
    else
      && Taken(rows, p.output, f) < |Anonymous(rows, p.output, f)|
      && Anonymous(rows, p.output, f)[Taken(rows, p.output, f)].sequence == p.call
  }

  predicate IsHeld(rows: seq<Row>, n: nat, h: Held, id: Text) {
    h.sequence < n <= |rows| && rows[h.sequence] == Call(h.family, id, h.tool)
  }

  /** The dictionaries hold what the ids and queues are doing. */
  ghost predicate Tracks(rows: seq<Row>, n: nat, st: State)
    requires n <= |rows|
  {
    && [] !in st.pending && [] !in st.ambiguous
    && (forall id :: id != [] ==> TracksId(rows, n, st, id))
    && Queue(st, Custom) == Anonymous(rows, n, Custom)[Taken(rows, n, Custom)..]
    && Queue(st, Function) == Anonymous(rows, n, Function)[Taken(rows, n, Function)..]
  }

  predicate TracksId(rows: seq<Row>, n: nat, st: State, id: Text)
    requires n <= |rows|
  {
    match StatusOf(rows, n, id)
    case Idle => id !in st.pending && id !in st.ambiguous
    case Open(at) => id in st.pending && id !in st.ambiguous && st.pending[id].sequence == at && IsHeld(rows, n, st.pending[id], id)
    case Reopened => id !in st.pending && id in st.ambiguous
  }

  lemma {:induction false} AnonymousAre(rows: seq<Row>, n: nat, f: Family, k: nat)
    requires n <= |rows| && k < |Anonymous(rows, n, f)|
    ensures IsHeld(rows, n, Anonymous(rows, n, f)[k], []) && Anonymous(rows, n, f)[k].family == f
    decreases n
  {
    if k < |Anonymous(rows, n - 1, f)| { AnonymousAre(rows, n - 1, f, k); }
  }

  lemma ConsumeKeepsCalls(reading: Reading, st: State, held: Held, n: nat, text: Text)
    ensures var after := Consume(reading, st, held, n, text);
            && after.pending == st.pending && after.ambiguous == st.ambiguous
            && after.custom == st.custom && after.function_ == st.function_
  {
  }

  lemma SameTracks(rows: seq<Row>, n: nat, st: State, after: State)
    requires n <= |rows| && Tracks(rows, n, st)
    requires after.pending == st.pending && after.ambiguous == st.ambiguous
    requires after.custom == st.custom && after.function_ == st.function_
    ensures Tracks(rows, n, after)
  {
    hide StatusOf, Anonymous, Taken, IsHeld;
    forall id | id != [] ensures TracksId(rows, n, after, id) { assert TracksId(rows, n, st, id); }
  }

  lemma TracksIdStep(rows: seq<Row>, n: nat, st: State, after: State, id: Text)
    requires n < |rows| && id != [] && TracksId(rows, n, st, id)
    requires rows[n].OtherRow? ==> after == st
    requires rows[n].Call? ==> after == AddCall(st, n, rows[n].family, rows[n].id, rows[n].tool)
    requires rows[n].Output? ==> after == TakeCall(st, rows[n].family, rows[n].id).1
    ensures TracksId(rows, n + 1, after, id)
  {
    hide Anonymous, Taken;
  }

  lemma QueueStep(rows: seq<Row>, n: nat, st: State, after: State, f: Family)
    requires n < |rows| && Queue(st, f) == Anonymous(rows, n, f)[Taken(rows, n, f)..]
    requires rows[n].OtherRow? ==> after == st
    requires rows[n].Call? ==> after == AddCall(st, n, rows[n].family, rows[n].id, rows[n].tool)
    requires rows[n].Output? ==> after == TakeCall(st, rows[n].family, rows[n].id).1
    ensures Queue(after, f) == Anonymous(rows, n + 1, f)[Taken(rows, n + 1, f)..]
  {
    var (calls, k) := (Anonymous(rows, n, f), Taken(rows, n, f));
    if rows[n].Call? && rows[n].id == [] && rows[n].family == f {
      assert (calls + [Held(n, f, rows[n].tool)])[k..] == calls[k..] + [Held(n, f, rows[n].tool)];
    }
    assert Anonymous(rows, n + 1, f) == calls || rows[n].Call?;
  }

  /** The state of the calls after one row, before an output's text is looked at. */
  function Called(st: State, n: nat, row: Row): State {
    match row
    case OtherRow => st
    case Call(f, id, tool) => AddCall(st, n, f, id, tool)
    case Output(f, id, _) => TakeCall(st, f, id).1
  }

  lemma CalledTracks(rows: seq<Row>, n: nat, st: State)
    requires n < |rows| && Tracks(rows, n, st)
    ensures Tracks(rows, n + 1, Called(st, n, rows[n]))
  {
    hide StatusOf, Anonymous, Taken, IsHeld, TracksId;
    var after := Called(st, n, rows[n]);
    var next := n + 1;
    forall id | id != [] ensures TracksId(rows, next, after, id) { TracksIdStep(rows, n, st, after, id); }
    QueueStep(rows, n, st, after, Custom);
    QueueStep(rows, n, st, after, Function);
  }

  lemma {:induction false} DictionariesTrack(reading: Reading, rows: seq<Row>, n: nat)
    requires n <= |rows|
    ensures Tracks(rows, n, After(reading, rows, n))
  {
    hide Consume, TracksId, AddCall, TakeCall;
    if n == 0 {
      StartTracks(rows);
    } else {
      DictionariesTrack(reading, rows, n - 1);
      var st := After(reading, rows, n - 1);
      CalledTracks(rows, n - 1, st);
      var called := Called(st, n - 1, rows[n - 1]);
      if rows[n - 1].Output? && TakeCall(st, rows[n - 1].family, rows[n - 1].id).0.Some? {
        ConsumeKeepsCalls(reading, called, TakeCall(st, rows[n - 1].family, rows[n - 1].id).0.value, n - 1, rows[n - 1].text);
        SameTracks(rows, n, called, After(reading, rows, n));
      }
    }
  }

  lemma StartTracks(rows: seq<Row>)
    ensures Tracks(rows, 0, START)
  {
  }

  /** What an output takes is its own call. */
  lemma TakenIsPaired(rows: seq<Row>, n: nat, st: State)
    requires n < |rows| && Tracks(rows, n, st) && rows[n].Output?
    requires TakeCall(st, rows[n].family, rows[n].id).0.Some?
    ensures var held := TakeCall(st, rows[n].family, rows[n].id).0.value;
            Paired(rows, Pair(held.sequence, n)) && IsCallFor(rows, held.sequence, held.tool)
  {
    hide StatusOf, Anonymous, Taken;
    var (f, id) := (rows[n].family, rows[n].id);
    if id != [] {
      assert TracksId(rows, n, st, id);
    } else {
      assert Queue(st, f) == Anonymous(rows, n, f)[Taken(rows, n, f)..];
      AnonymousAre(rows, n, f, Taken(rows, n, f));
    }
  }

  // One output, one call, one check

  lemma {:induction false} OpenSince(rows: seq<Row>, n: nat, id: Text, k: nat)
    requires n <= |rows| && StatusOf(rows, n, id).Open? && StatusOf(rows, n, id).at < k < n
    ensures rows[k].OtherRow? || rows[k].id != id
    decreases n
  {
    if k < n - 1 { OpenSince(rows, n - 1, id, k); }
  }

  /** Once an id is reopened while open, nothing is ever paired under it again. */
  lemma {:induction false} ReopenedForever(rows: seq<Row>, m: nat, n: nat, id: Text)
    requires m <= n <= |rows| && StatusOf(rows, m, id).Reopened?
    ensures StatusOf(rows, n, id).Reopened?
    decreases n
  {
    if m < n { ReopenedForever(rows, m, n - 1, id); }
  }

  lemma PairedIdIsClean(rows: seq<Row>, m: nat, p: Pair)
    requires Paired(rows, p) && m <= p.output && rows[p.output].id != []
    ensures !StatusOf(rows, m, rows[p.output].id).Reopened?
  {
    if StatusOf(rows, m, rows[p.output].id).Reopened? { ReopenedForever(rows, m, p.output, rows[p.output].id); }
  }

  lemma {:induction false} AnonymousGrow(rows: seq<Row>, m: nat, n: nat, f: Family)
    requires m <= n <= |rows|
    ensures Anonymous(rows, m, f) <= Anonymous(rows, n, f) && Taken(rows, m, f) <= Taken(rows, n, f)
    decreases n
  {
    if m < n { AnonymousGrow(rows, m, n - 1, f); }
  }

  lemma {:induction false} AnonymousAscend(rows: seq<Row>, n: nat, f: Family, i: nat, j: nat)
    requires n <= |rows| && i < j < |Anonymous(rows, n, f)|
    ensures Anonymous(rows, n, f)[i].sequence < Anonymous(rows, n, f)[j].sequence
    decreases n
  {
    var before := Anonymous(rows, n - 1, f);
    if j < |before| { AnonymousAscend(rows, n - 1, f, i, j); } else { AnonymousAre(rows, n - 1, f, i); }
  }

  /** No call is given two outputs, and anonymous calls of one family are given theirs in order. */
  lemma PairsAreOneToOne(rows: seq<Row>, p: Pair, q: Pair)
    requires Paired(rows, p) && Paired(rows, q) && p.output < q.output
    ensures p.call != q.call
    ensures rows[p.call].id == [] && rows[q.call].id == [] && rows[p.call].family == rows[q.call].family ==> p.call < q.call
  {
    var (f, id) := (rows[p.output].family, rows[p.output].id);
    if rows[q.output].id == id {
      if id != [] {
        if p.call == q.call { OpenSince(rows, q.output, id, p.output); }
      } else if rows[q.output].family == f {
        AnonymousGrow(rows, p.output + 1, q.output, f);
        AnonymousGrow(rows, p.output, q.output, f);
        AnonymousAscend(rows, q.output, f, Taken(rows, p.output, f), Taken(rows, q.output, f));
      }
    }
  }

  // What a check is bound to

  predicate ValidPairs(rows: seq<Row>, n: nat, pairs: seq<Pair>) {
    && pairs != []
    && (forall k :: 0 <= k < |pairs| ==> Paired(rows, pairs[k]) && pairs[k].output < n)
    && forall k, l :: 0 <= k < l < |pairs| ==> pairs[k].output < pairs[l].output
  }

  function TextAt(rows: seq<Row>, i: nat): Text {
    if i < |rows| && rows[i].Output? then rows[i].text else []
  }

  function Texts(rows: seq<Row>, pairs: seq<Pair>): (texts: seq<Text>)
    ensures |texts| == |pairs| && forall k :: 0 <= k < |pairs| ==> texts[k] == TextAt(rows, pairs[k].output)
  {
    seq(|pairs|, k requires 0 <= k < |pairs| => TextAt(rows, pairs[k].output))
  }

  predicate IsCallFor(rows: seq<Row>, i: nat, tool: Tool) {
    i < |rows| && rows[i].Call? && rows[i].tool == tool
  }

  /** The first call runs the command; every later one waits for the cell. */
  predicate CallsFit(rows: seq<Row>, pairs: seq<Pair>, sequence: nat, command: Text, cell: Text)
    requires pairs != []
  {
    && pairs[0].call == sequence && IsCallFor(rows, sequence, Exec(command))
    && forall k :: 0 < k < |pairs| ==> IsCallFor(rows, pairs[k].call, Wait(cell))
  }

  /** The first n outputs leave the cell running. */
  predicate Running(reading: Reading, texts: seq<Text>, n: int, cell: Text)
    requires n <= |texts|
  {
    forall k :: 0 <= k < n ==> reading.running(texts[k]) == cell
  }

  predicate OpenRecord(reading: Reading, rows: seq<Row>, n: nat, cell: Text, r: Record) {
    && cell != [] && ValidPairs(rows, n, r.pairs)
    && r.outputs == Texts(rows, r.pairs)
    && CallsFit(rows, r.pairs, r.sequence, r.command, cell)
    && Running(reading, r.outputs, |r.outputs|, cell)
  }

  /** The check's one exec call, its own output, and the outputs of the waits on the cell that it left
      running, up to the first that leaves none; its lines are the outcome lines of those outputs. */
  predicate IsBound(reading: Reading, rows: seq<Row>, n: nat, c: Check, cell: Text) {
    && ValidPairs(rows, n, c.pairs)
    && CallsFit(rows, c.pairs, c.sequence, c.command, cell)
    && var texts := Texts(rows, c.pairs);
    && c.lines == Lines(reading, texts) && c.lines != []
    && Running(reading, texts, |texts| - 1, cell)
    && reading.running(texts[|texts| - 1]) == []
    && (|texts| > 1 ==> cell != [])
  }

  ghost predicate IsBoundCheck(reading: Reading, rows: seq<Row>, n: nat, c: Check) {
    exists cell :: IsBound(reading, rows, n, c, cell)
  }

  ghost predicate ChecksBound(reading: Reading, rows: seq<Row>, n: nat, st: State) {
    && (forall cell :: cell in st.cells ==> OpenRecord(reading, rows, n, cell, st.cells[cell]))
    && (forall i :: 0 <= i < |st.checks| ==> IsBoundCheck(reading, rows, n, st.checks[i]))
    && st.cells.Keys !! st.ambiguousCells
    && FirstsDistinct(st)
  }

  function First(pairs: seq<Pair>): int {
    if pairs == [] then -1 else pairs[0].output
  }

  /** No two records, open or finished, start at the same output. */
  predicate FirstsDistinct(st: State) {
    && (forall a, b :: a in st.cells && b in st.cells && a != b ==> First(st.cells[a].pairs) != First(st.cells[b].pairs))
    && (forall i, j :: 0 <= i < j < |st.checks| ==> First(st.checks[i].pairs) != First(st.checks[j].pairs))
    && forall a, i :: a in st.cells && 0 <= i < |st.checks| ==> First(st.cells[a].pairs) != First(st.checks[i].pairs)
  }

  /** Every record so far starts before row n. */
  predicate FirstsBefore(st: State, n: nat) {
    && (forall a :: a in st.cells ==> First(st.cells[a].pairs) < n)
    && forall i :: 0 <= i < |st.checks| ==> First(st.checks[i].pairs) < n
  }

  lemma BoundLater(reading: Reading, rows: seq<Row>, n: nat, st: State)
    requires ChecksBound(reading, rows, n, st)
    ensures ChecksBound(reading, rows, n + 1, st) && FirstsBefore(st, n)
  {
    hide Paired;
    var next := n + 1;
    forall i | 0 <= i < |st.checks| ensures IsBoundCheck(reading, rows, next, st.checks[i]) {
      assert IsBoundCheck(reading, rows, n, st.checks[i]);
      var cell :| IsBound(reading, rows, n, st.checks[i], cell);
      assert IsBound(reading, rows, next, st.checks[i], cell);
    }
    forall cell | cell in st.cells ensures OpenRecord(reading, rows, next, cell, st.cells[cell]) {
      assert OpenRecord(reading, rows, n, cell, st.cells[cell]);
    }
  }

  /** A record that starts at a place of its own may be finished into a check. */
  lemma FinishKeeps(reading: Reading, rows: seq<Row>, n: nat, st: State, r: Record, cell: Text)
    requires ChecksBound(reading, rows, n, st)
    requires ValidPairs(rows, n, r.pairs) && r.outputs == Texts(rows, r.pairs)
    requires CallsFit(rows, r.pairs, r.sequence, r.command, cell)
    requires Running(reading, r.outputs, |r.outputs| - 1, cell) && reading.running(r.outputs[|r.outputs| - 1]) == []
    requires |r.outputs| > 1 ==> cell != []
    requires forall a :: a in st.cells ==> First(st.cells[a].pairs) != First(r.pairs)
    requires forall i :: 0 <= i < |st.checks| ==> First(st.checks[i].pairs) != First(r.pairs)
    ensures ChecksBound(reading, rows, n, Finish(reading, st, r))
  {
    hide Paired, Lines, First, OpenRecord;
    var lines := Lines(reading, r.outputs);
    if lines != [] {
      var c := Check(r.sequence, r.command, lines, r.pairs);
      var after := Finish(reading, st, r);
      assert IsBound(reading, rows, n, c, cell);
      forall i | 0 <= i < |after.checks| ensures IsBoundCheck(reading, rows, n, after.checks[i]) {
        if i < |st.checks| { assert after.checks[i] == st.checks[i] && IsBoundCheck(reading, rows, n, st.checks[i]); }
      }
    }
  }

  /** A cell may be given up. */
  lemma DropKeeps(reading: Reading, rows: seq<Row>, n: nat, st: State, cell: Text)
    requires ChecksBound(reading, rows, n, st)
    ensures ChecksBound(reading, rows, n, st.(cells := st.cells - {cell}))
    ensures ChecksBound(reading, rows, n, st.(cells := st.cells - {cell}, ambiguousCells := st.ambiguousCells + {cell}))
  {
    hide OpenRecord, IsBoundCheck, First;
  }

  /** A cell may be opened, or go on running, with a record that starts nowhere else. */
  lemma PutKeeps(reading: Reading, rows: seq<Row>, n: nat, st: State, cell: Text, r: Record)
    requires ChecksBound(reading, rows, n, st) && OpenRecord(reading, rows, n, cell, r) && cell !in st.ambiguousCells
    requires forall a :: a in st.cells && a != cell ==> First(st.cells[a].pairs) != First(r.pairs)
    requires forall i :: 0 <= i < |st.checks| ==> First(st.checks[i].pairs) != First(r.pairs)
    ensures ChecksBound(reading, rows, n, st.(cells := st.cells[cell := r]))
  {
    hide OpenRecord, IsBoundCheck, First;
  }

  lemma ExecKeeps(reading: Reading, rows: seq<Row>, n: nat, st: State, held: Held, text: Text)
    requires n < |rows| && ChecksBound(reading, rows, n + 1, st) && FirstsBefore(st, n)
    requires Paired(rows, Pair(held.sequence, n)) && IsCallFor(rows, held.sequence, held.tool) && held.tool.Exec? && TextAt(rows, n) == text
    ensures ChecksBound(reading, rows, n + 1, Consume(reading, st, held, n, text))
  {
    hide Paired, Finish, ChecksBound, IsCallFor;
    var running := reading.running(text);
    var r := Record(held.sequence, held.tool.command, [text], [Pair(held.sequence, n)]);
    assert r.outputs == Texts(rows, r.pairs) && First(r.pairs) == n;
    if running == [] {
      FinishKeeps(reading, rows, n + 1, st, r, []);
    } else if running in st.cells || running in st.ambiguousCells {
      DropKeeps(reading, rows, n + 1, st, running);
    } else {
      PutKeeps(reading, rows, n + 1, st, running, r);
    }
  }

  lemma WaitKeeps(reading: Reading, rows: seq<Row>, n: nat, st: State, held: Held, text: Text)
    requires n < |rows| && ChecksBound(reading, rows, n + 1, st) && FirstsBefore(st, n)
    requires Paired(rows, Pair(held.sequence, n)) && IsCallFor(rows, held.sequence, held.tool) && held.tool.Wait? && TextAt(rows, n) == text
    requires held.tool.cell in st.cells && OpenRecord(reading, rows, n, held.tool.cell, st.cells[held.tool.cell])
    ensures ChecksBound(reading, rows, n + 1, Consume(reading, st, held, n, text))
  {
    hide Paired, Finish, FirstsDistinct, ValidPairs, CallsFit, Running, IsBoundCheck, First;
    var cell := held.tool.cell;
    var running := reading.running(text);
    var r := st.cells[cell];
    var more := r.(outputs := r.outputs + [text], pairs := r.pairs + [Pair(held.sequence, n)]);
    MoreOutput(reading, rows, n, cell, r, Pair(held.sequence, n), text);
    OwnStart(st, cell);
    if running == cell {
      PutKeeps(reading, rows, n + 1, st, cell, more);
    } else {
      DropKeeps(reading, rows, n + 1, st, cell);
      if running == [] { FinishKeeps(reading, rows, n + 1, st.(cells := st.cells - {cell}), more, cell); }
    }
  }

  lemma OwnStart(st: State, cell: Text)
    requires FirstsDistinct(st) && cell in st.cells
    ensures forall a :: a in st.cells && a != cell ==> First(st.cells[a].pairs) != First(st.cells[cell].pairs)
    ensures forall i :: 0 <= i < |st.checks| ==> First(st.checks[i].pairs) != First(st.cells[cell].pairs)
  {
    hide First;
  }

  lemma MoreOutput(reading: Reading, rows: seq<Row>, n: nat, cell: Text, r: Record, p: Pair, text: Text)
    requires n < |rows| && OpenRecord(reading, rows, n, cell, r)
    requires Paired(rows, p) && p.output == n && TextAt(rows, n) == text && IsCallFor(rows, p.call, Wait(cell))
    ensures var more := r.(outputs := r.outputs + [text], pairs := r.pairs + [p]);
            && ValidPairs(rows, n + 1, more.pairs) && more.outputs == Texts(rows, more.pairs)
            && CallsFit(rows, more.pairs, more.sequence, more.command, cell)
            && Running(reading, more.outputs, |more.outputs| - 1, cell)
            && First(more.pairs) == First(r.pairs)
            && (reading.running(text) == cell ==> OpenRecord(reading, rows, n + 1, cell, more))
  {
    hide Paired;
  }

  lemma ConsumeKeeps(reading: Reading, rows: seq<Row>, n: nat, st: State, held: Held, text: Text)
    requires n < |rows| && ChecksBound(reading, rows, n, st)
    requires Paired(rows, Pair(held.sequence, n)) && IsCallFor(rows, held.sequence, held.tool) && TextAt(rows, n) == text
    ensures ChecksBound(reading, rows, n + 1, Consume(reading, st, held, n, text))
  {
    hide Paired, OpenRecord, IsBound, FirstsDistinct, FirstsBefore, Finish;
    BoundLater(reading, rows, n, st);
    match held.tool
    case OtherTool =>
    case Exec(_) => ExecKeeps(reading, rows, n, st, held, text);
    case Wait(cell) =>
      if cell != [] && cell in st.cells { WaitKeeps(reading, rows, n, st, held, text); }
  }

  lemma SameChecks(reading: Reading, rows: seq<Row>, n: nat, st: State, after: State)
    requires ChecksBound(reading, rows, n, st)
    requires after.cells == st.cells && after.ambiguousCells == st.ambiguousCells && after.checks == st.checks
    ensures ChecksBound(reading, rows, n, after)
  {
    hide OpenRecord, IsBound;
  }

  lemma CalledKeepsChecks(st: State, n: nat, row: Row)
    ensures var after := Called(st, n, row);
            after.cells == st.cells && after.ambiguousCells == st.ambiguousCells && after.checks == st.checks
  {
  }

  lemma {:induction false} ScanBinds(reading: Reading, rows: seq<Row>, n: nat)
    requires n <= |rows|
    ensures ChecksBound(reading, rows, n, After(reading, rows, n))
  {
    hide Consume, ChecksBound, Paired, AddCall, TakeCall, Tracks;
    if n == 0 {
      NothingBound(reading, rows);
    } else {
      var (st, row) := (After(reading, rows, n - 1), rows[n - 1]);
      ScanBinds(reading, rows, n - 1);
      DictionariesTrack(reading, rows, n - 1);
      var called := Called(st, n - 1, row);
      CalledKeepsChecks(st, n - 1, row);
      SameChecks(reading, rows, n - 1, st, called);
      if row.Output? && TakeCall(st, row.family, row.id).0.Some? {
        var held := TakeCall(st, row.family, row.id).0.value;
        TakenIsPaired(rows, n - 1, st);
        assert TextAt(rows, n - 1) == row.text;
        ConsumeKeeps(reading, rows, n - 1, called, held, row.text);
      } else {
        BoundLater(reading, rows, n - 1, called);
      }
    }
  }

  lemma NothingBound(reading: Reading, rows: seq<Row>)
    ensures ChecksBound(reading, rows, 0, START)
  {
  }

  // The reported checks

  lemma {:induction false} InsertCheckHolds(c: Check, sorted: seq<Check>, x: Check)
    ensures x in InsertCheck(c, sorted) <==> x == c || x in sorted
  {
    if sorted != [] {
      assert sorted == [sorted[0]] + sorted[1..];
      InsertCheckHolds(c, sorted[1..], x);
    }
  }

  lemma {:induction false} SortChecksHolds(checks: seq<Check>, x: Check)
    ensures x in SortChecks(checks) <==> x in checks
  {
    if checks != [] {
      assert checks == [checks[0]] + checks[1..];
      SortChecksHolds(checks[1..], x);
      InsertCheckHolds(checks[0], SortChecks(checks[1..]), x);
    }
  }

  predicate Ascending(checks: seq<Check>) {
    forall i, j :: 0 <= i < j < |checks| ==> checks[i].sequence < checks[j].sequence
  }

  lemma {:induction false} InsertCheckAscends(c: Check, sorted: seq<Check>)
    requires Ascending(sorted) && forall x :: x in sorted ==> x.sequence != c.sequence
    ensures Ascending(InsertCheck(c, sorted))
  {
    if sorted != [] {
      assert sorted[0] in sorted;
      if c.sequence > sorted[0].sequence {
        var rest := InsertCheck(c, sorted[1..]);
        InsertCheckAscends(c, sorted[1..]);
        forall k | 0 <= k < |rest| ensures sorted[0].sequence < rest[k].sequence {
          InsertCheckHolds(c, sorted[1..], rest[k]);
          if rest[k] != c { var i :| 0 <= i < |sorted| - 1 && sorted[1..][i] == rest[k]; assert sorted[i + 1] == rest[k]; }
        }
      }
    }
  }

  lemma {:induction false} SortChecksAscends(checks: seq<Check>)
    requires forall i, j :: 0 <= i < j < |checks| ==> checks[i].sequence != checks[j].sequence
    ensures Ascending(SortChecks(checks))
  {
    if checks != [] {
      SortChecksAscends(checks[1..]);
      forall x | x in SortChecks(checks[1..]) ensures x.sequence != checks[0].sequence {
        SortChecksHolds(checks[1..], x);
        var i :| 0 <= i < |checks| - 1 && checks[1..][i] == x;
        assert checks[i + 1] == x;
      }
      InsertCheckAscends(checks[0], SortChecks(checks[1..]));
    }
  }

  /** Every reported check is bound to exactly one exec call and to outputs that are its own, and the
      checks come in strictly ascending order of their sequence numbers, so none repeats. */
  lemma ReportedChecksAreBound(reading: Reading, rows: seq<Row>, c: Check)
    ensures Ascending(SortChecks(After(reading, rows, |rows|).checks))
    ensures c in SortChecks(After(reading, rows, |rows|).checks) ==> IsBoundCheck(reading, rows, |rows|, c)
  {
    hide After, Paired, FirstsDistinct;
    var st := After(reading, rows, |rows|);
    ScanBinds(reading, rows, |rows|);
    forall i, j | 0 <= i < j < |st.checks| ensures st.checks[i].sequence != st.checks[j].sequence {
      SequencesDiffer(reading, rows, st, i, j);
    }
    SortChecksAscends(st.checks);
    SortChecksHolds(st.checks, c);
  }

  lemma SequencesDiffer(reading: Reading, rows: seq<Row>, st: State, i: nat, j: nat)
    requires ChecksBound(reading, rows, |rows|, st) && i < j < |st.checks|
    ensures st.checks[i].sequence != st.checks[j].sequence
  {
    hide Paired, OpenRecord, Lines;
    var (p, q) := (st.checks[i].pairs[0], st.checks[j].pairs[0]);
    assert First(st.checks[i].pairs) != First(st.checks[j].pairs);
    if p.output < q.output { PairsAreOneToOne(rows, p, q); } else { PairsAreOneToOne(rows, q, p); }
  }

  /** Open and ambiguous ids are disjoint, and so are open and ambiguous cells. */
  lemma OpenIsNeverAmbiguous(reading: Reading, rows: seq<Row>, n: nat)
    requires n <= |rows|
    ensures After(reading, rows, n).pending.Keys !! After(reading, rows, n).ambiguous
    ensures After(reading, rows, n).cells.Keys !! After(reading, rows, n).ambiguousCells
  {
    hide After, StatusOf, Anonymous, Taken, OpenRecord, IsBound, FirstsDistinct;
    DictionariesTrack(reading, rows, n);
    ScanBinds(reading, rows, n);
    var st := After(reading, rows, n);
    forall id | id in st.pending ensures id !in st.ambiguous { assert TracksId(rows, n, st, id); }
  }

  lemma AfterStep(reading: Reading, rows: seq<Row>, n: nat)
    requires n < |rows|
    ensures After(reading, rows, n + 1) == Step(reading, After(reading, rows, n), n, rows[n])
  {
  }

  /** None of the check's outputs was asked for under this cell. */
  predicate NeverWaits(rows: seq<Row>, c: Check, cell: Text) {
    forall k :: 0 < k < |c.pairs| ==> !IsCallFor(rows, c.pairs[k].call, Wait(cell))
  }

  /** What one row adds: nothing, or one check that did not wait on an ambiguous cell. */
  lemma NewCheckIsClean(reading: Reading, rows: seq<Row>, n: nat, cell: Text)
    requires n < |rows| && cell in After(reading, rows, n).ambiguousCells
    ensures cell in After(reading, rows, n + 1).ambiguousCells
    ensures After(reading, rows, n).checks <= After(reading, rows, n + 1).checks
    ensures var (before, after) := (After(reading, rows, n).checks, After(reading, rows, n + 1).checks);
            |after| <= |before| + 1 && (|before| < |after| ==> NeverWaits(rows, after[|before|], cell))
  {
    hide After, Paired, AddCall, TakeCall, StatusOf, Lines, FirstsDistinct, IsBoundCheck, Tracks, OpenRecord;
    var (st, row) := (After(reading, rows, n), rows[n]);
    AfterStep(reading, rows, n);
    ScanBinds(reading, rows, n);
    DictionariesTrack(reading, rows, n);
    CalledKeepsChecks(st, n, row);
    if row.Output? && TakeCall(st, row.family, row.id).0.Some? {
      TakenIsPaired(rows, n, st);
      var held := TakeCall(st, row.family, row.id).0.value;
      if held.tool.Wait? && held.tool.cell in st.cells {
        assert OpenRecord(reading, rows, n, held.tool.cell, st.cells[held.tool.cell]);
        OpenNeverWaits(reading, rows, n, held.tool.cell, st.cells[held.tool.cell], cell, held, row.text);
      }
    }
  }

  lemma OpenNeverWaits(reading: Reading, rows: seq<Row>, n: nat, cell: Text, r: Record, other: Text, held: Held, text: Text)
    requires OpenRecord(reading, rows, n, cell, r) && other != cell && IsCallFor(rows, held.sequence, Wait(cell))
    ensures forall lines :: NeverWaits(rows, Check(r.sequence, r.command, lines, r.pairs + [Pair(held.sequence, n)]), other)
  {
    hide Paired;
  }

  /** A cell that was reopened while it was open, or given up for another, yields no later check. */
  lemma {:induction false} ReopenedCellYieldsNoCheck(reading: Reading, rows: seq<Row>, m: nat, n: nat, cell: Text, i: nat)
    requires m <= n <= |rows| && cell in After(reading, rows, m).ambiguousCells
    ensures cell in After(reading, rows, n).ambiguousCells
    ensures After(reading, rows, m).checks <= After(reading, rows, n).checks
    ensures |After(reading, rows, m).checks| <= i < |After(reading, rows, n).checks| ==>
      NeverWaits(rows, After(reading, rows, n).checks[i], cell)
    decreases n
  {
    hide After, NeverWaits;
    if m < n {
      ReopenedCellYieldsNoCheck(reading, rows, m, n - 1, cell, i);
      NewCheckIsClean(reading, rows, n - 1, cell);
      var (before, after) := (After(reading, rows, n - 1).checks, After(reading, rows, n).checks);
      if i < |before| && i < |after| { assert after[i] == before[i]; }
    }
  }
}
