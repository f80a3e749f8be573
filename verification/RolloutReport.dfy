/** Which checks a session's rows report, said over the rows alone: exactly those that some output completes. */
module RolloutReport {
  import opened Prelude
  import opened Utf8
  import opened Rollout

  /** The call whose output row n is, if any. */
  function CallOf(rows: seq<Row>, n: nat): Option<nat>
    requires n < |rows|
  {
    match rows[n]
    case Output(f, id, _) =>
      if id != [] then
        match StatusOf(rows, n, id)
        case Open(at) => if at < n && rows[at].Call? && rows[at].family == f then Some(at) else None
        case _ => None
      else if Taken(rows, n, f) < |Anonymous(rows, n, f)| then Some(Anonymous(rows, n, f)[Taken(rows, n, f)].sequence)
      else None
    case _ => None
  }

  lemma {:induction false} OpenAtCall(rows: seq<Row>, n: nat, id: Text)
    requires n <= |rows| && StatusOf(rows, n, id).Open?
    ensures StatusOf(rows, n, id).at < n && rows[StatusOf(rows, n, id).at].Call? && rows[StatusOf(rows, n, id).at].id == id
    decreases n
  {
    if StatusOf(rows, n - 1, id).Open? { OpenAtCall(rows, n - 1, id); }
  }

  /** An output row has exactly the call that it is paired with. */
  lemma CallOfIsPaired(rows: seq<Row>, n: nat, c: nat)
    requires n < |rows|
    ensures CallOf(rows, n) == Some(c) <==> Paired(rows, Pair(c, n))
    ensures CallOf(rows, n) == Some(c) ==> c < n && rows[c].Call?
  {
    hide StatusOf, Anonymous, Taken;
    if rows[n].Output? {
      var (f, id) := (rows[n].family, rows[n].id);
      if id != [] {
        if StatusOf(rows, n, id).Open? { OpenAtCall(rows, n, id); }
      } else if Taken(rows, n, f) < |Anonymous(rows, n, f)| {
        AnonymousAre(rows, n, f, Taken(rows, n, f));
      }
    }
  }

  // One cell on its own

  /** What a cell is doing: nothing, running for the call and waits so far, or given up for good. */
  datatype Cell = Closed | Live(pairs: seq<Pair>) | GivenUp

  function CellOf(reading: Reading, rows: seq<Row>, n: nat, cell: Text): Cell
    requires n <= |rows|
  {
    if n == 0 then Closed
    else
      var before := CellOf(reading, rows, n - 1, cell);
      var call := CallOf(rows, n - 1);
      if call.None? then before
      else if call.value >= n - 1 || !rows[call.value].Call? then before
      else
        var (tool, left) := (rows[call.value].tool, reading.running(TextAt(rows, n - 1)));
        if tool == Wait(cell) && before.Live? then
          if left == cell then Live(before.pairs + [Pair(call.value, n - 1)]) else if left == [] then Closed else GivenUp
        else if tool.Exec? && left == cell then
          if before.Closed? then Live([Pair(call.value, n - 1)]) else GivenUp
        else before
  }

  function CommandAt(rows: seq<Row>, c: nat): Text {
    if c < |rows| && rows[c].Call? && rows[c].tool.Exec? then rows[c].tool.command else []
  }

  /** The outcome lines of all outputs, in order. */
  function OutcomeLines(reading: Reading, rows: seq<Row>, pairs: seq<Pair>): seq<Text> {
    if pairs == [] then []
    else reading.outcome(TextAt(rows, pairs[0].output)) + OutcomeLines(reading, rows, pairs[1..])
  }

  /** The check of these pairs, where an outcome line says something. */
  function CheckOf(reading: Reading, rows: seq<Row>, pairs: seq<Pair>): Option<Check>
    requires pairs != []
  {
    var lines := OutcomeLines(reading, rows, pairs);
    if lines == [] then None else Some(Check(pairs[0].call, CommandAt(rows, pairs[0].call), lines, pairs))
  }

  /** The check that output row n completes: an exec call that leaves no cell running, or the wait after which a running
      cell is done. */
  function Due(reading: Reading, rows: seq<Row>, n: nat): Option<Check>
    requires n < |rows|
  {
    var call := CallOf(rows, n);
    if call.None? || call.value >= n || !rows[call.value].Call? || reading.running(TextAt(rows, n)) != [] then None
    else
      match rows[call.value].tool
      case Exec(_) => CheckOf(reading, rows, [Pair(call.value, n)])
      case Wait(cell) =>
        if cell != [] && CellOf(reading, rows, n, cell).Live? then
          CheckOf(reading, rows, CellOf(reading, rows, n, cell).pairs + [Pair(call.value, n)])
        else None
      case OtherTool => None
  }

  function DueUpTo(reading: Reading, rows: seq<Row>, n: nat): seq<Check>
    requires n <= |rows|
  {
    if n == 0 then []
    else DueUpTo(reading, rows, n - 1) + (if Due(reading, rows, n - 1).Some? then [Due(reading, rows, n - 1).value] else [])
  }

  // The scan keeps to it

  /** The record that the scan keeps of a running cell. */
  function RecordOf(rows: seq<Row>, pairs: seq<Pair>): Record
    requires pairs != []
  {
    Record(pairs[0].call, CommandAt(rows, pairs[0].call), Texts(rows, pairs), pairs)
  }

  predicate TracksCell(reading: Reading, rows: seq<Row>, n: nat, st: State, cell: Text)
    requires n <= |rows|
  {
    match CellOf(reading, rows, n, cell)
    case Closed => cell !in st.cells && cell !in st.ambiguousCells
    case Live(pairs) => pairs != [] && cell in st.cells && st.cells[cell] == RecordOf(rows, pairs) && cell !in st.ambiguousCells
    case GivenUp => cell !in st.cells && cell in st.ambiguousCells
  }

  ghost predicate TracksCells(reading: Reading, rows: seq<Row>, n: nat, st: State)
    requires n <= |rows|
  {
    && [] !in st.cells && [] !in st.ambiguousCells
    && (forall cell :: cell != [] ==> TracksCell(reading, rows, n, st, cell))
    && st.checks == DueUpTo(reading, rows, n)
  }

  /** Whether and which call an output takes is what the rows say. */
  lemma TakesItsCall(rows: seq<Row>, n: nat, st: State)
    requires n < |rows| && Tracks(rows, n, st) && rows[n].Output?
    ensures var held := TakeCall(st, rows[n].family, rows[n].id).0;
            && (held.None? <==> CallOf(rows, n).None?)
            && (held.Some? ==> CallOf(rows, n) == Some(held.value.sequence) && held.value.sequence < n
                               && rows[held.value.sequence].Call? && rows[held.value.sequence].tool == held.value.tool)
  {
    hide StatusOf, Anonymous, Taken;
    var (f, id) := (rows[n].family, rows[n].id);
    if id != [] {
      assert TracksId(rows, n, st, id);
      if StatusOf(rows, n, id).Open? { OpenAtCall(rows, n, id); }
    } else {
      assert Queue(st, f) == Anonymous(rows, n, f)[Taken(rows, n, f)..];
      if Taken(rows, n, f) < |Anonymous(rows, n, f)| { AnonymousAre(rows, n, f, Taken(rows, n, f)); }
    }
  }

  lemma TextsGrow(rows: seq<Row>, pairs: seq<Pair>, p: Pair)
    ensures Texts(rows, pairs + [p]) == Texts(rows, pairs) + [TextAt(rows, p.output)]
  {
  }

  lemma TextsOfOne(rows: seq<Row>, p: Pair)
    ensures Texts(rows, [p]) == [TextAt(rows, p.output)]
  {
  }

  lemma {:induction false} OutcomeLinesGrow(reading: Reading, rows: seq<Row>, pairs: seq<Pair>, p: Pair)
    ensures OutcomeLines(reading, rows, pairs + [p]) == OutcomeLines(reading, rows, pairs) + reading.outcome(TextAt(rows, p.output))
  {
    if pairs == [] {
      assert [p][1..] == [];
    } else {
      assert (pairs + [p])[1..] == pairs[1..] + [p];
      OutcomeLinesGrow(reading, rows, pairs[1..], p);
    }
  }

  lemma {:induction false} LinesAreOutcomeLines(reading: Reading, rows: seq<Row>, pairs: seq<Pair>)
    ensures Lines(reading, Texts(rows, pairs)) == OutcomeLines(reading, rows, pairs)
  {
    if pairs != [] {
      var n := |pairs| - 1;
      LinesAreOutcomeLines(reading, rows, pairs[..n]);
      OutcomeLinesGrow(reading, rows, pairs[..n], pairs[n]);
      assert pairs == pairs[..n] + [pairs[n]];
      assert Texts(rows, pairs)[..n] == Texts(rows, pairs[..n]);
    }
  }

  /** What finishing a record adds is its check. */
  lemma FinishAdds(reading: Reading, rows: seq<Row>, st: State, pairs: seq<Pair>)
    requires pairs != []
    ensures Finish(reading, st, RecordOf(rows, pairs))
         == st.(checks := st.checks + if CheckOf(reading, rows, pairs).Some? then [CheckOf(reading, rows, pairs).value] else [])
  {
    LinesAreOutcomeLines(reading, rows, pairs);
    assert st.checks + [] == st.checks;
  }

  lemma ConsumeTracks(reading: Reading, rows: seq<Row>, n: nat, st: State, held: Held)
    requires n < |rows| && rows[n].Output? && TracksCells(reading, rows, n, st)
    requires CallOf(rows, n) == Some(held.sequence) && held.sequence < n
    requires rows[held.sequence].Call? && rows[held.sequence].tool == held.tool
    ensures TracksCells(reading, rows, n + 1, Consume(reading, st, held, n, rows[n].text))
  {
    hide CallOf, Lines, Finish, CheckOf;
    var after := Consume(reading, st, held, n, rows[n].text);
    var next := n + 1;
    var p := Pair(held.sequence, n);
    TextsOfOne(rows, p);
    FinishAdds(reading, rows, st, [p]);
    if held.tool.Wait? && held.tool.cell != [] {
      assert TracksCell(reading, rows, n, st, held.tool.cell);
      if CellOf(reading, rows, n, held.tool.cell).Live? {
        var pairs := CellOf(reading, rows, n, held.tool.cell).pairs;
        TextsGrow(rows, pairs, p);
        FinishAdds(reading, rows, st.(cells := st.cells - {held.tool.cell}), pairs + [p]);
      }
    }
    if reading.running(rows[n].text) != [] { assert TracksCell(reading, rows, n, st, reading.running(rows[n].text)); }
    forall cell | cell != [] ensures TracksCell(reading, rows, next, after, cell) {
      assert TracksCell(reading, rows, n, st, cell);
    }
  }

  lemma {:induction false} ScanReports(reading: Reading, rows: seq<Row>, n: nat)
    requires n <= |rows|
    ensures TracksCells(reading, rows, n, After(reading, rows, n))
  {
    hide Consume, AddCall, TakeCall, Tracks, CallOf, CheckOf;
    if n == 0 {
      StartTracksCells(reading, rows);
    } else {
      var (st, row) := (After(reading, rows, n - 1), rows[n - 1]);
      ScanReports(reading, rows, n - 1);
      DictionariesTrack(reading, rows, n - 1);
      var called := Called(st, n - 1, row);
      CalledKeepsChecks(st, n - 1, row);
      SameCells(reading, rows, n - 1, st, called);
      if row.Output? { TakesItsCall(rows, n - 1, st); }
      if row.Output? && TakeCall(st, row.family, row.id).0.Some? {
        ConsumeTracks(reading, rows, n - 1, called, TakeCall(st, row.family, row.id).0.value);
      } else {
        if !row.Output? { OnlyOutputsHaveCalls(rows, n - 1); }
        NothingTaken(reading, rows, n - 1, called);
      }
    }
  }

  lemma OnlyOutputsHaveCalls(rows: seq<Row>, n: nat)
    requires n < |rows| && !rows[n].Output?
    ensures CallOf(rows, n).None?
  {
  }

  lemma StartTracksCells(reading: Reading, rows: seq<Row>)
    ensures TracksCells(reading, rows, 0, START)
  {
  }

  lemma SameCells(reading: Reading, rows: seq<Row>, n: nat, st: State, after: State)
    requires n <= |rows| && TracksCells(reading, rows, n, st)
    requires after.cells == st.cells && after.ambiguousCells == st.ambiguousCells && after.checks == st.checks
    ensures TracksCells(reading, rows, n, after)
  {
    hide CellOf, DueUpTo;
    forall cell | cell != [] ensures TracksCell(reading, rows, n, after, cell) { assert TracksCell(reading, rows, n, st, cell); }
  }

  lemma NothingTaken(reading: Reading, rows: seq<Row>, n: nat, st: State)
    requires n < |rows| && TracksCells(reading, rows, n, st) && CallOf(rows, n).None?
    ensures TracksCells(reading, rows, n + 1, st)
  {
    hide CallOf;
    var next := n + 1;
    assert st.checks + [] == st.checks;
    forall cell | cell != [] ensures TracksCell(reading, rows, next, st, cell) { assert TracksCell(reading, rows, n, st, cell); }
  }

  lemma {:induction false} DueHolds(reading: Reading, rows: seq<Row>, n: nat, c: Check)
    requires n <= |rows|
    ensures c in DueUpTo(reading, rows, n) <==> exists k :: 0 <= k < n && Due(reading, rows, k) == Some(c)
  {
    hide Due;
    if n > 0 { DueHolds(reading, rows, n - 1, c); }
  }

  /** A check is reported if and only if some output row completes it. */
  lemma ReportsExactly(reading: Reading, rows: seq<Row>, c: Check)
    ensures c in SortChecks(After(reading, rows, |rows|).checks)
       <==> exists n :: 0 <= n < |rows| && Due(reading, rows, n) == Some(c)
  {
    hide After, Due;
    ScanReports(reading, rows, |rows|);
    DueHolds(reading, rows, |rows|, c);
    SortChecksHolds(After(reading, rows, |rows|).checks, c);
  }

  /** A command that ends in its first output is reported whenever that output has an outcome line. */
  lemma EndedAtOnceIsReported(reading: Reading, rows: seq<Row>, p: Pair, command: Text)
    requires Paired(rows, p) && IsCallFor(rows, p.call, Exec(command))
    requires reading.running(TextAt(rows, p.output)) == [] && reading.outcome(TextAt(rows, p.output)) != []
    ensures Check(p.call, command, reading.outcome(TextAt(rows, p.output)), [p]) in SortChecks(After(reading, rows, |rows|).checks)
  {
    hide After, CallOf, StatusOf, Anonymous, Taken;
    CallOfIsPaired(rows, p.output, p.call);
    assert [p][1..] == [];
    assert reading.outcome(TextAt(rows, p.output)) + [] == reading.outcome(TextAt(rows, p.output));
    var c := Check(p.call, command, reading.outcome(TextAt(rows, p.output)), [p]);
    assert OutcomeLines(reading, rows, [p]) == reading.outcome(TextAt(rows, p.output));
    assert CheckOf(reading, rows, [p]) == Some(c);
    assert Due(reading, rows, p.output) == Some(c);
    ReportsExactly(reading, rows, c);
  }

  // Chains of an exec call and the waits on its cell

  /** Row k is an output by which the cell is started, waited for or given up. */
  predicate Touches(reading: Reading, rows: seq<Row>, k: nat, cell: Text)
    requires k < |rows|
  {
    var call := CallOf(rows, k);
    && call.Some? && call.value < k && rows[call.value].Call?
    && (rows[call.value].tool == Wait(cell) || (rows[call.value].tool.Exec? && reading.running(TextAt(rows, k)) == cell))
  }

  predicate OutputsHold(pairs: seq<Pair>, k: nat) {
    exists i :: 0 <= i < |pairs| && pairs[i].output == k
  }

  /** From the first output of the chain up to row n nothing else touches the cell, which was closed before. */
  predicate Undisturbed(reading: Reading, rows: seq<Row>, pairs: seq<Pair>, n: nat, cell: Text) {
    && pairs != [] && pairs[0].output < n <= |rows|
    && CellOf(reading, rows, pairs[0].output, cell).Closed?
    && forall k :: pairs[0].output <= k < n && !OutputsHold(pairs, k) ==> !Touches(reading, rows, k, cell)
  }

  /** A chain is the exec call that left the cell running and the waits that went on with it. */
  predicate LiveChain(reading: Reading, rows: seq<Row>, pairs: seq<Pair>, n: nat, cell: Text) {
    && n <= |rows| && ValidPairs(rows, n, pairs)
    && CallsFit(rows, pairs, pairs[0].call, CommandAt(rows, pairs[0].call), cell)
    && Running(reading, Texts(rows, pairs), |pairs|, cell)
    && Undisturbed(reading, rows, pairs, n, cell)
  }

  lemma CellStays(reading: Reading, rows: seq<Row>, n: nat, cell: Text)
    requires n < |rows| && !Touches(reading, rows, n, cell)
    ensures CellOf(reading, rows, n + 1, cell) == CellOf(reading, rows, n, cell)
  {
    hide CallOf;
  }

  /** A cell is live with these pairs exactly when they are an undisturbed chain. */
  lemma {:induction false} LiveIsChain(reading: Reading, rows: seq<Row>, n: nat, cell: Text)
    requires n <= |rows| && CellOf(reading, rows, n, cell).Live?
    ensures LiveChain(reading, rows, CellOf(reading, rows, n, cell).pairs, n, cell)
  {
    hide CallOf, Paired, Undisturbed;
    var before := CellOf(reading, rows, n - 1, cell);
    var pairs := CellOf(reading, rows, n, cell).pairs;
    if Touches(reading, rows, n - 1, cell) {
      var call := CallOf(rows, n - 1).value;
      CallOfIsPaired(rows, n - 1, call);
      if before.Live? {
        LiveIsChain(reading, rows, n - 1, cell);
        ChainGrows(reading, rows, before.pairs, n - 1, cell, call);
      } else {
        ChainStarts(reading, rows, n - 1, cell, call);
      }
    } else {
      CellStays(reading, rows, n - 1, cell);
      LiveIsChain(reading, rows, n - 1, cell);
      ChainWaits(reading, rows, pairs, n - 1, cell);
    }
  }

  lemma ChainWaits(reading: Reading, rows: seq<Row>, pairs: seq<Pair>, n: nat, cell: Text)
    requires n < |rows| && LiveChain(reading, rows, pairs, n, cell) && !Touches(reading, rows, n, cell)
    ensures LiveChain(reading, rows, pairs, n + 1, cell)
  {
    hide Touches, Paired, CellOf;
  }

  lemma ChainGrows(reading: Reading, rows: seq<Row>, pairs: seq<Pair>, n: nat, cell: Text, call: nat)
    requires n < |rows| && LiveChain(reading, rows, pairs, n, cell)
    requires Paired(rows, Pair(call, n)) && IsCallFor(rows, call, Wait(cell)) && reading.running(TextAt(rows, n)) == cell
    ensures LiveChain(reading, rows, pairs + [Pair(call, n)], n + 1, cell)
  {
    hide Touches, Paired, CellOf;
    var more := pairs + [Pair(call, n)];
    assert more[|pairs|] == Pair(call, n) && forall i :: 0 <= i < |pairs| ==> more[i] == pairs[i];
    TextsGrow(rows, pairs, Pair(call, n));
    assert OutputsHold(more, n) by { assert more[|pairs|].output == n; }
    forall k | OutputsHold(pairs, k) ensures OutputsHold(more, k) {
      var i :| 0 <= i < |pairs| && pairs[i].output == k;
      assert more[i].output == k;
    }
  }

  lemma ChainStarts(reading: Reading, rows: seq<Row>, n: nat, cell: Text, call: nat)
    requires n < |rows| && CellOf(reading, rows, n, cell).Closed?
    requires Paired(rows, Pair(call, n)) && call < |rows| && rows[call].Call? && rows[call].tool.Exec?
    requires reading.running(TextAt(rows, n)) == cell
    ensures LiveChain(reading, rows, [Pair(call, n)], n + 1, cell)
  {
    hide Touches, Paired, CellOf;
    assert [Pair(call, n)][0].output == n;
  }

  lemma FrontOfChain(reading: Reading, rows: seq<Row>, pairs: seq<Pair>, n: nat, cell: Text)
    requires LiveChain(reading, rows, pairs, n, cell) && |pairs| > 1
    ensures LiveChain(reading, rows, pairs[..|pairs| - 1], pairs[|pairs| - 1].output, cell)
  {
    hide Touches, Paired, CellOf;
    var m := |pairs| - 1;
    var (front, last) := (pairs[..m], pairs[m]);
    assert forall i :: 0 <= i < m ==> front[i] == pairs[i] && front[i].output < last.output;
    assert forall i :: 0 <= i < m ==> Texts(rows, front)[i] == Texts(rows, pairs)[i];
    forall k: nat | OutputsHold(pairs, k) && k < last.output ensures OutputsHold(front, k) {
      var i :| 0 <= i < |pairs| && pairs[i].output == k;
      assert front[i].output == k;
    }
  }

  lemma ChainBeforeRow(reading: Reading, rows: seq<Row>, pairs: seq<Pair>, n: nat, cell: Text)
    requires LiveChain(reading, rows, pairs, n, cell) && pairs[|pairs| - 1].output < n - 1
    ensures LiveChain(reading, rows, pairs, n - 1, cell) && !Touches(reading, rows, n - 1, cell)
  {
    hide Touches, Paired, CellOf;
    assert forall i :: 0 <= i < |pairs| ==> pairs[i].output <= pairs[|pairs| - 1].output;
    assert !OutputsHold(pairs, n - 1);
  }

  /** An undisturbed chain is what the cell is live with. */
  lemma {:induction false} ChainIsLive(reading: Reading, rows: seq<Row>, pairs: seq<Pair>, n: nat, cell: Text)
    requires LiveChain(reading, rows, pairs, n, cell)
    ensures CellOf(reading, rows, n, cell) == Live(pairs)
    decreases n
  {
    hide CallOf, Paired, Undisturbed, Touches;
    var last := pairs[|pairs| - 1];
    if last.output < n - 1 {
      ChainBeforeRow(reading, rows, pairs, n, cell);
      ChainIsLive(reading, rows, pairs, n - 1, cell);
      CellStays(reading, rows, n - 1, cell);
    } else {
      CallOfIsPaired(rows, last.output, last.call);
      assert Texts(rows, pairs)[|pairs| - 1] == TextAt(rows, last.output);
      if |pairs| > 1 {
        FrontOfChain(reading, rows, pairs, n, cell);
        ChainIsLive(reading, rows, pairs[..|pairs| - 1], n - 1, cell);
        assert pairs == pairs[..|pairs| - 1] + [last];
      } else {
        assert pairs == [last];
        assert CellOf(reading, rows, n - 1, cell).Closed? by { StartsClosed(reading, rows, pairs, n, cell); }
      }
    }
  }

  lemma StartsClosed(reading: Reading, rows: seq<Row>, pairs: seq<Pair>, n: nat, cell: Text)
    requires Undisturbed(reading, rows, pairs, n, cell)
    ensures pairs[0].output < |rows| && CellOf(reading, rows, pairs[0].output, cell).Closed?
  {
    hide Touches, CellOf;
  }

  /** The check's chain ends with its last output: bound to its calls and outputs, and with its cell undisturbed from the
      first output to the last. */
  predicate CompleteChain(reading: Reading, rows: seq<Row>, c: Check, cell: Text) {
    && IsBound(reading, rows, |rows|, c, cell)
    && (|c.pairs| > 1 ==>
          Undisturbed(reading, rows, c.pairs[..|c.pairs| - 1], c.pairs[|c.pairs| - 1].output, cell))
  }

  lemma CompleteFront(reading: Reading, rows: seq<Row>, c: Check, cell: Text)
    requires CompleteChain(reading, rows, c, cell) && |c.pairs| > 1
    ensures LiveChain(reading, rows, c.pairs[..|c.pairs| - 1], c.pairs[|c.pairs| - 1].output, cell)
  {
    hide Paired, Undisturbed, Lines;
    var m := |c.pairs| - 1;
    assert forall i :: 0 <= i < m ==> c.pairs[..m][i] == c.pairs[i];
    assert forall i :: 0 <= i < m ==> Texts(rows, c.pairs[..m])[i] == Texts(rows, c.pairs)[i];
  }

  lemma CompleteIsDue(reading: Reading, rows: seq<Row>, c: Check, cell: Text)
    requires CompleteChain(reading, rows, c, cell)
    ensures c.pairs[|c.pairs| - 1].output < |rows| && Due(reading, rows, c.pairs[|c.pairs| - 1].output) == Some(c)
  {
    hide Paired, Undisturbed, CallOf, Lines;
    var m := |c.pairs| - 1;
    var last := c.pairs[m];
    LinesAreOutcomeLines(reading, rows, c.pairs);
    CallOfIsPaired(rows, last.output, last.call);
    assert Texts(rows, c.pairs)[m] == TextAt(rows, last.output);
    if m > 0 {
      CompleteFront(reading, rows, c, cell);
      ChainIsLive(reading, rows, c.pairs[..m], last.output, cell);
      assert c.pairs == c.pairs[..m] + [last];
    } else {
      assert c.pairs == [last];
    }
  }

  lemma DueIsComplete(reading: Reading, rows: seq<Row>, n: nat, c: Check)
    requires n < |rows| && Due(reading, rows, n) == Some(c)
    ensures exists cell :: CompleteChain(reading, rows, c, cell)
  {
    hide Paired, Undisturbed, CallOf, Lines;
    var call := CallOf(rows, n).value;
    CallOfIsPaired(rows, n, call);
    LinesAreOutcomeLines(reading, rows, c.pairs);
    var tool := rows[call].tool;
    if tool.Exec? {
      TextsOfOne(rows, Pair(call, n));
      assert CompleteChain(reading, rows, c, []);
    } else {
      var pairs := CellOf(reading, rows, n, tool.cell).pairs;
      LiveIsChain(reading, rows, n, tool.cell);
      TextsGrow(rows, pairs, Pair(call, n));
      assert c.pairs[..|pairs|] == pairs;
      assert CompleteChain(reading, rows, c, tool.cell);
    }
  }

  /** A check is reported if and only if it is a complete chain of the rows: one exec call, its own output, and the outputs
      of the waits on the cell that it left running, which was closed before and which nothing else touched, up to the
      first output that leaves none, with an outcome line somewhere. */
  lemma ReportedExactly(reading: Reading, rows: seq<Row>, c: Check)
    ensures c in SortChecks(After(reading, rows, |rows|).checks) <==> exists cell :: CompleteChain(reading, rows, c, cell)
  {
    hide After, Due, CompleteChain;
    ReportsExactly(reading, rows, c);
    if cell :| CompleteChain(reading, rows, c, cell) { CompleteIsDue(reading, rows, c, cell); CompleteHasPairs(reading, rows, c, cell); }
    if n :| 0 <= n < |rows| && Due(reading, rows, n) == Some(c) { DueIsComplete(reading, rows, n, c); }
  }

  lemma CompleteHasPairs(reading: Reading, rows: seq<Row>, c: Check, cell: Text)
    requires CompleteChain(reading, rows, c, cell)
    ensures c.pairs != []
  {
  }
}
