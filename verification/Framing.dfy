/** Physical records of a stream: LF, CR and CRLF end one, and no other byte does. */
module Framing {
  import opened Prelude

  const LF: Byte := 0x0A
  const CR: Byte := 0x0D

  predicate IsBreak(b: Byte) {
    b == LF || b == CR
  }

  predicate Unbroken(record: Bytes) {
    forall i :: 0 <= i < |record| ==> !IsBreak(record[i])
  }

  /** Index of the first break; the length when there is none. */
  function FirstBreak(raw: Bytes): (n: nat)
    ensures n <= |raw| && Unbroken(raw[..n]) && (n < |raw| ==> IsBreak(raw[n]))
  {
    if raw == [] || IsBreak(raw[0]) then 0
    else
      var k := FirstBreak(raw[1..]);
      assert raw[..k + 1] == [raw[0]] + raw[1..][..k];
      k + 1
  }

  /** Bytes taken by the break at index n: two for CRLF, otherwise one. */
  function BreakLength(raw: Bytes, n: nat): (k: nat)
    requires n < |raw| && IsBreak(raw[n])
    ensures 1 <= k && n + k <= |raw|
  {
    if raw[n] == CR && n + 1 < |raw| && raw[n + 1] == LF then 2 else 1
  }

  function Records(raw: Bytes): seq<Bytes>
    decreases |raw|
  {
    if raw == [] then []
    else
      var n := FirstBreak(raw);
      if n == |raw| then [raw]
      else [raw[..n]] + Records(raw[n + BreakLength(raw, n)..])
  }

  /** A byte string at whose end a record may begin without merging into what precedes. */
  predicate Ended(raw: Bytes) {
    raw == [] || IsBreak(raw[|raw| - 1])
  }

  lemma {:induction false} FirstBreakIs(raw: Bytes, n: nat)
    requires n <= |raw| && Unbroken(raw[..n]) && (n < |raw| ==> IsBreak(raw[n]))
    ensures FirstBreak(raw) == n
  {
    if n > 0 {
      assert raw[..n][0] == raw[0];
      assert raw[1..][..n - 1] == raw[..n][1..];
      FirstBreakIs(raw[1..], n - 1);
    }
  }

  /** br is a whole line end in front of rest. */
  predicate IsLineEnd(br: Bytes, rest: Bytes) {
    br == [LF] || br == [CR, LF] || (br == [CR] && (rest == [] || rest[0] != LF))
  }

  lemma RecordsOfLine(record: Bytes, br: Bytes, rest: Bytes)
    requires Unbroken(record) && IsLineEnd(br, rest)
    ensures Records(record + br + rest) == [record] + Records(rest)
  {
    hide FirstBreak;
    var raw := record + br + rest;
    var n := |record|;
    assert raw[..n] == record && raw[n] == br[0];
    FirstBreakIs(raw, n);
    assert BreakLength(raw, n) == |br| by {
      if |br| == 2 { assert raw[n + 1] == br[1]; } else if rest != [] { assert raw[n + 1] == rest[0]; }
    }
    assert raw[n + |br|..] == rest;
  }

  lemma LineLast(record: Bytes, br: Bytes, rest: Bytes)
    requires IsLineEnd(br, rest)
    ensures var raw := record + br + rest; raw[|raw| - 1] == if rest == [] then br[|br| - 1] else rest[|rest| - 1]
  {
  }

  lemma RecordsOfUnended(record: Bytes)
    requires Unbroken(record) && record != []
    ensures Records(record) == [record]
  {
    hide FirstBreak;
    assert record[..|record|] == record;
    FirstBreakIs(record, |record|);
  }

  /** The first line of a stream that has a line end. */
  lemma FirstLine(raw: Bytes) returns (record: Bytes, br: Bytes, rest: Bytes)
    requires !Unbroken(raw)
    ensures raw == record + br + rest && Unbroken(record) && IsLineEnd(br, rest)
  {
    hide FirstBreak;
    var n := FirstBreak(raw);
    assert raw[..|raw|] == raw;
    var k := BreakLength(raw, n);
    record, br, rest := raw[..n], raw[n..n + k], raw[n + k..];
  }

  lemma {:induction false} RecordsAreUnbroken(raw: Bytes)
    ensures forall i :: 0 <= i < |Records(raw)| ==> Unbroken(Records(raw)[i])
    decreases |raw|
  {
    if raw == [] {
    } else if Unbroken(raw) {
      RecordsOfUnended(raw);
    } else {
      var record, br, rest := FirstLine(raw);
      RecordsOfLine(record, br, rest);
      RecordsAreUnbroken(rest);
    }
  }

  /** Framing distributes over an append that no CRLF pair straddles. */
  lemma {:induction false} RecordsAppend(prior: Bytes, more: Bytes)
    requires Ended(prior)
    requires prior != [] && prior[|prior| - 1] == CR && more != [] ==> more[0] != LF
    ensures Records(prior + more) == Records(prior) + Records(more)
    decreases |prior|
  {
    hide Records, FirstBreak;
    if prior == [] {
      NoRecords();
      assert prior + more == more;
    } else {
      assert IsBreak(prior[|prior| - 1]);
      var record, br, rest := FirstLine(prior);
      LineLast(record, br, rest);
      RecordsOfLine(record, br, rest);
      RecordsOfLine(record, br, rest + more);
      assert prior + more == record + br + (rest + more);
      RecordsAppend(rest, more);
      assert Records(prior + more) == [record] + (Records(rest) + Records(more));
    }
  }

  /** Ending an unended stream with LF adds no record. */
  lemma {:induction false} RecordsEnded(prior: Bytes)
    requires !Ended(prior)
    ensures Records(prior + [LF]) == Records(prior)
    decreases |prior|
  {
    hide Records, FirstBreak;
    if Unbroken(prior) {
      RecordsOfUnended(prior);
      RecordsOfOne(prior);
    } else {
      var record, br, rest := FirstLine(prior);
      LineLast(record, br, rest);
      RecordsOfLine(record, br, rest);
      RecordsOfLine(record, br, rest + [LF]);
      assert prior + [LF] == record + br + (rest + [LF]);
      RecordsEnded(rest);
    }
  }

  lemma RecordsOfOne(record: Bytes)
    requires Unbroken(record)
    ensures Records(record + [LF]) == [record]
  {
    RecordsOfLine(record, [LF], []);
    assert record + [LF] + [] == record + [LF];
  }

  /** The bytes put between a stream and the record appended to it. */
  function Separator(prior: Bytes): Bytes {
    if Ended(prior) then [] else [LF]
  }

  function Appended(prior: Bytes, record: Bytes): Bytes {
    prior + Separator(prior) + record + [LF]
  }

  /** Appending one framed nonempty record extends the records by exactly that record, for every
      ending of the stream. */
  lemma AppendExtendsRecords(prior: Bytes, record: Bytes)
    requires Unbroken(record) && record != []
    ensures Records(Appended(prior, record)) == Records(prior) + [record]
    ensures Ended(Appended(prior, record))
  {
    var base := prior + Separator(prior);
    RecordsOfOne(record);
    if Ended(prior) {
      assert base == prior;
    } else {
      RecordsEnded(prior);
    }
    assert Ended(base);
    RecordsAppend(base, record + [LF]);
    assert base + (record + [LF]) == Appended(prior, record);
  }

  lemma FrameOne(raw: Bytes, start: nat, cursor: nat, next: nat)
    requires start <= cursor < next <= |raw| && Unbroken(raw[start..cursor])
    requires IsLineEnd(raw[cursor..next], raw[next..])
    ensures Records(raw[start..]) == [raw[start..cursor]] + Records(raw[next..])
  {
    RecordsOfLine(raw[start..cursor], raw[cursor..next], raw[next..]);
    assert raw[start..] == raw[start..cursor] + raw[cursor..next] + raw[next..];
  }

  /** `_physical_records`: one pass with a cursor and the start of the open record. */
  method PhysicalRecords(raw: Bytes) returns (records: seq<Bytes>)
    ensures records == Records(raw)
  {
    hide Records, FirstBreak;
    records := [];
    var start, cursor := 0, 0;
    assert raw[0..] == raw;
    while cursor < |raw|
      invariant 0 <= start <= cursor <= |raw|
      invariant Unbroken(raw[start..cursor])
      invariant records + Records(raw[start..]) == Records(raw)
    {
      var byte := raw[cursor];
      if byte == LF {
        assert raw[cursor..cursor + 1] == [LF];
        FrameOne(raw, start, cursor, cursor + 1);
        records := records + [raw[start..cursor]];
        cursor := cursor + 1;
        start := cursor;
        continue;
      }
      if byte == CR {
        var next := cursor + if cursor + 1 < |raw| && raw[cursor + 1] == LF then 2 else 1;
        assert raw[cursor..next] == if next == cursor + 2 then [CR, LF] else [CR];
        FrameOne(raw, start, cursor, next);
        records := records + [raw[start..cursor]];
        cursor := next;
        start := cursor;
        continue;
      }
      assert raw[start..cursor + 1] == raw[start..cursor] + [byte];
      cursor := cursor + 1;
    }
    assert raw[start..cursor] == raw[start..];
    if start < |raw| {
      RecordsOfUnended(raw[start..]);
      records := records + [raw[start..]];
    } else {
      assert Records([]) == [] by { NoRecords(); }
    }
  }

  lemma NoRecords()
    ensures Records([]) == []
  {
  }

  // What framing can shed from a candidate that holds one record

  /** A candidate that frames as one nonempty record is the record and at most one line end. */
  lemma OneRecordSize(candidate: Bytes, record: Bytes)
    requires record != [] && Records(candidate) == [record]
    ensures |record| <= |candidate| <= |record| + 2
  {
    if candidate != [] {
      if Unbroken(candidate) {
        RecordsOfUnended(candidate);
      } else {
        var first, br, rest := FirstLine(candidate);
        RecordsOfLine(first, br, rest);
        assert ([first] + Records(rest))[0] == first;
        assert |Records(rest)| == 0;
        assert rest == [];
      }
    }
  }
}
