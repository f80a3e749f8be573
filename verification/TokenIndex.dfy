/** The derived paraphrase index of stored terms, kept as terms are written and rebuilt when the family
    rules change, and the candidate query over it. */
module TokenIndex {
  import opened Prelude
  import opened Utf8
  import opened JsonOrder

  /** `_paraphrase_tokens`: the distinct tokens of a text. Its Unicode tables are taken as given. */
  type Tokenizer = Text -> set<Text>

  /** One version of the family rules; the stamp names it. */
  datatype Rules = Rules(version: Text, suffixes: seq<Text>, minStem: nat)

  predicate IsAsciiLetter(c: CodePoint) {
    0x41 <= c <= 0x5A || 0x61 <= c <= 0x7A
  }

  function FirstStem(token: Text, suffixes: seq<Text>, minStem: nat): Text {
    if suffixes == [] then []
    else
      var suffix := suffixes[0];
      var n := |token| - |suffix|;
      if n >= minStem && token[n..] == suffix then token[..n] else FirstStem(token, suffixes[1..], minStem)
  }

  /** `_paraphrase_family_token`: the empty text when no suffix applies. */
  function Family(rules: Rules, token: Text): Text {
    if token != [] && forall i :: 0 <= i < |token| ==> IsAsciiLetter(token[i]) then
      FirstStem(token, rules.suffixes, rules.minStem)
    else []
  }

  /** The scan as it runs: a suffix whose stem is too short does not stop it. */
  method FamilyToken(rules: Rules, token: Text) returns (stem: Text)
    ensures stem == Family(rules, token)
  {
    if token == [] || exists i :: 0 <= i < |token| && !IsAsciiLetter(token[i]) { return []; }
    var k := 0;
    while k < |rules.suffixes|
      invariant k <= |rules.suffixes|
      invariant FirstStem(token, rules.suffixes, rules.minStem) == FirstStem(token, rules.suffixes[k..], rules.minStem)
    {
      var suffix := rules.suffixes[k];
      assert rules.suffixes[k..][1..] == rules.suffixes[k + 1..];
      var n := |token| - |suffix|;
      if n >= 0 && token[n..] == suffix {
        if n >= rules.minStem { return token[..n]; }
      }
      k := k + 1;
    }
    return [];
  }

  // The index and what it derives from

  /** A row of research or candidates, by what the index reads of it. */
  datatype TermRow = TermRow(term: Text, key: Text)

  datatype IndexRow = IndexRow(token: Text, exact: bool, source: Text, key: Text)

  function ExactRows(tokens: set<Text>, key: Text): set<IndexRow> {
    set t | t in tokens :: IndexRow(t, true, t, key)
  }

  function FamilyRows(rules: Rules, tokens: set<Text>, key: Text): set<IndexRow> {
    set t | t in tokens && Family(rules, t) != [] :: IndexRow(Family(rules, t), false, t, key)
  }

  function RowsOf(tokenize: Tokenizer, rules: Rules, row: TermRow): set<IndexRow> {
    if row.key == [] then {}
    else ExactRows(tokenize(row.term), row.key) + FamilyRows(rules, tokenize(row.term), row.key)
  }

  /** The index built from nothing over all stored terms. */
  function Rebuilt(tokenize: Tokenizer, rules: Rules, terms: seq<TermRow>): set<IndexRow> {
    if terms == [] then {}
    else Rebuilt(tokenize, rules, terms[..|terms| - 1]) + RowsOf(tokenize, rules, terms[|terms| - 1])
  }

  /** The token table: rows, and whether it has the current columns. */
  datatype Table = Table(rows: set<IndexRow>, current: bool)

  function Keys(rows: set<IndexRow>): set<Text> {
    set r | r in rows :: r.key
  }

  function Unindexed(terms: seq<TermRow>, keys: set<Text>): seq<TermRow> {
    if terms == [] then []
    else
      var last := terms[|terms| - 1];
      Unindexed(terms[..|terms| - 1], keys) + if last.key != [] && last.key !in keys then [last] else []
  }

  predicate Stale(table: Option<Table>, stamp: Text, rules: Rules) {
    table.Some? && (stamp != rules.version || !table.value.current)
  }

  /** The rows that survive the drop of a stale table. */
  function Surviving(table: Option<Table>, stamp: Text, rules: Rules): set<IndexRow> {
    if table.None? || Stale(table, stamp, rules) then {} else table.value.rows
  }

  function EnsuredRows(tokenize: Tokenizer, rules: Rules, terms: seq<TermRow>, table: Option<Table>, stamp: Text): set<IndexRow> {
    var base := Surviving(table, stamp, rules);
    base + Rebuilt(tokenize, rules, Unindexed(terms, Keys(base)))
  }

  /** The store's term rows, its version stamp and its derived table. */
  class Store {
    const tokenize: Tokenizer
    var terms: seq<TermRow>
    var stamp: Text
    var table: Option<Table>

    constructor (tokenize: Tokenizer, terms: seq<TermRow>)
      ensures this.tokenize == tokenize && this.terms == terms && stamp == [] && table == None
    {
      this.tokenize := tokenize;
      this.terms := terms;
      stamp := [];
      table := None;
    }

    /** `_index_term_tokens` over the sorted tokens of one term. */
    method IndexTerm(rules: Rules, row: TermRow)
      requires table.Some?
      modifies this`table
      ensures table == Some(Table(old(table.value.rows) + RowsOf(tokenize, rules, row), old(table.value.current)))
    {
      if row.key == [] {
        assert table.value.rows + RowsOf(tokenize, rules, row) == table.value.rows;
        return;
      }
      var tokens := tokenize(row.term);
      var rows := table.value.rows;
      ghost var before := rows;
      var left := tokens;
      while left != {}
        invariant left <= tokens && table == old(table)
        invariant rows == before + ExactRows(tokens - left, row.key) + FamilyRows(rules, tokens - left, row.key)
        decreases left
      {
        var token :| token in left;
        rows := rows + {IndexRow(token, true, token, row.key)};
        var family := FamilyToken(rules, token);
        if family != [] { rows := rows + {IndexRow(family, false, token, row.key)}; }
        OneMoreToken(rules, tokens - left, token, row.key);
        assert tokens - (left - {token}) == (tokens - left) + {token};
        left := left - {token};
      }
      assert tokens - {} == tokens;
      assert rows == before + RowsOf(tokenize, rules, row);
      table := Some(table.value.(rows := rows));
    }

    /** `_ensure_paraphrase_token_index` with its backfill. */
    method Ensure(rules: Rules)
      modifies this`stamp, this`table
      ensures stamp == rules.version
      ensures table == Some(Table(EnsuredRows(tokenize, rules, terms, old(table), old(stamp)), true))
    {
      hide RowsOf, Rebuilt, Unindexed, Keys;
      if table.Some? && (stamp != rules.version || !table.value.current) { table := None; }
      if table.None? { table := Some(Table({}, true)); }
      var base := table.value.rows;
      var missing := Missing(Keys(base));
      assert missing[..0] == [] && base + {} == base;
      RebuiltOfNone(tokenize, rules);
      for i := 0 to |missing|
        invariant table == Some(Table(base + Rebuilt(tokenize, rules, missing[..i]), true))
      {
        assert missing[..i + 1] == missing[..i] + [missing[i]];
        RebuiltGrows(tokenize, rules, missing[..i], missing[i]);
        IndexTerm(rules, missing[i]);
        assert table.value.rows == base + Rebuilt(tokenize, rules, missing[..i + 1]);
      }
      assert missing[..|missing|] == missing;
      stamp := rules.version;
    }

    /** The backfill's selection of rows whose key the index does not hold. */
    method Missing(keys: set<Text>) returns (missing: seq<TermRow>)
      ensures missing == Unindexed(terms, keys)
    {
      missing := [];
      assert terms[..0] == [];
      for i := 0 to |terms|
        invariant missing == Unindexed(terms[..i], keys)
      {
        assert terms[..i + 1][..i] == terms[..i];
        if terms[i].key != [] && terms[i].key !in keys { missing := missing + [terms[i]]; }
      }
      assert terms[..|terms|] == terms;
    }

    /** `_write_entry`: the store is opened under the writer's rules, then the row and its tokens go in. */
    method Write(rules: Rules, row: TermRow)
      modifies this
      ensures terms == old(terms) + [row] && stamp == rules.version
      ensures table == Some(Table(EnsuredRows(tokenize, rules, old(terms), old(table), old(stamp))
                                  + RowsOf(tokenize, rules, row), true))
    {
      Ensure(rules);
      terms := terms + [row];
      IndexTerm(rules, row);
    }
  }

  lemma OneMoreToken(rules: Rules, tokens: set<Text>, token: Text, key: Text)
    ensures ExactRows(tokens + {token}, key) == ExactRows(tokens, key) + {IndexRow(token, true, token, key)}
    ensures FamilyRows(rules, tokens + {token}, key)
         == FamilyRows(rules, tokens, key)
            + if Family(rules, token) == [] then {} else {IndexRow(Family(rules, token), false, token, key)}
  {
    hide Family;
  }

  // The incremental index is the rebuilt one

  /** A table with the current columns and a stamp is the rebuilt index under the stamped rules. */
  predicate Derived(tokenize: Tokenizer, versions: map<Text, Rules>, terms: seq<TermRow>, stamp: Text, table: Option<Table>) {
    table.Some? && table.value.current && stamp in versions ==>
      table.value.rows == Rebuilt(tokenize, versions[stamp], terms)
  }

  /** A version text names one set of rules. */
  predicate Registered(versions: map<Text, Rules>, rules: Rules) {
    rules.version in versions && versions[rules.version] == rules
  }

  lemma {:induction false} RebuiltHolds(tokenize: Tokenizer, rules: Rules, terms: seq<TermRow>, r: IndexRow)
    ensures r in Rebuilt(tokenize, rules, terms)
      <==> exists i :: 0 <= i < |terms| && r in RowsOf(tokenize, rules, terms[i])
  {
    hide RowsOf;
    if terms != [] {
      var n := |terms| - 1;
      RebuiltHolds(tokenize, rules, terms[..n], r);
      assert forall i :: 0 <= i < n ==> terms[..n][i] == terms[i];
    }
  }

  lemma {:induction false} UnindexedHolds(terms: seq<TermRow>, keys: set<Text>, row: TermRow)
    ensures row in Unindexed(terms, keys) <==> row in terms && row.key != [] && row.key !in keys
  {
    if terms != [] {
      var n := |terms| - 1;
      UnindexedHolds(terms[..n], keys, row);
      assert terms == terms[..n] + [terms[n]];
    }
  }

  lemma RowsCarryKey(tokenize: Tokenizer, rules: Rules, row: TermRow, r: IndexRow)
    requires r in RowsOf(tokenize, rules, row)
    ensures r.key == row.key && row.key != []
  {
    hide Family;
  }

  /** Opening a store leaves exactly the rebuilt index, whatever version stamped it last. */
  lemma EnsuredIsRebuilt(tokenize: Tokenizer, versions: map<Text, Rules>, rules: Rules, terms: seq<TermRow>,
                         stamp: Text, table: Option<Table>)
    requires Registered(versions, rules) && Derived(tokenize, versions, terms, stamp, table)
    ensures EnsuredRows(tokenize, rules, terms, table, stamp) == Rebuilt(tokenize, rules, terms)
  {
    hide RowsOf, Rebuilt, Unindexed;
    var base := Surviving(table, stamp, rules);
    var missing := Unindexed(terms, Keys(base));
    forall r ensures r in base + Rebuilt(tokenize, rules, missing) <==> r in Rebuilt(tokenize, rules, terms) {
      RebuiltHolds(tokenize, rules, terms, r);
      RebuiltHolds(tokenize, rules, missing, r);
      if i :| 0 <= i < |missing| && r in RowsOf(tokenize, rules, missing[i]) {
        UnindexedHolds(terms, Keys(base), missing[i]);
        var j :| 0 <= j < |terms| && terms[j] == missing[i];
      }
      if r in Rebuilt(tokenize, rules, terms) && r !in base {
        var i :| 0 <= i < |terms| && r in RowsOf(tokenize, rules, terms[i]);
        RowsCarryKey(tokenize, rules, terms[i], r);
        UnindexedHolds(terms, Keys(base), terms[i]);
        assert base == {};
        var j :| 0 <= j < |missing| && missing[j] == terms[i];
      }
    }
  }

  lemma RebuiltOfNone(tokenize: Tokenizer, rules: Rules)
    ensures Rebuilt(tokenize, rules, []) == {}
  {
  }

  lemma RebuiltGrows(tokenize: Tokenizer, rules: Rules, terms: seq<TermRow>, row: TermRow)
    ensures Rebuilt(tokenize, rules, terms + [row]) == Rebuilt(tokenize, rules, terms) + RowsOf(tokenize, rules, row)
  {
    assert (terms + [row])[..|terms|] == terms;
  }

  /** One use of the store by a process that runs some version of the rules. */
  datatype Use = Open(rules: Rules) | WriteTerm(rules: Rules, row: TermRow)

  datatype State = State(terms: seq<TermRow>, stamp: Text, table: Option<Table>)

  /** What Ensure and Write leave, as their contracts say. */
  function AfterUse(tokenize: Tokenizer, s: State, use: Use): State {
    var ensured := EnsuredRows(tokenize, use.rules, s.terms, s.table, s.stamp);
    match use
    case Open(rules) => State(s.terms, rules.version, Some(Table(ensured, true)))
    case WriteTerm(rules, row) =>
      State(s.terms + [row], rules.version, Some(Table(ensured + RowsOf(tokenize, rules, row), true)))
  }

  function AfterUses(tokenize: Tokenizer, s: State, uses: seq<Use>): State {
    if uses == [] then s else AfterUse(tokenize, AfterUses(tokenize, s, uses[..|uses| - 1]), uses[|uses| - 1])
  }

  lemma UseKeepsIndex(tokenize: Tokenizer, versions: map<Text, Rules>, s: State, use: Use)
    requires Derived(tokenize, versions, s.terms, s.stamp, s.table) && Registered(versions, use.rules)
    ensures var after := AfterUse(tokenize, s, use);
            && after.table == Some(Table(Rebuilt(tokenize, use.rules, after.terms), true)) && after.stamp == use.rules.version
            && Derived(tokenize, versions, after.terms, after.stamp, after.table)
  {
    hide EnsuredRows, Rebuilt, RowsOf;
    EnsuredIsRebuilt(tokenize, versions, use.rules, s.terms, s.stamp, s.table);
    if use.WriteTerm? { RebuiltGrows(tokenize, use.rules, s.terms, use.row); }
  }

  /** After any sequence of opens, writes and version changes, forward or back, the index is the one
      rebuilt from all stored terms under the rules of the last use. */
  lemma {:induction false} IndexIsAlwaysRebuilt(tokenize: Tokenizer, versions: map<Text, Rules>, s: State, uses: seq<Use>)
    requires Derived(tokenize, versions, s.terms, s.stamp, s.table)
    requires forall i :: 0 <= i < |uses| ==> Registered(versions, uses[i].rules)
    ensures var after := AfterUses(tokenize, s, uses);
            && Derived(tokenize, versions, after.terms, after.stamp, after.table)
            && (uses != [] ==>
                  after.table == Some(Table(Rebuilt(tokenize, uses[|uses| - 1].rules, after.terms), true)))
  {
    hide AfterUse, Derived, Rebuilt;
    if uses != [] {
      var n := |uses| - 1;
      IndexIsAlwaysRebuilt(tokenize, versions, s, uses[..n]);
      UseKeepsIndex(tokenize, versions, AfterUses(tokenize, s, uses[..n]), uses[n]);
    }
  }

  // The candidate query

  /** The query tokens that an indexed token can match for. */
  function Origins(rules: Rules, query: set<Text>, token: Text): set<Text> {
    set o | o in query && (o == token || (Family(rules, o) != [] && Family(rules, o) == token))
  }

  function RowsUnder(rows: set<IndexRow>, key: Text): set<IndexRow> {
    set r | r in rows && r.key == key
  }

  predicate Covers(rules: Rules, query: set<Text>, rows: set<IndexRow>, o: Text) {
    exists r :: r in rows && o in Origins(rules, query, r.token)
  }

  /** The query tokens matched, and matched exactly, by the rows of one key. */
  function Matched(rules: Rules, query: set<Text>, rows: set<IndexRow>, key: Text): set<Text> {
    set o | o in query && Covers(rules, query, RowsUnder(rows, key), o)
  }

  predicate ExactlyCovers(rules: Rules, query: set<Text>, rows: set<IndexRow>, o: Text) {
    exists r :: r in rows && r.exact && r.token == o && o in Origins(rules, query, r.token)
  }

  function ExactlyMatched(rules: Rules, query: set<Text>, rows: set<IndexRow>, key: Text): set<Text> {
    set o | o in query && ExactlyCovers(rules, query, RowsUnder(rows, key), o)
  }

  /** The stored original tokens behind the rows that matched. */
  function StoredMatched(rules: Rules, query: set<Text>, rows: set<IndexRow>, key: Text): set<Text> {
    set r | r in RowsUnder(rows, key) && Origins(rules, query, r.token) != {} :: r.source
  }

  function StoredTotal(rows: set<IndexRow>, key: Text): nat {
    |set r | r in RowsUnder(rows, key) && r.exact|
  }

  /** The floors of 0.6, over exact fractions. */
  predicate Eligible(rules: Rules, query: set<Text>, rows: set<IndexRow>, key: Text) {
    var matched := Matched(rules, query, rows, key);
    var total := StoredTotal(rows, key);
    && matched != {}
    && 10 * |matched| >= 6 * |query|
    && (total < |query| ==> total > 0 && 10 * |StoredMatched(rules, query, rows, key)| >= 6 * total)
  }

  lemma {:induction false} ExactRowsCount(tokens: set<Text>, key: Text)
    ensures |ExactRows(tokens, key)| == |tokens|
    decreases |tokens|
  {
    if tokens != {} {
      var t :| t in tokens;
      ExactRowsCount(tokens - {t}, key);
      assert ExactRows(tokens, key) == ExactRows(tokens - {t}, key) + {IndexRow(t, true, t, key)};
    } else {
      assert ExactRows(tokens, key) == {};
    }
  }

  lemma {:induction false} SubsetCount<A>(small: set<A>, big: set<A>)
    requires small <= big
    ensures |small| <= |big|
  {
    if small != {} {
      var x :| x in small;
      SubsetCount(small - {x}, big - {x});
    }
  }

  lemma StoredRowsAreIndexed(tokenize: Tokenizer, rules: Rules, terms: seq<TermRow>, row: TermRow, o: Text)
    requires row in terms && row.key != [] && o in tokenize(row.term)
    ensures IndexRow(o, true, o, row.key) in Rebuilt(tokenize, rules, terms)
  {
    hide Rebuilt, Family;
    var r := IndexRow(o, true, o, row.key);
    RebuiltHolds(tokenize, rules, terms, r);
    var i :| 0 <= i < |terms| && terms[i] == row;
    assert r in ExactRows(tokenize(row.term), row.key);
    assert r in RowsOf(tokenize, rules, terms[i]);
  }

  /** A query with the tokens of a stored term, in any word order, matches every one of its tokens
      exactly under that term's key, and the key passes both floors. */
  lemma SameTokensFindTheKey(tokenize: Tokenizer, rules: Rules, terms: seq<TermRow>, row: TermRow, query: Text)
    requires row in terms && row.key != [] && tokenize(query) == tokenize(row.term) != {}
    ensures var rows := Rebuilt(tokenize, rules, terms);
            && Matched(rules, tokenize(query), rows, row.key) == tokenize(query)
            && ExactlyMatched(rules, tokenize(query), rows, row.key) == tokenize(query)
            && Eligible(rules, tokenize(query), rows, row.key)
  {
    hide Rebuilt, Family;
    var rows := Rebuilt(tokenize, rules, terms);
    var q := tokenize(query);
    forall o | o in q
      ensures Covers(rules, q, RowsUnder(rows, row.key), o) && ExactlyCovers(rules, q, RowsUnder(rows, row.key), o)
      ensures IndexRow(o, true, o, row.key) in rows
    {
      StoredRowsAreIndexed(tokenize, rules, terms, row, o);
      assert IndexRow(o, true, o, row.key) in RowsUnder(rows, row.key);
      assert o in Origins(rules, q, o);
    }
    assert Matched(rules, q, rows, row.key) == q;
    ExactRowsCount(q, row.key);
    SubsetCount(ExactRows(q, row.key), set r | r in RowsUnder(rows, row.key) && r.exact);
  }

  // The query as it runs

  lemma OneMoreRow(rules: Rules, query: set<Text>, rows: set<IndexRow>, r: IndexRow, key: Text)
    ensures var origins := if r.key == key then Origins(rules, query, r.token) else {};
            && Matched(rules, query, rows + {r}, key) == Matched(rules, query, rows, key) + origins
            && ExactlyMatched(rules, query, rows + {r}, key)
               == ExactlyMatched(rules, query, rows, key) + (if r.exact && r.token in origins then {r.token} else {})
            && StoredMatched(rules, query, rows + {r}, key)
               == StoredMatched(rules, query, rows, key) + (if origins != {} then {r.source} else {})
  {
    hide Origins;
    var more := RowsUnder(rows + {r}, key);
    assert more == RowsUnder(rows, key) + if r.key == key then {r} else {};
    OriginsAreQueried(rules, query, r.token);
    forall o ensures Covers(rules, query, more, o)
      <==> Covers(rules, query, RowsUnder(rows, key), o) || (r.key == key && o in Origins(rules, query, r.token))
    {
      if x :| x in RowsUnder(rows, key) && o in Origins(rules, query, x.token) { assert x in more; }
      if r.key == key { assert r in more; }
    }
    forall o ensures ExactlyCovers(rules, query, more, o)
      <==> ExactlyCovers(rules, query, RowsUnder(rows, key), o)
           || (r.key == key && r.exact && r.token == o && o in Origins(rules, query, r.token))
    {
      if x :| x in RowsUnder(rows, key) && x.exact && x.token == o && o in Origins(rules, query, x.token) { assert x in more; }
      if r.key == key { assert r in more; }
    }
  }

  lemma OriginsAreQueried(rules: Rules, query: set<Text>, token: Text)
    ensures Origins(rules, query, token) <= query
  {
  }

  function At(m: map<Text, set<Text>>, key: Text): set<Text> {
    if key in m then m[key] else {}
  }

  /** What the row loop holds about one key. */
  predicate Gathered(rules: Rules, query: set<Text>, seen: set<IndexRow>, key: Text,
                     matched: map<Text, set<Text>>, exact: map<Text, set<Text>>, stored: map<Text, set<Text>>) {
    && (key in matched <==> Matched(rules, query, seen, key) != {})
    && At(matched, key) == Matched(rules, query, seen, key)
    && At(exact, key) == ExactlyMatched(rules, query, seen, key)
    && At(stored, key) == StoredMatched(rules, query, seen, key)
  }

  method Gather(rules: Rules, query: set<Text>, rows: set<IndexRow>)
    returns (matched: map<Text, set<Text>>, exact: map<Text, set<Text>>, stored: map<Text, set<Text>>)
    ensures forall key :: Gathered(rules, query, rows, key, matched, exact, stored)
  {
    hide Origins, Matched, ExactlyMatched, StoredMatched;
    matched, exact, stored := map[], map[], map[];
    var left := rows;
    ghost var seen: set<IndexRow> := {};
    forall key ensures Gathered(rules, query, {}, key, matched, exact, stored) { NothingGathered(rules, query, key); }
    while left != {}
      invariant left <= rows && seen == rows - left
      invariant forall key :: Gathered(rules, query, seen, key, matched, exact, stored)
      decreases left
    {
      var r :| r in left;
      ghost var (m0, e0, s0) := (matched, exact, stored);
      var origins := Origins(rules, query, r.token);
      if origins != {} {
        matched := matched[r.key := At(matched, r.key) + origins];
        stored := stored[r.key := At(stored, r.key) + {r.source}];
        if r.exact && r.token in origins { exact := exact[r.key := At(exact, r.key) + {r.token}]; }
      }
      forall key ensures Gathered(rules, query, seen + {r}, key, matched, exact, stored) {
        assert Gathered(rules, query, seen, key, m0, e0, s0);
        OneMoreRow(rules, query, seen, r, key);
      }
      left := left - {r};
      seen := seen + {r};
    }
    assert seen == rows;
  }

  lemma NothingGathered(rules: Rules, query: set<Text>, key: Text)
    ensures Gathered(rules, query, {}, key, map[], map[], map[])
  {
    assert RowsUnder({}, key) == {};
  }

  /** A candidate with its two counts; fractions of one query compare as their counts do. */
  datatype Candidate = Candidate(key: Text, matched: nat, exact: nat)

  function CandidateOf(rules: Rules, query: set<Text>, rows: set<IndexRow>, key: Text): Candidate {
    Candidate(key, |Matched(rules, query, rows, key)|, |ExactlyMatched(rules, query, rows, key)|)
  }

  predicate RankLeq(a: Candidate, b: Candidate) {
    a.matched > b.matched
    || (a.matched == b.matched && (a.exact > b.exact || (a.exact == b.exact && TextLeq(a.key, b.key))))
  }

  predicate Ranked(candidates: seq<Candidate>) {
    forall i, j :: 0 <= i < j < |candidates| ==> candidates[i].key != candidates[j].key && RankLeq(candidates[i], candidates[j])
  }

  lemma {:induction false} TextOrder(a: Text, b: Text, c: Text)
    ensures TextLeq(a, b) || TextLeq(b, a)
    ensures TextLeq(a, b) && TextLeq(b, c) ==> TextLeq(a, c)
  {
    if a != [] && b != [] {
      TextOrder(a[1..], b[1..], if c == [] then [] else c[1..]);
    }
  }

  lemma RankOrder(a: Candidate, b: Candidate, c: Candidate)
    ensures RankLeq(a, b) || RankLeq(b, a)
    ensures RankLeq(a, b) && RankLeq(b, c) ==> RankLeq(a, c)
  {
    TextOrder(a.key, b.key, c.key);
  }

  function InsertCandidate(c: Candidate, ranked: seq<Candidate>): seq<Candidate> {
    if ranked == [] || RankLeq(c, ranked[0]) then [c] + ranked
    else [ranked[0]] + InsertCandidate(c, ranked[1..])
  }

  lemma {:induction false} InsertCandidateHolds(c: Candidate, ranked: seq<Candidate>, x: Candidate)
    ensures x in InsertCandidate(c, ranked) <==> x == c || x in ranked
  {
    if ranked != [] {
      assert ranked == [ranked[0]] + ranked[1..];
      InsertCandidateHolds(c, ranked[1..], x);
    }
  }

  lemma RankedCons(c: Candidate, ranked: seq<Candidate>)
    requires Ranked(ranked) && forall x :: x in ranked ==> x.key != c.key && RankLeq(c, x)
    ensures Ranked([c] + ranked)
  {
    forall j | 0 <= j < |ranked| ensures c.key != ranked[j].key && RankLeq(c, ranked[j]) { assert ranked[j] in ranked; }
  }

  lemma {:induction false} InsertCandidateRanks(c: Candidate, ranked: seq<Candidate>)
    requires Ranked(ranked) && forall x :: x in ranked ==> x.key != c.key
    ensures Ranked(InsertCandidate(c, ranked))
  {
    hide RankLeq;
    if ranked != [] && !RankLeq(c, ranked[0]) {
      RankOrder(c, ranked[0], c);
      InsertCandidateRanks(c, ranked[1..]);
      forall x | x in InsertCandidate(c, ranked[1..]) ensures x.key != ranked[0].key && RankLeq(ranked[0], x) {
        InsertCandidateHolds(c, ranked[1..], x);
        if x != c { var j :| 0 <= j < |ranked| - 1 && ranked[1..][j] == x; assert ranked[j + 1] == x; }
      }
      assert ranked[0] in ranked;
      RankedCons(ranked[0], InsertCandidate(c, ranked[1..]));
    } else {
      forall x | x in ranked ensures x.key != c.key && RankLeq(c, x) {
        var j :| 0 <= j < |ranked| && ranked[j] == x;
        if j > 0 { RankOrder(c, ranked[0], x); }
      }
      RankedCons(c, ranked);
    }
  }

  /** `_paraphrase_candidate_keys`, with the candidates' counts beside their keys. */
  method CandidateKeys(tokenize: Tokenizer, rules: Rules, rows: set<IndexRow>, term: Text) returns (ranked: seq<Candidate>)
    ensures Ranked(ranked)
    ensures forall c :: c in ranked <==>
      Eligible(rules, tokenize(term), rows, c.key) && c == CandidateOf(rules, tokenize(term), rows, c.key)
  {
    hide Matched, ExactlyMatched, StoredMatched, StoredTotal, RankLeq;
    var query := tokenize(term);
    if query == {} {
      NothingMatches(rules, rows);
      return [];
    }
    var matched, exact, stored := Gather(rules, query, rows);
    var left := matched.Keys;
    ranked := [];
    while left != {}
      invariant left <= matched.Keys && Ranked(ranked)
      invariant forall c :: c in ranked <==>
        c.key in matched && c.key !in left && Eligible(rules, query, rows, c.key) && c == CandidateOf(rules, query, rows, c.key)
      decreases left
    {
      var key :| key in left;
      assert Gathered(rules, query, rows, key, matched, exact, stored);
      var total := StoredTotal(rows, key);
      var kept := 10 * |matched[key]| >= 6 * |query|
        && (total < |query| ==> total > 0 && 10 * |At(stored, key)| >= 6 * total);
      assert kept <==> Eligible(rules, query, rows, key);
      if kept {
        var c := Candidate(key, |matched[key]|, |At(exact, key)|);
        InsertCandidateRanks(c, ranked);
        forall x ensures x in InsertCandidate(c, ranked) <==> x == c || x in ranked { InsertCandidateHolds(c, ranked, x); }
        ranked := InsertCandidate(c, ranked);
      }
      left := left - {key};
    }
    forall key | Eligible(rules, query, rows, key) ensures key in matched {
      assert Gathered(rules, query, rows, key, matched, exact, stored);
    }
  }

  lemma NothingMatches(rules: Rules, rows: set<IndexRow>)
    ensures forall key :: !Eligible(rules, {}, rows, key)
  {
  }

  /** Nothing ranks above a key with the query's own tokens unless it matches as many, as exactly. */
  lemma SameTokensRankFirst(tokenize: Tokenizer, rules: Rules, terms: seq<TermRow>, row: TermRow, query: Text, other: Text)
    requires row in terms && row.key != [] && tokenize(query) == tokenize(row.term) != {}
    ensures var rows := Rebuilt(tokenize, rules, terms);
            var (best, c) := (CandidateOf(rules, tokenize(query), rows, row.key), CandidateOf(rules, tokenize(query), rows, other));
            RankLeq(c, best) ==> c.matched == best.matched && c.exact == best.exact
  {
    hide Rebuilt, Eligible;
    var rows := Rebuilt(tokenize, rules, terms);
    var q := tokenize(query);
    SameTokensFindTheKey(tokenize, rules, terms, row, query);
    SubsetCount(Matched(rules, q, rows, other), q);
    SubsetCount(ExactlyMatched(rules, q, rows, other), q);
  }
}
