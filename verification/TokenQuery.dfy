/** The candidate query told over the stored terms alone, without the index: which tokens match, and which keys
    pass the two floors. */
module TokenQuery {
  import opened Prelude
  import opened Utf8
  import opened JsonOrder
  import opened TokenIndex

  /** The same token, one the other's stem, or two of one family. */
  predicate Akin(rules: Rules, o: Text, t: Text) {
    || o == t
    || (Family(rules, o) != [] && Family(rules, o) == t)
    || (Family(rules, t) != [] && Family(rules, t) == o)
    || (Family(rules, o) != [] && Family(rules, o) == Family(rules, t))
  }

  /** A token of a term stored under the key. */
  predicate IsStored(tokenize: Tokenizer, terms: seq<TermRow>, key: Text, t: Text) {
    key != [] && exists i :: 0 <= i < |terms| && terms[i].key == key && t in tokenize(terms[i].term)
  }

  lemma RowOfToken(tokenize: Tokenizer, rules: Rules, terms: seq<TermRow>, r: IndexRow)
    ensures r in Rebuilt(tokenize, rules, terms) <==>
      && IsStored(tokenize, terms, r.key, r.source)
      && if r.exact then r.token == r.source else r.token != [] && r.token == Family(rules, r.source)
  {
    hide Rebuilt, Family;
    RebuiltHolds(tokenize, rules, terms, r);
    if r in Rebuilt(tokenize, rules, terms) {
      var i :| 0 <= i < |terms| && r in RowsOf(tokenize, rules, terms[i]);
      assert terms[i].key == r.key;
    }
    if i :| 0 <= i < |terms| && terms[i].key == r.key && r.source in tokenize(terms[i].term) {
      if r.key != [] && r.exact && r.token == r.source { assert r in ExactRows(tokenize(terms[i].term), r.key); }
      if r.key != [] && !r.exact && r.token != [] && r.token == Family(rules, r.source) {
        assert r in FamilyRows(rules, tokenize(terms[i].term), r.key);
      }
      if r in ExactRows(tokenize(terms[i].term), r.key) + FamilyRows(rules, tokenize(terms[i].term), r.key) && r.key != [] {
        assert r in RowsOf(tokenize, rules, terms[i]);
      }
    }
  }

  /** The rows of a stored token that a query token looks up. */
  lemma AkinIsIndexed(tokenize: Tokenizer, rules: Rules, terms: seq<TermRow>, query: set<Text>, key: Text, o: Text, t: Text)
    requires o in query && IsStored(tokenize, terms, key, t)
    ensures Akin(rules, o, t) <==>
      exists r :: r in RowsUnder(Rebuilt(tokenize, rules, terms), key) && r.source == t && o in Origins(rules, query, r.token)
  {
    hide Rebuilt, Family, IsStored;
    var rows := Rebuilt(tokenize, rules, terms);
    var (exact, family) := (IndexRow(t, true, t, key), IndexRow(Family(rules, t), false, t, key));
    RowOfToken(tokenize, rules, terms, exact);
    RowOfToken(tokenize, rules, terms, family);
    assert exact in RowsUnder(rows, key);
    if Akin(rules, o, t) {
      if o in Origins(rules, query, t) {
        assert o in Origins(rules, query, exact.token);
      } else {
        assert family in RowsUnder(rows, key) && o in Origins(rules, query, family.token);
      }
    }
    if r :| r in RowsUnder(rows, key) && r.source == t && o in Origins(rules, query, r.token) {
      RowOfToken(tokenize, rules, terms, r);
    }
  }

  /** A query token is matched exactly when a stored token of the key is akin to it. */
  lemma MatchedExactly(tokenize: Tokenizer, rules: Rules, terms: seq<TermRow>, query: set<Text>, key: Text, o: Text)
    ensures o in Matched(rules, query, Rebuilt(tokenize, rules, terms), key) <==>
      o in query && exists t :: IsStored(tokenize, terms, key, t) && Akin(rules, o, t)
  {
    hide Rebuilt, Family, IsStored, Akin, Origins;
    var under := RowsUnder(Rebuilt(tokenize, rules, terms), key);
    if o in query {
      if r :| r in under && o in Origins(rules, query, r.token) {
        RowOfToken(tokenize, rules, terms, r);
        AkinIsIndexed(tokenize, rules, terms, query, key, o, r.source);
      }
      if t :| IsStored(tokenize, terms, key, t) && Akin(rules, o, t) {
        AkinIsIndexed(tokenize, rules, terms, query, key, o, t);
      }
    }
  }

  /** It is matched exactly when it is itself a stored token of the key. */
  lemma ExactExactly(tokenize: Tokenizer, rules: Rules, terms: seq<TermRow>, query: set<Text>, key: Text, o: Text)
    ensures o in ExactlyMatched(rules, query, Rebuilt(tokenize, rules, terms), key) <==> o in query && IsStored(tokenize, terms, key, o)
  {
    hide Rebuilt, Family, IsStored;
    var under := RowsUnder(Rebuilt(tokenize, rules, terms), key);
    var row := IndexRow(o, true, o, key);
    RowOfToken(tokenize, rules, terms, row);
    if o in query && IsStored(tokenize, terms, key, o) {
      assert row in under && o in Origins(rules, query, row.token);
    }
    if r :| r in under && r.exact && r.token == o && o in Origins(rules, query, r.token) {
      RowOfToken(tokenize, rules, terms, r);
    }
  }

  /** A stored token is matched exactly when a query token is akin to it. */
  lemma StoredMatchedExactly(tokenize: Tokenizer, rules: Rules, terms: seq<TermRow>, query: set<Text>, key: Text, t: Text)
    ensures t in StoredMatched(rules, query, Rebuilt(tokenize, rules, terms), key) <==>
      IsStored(tokenize, terms, key, t) && exists o :: o in query && Akin(rules, o, t)
  {
    hide Rebuilt, Family, IsStored, Akin, Origins;
    var rows := Rebuilt(tokenize, rules, terms);
    if r :| r in RowsUnder(rows, key) && Origins(rules, query, r.token) != {} && r.source == t {
      RowOfToken(tokenize, rules, terms, r);
      var o :| o in Origins(rules, query, r.token);
      OriginsAreQueried(rules, query, r.token);
      AkinIsIndexed(tokenize, rules, terms, query, key, o, t);
    }
    if IsStored(tokenize, terms, key, t) {
      if o :| o in query && Akin(rules, o, t) {
        AkinIsIndexed(tokenize, rules, terms, query, key, o, t);
        var r :| r in RowsUnder(rows, key) && r.source == t && o in Origins(rules, query, r.token);
        assert t in StoredMatched(rules, query, rows, key);
      }
    }
  }

  /** The distinct tokens stored under a key. */
  function StoredTokens(tokenize: Tokenizer, terms: seq<TermRow>, key: Text): set<Text> {
    if terms == [] || key == [] then {}
    else StoredTokens(tokenize, terms[1..], key) + if terms[0].key == key then tokenize(terms[0].term) else {}
  }

  lemma {:induction false} StoredTokensHold(tokenize: Tokenizer, terms: seq<TermRow>, key: Text, t: Text)
    ensures t in StoredTokens(tokenize, terms, key) <==> IsStored(tokenize, terms, key, t)
  {
    if terms != [] && key != [] {
      var rest := terms[1..];
      StoredTokensHold(tokenize, rest, key, t);
      assert forall i :: 0 <= i < |rest| ==> rest[i] == terms[i + 1];
      if i :| 0 <= i < |terms| && terms[i].key == key && t in tokenize(terms[i].term) {
        if i > 0 { assert rest[i - 1] == terms[i]; }
      }
    }
  }

  /** The count of exact rows is the count of distinct stored tokens. */
  lemma TotalExactly(tokenize: Tokenizer, rules: Rules, terms: seq<TermRow>, key: Text)
    ensures StoredTotal(Rebuilt(tokenize, rules, terms), key) == |StoredTokens(tokenize, terms, key)|
  {
    hide Rebuilt, StoredTokens, IsStored;
    var rows := Rebuilt(tokenize, rules, terms);
    var tokens := StoredTokens(tokenize, terms, key);
    var exact := set r | r in RowsUnder(rows, key) && r.exact;
    forall r ensures r in exact <==> r in ExactRows(tokens, key) {
      RowOfToken(tokenize, rules, terms, r);
      StoredTokensHold(tokenize, terms, key, r.source);
    }
    assert exact == ExactRows(tokens, key);
    ExactRowsCount(tokens, key);
  }

  /** Of a whole that is not empty, the part is at least three fifths. */
  predicate IsThreeFifths(part: nat, whole: nat) {
    whole > 0 && part as real / whole as real >= 0.6
  }

  lemma FloorIs(part: nat, whole: nat)
    requires whole > 0
    ensures IsThreeFifths(part, whole) <==> 10 * part >= 6 * whole
  {
    var (p, w) := (part as real, whole as real);
    assert p / w >= 0.6 <==> p >= 0.6 * w by {
      assert (p / w) * w == p;
      if p / w >= 0.6 { Scaled(0.6, p / w, w); }
      if p / w < 0.6 { ScaledBelow(p / w, 0.6, w); }
    }
  }

  lemma Scaled(x: real, y: real, w: real)
    requires x <= y && w > 0.0
    ensures x * w <= y * w
  {
  }

  lemma ScaledBelow(x: real, y: real, w: real)
    requires x < y && w > 0.0
    ensures x * w < y * w
  {
  }

  /** The matched query tokens, and the stored tokens they are akin to. */
  ghost predicate AreMatches(tokenize: Tokenizer, rules: Rules, terms: seq<TermRow>, query: set<Text>, key: Text,
                             matched: set<Text>, stored: set<Text>) {
    && (forall o :: o in matched <==> o in query && exists t :: t in StoredTokens(tokenize, terms, key) && Akin(rules, o, t))
    && forall t :: t in stored <==> t in StoredTokens(tokenize, terms, key) && exists o :: o in query && Akin(rules, o, t)
  }

  /** A stored key is a candidate exactly when at least three fifths of the query's tokens are akin to its own,
      and, where it has fewer tokens than the query, at least three fifths of them are akin to the query's. */
  lemma EligibleExactly(tokenize: Tokenizer, rules: Rules, terms: seq<TermRow>, query: set<Text>, key: Text,
                        matched: set<Text>, stored: set<Text>)
    requires AreMatches(tokenize, rules, terms, query, key, matched, stored)
    ensures var tokens := StoredTokens(tokenize, terms, key);
            Eligible(rules, query, Rebuilt(tokenize, rules, terms), key) <==>
              && matched != {} && IsThreeFifths(|matched|, |query|)
              && (|tokens| < |query| ==> IsThreeFifths(|stored|, |tokens|))
  {
    hide Rebuilt, Family, IsStored, Akin, StoredTokens, Matched, StoredMatched, StoredTotal, IsThreeFifths;
    MatchesAre(tokenize, rules, terms, query, key, matched, stored);
    TotalExactly(tokenize, rules, terms, key);
    var tokens := StoredTokens(tokenize, terms, key);
    if matched != {} {
      assert query != {} by { var o :| o in matched; assert o in query; }
      FloorIs(|matched|, |query|);
    }
    if |tokens| > 0 { FloorIs(|stored|, |tokens|); } else { NothingIsNoPart(|stored|); }
  }

  lemma NothingIsNoPart(part: nat)
    ensures !IsThreeFifths(part, 0)
  {
  }

  lemma MatchesAre(tokenize: Tokenizer, rules: Rules, terms: seq<TermRow>, query: set<Text>, key: Text,
                   matched: set<Text>, stored: set<Text>)
    requires AreMatches(tokenize, rules, terms, query, key, matched, stored)
    ensures matched == Matched(rules, query, Rebuilt(tokenize, rules, terms), key)
    ensures stored == StoredMatched(rules, query, Rebuilt(tokenize, rules, terms), key)
  {
    hide Rebuilt, Family, IsStored, Akin, StoredTokens, Matched, StoredMatched;
    var rows := Rebuilt(tokenize, rules, terms);
    forall t ensures t in StoredTokens(tokenize, terms, key) <==> IsStored(tokenize, terms, key, t) {
      StoredTokensHold(tokenize, terms, key, t);
    }
    forall o ensures o in matched <==> o in Matched(rules, query, rows, key) { MatchedExactly(tokenize, rules, terms, query, key, o); }
    forall t ensures t in stored <==> t in StoredMatched(rules, query, rows, key) {
      StoredMatchedExactly(tokenize, rules, terms, query, key, t);
    }
  }

  /** Candidates of one query stand by the fraction matched, then by the exact matches, then by the bytes of the key. */
  lemma RankExactly(a: Candidate, b: Candidate, total: nat)
    requires total > 0
    ensures var (x, y) := (a.matched as real / total as real, b.matched as real / total as real);
            RankLeq(a, b) <==> x > y || (x == y && (a.exact > b.exact || (a.exact == b.exact && TextLeq(a.key, b.key))))
  {
    var (x, y, w) := (a.matched as real, b.matched as real, total as real);
    assert (x / w) * w == x && (y / w) * w == y;
    if x / w > y / w { ScaledBelow(y / w, x / w, w); }
    if x / w < y / w { ScaledBelow(x / w, y / w, w); }
  }
}
