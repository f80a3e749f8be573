/** The seed that a list's genesis records: what a reader of the genesis gets is what its creator captured. */
module MailGenesis {
  import opened Prelude
  import opened Utf8
  import opened PyText
  import opened Git
  import opened MailList
  import MailGrammar

  const FIRST_LINE := T("list: genesis")
  const SEED := T("Seed: ")
  const SEED_TREE := T("Seed-Tree: ")

  /** What `genesis_seed` makes of a message; NoSeed stands for its None. */
  datatype Seed = NoSeed | BadSeed | SeedOf(commit: Text, tree: Text)

  /** What stands behind a prefix in the lines that have it. */
  function Behind(prefix: Text, lines: seq<Text>): seq<Text> {
    if lines == [] then []
    else (if prefix <= lines[0] then [lines[0][|prefix|..]] else []) + Behind(prefix, lines[1..])
  }

  /** `_parse_genesis_seed`. */
  function ParseSeed(message: Text): Seed {
    var stripped := StripNewlines(message);
    if !(FIRST_LINE <= stripped) then NoSeed
    else
      var (seeds, trees) := (Behind(SEED, SplitLines(stripped)), Behind(SEED_TREE, SplitLines(stripped)));
      if seeds == [] && trees == [] then NoSeed
      else if |seeds| != 1 || |trees| != 1 || seeds[0] == [] || trees[0] == [] then BadSeed
      else SeedOf(seeds[0], trees[0])
  }

  /** Of these lines exactly one has the prefix, and it goes on with v. */
  predicate HasOnly(lines: seq<Text>, prefix: Text, v: Text) {
    exists i :: 0 <= i < |lines| && lines[i] == prefix + v && forall j :: 0 <= j < |lines| && j != i ==> !(prefix <= lines[j])
  }

  predicate HasNone(lines: seq<Text>, prefix: Text) {
    forall i :: 0 <= i < |lines| ==> !(prefix <= lines[i])
  }

  lemma {:induction false} BehindIs(prefix: Text, lines: seq<Text>, v: Text)
    ensures Behind(prefix, lines) == [] <==> HasNone(lines, prefix)
    ensures Behind(prefix, lines) == [v] <==> HasOnly(lines, prefix, v)
  {
    if lines != [] {
      var (line, rest) := (lines[0], lines[1..]);
      BehindIs(prefix, rest, v);
      assert forall i :: 0 <= i < |rest| ==> rest[i] == lines[i + 1];
      assert prefix <= line ==> line == prefix + line[|prefix|..];
      assert prefix <= prefix + v && (prefix + v)[|prefix|..] == v;
      FirstOrRest(prefix, lines, v);
    }
  }

  lemma FirstOrRest(prefix: Text, lines: seq<Text>, v: Text)
    requires lines != []
    ensures HasNone(lines, prefix) <==> !(prefix <= lines[0]) && HasNone(lines[1..], prefix)
    ensures HasOnly(lines, prefix, v) <==>
      if prefix <= lines[0] then lines[0] == prefix + v && HasNone(lines[1..], prefix) else HasOnly(lines[1..], prefix, v)
  {
    var rest := lines[1..];
    assert forall i :: 0 <= i < |rest| ==> rest[i] == lines[i + 1];
    assert prefix <= prefix + v;
    if prefix <= lines[0] {
      if HasOnly(lines, prefix, v) {
        var i :| 0 <= i < |lines| && lines[i] == prefix + v && forall j :: 0 <= j < |lines| && j != i ==> !(prefix <= lines[j]);
        assert i == 0;
      }
    } else {
      if HasOnly(lines, prefix, v) {
        var i :| 0 <= i < |lines| && lines[i] == prefix + v && forall j :: 0 <= j < |lines| && j != i ==> !(prefix <= lines[j]);
        assert rest[i - 1] == lines[i];
      }
      if i :| 0 <= i < |rest| && rest[i] == prefix + v && forall j :: 0 <= j < |rest| && j != i ==> !(prefix <= rest[j]) {
        assert lines[i + 1] == rest[i];
        forall j | 0 <= j < |lines| && j != i + 1 ensures !(prefix <= lines[j]) {
          if j > 0 { assert !(prefix <= rest[j - 1]); }
        }
      }
    }
  }

  /** A seed is read from exactly the genesis messages with one line of each kind, neither empty; a genesis with
      neither line, and what is no genesis, has none; any other is refused. */
  lemma SeedExactly(message: Text, seed: Text, tree: Text)
    ensures var lines := SplitLines(StripNewlines(message));
            && (ParseSeed(message) == SeedOf(seed, tree) <==>
                  && T("list: genesis") <= message && seed != [] && tree != []
                  && HasOnly(lines, T("Seed: "), seed) && HasOnly(lines, T("Seed-Tree: "), tree))
            && (ParseSeed(message) == NoSeed <==>
                  !(T("list: genesis") <= message) || (HasNone(lines, T("Seed: ")) && HasNone(lines, T("Seed-Tree: "))))
  {
    hide SplitLines, StripNewlines, Behind, HasOnly, HasNone;
    assert FIRST_LINE[|FIRST_LINE| - 1] == 0x73;
    MailGrammar.PrefixUnderStrip(message, FIRST_LINE);
    hide T;
    var lines := SplitLines(StripNewlines(message));
    BehindIs(SEED, lines, seed);
    BehindIs(SEED_TREE, lines, tree);
  }

  /** An object name: a text of one line. */
  predicate IsObjectName(t: Text) {
    t != [] && Plain(t)
  }

  lemma BehindOne(prefix: Text, line: Text, lines: seq<Text>)
    ensures Behind(prefix, [line] + lines) == (if prefix <= line then [line[|prefix|..]] else []) + Behind(prefix, lines)
  {
    assert ([line] + lines)[1..] == lines;
  }

  /** The genesis message without its last newline, line by line. */
  function GenesisText(seed: Text, tree: Text): Text {
    FIRST_LINE + [NEWLINE] + ([] + [NEWLINE] + (SEED + seed + [NEWLINE] + (SEED_TREE + tree)))
  }

  lemma GenesisIsText(seed: Text, tree: Text)
    ensures GenesisMessage(seed, tree) == GenesisText(seed, tree) + [NEWLINE]
  {
    var gap: Text, second: Text := T("\n\nSeed: "), T("\nSeed-Tree: ");
    assert gap == [NEWLINE, NEWLINE] + SEED && second == [NEWLINE] + SEED_TREE;
    Regroup(FIRST_LINE, SEED, seed, SEED_TREE, tree);
  }

  lemma Regroup(a: Text, s: Text, seed: Text, t: Text, tree: Text)
    ensures a + ([NEWLINE, NEWLINE] + s) + seed + ([NEWLINE] + t) + tree + [NEWLINE]
         == a + [NEWLINE] + ([] + [NEWLINE] + (s + seed + [NEWLINE] + (t + tree))) + [NEWLINE]
  {
  }

  lemma GenesisIsStripped(seed: Text, tree: Text)
    requires IsObjectName(tree)
    ensures StripNewlines(GenesisMessage(seed, tree)) == GenesisText(seed, tree)
  {
    hide Plain, T, GenesisMessage;
    GenesisIsText(seed, tree);
    LastIsPlain(tree);
    var all := GenesisText(seed, tree);
    assert all[|all| - 1] == tree[|tree| - 1];
    assert (all + [NEWLINE])[..|all|] == all;
  }

  lemma FourLines(seed: Text, tree: Text)
    requires IsObjectName(seed) && IsObjectName(tree)
    ensures SplitLines(GenesisText(seed, tree)) == [FIRST_LINE, [], SEED + seed, SEED_TREE + tree]
  {
    hide SplitLines, Plain, T;
    PlainLinesHere(seed, tree);
    var last := SEED_TREE + tree;
    var third := SEED + seed + [NEWLINE] + last;
    var second := [] + [NEWLINE] + third;
    SplitOne(last);
    SplitFirst(SEED + seed, last);
    SplitFirst([], third);
    SplitFirst(FIRST_LINE, second);
    assert [FIRST_LINE] + ([[]] + ([SEED + seed] + [last])) == [FIRST_LINE, [], SEED + seed, last];
  }

  lemma LastIsPlain(t: Text)
    requires IsObjectName(t)
    ensures !IsSeparator(t[|t| - 1]) && t[|t| - 1] != NEWLINE
  {
  }

  lemma PlainLinesHere(seed: Text, tree: Text)
    requires Plain(seed) && Plain(tree)
    ensures Plain(FIRST_LINE) && Plain([]) && Plain(SEED + seed) && Plain(SEED_TREE + tree) && SEED_TREE + tree != []
  {
    assert Plain(SEED) && Plain(SEED_TREE);
  }

  /** The seed that the genesis records is read back. */
  lemma SeedReadsBack(seed: Text, tree: Text)
    requires IsObjectName(seed) && IsObjectName(tree)
    ensures ParseSeed(GenesisMessage(seed, tree)) == SeedOf(seed, tree)
  {
    hide SplitLines, Behind, StripNewlines, GenesisMessage, Plain;
    GenesisIsStripped(seed, tree);
    FourLines(seed, tree);
    assert FIRST_LINE <= GenesisText(seed, tree);
    var (s, t) := (SEED + seed, SEED_TREE + tree);
    var lines := [FIRST_LINE, [], s, t];
    assert lines == [FIRST_LINE] + ([[]] + ([s] + ([t] + [])));
    NothingBehind();
    PrefixesHere(seed, tree);
    BehindOne(SEED, t, []);
    BehindOne(SEED, s, [t] + []);
    BehindOne(SEED, [], [s] + ([t] + []));
    BehindOne(SEED, FIRST_LINE, [[]] + ([s] + ([t] + [])));
    BehindOne(SEED_TREE, t, []);
    BehindOne(SEED_TREE, s, [t] + []);
    BehindOne(SEED_TREE, [], [s] + ([t] + []));
    BehindOne(SEED_TREE, FIRST_LINE, [[]] + ([s] + ([t] + [])));
    assert s[|SEED|..] == seed && t[|SEED_TREE|..] == tree;
    assert [] + ([] + ([seed] + ([] + []))) == [seed] && [] + ([] + ([] + ([tree] + []))) == [tree];
  }

  lemma NothingBehind()
    ensures forall prefix :: Behind(prefix, []) == []
  {
  }

  lemma PrefixesHere(seed: Text, tree: Text)
    ensures SEED <= SEED + seed && !(SEED <= SEED_TREE + tree) && !(SEED <= FIRST_LINE) && !(SEED <= [])
    ensures SEED_TREE <= SEED_TREE + tree && !(SEED_TREE <= SEED + seed) && !(SEED_TREE <= FIRST_LINE) && !(SEED_TREE <= [])
  {
    assert SEED[4] == 0x3A && SEED_TREE[4] == 0x2D && (SEED_TREE + tree)[4] == SEED_TREE[4] && (SEED + seed)[4] == SEED[4];
    assert SEED[0] == 0x53 == SEED_TREE[0] && FIRST_LINE[0] == 0x6C;
  }

  // Over a run

  /** The caller made this commit as a genesis, in a step before n, of the seed it had captured. */
  ghost predicate MadeBy(actions: seq<Action>, n: nat, caller: nat, store: Store<TreeId>, c: Oid, k: nat, seed: Text, tree: Text) {
    && k < n <= |actions| && c < |store| && actions[k].Commit? && actions[k].caller == caller
    && actions[k].seed == Some((seed, tree)) && actions[k].commit == c
    && store[c] == Git.Commit(EMPTY_TREE, [], GenesisMessage(seed, tree))
  }

  ghost predicate IsMade(actions: seq<Action>, n: nat, caller: nat, store: Store<TreeId>, c: Oid) {
    exists k, seed, tree :: MadeBy(actions, n, caller, store, c, k, seed, tree)
  }

  ghost predicate AllMade(w: World, actions: seq<Action>, n: nat) {
    && (forall caller :: caller in w.calls && w.calls[caller].EnsureSwap? ==> IsMade(actions, n, caller, w.store, w.calls[caller].genesis))
    && (w.log != [] && w.log[0].caller.Some? ==> IsMade(actions, n, w.log[0].caller.value, w.store, w.log[0].commit))
  }

  lemma StaysMade(actions: seq<Action>, m: nat, n: nat, caller: nat, store: Store<TreeId>, after: Store<TreeId>, c: Oid)
    requires m <= n <= |actions| && Extends(after, store) && IsMade(actions, m, caller, store, c)
    ensures IsMade(actions, n, caller, after, c)
  {
    var k, seed, tree :| MadeBy(actions, m, caller, store, c, k, seed, tree);
    assert MadeBy(actions, n, caller, after, c, k, seed, tree);
  }

  lemma StepKeepsMade(w: World, w': World, actions: seq<Action>, n: nat)
    requires n < |actions| && Inv(w) && StepOk(w, actions[n], w') && Extends(w'.store, w.store) && AllMade(w, actions, n)
    ensures AllMade(w', actions, n + 1)
  {
    hide IsMade, GenesisMessage, PostCommit, SearchItem, LogOk, PhaseOk, CallerOk, ValidStore;
    forall caller | caller in w.calls && w.calls[caller].EnsureSwap?
      ensures IsMade(actions, n + 1, caller, w'.store, w.calls[caller].genesis)
    {
      StaysMade(actions, n, n + 1, caller, w.store, w'.store, w.calls[caller].genesis);
    }
    if w.log != [] && w.log[0].caller.Some? {
      StaysMade(actions, n, n + 1, w.log[0].caller.value, w.store, w'.store, w.log[0].commit);
    }
    match actions[n]
    case Call(_, _) =>
    case Step(caller) =>
      ListedIsLogged(w);
      if w.log != [] { assert w'.log[0] == w.log[0]; }
    case Commit(caller, seed, commit, _) =>
      if seed.Some? && w.calls[caller].EnsureCommit? { CommitIsMade(w, w', actions, n); }
  }

  lemma ListedIsLogged(w: World)
    requires Inv(w)
    ensures w.list.None? <==> w.log == []
  {
    hide PhaseOk, CallerOk, EntryOk;
  }

  lemma CommitIsMade(w: World, w': World, actions: seq<Action>, n: nat)
    requires n < |actions| && StepOk(w, actions[n], w') && actions[n].Commit? && actions[n].seed.Some?
    requires w.calls[actions[n].caller].EnsureCommit?
    ensures IsMade(actions, n + 1, actions[n].caller, w'.store, actions[n].commit)
    ensures w'.calls == w.calls[actions[n].caller := EnsureSwap(w.calls[actions[n].caller].job, actions[n].commit)] && w'.log == w.log
  {
    hide GenesisMessage, ValidStore;
    var (caller, commit, seed) := (actions[n].caller, actions[n].commit, actions[n].seed.value);
    assert MadeBy(actions, n + 1, caller, w'.store, commit, n, seed.0, seed.1);
  }

  lemma {:induction false} RunKeepsMade(worlds: seq<World>, actions: seq<Action>, n: nat)
    requires IsRun(worlds, actions) && n < |worlds|
    ensures AllMade(worlds[n], actions, n)
  {
    hide AllMade, Inv, StepOk, Extends;
    if n == 0 {
      StartsMade(worlds[0], actions);
    } else {
      RunKeepsMade(worlds, actions, n - 1);
      RunKeepsInvariant(worlds, actions, n - 1);
      assert StepOk(worlds[n - 1], actions[n - 1], worlds[n]);
      ListOnlyGrows(worlds, actions, n - 1, n);
      StepKeepsMade(worlds[n - 1], worlds[n], actions, n - 1);
    }
  }

  lemma StartsMade(w: World, actions: seq<Action>)
    requires Initial(w)
    ensures AllMade(w, actions, 0)
  {
    hide LogOk;
  }

  /** In every world of every run, the genesis of a list that some call created is read as the seed that this very
      call had captured, whoever asks and however the list has grown. */
  lemma SeedIsTheCreators(worlds: seq<World>, actions: seq<Action>, n: nat) returns (k: nat, seed: Text, tree: Text)
    requires IsRun(worlds, actions) && n < |worlds|
    requires worlds[n].log != [] && worlds[n].log[0].caller.Some?
    ensures var w := worlds[n];
            && k < n && actions[k].Commit? && actions[k].caller == w.log[0].caller.value && actions[k].seed == Some((seed, tree))
            && w.list.Some? && w.list.value < |w.store| && ValidStore(w.store)
            && Chain(w.store, w.list.value) != [] && Chain(w.store, w.list.value)[0] == actions[k].commit < |w.store|
            && (IsObjectName(seed) && IsObjectName(tree) ==> ParseSeed(w.store[actions[k].commit].message) == SeedOf(seed, tree))
  {
    hide IsRun, GenesisMessage, ParseSeed, EntryOk, Chain;
    RunKeepsMade(worlds, actions, n);
    ListIsOneChain(worlds, actions, n, 0);
    var w := worlds[n];
    k, seed, tree :| MadeBy(actions, n, w.log[0].caller.value, w.store, w.log[0].commit, k, seed, tree);
    if IsObjectName(seed) && IsObjectName(tree) { SeedReadsBack(seed, tree); }
  }
}
