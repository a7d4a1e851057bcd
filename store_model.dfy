/**
 * The store's relations as values, and the specification of the weighted quest
 * selection: candidate rows, eligibility of online players, the group of entries
 * that tie for the largest number of eligible players, and the cumulative-weight
 * draw inside that group.
 */
module StoreModel {
  import opened Wrappers
  import opened JavaText

  /** One row of `vocab_de_en` or `vocab_de_fr`: the German word and its translation. */
  datatype VocabEntry = VocabEntry(left: string, right: string)

  /** The two vocabulary tables. */
  datatype VocabTable = DeEn | DeFr {
    /** The label the selection query gives rows of this table, also used in attempts and rewards. */
    function Label(): string {
      match this
      case DeEn => "de_en"
      case DeFr => "de_fr"
    }
  }

  /** One row of `vocab_attempts` (the id and the timestamp are not modelled). */
  datatype Attempt = Attempt(username: string, vocabTable: string, deWord: string, correct: bool)

  /** One row of `player_vocab_rewards`; the primary key is the whole triple. */
  datatype RewardRow = RewardRow(username: string, vocabTable: string, deWord: string)

  /** A selectable quest: the row, its attempt count and the number of online players who may still be rewarded. */
  datatype QuestEntry = QuestEntry(vocabTable: string, deWord: string, answer: string,
                                   attempts: nat, eligibleOnlinePlayers: nat)

  /** A snapshot of the five relations of the database. */
  datatype Db = Db(users: set<string>, deEn: seq<VocabEntry>, deFr: seq<VocabEntry>,
                   rewards: set<RewardRow>, attempts: seq<Attempt>)
  {
    function Rows(t: VocabTable): seq<VocabEntry> {
      match t
      case DeEn => deEn
      case DeFr => deFr
    }

    /** The same database with the rows of table `t` replaced. */
    function WithRows(t: VocabTable, rows: seq<VocabEntry>): (d: Db)
      ensures d.Rows(t) == rows
      ensures d.users == users && d.rewards == rewards && d.attempts == attempts
      ensures t.DeEn? ==> d.deFr == deFr
      ensures t.DeFr? ==> d.deEn == deEn
    {
      match t
      case DeEn => this.(deEn := rows)
      case DeFr => this.(deFr := rows)
    }

    /** The number of vocabulary rows over both languages (what `totalVocabularyEntries` reports). */
    function TotalVocabularyEntries(): nat {
      |deEn| + |deFr|
    }
  }

  /**
   * The table a language code selects: the code is trimmed and lower-cased, then
   * "en" means `vocab_de_en` and "fr" means `vocab_de_fr`; anything else is unsupported.
   */
  function LanguageTable(language: string): (t: Option<VocabTable>)
    ensures t == Some(DeEn) <==> ToLower(Trim(language)) == "en"
    ensures t == Some(DeFr) <==> ToLower(Trim(language)) == "fr"
  {
    var normalized := ToLower(Trim(language));
    if normalized == "en" then Some(DeEn)
    else if normalized == "fr" then Some(DeFr)
    else None
  }

  /** The codes the store accepts and one it refuses. */
  lemma LanguageCodes()
    ensures LanguageTable("en") == Some(DeEn)
    ensures LanguageTable("fr") == Some(DeFr)
    ensures LanguageTable("it") == None
  {
    assert IsTrimmed("en") && IsTrimmed("fr") && IsTrimmed("it");
    assert ToLower("en") == "en";
    assert ToLower("fr") == "fr";
    assert ToLower("it") == "it";
  }

  /** Surrounding blanks and upper case do not matter: " EN " selects `vocab_de_en`. */
  lemma LanguageCodeNormalised()
    ensures LanguageTable(" EN ") == Some(DeEn)
  {
    var s := " EN ";
    assert TrimStart(s) == s[1..];
    assert TrimStart(s)[..2] == "EN";
    assert TrimEnd(s[1..]) == "EN";
    assert ToLower("EN") == "en";
  }

  /** A transaction of `statements` statements commits when no fault is injected into one of them. */
  predicate Commits(fault: Option<nat>, statements: nat) {
    fault.None? || fault.value >= statements
  }

  // ---------------------------------------------------------------------------
  // Reward keys
  // ---------------------------------------------------------------------------

  /** The in-memory key of a reward: the three fields joined by `|`. */
  function RewardKey(username: string, vocabTable: string, deWord: string): (k: string)
    ensures |k| == |username| + |vocabTable| + |deWord| + 2
  {
    username + "|" + vocabTable + "|" + deWord
  }

  /** Two keys built from parts without `|` in the first two positions are equal only for equal triples. */
  lemma RewardKeyInjective(u1: string, t1: string, w1: string, u2: string, t2: string, w2: string)
    requires '|' !in u1 && '|' !in u2 && '|' !in t1 && '|' !in t2
    requires RewardKey(u1, t1, w1) == RewardKey(u2, t2, w2)
    ensures u1 == u2 && t1 == t2 && w1 == w2
  {
    var k := RewardKey(u1, t1, w1);
    var rest1 := t1 + ("|" + w1);
    var rest2 := t2 + ("|" + w2);
    assert k == u1 + ("|" + rest1) by { assert t1 + "|" + w1 == rest1; }
    assert k == u2 + ("|" + rest2) by { assert t2 + "|" + w2 == rest2; }
    FirstBarSplit(u1, rest1);
    FirstBarSplit(u2, rest2);
    assert u1 == u2 && rest1 == rest2;
    FirstBarSplit(t1, w1);
    FirstBarSplit(t2, w2);
  }

  /** In `a + "|" + b` with no `|` inside `a`, the first `|` sits right after `a`. */
  lemma FirstBarSplit(a: string, b: string)
    requires '|' !in a
    ensures IndexOf(a + ("|" + b), '|') == |a|
    ensures (a + ("|" + b))[..|a|] == a && (a + ("|" + b))[|a| + 1..] == b
  {
    var s := a + ("|" + b);
    assert s[|a|] == '|';
    assert s[..|a|] == a;
    assert s[..|a| + 1] == a + "|";
  }

  /** The keys of the rewards held by any of `usernames` (the set `loadRewardedKeysForPlayers` returns). */
  function RewardedKeys(rewards: set<RewardRow>, usernames: seq<string>): (keys: set<string>)
    ensures usernames == [] ==> keys == {}
    ensures forall r :: r in rewards && r.username in usernames ==>
              RewardKey(r.username, r.vocabTable, r.deWord) in keys
  {
    set r | r in rewards && r.username in usernames :: RewardKey(r.username, r.vocabTable, r.deWord)
  }

  /** No `|` in the online names, nor in the names and table labels of their reward rows. */
  predicate KeysUnambiguous(rewards: set<RewardRow>, usernames: seq<string>) {
    (forall u :: u in usernames ==> '|' !in u) &&
    (forall r :: r in rewards && r.username in usernames ==> '|' !in r.vocabTable)
  }

  /** With unambiguous keys, a key is rewarded exactly when the reward row exists. */
  lemma RewardedKeysExact(rewards: set<RewardRow>, usernames: seq<string>, u: string, t: string, w: string)
    requires KeysUnambiguous(rewards, usernames)
    requires u in usernames && '|' !in t
    ensures RewardKey(u, t, w) in RewardedKeys(rewards, usernames) <==> RewardRow(u, t, w) in rewards
  {
    if RewardKey(u, t, w) in RewardedKeys(rewards, usernames) {
      var r :| r in rewards && r.username in usernames
             && RewardKey(r.username, r.vocabTable, r.deWord) == RewardKey(u, t, w);
      RewardKeyInjective(r.username, r.vocabTable, r.deWord, u, t, w);
    }
  }

  // ---------------------------------------------------------------------------
  // Candidate rows
  // ---------------------------------------------------------------------------

  /** The number of attempt rows for one `(vocab_table, de_word)` pair. */
  function AttemptCount(attempts: seq<Attempt>, vocabTable: string, deWord: string): (n: nat)
    ensures n <= |attempts|
  {
    if attempts == [] then 0
    else
      var a := attempts[|attempts| - 1];
      AttemptCount(attempts[..|attempts| - 1], vocabTable, deWord)
        + (if a.vocabTable == vocabTable && a.deWord == deWord then 1 else 0)
  }

  function TableCandidates(t: VocabTable, rows: seq<VocabEntry>, attempts: seq<Attempt>): (cs: seq<QuestEntry>)
    ensures |cs| == |rows|
  {
    seq(|rows|, i requires 0 <= i < |rows| =>
      QuestEntry(t.Label(), rows[i].left, rows[i].right, AttemptCount(attempts, t.Label(), rows[i].left), 0))
  }

  /**
   * The rows of the union query: every `de_en` row, then every `de_fr` row, each
   * labelled with its table and carrying its attempt count.
   */
  function Candidates(db: Db): (cs: seq<QuestEntry>)
    ensures |cs| == |db.deEn| + |db.deFr|
    ensures forall c :: c in cs ==>
              (c.eligibleOnlinePlayers == 0
               && c.attempts == AttemptCount(db.attempts, c.vocabTable, c.deWord)
               && (c.vocabTable == "de_en" || c.vocabTable == "de_fr"))
  {
    TableCandidates(DeEn, db.deEn, db.attempts) + TableCandidates(DeFr, db.deFr, db.attempts)
  }

  // ---------------------------------------------------------------------------
  // Eligibility and the top group
  // ---------------------------------------------------------------------------

  /** How many entries of `players` (counted with repetition) have no rewarded key for the pair. */
  function EligibleCount(players: seq<string>, keys: set<string>, vocabTable: string, deWord: string): (n: nat)
    ensures n <= |players|
  {
    if players == [] then 0
    else
      EligibleCount(players[..|players| - 1], keys, vocabTable, deWord)
        + (if RewardKey(players[|players| - 1], vocabTable, deWord) !in keys then 1 else 0)
  }

  /** `EligibleCount` is zero exactly when every listed player holds the key. */
  lemma {:induction false} EligibleCountZero(players: seq<string>, keys: set<string>, t: string, w: string)
    ensures EligibleCount(players, keys, t, w) == 0 <==> forall p :: p in players ==> RewardKey(p, t, w) in keys
  {
    if players != [] {
      var init := players[..|players| - 1];
      EligibleCountZero(init, keys, t, w);
      assert forall p :: p in players <==> p in init || p == players[|players| - 1];
    }
  }

  /** The number of listed players who have no reward row for the pair. */
  function UnrewardedCount(players: seq<string>, rewards: set<RewardRow>, vocabTable: string, deWord: string): nat {
    if players == [] then 0
    else
      UnrewardedCount(players[..|players| - 1], rewards, vocabTable, deWord)
        + (if RewardRow(players[|players| - 1], vocabTable, deWord) !in rewards then 1 else 0)
  }

  /** With unambiguous keys, counting by keys is counting players without the reward row. */
  lemma {:induction false} EligibleCountIsUnrewarded(players: seq<string>, online: seq<string>,
                                                     rewards: set<RewardRow>, t: string, w: string)
    requires KeysUnambiguous(rewards, online) && '|' !in t
    requires forall p :: p in players ==> p in online
    ensures EligibleCount(players, RewardedKeys(rewards, online), t, w) == UnrewardedCount(players, rewards, t, w)
  {
    if players != [] {
      var last := players[|players| - 1];
      EligibleCountIsUnrewarded(players[..|players| - 1], online, rewards, t, w);
      RewardedKeysExact(rewards, online, last, t, w);
    }
  }

  /** The entry with its eligible-player count filled in. */
  function Annotated(e: QuestEntry, players: seq<string>, keys: set<string>): QuestEntry {
    e.(eligibleOnlinePlayers := EligibleCount(players, keys, e.vocabTable, e.deWord))
  }

  /** The largest eligible-player count over `es` (0 for no entries). */
  function MaxEligible(es: seq<QuestEntry>, players: seq<string>, keys: set<string>): (m: nat)
    ensures forall e :: e in es ==> EligibleCount(players, keys, e.vocabTable, e.deWord) <= m
    ensures es != [] ==> exists e :: e in es && EligibleCount(players, keys, e.vocabTable, e.deWord) == m
    ensures es == [] ==> m == 0
  {
    if es == [] then 0
    else
      var init := es[..|es| - 1];
      var last := es[|es| - 1];
      var m0 := MaxEligible(init, players, keys);
      var c := EligibleCount(players, keys, last.vocabTable, last.deWord);
      assert forall e :: e in es <==> e in init || e == last;
      if c > m0 then c else m0
  }

  /** The annotated entries of `es`, in order, whose count is `m`, when `m` is positive. */
  function TopGroup(es: seq<QuestEntry>, players: seq<string>, keys: set<string>, m: nat): (g: seq<QuestEntry>)
    ensures |g| <= |es|
    ensures forall x :: x in g ==> x.eligibleOnlinePlayers == m && m > 0
  {
    if es == [] then []
    else
      var last := es[|es| - 1];
      TopGroup(es[..|es| - 1], players, keys, m)
        + (if m > 0 && EligibleCount(players, keys, last.vocabTable, last.deWord) == m
           then [Annotated(last, players, keys)] else [])
  }

  /** Membership in the top group, both ways. */
  lemma {:induction false} TopGroupMembers(es: seq<QuestEntry>, players: seq<string>, keys: set<string>, m: nat, x: QuestEntry)
    ensures x in TopGroup(es, players, keys, m) <==>
            m > 0 && exists e :: e in es && x == Annotated(e, players, keys) && x.eligibleOnlinePlayers == m
  {
    if es != [] {
      var init := es[..|es| - 1];
      TopGroupMembers(init, players, keys, m, x);
      assert forall e :: e in es <==> e in init || e == es[|es| - 1];
    }
  }

  /** Nothing in `es` reaches a count above the maximum, so that group is empty. */
  lemma {:induction false} TopGroupAboveMax(es: seq<QuestEntry>, players: seq<string>, keys: set<string>, m: nat)
    requires m > MaxEligible(es, players, keys)
    ensures TopGroup(es, players, keys, m) == []
  {
    if es != [] {
      var init := es[..|es| - 1];
      assert forall e :: e in init ==> e in es;
      TopGroupAboveMax(init, players, keys, m);
    }
  }

  /** The top group for the real maximum is empty exactly when no entry has an eligible player. */
  lemma {:induction false} TopGroupEmpty(es: seq<QuestEntry>, players: seq<string>, keys: set<string>)
    ensures TopGroup(es, players, keys, MaxEligible(es, players, keys)) == [] <==>
            forall e :: e in es ==> EligibleCount(players, keys, e.vocabTable, e.deWord) == 0
  {
    var m := MaxEligible(es, players, keys);
    if m > 0 {
      var e :| e in es && EligibleCount(players, keys, e.vocabTable, e.deWord) == m;
      TopGroupMembers(es, players, keys, m, Annotated(e, players, keys));
    } else {
      TopGroupZero(es, players, keys);
    }
  }

  /** A zero count never enters a group. */
  lemma {:induction false} TopGroupZero(es: seq<QuestEntry>, players: seq<string>, keys: set<string>)
    ensures TopGroup(es, players, keys, 0) == []
  {
    if es != [] {
      TopGroupZero(es[..|es| - 1], players, keys);
    }
  }

  // ---------------------------------------------------------------------------
  // The weighted draw
  // ---------------------------------------------------------------------------

  /** `1 / (1 + attempts)`: a row with fewer attempts gets a larger weight. */
  function Weight(e: QuestEntry): (w: real)
    ensures 0.0 < w <= 1.0
  {
    WeightPositive(e.attempts);
    1.0 / (1.0 + e.attempts as real)
  }

  lemma WeightPositive(a: nat)
    ensures 0.0 < 1.0 / (1.0 + a as real) <= 1.0
  {
    var d := 1.0 + a as real;
    var q := 1.0 / d;
    assert q * d == 1.0;
  }

  /** Fewer attempts give a strictly larger weight. */
  lemma WeightDecreasing(e1: QuestEntry, e2: QuestEntry)
    requires e1.attempts < e2.attempts
    ensures Weight(e1) > Weight(e2)
  {
    ReciprocalDecreasing(1.0 + e1.attempts as real, 1.0 + e2.attempts as real);
  }

  lemma ReciprocalDecreasing(d1: real, d2: real)
    requires 1.0 <= d1 < d2
    ensures 1.0 / d1 > 1.0 / d2
  {
  }

  /** A draw in `[0, 1]` scales the total to a pick in `[0, total]`. */
  lemma PickWithinTotal(draw: real, total: real)
    requires 0.0 <= draw <= 1.0 && 0.0 <= total
    ensures 0.0 <= draw * total <= total
  {
  }

  /** The weight of the first `k` entries of the group. */
  function Cumulative(g: seq<QuestEntry>, k: nat): (c: real)
    requires k <= |g|
    ensures c >= 0.0
    ensures k > 0 ==> c > 0.0
  {
    if k == 0 then 0.0 else Cumulative(g, k - 1) + Weight(g[k - 1])
  }

  function TotalWeight(g: seq<QuestEntry>): real {
    Cumulative(g, |g|)
  }

  /** Cumulative weights grow strictly with the number of entries. */
  lemma {:induction false} CumulativeIncreasing(g: seq<QuestEntry>, j: nat, k: nat)
    requires j < k <= |g|
    ensures Cumulative(g, j) < Cumulative(g, k)
    decreases k - j
  {
    if j + 1 < k {
      CumulativeIncreasing(g, j, k - 1);
    }
  }

  /**
   * The walk from position `i`: the first entry whose cumulative weight reaches
   * `pick`, or the last entry when none does.
   */
  function WalkFrom(g: seq<QuestEntry>, pick: real, i: nat): (k: nat)
    requires g != [] && i <= |g|
    ensures k < |g|
    ensures i < |g| ==> i <= k
    decreases |g| - i
  {
    if i == |g| then |g| - 1
    else if pick <= Cumulative(g, i + 1) then i
    else WalkFrom(g, pick, i + 1)
  }

  /** `random.nextDouble() * totalWeight`: the point of the draw on the cumulative scale. */
  function Pick(g: seq<QuestEntry>, draw: real): real {
    draw * TotalWeight(g)
  }

  /** The position the draw `pick` selects. */
  function DrawIndex(g: seq<QuestEntry>, pick: real): nat
    requires g != []
  {
    WalkFrom(g, pick, 0)
  }

  /** If every step before `k` is passed and `k` reaches `pick`, the walk from `i` stops at `k`. */
  lemma {:induction false} WalkStopsAt(g: seq<QuestEntry>, pick: real, i: nat, k: nat)
    requires i <= k < |g|
    requires forall j :: i < j <= k ==> pick > Cumulative(g, j)
    requires pick <= Cumulative(g, k + 1)
    ensures WalkFrom(g, pick, i) == k
    decreases k - i
  {
    if i < k {
      WalkStopsAt(g, pick, i + 1, k);
    }
  }

  /** A positive pick up to the total weight lies in the interval of some entry. */
  lemma {:induction false} CoveringIndex(g: seq<QuestEntry>, pick: real, i: nat) returns (k: nat)
    requires i < |g| && Cumulative(g, i) < pick <= TotalWeight(g)
    ensures i <= k < |g| && Cumulative(g, k) < pick <= Cumulative(g, k + 1)
    decreases |g| - i
  {
    if pick <= Cumulative(g, i + 1) {
      k := i;
    } else {
      k := CoveringIndex(g, pick, i + 1);
    }
  }

  /**
   * The draw selects entry `k` exactly when `pick` lies in `(Cumulative(k), Cumulative(k + 1)]`,
   * an interval as long as the entry's weight: for a uniform pick over the total,
   * each entry of the group is chosen with probability proportional to its weight.
   */
  lemma DrawIntervals(g: seq<QuestEntry>, pick: real, k: nat)
    requires 0 < |g| && k < |g|
    requires 0.0 < pick <= TotalWeight(g)
    ensures DrawIndex(g, pick) == k <==> Cumulative(g, k) < pick <= Cumulative(g, k + 1)
    ensures Cumulative(g, k + 1) - Cumulative(g, k) == Weight(g[k])
  {
    DrawIsCovering(g, pick);
    if Cumulative(g, k) < pick <= Cumulative(g, k + 1) {
      IntervalsDisjoint(g, pick, k, DrawIndex(g, pick));
    }
  }

  /** For a positive pick up to the total, the selected entry's interval contains the pick. */
  lemma DrawIsCovering(g: seq<QuestEntry>, pick: real)
    requires 0 < |g| && 0.0 < pick <= TotalWeight(g)
    ensures Cumulative(g, DrawIndex(g, pick)) < pick <= Cumulative(g, DrawIndex(g, pick) + 1)
  {
    var c := CoveringIndex(g, pick, 0);
    forall j | 0 < j <= c
      ensures pick > Cumulative(g, j)
    {
      if j < c { CumulativeIncreasing(g, j, c); }
    }
    WalkStopsAt(g, pick, 0, c);
  }

  /** The intervals of different entries do not overlap. */
  lemma IntervalsDisjoint(g: seq<QuestEntry>, pick: real, j: nat, k: nat)
    requires j < |g| && k < |g|
    requires Cumulative(g, j) < pick <= Cumulative(g, j + 1)
    requires Cumulative(g, k) < pick <= Cumulative(g, k + 1)
    ensures j == k
  {
    if j + 1 < k {
      CumulativeIncreasing(g, j + 1, k);
    } else if k + 1 < j {
      CumulativeIncreasing(g, k + 1, j);
    }
  }

  /**
   * With `random.nextDouble()` in `[0, 1]` and exact arithmetic, the walk always
   * stops by reaching the pick, so the last-entry fallback is never what decides.
   */
  lemma ExactDrawReachesPick(g: seq<QuestEntry>, draw: real)
    requires g != [] && 0.0 <= draw <= 1.0
    ensures Pick(g, draw) <= Cumulative(g, DrawIndex(g, Pick(g, draw)) + 1)
  {
    var total := TotalWeight(g);
    var pick := Pick(g, draw);
    PickWithinTotal(draw, total);
    if pick > 0.0 {
      DrawIsCovering(g, pick);
    } else {
      WalkStopsAt(g, pick, 0, 0);
    }
  }

  // ---------------------------------------------------------------------------
  // The whole selection
  // ---------------------------------------------------------------------------

  /**
   * The quest `selectWeightedQuestForOnlinePlayers` returns for the database `db`,
   * the online names and the value `draw` of `random.nextDouble()`.
   */
  function SelectQuest(db: Db, onlinePlayers: seq<string>, draw: real): Option<QuestEntry> {
    if onlinePlayers == [] then None
    else
      var cands := Candidates(db);
      if cands == [] then None
      else
        var keys := RewardedKeys(db.rewards, onlinePlayers);
        var g := TopGroup(cands, onlinePlayers, keys, MaxEligible(cands, onlinePlayers, keys));
        if g == [] then None
        else Some(g[DrawIndex(g, Pick(g, draw))])
  }

  /**
   * No quest is selected exactly when nobody is online or every candidate row
   * (of both tables) has no eligible online player — including when both tables are empty.
   */
  lemma SelectQuestNone(db: Db, onlinePlayers: seq<string>, draw: real)
    ensures SelectQuest(db, onlinePlayers, draw).None? <==>
            onlinePlayers == [] ||
            forall c :: c in Candidates(db) ==>
              EligibleCount(onlinePlayers, RewardedKeys(db.rewards, onlinePlayers), c.vocabTable, c.deWord) == 0
  {
    var cands := Candidates(db);
    var keys := RewardedKeys(db.rewards, onlinePlayers);
    TopGroupEmpty(cands, onlinePlayers, keys);
  }

  /**
   * A selected quest is a row of one of the tables with its true attempt count,
   * and its eligible count is positive and the largest over all rows.
   */
  lemma SelectQuestSome(db: Db, onlinePlayers: seq<string>, draw: real)
    requires SelectQuest(db, onlinePlayers, draw).Some?
    ensures var q := SelectQuest(db, onlinePlayers, draw).value;
            var keys := RewardedKeys(db.rewards, onlinePlayers);
            && q.eligibleOnlinePlayers > 0
            && q.eligibleOnlinePlayers == EligibleCount(onlinePlayers, keys, q.vocabTable, q.deWord)
            && q.attempts == AttemptCount(db.attempts, q.vocabTable, q.deWord)
            && q.(eligibleOnlinePlayers := 0) in Candidates(db)
            && forall c :: c in Candidates(db) ==>
                 EligibleCount(onlinePlayers, keys, c.vocabTable, c.deWord) <= q.eligibleOnlinePlayers
  {
    var cands := Candidates(db);
    var keys := RewardedKeys(db.rewards, onlinePlayers);
    var m := MaxEligible(cands, onlinePlayers, keys);
    var g := TopGroup(cands, onlinePlayers, keys, m);
    assert onlinePlayers != [] && cands != [] && g != [];
    var q := g[DrawIndex(g, Pick(g, draw))];
    assert SelectQuest(db, onlinePlayers, draw) == Some(q);
    assert q in g;
    TopGroupMembers(cands, onlinePlayers, keys, m, q);
    var e :| e in cands && q == Annotated(e, onlinePlayers, keys) && q.eligibleOnlinePlayers == m;
    assert q.(eligibleOnlinePlayers := 0) == e;
  }

  /**
   * With no `|` in the online names and reward labels, a selected row is still
   * unrewarded for at least one online player, and its count is the number of them.
   */
  lemma SelectQuestUnrewarded(db: Db, onlinePlayers: seq<string>, draw: real)
    requires KeysUnambiguous(db.rewards, onlinePlayers)
    requires SelectQuest(db, onlinePlayers, draw).Some?
    ensures var q := SelectQuest(db, onlinePlayers, draw).value;
            && q.eligibleOnlinePlayers == UnrewardedCount(onlinePlayers, db.rewards, q.vocabTable, q.deWord)
            && exists p :: p in onlinePlayers && RewardRow(p, q.vocabTable, q.deWord) !in db.rewards
  {
    var q := SelectQuest(db, onlinePlayers, draw).value;
    SelectQuestSome(db, onlinePlayers, draw);
    assert q.(eligibleOnlinePlayers := 0) in Candidates(db);
    assert '|' !in q.vocabTable by {
      assert q.vocabTable == "de_en" || q.vocabTable == "de_fr";
    }
    var keys := RewardedKeys(db.rewards, onlinePlayers);
    EligibleCountIsUnrewarded(onlinePlayers, onlinePlayers, db.rewards, q.vocabTable, q.deWord);
    EligibleCountZero(onlinePlayers, keys, q.vocabTable, q.deWord);
    var p :| p in onlinePlayers && RewardKey(p, q.vocabTable, q.deWord) !in keys;
    RewardedKeysExact(db.rewards, onlinePlayers, p, q.vocabTable, q.deWord);
  }

  /** When exactly one row has eligible online players, that row is selected, whatever the draw. */
  lemma SelectQuestOnlyEligible(db: Db, onlinePlayers: seq<string>, draw: real, c: QuestEntry)
    requires c in Candidates(db)
    requires EligibleCount(onlinePlayers, RewardedKeys(db.rewards, onlinePlayers), c.vocabTable, c.deWord) > 0
    requires forall d :: d in Candidates(db) && d != c ==>
               EligibleCount(onlinePlayers, RewardedKeys(db.rewards, onlinePlayers), d.vocabTable, d.deWord) == 0
    ensures SelectQuest(db, onlinePlayers, draw) == Some(Annotated(c, onlinePlayers, RewardedKeys(db.rewards, onlinePlayers)))
  {
    SelectQuestNone(db, onlinePlayers, draw);
    SelectQuestSome(db, onlinePlayers, draw);
    var q := SelectQuest(db, onlinePlayers, draw).value;
    assert q.(eligibleOnlinePlayers := 0) == c;
  }

  /** A subset is no larger than its superset. */
  lemma {:induction false} SubsetCardinality<T>(a: set<T>, b: set<T>)
    requires a <= b
    ensures |a| <= |b|
    decreases |b|
  {
    if a != {} {
      var x :| x in a;
      SubsetCardinality(a - {x}, b - {x});
    }
  }
}
