/**
 * The SQLite-backed store as an object holding its five relations. Every
 * operation changes only the relations its statements touch; a transaction
 * either commits all of its statements or rolls back to the state it started from.
 * A failing statement is chosen by the caller through `fault`, the position of
 * the statement that throws `SQLException`.
 */
module Store {
  import opened Wrappers
  import opened JavaText
  import opened StoreModel

  /** Why a store operation throws `SQLException`. */
  datatype StoreError =
    | StatementFailed(statement: nat)
    | UnsupportedLanguage(language: string)

  /** The number of eligible entries of `players`: the inner loop of the selection. */
  method CountEligiblePlayers(players: seq<string>, rewardedKeys: set<string>, vocabTable: string, deWord: string)
    returns (eligiblePlayers: nat)
    ensures eligiblePlayers == EligibleCount(players, rewardedKeys, vocabTable, deWord)
    ensures eligiblePlayers == 0 <==> forall p :: p in players ==> RewardKey(p, vocabTable, deWord) in rewardedKeys
  {
    eligiblePlayers := 0;
    for i := 0 to |players|
      invariant eligiblePlayers == EligibleCount(players[..i], rewardedKeys, vocabTable, deWord)
    {
      assert players[..i + 1][..i] == players[..i];
      if RewardKey(players[i], vocabTable, deWord) !in rewardedKeys {
        eligiblePlayers := eligiblePlayers + 1;
      }
    }
    assert players[..|players|] == players;
    EligibleCountZero(players, rewardedKeys, vocabTable, deWord);
  }

  /** The sum of `1 / (1 + attempts)` over the group. */
  method SumWeights(group: seq<QuestEntry>) returns (totalWeight: real)
    ensures totalWeight == TotalWeight(group)
    ensures group != [] ==> totalWeight > 0.0
  {
    totalWeight := 0.0;
    for i := 0 to |group|
      invariant totalWeight == Cumulative(group, i)
    {
      totalWeight := totalWeight + 1.0 / (1.0 + group[i].attempts as real);
    }
  }

  /**
   * The entries, annotated with their eligible-player counts, that tie for the
   * largest positive count, in input order, kept up to date entry by entry.
   */
  method CollectMostEligible(entries: seq<QuestEntry>, onlinePlayers: seq<string>, rewardedKeys: set<string>)
    returns (eligibleEntries: seq<QuestEntry>)
    ensures eligibleEntries ==
              TopGroup(entries, onlinePlayers, rewardedKeys, MaxEligible(entries, onlinePlayers, rewardedKeys))
  {
    eligibleEntries := [];
    var maxEligiblePlayers: nat := 0;
    for i := 0 to |entries|
      invariant maxEligiblePlayers == MaxEligible(entries[..i], onlinePlayers, rewardedKeys)
      invariant eligibleEntries == TopGroup(entries[..i], onlinePlayers, rewardedKeys, maxEligiblePlayers)
    {
      var entry := entries[i];
      assert entries[..i + 1][..i] == entries[..i];
      var eligiblePlayers := CountEligiblePlayers(onlinePlayers, rewardedKeys, entry.vocabTable, entry.deWord);
      if eligiblePlayers <= 0 {
        continue;
      }
      var withEligibility := entry.(eligibleOnlinePlayers := eligiblePlayers);
      if eligiblePlayers > maxEligiblePlayers {
        TopGroupAboveMax(entries[..i], onlinePlayers, rewardedKeys, eligiblePlayers);
        maxEligiblePlayers := eligiblePlayers;
        eligibleEntries := [withEligibility];
      } else if eligiblePlayers == maxEligiblePlayers {
        eligibleEntries := eligibleEntries + [withEligibility];
      }
    }
    assert entries[..|entries|] == entries;
  }

  /**
   * The cumulative-weight walk: the first entry whose running weight reaches
   * `draw * totalWeight`, or the last entry when none does.
   */
  method WeightedDraw(eligibleEntries: seq<QuestEntry>, draw: real) returns (entry: QuestEntry)
    requires eligibleEntries != []
    ensures entry == eligibleEntries[DrawIndex(eligibleEntries, Pick(eligibleEntries, draw))]
  {
    var totalWeight := SumWeights(eligibleEntries);
    var pick := draw * totalWeight;
    assert pick == Pick(eligibleEntries, draw);
    var cursor := 0.0;
    for i := 0 to |eligibleEntries|
      invariant cursor == Cumulative(eligibleEntries, i)
      invariant WalkFrom(eligibleEntries, pick, i) == DrawIndex(eligibleEntries, pick)
    {
      cursor := cursor + 1.0 / (1.0 + eligibleEntries[i].attempts as real);
      if pick <= cursor {
        return eligibleEntries[i];
      }
    }
    return eligibleEntries[|eligibleEntries| - 1];
  }

  class SQLiteStore {
    /** `users`: the known user names (first and last seen times are not modelled). */
    var users: set<string>
    /** `vocab_de_en` in id order. */
    var deEn: seq<VocabEntry>
    /** `vocab_de_fr` in id order. */
    var deFr: seq<VocabEntry>
    /** `player_vocab_rewards`. */
    var rewards: set<RewardRow>
    /** `vocab_attempts` in id order; rows are only appended or all deleted. */
    var attempts: seq<Attempt>

    /** The relations as one value. */
    function State(): Db
      reads this
    {
      Db(users, deEn, deFr, rewards, attempts)
    }

    /** A store over a freshly created schema: every table is empty. */
    constructor ()
      ensures State() == Db({}, [], [], {}, [])
    {
      users := {};
      deEn := [];
      deFr := [];
      rewards := {};
      attempts := [];
    }

    /** Inserts the user, or only refreshes its last-seen time when it exists. */
    method UpsertUser(username: string)
      modifies this`users
      ensures users == old(users) + {username}
    {
      users := users + {username};
    }

    /**
     * Deletes every row of `table` and inserts `entries` in order, in one
     * transaction of three statements: the delete (0), the batch insert (1) and
     * the commit (2). A failure of any of them rolls everything back.
     */
    method ReplaceVocabulary(table: VocabTable, entries: seq<VocabEntry>, fault: Option<nat>)
      returns (outcome: Outcome<StoreError>)
      modifies this`deEn, this`deFr
      ensures outcome.Pass? <==> Commits(fault, 3)
      ensures outcome.Pass? ==> State() == old(State()).WithRows(table, entries)
      ensures outcome.Fail? ==> State() == old(State())
    {
      if fault == Some(0) {
        return Fail(StatementFailed(0));
      }
      var staged: seq<VocabEntry> := [];
      var batch: seq<VocabEntry> := [];
      for i := 0 to |entries|
        invariant batch == entries[..i]
      {
        batch := batch + [entries[i]];
      }
      if fault == Some(1) {
        return Fail(StatementFailed(1));
      }
      staged := staged + batch;
      if fault == Some(2) {
        return Fail(StatementFailed(2));
      }
      assert entries[..|entries|] == entries;
      if table == DeEn {
        deEn := staged;
      } else {
        deFr := staged;
      }
      return Pass;
    }

    method ReplaceDeEn(entries: seq<VocabEntry>, fault: Option<nat>) returns (outcome: Outcome<StoreError>)
      modifies this`deEn, this`deFr
      ensures outcome.Pass? <==> Commits(fault, 3)
      ensures outcome.Pass? ==> State() == old(State()).(deEn := entries)
      ensures outcome.Fail? ==> State() == old(State())
    {
      outcome := ReplaceVocabulary(DeEn, entries, fault);
    }

    method ReplaceDeFr(entries: seq<VocabEntry>, fault: Option<nat>) returns (outcome: Outcome<StoreError>)
      modifies this`deEn, this`deFr
      ensures outcome.Pass? <==> Commits(fault, 3)
      ensures outcome.Pass? ==> State() == old(State()).(deFr := entries)
      ensures outcome.Fail? ==> State() == old(State())
    {
      outcome := ReplaceVocabulary(DeFr, entries, fault);
    }

    /** Appends one attempt row. */
    method RecordAttempt(username: string, vocabTable: string, deWord: string, correct: bool)
      modifies this`attempts
      ensures attempts == old(attempts) + [Attempt(username, vocabTable, deWord, correct)]
    {
      attempts := attempts + [Attempt(username, vocabTable, deWord, correct)];
    }

    /**
     * `INSERT OR IGNORE` of the reward triple: reports whether a row was inserted,
     * which is exactly when the triple was not rewarded before.
     */
    method ClaimReward(username: string, vocabTable: string, deWord: string) returns (claimed: bool)
      modifies this`rewards
      ensures claimed <==> RewardRow(username, vocabTable, deWord) !in old(rewards)
      ensures rewards == old(rewards) + {RewardRow(username, vocabTable, deWord)}
    {
      var row := RewardRow(username, vocabTable, deWord);
      var updated := if row in rewards then 0 else 1;
      rewards := rewards + {row};
      claimed := updated > 0;
    }

    /**
     * Deletes all rewards and all attempts in one transaction of three statements:
     * delete rewards (0), delete attempts (1), commit (2).
     */
    method ClearAnswerTracking(fault: Option<nat>) returns (outcome: Outcome<StoreError>)
      modifies this`rewards, this`attempts
      ensures outcome.Pass? <==> Commits(fault, 3)
      ensures outcome.Pass? ==> State() == old(State()).(rewards := {}, attempts := [])
      ensures outcome.Fail? ==> State() == old(State())
    {
      if fault == Some(0) {
        return Fail(StatementFailed(0));
      }
      if fault == Some(1) {
        return Fail(StatementFailed(1));
      }
      if fault == Some(2) {
        return Fail(StatementFailed(2));
      }
      rewards := {};
      attempts := [];
      return Pass;
    }

    /**
     * Appends one row to the table the language selects; an unsupported language
     * throws before anything is written.
     */
    method InsertVocabularyEntry(language: string, deWord: string, translatedWord: string)
      returns (outcome: Outcome<StoreError>)
      modifies this`deEn, this`deFr
      ensures outcome.Pass? <==> LanguageTable(language).Some?
      ensures outcome.Pass? ==>
                var t := LanguageTable(language).value;
                State() == old(State()).WithRows(t, old(State()).Rows(t) + [VocabEntry(deWord, translatedWord)])
      ensures outcome.Fail? ==> outcome.error == UnsupportedLanguage(language) && State() == old(State())
    {
      var normalizedLang := ToLower(Trim(language));
      if normalizedLang == "en" {
        deEn := deEn + [VocabEntry(deWord, translatedWord)];
      } else if normalizedLang == "fr" {
        deFr := deFr + [VocabEntry(deWord, translatedWord)];
      } else {
        return Fail(UnsupportedLanguage(language));
      }
      return Pass;
    }

    /** The keys of every reward held by one of `usernames`, read row by row from the query result. */
    method LoadRewardedKeysForPlayers(usernames: seq<string>) returns (rewardedKeys: set<string>)
      ensures rewardedKeys == RewardedKeys(rewards, usernames)
    {
      if |usernames| == 0 {
        return {};
      }
      var resultSet := set r | r in rewards && r.username in usernames;
      var seen: set<RewardRow> := {};
      rewardedKeys := {};
      while seen != resultSet
        invariant seen <= resultSet
        invariant rewardedKeys == set r | r in seen :: RewardKey(r.username, r.vocabTable, r.deWord)
        decreases resultSet - seen
      {
        assert resultSet - seen != {};
        var r :| r in resultSet - seen;
        rewardedKeys := rewardedKeys + {RewardKey(r.username, r.vocabTable, r.deWord)};
        seen := seen + {r};
      }
    }

    /**
     * The quest for the online players: among all vocabulary rows, those that the
     * most online players can still be rewarded for, then one of them drawn with
     * weight `1 / (1 + attempts)` using `draw`, the value of `random.nextDouble()`.
     */
    method SelectWeightedQuestForOnlinePlayers(onlinePlayers: seq<string>, draw: real)
      returns (quest: Option<QuestEntry>)
      ensures quest == SelectQuest(State(), onlinePlayers, draw)
    {
      if |onlinePlayers| == 0 {
        return None;
      }
      var entries := Candidates(State());
      if |entries| == 0 {
        return None;
      }
      var rewardedKeys := LoadRewardedKeysForPlayers(onlinePlayers);
      var eligibleEntries := CollectMostEligible(entries, onlinePlayers, rewardedKeys);
      if |eligibleEntries| == 0 {
        return None;
      }
      var entry := WeightedDraw(eligibleEntries, draw);
      return Some(entry);
    }
  }
}
