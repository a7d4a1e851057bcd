/**
 * Concrete sequences of store operations on a fresh database, with the outcomes
 * the store guarantees for them.
 */
module StoreScenarios {
  import opened Wrappers
  import opened JavaText
  import opened StoreModel
  import opened Store

  /** Upserting "alice" twice and "bob" once leaves exactly two users. */
  method UpsertTwiceCountsOnce() returns (userCount: nat)
    ensures userCount == 2
  {
    var store := new SQLiteStore();
    store.UpsertUser("alice");
    store.UpsertUser("alice");
    store.UpsertUser("bob");
    assert store.users == {"alice", "bob"};
    userCount := |store.users|;
  }

  /**
   * Claiming the same triple twice, over any earlier rewards: the first claim
   * succeeds exactly when the triple was not rewarded, the second never does,
   * and the reward set gains only that triple.
   */
  method ClaimRewardTwice(prior: set<RewardRow>, username: string, vocabTable: string, deWord: string)
    returns (first: bool, second: bool, rewardsAfter: set<RewardRow>)
    ensures first <==> RewardRow(username, vocabTable, deWord) !in prior
    ensures !second
    ensures rewardsAfter == prior + {RewardRow(username, vocabTable, deWord)}
  {
    var store := new SQLiteStore();
    store.rewards := prior;
    first := store.ClaimReward(username, vocabTable, deWord);
    second := store.ClaimReward(username, vocabTable, deWord);
    rewardsAfter := store.rewards;
  }

  /**
   * One reward and two attempts are recorded, then tracking is cleared: no
   * reward and no attempt is left, while the vocabulary row and the user stay.
   */
  method ClearTrackingKeepsVocabulary(fault: Option<nat>) returns (before: Db, after: Db, outcome: Outcome<StoreError>)
    ensures |before.rewards| == 1 && |before.attempts| == 2
    ensures outcome.Pass? <==> Commits(fault, 3)
    ensures outcome.Pass? ==> after.rewards == {} && after.attempts == [] && |after.deEn| == 1 && |after.users| == 1
    ensures outcome.Fail? ==> after == before
  {
    var store := new SQLiteStore();
    var replaced := store.ReplaceDeEn([VocabEntry("haus", "house")], None);
    replaced := store.ReplaceDeFr([], None);
    store.UpsertUser("alice");
    var claimed := store.ClaimReward("alice", "de_en", "haus");
    claimed := store.ClaimReward("alice", "de_en", "haus");
    store.RecordAttempt("alice", "de_en", "haus", true);
    store.RecordAttempt("alice", "de_en", "haus", false);
    assert store.rewards == {RewardRow("alice", "de_en", "haus")};
    before := store.State();
    outcome := store.ClearAnswerTracking(fault);
    after := store.State();
  }

  /** "en" and "fr" each add one row to their table; "it" is refused. */
  method InsertByLanguage() returns (deEnRows: nat, deFrRows: nat, italian: Outcome<StoreError>)
    ensures deEnRows == 1 && deFrRows == 1
    ensures italian == Fail(UnsupportedLanguage("it"))
  {
    LanguageCodes();
    var store := new SQLiteStore();
    var english := store.InsertVocabularyEntry("en", "katze", "cat");
    var french := store.InsertVocabularyEntry("fr", "maus", "souris");
    deEnRows := |store.deEn|;
    deFrRows := |store.deFr|;
    italian := store.InsertVocabularyEntry("it", "haus", "casa");
  }

  /** Two `de_en` rows and one `de_fr` row make three vocabulary entries. */
  method TotalAcrossLanguages() returns (total: nat)
    ensures total == 3
  {
    var store := new SQLiteStore();
    var replaced := store.ReplaceDeEn([VocabEntry("haus", "house"), VocabEntry("baum", "tree")], None);
    replaced := store.ReplaceDeFr([VocabEntry("maus", "souris")], None);
    total := store.State().TotalVocabularyEntries();
  }

  /** The online players of the selection scenarios. */
  const Online: seq<string> := ["alice", "bob"]

  /** Both tables with "haus" rewarded to alice and bob in both; `baumRewarded` adds "baum" for both. */
  function SelectionDb(baumRewarded: bool): Db {
    var hausRewards := {RewardRow("alice", "de_en", "haus"), RewardRow("bob", "de_en", "haus"),
                        RewardRow("alice", "de_fr", "haus"), RewardRow("bob", "de_fr", "haus")};
    var baumRewards := {RewardRow("alice", "de_en", "baum"), RewardRow("bob", "de_en", "baum")};
    Db({}, [VocabEntry("haus", "house"), VocabEntry("baum", "tree")], [VocabEntry("haus", "maison")],
       if baumRewarded then hausRewards + baumRewards else hausRewards, [])
  }

  lemma SelectionCandidates(baumRewarded: bool)
    ensures Candidates(SelectionDb(baumRewarded)) ==
              [QuestEntry("de_en", "haus", "house", 0, 0), QuestEntry("de_en", "baum", "tree", 0, 0),
               QuestEntry("de_fr", "haus", "maison", 0, 0)]
  {
  }

  /** No name or table label of the selection scenarios contains `|`. */
  lemma SelectionKeysUnambiguous(baumRewarded: bool)
    ensures KeysUnambiguous(SelectionDb(baumRewarded).rewards, Online)
  {
  }

  /** The number of online players still without the reward for a row of the selection scenarios. */
  lemma SelectionCount(baumRewarded: bool, t: string, w: string)
    requires t == "de_en" || t == "de_fr"
    ensures var keys := RewardedKeys(SelectionDb(baumRewarded).rewards, Online);
            EligibleCount(Online, keys, t, w) == UnrewardedCount(Online, SelectionDb(baumRewarded).rewards, t, w)
  {
    SelectionKeysUnambiguous(baumRewarded);
    EligibleCountIsUnrewarded(Online, Online, SelectionDb(baumRewarded).rewards, t, w);
  }

  /** The eligible counts of the three rows: none for "haus", two for "baum" unless it is rewarded too. */
  lemma SelectionCounts(baumRewarded: bool)
    ensures var keys := RewardedKeys(SelectionDb(baumRewarded).rewards, Online);
            && EligibleCount(Online, keys, "de_en", "haus") == 0
            && EligibleCount(Online, keys, "de_fr", "haus") == 0
            && EligibleCount(Online, keys, "de_en", "baum") == (if baumRewarded then 0 else 2)
  {
    SelectionCount(baumRewarded, "de_en", "haus");
    SelectionCount(baumRewarded, "de_en", "baum");
    SelectionCount(baumRewarded, "de_fr", "haus");
    assert Online[..1] == ["alice"];
  }

  /**
   * Once alice and bob both hold the rewards for "haus" in both tables, "baum"
   * is the only row both can still earn, and it is selected whatever the draw.
   */
  lemma SelectionSkipsRewardedRows(draw: real)
    ensures SelectQuest(SelectionDb(false), Online, draw) == Some(QuestEntry("de_en", "baum", "tree", 0, 2))
  {
    SelectionCandidates(false);
    SelectionCounts(false);
    SelectQuestOnlyEligible(SelectionDb(false), Online, draw, QuestEntry("de_en", "baum", "tree", 0, 0));
  }

  /** When every row is rewarded to every online player, or nobody is online, nothing is selected. */
  lemma SelectionNoneWhenAllRewarded(draw: real)
    ensures SelectQuest(SelectionDb(true), Online, draw) == None
    ensures SelectQuest(SelectionDb(true), [], draw) == None
  {
    SelectionCandidates(true);
    SelectionCounts(true);
    SelectQuestNone(SelectionDb(true), Online, draw);
  }
}
