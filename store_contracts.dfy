/**
 * Store operations whose implementation is not part of this model, given as
 * relations between the database before and after the call and the call's
 * outcome, together with what the plugin and the store's users rely on them for.
 * `insertMissingVocabularyEntries` and `clearVocabularyLanguageAndTracking` are
 * specified here; `totalVocabularyEntries` is `Db.TotalVocabularyEntries`.
 */
module StoreContracts {
  import opened Wrappers
  import opened JavaText
  import opened StoreModel
  import opened Store

  /** German words are matched without regard to case. */
  predicate SameWord(a: string, b: string) {
    EqualsIgnoreCase(a, b)
  }

  /** Some row of `rows` has the German word `word`. */
  predicate HasWord(rows: seq<VocabEntry>, word: string) {
    exists i :: 0 <= i < |rows| && SameWord(rows[i].left, word)
  }

  /** No two rows of `rows` have the same German word. */
  predicate DistinctWords(rows: seq<VocabEntry>) {
    forall i, j :: 0 <= i < j < |rows| ==> !SameWord(rows[i].left, rows[j].left)
  }

  /**
   * `insertMissingVocabularyEntries(language, incoming)`: for a supported language,
   * the rows of its table are kept as they are (no translation is overwritten) and
   * followed by the added rows, which are incoming pairs whose word was absent,
   * at most one per word; afterwards every incoming word is present; the result is
   * the number of added rows; nothing else changes. An unsupported language throws
   * and changes nothing, and so does a failure of the transaction.
   */
  ghost predicate InsertMissingSpec(before: Db, language: string, incoming: seq<VocabEntry>,
                                    outcome: Result<nat, StoreError>, after: Db)
  {
    match LanguageTable(language)
    case None => outcome.Err? && after == before
    case Some(t) =>
      if outcome.Err? then after == before
      else
        var old_ := before.Rows(t);
        var new_ := after.Rows(t);
        && after == before.WithRows(t, new_)
        && |old_| <= |new_| && new_[..|old_|] == old_
        && outcome.value == |new_| - |old_|
        && (forall k :: |old_| <= k < |new_| ==> new_[k] in incoming && !HasWord(old_, new_[k].left))
        && DistinctWords(new_[|old_|..])
        && (forall e :: e in incoming ==> HasWord(new_, e.left))
  }

  /**
   * `clearVocabularyLanguageAndTracking(language)`: for a supported language, its
   * table is emptied and the number of removed rows returned, and every reward and
   * every attempt is deleted; the other table and the users stay. An unsupported
   * language throws and changes nothing, and so does a failure of the transaction.
   */
  ghost predicate ClearLanguageSpec(before: Db, language: string, outcome: Result<nat, StoreError>, after: Db) {
    match LanguageTable(language)
    case None => outcome.Err? && after == before
    case Some(t) =>
      if outcome.Err? then after == before
      else outcome.value == |before.Rows(t)| && after == before.WithRows(t, []).(rewards := {}, attempts := [])
  }

  // ---------------------------------------------------------------------------
  // What follows from the merge contract
  // ---------------------------------------------------------------------------

  /** A successful merge never reports more added rows than there were incoming pairs. */
  lemma InsertMissingBounded(before: Db, language: string, incoming: seq<VocabEntry>,
                             outcome: Result<nat, StoreError>, after: Db)
    requires InsertMissingSpec(before, language, incoming, outcome, after)
    requires outcome.Ok?
    ensures outcome.value <= |incoming|
  {
    var t := LanguageTable(language).value;
    var added := after.Rows(t)[|before.Rows(t)|..];
    assert forall e :: e in added ==> e in incoming;
    DistinctRowsCardinality(added);
    SubsetCardinality(set e | e in added, set e | e in incoming);
    SeqSetCardinality(incoming);
  }

  /** Merging the same pairs a second time adds nothing and leaves the database as it was. */
  lemma InsertMissingIdempotent(d0: Db, language: string, incoming: seq<VocabEntry>,
                                o1: Result<nat, StoreError>, d1: Db,
                                o2: Result<nat, StoreError>, d2: Db)
    requires InsertMissingSpec(d0, language, incoming, o1, d1) && o1.Ok?
    requires InsertMissingSpec(d1, language, incoming, o2, d2) && o2.Ok?
    ensures o2.value == 0 && d2 == d1
  {
    var t := LanguageTable(language).value;
    var rows1 := d1.Rows(t);
    var rows2 := d2.Rows(t);
    // A row added by the second merge would carry an incoming word, which the first merge already stored.
    LeadingRows(rows2[|rows1|..]);
    assert rows2 == rows2[..|rows1|];
  }

  /**
   * Merging a pair whose word is already stored and a pair whose word is new
   * into a table holding one row: exactly the new pair is added, after the
   * stored row, whose translation stays; the other table and the attempts stay.
   */
  lemma MergeAddsOnlyNewWord(before: Db, language: string, kept: VocabEntry, repeated: VocabEntry,
                             added: VocabEntry, outcome: Result<nat, StoreError>, after: Db)
    requires LanguageTable(language) == Some(DeEn) && before.deEn == [kept]
    requires SameWord(kept.left, repeated.left) && !SameWord(kept.left, added.left)
    requires InsertMissingSpec(before, language, [repeated, added], outcome, after) && outcome.Ok?
    ensures outcome.value == 1 && after.deEn == [kept, added]
    ensures after.deFr == before.deFr && after.attempts == before.attempts
  {
    var incoming := [repeated, added];
    var rows := after.deEn;
    assert HasWord([kept], repeated.left);
    assert !HasWord([kept], added.left);
    // Every added row is `added`.
    forall k | 1 <= k < |rows|
      ensures rows[k] == added
    {
      assert rows[k] in incoming && !HasWord([kept], rows[k].left);
    }
    // `added` must have been added.
    assert added in incoming;
    assert HasWord(rows, added.left);
    assert |rows| >= 2;
    // At most one row with its word can be added.
    var tail := rows[1..];
    assert forall k :: 0 <= k < |tail| ==> tail[k] == added;
    LeadingRows(tail);
    assert rows == [rows[0], rows[1]];
  }

  /**
   * The merge of ("haus", "new-house"), ("baum", "tree") into a table holding
   * ("haus", "legacy-house"): one row is added, the old translation stays, "baum"
   * gets its translation and the attempts are untouched.
   */
  lemma MergeKeepsExistingTranslation(before: Db, outcome: Result<nat, StoreError>, after: Db)
    requires before.deEn == [VocabEntry("haus", "legacy-house")]
    requires InsertMissingSpec(before, "en", [VocabEntry("haus", "new-house"), VocabEntry("baum", "tree")],
                               outcome, after)
    requires outcome.Ok?
    ensures outcome.value == 1
    ensures after.deEn == [VocabEntry("haus", "legacy-house"), VocabEntry("baum", "tree")]
    ensures after.deFr == before.deFr && after.attempts == before.attempts
  {
    LanguageCodes();
    EqualsIgnoreCaseReflexive("haus");
    assert !SameWord("haus", "baum");
    MergeAddsOnlyNewWord(before, "en", VocabEntry("haus", "legacy-house"), VocabEntry("haus", "new-house"),
                         VocabEntry("baum", "tree"), outcome, after);
  }

  // ---------------------------------------------------------------------------
  // What follows from the clear-language contract
  // ---------------------------------------------------------------------------

  /**
   * Clearing "en" over two `de_en` rows, one `de_fr` row, two attempts and two
   * rewards removes two rows, keeps the `de_fr` row and deletes all tracking;
   * clearing "it" throws and changes nothing.
   */
  lemma ClearEnglishScenario(before: Db, outcome: Result<nat, StoreError>, after: Db,
                             italian: Result<nat, StoreError>, afterItalian: Db)
    requires before.deEn == [VocabEntry("haus", "house"), VocabEntry("baum", "tree")]
    requires before.deFr == [VocabEntry("maus", "souris")]
    requires ClearLanguageSpec(before, "en", outcome, after) && outcome.Ok?
    requires ClearLanguageSpec(after, "it", italian, afterItalian)
    ensures outcome.value == 2
    ensures after.deEn == [] && |after.deFr| == 1 && after.rewards == {} && after.attempts == []
    ensures italian.Err? && afterItalian == after
  {
    LanguageCodes();
  }

  /** After a successful clear, no quest can be drawn from the cleared table. */
  lemma ClearLanguageRemovesCandidates(before: Db, language: string, outcome: Result<nat, StoreError>, after: Db)
    requires ClearLanguageSpec(before, language, outcome, after) && outcome.Ok?
    ensures var cleared := LanguageTable(language).value.Label();
            forall c :: c in Candidates(after) ==> c.vocabTable != cleared
  {
    var t := LanguageTable(language).value;
    assert after.Rows(t) == [];
    var other := if t == DeEn then DeFr else DeEn;
    forall c | c in Candidates(after)
      ensures c.vocabTable != t.Label()
    {
      var en := TableCandidates(DeEn, after.deEn, after.attempts);
      var fr := TableCandidates(DeFr, after.deFr, after.attempts);
      assert Candidates(after) == en + fr;
      if c in en {
        var i :| 0 <= i < |en| && en[i] == c;
      } else {
        assert c in fr;
        var i :| 0 <= i < |fr| && fr[i] == c;
      }
    }
  }

  // ---------------------------------------------------------------------------
  // Sequence helpers
  // ---------------------------------------------------------------------------

  /** Names the first two rows of a sequence that has them. */
  lemma LeadingRows(rows: seq<VocabEntry>)
    ensures |rows| > 0 ==> rows[0] in rows
    ensures |rows| > 1 ==> rows[1] in rows
  {
  }

  // ---------------------------------------------------------------------------
  // Cardinality helpers
  // ---------------------------------------------------------------------------

  /** A sequence whose rows have pairwise different words has as many distinct rows as elements. */
  lemma {:induction false} DistinctRowsCardinality(rows: seq<VocabEntry>)
    requires DistinctWords(rows)
    ensures |set e | e in rows| == |rows|
  {
    if rows != [] {
      var init := rows[..|rows| - 1];
      var last := rows[|rows| - 1];
      assert DistinctWords(init);
      DistinctRowsCardinality(init);
      EqualsIgnoreCaseReflexive(last.left);
      assert forall i :: 0 <= i < |init| ==> !SameWord(init[i].left, last.left);
      assert last !in init;
      assert (set e | e in rows) == (set e | e in init) + {last};
    }
  }

  /** A sequence has at most as many distinct elements as positions. */
  lemma {:induction false} SeqSetCardinality(s: seq<VocabEntry>)
    ensures |set e | e in s| <= |s|
  {
    if s != [] {
      var init := s[..|s| - 1];
      SeqSetCardinality(init);
      assert (set e | e in s) == (set e | e in init) + {s[|s| - 1]};
    }
  }
}
