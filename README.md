# Vocabulary quest plugin: a verified model

This project models the core of a Minecraft server plugin that runs German
vocabulary quests. At random intervals the plugin picks a German word that
online players have not yet been rewarded for. The first player to send the
translation in a private message to the quest bot earns an emerald. The same
plugin enforces a daily playtime limit per player and imports vocabulary
sheets from CSV.

The model has three parts:

- **The SQLite store** (`Store`, `StoreModel`, `StoreContracts`,
  `PlaytimeStore`). The class `Store.SQLiteStore` holds the five relations:
  users, the `de_en` and `de_fr` vocabulary tables, reward claims and
  attempts. Its methods change them as the SQL statements do, and each
  transaction is all or nothing. The weighted quest selector is written as
  the same loops as the original, each proved equal to a specification
  (`StoreModel.SelectQuest`), and properties are proved about that
  specification:
  - the eligibility maximum
  - the tie group
  - the cumulative-weight draw

  Some store operations are called by the plugin but are specified only as
  relations between states:
  - the merge of missing rows
  - clearing a language
  - the daily playtime rows

  These are given as relations between the database before and after the
  call.
- **The CSV reader** (`CsvImport`). A recursive specification of the
  line-by-line filter, the `while` loop of `parse` proved equal to it, and
  its properties:
  - header rows are dropped anywhere
  - the split is at the first comma
  - entries are well-formed
  - lines are processed in order
- **The plugin** (`QuestLifecycle`, `Playtime`, `PluginInput`,
  `SheetMerge`). The quest state machine is the class
  `QuestLifecycle.VocabularyQuestPlugin`. Its state is:
  - the active quest
  - the armed timeout with the quest it carries
  - the pending scheduled start
  - the emeralds given

  This part also covers the input helpers, the playtime rules (tick,
  login, join) and the sheet merge summary.

Java's string operations that the plugin relies on are written out in
`JavaText`: `trim`, ASCII `toLowerCase`, `equalsIgnoreCase`,
`indexOf(char)`, `replace`, `Integer.parseInt` and `String.valueOf(int)`.

Several inputs of the original become explicit parameters of the model:
- the random numbers: `roll` for `nextInt(421)`, `draw` for `nextDouble()`
- the online players
- the store's answers to operations whose bodies are not modelled
- the points where a statement throws (`fault`)

`clearVocabularyLanguageAndTracking` is specified to delete every reward
and every attempt, not only those of the cleared language. The store test
expects zero rewards afterwards although one of the rewards belonged to
`de_fr`.

## Model

| member | source | states |
|---|---|---|
| JavaText.Trim | plugin-vocabulary-quest/src/main/java/io/github/stuttgartnerd/vocabularyquest/VocabularyCsvImport.java:65 | `String.trim()`: the result has no trim character at either end, is no longer than the input, and trimmed text is left unchanged |
| JavaText.TrimKeepsCharacters | plugin-vocabulary-quest/src/main/java/io/github/stuttgartnerd/vocabularyquest/VocabularyCsvImport.java:77-78 | every character of the trimmed text occurs in the input |
| JavaText.ToLower | plugin-vocabulary-quest/src/main/java/io/github/stuttgartnerd/vocabularyquest/SQLiteStore.java:154 | `toLowerCase`: same length, each character lower-cased (ASCII letters) |
| JavaText.ToLowerTrimmed | plugin-vocabulary-quest/src/main/java/io/github/stuttgartnerd/vocabularyquest/VocabularyQuestPlugin.java:1023 | lower-casing keeps trimmed text trimmed and is idempotent |
| JavaText.EqualsIgnoreCaseReflexive | plugin-vocabulary-quest/src/main/java/io/github/stuttgartnerd/vocabularyquest/VocabularyCsvImport.java:84 | every text equals itself ignoring case |
| JavaText.EqualsIgnoreCaseIsLowerEqual | plugin-vocabulary-quest/src/main/java/io/github/stuttgartnerd/vocabularyquest/VocabularyCsvImport.java:84 | `equalsIgnoreCase` holds exactly when the lower-cased texts are equal |
| JavaText.Utf16Length | plugin-vocabulary-quest/src/main/java/io/github/stuttgartnerd/vocabularyquest/VocabularyQuestPlugin.java:414 | `length()` counts UTF-16 code units: between the number of characters and twice that, equal to it for text in the Basic Multilingual Plane |
| JavaText.Utf16LengthAppend | plugin-vocabulary-quest/src/main/java/io/github/stuttgartnerd/vocabularyquest/VocabularyQuestPlugin.java:414 | the length of a concatenation is the sum of the lengths |
| JavaText.IndexOf | plugin-vocabulary-quest/src/main/java/io/github/stuttgartnerd/vocabularyquest/VocabularyCsvImport.java:71 | the first position of the character with none before it, or -1 exactly when it is absent |
| JavaText.ReplaceSkipsPrefix | plugin-vocabulary-quest/src/main/java/io/github/stuttgartnerd/vocabularyquest/VocabularyQuestPlugin.java:962-963 | text without the target's first character is copied unchanged in front of the replaced rest |
| JavaText.ReplaceAtFront | plugin-vocabulary-quest/src/main/java/io/github/stuttgartnerd/vocabularyquest/VocabularyQuestPlugin.java:962-963 | an occurrence of the target at the front is replaced |
| JavaText.ReplaceAbsent | plugin-vocabulary-quest/src/main/java/io/github/stuttgartnerd/vocabularyquest/VocabularyQuestPlugin.java:962-963 | text without the target's first character is left as it is |
| JavaText.IntToString | plugin-vocabulary-quest/src/main/java/io/github/stuttgartnerd/vocabularyquest/VocabularyQuestPlugin.java:962-963 | `String.valueOf(int)` is non-empty and made of digits and `-` only |
| JavaText.ParseInt | plugin-vocabulary-quest/src/main/java/io/github/stuttgartnerd/vocabularyquest/VocabularyQuestPlugin.java:972 | `Integer.parseInt` yields only values in the 32-bit range |
| JavaText.ParseIntRoundTrip | plugin-vocabulary-quest/src/main/java/io/github/stuttgartnerd/vocabularyquest/VocabularyQuestPlugin.java:972 | parsing the printed form of any 32-bit int gives it back |
| StoreModel.LanguageTable | plugin-vocabulary-quest/src/main/java/io/github/stuttgartnerd/vocabularyquest/SQLiteStore.java:154-166 | the trimmed, lower-cased code selects `de_en` exactly for "en" and `de_fr` exactly for "fr" |
| StoreModel.LanguageCodes | plugin-vocabulary-quest/src/test/java/io/github/stuttgartnerd/vocabularyquest/SQLiteStoreTest.java:97-104 | "en" and "fr" are accepted, "it" is not |
| StoreModel.LanguageCodeNormalised | plugin-vocabulary-quest/src/main/java/io/github/stuttgartnerd/vocabularyquest/SQLiteStore.java:154 | " EN " selects `de_en` |
| StoreModel.RewardKey | plugin-vocabulary-quest/src/main/java/io/github/stuttgartnerd/vocabularyquest/SQLiteStore.java:409-411 | the key is the three parts joined by two separators |
| StoreModel.RewardKeyInjective | plugin-vocabulary-quest/src/main/java/io/github/stuttgartnerd/vocabularyquest/SQLiteStore.java:409-411 | keys of triples without `\|` in the name and table are equal only for equal triples |
| StoreModel.RewardedKeys | plugin-vocabulary-quest/src/main/java/io/github/stuttgartnerd/vocabularyquest/SQLiteStore.java:380-407 | no names give no keys; every reward of a listed player has its key in the set |
| StoreModel.RewardedKeysExact | plugin-vocabulary-quest/src/main/java/io/github/stuttgartnerd/vocabularyquest/SQLiteStore.java:380-407 | with unambiguous keys, a key is in the set exactly when the reward row exists |
| StoreModel.AttemptCount | plugin-vocabulary-quest/src/main/java/io/github/stuttgartnerd/vocabularyquest/SQLiteStore.java:194-199 | the attempt count of a pair is at most the number of attempt rows |
| StoreModel.Candidates | plugin-vocabulary-quest/src/main/java/io/github/stuttgartnerd/vocabularyquest/SQLiteStore.java:184-213 | one candidate per vocabulary row, labelled `de_en` or `de_fr`, with its attempt count and no eligibility yet |
| StoreModel.EligibleCount | plugin-vocabulary-quest/src/main/java/io/github/stuttgartnerd/vocabularyquest/SQLiteStore.java:224-229 | the count of eligible players is at most the number of online players |
| StoreModel.EligibleCountZero | plugin-vocabulary-quest/src/main/java/io/github/stuttgartnerd/vocabularyquest/SQLiteStore.java:224-233 | the count is zero exactly when every online player holds the reward key |
| StoreModel.EligibleCountIsUnrewarded | plugin-vocabulary-quest/src/main/java/io/github/stuttgartnerd/vocabularyquest/SQLiteStore.java:219-229 | with unambiguous keys, counting by keys counts the players without the reward row |
| StoreModel.MaxEligible | plugin-vocabulary-quest/src/main/java/io/github/stuttgartnerd/vocabularyquest/SQLiteStore.java:243-244 | the maximum bounds every entry's count and is reached by one entry (0 for none) |
| StoreModel.TopGroup | plugin-vocabulary-quest/src/main/java/io/github/stuttgartnerd/vocabularyquest/SQLiteStore.java:231-250 | every member of the group carries the positive count it was built for |
| StoreModel.TopGroupMembers | plugin-vocabulary-quest/src/main/java/io/github/stuttgartnerd/vocabularyquest/SQLiteStore.java:243-249 | an entry is in the group exactly when it is an annotated entry whose count is the positive group count |
| StoreModel.TopGroupAboveMax | plugin-vocabulary-quest/src/main/java/io/github/stuttgartnerd/vocabularyquest/SQLiteStore.java:243-246 | no entry reaches a count above the maximum, so the group is cleared when a new maximum appears |
| StoreModel.TopGroupEmpty | plugin-vocabulary-quest/src/main/java/io/github/stuttgartnerd/vocabularyquest/SQLiteStore.java:252-254 | the top group is empty exactly when no entry has an eligible player |
| StoreModel.TopGroupZero | plugin-vocabulary-quest/src/main/java/io/github/stuttgartnerd/vocabularyquest/SQLiteStore.java:231-233 | entries without eligible players never join the group |
| StoreModel.Weight | plugin-vocabulary-quest/src/main/java/io/github/stuttgartnerd/vocabularyquest/SQLiteStore.java:258 | the weight `1 / (1 + attempts)` lies in (0, 1] |
| StoreModel.WeightPositive | plugin-vocabulary-quest/src/main/java/io/github/stuttgartnerd/vocabularyquest/SQLiteStore.java:258 | the reciprocal weight is positive and at most 1 |
| StoreModel.WeightDecreasing | plugin-vocabulary-quest/src/main/java/io/github/stuttgartnerd/vocabularyquest/SQLiteStore.java:258 | fewer attempts give a strictly larger weight |
| StoreModel.PickWithinTotal | plugin-vocabulary-quest/src/main/java/io/github/stuttgartnerd/vocabularyquest/SQLiteStore.java:261 | a draw in [0, 1] gives a pick between 0 and the total weight |
| StoreModel.Cumulative | plugin-vocabulary-quest/src/main/java/io/github/stuttgartnerd/vocabularyquest/SQLiteStore.java:262-264 | running weights are non-negative and positive after the first entry |
| StoreModel.CumulativeIncreasing | plugin-vocabulary-quest/src/main/java/io/github/stuttgartnerd/vocabularyquest/SQLiteStore.java:263-264 | running weights grow strictly |
| StoreModel.WalkFrom | plugin-vocabulary-quest/src/main/java/io/github/stuttgartnerd/vocabularyquest/SQLiteStore.java:263-270 | the walk always returns a position of the group, never before its start |
| StoreModel.WalkStopsAt | plugin-vocabulary-quest/src/main/java/io/github/stuttgartnerd/vocabularyquest/SQLiteStore.java:263-268 | the walk returns the first position whose running weight reaches the pick |
| StoreModel.CoveringIndex | plugin-vocabulary-quest/src/main/java/io/github/stuttgartnerd/vocabularyquest/SQLiteStore.java:263-268 | a positive pick up to the total lies in the interval of some entry |
| StoreModel.DrawIntervals | plugin-vocabulary-quest/src/main/java/io/github/stuttgartnerd/vocabularyquest/SQLiteStore.java:256-270 | an entry is drawn exactly when the pick lies in its interval, whose length is its weight |
| StoreModel.DrawIsCovering | plugin-vocabulary-quest/src/main/java/io/github/stuttgartnerd/vocabularyquest/SQLiteStore.java:261-268 | the drawn entry's interval contains the pick |
| StoreModel.IntervalsDisjoint | plugin-vocabulary-quest/src/main/java/io/github/stuttgartnerd/vocabularyquest/SQLiteStore.java:263-268 | the intervals of different entries do not overlap |
| StoreModel.ExactDrawReachesPick | plugin-vocabulary-quest/src/main/java/io/github/stuttgartnerd/vocabularyquest/SQLiteStore.java:261-270 | with exact arithmetic the walk stops by reaching the pick, so the last-entry fallback never decides |
| StoreModel.SelectQuestNone | plugin-vocabulary-quest/src/main/java/io/github/stuttgartnerd/vocabularyquest/SQLiteStore.java:178-254 | no quest exactly when nobody is online or no row has an eligible online player (both tables empty included) |
| StoreModel.SelectQuestSome | plugin-vocabulary-quest/src/main/java/io/github/stuttgartnerd/vocabularyquest/SQLiteStore.java:223-250 | a selected quest is a stored row with its true attempt count and a positive eligible count that is the largest over all rows |
| StoreModel.SelectQuestUnrewarded | plugin-vocabulary-quest/src/main/java/io/github/stuttgartnerd/vocabularyquest/SQLiteStore.java:219-233 | a selected row is still unrewarded for some online player, and its count is the number of such players |
| StoreModel.SelectQuestOnlyEligible | plugin-vocabulary-quest/src/main/java/io/github/stuttgartnerd/vocabularyquest/SQLiteStore.java:243-270 | when exactly one row has eligible players it is selected, whatever the draw |
| Store.CountEligiblePlayers | plugin-vocabulary-quest/src/main/java/io/github/stuttgartnerd/vocabularyquest/SQLiteStore.java:224-229 | the inner loop's count equals `EligibleCount`, and is 0 exactly when every player holds the key |
| Store.SumWeights | plugin-vocabulary-quest/src/main/java/io/github/stuttgartnerd/vocabularyquest/SQLiteStore.java:256-259 | the loop's sum is the group's total weight, positive for a non-empty group |
| Store.CollectMostEligible | plugin-vocabulary-quest/src/main/java/io/github/stuttgartnerd/vocabularyquest/SQLiteStore.java:220-250 | the incremental loop yields exactly the entries tying for the maximal positive count, in input order |
| Store.WeightedDraw | plugin-vocabulary-quest/src/main/java/io/github/stuttgartnerd/vocabularyquest/SQLiteStore.java:256-270 | the walk's result is the entry the specification's draw selects |
| Store.SQLiteStore.constructor | plugin-vocabulary-quest/src/main/java/io/github/stuttgartnerd/vocabularyquest/SQLiteStore.java:30-81 | a store over a fresh schema has every relation empty |
| Store.SQLiteStore.UpsertUser | plugin-vocabulary-quest/src/main/java/io/github/stuttgartnerd/vocabularyquest/SQLiteStore.java:83-92 | the user set gains the name, and upserting again changes nothing |
| Store.SQLiteStore.ReplaceVocabulary | plugin-vocabulary-quest/src/main/java/io/github/stuttgartnerd/vocabularyquest/SQLiteStore.java:273-294 | on commit the table holds exactly the entries in order and nothing else changes; any failing statement leaves the state as before |
| Store.SQLiteStore.ReplaceDeEn | plugin-vocabulary-quest/src/main/java/io/github/stuttgartnerd/vocabularyquest/SQLiteStore.java:94-96 | `de_en` is replaced with the entries, all or nothing |
| Store.SQLiteStore.ReplaceDeFr | plugin-vocabulary-quest/src/main/java/io/github/stuttgartnerd/vocabularyquest/SQLiteStore.java:98-100 | `de_fr` is replaced with the entries, all or nothing |
| Store.SQLiteStore.RecordAttempt | plugin-vocabulary-quest/src/main/java/io/github/stuttgartnerd/vocabularyquest/SQLiteStore.java:111-123 | exactly one attempt row is appended |
| Store.SQLiteStore.ClaimReward | plugin-vocabulary-quest/src/main/java/io/github/stuttgartnerd/vocabularyquest/SQLiteStore.java:125-135 | returns true exactly when the triple was not yet rewarded; afterwards it is |
| Store.SQLiteStore.ClearAnswerTracking | plugin-vocabulary-quest/src/main/java/io/github/stuttgartnerd/vocabularyquest/SQLiteStore.java:137-151 | on commit rewards and attempts are both emptied and nothing else changes; on any failure neither is |
| Store.SQLiteStore.InsertVocabularyEntry | plugin-vocabulary-quest/src/main/java/io/github/stuttgartnerd/vocabularyquest/SQLiteStore.java:153-174 | "en"/"fr" (trimmed, any case) append exactly one row to their table; any other language fails and changes nothing |
| Store.SQLiteStore.LoadRewardedKeysForPlayers | plugin-vocabulary-quest/src/main/java/io/github/stuttgartnerd/vocabularyquest/SQLiteStore.java:380-407 | the keys of exactly the rewards held by the listed players |
| Store.SQLiteStore.SelectWeightedQuestForOnlinePlayers | plugin-vocabulary-quest/src/main/java/io/github/stuttgartnerd/vocabularyquest/SQLiteStore.java:176-271 | the selection equals `SelectQuest` of the current relations |
| StoreScenarios.UpsertTwiceCountsOnce | plugin-vocabulary-quest/src/test/java/io/github/stuttgartnerd/vocabularyquest/SQLiteStoreTest.java:45-50 | "alice" twice and "bob" once make two users |
| StoreScenarios.ClaimRewardTwice | plugin-vocabulary-quest/src/test/java/io/github/stuttgartnerd/vocabularyquest/SQLiteStoreTest.java:68-69 | the first claim succeeds exactly when unrewarded, the second never does, and only the triple is added |
| StoreScenarios.ClearTrackingKeepsVocabulary | plugin-vocabulary-quest/src/test/java/io/github/stuttgartnerd/vocabularyquest/SQLiteStoreTest.java:59-86 | after one reward and two attempts, clearing leaves none, the vocabulary row and the user stay, and a failure changes nothing |
| StoreScenarios.InsertByLanguage | plugin-vocabulary-quest/src/test/java/io/github/stuttgartnerd/vocabularyquest/SQLiteStoreTest.java:89-106 | "en" and "fr" add one row each, "it" is refused |
| StoreScenarios.TotalAcrossLanguages | plugin-vocabulary-quest/src/test/java/io/github/stuttgartnerd/vocabularyquest/SQLiteStoreTest.java:144-159 | two `de_en` and one `de_fr` row make three entries |
| StoreScenarios.SelectionCandidates | plugin-vocabulary-quest/src/test/java/io/github/stuttgartnerd/vocabularyquest/SQLiteStoreTest.java:199-205 | the candidates of the sample tables, in query order |
| StoreScenarios.SelectionCounts | plugin-vocabulary-quest/src/test/java/io/github/stuttgartnerd/vocabularyquest/SQLiteStoreTest.java:207-221 | no eligible player for "haus", two for "baum" unless it is rewarded too |
| StoreScenarios.SelectionSkipsRewardedRows | plugin-vocabulary-quest/src/test/java/io/github/stuttgartnerd/vocabularyquest/SQLiteStoreTest.java:213-218 | with "haus" rewarded everywhere, "baum" is selected with two eligible players whatever the draw |
| StoreScenarios.SelectionNoneWhenAllRewarded | plugin-vocabulary-quest/src/test/java/io/github/stuttgartnerd/vocabularyquest/SQLiteStoreTest.java:220-224 | once every row is rewarded, or nobody is online, nothing is selected |
| StoreContracts.InsertMissingBounded | plugin-vocabulary-quest/src/main/java/io/github/stuttgartnerd/vocabularyquest/VocabularyQuestPlugin.java:461-462 | a merge never reports more added rows than incoming pairs |
| StoreContracts.InsertMissingIdempotent | plugin-vocabulary-quest/src/main/java/io/github/stuttgartnerd/vocabularyquest/VocabularyQuestPlugin.java:461 | merging the same pairs again adds nothing and changes nothing |
| StoreContracts.MergeAddsOnlyNewWord | plugin-vocabulary-quest/src/test/java/io/github/stuttgartnerd/vocabularyquest/SQLiteStoreTest.java:119-139 | a stored word keeps its translation, only the new word is added after it, and other relations stay |
| StoreContracts.MergeKeepsExistingTranslation | plugin-vocabulary-quest/src/test/java/io/github/stuttgartnerd/vocabularyquest/SQLiteStoreTest.java:119-137 | merging "haus"/"baum" over "legacy-house" adds one row and keeps the old translation and the attempts |
| StoreContracts.ClearEnglishScenario | plugin-vocabulary-quest/src/test/java/io/github/stuttgartnerd/vocabularyquest/SQLiteStoreTest.java:180-189 | clearing "en" removes two rows, keeps `de_fr`, empties tracking; "it" is refused without change |
| StoreContracts.ClearLanguageRemovesCandidates | plugin-vocabulary-quest/src/main/java/io/github/stuttgartnerd/vocabularyquest/VocabularyQuestPlugin.java:179 | after clearing a language no candidate comes from its table |
| PlaytimeStore.View | plugin-vocabulary-quest/src/main/java/io/github/stuttgartnerd/vocabularyquest/VocabularyQuestPlugin.java:553-560 | the reported state carries the row's minutes and date; the effective limit is the override if any, else the default |
| PlaytimeStore.GetOrCreateStable | plugin-vocabulary-quest/src/main/java/io/github/stuttgartnerd/vocabularyquest/VocabularyQuestPlugin.java:909 | loading the day's row twice changes nothing and reports the same state |
| PlaytimeStore.AddWithinDay | plugin-vocabulary-quest/src/main/java/io/github/stuttgartnerd/vocabularyquest/VocabularyQuestPlugin.java:869 | adding minutes raises the day's usage by exactly that much for that user only and keeps an existing day's limit |
| PlaytimeStore.ResetBelowLimit | plugin-vocabulary-quest/src/main/java/io/github/stuttgartnerd/vocabularyquest/VocabularyQuestPlugin.java:646 | after a reset the user is below any positive limit, with 0 minutes used |
| PlaytimeStore.ResetAllClearsDay | plugin-vocabulary-quest/src/main/java/io/github/stuttgartnerd/vocabularyquest/VocabularyQuestPlugin.java:639 | after resetting a day nobody has minutes that day, other days stay, and the count is at most the number of rows |
| CsvImport.SplitRow | plugin-vocabulary-quest/src/main/java/io/github/stuttgartnerd/vocabularyquest/VocabularyCsvImport.java:77-88 | a row is produced only from two non-empty sides that are not the header |
| CsvImport.ParseLineFacts | plugin-vocabulary-quest/src/main/java/io/github/stuttgartnerd/vocabularyquest/VocabularyCsvImport.java:65-88 | blank and `#` lines are ignored, comma-less lines are malformed, and rows are trimmed, non-empty, split at the first comma and not the header |
| CsvImport.LineResults | plugin-vocabulary-quest/src/main/java/io/github/stuttgartnerd/vocabularyquest/VocabularyCsvImport.java:63-89 | one treatment per line, each that of the line alone |
| CsvImport.Entries | plugin-vocabulary-quest/src/main/java/io/github/stuttgartnerd/vocabularyquest/VocabularyCsvImport.java:88 | no more entries than results |
| CsvImport.Warnings | plugin-vocabulary-quest/src/main/java/io/github/stuttgartnerd/vocabularyquest/VocabularyCsvImport.java:72-81 | warnings are 1-based line numbers within the input |
| CsvImport.Parse | plugin-vocabulary-quest/src/main/java/io/github/stuttgartnerd/vocabularyquest/VocabularyCsvImport.java:57-92 | the loop's entries and warning line numbers equal those of the specification |
| CsvImport.EntriesAppend | plugin-vocabulary-quest/src/main/java/io/github/stuttgartnerd/vocabularyquest/VocabularyCsvImport.java:59-91 | the entries of consecutive results are the entries of each, in order |
| CsvImport.ParseLinesAppend | plugin-vocabulary-quest/src/main/java/io/github/stuttgartnerd/vocabularyquest/VocabularyCsvImport.java:59-91 | parsing is line by line: the output of two blocks is the output of each, in order |
| CsvImport.EntriesMembers | plugin-vocabulary-quest/src/main/java/io/github/stuttgartnerd/vocabularyquest/VocabularyCsvImport.java:88 | an entry is produced exactly for a result that is that row |
| CsvImport.ParseLinesMembers | plugin-vocabulary-quest/src/main/java/io/github/stuttgartnerd/vocabularyquest/VocabularyCsvImport.java:88 | an entry is in the output exactly when some line parses to that row |
| CsvImport.EntriesWellFormed | plugin-vocabulary-quest/src/main/java/io/github/stuttgartnerd/vocabularyquest/VocabularyCsvImport.java:77-86 | no more entries than lines; every entry is a trimmed, non-empty pair without a comma on the German side and is not the header |
| CsvImport.HeaderDroppedAnywhere | plugin-vocabulary-quest/src/main/java/io/github/stuttgartnerd/vocabularyquest/VocabularyCsvImport.java:84-86 | a header row contributes nothing wherever it stands |
| CsvImport.CommaLine | plugin-vocabulary-quest/src/main/java/io/github/stuttgartnerd/vocabularyquest/VocabularyCsvImport.java:71-78 | a line is split at its first comma |
| CsvImport.RowRoundTrip | plugin-vocabulary-quest/src/main/java/io/github/stuttgartnerd/vocabularyquest/VocabularyCsvImport.java:71-88 | "left,right" reads back as the pair, the translation may hold commas, and any text (SQL-like included) passes through unchanged |
| CsvImport.HeaderLine | plugin-vocabulary-quest/src/main/java/io/github/stuttgartnerd/vocabularyquest/VocabularyCsvImport.java:84-86 | the header in any case is recognised as the header |
| CsvImport.SheetWithInvalidRow | plugin-vocabulary-quest/src/test/java/io/github/stuttgartnerd/vocabularyquest/VocabularyCsvImportTest.java:24-39 | the sample sheet gives the two rows in order and a warning for its third line |
| PluginInput.StripControls | plugin-vocabulary-quest/src/main/java/io/github/stuttgartnerd/vocabularyquest/VocabularyQuestPlugin.java:1031-1037 | the kept characters are input characters that are not ISO controls |
| PluginInput.Sanitized | plugin-vocabulary-quest/src/main/java/io/github/stuttgartnerd/vocabularyquest/VocabularyQuestPlugin.java:1026-1040 | the sanitised text is trimmed and free of ISO control characters, each character from the input |
| PluginInput.SanitizeUserInput | plugin-vocabulary-quest/src/main/java/io/github/stuttgartnerd/vocabularyquest/VocabularyQuestPlugin.java:1026-1040 | the builder loop computes `Sanitized` |
| PluginInput.StripControlsClean | plugin-vocabulary-quest/src/main/java/io/github/stuttgartnerd/vocabularyquest/VocabularyQuestPlugin.java:1031-1037 | text without control characters passes the filter unchanged |
| PluginInput.SanitizeIdempotent | plugin-vocabulary-quest/src/main/java/io/github/stuttgartnerd/vocabularyquest/VocabularyQuestPlugin.java:1026-1040 | sanitising twice is sanitising once |
| PluginInput.NormalizeAnswer | plugin-vocabulary-quest/src/main/java/io/github/stuttgartnerd/vocabularyquest/VocabularyQuestPlugin.java:1018-1024 | the normalised answer is trimmed, no longer, and has no upper-case ASCII letter |
| PluginInput.NormalizeAnswerCanonical | plugin-vocabulary-quest/src/main/java/io/github/stuttgartnerd/vocabularyquest/VocabularyQuestPlugin.java:1018-1024 | normalising is idempotent and ignores prior lower-casing and trimming |
| PluginInput.FirstSpace | plugin-vocabulary-quest/src/main/java/io/github/stuttgartnerd/vocabularyquest/VocabularyQuestPlugin.java:999 | the position of the first `\s` character, none before it |
| PluginInput.SkipSpaces | plugin-vocabulary-quest/src/main/java/io/github/stuttgartnerd/vocabularyquest/VocabularyQuestPlugin.java:999 | the end of the run of `\s` characters |
| PluginInput.SplitOnSpaces | plugin-vocabulary-quest/src/main/java/io/github/stuttgartnerd/vocabularyquest/VocabularyQuestPlugin.java:999 | `split("\\s+", limit)` gives between one and `limit` parts |
| PluginInput.SplitThreeWords | plugin-vocabulary-quest/src/main/java/io/github/stuttgartnerd/vocabularyquest/VocabularyQuestPlugin.java:999 | three words separated by spaces split into exactly those words |
| PluginInput.ParsePrivatePluginAnswer | plugin-vocabulary-quest/src/main/java/io/github/stuttgartnerd/vocabularyquest/VocabularyQuestPlugin.java:993-1016 | an answer is returned only for a message starting with `/`, and it is trimmed |
| PluginInput.SplitPartsAreWords | plugin-vocabulary-quest/src/main/java/io/github/stuttgartnerd/vocabularyquest/VocabularyQuestPlugin.java:999 | splitting text with no `\s` at either end gives single words for every part but a remainder |
| PluginInput.PrivateAnswerParts | plugin-vocabulary-quest/src/main/java/io/github/stuttgartnerd/vocabularyquest/VocabularyQuestPlugin.java:993-1016 | for every message: an answer exactly when it is a non-blank `/` command whose first two parts are msg/tell/w and a bot name, ignoring case; those parts are single words and the answer is the trimmed third part or "" |
| PluginInput.PrivateAnswerForm | plugin-vocabulary-quest/src/main/java/io/github/stuttgartnerd/vocabularyquest/VocabularyQuestPlugin.java:993-1016 | "/cmd target answer" gives the answer exactly when the command is msg/tell/w and the target a bot name, ignoring case |
| PluginInput.OtherRecipientRejected | plugin-vocabulary-quest/src/test/java/io/github/stuttgartnerd/vocabularyquest/VocabularyQuestPluginMockBukkitTest.java:266-274 | "/msg plugin haus" is not an answer |
| PluginInput.BotRecipientAccepted | plugin-vocabulary-quest/src/main/java/io/github/stuttgartnerd/vocabularyquest/VocabularyQuestPlugin.java:1005-1015 | "/msg jenkins haus" is the answer "haus" |
| PluginInput.NonCommandRejected | plugin-vocabulary-quest/src/main/java/io/github/stuttgartnerd/vocabularyquest/VocabularyQuestPlugin.java:994-996 | a message not starting with `/` is never an answer |
| PluginInput.ParseNonNegativeInt | plugin-vocabulary-quest/src/main/java/io/github/stuttgartnerd/vocabularyquest/VocabularyQuestPlugin.java:970-977 | a value exactly when the sanitised text parses to a non-negative int |
| PluginInput.ParsePositiveInt | plugin-vocabulary-quest/src/main/java/io/github/stuttgartnerd/vocabularyquest/VocabularyQuestPlugin.java:979-985 | a value exactly when the non-negative parse gives a positive one |
| PluginInput.ParseNonNegativeRoundTrip | plugin-vocabulary-quest/src/main/java/io/github/stuttgartnerd/vocabularyquest/VocabularyQuestPlugin.java:970-985 | every printed non-negative int reads back as itself |
| PluginInput.SanitizedUnchanged | plugin-vocabulary-quest/src/main/java/io/github/stuttgartnerd/vocabularyquest/VocabularyQuestPlugin.java:1026-1040 | trimmed text without controls is its own sanitised form |
| PluginInput.NegativeRejected | plugin-vocabulary-quest/src/main/java/io/github/stuttgartnerd/vocabularyquest/VocabularyQuestPlugin.java:970-977 | "-5" is refused as a minute count |
| PluginInput.ZeroLimitRejected | plugin-vocabulary-quest/src/main/java/io/github/stuttgartnerd/vocabularyquest/VocabularyQuestPlugin.java:979-985 | "0" is refused as a limit |
| PluginInput.WordRejected | plugin-vocabulary-quest/src/main/java/io/github/stuttgartnerd/vocabularyquest/VocabularyQuestPlugin.java:970-977 | "abc" is refused |
| Playtime.DefaultPlaytimeLimitMinutes | plugin-vocabulary-quest/src/main/java/io/github/stuttgartnerd/vocabularyquest/VocabularyQuestPlugin.java:954-957 | the configured limit, 120 when absent, raised to at least 1 |
| Playtime.NoBraceInNumber | plugin-vocabulary-quest/src/main/java/io/github/stuttgartnerd/vocabularyquest/VocabularyQuestPlugin.java:962-963 | a printed number cannot create a placeholder |
| Playtime.DefaultKickMessage | plugin-vocabulary-quest/src/main/java/io/github/stuttgartnerd/vocabularyquest/VocabularyQuestPlugin.java:959-964 | the default template yields "Daily playtime limit reached (used/limit min). Come back tomorrow." |
| Playtime.KickTemplateFilled | plugin-vocabulary-quest/src/main/java/io/github/stuttgartnerd/vocabularyquest/VocabularyQuestPlugin.java:959-964 | a template with one `{used}/{limit}` and no other brace has both filled |
| Playtime.UsedFilled | plugin-vocabulary-quest/src/main/java/io/github/stuttgartnerd/vocabularyquest/VocabularyQuestPlugin.java:962 | the first replacement fills `{used}` and keeps `{limit}` |
| Playtime.LimitFilled | plugin-vocabulary-quest/src/main/java/io/github/stuttgartnerd/vocabularyquest/VocabularyQuestPlugin.java:963 | the second replacement fills `{limit}` |
| Playtime.LimitPlaceholderKept | plugin-vocabulary-quest/src/main/java/io/github/stuttgartnerd/vocabularyquest/VocabularyQuestPlugin.java:962 | `{limit}` is not touched by replacing `{used}` |
| Playtime.TemplateWithoutPlaceholders | plugin-vocabulary-quest/src/main/java/io/github/stuttgartnerd/vocabularyquest/VocabularyQuestPlugin.java:959-964 | a configured template without braces is sent unchanged |
| Playtime.TickNotices | plugin-vocabulary-quest/src/main/java/io/github/stuttgartnerd/vocabularyquest/VocabularyQuestPlugin.java:870-876 | a warning with the minutes left exactly when 0 < limit - used <= 5, a kick exactly when used >= limit, nothing otherwise |
| Playtime.TickAll | plugin-vocabulary-quest/src/main/java/io/github/stuttgartnerd/vocabularyquest/VocabularyQuestPlugin.java:854-881 | at most one notice per online player |
| Playtime.TickAllNotices | plugin-vocabulary-quest/src/main/java/io/github/stuttgartnerd/vocabularyquest/VocabularyQuestPlugin.java:860-879 | the tick's notices are exactly those called for by the players with a usable name whose minute was added |
| Playtime.TickAllStep | plugin-vocabulary-quest/src/main/java/io/github/stuttgartnerd/vocabularyquest/VocabularyQuestPlugin.java:860-879 | one more player adds exactly that player's notices, if tracked |
| Playtime.NotifyPlayer | plugin-vocabulary-quest/src/main/java/io/github/stuttgartnerd/vocabularyquest/VocabularyQuestPlugin.java:870-876 | the warn-then-kick steps compute `TickNotices` |
| Playtime.TrackOnlinePlaytimeUsage | plugin-vocabulary-quest/src/main/java/io/github/stuttgartnerd/vocabularyquest/VocabularyQuestPlugin.java:854-881 | with the limit on and a store, the loop's notices are `TickAll`; otherwise none |
| Playtime.TickAgainstStore | plugin-vocabulary-quest/src/main/java/io/github/stuttgartnerd/vocabularyquest/VocabularyQuestPlugin.java:869-876 | a kick exactly when the stored usage plus the added minute reaches the limit, a warning exactly when at most five minutes are then left |
| Playtime.PlayerPlaytimeOf | plugin-vocabulary-quest/src/main/java/io/github/stuttgartnerd/vocabularyquest/VocabularyQuestPlugin.java:903-915 | a state exactly when the limit is on, the store exists, the name is not blank and the lookup succeeds |
| Playtime.KickIfReached | plugin-vocabulary-quest/src/main/java/io/github/stuttgartnerd/vocabularyquest/VocabularyQuestPlugin.java:928-930 | a kick exactly when the state shows the limit reached |
| Playtime.LoginRefusedIffReached | plugin-vocabulary-quest/src/main/java/io/github/stuttgartnerd/vocabularyquest/VocabularyQuestPlugin.java:369-391 | a login is refused exactly when the limit is on, the state is known and reached, with the kick message; a join kicks in the same cases |
| Playtime.LoginAgainstStore | plugin-vocabulary-quest/src/main/java/io/github/stuttgartnerd/vocabularyquest/VocabularyQuestPlugin.java:369-391 | refusal exactly when the day's stored usage reaches the limit; a first login of the day without an override is never refused |
| QuestLifecycle.IsSameQuest | plugin-vocabulary-quest/src/main/java/io/github/stuttgartnerd/vocabularyquest/VocabularyQuestPlugin.java:987-991 | two quests are the same exactly when they are equal |
| QuestLifecycle.QuestDelaySeconds | plugin-vocabulary-quest/src/main/java/io/github/stuttgartnerd/vocabularyquest/VocabularyQuestPlugin.java:805-809 | the delay lies in [180, 600] seconds |
| QuestLifecycle.EveryDelayReachable | plugin-vocabulary-quest/src/main/java/io/github/stuttgartnerd/vocabularyquest/VocabularyQuestPlugin.java:805-809 | each delay in [180, 600] comes from exactly one roll |
| QuestLifecycle.StartGates | plugin-vocabulary-quest/src/main/java/io/github/stuttgartnerd/vocabularyquest/VocabularyQuestPlugin.java:712-766 | refused exactly when a quest runs or there is no store; started exactly when a timed start finds ten rows, someone is online, selection succeeds and some row has an eligible player |
| QuestLifecycle.StartedQuestIsBest | plugin-vocabulary-quest/src/main/java/io/github/stuttgartnerd/vocabularyquest/VocabularyQuestPlugin.java:733-750 | a started quest is a stored row, and no row has more eligible online players |
| QuestLifecycle.AnswerCorrectness | plugin-vocabulary-quest/src/main/java/io/github/stuttgartnerd/vocabularyquest/VocabularyQuestPlugin.java:660-706 | correct exactly when the normalised answer is non-empty and equals the normalised expected one; rewarded exactly when correct and not yet rewarded |
| QuestLifecycle.AnswerIgnoresCaseAndBlanks | plugin-vocabulary-quest/src/main/java/io/github/stuttgartnerd/vocabularyquest/VocabularyQuestPlugin.java:668-684 | lower-casing or trimming an answer never changes its verdict |
| QuestLifecycle.ClassifyPrivateMessage | plugin-vocabulary-quest/src/main/java/io/github/stuttgartnerd/vocabularyquest/VocabularyQuestPlugin.java:400-420 | an answer handed on is non-empty, at most 64 UTF-16 code units long, trimmed and free of control characters |
| QuestLifecycle.SupplementaryAnswerTooLong | plugin-vocabulary-quest/src/main/java/io/github/stuttgartnerd/vocabularyquest/VocabularyQuestPlugin.java:414-417 | an answer of more than 32 characters beyond U+FFFF is refused as too long, since `length()` counts code units |
| QuestLifecycle.PrivateMessageReachesQuest | plugin-vocabulary-quest/src/main/java/io/github/stuttgartnerd/vocabularyquest/VocabularyQuestPlugin.java:400-420 | a message reaches the quest exactly when it is for the bot and its sanitised answer is non-blank and at most 64 UTF-16 code units |
| QuestLifecycle.JoinAndLoginRegisterAlike | plugin-vocabulary-quest/src/main/java/io/github/stuttgartnerd/vocabularyquest/VocabularyQuestPlugin.java:500-513 | for names without control characters, the trimmed and the sanitised name agree |
| QuestLifecycle.VocabularyQuestPlugin.constructor | plugin-vocabulary-quest/src/main/java/io/github/stuttgartnerd/vocabularyquest/VocabularyQuestPlugin.java:67-72 | a new plugin has no quest, no timeout, no pending start and no emeralds given |
| QuestLifecycle.VocabularyQuestPlugin.ScheduleNextQuest | plugin-vocabulary-quest/src/main/java/io/github/stuttgartnerd/vocabularyquest/VocabularyQuestPlugin.java:804-817 | the pending start is replaced by one at the rolled delay |
| QuestLifecycle.VocabularyQuestPlugin.FinishQuest | plugin-vocabulary-quest/src/main/java/io/github/stuttgartnerd/vocabularyquest/VocabularyQuestPlugin.java:798-802 | no quest, no timeout, next start scheduled |
| QuestLifecycle.VocabularyQuestPlugin.HasMinimumVocabularyForTimerQuests | plugin-vocabulary-quest/src/main/java/io/github/stuttgartnerd/vocabularyquest/VocabularyQuestPlugin.java:768-782 | true exactly when the count succeeds and reaches ten rows |
| QuestLifecycle.VocabularyQuestPlugin.StartVocabularyQuest | plugin-vocabulary-quest/src/main/java/io/github/stuttgartnerd/vocabularyquest/VocabularyQuestPlugin.java:712-766 | acts as `StartOf` decides: a started quest with its own timeout, a deferred start rescheduled, a refused one unchanged; the invariant holds |
| QuestLifecycle.VocabularyQuestPlugin.OnScheduledQuestDue | plugin-vocabulary-quest/src/main/java/io/github/stuttgartnerd/vocabularyquest/VocabularyQuestPlugin.java:804-817 | the fired task is cleared and a timed start is made |
| QuestLifecycle.VocabularyQuestPlugin.HandleQuestAnswer | plugin-vocabulary-quest/src/main/java/io/github/stuttgartnerd/vocabularyquest/VocabularyQuestPlugin.java:660-706 | the reply is the verdict; each evaluated answer adds one attempt; a correct one claims the reward; a rewarded one gives one emerald and ends the quest |
| QuestLifecycle.VocabularyQuestPlugin.OnPrivateMessageCommand | plugin-vocabulary-quest/src/main/java/io/github/stuttgartnerd/vocabularyquest/VocabularyQuestPlugin.java:400-420 | only a usable answer to the bot is handled, with the effects of `HandleQuestAnswer`; anything else changes nothing |
| QuestLifecycle.VocabularyQuestPlugin.OnQuestTimeout | plugin-vocabulary-quest/src/main/java/io/github/stuttgartnerd/vocabularyquest/VocabularyQuestPlugin.java:784-796 | ends the quest exactly when it is still the one the timeout carries; otherwise nothing changes |
| QuestLifecycle.VocabularyQuestPlugin.RegisterPlayerForPlaytime | plugin-vocabulary-quest/src/main/java/io/github/stuttgartnerd/vocabularyquest/VocabularyQuestPlugin.java:500-513 | a non-blank name is recorded trimmed as a user; nothing else in the store changes |
| QuestLifecycle.VocabularyQuestPlugin.OnPlayerLogin | plugin-vocabulary-quest/src/main/java/io/github/stuttgartnerd/vocabularyquest/VocabularyQuestPlugin.java:369-391 | the refusal is `Playtime.OnPlayerLogin`; the sanitised name is registered only when the limit is on and the name is usable |
| QuestLifecycle.VocabularyQuestPlugin.OnPlayerJoin | plugin-vocabulary-quest/src/main/java/io/github/stuttgartnerd/vocabularyquest/VocabularyQuestPlugin.java:393-398 | the trimmed name is always registered; the kick is `Playtime.EnforcePlaytimeLimit` |
| SheetMerge.MergeSummaryAddsUp | plugin-vocabulary-quest/src/main/java/io/github/stuttgartnerd/vocabularyquest/VocabularyQuestPlugin.java:459-464 | rows read are the parsed pairs, rows added are what the table grew by, and added plus skipped is rows read |
| SheetMerge.MergeTwiceSkipsAll | plugin-vocabulary-quest/src/main/java/io/github/stuttgartnerd/vocabularyquest/VocabularyQuestPlugin.java:459-464 | merging the same sheet twice reports every row as skipped and changes nothing |
| SheetMerge.MergeFailures | plugin-vocabulary-quest/src/main/java/io/github/stuttgartnerd/vocabularyquest/VocabularyQuestPlugin.java:459-464 | no summary exactly when the download or the store fails, and the store's error is passed on |

## Left out

- Loading CSV from a file or URL (`loadFromPath`, `loadFromUrl`): HTTP, timeouts, status codes and `BufferedReader` line splitting are I/O. The model starts from the sequence of lines. `isValidHttpUrl` depends on `java.net.URI` and is not modelled.
- The SQL mechanics are not modelled, only the relational effect of each statement and commit/rollback. This covers the schema DDL, the JDBC connection, autocommit handling, `datetime('now')` timestamps, `dumpToLog` and its logging, and `close`.
- `SQLException` from `upsertUser`, `recordAttempt`, `claimReward`, `insertVocabularyEntry` and the selection query is not modelled. Only the transactions (`replaceVocabulary`, `clearAnswerTracking`) and the language check model failure.
- `synchronized`: store calls are modelled as sequential.
- Store.WeightedDraw: weights are exact reals. Floating-point rounding is not modelled, so the last-entry fallback is kept but shown to be unreachable in exact arithmetic. The statistical preference test cannot be stated as a contract.
- Random numbers are parameters: `roll` for `nextInt(421)`, `draw` for `nextDouble()`.
- Bodies of `insertMissingVocabularyEntries`, `clearVocabularyLanguageAndTracking`, `getOrCreatePlayerPlaytimeForToday`, `addDailyUsedMinutesForToday`, `setDailyUsedMinutesForToday`, `setLimitOverrideMinutesForToday`, `resetDailyUsedMinutesForToday` and `resetAllDailyUsedMinutesForToday` are not part of this model. They are specified only as relations between states (`StoreContracts`, `PlaytimeStore`). `totalVocabularyEntries` is `Db.TotalVocabularyEntries`, the count over both tables.
- PlaytimeStore.ContinuesDay: when a row from an earlier day is replaced, the new day's override is left unconstrained. The call sites do not show whether it is kept.
- QuestLifecycle.VocabularyQuestPlugin.RegisterPlayerForPlaytime: the call to `getOrCreatePlayerPlaytimeForToday` is not applied to the playtime rows. The plugin class holds no playtime table, and the call's result is ignored by the source.
- Bukkit glue is not modelled:
  - the event objects and command dispatch (including `handlePlaytimeCommand` and the RCON sender checks)
  - broadcasts and player messages (including the `sendPlaytimeWarning` text)
  - `giveEmerald` inventory handling, modelled as the list `emeraldsGiven`
  - `getConfig`/`saveConfig`, modelled as `PlaytimeConfig`
  - `ensureDefaultResource`
  - `LocalDate.now`: the date is a parameter of the playtime relations
- The scheduler is modelled as state: the armed timeout with the quest it carries, and the pending start's delay in seconds. Tick counts, task handles and cancellation calls are not modelled.
- `kickOnlinePlayerIfLimitReached` is used only by the playtime command flow, which is not modelled.
- Playtime.TickNotices: a kick notice records the used minutes and the limit. The message sent is `BuildPlaytimeKickMessage` of those two numbers, proved separately (`Playtime.DefaultKickMessage`).
- Playtime.TickAll: `remaining = limit - used` is computed without 32-bit wrap-around.
- Null arguments (null names, messages or quests) are not modelled: every value is present.
- JavaText.ToLower: case mapping, `isWhitespace` and `equalsIgnoreCase` are modelled on ASCII only. `insertVocabularyEntry`'s default-locale `toLowerCase` is treated like `Locale.ROOT`. As a consequence, answers that differ only in the case of a non-ASCII letter ("École" and "école") are different answers in `NormalizeAnswer` and `AnswerVerdict`, where Java treats them as equal.
- JavaText.ParseInt: only the ASCII digits '0' to '9' are read. `Integer.parseInt` reads every Unicode decimal digit, so Java parses "１２０" (fullwidth digits) as 120 where the model gives None.
- PluginInput.ParseNonNegativeInt: inherits the ASCII-only digits of `JavaText.ParseInt`, so text made of non-ASCII decimal digits is refused where Java accepts it.
- PluginInput.ParsePositiveInt: inherits the ASCII-only digits of `JavaText.ParseInt` in the same way.
- StoreModel.Candidates: the selection query has no ORDER BY. The candidates are assumed to come in SQLite's natural `UNION ALL` order, the `de_en` rows before the `de_fr` rows, each table in id order. That order decides which row of the tie group a given draw picks.
- The chat bot and the RCON script are network clients and are not part of this model.
