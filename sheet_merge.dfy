/**
 * Merging a downloaded vocabulary sheet into one language table: the sheet is
 * read as CSV with the header `de,<language>`, the pairs whose German word is
 * not yet stored are added, and a summary counts what was read, added and skipped.
 */
module SheetMerge {
  import opened Wrappers
  import opened StoreModel
  import opened Store
  import opened StoreContracts
  import opened CsvImport

  /** `ImportSummary`: rows read from the sheet, rows added, rows skipped because the word was already stored. */
  datatype ImportSummary = ImportSummary(sourceRows: int, inserted: int, skippedExisting: int)

  /** Why a merge fails: the download throws `IOException`, or the store throws `SQLException`. */
  datatype MergeError = DownloadFailed | StoreFailed(error: StoreError)

  /**
   * `mergeVocabularyFromSheet(language, url)`: `download` holds the sheet's lines
   * (None when fetching fails), and `insertOutcome` is the store's answer to
   * merging the parsed pairs.
   */
  function MergeVocabularyFromSheet(language: string, download: Option<seq<string>>,
                                    insertOutcome: Result<nat, StoreError>): Result<ImportSummary, MergeError>
  {
    match download
    case None => Err(DownloadFailed)
    case Some(lines) =>
      var entries := ParseLines(lines, "de", language);
      match insertOutcome
      case Err(e) => Err(StoreFailed(e))
      case Ok(inserted) => Ok(ImportSummary(|entries|, inserted, |entries| - inserted))
  }

  /**
   * When the store merges the sheet's pairs as its contract says, the summary
   * adds up: the rows read are the sheet's pairs, the rows added are exactly
   * those the table grew by, and the skipped count lies between 0 and the rows read.
   */
  lemma MergeSummaryAddsUp(before: Db, language: string, lines: seq<string>,
                           outcome: Result<nat, StoreError>, after: Db)
    requires InsertMissingSpec(before, language, ParseLines(lines, "de", language), outcome, after)
    requires outcome.Ok?
    ensures MergeVocabularyFromSheet(language, Some(lines), outcome).Ok?
    ensures var s := MergeVocabularyFromSheet(language, Some(lines), outcome).value;
            var t := LanguageTable(language).value;
            && s.sourceRows == |ParseLines(lines, "de", language)|
            && s.inserted == |after.Rows(t)| - |before.Rows(t)|
            && 0 <= s.skippedExisting <= s.sourceRows
            && s.inserted + s.skippedExisting == s.sourceRows
  {
    InsertMissingBounded(before, language, ParseLines(lines, "de", language), outcome, after);
  }

  /** Merging the same sheet a second time adds nothing: every row is reported as skipped. */
  lemma MergeTwiceSkipsAll(d0: Db, language: string, lines: seq<string>,
                           o1: Result<nat, StoreError>, d1: Db, o2: Result<nat, StoreError>, d2: Db)
    requires InsertMissingSpec(d0, language, ParseLines(lines, "de", language), o1, d1) && o1.Ok?
    requires InsertMissingSpec(d1, language, ParseLines(lines, "de", language), o2, d2) && o2.Ok?
    ensures d2 == d1
    ensures var s := MergeVocabularyFromSheet(language, Some(lines), o2).value;
            s.inserted == 0 && s.skippedExisting == s.sourceRows
  {
    InsertMissingIdempotent(d0, language, ParseLines(lines, "de", language), o1, d1, o2, d2);
  }

  /** A failed download or store call yields no summary, and the store's error is passed on. */
  lemma MergeFailures(language: string, download: Option<seq<string>>, insertOutcome: Result<nat, StoreError>)
    ensures MergeVocabularyFromSheet(language, download, insertOutcome).Err? <==>
            download.None? || insertOutcome.Err?
    ensures download.Some? && insertOutcome.Err? ==>
            MergeVocabularyFromSheet(language, download, insertOutcome) == Err(StoreFailed(insertOutcome.error))
  {
  }
}
