# PNRR assessment reminder — verified model of the data core

`asseverazioni_reminder.py` reads an export of PNRR technical assessments
("asseverazioni"). Each row describes one organization ("ente"): its funding
request, a subject naming the PNRR measure (1.2 or 1.4.1), the date of the
last assignment, whether the assessment is blocked, the outcome of the last
technical assessment, and the project state. The script:

1. tolerantly matches the header against the seven required column names,
   renames the matches and refuses a table that still lacks one
   (`load_csv_data`);
2. parses the assignment date with `'%d/%m/%Y %H:%M'` (NaT when unparseable)
   and computes the whole days elapsed since it, 0 for NaT; a date too far
   from now for pandas' nanosecond arithmetic raises (`parse_date_column`);
3. keeps only rows whose outcome is "Parziale" and, per organization, the
   most recent one; its log of removed duplicates raises when an
   organization with several partial rows has no date at all
   (`filter_partial_assessments`);
4. sorts each surviving row into one of eight alert lists: who must act
   (the organization when the state is `AVVIATO`, or the internal review when
   it is `IN VERIFICA` and not blocked), which measure, and whether 15–29 or
   30+ days have passed (`categorize_alerts`).

The Dafny modules follow those steps:

- `Wrappers`: `Option` and `Result`.
- `Text`: Python's `str.strip`, `str.lower`, `in` and `<` on strings.
- `Dates`: the calendar, pandas' timestamp range, the date format as a
  parse/format round-trip, and elapsed days.
- `Enrichment`: rows and records, and `parse_date_column`.
- `Dedup`: the outcome filter, the date sort, and `groupby('Nome ente').first()`.
- `Classifier`: `categorize_alerts`, as the loop it is (`Categorize`) and as
  a reference function (`Categorization`), with the count of alerts.
- `Columns`: the column block of `load_csv_data`, as the nested loop it is
  (`MatchColumns`, `ResolveColumns`) and as reference functions.
- `Pipeline`: the steps of `main` that compute, and the counts the e-mail
  report shows.

The current time is a parameter `now`: `datetime.now()` in nanoseconds,
counted from 0001-01-01 00:00 on the scale of `Dates.ToNanos`. An empty
cell (NaN) is `None`.

Where the code raises, the model returns an error value:

- Empty outcome and date cells are filled explicitly (lines 257 and 291),
  but an empty subject reaches `'1.2' in oggetto` (line 362) as NaN, which
  raises. The model carries `Option` cells and models that error
  (`ClassifyError.SubjectNotText`).
- `categorize_alerts` skips a row without a valid date only because
  `fillna(0)` (line 271) gives it 0 days. A row with positive days and a NaT
  date would fail in `strftime` at line 387
  (`ClassifyError.DateNotFormattable`). `Pipeline.RunErrors` proves that
  this error never occurs on rows that went through `parse_date_column`.
- `today - date` (line 268) is computed in int64 nanoseconds with an
  overflow check, so a date more than about 292 years from `now` raises
  OverflowError (`Enrichment.EnrichError.TimedeltaOverflow`).
- The log of removed duplicates (lines 322-336) formats each duplicated
  organization's latest date with `strftime`. When none of that
  organization's partial rows has a date, that value is NaT and the call
  raises ValueError (`Dedup.DedupError.DuplicateWithoutDate`).

## Model

| member | source | states |
|---|---|---|
| Text.Strip | asseverazioni_reminder.py:294 | The result is a slice of the input. Only white space lies before and after it. It neither starts nor ends with white space. |
| Text.Lower | asseverazioni_reminder.py:374 | Same length as the input; every character is lowered on its own. |
| Text.LowerIdempotent | asseverazioni_reminder.py:99-100 | Lowering twice is the same as lowering once. |
| Text.LowerAppend | asseverazioni_reminder.py:99-100 | Lowering two joined strings gives the two lowered strings joined. |
| Text.ContainsOccurs | asseverazioni_reminder.py:362-364 | `sub in s` holds exactly when `sub` occurs in `s` at some index. |
| Text.LessIrreflexive | asseverazioni_reminder.py:320 | No name sorts before itself. |
| Text.LessTransitive | asseverazioni_reminder.py:320 | The string order used for the group keys is transitive. |
| Text.LessTotal | asseverazioni_reminder.py:320 | Of two different names, one sorts before the other. |
| Dates.Pad2 | asseverazioni_reminder.py:387 | A two-digit field is two digits whose value is the number. |
| Dates.Format | asseverazioni_reminder.py:387 | `strftime('%d/%m/%Y %H:%M')` writes exactly 16 characters; its layout and inverse are `Dates.FormatFields` and `Dates.ParseFormat`. |
| Dates.Parse | asseverazioni_reminder.py:260-264 | A parsed date formats back to exactly the parsed text. Text without the `dd/mm/YYYY HH:MM` layout gives NaT. |
| Dates.FormatFields | asseverazioni_reminder.py:387 | `strftime('%d/%m/%Y %H:%M')` output has the fixed layout. Reading its fields back gives the same day, month, year, hour and minute. |
| Dates.FormatOfLayout | asseverazioni_reminder.py:260-264 | Formatting the fields read from well-laid-out text gives that text back. |
| Dates.ParseFormat | asseverazioni_reminder.py:260-264 | Every timestamp, once formatted, parses back to itself. |
| Dates.ElapsedDays | asseverazioni_reminder.py:266-271 | Defined when `t - now` fits in int64 nanoseconds. NaT gives 0 days, and so does a difference equal to the NaT sentinel. Otherwise the result is the floor of the elapsed nanoseconds over a day's, so it is negative for a future date. |
| Enrichment.ParseAssigned | asseverazioni_reminder.py:257-264 | An empty cell gives NaT. A parsed date is exactly what the cell says. |
| Enrichment.EnrichRow | asseverazioni_reminder.py:257-271 | For a date that does not overflow: keeps the six other cells, parses the date cell, and gives the elapsed days of its own date. |
| Enrichment.Enrich | asseverazioni_reminder.py:253-286 | Fails with the overflow exactly when some row's date is too far from `now`. Otherwise the same number of rows, each enriched against the same `now`, NaT rows with 0 days. |
| Enrichment.EnrichedDaysFrom | asseverazioni_reminder.py:266-271 | After a successful enrichment, every record's days belong to its own date. |
| Dedup.FilterPartial | asseverazioni_reminder.py:290-294 | Keeps exactly the rows `Dedup.IsPartial` accepts (stripped outcome "Parziale"), each as many times as the input holds it, and none other. A row with an empty outcome is never kept. |
| Dedup.FilterPartialAppend | asseverazioni_reminder.py:290-294 | Selecting from two joined tables gives the two selections joined, so kept rows stay in table order. |
| Dedup.FilterPartialSingle | asseverazioni_reminder.py:290-294 | A single row is kept exactly when it is partial. |
| Dedup.FilterPartialCons | asseverazioni_reminder.py:290-294 | The selection of a table is the selection of its first row followed by the selection of the rest. |
| Dedup.SortByDate | asseverazioni_reminder.py:319 | A permutation of the rows, sorted by date, latest first, NaT last. |
| Dedup.SortedNames | asseverazioni_reminder.py:320 | Strictly ascending names, exactly the non-missing names present. A row with no name forms no group. |
| Dedup.GroupOf | asseverazioni_reminder.py:320 | The rows of one organization, in their sorted order. |
| Dedup.FirstOf | asseverazioni_reminder.py:320 | `first()` on one column: the value of some row all of whose predecessors miss it, missing only when every row misses it; the first row's value when it has one. |
| Dedup.Survivor | asseverazioni_reminder.py:320 | The group's row. Each column holds that column's first non-missing value; days come from the group's first row. |
| Dedup.GroupFirst | asseverazioni_reminder.py:320 | One row per group, in ascending name order, each row the survivor of its group. |
| Dedup.SortedGroupDate | asseverazioni_reminder.py:319-320 | In a date-sorted group, the first non-missing date is the first row's date. |
| Dedup.SurvivorLatest | asseverazioni_reminder.py:319-320 | A survivor's date is no earlier than any valid date of its group. |
| Dedup.GroupFirstNames | asseverazioni_reminder.py:320 | The grouping has one row per organization, in ascending name order. |
| Dedup.GroupFirstCovers | asseverazioni_reminder.py:320 | Every organization with a named partial row is represented, and no other. |
| Dedup.GroupFirstLatest | asseverazioni_reminder.py:319-320 | Every organization keeps its latest valid date. |
| Dedup.GroupFirstDates | asseverazioni_reminder.py:319-320 | Every kept date belongs to one of the organization's partial rows. |
| Dedup.DedupOfSortedArrangement | asseverazioni_reminder.py:319-320 | Any date-sorted permutation meets the whole deduplication contract, whatever the unstable sort does with ties. |
| Dedup.Deduplicate | asseverazioni_reminder.py:298-320 | No more rows than went in. One row per organization, ascending, all covered, each with its latest valid date taken from the input. Every cell is the first non-missing value of its column among the organization's rows in date order, and the days are those of the latest row. |
| Dedup.GroupFirstCells | asseverazioni_reminder.py:320 | Each grouped row holds, column by column, the first non-missing value among its organization's rows in the order given, and the first row's days. |
| Dedup.LatestIsNaTExactly | asseverazioni_reminder.py:330-334 | An organization's dates sorted latest first, NaT last, start with NaT, with more than one row, exactly when it has two or more partial rows and none is dated. |
| Dedup.GroupMultiset | asseverazioni_reminder.py:330-333 | An organization's group holds each of its rows as often as the table does. |
| Dedup.GroupSize | asseverazioni_reminder.py:319-330 | Reordering the rows keeps the number of rows of every organization. |
| Dedup.NamesBound | asseverazioni_reminder.py:320-323 | An organization with `m` rows leaves at most `n - m + 1` groups from `n` rows. |
| Dedup.DuplicateRemovesRows | asseverazioni_reminder.py:320-324 | An organization with two or more partial rows makes `duplicates_removed` positive. |
| Dedup.UndatedRaises | asseverazioni_reminder.py:322-334 | An organization with two or more partial rows, none dated, makes the log raise. |
| Dedup.LogRaisesExactly | asseverazioni_reminder.py:322-336 | The log raises exactly when some organization has two or more partial rows and none of them is dated. |
| Dedup.FilterAndDeduplicate | asseverazioni_reminder.py:288-341 | Fails exactly when some organization has two or more partial rows and none is dated. Otherwise the deduplication contract and the first-value cells over the partial rows, no more rows than partial rows and no more partial rows than rows. The empty table when no row is partial. |
| Dedup.DedupKeepsDays | asseverazioni_reminder.py:319-320 | Each survivor's days still equal the elapsed days of its own date. |
| Dedup.DeduplicateKeepsDays | asseverazioni_reminder.py:319-320 | Deduplication keeps every survivor's days tied to its date. |
| Dedup.SurvivorIsFirstRow | asseverazioni_reminder.py:320 | When the latest row has every cell filled in, it survives whole. |
| Classifier.EveryBucketListed | asseverazioni_reminder.py:345-354 | Every bucket is one of the eight lists. |
| Classifier.EnteKeyNames | asseverazioni_reminder.py:345-354 | The four `ente_*` buckets' key names, as the f-strings at lines 396-398 build them, are the dictionary's four `ente_*` keys. |
| Classifier.VerificaKeyNames | asseverazioni_reminder.py:345-354 | The four `verifica_*` buckets' key names, as the f-strings at lines 402-404 build them, are the dictionary's four `verifica_*` keys. |
| Classifier.KeyNamesDistinct | asseverazioni_reminder.py:345-354 | Different buckets have different key names. |
| Classifier.BucketOrderListsAll | asseverazioni_reminder.py:345-354 | The eight keys, in dictionary order, are distinct and are all the buckets. |
| Classifier.MisuraOf | asseverazioni_reminder.py:361-368 | Measure 1.2 exactly when the subject contains "1.2". Measure 1.4.1 exactly when it contains "1.4.1" but not "1.2". Otherwise none, and the row is skipped. |
| Classifier.IsBlocked | asseverazioni_reminder.py:370-375 | Blocked exactly when the cell is present and, stripped and lower-cased, reads "sì". |
| Classifier.TierOf | asseverazioni_reminder.py:392-405 | 30 days or more: urgent. 15 to 29: the 15-day list. Under 15: no list. |
| Classifier.Place | asseverazioni_reminder.py:391-405 | A list exactly when days ≥ 15, with the tier's bucket for the given actor and measure. |
| Classifier.ClassifySpec | asseverazioni_reminder.py:356-405 | The contract of `Classifier.Classify`: fails with `SubjectNotText` exactly when the subject is missing, and with `DateNotFormattable` exactly when a 1.2/1.4.1 row has positive days and no date. The row is placed exactly when it is due and dated, and then its alert fits its bucket and describes the row. |
| Classifier.Selected | asseverazioni_reminder.py:389-405 | One list built from the first `n` rows holds at most `n` alerts. |
| Classifier.SelectedFrom | asseverazioni_reminder.py:389-405 | Every alert in a list is the alert of one of the rows whose iteration appends to that list. |
| Classifier.SelectedFits | asseverazioni_reminder.py:389-405 | Every alert in a list fits that list and was built from one of the rows. |
| Classifier.SelectedPrefix | asseverazioni_reminder.py:389-405 | The list after the first `i` rows is a prefix of the list after the first `n`. |
| Classifier.SelectedComplete | asseverazioni_reminder.py:389-405 | A row placed in a list has its alert in that list, right after the alerts of the earlier rows placed there. |
| Classifier.PlacedAlertName | asseverazioni_reminder.py:393-404 | A placed row's alert carries the row's organization name. |
| Classifier.SelectedAscending | asseverazioni_reminder.py:389-405 | When the placed rows' names are strictly ascending, so is each list. |
| Classifier.PlacedCount | asseverazioni_reminder.py:408 | The number of rows placed in some list, at most the number of rows. |
| Classifier.FirstFailure | asseverazioni_reminder.py:357-381 | No failure exactly when every row classifies. Otherwise the index of a failing row, before which all rows succeed. |
| Classifier.Lists | asseverazioni_reminder.py:345-354 | Exactly the eight keys, each mapped to its reference list. |
| Classifier.StepLists | asseverazioni_reminder.py:389-405 | One successful iteration turns the lists of the first `i` rows into those of the first `i + 1`. |
| Classifier.Categorization | asseverazioni_reminder.py:343-415 | Success exactly when no row raises, and then exactly the eight keys. A failure carries the error of the first row that raises. |
| Classifier.Categorize | asseverazioni_reminder.py:343-415 | The loop over the rows returns the categorization: the first error, or the eight reference lists. |
| Classifier.CategorizationLists | asseverazioni_reminder.py:343-415 | A successful categorization is exactly the eight reference lists over all the rows. |
| Classifier.SumLengthsOfLists | asseverazioni_reminder.py:408 | Summing list lengths over some buckets counts the alerts selected for them. |
| Classifier.SelectedSumStep | asseverazioni_reminder.py:408 | Adding a row adds to the summed lengths the number of the listed buckets it is placed in. |
| Classifier.HitsOfDistinct | asseverazioni_reminder.py:392-405 | Over distinct buckets, a row is counted once if it is placed in one of them and not at all otherwise. |
| Classifier.SelectedSumOverAll | asseverazioni_reminder.py:408 | Over any list naming every bucket once, the summed lengths are the number of placed rows. |
| Classifier.SelectedSumIsPlacedCount | asseverazioni_reminder.py:408 | Over the eight keys in dictionary order, the summed lengths are the number of placed rows. |
| Classifier.ZeroSum | asseverazioni_reminder.py:408 | Over zero rows the reference lists sum to zero. |
| Classifier.TotalIsPlacedCount | asseverazioni_reminder.py:408 | `Classifier.TotalAlerts` (`total_alerts`) is the number of placed rows, so no more than the number of rows. |
| Classifier.PlacedCountZero | asseverazioni_reminder.py:408 | No row is placed exactly when the placed count is zero. |
| Classifier.CategorizationFits | asseverazioni_reminder.py:343-405 | On success every alert in every list fits that list and describes one of the input rows. |
| Classifier.CategorizationComplete | asseverazioni_reminder.py:389-405 | On success the alert of every placed row is in its bucket's list. |
| Classifier.CategorizationInRowOrder | asseverazioni_reminder.py:389-405 | On success, of two rows placed in one list, the earlier row's alert comes first. |
| Classifier.CategorizationAscending | asseverazioni_reminder.py:389-405 | On success, over rows in strictly ascending name order, every list is in ascending name order. |
| Classifier.FailsOnlyOnSubject | asseverazioni_reminder.py:356-384 | When NaT rows have 0 days: the categorization fails only with `SubjectNotText`, and fails exactly when some row lacks a subject. |
| Columns.RemoveIgnoredChars | asseverazioni_reminder.py:99-100 | Removal leaves no space, apostrophe or question mark, and every other character of the name still occurs in the result; order and multiplicity are fixed by `Columns.RemoveIgnoredAppend` and `Columns.RemoveIgnoredSingle`. |
| Columns.RemoveIgnoredSingle | asseverazioni_reminder.py:99-100 | A single character is dropped exactly when it is a space, an apostrophe or a question mark, and otherwise kept. |
| Columns.RemoveIgnoredAppend | asseverazioni_reminder.py:99-100 | Removal on two joined strings is the removal on each, joined: kept characters stay in order and keep their number of occurrences. |
| Columns.RemoveIgnoredKeeps | asseverazioni_reminder.py:99-100 | A name with nothing to remove is returned unchanged. |
| Columns.NormalizeClean | asseverazioni_reminder.py:99-100 | A cleaned name has no ignored character and is already lower-case. |
| Columns.NormalizeIdempotent | asseverazioni_reminder.py:99-100 | Cleaning a cleaned name changes nothing. |
| Columns.Normalize | asseverazioni_reminder.py:99-100 | The cleaned name is never longer than the name; `Columns.NormalizeSingle` and `Columns.NormalizeAppend` fix it character by character. |
| Columns.NormalizeSingle | asseverazioni_reminder.py:99-100 | One character cleans to its lower-case form, or to nothing when that form is a space, an apostrophe or a question mark. |
| Columns.NormalizeAppend | asseverazioni_reminder.py:99-100 | Cleaning two joined strings gives the two cleaned strings joined, so every kept character keeps its place and count. |
| Columns.MatchesItself | asseverazioni_reminder.py:102-104 | A column that already carries a required name matches it. |
| Columns.MatchesSymmetric | asseverazioni_reminder.py:102-104 | `Columns.Matches` is symmetric: equal cleaned names, or either inside the other. |
| Columns.FirstMatchFromSpec | asseverazioni_reminder.py:97-107 | The search from index `j` finds the first matching column at or after `j`, or none exactly when no such column matches. |
| Columns.FirstMatchSpec | asseverazioni_reminder.py:97-107 | The inner loop stops at the first matching column, and finds none exactly when no column matches. |
| Columns.Unmatched | asseverazioni_reminder.py:109-110 | The warned-about names are exactly the required names no column matches. |
| Columns.MappingKeysMatched | asseverazioni_reminder.py:104-105 | `Columns.ColumnMapping`: every key of `column_mapping` is the column some required name matched, and the key maps to one such name. |
| Columns.MatchedAreMappingKeys | asseverazioni_reminder.py:104-105 | Every matched column is a key of `column_mapping`. |
| Columns.MappingValues | asseverazioni_reminder.py:104-105 | A key maps to the last required name matched to it. |
| Columns.FindMatch | asseverazioni_reminder.py:97-107 | The inner loop, which breaks at the first match, returns the index of the first matching column, or none. |
| Columns.MatchColumns | asseverazioni_reminder.py:94-110 | The outer loop computes exactly the reference mapping and the reference list of unmatched names. |
| Columns.Stripped | asseverazioni_reminder.py:80 | Every header name is stripped, and none is dropped. |
| Columns.Renamed | asseverazioni_reminder.py:112-114 | A mapped column takes its new name, and any other keeps its own. |
| Columns.Missing | asseverazioni_reminder.py:117 | Exactly the required names absent from the columns. |
| Columns.ResolutionOutcome | asseverazioni_reminder.py:117-122 | `Columns.Resolution`: accepted exactly when every required name is a column after renaming, keeping the number of columns. Otherwise the error lists exactly the absent names, and it is not empty. |
| Columns.UnmatchedIsMissing | asseverazioni_reminder.py:94-122 | A required name that matches no column makes loading fail, and the error names it. |
| Columns.MatchedApartIsAccepted | asseverazioni_reminder.py:94-122 | When every required name matches, and no two match the same column, loading succeeds. |
| Columns.ResolveColumns | asseverazioni_reminder.py:79-122 | Strip, match, rename only when the mapping is non-empty, then check: equals the reference resolution. |
| Pipeline.RunErrors | asseverazioni_reminder.py:654-658 | `Pipeline.Run` stops with the overflow exactly when some date is too far from `now`; otherwise with the log's error exactly when an organization has two or more partial rows and no date. It never fails with `DateNotFormattable`. Once the survivors are computed, it fails exactly when a surviving row lacks a subject. |
| Pipeline.SurvivorsKeepDays | asseverazioni_reminder.py:266-271 | A surviving row without a date has 0 days. |
| Pipeline.RunTotal | asseverazioni_reminder.py:422 | The report's total is the number of surviving rows placed in a list. That is no more than the surviving rows, which are no more than the rows loaded. |
| Pipeline.AllClearExactly | asseverazioni_reminder.py:438 | `Pipeline.AllClear`, the "all clear" e-mail, holds exactly when no surviving row is placed in any list. |
| Pipeline.NoPartialRowsAllClear | asseverazioni_reminder.py:298-304 | With no overflow and no partial row the pipeline succeeds with eight empty lists, all clear. |
| Pipeline.RunListsAscending | asseverazioni_reminder.py:654-658 | Every list of a successful run is in strictly ascending organization-name order. |
| Pipeline.UndatedDuplicatesStopRun | asseverazioni_reminder.py:322-334 | Two partial rows of one organization, both without a date, stop the run with the log's error, whatever `now` is. |
| Pipeline.EarlyDateStopsRun | asseverazioni_reminder.py:266-268 | A row dated 01/01/1700 00:00 stops the run with the overflow for any `now` from 2026 on. |
| Pipeline.SumLengthsCons | asseverazioni_reminder.py:435-436 | Summing lengths over a leading bucket adds that list's length. |
| Pipeline.UrgentAtMostTotal | asseverazioni_reminder.py:435-436 | `Pipeline.UrgentTotal` (`urgenti_total`, the four `_30_giorni` lists) never exceeds the total. |

## Left out

- Reading the CSV or Excel file (encoding, separator detection and pandas' type inference) is left out; the model begins with the header names and the rows as text cells.
- Dropping all-empty rows (`dropna(how='all')`) is left out, since it belongs to file reading.
- SharePoint access is left out (it is commented out in the code), and so is the e-mail transport over SMTP.
- The HTML and text of the e-mail are left out. Only the counts they show (`total_alerts`, `urgenti_total` and the all-clear branch) are modelled.
- Logging is left out. The one log statement that can raise, the list of removed duplicates at lines 322-336, is modelled by its error only (`Dedup.LogRaises`); the messages are not.
- Configuration from the environment and `main`'s choice between file sources are left out.
- The wall clock is a parameter (`now`, in nanoseconds), read once for the whole table.
- Dates.ElapsedDays and Dates.Overflows follow the nanosecond arithmetic of pandas 2.x (`add_overflowsafe` on `t - now`, then negation); other pandas versions' overflow checks are not modelled.
- Dates.Parse accepts only the zero-padded fixed layout. strptime also accepts one-digit fields and some extra white space, and those spellings parse to NaT here.
- Text.LowerChar covers ASCII and the Latin-1 capitals (all the letters the column names and "Sì" use), not all of Unicode's lowercasing.
- Cells are text or missing. Numeric cells pandas might infer, and `str()` of a non-string header name, are not modelled.
- The second `pd.to_datetime` in `filter_partial_assessments` (lines 311-315) runs on an already-parsed column and does nothing, so it is not repeated.
- Dedup.SortByDate is one particular sorted permutation. The source's quicksort is not stable, so `Dedup.DedupOfSortedArrangement` proves the contract for every sorted permutation.
- The days column is a float in pandas after `fillna(0)`; `int(giorni)` on it is the identity here, since days are whole numbers.
- A table that still has two columns with the same name after renaming is not distinguished. Each name's presence is all that is checked.
