/** The steps of `main` that compute: enrich the loaded rows against one
    `now`, keep the latest partial row per organization, categorize, and the
    counts the report is built from. */
module Pipeline {
  import opened Wrappers
  import opened Text
  import opened Dates
  import opened Enrichment
  import opened Dedup
  import opened Classifier

  /** What stops `main` before the report: the OverflowError of
      `parse_date_column`, the ValueError of the log of removed duplicates,
      or an error of `categorize_alerts`. */
  datatype RunError = DaysOverflow | UndatedDuplicates | Categorizing(error: ClassifyError)

  /** The rows `categorize_alerts` receives: enriched, filtered and
      deduplicated, or the error raised on the way. */
  function Survivors(rows: seq<Row>, now: int): Result<seq<Record>, RunError> {
    match Enrich(rows, now)
    case Failure(_) => Failure(DaysOverflow)
    case Success(recs) =>
      match FilterAndDeduplicate(recs)
      case Failure(_) => Failure(UndatedDuplicates)
      case Success(kept) => Success(kept)
  }

  /** The eight alert lists computed from the loaded rows, or the first
      error raised. */
  function Run(rows: seq<Row>, now: int): Result<Alerts, RunError> {
    match Survivors(rows, now)
    case Failure(e) => Failure(e)
    case Success(kept) =>
      match Categorization(kept)
      case Failure(e) => Failure(Categorizing(e))
      case Success(alerts) => Success(alerts)
  }

  /** Why the run stops. It stops with the overflow exactly when some date is
      too far from `now`; otherwise with the log's error exactly when some
      organization has two or more partial rows and not one date. Rows from
      `parse_date_column` have a date whenever their days are positive, so
      the categorization then fails only for a missing subject, and exactly
      when a surviving row lacks one. */
  lemma RunErrors(rows: seq<Row>, now: int)
    ensures Run(rows, now) == Failure(DaysOverflow) <==> AnyOverflow(rows, now)
    ensures Run(rows, now) == Failure(UndatedDuplicates) <==>
      !AnyOverflow(rows, now) && HasUndatedDuplicate(FilterPartial(Enrich(rows, now).value))
    ensures Run(rows, now).Failure? ==> Run(rows, now).error != Categorizing(DateNotFormattable)
    ensures Survivors(rows, now).Success? ==> (Run(rows, now).Failure? <==>
      exists i :: 0 <= i < |Survivors(rows, now).value| && Survivors(rows, now).value[i].subject.None?)
  {
    if Survivors(rows, now).Success? {
      var kept := Survivors(rows, now).value;
      SurvivorsKeepDays(rows, now);
      FailsOnlyOnSubject(kept);
    }
  }

  /** A surviving row without a date has 0 days, as `parse_date_column`
      gave it. */
  lemma SurvivorsKeepDays(rows: seq<Row>, now: int)
    ensures Survivors(rows, now).Success? ==> forall i :: 0 <= i < |Survivors(rows, now).value| ==>
      (Survivors(rows, now).value[i].assignedAt.None? ==> Survivors(rows, now).value[i].days == 0)
  {
    if Survivors(rows, now).Success? {
      var recs := Enrich(rows, now).value;
      EnrichedDaysFrom(rows, now);
      var partial := FilterPartial(recs);
      DeduplicateKeepsDays(partial, now);
      var kept := Survivors(rows, now).value;
      assert kept == Deduplicate(partial);
      forall i | 0 <= i < |kept| ensures kept[i].assignedAt.None? ==> kept[i].days == 0 {
        assert kept[i] in kept;
      }
    }
  }

  /** `urgenti_total`: the alerts in the four `_30_giorni` lists. */
  function UrgentTotal(alerts: Alerts): nat {
    SumLengths(alerts, [
      Bucket(Ente, Misura12, Days30), Bucket(Ente, Misura141, Days30),
      Bucket(Verifica, Misura12, Days30), Bucket(Verifica, Misura141, Days30)])
  }

  /** The report's "TUTTO OK" branch: no alert at all. */
  predicate AllClear(alerts: Alerts) {
    TotalAlerts(alerts) == 0
  }

  /** Each surviving row gives one alert at most: the total is the number of
      surviving rows placed in a list, no more than the rows loaded. */
  lemma RunTotal(rows: seq<Row>, now: int)
    ensures Run(rows, now).Success? ==> (TotalAlerts(Run(rows, now).value) ==
      PlacedCount(Outcomes(Survivors(rows, now).value), |Survivors(rows, now).value|))
    ensures Run(rows, now).Success? ==>
      (TotalAlerts(Run(rows, now).value) <= |Survivors(rows, now).value| <= |rows|)
  {
    if Run(rows, now).Success? {
      var kept := Survivors(rows, now).value;
      CategorizationLists(kept, Run(rows, now).value);
      TotalIsPlacedCount(Outcomes(kept), |kept|);
    }
  }

  /** The report says "TUTTO OK" exactly when no surviving row is placed in
      any list. */
  lemma AllClearExactly(rows: seq<Row>, now: int)
    ensures Run(rows, now).Success? ==> (AllClear(Run(rows, now).value) <==>
      forall j :: 0 <= j < |Survivors(rows, now).value| ==> !Placed(Outcomes(Survivors(rows, now).value)[j]))
  {
    if Run(rows, now).Success? {
      var kept := Survivors(rows, now).value;
      RunTotal(rows, now);
      PlacedCountZero(Outcomes(kept), |kept|);
    }
  }

  /** With no partial row the filter returns the empty table without error,
      and the result is eight empty lists: all clear. */
  lemma NoPartialRowsAllClear(rows: seq<Row>, now: int)
    ensures Enrich(rows, now).Success? && FilterPartial(Enrich(rows, now).value) == [] ==> Run(rows, now).Success?
    ensures Enrich(rows, now).Success? && FilterPartial(Enrich(rows, now).value) == [] ==>
      Run(rows, now).value.Keys == ALL_BUCKETS
    ensures Enrich(rows, now).Success? && FilterPartial(Enrich(rows, now).value) == [] ==>
      forall b :: b in Run(rows, now).value ==> Run(rows, now).value[b] == []
    ensures Enrich(rows, now).Success? && FilterPartial(Enrich(rows, now).value) == [] ==>
      AllClear(Run(rows, now).value)
  {
    if Enrich(rows, now).Success? && FilterPartial(Enrich(rows, now).value) == [] {
      assert Survivors(rows, now) == Success([]);
      TotalIsPlacedCount(Outcomes([]), 0);
    }
  }

  /** Every list of the report is in ascending organization-name order, one
      alert per organization at most: the surviving rows come one per
      organization in ascending name order, and each list keeps their order. */
  lemma RunListsAscending(rows: seq<Row>, now: int)
    ensures Run(rows, now).Success? ==>
      forall b :: b in Run(rows, now).value ==> NamesAscending(Run(rows, now).value[b])
  {
    if Run(rows, now).Success? {
      var kept := Survivors(rows, now).value;
      assert OnePerName(kept);
      CategorizationAscending(kept, Run(rows, now).value);
    }
  }

  /** The length of one list, 0 for a key the dictionary lacks. */
  function Len(alerts: Alerts, b: Bucket): nat {
    if b in alerts then |alerts[b]| else 0
  }

  lemma SumLengthsCons(alerts: Alerts, b: Bucket, bs: seq<Bucket>)
    ensures SumLengths(alerts, [b] + bs) == Len(alerts, b) + SumLengths(alerts, bs)
  {
    assert ([b] + bs)[1..] == bs;
  }

  /** The urgent alerts are among all alerts. */
  lemma UrgentAtMostTotal(alerts: Alerts)
    ensures UrgentTotal(alerts) <= TotalAlerts(alerts)
  {
    var e12a, e12b := Bucket(Ente, Misura12, Days15), Bucket(Ente, Misura12, Days30);
    var e14a, e14b := Bucket(Ente, Misura141, Days15), Bucket(Ente, Misura141, Days30);
    var v12a, v12b := Bucket(Verifica, Misura12, Days15), Bucket(Verifica, Misura12, Days30);
    var v14a, v14b := Bucket(Verifica, Misura141, Days15), Bucket(Verifica, Misura141, Days30);
    SumLengthsCons(alerts, v14b, []);
    SumLengthsCons(alerts, v14a, [v14b]);
    SumLengthsCons(alerts, v12b, [v14a, v14b]);
    SumLengthsCons(alerts, v12a, [v12b, v14a, v14b]);
    SumLengthsCons(alerts, e14b, [v12a, v12b, v14a, v14b]);
    SumLengthsCons(alerts, e14a, [e14b, v12a, v12b, v14a, v14b]);
    SumLengthsCons(alerts, e12b, [e14a, e14b, v12a, v12b, v14a, v14b]);
    SumLengthsCons(alerts, e12a, [e12b, e14a, e14b, v12a, v12b, v14a, v14b]);
    SumLengthsCons(alerts, v12b, [v14b]);
    SumLengthsCons(alerts, e14b, [v12b, v14b]);
    SumLengthsCons(alerts, e12b, [e14b, v12b, v14b]);
    assert [e12a] + [e12b, e14a, e14b, v12a, v12b, v14a, v14b] == BUCKET_ORDER;
  }

  lemma PartialPair(x: Record)
    requires IsPartial(x)
    ensures FilterPartial([x, x]) == [x, x]
  {
    assert [x, x][1..] == [x];
    assert [x][1..] == [];
  }

  lemma GroupOfPair(x: Record, k: string)
    requires x.ente == Some(k)
    ensures GroupOf([x, x], k) == [x, x]
  {
    assert [x][1..] == [];
    assert GroupOf([x], k) == [x];
    assert [x, x][1..] == [x];
  }

  lemma UndatedPair(row: Row, now: int) returns (x: Record)
    requires row.assignedAt.None?
    ensures !AnyOverflow([row, row], now)
    ensures Enrich([row, row], now) == Success([x, x])
    ensures KeepsCells(row, x) && x.assignedAt.None?
  {
    assert ParseAssigned(row.assignedAt).None?;
    x := EnrichRow(row, now);
    assert Enrich([row, row], now).value == [x, x];
  }

  /** Two partial rows of one organization, neither dated: the log of removed
      duplicates raises, whatever `now` is. */
  lemma UndatedDuplicatesStopRun(now: int)
    ensures var row := Row(Some("Comune X"), Some("FR1"), Some("Misura 1.2"), None, None, Some("Parziale"), Some("AVVIATO"));
      Run([row, row], now) == Failure(UndatedDuplicates)
  {
    var row := Row(Some("Comune X"), Some("FR1"), Some("Misura 1.2"), None, None, Some("Parziale"), Some("AVVIATO"));
    var x := UndatedPair(row, now);
    assert Strip("Parziale") == "Parziale";
    PartialPair(x);
    GroupOfPair(x, "Comune X");
    assert UndatedDuplicate([x, x], "Comune X");
    RunErrors([row, row], now);
  }

  /** A date in 1700 is more than 2^63 nanoseconds before any `now` in 2026 or
      later: the subtraction overflows. */
  lemma EarlyDateStopsRun(now: int)
    requires now >= ToNanos(DateTime(1, 1, 2026, 0, 0))
    ensures var row := Row(Some("Comune X"), Some("FR1"), Some("Misura 1.2"), Some("01/01/1700 00:00"), None, Some("Parziale"), Some("AVVIATO"));
      Run([row], now) == Failure(DaysOverflow)
  {
    var dt := DateTime(1, 1, 1700, 0, 0);
    assert IsValid(dt);
    assert Format(dt) == "01/01/1700 00:00";
    ParseFormat(dt);
    var row := Row(Some("Comune X"), Some("FR1"), Some("Misura 1.2"), Some("01/01/1700 00:00"), None, Some("Parziale"), Some("AVVIATO"));
    assert Overflows(now, ParseAssigned(row.assignedAt));
    RunErrors([row], now);
  }
}
