/** One row of the export and its enrichment with elapsed days
    (`parse_date_column`). */
module Enrichment {
  import opened Wrappers
  import opened Dates

  /** A row of the table as loaded: the seven required columns, each of
      which may be missing (NaN). */
  datatype Row = Row(
    ente: Option<string>,           // 'Nome ente'
    fundingRequest: Option<string>, // 'Funding Request Name'
    subject: Option<string>,        // 'Oggetto'
    assignedAt: Option<string>,       // 'Data ultima assegnazione', as text
    blocked: Option<string>,        // "L'asseverazione è bloccata?"
    outcome: Option<string>,        // 'Ultimo esito asseverazione tecnica'
    state: Option<string>           // 'Stato progetto'
  )

  /** A row after `parse_date_column`: the assignment date parsed (None is
      NaT) and the days elapsed since it ('Giorni da ultima assegnazione'). */
  datatype Record = Record(
    ente: Option<string>,
    fundingRequest: Option<string>,
    subject: Option<string>,
    assignedAt: Option<Timestamp>,
    days: int,
    blocked: Option<string>,
    outcome: Option<string>,
    state: Option<string>
  )

  /** The OverflowError pandas raises when one row's date is too far from
      `now` for an int64 count of nanoseconds. */
  datatype EnrichError = TimedeltaOverflow

  /** The record's elapsed days are those of its own date, measured from
      `now` without overflow. */
  predicate DaysFrom(rec: Record, now: int) {
    !Overflows(now, rec.assignedAt) && rec.days == ElapsedDays(now, rec.assignedAt)
  }

  /** The assignment cell, with an empty cell read as `''` (`fillna('')`),
      parsed with `'%d/%m/%Y %H:%M'`; anything unparseable becomes NaT. */
  function ParseAssigned(cell: Option<string>): (r: Option<Timestamp>)
    ensures cell.None? ==> r.None?
    ensures r.Some? ==> cell == Some(Format(r.value))
  {
    assert cell.None? ==> |cell.GetOr("")| == 0;
    Parse(cell.GetOr(""))
  }

  /** The record keeps the row's other six cells as they are. */
  predicate KeepsCells(row: Row, rec: Record) {
    && rec.ente == row.ente && rec.fundingRequest == row.fundingRequest && rec.subject == row.subject
    && rec.blocked == row.blocked && rec.outcome == row.outcome && rec.state == row.state
  }

  function EnrichRow(row: Row, now: int): (r: Record)
    requires !Overflows(now, ParseAssigned(row.assignedAt))
    ensures KeepsCells(row, r)
    ensures r.assignedAt == ParseAssigned(row.assignedAt)
    ensures DaysFrom(r, now)
  {
    var at := ParseAssigned(row.assignedAt);
    Record(row.ente, row.fundingRequest, row.subject, at, ElapsedDays(now, at), row.blocked, row.outcome, row.state)
  }

  /** Some row's date is too far from `now`. */
  predicate AnyOverflow(rows: seq<Row>, now: int) {
    exists i :: 0 <= i < |rows| && Overflows(now, ParseAssigned(rows[i].assignedAt))
  }

  /** `parse_date_column`: every row enriched against one `now`, read once for
      the whole table. The subtraction is done for the whole column at once,
      so one date too far from `now` raises for the table. Otherwise an empty
      or unparseable date gives 0 days, and a valid one the whole days from it
      to `now`, rounded down. */
  function Enrich(rows: seq<Row>, now: int): (r: Result<seq<Record>, EnrichError>)
    ensures r.Failure? <==> exists i :: 0 <= i < |rows| && Overflows(now, ParseAssigned(rows[i].assignedAt))
    ensures r.Success? ==> |r.value| == |rows|
    ensures r.Success? ==> forall i :: 0 <= i < |rows| ==>
      && KeepsCells(rows[i], r.value[i])
      && r.value[i].assignedAt == ParseAssigned(rows[i].assignedAt)
      && DaysFrom(r.value[i], now)
      && (r.value[i].assignedAt.None? ==> r.value[i].days == 0)
  {
    if AnyOverflow(rows, now) then Failure(TimedeltaOverflow)
    else Success(seq(|rows|, i requires 0 <= i < |rows| => EnrichRow(rows[i], now)))
  }

  /** Every enriched record's days belong to its own date. */
  lemma EnrichedDaysFrom(rows: seq<Row>, now: int)
    ensures Enrich(rows, now).Success? ==> forall x :: x in Enrich(rows, now).value ==> DaysFrom(x, now)
  {
    if Enrich(rows, now).Success? {
      var recs := Enrich(rows, now).value;
      forall x | x in recs ensures DaysFrom(x, now) {
        var i :| 0 <= i < |recs| && recs[i] == x;
      }
    }
  }
}
