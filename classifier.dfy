/** `categorize_alerts`: each deduplicated row goes to at most one of eight
    alert lists, chosen by PNRR measure, project state, blocked flag and
    elapsed days. */
module Classifier {
  import opened Wrappers
  import opened Text
  import opened Dates
  import opened Enrichment

  /** Who has to act: the organization (`ente_*`) or the internal technical
      review (`verifica_*`). */
  datatype Actor = Ente | Verifica

  /** The PNRR measure named in the subject. */
  datatype Misura = Misura12 | Misura141

  /** How overdue: 15 to 29 days (`_15_giorni`) or 30 days and more (`_30_giorni`). */
  datatype Tier = Days15 | Days30

  datatype Bucket = Bucket(actor: Actor, misura: Misura, tier: Tier)

  const ALL_BUCKETS: set<Bucket> := {
    Bucket(Ente, Misura12, Days15), Bucket(Ente, Misura12, Days30),
    Bucket(Ente, Misura141, Days15), Bucket(Ente, Misura141, Days30),
    Bucket(Verifica, Misura12, Days15), Bucket(Verifica, Misura12, Days30),
    Bucket(Verifica, Misura141, Days15), Bucket(Verifica, Misura141, Days30)
  }

  lemma EveryBucketListed(b: Bucket)
    ensures b in ALL_BUCKETS
  {
    match b
    case Bucket(Ente, Misura12, Days15) =>
    case Bucket(Ente, Misura12, Days30) =>
    case Bucket(Ente, Misura141, Days15) =>
    case Bucket(Ente, Misura141, Days30) =>
    case Bucket(Verifica, Misura12, Days15) =>
    case Bucket(Verifica, Misura12, Days30) =>
    case Bucket(Verifica, Misura141, Days15) =>
    case Bucket(Verifica, Misura141, Days30) =>
  }

  /** The code a measure has in the key names and in the alert's `misura`. */
  function MisuraCode(m: Misura): string {
    match m
    case Misura12 => "1_2"
    case Misura141 => "1_4_1"
  }

  /** The dictionary key of a bucket, e.g. `ente_1_2_15_giorni`. */
  function KeyName(b: Bucket): string {
    (if b.actor == Ente then "ente_" else "verifica_")
    + MisuraCode(b.misura)
    + (if b.tier == Days30 then "_30_giorni" else "_15_giorni")
  }

  /** The four `ente_*` buckets are the dictionary's four `ente_*` keys. */
  lemma EnteKeyNames()
    ensures KeyName(Bucket(Ente, Misura12, Days15)) == "ente_1_2_15_giorni"
    ensures KeyName(Bucket(Ente, Misura12, Days30)) == "ente_1_2_30_giorni"
    ensures KeyName(Bucket(Ente, Misura141, Days15)) == "ente_1_4_1_15_giorni"
    ensures KeyName(Bucket(Ente, Misura141, Days30)) == "ente_1_4_1_30_giorni"
  {
    assert "ente_" + "1_2" + "_15_giorni" == "ente_1_2_15_giorni";
    assert "ente_" + "1_2" + "_30_giorni" == "ente_1_2_30_giorni";
    assert "ente_" + "1_4_1" + "_15_giorni" == "ente_1_4_1_15_giorni";
    assert "ente_" + "1_4_1" + "_30_giorni" == "ente_1_4_1_30_giorni";
  }

  /** The four `verifica_*` buckets are the dictionary's four `verifica_*` keys. */
  lemma VerificaKeyNames()
    ensures KeyName(Bucket(Verifica, Misura12, Days15)) == "verifica_1_2_15_giorni"
    ensures KeyName(Bucket(Verifica, Misura12, Days30)) == "verifica_1_2_30_giorni"
    ensures KeyName(Bucket(Verifica, Misura141, Days15)) == "verifica_1_4_1_15_giorni"
    ensures KeyName(Bucket(Verifica, Misura141, Days30)) == "verifica_1_4_1_30_giorni"
  {
    assert "verifica_" + "1_2" + "_15_giorni" == "verifica_1_2_15_giorni";
    assert "verifica_" + "1_2" + "_30_giorni" == "verifica_1_2_30_giorni";
    assert "verifica_" + "1_4_1" + "_15_giorni" == "verifica_1_4_1_15_giorni";
    assert "verifica_" + "1_4_1" + "_30_giorni" == "verifica_1_4_1_30_giorni";
  }

  /** Different buckets have different keys. */
  lemma KeyNamesDistinct()
    ensures forall b1, b2 :: KeyName(b1) == KeyName(b2) ==> b1 == b2
  {
    forall b1, b2 | KeyName(b1) == KeyName(b2) ensures b1 == b2 {
      var k1, k2 := KeyName(b1), KeyName(b2);
      assert |k1| == |k2|;
      assert k1[0] == k2[0];
      assert b1.actor == b2.actor;
      var n := if b1.actor == Ente then 5 else 9;
      assert k1[n + 2] == k2[n + 2];
      assert b1.misura == b2.misura;
      assert k1[|k1| - 8] == k2[|k2| - 8];
    }
  }

  /** One alert, as built from a row. */
  datatype Alert = Alert(
    ente: Option<string>,           // nome_ente
    fundingRequest: Option<string>, // funding_request
    subject: string,                // oggetto
    assignedAt: string,             // data_ultima_assegnazione, as '%d/%m/%Y %H:%M'
    days: int,                      // giorni
    isBlocked: bool,                // is_blocked
    state: Option<string>,          // stato
    misura: Misura                  // misura
  )

  /** Why the loop raises: a missing subject is a float NaN, and `'1.2' in
      NaN` is a TypeError; a due row whose date is NaT fails in `strftime`. */
  datatype ClassifyError = SubjectNotText | DateNotFormattable

  /** The measure of a subject: "1.2" is looked for first, then "1.4.1". */
  function MisuraOf(subject: string): (r: Option<Misura>)
    ensures r == Some(Misura12) <==> Contains(subject, "1.2")
    ensures r == Some(Misura141) <==> !Contains(subject, "1.2") && Contains(subject, "1.4.1")
    ensures r.None? <==> !Contains(subject, "1.2") && !Contains(subject, "1.4.1")
  {
    if Contains(subject, "1.2") then Some(Misura12)
    else if Contains(subject, "1.4.1") then Some(Misura141)
    else None
  }

  /** The blocked flag: a missing or empty cell is "not blocked"; otherwise
      the cell, stripped and lower-cased, must read "sì". */
  function IsBlocked(cell: Option<string>): (r: bool)
    ensures r <==> cell.Some? && Lower(Strip(cell.value)) == "sì"
  {
    if cell.None? || cell.value == "" then false
    else Lower(Strip(cell.value)) == "sì"
  }

  /** The tier of a number of elapsed days; 30 is already urgent. */
  function TierOf(days: int): (r: Option<Tier>)
    ensures r == Some(Days30) <==> days >= 30
    ensures r == Some(Days15) <==> 15 <= days < 30
    ensures r.None? <==> days < 15
  {
    if days >= 30 then Some(Days30)
    else if days >= 15 then Some(Days15)
    else None
  }

  /** An alert fits its bucket: the alert's measure is the bucket's, its days
      lie in the bucket's tier, and its state is the bucket's actor's
      (`AVVIATO` for `ente_*`, `IN VERIFICA` and not blocked for `verifica_*`). */
  predicate Fits(b: Bucket, a: Alert) {
    && a.misura == b.misura
    && (b.tier == Days30 ==> a.days >= 30)
    && (b.tier == Days15 ==> 15 <= a.days < 30)
    && (b.actor == Ente ==> a.state == Some("AVVIATO"))
    && (b.actor == Verifica ==> a.state == Some("IN VERIFICA") && !a.isBlocked)
  }

  /** The row is due: it names a measure, its state calls for an action, and
      at least 15 days have passed. */
  predicate IsDue(rec: Record) {
    && rec.subject.Some?
    && MisuraOf(rec.subject.value).Some?
    && rec.days >= 15
    && (rec.state == Some("AVVIATO") || (rec.state == Some("IN VERIFICA") && !IsBlocked(rec.blocked)))
  }

  /** The alert built from a row (`alert_data`). */
  predicate DescribesRow(a: Alert, rec: Record) {
    && Some(a.subject) == rec.subject
    && a.ente == rec.ente && a.fundingRequest == rec.fundingRequest
    && rec.assignedAt.Some? && a.assignedAt == Format(rec.assignedAt.value)
    && a.days == rec.days && a.isBlocked == IsBlocked(rec.blocked) && a.state == rec.state
    && Some(a.misura) == MisuraOf(rec.subject.value)
  }

  function Place(actor: Actor, m: Misura, alert: Alert): (r: Option<(Bucket, Alert)>)
    ensures r.Some? <==> alert.days >= 15
    ensures r.Some? ==> r.value == (Bucket(actor, m, TierOf(alert.days).value), alert)
  {
    match TierOf(alert.days)
    case None => None
    case Some(t) => Some((Bucket(actor, m, t), alert))
  }

  /** One iteration of the loop: which list the row is appended to, none, or
      the error the iteration raises. */
  function Classify(rec: Record): Result<Option<(Bucket, Alert)>, ClassifyError>
  {
    if rec.subject.None? then Failure(SubjectNotText)
    else match MisuraOf(rec.subject.value)
      case None => Success(None)
      case Some(m) =>
        var blocked := IsBlocked(rec.blocked);
        if rec.days <= 0 then Success(None)
        else if rec.assignedAt.None? then Failure(DateNotFormattable)
        else
          var alert := Alert(rec.ente, rec.fundingRequest, rec.subject.value, Format(rec.assignedAt.value),
                             rec.days, blocked, rec.state, m);
          if rec.state == Some("AVVIATO") then Success(Place(Ente, m, alert))
          else if rec.state == Some("IN VERIFICA") && !blocked then Success(Place(Verifica, m, alert))
          else Success(None)
  }

  /** One iteration raises for a missing subject, and for a row of a known
      measure with positive days but no date; it appends exactly the due,
      dated rows, with an alert that fits its list and describes the row. */
  lemma ClassifySpec(rec: Record)
    ensures Classify(rec) == Failure(SubjectNotText) <==> rec.subject.None?
    ensures Classify(rec) == Failure(DateNotFormattable) <==>
      rec.subject.Some? && MisuraOf(rec.subject.value).Some? && rec.days > 0 && rec.assignedAt.None?
    ensures Classify(rec).Success? && Classify(rec).value.Some? <==> IsDue(rec) && rec.assignedAt.Some?
    ensures Classify(rec).Success? && Classify(rec).value.Some? ==>
      Fits(Classify(rec).value.value.0, Classify(rec).value.value.1) && DescribesRow(Classify(rec).value.value.1, rec)
  {
  }

  /** What one iteration does with a row. */
  type Outcome = Result<Option<(Bucket, Alert)>, ClassifyError>

  /** The outcome of every row, in table order. */
  function Outcomes(rows: seq<Record>): (r: seq<Outcome>)
    ensures |r| == |rows|
    ensures forall i :: 0 <= i < |rows| ==> r[i] == Classify(rows[i])
  {
    seq(|rows|, i requires 0 <= i < |rows| => Classify(rows[i]))
  }

  /** The iteration appends to bucket `b`. */
  predicate PlacedIn(c: Outcome, b: Bucket) {
    c.Success? && c.value.Some? && c.value.value.0 == b
  }

  /** The iteration appends to some list. */
  predicate Placed(c: Outcome) {
    c.Success? && c.value.Some?
  }

  /** Reference definition of one list: the alerts of those of the first
      `n` outcomes that append to `b`, in row order. */
  function Selected(cs: seq<Outcome>, n: nat, b: Bucket): (r: seq<Alert>)
    requires n <= |cs|
    ensures |r| <= n
  {
    if n == 0 then []
    else
      var rest := Selected(cs, n - 1, b);
      if PlacedIn(cs[n - 1], b) then rest + [cs[n - 1].value.value.1] else rest
  }

  /** `a` is the alert of one of the first `n` outcomes that append to `b`. */
  ghost predicate AppendedBy(cs: seq<Outcome>, n: nat, b: Bucket, a: Alert)
    requires n <= |cs|
  {
    exists j :: 0 <= j < n && PlacedIn(cs[j], b) && a == cs[j].value.value.1
  }

  /** Every alert of a list is one that an outcome appends to that list. */
  lemma {:induction false} SelectedFrom(cs: seq<Outcome>, n: nat, b: Bucket)
    requires n <= |cs|
    ensures forall a :: a in Selected(cs, n, b) ==> AppendedBy(cs, n, b, a)
  {
    if n > 0 {
      SelectedFrom(cs, n - 1, b);
      forall a | a in Selected(cs, n, b) ensures AppendedBy(cs, n, b, a) {
        if a in Selected(cs, n - 1, b) {
          var j :| 0 <= j < n - 1 && PlacedIn(cs[j], b) && a == cs[j].value.value.1;
        } else {
          assert PlacedIn(cs[n - 1], b) && a == cs[n - 1].value.value.1;
        }
      }
    }
  }

  /** A list only grows as rows go by: the list of the first `i` rows is a
      prefix of the list of the first `n`. */
  lemma {:induction false} SelectedPrefix(cs: seq<Outcome>, i: nat, n: nat, b: Bucket)
    requires i <= n <= |cs|
    ensures Selected(cs, i, b) <= Selected(cs, n, b)
  {
    if i < n {
      SelectedPrefix(cs, i, n - 1, b);
    }
  }

  /** The alert of a row placed in a list is in that list, right after the
      alerts of the earlier rows placed there. */
  lemma SelectedComplete(cs: seq<Outcome>, n: nat, b: Bucket, i: nat)
    requires i < n <= |cs| && PlacedIn(cs[i], b)
    ensures |Selected(cs, i, b)| < |Selected(cs, n, b)|
    ensures Selected(cs, n, b)[|Selected(cs, i, b)|] == cs[i].value.value.1
  {
    SelectedPrefix(cs, i + 1, n, b);
    assert Selected(cs, i + 1, b) == Selected(cs, i, b) + [cs[i].value.value.1];
  }

  /** Every alert of a list fits the list's bucket and was built from one
      of the rows considered. */
  lemma SelectedFits(rows: seq<Record>, n: nat, b: Bucket)
    requires n <= |rows|
    ensures forall k :: 0 <= k < |Selected(Outcomes(rows), n, b)| ==>
      Fits(b, Selected(Outcomes(rows), n, b)[k]) &&
      exists j :: 0 <= j < n && DescribesRow(Selected(Outcomes(rows), n, b)[k], rows[j])
  {
    var cs := Outcomes(rows);
    SelectedFrom(cs, n, b);
    forall k | 0 <= k < |Selected(cs, n, b)|
      ensures Fits(b, Selected(cs, n, b)[k]) && exists j :: 0 <= j < n && DescribesRow(Selected(cs, n, b)[k], rows[j])
    {
      var a := Selected(cs, n, b)[k];
      assert a in Selected(cs, n, b);
      var j :| 0 <= j < n && PlacedIn(cs[j], b) && a == cs[j].value.value.1;
      assert cs[j] == Classify(rows[j]);
      ClassifySpec(rows[j]);
      assert Fits(b, a) && DescribesRow(a, rows[j]);
    }
  }

  /** The number of the first `n` outcomes that append to some list. */
  function PlacedCount(cs: seq<Outcome>, n: nat): (r: nat)
    requires n <= |cs|
    ensures r <= n
  {
    if n == 0 then 0
    else PlacedCount(cs, n - 1) + if Placed(cs[n - 1]) then 1 else 0
  }

  /** The first iteration that raises, if any. */
  function FirstFailure(cs: seq<Outcome>): (r: Option<nat>)
    ensures r.None? <==> forall i :: 0 <= i < |cs| ==> cs[i].Success?
    ensures r.Some? ==> r.value < |cs| && cs[r.value].Failure?
    ensures r.Some? ==> forall i :: 0 <= i < r.value ==> cs[i].Success?
  {
    if cs == [] then None
    else if cs[0].Failure? then Some(0)
    else match FirstFailure(cs[1..])
      case None => None
      case Some(i) => Some(i + 1)
  }

  /** The first failure of a prefix extended by one outcome. */
  lemma FirstFailureSnoc(cs: seq<Outcome>, i: nat)
    requires i < |cs| && FirstFailure(cs[..i]).None?
    ensures cs[i].Success? ==> FirstFailure(cs[..i + 1]).None?
    ensures cs[i].Failure? ==> FirstFailure(cs) == Some(i)
  {
    assert forall j :: 0 <= j < i ==> cs[..i][j] == cs[j];
    assert forall j :: 0 <= j < i + 1 ==> cs[..i + 1][j] == cs[j];
  }

  type Alerts = map<Bucket, seq<Alert>>

  /** The eight reference lists of the first `n` outcomes. */
  function Lists(cs: seq<Outcome>, n: nat): (r: Alerts)
    requires n <= |cs|
    ensures r.Keys == ALL_BUCKETS
    ensures forall b :: b in r ==> r[b] == Selected(cs, n, b)
  {
    map b | b in ALL_BUCKETS :: Selected(cs, n, b)
  }

  /** What `categorize_alerts` returns: the first error raised, or the eight
      lists, each holding exactly the alerts of the rows placed in it, in row
      order. */
  function Categorization(rows: seq<Record>): (r: Result<Alerts, ClassifyError>)
    ensures r.Success? <==> forall i :: 0 <= i < |rows| ==> Classify(rows[i]).Success?
    ensures r.Success? ==> r.value.Keys == ALL_BUCKETS
    ensures r.Failure? ==>
      exists i :: 0 <= i < |rows| && Classify(rows[i]) == Failure(r.error) && FirstFailure(Outcomes(rows)) == Some(i)
  {
    var cs := Outcomes(rows);
    match FirstFailure(cs)
    case Some(i) => Failure(cs[i].error)
    case None => Success(Lists(cs, |cs|))
  }

  /** A successful categorization is the eight reference lists of all rows. */
  lemma CategorizationLists(rows: seq<Record>, alerts: Alerts)
    requires Categorization(rows) == Success(alerts)
    ensures alerts == Lists(Outcomes(rows), |rows|)
  {
  }

  /** The dictionary after one successful iteration. */
  function Step(alerts: Alerts, c: Option<(Bucket, Alert)>): Alerts {
    match c
    case None => alerts
    case Some((b, a)) => if b in alerts then alerts[b := alerts[b] + [a]] else alerts
  }

  /** One successful iteration extends exactly the list the row is placed in. */
  lemma StepSelectedAt(cs: seq<Outcome>, i: nat, before: Alerts, b: Bucket)
    requires i < |cs| && cs[i].Success?
    requires before.Keys == ALL_BUCKETS && b in ALL_BUCKETS
    requires before[b] == Selected(cs, i, b)
    ensures Step(before, cs[i].value)[b] == Selected(cs, i + 1, b)
  {
  }

  lemma StepSelected(cs: seq<Outcome>, i: nat, before: Alerts)
    requires i < |cs| && cs[i].Success?
    requires before.Keys == ALL_BUCKETS
    requires forall b :: b in before ==> before[b] == Selected(cs, i, b)
    ensures Step(before, cs[i].value).Keys == ALL_BUCKETS
    ensures forall b :: b in Step(before, cs[i].value) ==> Step(before, cs[i].value)[b] == Selected(cs, i + 1, b)
  {
    var c := cs[i].value;
    if c.Some? {
      EveryBucketListed(c.value.0);
    }
    assert Step(before, c).Keys == ALL_BUCKETS;
    forall b | b in Step(before, c)
      ensures Step(before, c)[b] == Selected(cs, i + 1, b)
    {
      StepSelectedAt(cs, i, before, b);
    }
  }

  /** One successful iteration turns the lists of the first `i` rows into
      those of the first `i + 1`. */
  lemma StepLists(cs: seq<Outcome>, i: nat)
    requires i < |cs| && cs[i].Success?
    ensures Step(Lists(cs, i), cs[i].value) == Lists(cs, i + 1)
  {
    StepSelected(cs, i, Lists(cs, i));
  }

  method Categorize(rows: seq<Record>) returns (r: Result<Alerts, ClassifyError>)
    ensures r == Categorization(rows)
  {
    ghost var cs := Outcomes(rows);
    var alerts: Alerts := map b | b in ALL_BUCKETS :: [];
    assert alerts == Lists(cs, 0);
    var i := 0;
    while i < |rows|
      invariant 0 <= i <= |rows|
      invariant FirstFailure(cs[..i]).None?
      invariant alerts == Lists(cs, i)
    {
      var c := Classify(rows[i]);
      assert c == cs[i];
      FirstFailureSnoc(cs, i);
      if c.Failure? {
        return Failure(c.error);
      }
      StepLists(cs, i);
      alerts := Step(alerts, c.value);
      i := i + 1;
    }
    assert cs[..i] == cs;
    r := Success(alerts);
  }

  /** The keys in the order the dictionary literal lists them. */
  const BUCKET_ORDER: seq<Bucket> := [
    Bucket(Ente, Misura12, Days15), Bucket(Ente, Misura12, Days30),
    Bucket(Ente, Misura141, Days15), Bucket(Ente, Misura141, Days30),
    Bucket(Verifica, Misura12, Days15), Bucket(Verifica, Misura12, Days30),
    Bucket(Verifica, Misura141, Days15), Bucket(Verifica, Misura141, Days30)
  ]

  predicate Distinct(bs: seq<Bucket>) {
    forall i, j :: 0 <= i < j < |bs| ==> bs[i] != bs[j]
  }

  lemma BucketOrderListsAll()
    ensures Distinct(BUCKET_ORDER)
    ensures forall b :: b in ALL_BUCKETS <==> b in BUCKET_ORDER
  {
  }

  /** The summed lengths of the lists named in `bs`. */
  function SumLengths(alerts: Alerts, bs: seq<Bucket>): nat {
    if bs == [] then 0
    else (if bs[0] in alerts then |alerts[bs[0]]| else 0) + SumLengths(alerts, bs[1..])
  }

  /** `total_alerts = sum(len(v) for v in alerts.values())`. */
  function TotalAlerts(alerts: Alerts): nat {
    SumLengths(alerts, BUCKET_ORDER)
  }

  /** The summed lengths of the reference lists named in `bs`. */
  function SelectedSum(cs: seq<Outcome>, n: nat, bs: seq<Bucket>): nat
    requires n <= |cs|
  {
    if bs == [] then 0 else |Selected(cs, n, bs[0])| + SelectedSum(cs, n, bs[1..])
  }

  /** How many of the buckets in `bs` an iteration appends to. */
  function Hits(c: Outcome, bs: seq<Bucket>): nat {
    if bs == [] then 0 else (if PlacedIn(c, bs[0]) then 1 else 0) + Hits(c, bs[1..])
  }

  lemma {:induction false} SumLengthsOfLists(cs: seq<Outcome>, n: nat, bs: seq<Bucket>)
    requires n <= |cs|
    requires forall b :: b in bs ==> b in ALL_BUCKETS
    ensures SumLengths(Lists(cs, n), bs) == SelectedSum(cs, n, bs)
  {
    if bs != [] {
      SumLengthsOfLists(cs, n, bs[1..]);
    }
  }

  lemma {:induction false} SelectedSumStep(cs: seq<Outcome>, n: nat, bs: seq<Bucket>)
    requires 0 < n <= |cs|
    ensures SelectedSum(cs, n, bs) == SelectedSum(cs, n - 1, bs) + Hits(cs[n - 1], bs)
  {
    if bs != [] {
      SelectedSumStep(cs, n, bs[1..]);
    }
  }

  /** An iteration appends to one list at most, so a list of distinct buckets
      counts it once if it holds that list's bucket and not at all otherwise. */
  lemma {:induction false} HitsOfDistinct(c: Outcome, bs: seq<Bucket>)
    requires Distinct(bs)
    ensures Hits(c, bs) == if Placed(c) && c.value.value.0 in bs then 1 else 0
  {
    if bs != [] {
      assert Distinct(bs[1..]) by {
        forall i, j | 0 <= i < j < |bs[1..]| ensures bs[1..][i] != bs[1..][j] {
          assert bs[1..][i] == bs[i + 1] && bs[1..][j] == bs[j + 1];
        }
      }
      HitsOfDistinct(c, bs[1..]);
      if PlacedIn(c, bs[0]) {
        assert bs[0] !in bs[1..] by {
          forall k | 0 <= k < |bs[1..]| ensures bs[1..][k] != bs[0] {
            assert bs[1..][k] == bs[k + 1];
          }
        }
      }
    }
  }

  /** Over a list naming every bucket once, the summed lengths are the
      number of outcomes that append to some list. */
  lemma {:induction false} SelectedSumOverAll(cs: seq<Outcome>, n: nat, bs: seq<Bucket>)
    requires n <= |cs|
    requires Distinct(bs) && forall b: Bucket :: b in bs
    ensures SelectedSum(cs, n, bs) == PlacedCount(cs, n)
  {
    if n == 0 {
      ZeroSum(cs, bs);
    } else {
      SelectedSumOverAll(cs, n - 1, bs);
      SelectedSumStep(cs, n, bs);
      HitsOfDistinct(cs[n - 1], bs);
    }
  }

  lemma SelectedSumIsPlacedCount(cs: seq<Outcome>, n: nat)
    requires n <= |cs|
    ensures SelectedSum(cs, n, BUCKET_ORDER) == PlacedCount(cs, n)
  {
    BucketOrderListsAll();
    forall b: Bucket ensures b in BUCKET_ORDER {
      EveryBucketListed(b);
    }
    SelectedSumOverAll(cs, n, BUCKET_ORDER);
  }

  lemma {:induction false} ZeroSum(cs: seq<Outcome>, bs: seq<Bucket>)
    ensures SelectedSum(cs, 0, bs) == 0
  {
    if bs != [] {
      ZeroSum(cs, bs[1..]);
    }
  }

  /** Each row is appended to one list at most: the total number of alerts
      is the number of rows placed, hence no more than the number of rows. */
  lemma TotalIsPlacedCount(cs: seq<Outcome>, n: nat)
    requires n <= |cs|
    ensures TotalAlerts(Lists(cs, n)) == PlacedCount(cs, n) <= n
  {
    BucketOrderListsAll();
    SumLengthsOfLists(cs, n, BUCKET_ORDER);
    SelectedSumIsPlacedCount(cs, n);
  }

  /** No row is placed exactly when the count of placed rows is zero. */
  lemma {:induction false} PlacedCountZero(cs: seq<Outcome>, n: nat)
    requires n <= |cs|
    ensures PlacedCount(cs, n) == 0 <==> forall j :: 0 <= j < n ==> !Placed(cs[j])
  {
    if n > 0 {
      PlacedCountZero(cs, n - 1);
    }
  }

  /** Whatever `categorize_alerts` returns has the eight keys, and every alert
      in a list fits that list's bucket and was built from an input row. */
  lemma CategorizationFits(rows: seq<Record>, alerts: Alerts)
    requires Categorization(rows) == Success(alerts)
    ensures alerts.Keys == ALL_BUCKETS
    ensures forall b, k :: b in alerts && 0 <= k < |alerts[b]| ==>
      Fits(b, alerts[b][k]) && exists j :: 0 <= j < |rows| && DescribesRow(alerts[b][k], rows[j])
  {
    CategorizationLists(rows, alerts);
    forall b | b in alerts
      ensures forall k :: 0 <= k < |alerts[b]| ==>
        Fits(b, alerts[b][k]) && exists j :: 0 <= j < |rows| && DescribesRow(alerts[b][k], rows[j])
    {
      SelectedFits(rows, |rows|, b);
    }
  }

  /** Nothing is lost: on success, the alert of every row placed in a list
      is in that list. */
  lemma CategorizationComplete(rows: seq<Record>, alerts: Alerts, i: nat)
    requires Categorization(rows) == Success(alerts) && i < |rows|
    ensures Placed(Outcomes(rows)[i]) ==>
      Outcomes(rows)[i].value.value.0 in alerts
      && Outcomes(rows)[i].value.value.1 in alerts[Outcomes(rows)[i].value.value.0]
  {
    var cs := Outcomes(rows);
    CategorizationLists(rows, alerts);
    if Placed(cs[i]) {
      var b := cs[i].value.value.0;
      EveryBucketListed(b);
      SelectedComplete(cs, |rows|, b, i);
    }
  }

  /** Each list keeps the row order: of two rows placed in the same list, the
      earlier row's alert comes first. */
  lemma CategorizationInRowOrder(rows: seq<Record>, alerts: Alerts, b: Bucket, i: nat, j: nat)
    requires Categorization(rows) == Success(alerts)
    requires i < j < |rows| && PlacedIn(Outcomes(rows)[i], b) && PlacedIn(Outcomes(rows)[j], b)
    ensures b in alerts
    ensures exists p, q :: (0 <= p < q < |alerts[b]|
      && alerts[b][p] == Outcomes(rows)[i].value.value.1 && alerts[b][q] == Outcomes(rows)[j].value.value.1)
  {
    var cs := Outcomes(rows);
    CategorizationLists(rows, alerts);
    EveryBucketListed(b);
    SelectedComplete(cs, |rows|, b, i);
    SelectedComplete(cs, |rows|, b, j);
    SelectedComplete(cs, j, b, i);
    var p, q := |Selected(cs, i, b)|, |Selected(cs, j, b)|;
    assert alerts[b][p] == cs[i].value.value.1 && alerts[b][q] == cs[j].value.value.1;
  }

  /** Alerts in strictly ascending organization-name order. */
  predicate NamesAscending(s: seq<Alert>) {
    && (forall k :: 0 <= k < |s| ==> s[k].ente.Some?)
    && (forall k, l :: 0 <= k < l < |s| ==> Less(s[k].ente.value, s[l].ente.value))
  }

  /** A placed row's alert carries the row's organization name. */
  lemma PlacedAlertName(rows: seq<Record>, j: nat, b: Bucket)
    requires j < |rows| && PlacedIn(Outcomes(rows)[j], b)
    ensures Outcomes(rows)[j].value.value.1.ente == rows[j].ente
  {
    assert Outcomes(rows)[j] == Classify(rows[j]);
    ClassifySpec(rows[j]);
  }

  /** Appending a later name keeps a list ascending. */
  lemma AscendingSnoc(rest: seq<Alert>, a: Alert)
    requires NamesAscending(rest) && a.ente.Some?
    requires forall k :: 0 <= k < |rest| ==> Less(rest[k].ente.value, a.ente.value)
    ensures NamesAscending(rest + [a])
  {
    var r := rest + [a];
    forall k, l | 0 <= k < l < |r| ensures Less(r[k].ente.value, r[l].ente.value) {
      assert r[k] == rest[k];
      if l < |rest| {
        assert r[l] == rest[l];
      }
    }
  }

  /** When the placed outcomes carry strictly ascending names, so does each
      list. */
  lemma {:induction false} SelectedAscending(cs: seq<Outcome>, n: nat, b: Bucket)
    requires n <= |cs|
    requires forall j :: 0 <= j < |cs| && Placed(cs[j]) ==> cs[j].value.value.1.ente.Some?
    requires forall i, j :: 0 <= i < j < |cs| && Placed(cs[i]) && Placed(cs[j]) ==>
      Less(cs[i].value.value.1.ente.value, cs[j].value.value.1.ente.value)
    ensures NamesAscending(Selected(cs, n, b))
  {
    if n > 0 {
      SelectedAscending(cs, n - 1, b);
      var rest := Selected(cs, n - 1, b);
      if PlacedIn(cs[n - 1], b) {
        var a := cs[n - 1].value.value.1;
        SelectedFrom(cs, n - 1, b);
        forall k | 0 <= k < |rest| ensures Less(rest[k].ente.value, a.ente.value) {
          assert rest[k] in rest;
          var j :| 0 <= j < n - 1 && PlacedIn(cs[j], b) && rest[k] == cs[j].value.value.1;
        }
        AscendingSnoc(rest, a);
      }
    }
  }

  /** On success, over rows in strictly ascending name order, every list is
      in ascending name order. */
  lemma CategorizationAscending(rows: seq<Record>, alerts: Alerts)
    requires Categorization(rows) == Success(alerts)
    requires forall i :: 0 <= i < |rows| ==> rows[i].ente.Some?
    requires forall i, j :: 0 <= i < j < |rows| ==> Less(rows[i].ente.value, rows[j].ente.value)
    ensures forall b :: b in alerts ==> NamesAscending(alerts[b])
  {
    var cs := Outcomes(rows);
    CategorizationLists(rows, alerts);
    forall j | 0 <= j < |cs| && Placed(cs[j]) ensures cs[j].value.value.1.ente == rows[j].ente {
      PlacedAlertName(rows, j, cs[j].value.value.0);
    }
    forall b | b in alerts ensures NamesAscending(alerts[b]) {
      SelectedAscending(cs, |rows|, b);
    }
  }

  /** When every row without a date has 0 days, as `parse_date_column`
      guarantees, the loop raises only for a missing subject, and does so
      exactly when some row lacks one. */
  lemma FailsOnlyOnSubject(rows: seq<Record>)
    requires forall i :: 0 <= i < |rows| && rows[i].assignedAt.None? ==> rows[i].days == 0
    ensures Categorization(rows).Failure? ==> Categorization(rows).error == SubjectNotText
    ensures Categorization(rows).Failure? <==> exists i :: 0 <= i < |rows| && rows[i].subject.None?
  {
    forall i | 0 <= i < |rows| ensures Classify(rows[i]) != Failure(DateNotFormattable) {
      ClassifySpec(rows[i]);
    }
    if exists i :: 0 <= i < |rows| && rows[i].subject.None? {
      var i :| 0 <= i < |rows| && rows[i].subject.None?;
      ClassifySpec(rows[i]);
    }
  }
}
