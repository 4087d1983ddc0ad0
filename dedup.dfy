/** `filter_partial_assessments`: keep the rows whose outcome is "Parziale",
    sort them by assignment date (latest first, NaT last) and keep, per
    organization, what `groupby('Nome ente').first()` keeps. */
module Dedup {
  import opened Wrappers
  import opened Text
  import opened Dates
  import opened Enrichment

  /** The outcome, with a missing cell read as `''` and white space stripped,
      is exactly "Parziale". */
  predicate IsPartial(rec: Record) {
    Strip(rec.outcome.GetOr("")) == "Parziale"
  }

  /** The selection `df[df[outcome].str.strip() == 'Parziale']`; that it keeps
      table order is `FilterPartialAppend`. */
  function FilterPartial(rows: seq<Record>): (r: seq<Record>)
    ensures |r| <= |rows|
    ensures forall x :: x in r <==> x in rows && IsPartial(x)
    ensures forall x :: x in r ==> x.outcome.Some?
    ensures forall x :: multiset(r)[x] == if IsPartial(x) then multiset(rows)[x] else 0
  {
    if rows == [] then []
    else
      assert rows == [rows[0]] + rows[1..];
      (if IsPartial(rows[0]) then [rows[0]] else []) + FilterPartial(rows[1..])
  }

  /** The selection decides each row on its own and keeps table order: a
      table split in two is selected part by part. */
  lemma {:induction false} FilterPartialAppend(a: seq<Record>, b: seq<Record>)
    ensures FilterPartial(a + b) == FilterPartial(a) + FilterPartial(b)
  {
    if a == [] {
      assert a + b == b;
    } else {
      var head := if IsPartial(a[0]) then [a[0]] else [];
      FilterPartialCons(a, b);
      assert FilterPartial(a) == head + FilterPartial(a[1..]);
      FilterPartialAppend(a[1..], b);
      ConcatAssociative(head, FilterPartial(a[1..]), FilterPartial(b));
    }
  }

  lemma ConcatAssociative<T>(x: seq<T>, y: seq<T>, z: seq<T>)
    ensures x + (y + z) == (x + y) + z
  {
  }

  /** One unfolding of the selection on a table split after its first part. */
  lemma FilterPartialCons(a: seq<Record>, b: seq<Record>)
    requires a != []
    ensures FilterPartial(a + b) == (if IsPartial(a[0]) then [a[0]] else []) + FilterPartial(a[1..] + b)
  {
    assert (a + b)[0] == a[0];
    assert (a + b)[1..] == a[1..] + b;
  }

  /** A single row is kept exactly when it is partial. */
  lemma FilterPartialSingle(x: Record)
    ensures FilterPartial([x]) == if IsPartial(x) then [x] else []
  {
    assert [x][1..] == [];
  }

  // ---------------------------------------------------------------------
  // Sorting by date, latest first, NaT last

  /** `a` may stand before `b` in `sort_values('Data ultima assegnazione',
      ascending=False)`: `b` is NaT, or both are dates and `a` is not earlier. */
  predicate DateGe(a: Record, b: Record) {
    b.assignedAt.None? || (a.assignedAt.Some? && ToMinutes(a.assignedAt.value) >= ToMinutes(b.assignedAt.value))
  }

  predicate SortedByDate(s: seq<Record>) {
    forall i, j :: 0 <= i < j < |s| ==> DateGe(s[i], s[j])
  }

  lemma DateGeTotal(a: Record, b: Record)
    ensures DateGe(a, b) || DateGe(b, a)
  {
  }

  lemma SortedCons(a: Record, s: seq<Record>)
    requires SortedByDate(s)
    requires forall y :: y in s ==> DateGe(a, y)
    ensures SortedByDate([a] + s)
  {
    var r := [a] + s;
    forall i, j | 0 <= i < j < |r| ensures DateGe(r[i], r[j]) {
      if i == 0 {
        assert r[j] == s[j - 1];
      } else {
        assert r[i] == s[i - 1] && r[j] == s[j - 1];
      }
    }
  }

  function InsertByDate(x: Record, s: seq<Record>): (r: seq<Record>)
    requires SortedByDate(s)
    ensures SortedByDate(r)
    ensures multiset(r) == multiset(s) + multiset{x}
  {
    if s == [] then [x]
    else if DateGe(x, s[0]) then
      assert forall y :: y in s ==> DateGe(x, y) by {
        forall y | y in s ensures DateGe(x, y) {
          var j :| 0 <= j < |s| && s[j] == y;
          if j > 0 {
            assert DateGe(s[0], s[j]);
          }
        }
      }
      SortedCons(x, s);
      [x] + s
    else
      var rest := InsertByDate(x, s[1..]);
      assert s == [s[0]] + s[1..];
      assert forall y :: y in rest ==> DateGe(s[0], y) by {
        forall y | y in rest ensures DateGe(s[0], y) {
          assert y in multiset(rest);
          if y != x {
            assert y in s[1..];
          } else {
            DateGeTotal(x, s[0]);
          }
        }
      }
      SortedCons(s[0], rest);
      [s[0]] + rest
  }

  /** One order `sort_values` may produce. pandas' default sort is not stable,
      so rows with equal dates may come out in any order: the dedup lemmas
      below hold for every sorted arrangement, not only for this one. */
  function SortByDate(s: seq<Record>): (r: seq<Record>)
    ensures SortedByDate(r)
    ensures multiset(r) == multiset(s)
  {
    if s == [] then []
    else
      assert s == [s[0]] + s[1..];
      InsertByDate(s[0], SortByDate(s[1..]))
  }

  // ---------------------------------------------------------------------
  // Grouping by organization name

  /** The organization names present; groupby drops rows whose name is NaN. */
  function Names(s: seq<Record>): set<string> {
    set x | x in s && x.ente.Some? :: x.ente.value
  }

  predicate Ascending(names: seq<string>) {
    forall i, j :: 0 <= i < j < |names| ==> Less(names[i], names[j])
  }

  lemma AscendingCons(n: string, names: seq<string>)
    requires Ascending(names)
    requires forall m :: m in names ==> Less(n, m)
    ensures Ascending([n] + names)
  {
    var r := [n] + names;
    forall i, j | 0 <= i < j < |r| ensures Less(r[i], r[j]) {
      if i == 0 {
        assert r[j] == names[j - 1];
      } else {
        assert r[i] == names[i - 1] && r[j] == names[j - 1];
      }
    }
  }

  function InsertName(n: string, names: seq<string>): (r: seq<string>)
    requires Ascending(names)
    ensures Ascending(r)
    ensures forall m :: m in r <==> m in names || m == n
    ensures |r| <= |names| + 1
    ensures n in names ==> |r| == |names|
  {
    if names == [] then [n]
    else if n == names[0] then names
    else if Less(n, names[0]) then
      assert n !in names by {
        if n in names {
          var j :| 0 <= j < |names| && names[j] == n;
          LessTransitive(n, names[0], names[j]);
          LessIrreflexive(n);
        }
      }
      assert forall m :: m in names ==> Less(n, m) by {
        forall m | m in names ensures Less(n, m) {
          var j :| 0 <= j < |names| && names[j] == m;
          if j > 0 {
            LessTransitive(n, names[0], names[j]);
          }
        }
      }
      AscendingCons(n, names);
      [n] + names
    else
      LessTotal(n, names[0]);
      var rest := InsertName(n, names[1..]);
      assert forall m :: m in rest ==> Less(names[0], m) by {
        forall m | m in rest ensures Less(names[0], m) {
          if m != n {
            var j :| 0 <= j < |names[1..]| && names[1..][j] == m;
            assert names[j + 1] == m;
          }
        }
      }
      AscendingCons(names[0], rest);
      [names[0]] + rest
  }

  /** The group keys in the order groupby emits them: ascending, each once. */
  function SortedNames(s: seq<Record>): (r: seq<string>)
    ensures Ascending(r)
    ensures forall n :: n in r <==> n in Names(s)
    ensures |r| <= |s|
  {
    if s == [] then []
    else
      var rest := SortedNames(s[1..]);
      assert s == [s[0]] + s[1..];
      assert forall n :: n in Names(s) <==> n in Names(s[1..]) || s[0].ente == Some(n);
      if s[0].ente.Some? then InsertName(s[0].ente.value, rest) else rest
  }

  /** The rows of one organization, in the order of `s`. */
  function GroupOf(s: seq<Record>, k: string): (g: seq<Record>)
    ensures forall x :: x in g <==> x in s && x.ente == Some(k)
    ensures SortedByDate(s) ==> SortedByDate(g)
  {
    if s == [] then []
    else
      var rest := GroupOf(s[1..], k);
      assert s == [s[0]] + s[1..];
      if s[0].ente == Some(k) then
        assert SortedByDate(s) ==> SortedByDate([s[0]] + rest) by {
          if SortedByDate(s) {
            assert forall y :: y in s[1..] ==> DateGe(s[0], y);
            SortedCons(s[0], rest);
          }
        }
        [s[0]] + rest
      else rest
  }

  /** `v` is the first non-missing value of `column` down the rows `g`: none
      exactly when every row misses it, and otherwise the value of some row
      all of whose predecessors miss it. */
  ghost predicate IsFirstValue<T>(g: seq<Record>, column: Record -> Option<T>, v: Option<T>) {
    && (v.None? <==> forall j :: 0 <= j < |g| ==> column(g[j]).None?)
    && (v.Some? ==> exists j :: 0 <= j < |g| && column(g[j]) == v && forall l :: 0 <= l < j ==> column(g[l]).None?)
  }

  /** `first()` on one column: the first non-missing value of the group. */
  function FirstOf<T>(g: seq<Record>, column: Record -> Option<T>): (r: Option<T>)
    ensures IsFirstValue(g, column, r)
    ensures r.None? <==> forall x :: x in g ==> column(x).None?
    ensures r.Some? ==> exists x :: x in g && column(x) == r
    ensures g != [] && column(g[0]).Some? ==> r == column(g[0])
  {
    if g == [] then None
    else if column(g[0]).Some? then column(g[0])
    else
      var r := FirstOf(g[1..], column);
      assert forall x :: x in g ==> x == g[0] || x in g[1..];
      assert r.Some? ==> exists j :: 0 <= j < |g| && column(g[j]) == r && forall l :: 0 <= l < j ==> column(g[l]).None? by {
        if r.Some? {
          var j :| 0 <= j < |g[1..]| && column(g[1..][j]) == r && forall l :: 0 <= l < j ==> column(g[1..][l]).None?;
          assert column(g[j + 1]) == r;
          assert forall l :: 0 <= l < j + 1 ==> column(g[l]).None? by {
            forall l | 0 <= l < j + 1 ensures column(g[l]).None? {
              if l > 0 {
                assert g[l] == g[1..][l - 1];
              }
            }
          }
        }
      }
      r
  }

  // The columns `first()` reduces, as functions of a record.
  function DateCell(x: Record): Option<Timestamp> { x.assignedAt }
  function FundingCell(x: Record): Option<string> { x.fundingRequest }
  function SubjectCell(x: Record): Option<string> { x.subject }
  function BlockedCell(x: Record): Option<string> { x.blocked }
  function OutcomeCell(x: Record): Option<string> { x.outcome }
  function StateCell(x: Record): Option<string> { x.state }

  /** The row `groupby('Nome ente').first().reset_index()` gives for the group
      `g` of organization `k`: each column's first non-missing value. The days
      column is never missing (`fillna(0)`), so it comes from the first row. */
  function Survivor(g: seq<Record>, k: string): (r: Record)
    requires g != []
    ensures r.ente == Some(k) && r.days == g[0].days
    ensures r.assignedAt == FirstOf(g, DateCell)
    ensures r.fundingRequest == FirstOf(g, FundingCell) && r.subject == FirstOf(g, SubjectCell)
    ensures r.blocked == FirstOf(g, BlockedCell) && r.outcome == FirstOf(g, OutcomeCell)
    ensures r.state == FirstOf(g, StateCell)
  {
    Record(Some(k), FirstOf(g, FundingCell), FirstOf(g, SubjectCell),
           FirstOf(g, DateCell), g[0].days, FirstOf(g, BlockedCell),
           FirstOf(g, OutcomeCell), FirstOf(g, StateCell))
  }

  lemma GroupNonEmpty(s: seq<Record>, k: string)
    requires k in Names(s)
    ensures GroupOf(s, k) != []
  {
    var x :| x in s && x.ente.Some? && x.ente.value == k;
    assert x in GroupOf(s, k);
  }

  /** `groupby('Nome ente').first().reset_index()` over the rows `s`. */
  function GroupFirst(s: seq<Record>): (r: seq<Record>)
    ensures |r| == |SortedNames(s)|
    ensures forall i :: 0 <= i < |r| ==>
      GroupOf(s, SortedNames(s)[i]) != [] && r[i] == Survivor(GroupOf(s, SortedNames(s)[i]), SortedNames(s)[i])
  {
    var names := SortedNames(s);
    assert forall i :: 0 <= i < |names| ==> GroupOf(s, names[i]) != [] by {
      forall i | 0 <= i < |names| ensures GroupOf(s, names[i]) != [] {
        GroupNonEmpty(s, names[i]);
      }
    }
    seq(|names|, i requires 0 <= i < |names| => Survivor(GroupOf(s, names[i]), names[i]))
  }

  /** One row per organization, in ascending name order. */
  predicate OnePerName(out: seq<Record>) {
    && (forall i :: 0 <= i < |out| ==> out[i].ente.Some?)
    && (forall i, j :: 0 <= i < j < |out| ==> Less(out[i].ente.value, out[j].ente.value))
  }

  /** Every organization with a partial row is represented, and no other. */
  ghost predicate Covers(partial: seq<Record>, out: seq<Record>) {
    forall k :: k in Names(partial) <==> exists i :: 0 <= i < |out| && out[i].ente == Some(k)
  }

  /** Each organization's row carries a date no earlier than any valid date
      among its partial rows (NaT only when it has none). */
  predicate LatestDates(partial: seq<Record>, out: seq<Record>) {
    forall i, x :: 0 <= i < |out| && x in partial && x.ente == out[i].ente && x.assignedAt.Some? ==>
      out[i].assignedAt.Some? && ToMinutes(out[i].assignedAt.value) >= ToMinutes(x.assignedAt.value)
  }

  /** Each organization's date is the date of one of its partial rows. */
  ghost predicate DatesFromInput(partial: seq<Record>, out: seq<Record>) {
    forall i :: 0 <= i < |out| && out[i].assignedAt.Some? ==>
      exists x :: x in partial && x.ente == out[i].ente && x.assignedAt == out[i].assignedAt
  }

  /** What deduplication promises of its output `out` for the partial rows:
      one row per organization, in ascending name order; every organization
      represented; no more rows than went in (the count of removed rows is
      never negative); and each organization's row carries the latest valid
      assignment date among its partial rows. */
  ghost predicate IsDedupOf(partial: seq<Record>, out: seq<Record>) {
    && |out| <= |partial|
    && OnePerName(out)
    && Covers(partial, out)
    && LatestDates(partial, out)
    && DatesFromInput(partial, out)
  }

  /** Each surviving row is its organization's rows, in the order of the
      sorted arrangement `t`, reduced column by column: every cell is the
      first non-missing value of its column, and the days are the first
      row's (the days column is never missing). */
  ghost predicate FirstCells(t: seq<Record>, out: seq<Record>) {
    forall i :: 0 <= i < |out| ==>
      && out[i].ente.Some?
      && var g := GroupOf(t, out[i].ente.value);
      && g != []
      && out[i].days == g[0].days
      && IsFirstValue(g, DateCell, out[i].assignedAt)
      && IsFirstValue(g, FundingCell, out[i].fundingRequest)
      && IsFirstValue(g, SubjectCell, out[i].subject)
      && IsFirstValue(g, BlockedCell, out[i].blocked)
      && IsFirstValue(g, OutcomeCell, out[i].outcome)
      && IsFirstValue(g, StateCell, out[i].state)
  }

  lemma GroupFirstCells(t: seq<Record>)
    ensures FirstCells(t, GroupFirst(t))
  {
    GroupFirstNames(t);
  }

  /** In a group sorted by date, the first non-missing date is the first row's
      own date: NaT can only be first if every date of the group is NaT. */
  lemma {:induction false} SortedGroupDate(g: seq<Record>)
    requires g != [] && SortedByDate(g)
    ensures FirstOf(g, DateCell) == g[0].assignedAt
  {
    if g[0].assignedAt.None? {
      forall x | x in g ensures x.assignedAt.None? {
        var j :| 0 <= j < |g| && g[j] == x;
        if j > 0 {
          assert DateGe(g[0], g[j]);
        }
      }
    }
  }

  lemma SameElements(t: seq<Record>, partial: seq<Record>)
    requires multiset(t) == multiset(partial)
    ensures forall x :: x in t <==> x in partial
    ensures Names(t) == Names(partial)
    ensures |t| == |partial|
  {
    forall x ensures x in t <==> x in partial {
      assert x in t <==> x in multiset(t);
      assert x in partial <==> x in multiset(partial);
    }
    assert |multiset(t)| == |multiset(partial)|;
  }

  /** Each organization's row has the latest date of the organization's rows. */
  lemma {:induction false} SurvivorLatest(t: seq<Record>, k: string, x: Record)
    requires SortedByDate(t) && GroupOf(t, k) != []
    requires x in t && x.ente == Some(k) && x.assignedAt.Some?
    ensures var o := Survivor(GroupOf(t, k), k);
      o.assignedAt.Some? && ToMinutes(o.assignedAt.value) >= ToMinutes(x.assignedAt.value)
  {
    var g := GroupOf(t, k);
    SortedGroupDate(g);
    var j :| 0 <= j < |g| && g[j] == x;
    if j > 0 {
      assert DateGe(g[0], g[j]);
    }
  }

  lemma GroupFirstNames(t: seq<Record>)
    ensures forall i :: 0 <= i < |GroupFirst(t)| ==> GroupFirst(t)[i].ente == Some(SortedNames(t)[i])
    ensures OnePerName(GroupFirst(t))
  {
  }

  lemma CoversByNames(partial: seq<Record>, out: seq<Record>, names: seq<string>)
    requires |out| == |names| && forall i :: 0 <= i < |out| ==> out[i].ente == Some(names[i])
    requires forall k :: k in names <==> k in Names(partial)
    ensures Covers(partial, out)
  {
    forall k | k in Names(partial) ensures exists i :: 0 <= i < |out| && out[i].ente == Some(k) {
      var i :| 0 <= i < |names| && names[i] == k;
      assert out[i].ente == Some(k);
    }
    forall k | exists i :: 0 <= i < |out| && out[i].ente == Some(k) ensures k in Names(partial) {
      var i :| 0 <= i < |out| && out[i].ente == Some(k);
      assert names[i] in names;
    }
  }

  lemma GroupFirstCovers(partial: seq<Record>, t: seq<Record>)
    requires Names(t) == Names(partial)
    ensures Covers(partial, GroupFirst(t))
  {
    GroupFirstNames(t);
    CoversByNames(partial, GroupFirst(t), SortedNames(t));
  }

  lemma GroupFirstLatest(partial: seq<Record>, t: seq<Record>)
    requires SortedByDate(t)
    requires forall x :: x in t <==> x in partial
    ensures LatestDates(partial, GroupFirst(t))
  {
    var out := GroupFirst(t);
    var names := SortedNames(t);
    GroupFirstNames(t);
    forall i, x | 0 <= i < |out| && x in partial && x.ente == out[i].ente && x.assignedAt.Some?
      ensures out[i].assignedAt.Some? && ToMinutes(out[i].assignedAt.value) >= ToMinutes(x.assignedAt.value)
    {
      SurvivorLatest(t, names[i], x);
    }
  }

  lemma GroupFirstDates(partial: seq<Record>, t: seq<Record>)
    requires forall x :: x in t <==> x in partial
    ensures DatesFromInput(partial, GroupFirst(t))
  {
    var out := GroupFirst(t);
    var names := SortedNames(t);
    GroupFirstNames(t);
    forall i | 0 <= i < |out| && out[i].assignedAt.Some?
      ensures exists x :: x in partial && x.ente == out[i].ente && x.assignedAt == out[i].assignedAt
    {
      var x :| x in GroupOf(t, names[i]) && DateCell(x) == out[i].assignedAt;
      assert x in t;
    }
  }

  /** Whatever order the unstable sort leaves rows with equal dates in, the
      grouping of any date-sorted arrangement `t` of the partial rows meets
      the deduplication contract. */
  lemma DedupOfSortedArrangement(partial: seq<Record>, t: seq<Record>)
    requires SortedByDate(t) && multiset(t) == multiset(partial)
    ensures IsDedupOf(partial, GroupFirst(t))
  {
    SameElements(t, partial);
    GroupFirstNames(t);
    GroupFirstCovers(partial, t);
    GroupFirstLatest(partial, t);
    GroupFirstDates(partial, t);
  }

  /** `filter_partial_assessments` after the outcome filter: nothing to do on
      no rows, otherwise sort by date and group by organization. */
  function Deduplicate(partial: seq<Record>): (r: seq<Record>)
    ensures IsDedupOf(partial, r)
    ensures FirstCells(SortByDate(partial), r)
    ensures |r| <= |partial|
    ensures partial == [] ==> r == []
  {
    if |partial| == 0 then partial
    else
      DedupOfSortedArrangement(partial, SortByDate(partial));
      GroupFirstCells(SortByDate(partial));
      GroupFirst(SortByDate(partial))
  }

  // ---------------------------------------------------------------------
  // The log of removed duplicates

  /** The ValueError `NaT.strftime` raises. */
  datatype DedupError = DuplicateWithoutDate

  /** The log of removed duplicates (lines 322-336) formats, for every
      organization with more than one partial row, `ente_dates.iloc[0]`: its
      dates sorted latest first, NaT last. That first date is NaT here. */
  predicate LatestIsNaT(partial: seq<Record>, k: string) {
    var dates := SortByDate(GroupOf(partial, k));
    |dates| > 1 && dates[0].assignedAt.None?
  }

  /** The log is written only when rows were removed, and then raises at the
      first organization whose latest date is NaT. */
  predicate LogRaises(partial: seq<Record>, unique: seq<Record>) {
    |partial| - |unique| > 0 && exists k :: k in Names(partial) && LatestIsNaT(partial, k)
  }

  /** Organization `k` has two or more partial rows and not one of them is dated. */
  ghost predicate UndatedDuplicate(partial: seq<Record>, k: string) {
    |GroupOf(partial, k)| >= 2 && forall x :: x in GroupOf(partial, k) ==> x.assignedAt.None?
  }

  /** Some organization has two or more partial rows, none of them dated. */
  ghost predicate HasUndatedDuplicate(partial: seq<Record>) {
    exists k :: UndatedDuplicate(partial, k)
  }

  /** Sorted latest first with NaT last, the first date is NaT exactly when
      every date is. */
  lemma LatestIsNaTExactly(partial: seq<Record>, k: string)
    ensures LatestIsNaT(partial, k) <==> UndatedDuplicate(partial, k)
  {
    var g := GroupOf(partial, k);
    var dates := SortByDate(g);
    assert |dates| == |g| by {
      assert |multiset(dates)| == |multiset(g)|;
    }
    forall x ensures x in dates <==> x in g {
      assert x in dates <==> x in multiset(dates);
    }
    if LatestIsNaT(partial, k) {
      forall x | x in g ensures x.assignedAt.None? {
        var j :| 0 <= j < |dates| && dates[j] == x;
        if j > 0 {
          assert DateGe(dates[0], dates[j]);
        }
      }
    }
    if UndatedDuplicate(partial, k) {
      assert dates[0] in g;
    }
  }

  /** A group counts its organization's rows: its multiset holds each row of
      that organization as often as `s` does, and no other. */
  lemma {:induction false} GroupMultiset(s: seq<Record>, k: string)
    ensures forall x :: multiset(GroupOf(s, k))[x] == if x.ente == Some(k) then multiset(s)[x] else 0
  {
    if s != [] {
      GroupMultiset(s[1..], k);
      assert s == [s[0]] + s[1..];
    }
  }

  /** Rearranging the rows keeps the size of every group. */
  lemma GroupSize(s: seq<Record>, t: seq<Record>, k: string)
    requires multiset(s) == multiset(t)
    ensures |GroupOf(s, k)| == |GroupOf(t, k)|
  {
    GroupMultiset(s, k);
    GroupMultiset(t, k);
    assert multiset(GroupOf(s, k)) == multiset(GroupOf(t, k));
    assert |multiset(GroupOf(s, k))| == |multiset(GroupOf(t, k))|;
  }

  /** An organization with `m` rows leaves at most `|s| - m + 1` names. */
  lemma {:induction false} NamesBound(s: seq<Record>, k: string)
    requires GroupOf(s, k) != []
    ensures |SortedNames(s)| + |GroupOf(s, k)| <= |s| + 1
  {
    var rest := SortedNames(s[1..]);
    assert s == [s[0]] + s[1..];
    if GroupOf(s[1..], k) != [] {
      NamesBound(s[1..], k);
      if s[0].ente == Some(k) {
        assert GroupOf(s[1..], k)[0] in GroupOf(s[1..], k);
        assert k in Names(s[1..]);
      }
    }
  }

  /** An organization with two or more partial rows means rows were removed. */
  lemma DuplicateRemovesRows(partial: seq<Record>, k: string)
    requires |GroupOf(partial, k)| >= 2
    ensures |Deduplicate(partial)| < |partial|
  {
    var t := SortByDate(partial);
    GroupSize(partial, t, k);
    NamesBound(t, k);
    assert |multiset(t)| == |multiset(partial)|;
  }

  /** An organization with two or more partial rows, none dated, makes the
      log raise. */
  lemma UndatedRaises(partial: seq<Record>, k: string)
    requires UndatedDuplicate(partial, k)
    ensures LogRaises(partial, Deduplicate(partial))
  {
    LatestIsNaTExactly(partial, k);
    DuplicateRemovesRows(partial, k);
    assert GroupOf(partial, k)[0] in GroupOf(partial, k);
    assert k in Names(partial);
  }

  /** The log raises exactly when some organization has two or more partial
      rows and none of them is dated. */
  lemma LogRaisesExactly(partial: seq<Record>)
    ensures LogRaises(partial, Deduplicate(partial)) <==> HasUndatedDuplicate(partial)
  {
    if exists k :: UndatedDuplicate(partial, k) {
      var k :| UndatedDuplicate(partial, k);
      UndatedRaises(partial, k);
    }
    if LogRaises(partial, Deduplicate(partial)) {
      var k :| k in Names(partial) && LatestIsNaT(partial, k);
      LatestIsNaTExactly(partial, k);
    }
  }

  /** `filter_partial_assessments`: the partial rows, deduplicated, unless the
      log of removed duplicates raises. It raises exactly when some
      organization has two or more partial rows and none of them is dated. */
  function FilterAndDeduplicate(rows: seq<Record>): (r: Result<seq<Record>, DedupError>)
    ensures r.Failure? <==> HasUndatedDuplicate(FilterPartial(rows))
    ensures r.Success? ==> IsDedupOf(FilterPartial(rows), r.value)
    ensures r.Success? ==> FirstCells(SortByDate(FilterPartial(rows)), r.value)
    ensures r.Success? ==> |r.value| <= |FilterPartial(rows)| <= |rows|
    ensures FilterPartial(rows) == [] ==> r == Success([])
  {
    var partial := FilterPartial(rows);
    var unique := Deduplicate(partial);
    LogRaisesExactly(partial);
    if LogRaises(partial, unique) then Failure(DuplicateWithoutDate) else Success(unique)
  }

  /** Every surviving row's elapsed days still belong to its own date: the
      days column and the date column are both taken from the group's first
      row once the group is sorted. */
  lemma DedupKeepsDays(partial: seq<Record>, t: seq<Record>, now: int)
    requires SortedByDate(t) && multiset(t) == multiset(partial)
    requires forall x :: x in partial ==> DaysFrom(x, now)
    ensures forall o :: o in GroupFirst(t) ==> DaysFrom(o, now)
  {
    var out := GroupFirst(t);
    var names := SortedNames(t);
    SameElements(t, partial);
    forall i | 0 <= i < |out| ensures DaysFrom(out[i], now) {
      var g := GroupOf(t, names[i]);
      SortedGroupDate(g);
      assert g[0] in g;
    }
  }

  /** Deduplication keeps every surviving row's days tied to its date. */
  lemma DeduplicateKeepsDays(partial: seq<Record>, now: int)
    requires forall x :: x in partial ==> DaysFrom(x, now)
    ensures forall o :: o in Deduplicate(partial) ==> DaysFrom(o, now)
  {
    if |partial| > 0 {
      DedupKeepsDays(partial, SortByDate(partial), now);
    }
  }

  /** When the group's first row has every column filled in, the surviving
      row is that whole row. */
  lemma SurvivorIsFirstRow(g: seq<Record>, k: string)
    requires g != [] && g[0].ente == Some(k)
    requires g[0].fundingRequest.Some? && g[0].subject.Some? && g[0].assignedAt.Some?
    requires g[0].blocked.Some? && g[0].outcome.Some? && g[0].state.Some?
    ensures Survivor(g, k) == g[0]
  {
  }
}
