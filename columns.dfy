/** The tolerant column matching of `load_csv_data`: header names are
    stripped, every required column is looked for among the actual ones by a
    normalized, substring-tolerant comparison, the matches are renamed, and a
    required column still absent afterwards is an error. */
module Columns {
  import opened Wrappers
  import opened Text

  /** `required_columns`, in the order the matching loop visits them. */
  const REQUIRED: seq<string> := [
    "Nome ente", "Funding Request Name", "Oggetto",
    "Data ultima assegnazione", "L'asseverazione \U{E8} bloccata?",
    "Ultimo esito asseverazione tecnica", "Stato progetto"
  ]

  /** The characters the comparison drops: space, apostrophe and question mark. */
  predicate Ignored(c: char) {
    c == ' ' || c == '\'' || c == '?'
  }

  /** `.replace(' ', '').replace('\'', '').replace('?', '')`. */
  function RemoveIgnored(s: string): (r: string)
    ensures |r| <= |s|
  {
    if s == [] then []
    else if Ignored(s[0]) then RemoveIgnored(s[1..])
    else [s[0]] + RemoveIgnored(s[1..])
  }

  /** Removal keeps exactly the characters that are not ignored. */
  lemma {:induction false} RemoveIgnoredChars(s: string)
    ensures forall k :: 0 <= k < |RemoveIgnored(s)| ==> !Ignored(RemoveIgnored(s)[k])
    ensures forall c :: c in RemoveIgnored(s) <==> c in s && !Ignored(c)
  {
    if s != [] {
      RemoveIgnoredChars(s[1..]);
      assert forall c :: c in s <==> c == s[0] || c in s[1..];
    }
  }

  /** A string without ignored characters is left as it is. */
  lemma {:induction false} RemoveIgnoredKeeps(s: string)
    requires forall k :: 0 <= k < |s| ==> !Ignored(s[k])
    ensures RemoveIgnored(s) == s
  {
    if s != [] {
      assert !Ignored(s[0]);
      RemoveIgnoredKeeps(s[1..]);
    }
  }

  /** Removal decides each character on its own: a single character is
      dropped exactly when it is ignored. */
  lemma RemoveIgnoredSingle(c: char)
    ensures RemoveIgnored([c]) == if Ignored(c) then [] else [c]
  {
    assert [c][1..] == [];
  }

  /** Removal works piecewise, so the kept characters stay in their order
      and keep their number of occurrences. */
  lemma {:induction false} RemoveIgnoredAppend(a: string, b: string)
    ensures RemoveIgnored(a + b) == RemoveIgnored(a) + RemoveIgnored(b)
  {
    if a == [] {
      assert a + b == b;
    } else {
      assert (a + b)[0] == a[0];
      assert (a + b)[1..] == a[1..] + b;
      RemoveIgnoredAppend(a[1..], b);
    }
  }

  /** The cleaned form of a name (`req_clean`, `actual_clean`): lower-cased,
      with every ignored character removed. */
  function Normalize(name: string): (r: string)
    ensures |r| <= |name|
  {
    RemoveIgnored(Lower(name))
  }

  /** A single character is cleaned by lower-casing it and dropping it when
      the lower-cased form is ignored. */
  lemma NormalizeSingle(c: char)
    ensures Normalize([c]) == if Ignored(LowerChar(c)) then [] else [LowerChar(c)]
  {
    assert Lower([c]) == [LowerChar(c)];
    RemoveIgnoredSingle(LowerChar(c));
  }

  /** Cleaning works piecewise: together with `NormalizeSingle` this fixes the
      cleaned name character by character, in order and with multiplicity. */
  lemma NormalizeAppend(a: string, b: string)
    ensures Normalize(a + b) == Normalize(a) + Normalize(b)
  {
    LowerAppend(a, b);
    RemoveIgnoredAppend(Lower(a), Lower(b));
  }

  /** A cleaned name has no ignored character and is already lower-case. */
  lemma NormalizeClean(name: string)
    ensures forall k :: 0 <= k < |Normalize(name)| ==> !Ignored(Normalize(name)[k])
    ensures Lower(Normalize(name)) == Normalize(name)
  {
    var low := Lower(name);
    var r := Normalize(name);
    RemoveIgnoredChars(low);
    forall k | 0 <= k < |r| ensures LowerChar(r[k]) == r[k] {
      assert r[k] in r;
      var m :| 0 <= m < |low| && low[m] == r[k];
      LowerCharIdempotent(name[m]);
    }
  }

  /** Cleaning a cleaned name changes nothing. */
  lemma NormalizeIdempotent(name: string)
    ensures Normalize(Normalize(name)) == Normalize(name)
  {
    NormalizeClean(name);
    RemoveIgnoredKeeps(Normalize(name));
  }

  /** A required name matches an actual one when their cleaned forms are
      equal or one contains the other. */
  predicate Matches(req: string, actual: string) {
    var rc := Normalize(req);
    var ac := Normalize(actual);
    rc == ac || Contains(ac, rc) || Contains(rc, ac)
  }

  /** The index of the first actual column from index `j` on that `req`
      matches, if any. */
  function FirstMatchFrom(req: string, cols: seq<string>, j: nat): Option<nat>
    decreases |cols| - j
  {
    if j >= |cols| then None
    else if Matches(req, cols[j]) then Some(j)
    else FirstMatchFrom(req, cols, j + 1)
  }

  /** The index of the first actual column `req` matches, if any. */
  function FirstMatch(req: string, cols: seq<string>): Option<nat> {
    FirstMatchFrom(req, cols, 0)
  }

  /** The search from `j` finds the first match at or after `j`, and finds
      none exactly when no column from `j` on matches. */
  lemma {:induction false} FirstMatchFromSpec(req: string, cols: seq<string>, j: nat)
    ensures FirstMatchFrom(req, cols, j).Some? ==>
      j <= FirstMatchFrom(req, cols, j).value < |cols| && Matches(req, cols[FirstMatchFrom(req, cols, j).value])
      && forall k :: j <= k < FirstMatchFrom(req, cols, j).value ==> !Matches(req, cols[k])
    ensures FirstMatchFrom(req, cols, j).None? <==> forall k :: j <= k < |cols| ==> !Matches(req, cols[k])
    decreases |cols| - j
  {
    if j < |cols| && !Matches(req, cols[j]) {
      FirstMatchFromSpec(req, cols, j + 1);
    }
  }

  /** `FirstMatch` finds the first matching column, or none when no column matches. */
  lemma FirstMatchSpec(req: string, cols: seq<string>)
    ensures FirstMatch(req, cols).Some? ==>
      FirstMatch(req, cols).value < |cols| && Matches(req, cols[FirstMatch(req, cols).value])
      && forall k :: 0 <= k < FirstMatch(req, cols).value ==> !Matches(req, cols[k])
    ensures FirstMatch(req, cols).None? <==> forall k :: 0 <= k < |cols| ==> !Matches(req, cols[k])
  {
    FirstMatchFromSpec(req, cols, 0);
  }

  /** The actual column `req` is renamed from, if any. */
  function Target(req: string, cols: seq<string>): Option<string> {
    match FirstMatch(req, cols)
    case None => None
    case Some(j) => if j < |cols| then Some(cols[j]) else None
  }

  /** `column_mapping` after the first `n` required names: for each matched
      name, `column_mapping[actual] = req`, so a later name matched to the
      same actual column overwrites an earlier one. */
  function ColumnMapping(cols: seq<string>, reqs: seq<string>, n: nat): map<string, string>
    requires n <= |reqs|
  {
    if n == 0 then map[]
    else
      var m := ColumnMapping(cols, reqs, n - 1);
      match Target(reqs[n - 1], cols)
      case None => m
      case Some(a) => m[a := reqs[n - 1]]
  }

  /** The required names among the first `n` that match no actual column
      (each one logged as "Colonna non trovata"). */
  function Unmatched(cols: seq<string>, reqs: seq<string>, n: nat): (r: seq<string>)
    requires n <= |reqs|
    ensures forall x :: x in r ==> exists i :: 0 <= i < n && reqs[i] == x && Target(x, cols).None?
    ensures forall i :: 0 <= i < n && Target(reqs[i], cols).None? ==> reqs[i] in r
  {
    if n == 0 then []
    else
      var rest := Unmatched(cols, reqs, n - 1);
      if Target(reqs[n - 1], cols).None? then rest + [reqs[n - 1]] else rest
  }

  /** Every column of the mapping is one a required name is matched to,
      and it is renamed to such a name. */
  lemma {:induction false} MappingKeysMatched(cols: seq<string>, reqs: seq<string>, n: nat)
    requires n <= |reqs|
    ensures forall a :: a in ColumnMapping(cols, reqs, n) ==>
      exists i :: 0 <= i < n && Target(reqs[i], cols) == Some(a) && ColumnMapping(cols, reqs, n)[a] == reqs[i]
  {
    if n > 0 {
      MappingKeysMatched(cols, reqs, n - 1);
      var prev := ColumnMapping(cols, reqs, n - 1);
      var m := ColumnMapping(cols, reqs, n);
      var t := Target(reqs[n - 1], cols);
      assert m == if t.Some? then prev[t.value := reqs[n - 1]] else prev;
      forall a | a in m
        ensures exists i :: 0 <= i < n && Target(reqs[i], cols) == Some(a) && m[a] == reqs[i]
      {
        if t == Some(a) {
          assert 0 <= n - 1 < n && Target(reqs[n - 1], cols) == Some(a) && m[a] == reqs[n - 1];
        } else {
          assert a in prev && m[a] == prev[a];
          var i :| 0 <= i < n - 1 && Target(reqs[i], cols) == Some(a) && prev[a] == reqs[i];
          assert 0 <= i < n && Target(reqs[i], cols) == Some(a) && m[a] == reqs[i];
        }
      }
    }
  }

  /** Every column a required name is matched to is a key of the mapping. */
  lemma {:induction false} MatchedAreMappingKeys(cols: seq<string>, reqs: seq<string>, n: nat)
    requires n <= |reqs|
    ensures forall i :: 0 <= i < n && Target(reqs[i], cols).Some? ==>
      Target(reqs[i], cols).value in ColumnMapping(cols, reqs, n)
  {
    if n > 0 {
      MatchedAreMappingKeys(cols, reqs, n - 1);
      var prev := ColumnMapping(cols, reqs, n - 1);
      var t := Target(reqs[n - 1], cols);
      assert ColumnMapping(cols, reqs, n) == if t.Some? then prev[t.value := reqs[n - 1]] else prev;
      assert forall a :: a in prev ==> a in ColumnMapping(cols, reqs, n);
    }
  }

  /** The value of a key is the last required name matched to it: when one
      required name is matched to column `a` and no later one is, the mapping
      sends `a` to it. */
  lemma {:induction false} MappingValues(cols: seq<string>, reqs: seq<string>, n: nat, i: nat)
    requires i < n <= |reqs|
    requires Target(reqs[i], cols).Some?
    requires forall i' :: i < i' < n ==> Target(reqs[i'], cols) != Target(reqs[i], cols)
    ensures Target(reqs[i], cols).value in ColumnMapping(cols, reqs, n)
    ensures ColumnMapping(cols, reqs, n)[Target(reqs[i], cols).value] == reqs[i]
  {
    if i < n - 1 {
      MappingValues(cols, reqs, n - 1, i);
    }
  }

  /** The inner loop of `load_csv_data`: scan the actual columns in order and
      stop at the first one `req` matches. */
  method FindMatch(req: string, cols: seq<string>) returns (r: Option<nat>)
    ensures r == FirstMatch(req, cols)
  {
    var j := 0;
    while j < |cols|
      invariant 0 <= j <= |cols|
      invariant FirstMatch(req, cols) == FirstMatchFrom(req, cols, j)
    {
      if Matches(req, cols[j]) {
        return Some(j);
      }
      j := j + 1;
    }
    return None;
  }

  /** The outer loop of `load_csv_data`: for every required name, map the
      first matching actual column to it, or report the name. */
  method MatchColumns(cols: seq<string>, reqs: seq<string>) returns (mapping: map<string, string>, unmatched: seq<string>)
    ensures mapping == ColumnMapping(cols, reqs, |reqs|)
    ensures unmatched == Unmatched(cols, reqs, |reqs|)
  {
    mapping := map[];
    unmatched := [];
    var i := 0;
    while i < |reqs|
      invariant 0 <= i <= |reqs|
      invariant mapping == ColumnMapping(cols, reqs, i)
      invariant unmatched == Unmatched(cols, reqs, i)
    {
      var found := FindMatch(reqs[i], cols);
      FirstMatchSpec(reqs[i], cols);
      if found.Some? {
        mapping := mapping[cols[found.value] := reqs[i]];
      } else {
        unmatched := unmatched + [reqs[i]];
      }
      i := i + 1;
    }
  }

  /** `df.columns = [str(col).strip() for col in df.columns]`. */
  function Stripped(header: seq<string>): (r: seq<string>)
    ensures |r| == |header|
    ensures forall k :: 0 <= k < |r| ==> r[k] == Strip(header[k])
  {
    seq(|header|, k requires 0 <= k < |header| => Strip(header[k]))
  }

  /** `df.rename(columns=mapping)`: a column that is a key of the mapping
      takes its value as name, any other keeps its own. */
  function Renamed(cols: seq<string>, mapping: map<string, string>): (r: seq<string>)
    ensures |r| == |cols|
    ensures forall k :: 0 <= k < |r| ==> r[k] == if cols[k] in mapping then mapping[cols[k]] else cols[k]
  {
    seq(|cols|, k requires 0 <= k < |cols| => if cols[k] in mapping then mapping[cols[k]] else cols[k])
  }

  /** `missing_columns`: the required names absent from `cols`, in order. */
  function Missing(reqs: seq<string>, cols: seq<string>): (r: seq<string>)
    ensures |r| <= |reqs|
    ensures forall x :: x in r <==> x in reqs && x !in cols
  {
    if reqs == [] then []
    else (if reqs[0] in cols then [] else [reqs[0]]) + Missing(reqs[1..], cols)
  }

  /** The `ValueError` raised when essential columns are missing. */
  datatype ColumnError = MissingColumns(missing: seq<string>)

  /** The column names of the table `load_csv_data` returns, or its error. */
  function Resolution(header: seq<string>): (r: Result<seq<string>, ColumnError>)
  {
    var cols := Stripped(header);
    var renamed := Renamed(cols, ColumnMapping(cols, REQUIRED, |REQUIRED|));
    var missing := Missing(REQUIRED, renamed);
    if missing == [] then Success(renamed) else Failure(MissingColumns(missing))
  }

  /** The table is accepted exactly when every required name is a column
      after renaming; otherwise the error lists exactly the absent ones. The
      table keeps its number of columns. */
  lemma ResolutionOutcome(header: seq<string>)
    ensures Resolution(header).Success? <==>
      forall x :: x in REQUIRED ==> x in Renamed(Stripped(header), ColumnMapping(Stripped(header), REQUIRED, |REQUIRED|))
    ensures Resolution(header).Success? ==> |Resolution(header).value| == |header|
    ensures Resolution(header).Success? ==> forall x :: x in REQUIRED ==> x in Resolution(header).value
    ensures Resolution(header).Failure? ==> Resolution(header).error.missing != []
    ensures Resolution(header).Failure? ==> forall x :: x in Resolution(header).error.missing <==>
      x in REQUIRED && x !in Renamed(Stripped(header), ColumnMapping(Stripped(header), REQUIRED, |REQUIRED|))
  {
    var renamed := Renamed(Stripped(header), ColumnMapping(Stripped(header), REQUIRED, |REQUIRED|));
    var missing := Missing(REQUIRED, renamed);
    if missing != [] {
      assert missing[0] in missing;
    }
  }

  /** A name matches itself: a column already carrying a required name is
      always a candidate for it. */
  lemma MatchesItself(name: string)
    ensures Matches(name, name)
  {
  }

  /** The test reads the same from both sides: equal, or either cleaned name
      inside the other. */
  lemma MatchesSymmetric(a: string, b: string)
    ensures Matches(a, b) <==> Matches(b, a)
  {
  }

  /** A required name that matches no column is not a column after renaming
      either, so loading fails and reports it. */
  lemma UnmatchedIsMissing(header: seq<string>, i: nat)
    requires i < |REQUIRED|
    requires Target(REQUIRED[i], Stripped(header)).None?
    ensures Resolution(header).Failure?
    ensures REQUIRED[i] in Resolution(header).error.missing
  {
    var cols := Stripped(header);
    var m := ColumnMapping(cols, REQUIRED, |REQUIRED|);
    var renamed := Renamed(cols, m);
    var req := REQUIRED[i];
    FirstMatchSpec(req, cols);
    MappingKeysMatched(cols, REQUIRED, |REQUIRED|);
    forall k | 0 <= k < |renamed| ensures renamed[k] != req {
      if cols[k] in m {
        var i' :| 0 <= i' < |REQUIRED| && Target(REQUIRED[i'], cols) == Some(cols[k]) && m[cols[k]] == REQUIRED[i'];
        assert REQUIRED[i'] != req;
      } else {
        MatchesItself(req);
        assert cols[k] != req;
      }
    }
    assert req !in renamed;
    ResolutionOutcome(header);
  }

  /** When every required name is matched to a column and no two of them to
      the same one, every required name is a column after renaming and
      loading succeeds. */
  lemma MatchedApartIsAccepted(header: seq<string>)
    requires forall i :: 0 <= i < |REQUIRED| ==> Target(REQUIRED[i], Stripped(header)).Some?
    requires forall i, i' :: 0 <= i < i' < |REQUIRED| ==>
      Target(REQUIRED[i'], Stripped(header)) != Target(REQUIRED[i], Stripped(header))
    ensures Resolution(header).Success?
  {
    var cols := Stripped(header);
    var m := ColumnMapping(cols, REQUIRED, |REQUIRED|);
    var renamed := Renamed(cols, m);
    forall i | 0 <= i < |REQUIRED| ensures REQUIRED[i] in renamed {
      MappingValues(cols, REQUIRED, |REQUIRED|, i);
      FirstMatchSpec(REQUIRED[i], cols);
      var j := FirstMatch(REQUIRED[i], cols).value;
      assert renamed[j] == REQUIRED[i];
    }
    ResolutionOutcome(header);
  }

  /** The column block of `load_csv_data`: strip, match, rename, check. */
  method ResolveColumns(header: seq<string>) returns (r: Result<seq<string>, ColumnError>)
    ensures r == Resolution(header)
  {
    var cols := Stripped(header);
    var mapping, unmatched := MatchColumns(cols, REQUIRED);
    var renamed := cols;
    if mapping != map[] {
      renamed := Renamed(cols, mapping);
    } else {
      assert Renamed(cols, mapping) == cols;
    }
    var missing := Missing(REQUIRED, renamed);
    if missing != [] {
      return Failure(MissingColumns(missing));
    }
    return Success(renamed);
  }
}
