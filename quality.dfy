/** The validators of quality.py. Each one inspects a table (or a numeric
    series) and passes or fails with a report; none of them returns a table,
    so none can change its input. */
module Quality {
  import opened Frames

  /** The listed names the table lacks, in listing order, repeats kept. */
  function Absent(t: Table, cols: seq<string>): (missing: seq<string>)
  {
    Filter(cols, c => c !in t.cols)
  }

  /** `require_columns`: fails exactly when a listed column is absent, and
      then reports every absent listed name, in the order they were listed. */
  function RequireColumns(t: Table, cols: seq<string>): (r: Outcome<Failure>)
    ensures r.Fail? <==> exists c :: c in cols && c !in t.cols
    ensures r.Fail? ==> r.error.MissingColumns?
    ensures r.Fail? ==> forall c :: c in r.error.names <==> c in cols && c !in t.cols
  {
    var missing := Absent(t, cols);
    if missing == [] then Pass
    else
      assert missing[0] in missing;
      Fail(MissingColumns(missing))
  }

  /** The report lists names in the order the caller listed them: checking
      `a + b` reports what `a` reports followed by what `b` reports. */
  lemma RequireColumnsInListingOrder(t: Table, a: seq<string>, b: seq<string>)
    ensures RequireColumns(t, a + b).Fail? <==> RequireColumns(t, a).Fail? || RequireColumns(t, b).Fail?
    ensures Absent(t, a + b) == Absent(t, a) + Absent(t, b)
  {
    FilterAppend(a, b, c => c !in t.cols);
  }

  /** `assert_non_empty`: fails exactly when the table has no rows; `name`
      only labels the report. */
  function AssertNonEmpty(t: Table, name: string): (r: Outcome<Failure>)
    ensures r.Fail? <==> t.rows == 0
    ensures r.Fail? ==> r.error == EmptyTable(name)
  {
    if t.rows > 0 then Pass else Fail(EmptyTable(name))
  }

  /** How often `v` occurs in `s`. */
  function Occurrences<T(==)>(s: seq<T>, v: T): nat {
    if s == [] then 0 else (if s[0] == v then 1 else 0) + Occurrences(s[1..], v)
  }

  lemma {:induction false} OccurrencesAtLeastTwo<T>(s: seq<T>, v: T)
    ensures Occurrences(s, v) >= 2 <==> exists i, j :: 0 <= i < j < |s| && s[i] == v && s[j] == v
  {
    if s != [] {
      OccurrencesAtLeastTwo(s[1..], v);
      OccurrencesAtLeastOne(s[1..], v);
      if Occurrences(s, v) >= 2 {
        if s[0] == v {
          var k :| 0 <= k < |s[1..]| && s[1..][k] == v;
          assert s[0] == v && s[k + 1] == v;
        } else {
          var i, j :| 0 <= i < j < |s[1..]| && s[1..][i] == v && s[1..][j] == v;
          assert s[i + 1] == v && s[j + 1] == v;
        }
      }
      if exists i, j :: 0 <= i < j < |s| && s[i] == v && s[j] == v {
        var i, j :| 0 <= i < j < |s| && s[i] == v && s[j] == v;
        if i == 0 {
          assert s[1..][j - 1] == v;
        } else {
          assert s[1..][i - 1] == v && s[1..][j - 1] == v;
        }
      }
    }
  }

  lemma {:induction false} OccurrencesAtLeastOne<T>(s: seq<T>, v: T)
    ensures Occurrences(s, v) >= 1 <==> exists k :: 0 <= k < |s| && s[k] == v
  {
    if s != [] {
      OccurrencesAtLeastOne(s[1..], v);
      if exists k :: 0 <= k < |s| && s[k] == v {
        var k :| 0 <= k < |s| && s[k] == v;
        if k > 0 {
          assert s[1..][k - 1] == v;
        }
      }
    }
  }

  /** Rows of `part` holding a non-null value that occurs at least twice in `whole`. */
  function DuplicateRowsOf(part: Column, whole: Column): nat {
    if part == [] then 0
    else (if part[0].Some? && Occurrences(whole, part[0]) >= 2 then 1 else 0)
         + DuplicateRowsOf(part[1..], whole)
  }

  /** `(s.duplicated(keep=False) & s.notna()).sum()`: every row of a repeated
      non-null value counts, so `[a, a, b]` reports 2. */
  function DuplicateRows(col: Column): nat {
    DuplicateRowsOf(col, col)
  }

  lemma {:induction false} DuplicateRowsOfPositive(part: Column, whole: Column)
    ensures DuplicateRowsOf(part, whole) > 0
        <==> exists k :: 0 <= k < |part| && part[k].Some? && Occurrences(whole, part[k]) >= 2
  {
    if part != [] {
      DuplicateRowsOfPositive(part[1..], whole);
      if exists k :: 0 <= k < |part| && part[k].Some? && Occurrences(whole, part[k]) >= 2 {
        var k :| 0 <= k < |part| && part[k].Some? && Occurrences(whole, part[k]) >= 2;
        if k > 0 {
          assert part[1..][k - 1] == part[k];
        }
      }
    }
  }

  /** Some row is counted exactly when a non-null value repeats. */
  lemma DuplicateRowsPositive(col: Column)
    ensures DuplicateRows(col) > 0
        <==> exists i, j :: 0 <= i < j < |col| && col[i].Some? && col[i] == col[j]
  {
    DuplicateRowsOfPositive(col, col);
    if DuplicateRows(col) > 0 {
      var k :| 0 <= k < |col| && col[k].Some? && Occurrences(col, col[k]) >= 2;
      OccurrencesAtLeastTwo(col, col[k]);
    }
    if exists i, j :: 0 <= i < j < |col| && col[i].Some? && col[i] == col[j] {
      var i, j :| 0 <= i < j < |col| && col[i].Some? && col[i] == col[j];
      OccurrencesAtLeastTwo(col, col[i]);
    }
  }

  lemma DuplicateRowsExample(a: Value, b: Value)
    requires a != b
    ensures DuplicateRows([Some(a), Some(a), Some(b)]) == 2
    ensures DuplicateRows([None, None, Some(b)]) == 0
  {
    var s := [Some(a), Some(a), Some(b)];
    assert s[1..] == [Some(a), Some(b)] && s[1..][1..] == [Some(b)] && s[1..][1..][1..] == [];
    assert Occurrences(s[1..][1..], Some(a)) == 0;
    assert Occurrences(s, Some(a)) == 2;
    assert Occurrences(s[1..][1..], Some(b)) == 1;
    assert Occurrences(s, Some(b)) == 1;
    assert DuplicateRowsOf(s[1..][1..], s) == 0;
    assert DuplicateRowsOf(s[1..], s) == 1;
    assert DuplicateRowsOf(s, s) == 2;
    var n := [None, None, Some(b)];
    assert n[1..] == [None, Some(b)] && n[1..][1..] == [Some(b)] && n[1..][1..][1..] == [];
    assert Occurrences(n[1..][1..], Some(b)) == 1;
    assert Occurrences(n, Some(b)) == 1;
    assert DuplicateRowsOf(n[1..][1..], n) == 0;
    assert DuplicateRowsOf(n[1..], n) == 0;
    assert DuplicateRowsOf(n, n) == 0;
  }

  /** The rows holding a non-null value that some other row also holds:
      the rows `duplicated(keep=False) & notna()` marks. */
  ghost function RepeatedRows(col: Column): set<int> {
    set i | 0 <= i < |col| && col[i].Some? && exists j :: 0 <= j < |col| && j != i && col[j] == col[i]
  }

  /** The rows from `k` on whose non-null value occurs twice in the column. */
  ghost function RepeatedFrom(col: Column, k: nat): set<int> {
    set i | k <= i < |col| && col[i].Some? && Occurrences(col, col[i]) >= 2
  }

  lemma {:induction false} DuplicateRowsOfSuffix(col: Column, k: nat)
    requires k <= |col|
    ensures DuplicateRowsOf(col[k..], col) == |RepeatedFrom(col, k)|
    decreases |col| - k
  {
    var s := RepeatedFrom(col, k);
    if k == |col| {
      assert s == {};
    } else {
      DuplicateRowsOfSuffix(col, k + 1);
      assert col[k..][0] == col[k] && col[k..][1..] == col[k + 1..];
      var s1 := RepeatedFrom(col, k + 1);
      if col[k].Some? && Occurrences(col, col[k]) >= 2 {
        assert k !in s1;
        assert s == s1 + {k};
      } else {
        assert s == s1;
      }
    }
  }

  /** A value occurs twice exactly when some other row holds it too. */
  lemma RepeatedAt(col: Column, i: nat)
    requires i < |col|
    ensures Occurrences(col, col[i]) >= 2 <==> exists j :: 0 <= j < |col| && j != i && col[j] == col[i]
  {
    var v := col[i];
    OccurrencesAtLeastTwo(col, v);
    if exists j :: 0 <= j < |col| && j != i && col[j] == v {
      var j :| 0 <= j < |col| && j != i && col[j] == v;
      if j < i {
        assert 0 <= j < i < |col| && col[j] == v && col[i] == v;
      } else {
        assert 0 <= i < j < |col| && col[i] == v && col[j] == v;
      }
    }
    if Occurrences(col, v) >= 2 {
      var a, b :| 0 <= a < b < |col| && col[a] == v && col[b] == v;
      if a != i {
        assert 0 <= a < |col| && a != i && col[a] == v;
      } else {
        assert 0 <= b < |col| && b != i && col[b] == v;
      }
    }
  }

  /** The duplicate-row count is the number of rows whose non-null value
      some other row repeats. */
  lemma DuplicateRowsCountsRepeatedRows(col: Column)
    ensures DuplicateRows(col) == |RepeatedRows(col)|
  {
    DuplicateRowsOfSuffix(col, 0);
    assert col[0..] == col;
    var s := RepeatedFrom(col, 0);
    var r := RepeatedRows(col);
    forall i
      ensures i in s <==> i in r
    {
      if 0 <= i < |col| {
        RepeatedAt(col, i);
      }
    }
    assert s == r;
  }

  /** `assert_unique_key`: a missing key column raises; with `allowNa` false
      any null fails first; then any repeated non-null value fails, reporting
      the number of rows involved. */
  function AssertUniqueKey(t: Table, key: string, allowNa: bool): (r: Outcome<Failure>)
    ensures key !in t.cols ==> r == Fail(ColumnNotFound(key))
    ensures key in t.cols && !allowNa && NullCount(t.cols[key]) > 0 ==> r == Fail(KeyHasNulls(key))
    ensures key in t.cols && r.Fail? && r.error.DuplicateKeyRows? ==>
      r.error.rows > 0 && r.error.rows == |RepeatedRows(t.cols[key])|
    ensures r.Pass? <==>
      key in t.cols && (allowNa || NullCount(t.cols[key]) == 0)
      && forall i, j :: 0 <= i < j < |t.cols[key]| && t.cols[key][i].Some? ==> t.cols[key][i] != t.cols[key][j]
  {
    if key !in t.cols then Fail(ColumnNotFound(key))
    else
      var col := t.cols[key];
      if !allowNa && NullCount(col) > 0 then Fail(KeyHasNulls(key))
      else
        var dup := DuplicateRows(col);
        DuplicateRowsPositive(col);
        DuplicateRowsCountsRepeatedRows(col);
        if dup > 0 then Fail(DuplicateKeyRows(key, dup)) else Pass
  }

  /** With nulls allowed, any number of nulls pass: only non-null repeats fail. */
  lemma NullsAreNotDuplicates(t: Table, key: string)
    requires key in t.cols
    requires forall i :: 0 <= i < |t.cols[key]| ==> t.cols[key][i].None?
    ensures AssertUniqueKey(t, key, true) == Pass
    ensures t.rows > 0 ==> AssertUniqueKey(t, key, false) == Fail(KeyHasNulls(key))
  {
  }

  /** `assert_in_range`: nulls are dropped; with a lower bound, a value below it
      fails (checked first); with an upper bound, a value above it fails. */
  function AssertInRange(s: seq<Option<real>>, lo: Option<real>, hi: Option<real>, name: string): (r: Outcome<Failure>)
    ensures r.Fail? <==>
      exists i :: 0 <= i < |s| && s[i].Some? &&
        ((lo.Some? && s[i].value < lo.value) || (hi.Some? && s[i].value > hi.value))
    ensures r.Fail? && r.error.AboveRange? ==> forall i :: 0 <= i < |s| && s[i].Some? && lo.Some? ==> s[i].value >= lo.value
    ensures lo.Some? && (exists i :: 0 <= i < |s| && s[i].Some? && s[i].value < lo.value) ==> r == Fail(BelowRange(name, lo.value))
  {
    var x := Present(s);
    assert forall v :: v in x <==> exists i :: 0 <= i < |s| && s[i] == Some(v);
    if lo.Some? && exists v :: v in x && v < lo.value then Fail(BelowRange(name, lo.value))
    else if hi.Some? && exists v :: v in x && v > hi.value then Fail(AboveRange(name, hi.value))
    else Pass
  }

  /** With neither bound supplied nothing can fail. */
  lemma UnboundedRangeAlwaysPasses(s: seq<Option<real>>, name: string)
    ensures AssertInRange(s, None, None, name) == Pass
  {
  }
}
