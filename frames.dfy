/** Tables as the pipeline sees them: an ordered set of named, equal-length
    columns of nullable cells, together with the failures the pipeline raises. */
module Frames {

  datatype Option<+T> = None | Some(value: T)

  datatype Result<+T, +E> = Ok(value: T) | Err(error: E)

  /** The outcome of a validator: it passes, or it fails with a report. */
  datatype Outcome<+E> = Pass | Fail(error: E)

  /** One non-null cell. Each constructor stands for one column dtype of the
      source: string, Float64, Int64, boolean, datetime64[ns, UTC] and date. */
  datatype Value =
    | Text(s: string)
    | Num(r: real)
    | Int(i: int)
    | Flag(b: bool)
    | Stamp(ns: int)   // nanoseconds since the Unix epoch, UTC
    | Day(days: int)   // calendar date, days since the Unix epoch

  /** A cell is a value or null (NA, NaN, NaT). */
  type Cell = Option<Value>

  type Column = seq<Cell>

  /** Everything a step of the pipeline can raise. */
  datatype Failure =
    | MissingColumns(names: seq<string>)
    | EmptyTable(table: string)
    | KeyHasNulls(key: string)
    | DuplicateKeyRows(key: string, rows: nat)
    | DuplicateKeyValues(key: string)
    | BelowRange(name: string, lo: real)
    | AboveRange(name: string, hi: real)
    | ColumnNotFound(name: string)
    | NonIntegralQuantity
    | NotNumeric(name: string)
    | NotDatetime(name: string)
    | QuantileOutOfRange(q: real)
    | JoinNotManyToOne(key: string)
    | ClashingColumns

  predicate DistinctNames(names: seq<string>) {
    forall i, j :: 0 <= i < j < |names| ==> names[i] != names[j]
  }

  /** A data frame: column order, column contents and the row count. */
  datatype Frame = Frame(names: seq<string>, cols: map<string, Column>, rows: nat) {
    ghost predicate Valid() {
      && DistinctNames(names)
      && (forall n :: n in names <==> n in cols)
      && (forall n :: n in cols ==> |cols[n]| == rows)
    }
  }

  /** Frames with duplicate column labels are outside the model. */
  type Table = f: Frame | f.Valid() witness Frame([], map[], 0)

  /** The elements of `s` that satisfy `p`, in their original order. */
  function Filter<T(!new)>(s: seq<T>, p: T -> bool): (r: seq<T>)
    ensures |r| <= |s|
    ensures forall x :: x in r <==> x in s && p(x)
  {
    if s == [] then [] else (if p(s[0]) then [s[0]] else []) + Filter(s[1..], p)
  }

  /** Filtering distributes over concatenation, so it keeps the order of `s`. */
  lemma {:induction false} FilterAppend<T(!new)>(a: seq<T>, b: seq<T>, p: T -> bool)
    ensures Filter(a + b, p) == Filter(a, p) + Filter(b, p)
  {
    if a != [] {
      assert (a + b)[1..] == a[1..] + b;
      FilterAppend(a[1..], b, p);
    } else {
      assert a + b == b;
    }
  }

  lemma {:induction false} FilterDistinct(s: seq<string>, p: string -> bool)
    requires DistinctNames(s)
    ensures DistinctNames(Filter(s, p))
  {
    if s != [] {
      FilterDistinct(s[1..], p);
    }
  }

  /** `df[name] = col` or `df.assign(name=col)`: an existing column is replaced
      where it stands, a new one is appended at the end. */
  function Assign(t: Table, name: string, col: Column): (r: Table)
    requires |col| == t.rows
    ensures r.rows == t.rows && r.cols == t.cols[name := col]
    ensures r.names == if name in t.cols then t.names else t.names + [name]
  {
    Frame(if name in t.cols then t.names else t.names + [name], t.cols[name := col], t.rows)
  }

  /** Assigning a column its own contents changes nothing. */
  lemma AssignUnchanged(t: Table, name: string)
    requires name in t.cols
    ensures Assign(t, name, t.cols[name]) == t
  {
    assert t.cols[name := t.cols[name]] == t.cols;
  }

  /** The names of `names` not in `drop`, in their original order. */
  function Kept(names: seq<string>, drop: seq<string>): (r: seq<string>)
    ensures forall n :: n in r <==> n in names && n !in drop
  {
    Filter(names, n => n !in drop)
  }

  /** Two tests that agree on every element of `s` keep the same ones. */
  lemma {:induction false} FilterAgree<T(!new)>(s: seq<T>, p: T -> bool, q: T -> bool)
    requires forall x :: x in s ==> p(x) == q(x)
    ensures Filter(s, p) == Filter(s, q)
  {
    if s != [] {
      assert forall x :: x in s[1..] ==> x in s;
      FilterAgree(s[1..], p, q);
    }
  }

  /** `df.drop(columns=drop, errors="ignore")`. */
  function Drop(t: Table, drop: seq<string>): (r: Table)
    ensures r.rows == t.rows
    ensures r.names == Kept(t.names, drop)
    ensures forall n :: n in r.cols <==> n in t.cols && n !in drop
    ensures forall n :: n in r.cols ==> r.cols[n] == t.cols[n]
  {
    FilterDistinct(t.names, n => n !in drop);
    Frame(Kept(t.names, drop), map n | n in t.cols && n !in drop :: t.cols[n], t.rows)
  }

  /** A table from its column names and their contents, in order. */
  function FromColumns(names: seq<string>, cols: seq<Column>, rows: nat): (t: Table)
    requires DistinctNames(names) && |cols| == |names|
    requires forall i :: 0 <= i < |cols| ==> |cols[i]| == rows
    ensures t.names == names && t.rows == rows
    ensures forall i :: 0 <= i < |names| ==> t.cols[names[i]] == cols[i]
  {
    Frame(names, map i | 0 <= i < |names| :: names[i] := cols[i], rows)
  }

  /** `s.isna().sum()`. */
  function NullCount<T>(s: seq<Option<T>>): (k: nat)
    ensures k <= |s|
    ensures k == 0 <==> forall i :: 0 <= i < |s| ==> s[i].Some?
    ensures k == |s| <==> forall i :: 0 <= i < |s| ==> s[i].None?
  {
    if s == [] then 0
    else
      assert forall i :: 1 <= i < |s| ==> s[i] == s[1..][i - 1];
      (if s[0].None? then 1 else 0) + NullCount(s[1..])
  }

  /** `s.dropna()`: the non-null values, in order. */
  function Present<T(!new)>(s: seq<Option<T>>): (x: seq<T>)
    ensures |x| == |s| - NullCount(s)
    ensures forall v :: v in x <==> Some(v) in s
  {
    if s == [] then []
    else (if s[0].Some? then [s[0].value] else []) + Present(s[1..])
  }
}
