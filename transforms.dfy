/** The frame-level transforms of transforms.py (copied unchanged into
    etl.py): schema coercion, text clean-up, value mapping, null flags, the
    missingness report, timestamp parsing and calendar parts, and the outlier
    flag column. */
module Transforms {
  import opened Frames
  import opened Numeric
  import opened TextNorm
  import opened Quantiles
  import opened Sorting

  /** The calendar parts pandas derives from one timestamp. */
  datatype TimeParts = TimeParts(day: int, year: int, month: string, weekday: string, hour: int)

  /** What the transforms take from the libraries they call, whose workings
      are not modelled: the text pandas renders for a float, timestamp or
      date; `pd.to_datetime(..., errors="coerce", utc=True)` on one cell (None
      when it cannot parse); and the calendar of a UTC timestamp. */
  datatype Library = Library(
    render: Value -> string,
    parseTime: Value -> Option<int>,
    timeParts: int -> TimeParts)

  /** `astype("string")` of one cell. */
  function AsString(lib: Library, v: Value): string {
    match v
    case Text(s) => s
    case Int(i) => IntText(i)
    case Flag(b) => if b then "True" else "False"
    case _ => lib.render(v)
  }

  /** `astype("string")` of a column: nulls stay null, text stays as it is,
      every other value becomes its text. */
  function StringColumn(lib: Library, col: Column): (r: Column)
    ensures |r| == |col|
    ensures forall i :: 0 <= i < |col| ==> (r[i].None? <==> col[i].None?)
    ensures forall i :: 0 <= i < |col| && col[i].Some? ==> r[i].value.Text?
    ensures forall i :: 0 <= i < |col| && col[i].Some? && col[i].value.Text? ==> r[i] == col[i]
  {
    seq(|col|, i requires 0 <= i < |col| => if col[i].None? then None else Some(Text(AsString(lib, col[i].value))))
  }

  /** `pd.to_numeric(..., errors="coerce")` of one cell: text is read as a
      decimal, numbers and booleans are numbers, anything else is not. */
  function ToNumber(v: Value): Option<real> {
    match v
    case Text(s) => ParseDecimal(s)
    case Num(r) => Some(r)
    case Int(i) => Some(i as real)
    case Flag(b) => Some(if b then 1.0 else 0.0)
    case _ => None
  }

  predicate IsIntegral(x: real) {
    x.Floor as real == x
  }

  /** The `amount` coercion, `to_numeric(errors="coerce").astype("Float64")`:
      a cell that is not a number becomes null, any other one its number. */
  function NumberColumn(col: Column): (r: Column)
    ensures |r| == |col|
    ensures forall i :: 0 <= i < |col| ==>
      (r[i].None? <==> col[i].None? || ToNumber(col[i].value).None?)
    ensures forall i :: 0 <= i < |col| && r[i].Some? ==> r[i] == Some(Num(ToNumber(col[i].value).value))
  {
    seq(|col|, i requires 0 <= i < |col| =>
      if col[i].None? || ToNumber(col[i].value).None? then None else Some(Num(ToNumber(col[i].value).value)))
  }

  /** A cell whose number has a fraction, which `astype("Int64")` refuses. */
  predicate Fractional(c: Cell) {
    c.Some? && ToNumber(c.value).Some? && !IsIntegral(ToNumber(c.value).value)
  }

  /** The `quantity` coercion, `to_numeric(errors="coerce").astype("Int64")`:
      as for `amount`, but a number with a fraction makes the cast raise. */
  function IntegerColumn(col: Column): (r: Result<Column, Failure>)
    ensures r.Err? <==> exists i :: 0 <= i < |col| && Fractional(col[i])
    ensures r.Ok? ==> |r.value| == |col|
    ensures r.Ok? ==> forall i :: 0 <= i < |col| ==>
      (r.value[i].None? <==> col[i].None? || ToNumber(col[i].value).None?)
    ensures r.Ok? ==> forall i :: 0 <= i < |col| && r.value[i].Some? ==>
      r.value[i].value.Int? && r.value[i].value.i as real == ToNumber(col[i].value).value
  {
    if exists i :: 0 <= i < |col| && Fractional(col[i]) then Err(NonIntegralQuantity)
    else
      Ok(seq(|col|, i requires 0 <= i < |col| =>
        if col[i].None? || ToNumber(col[i].value).None? then None else Some(Int(ToNumber(col[i].value).value.Floor))))
  }

  /** The columns `enforce_schema` coerces, in the order it reads them. */
  const SchemaColumns: seq<string> := ["order_id", "user_id", "amount", "quantity"]

  /** `enforce_schema`: ids become text, `amount` a nullable number and
      `quantity` a nullable integer, where anything unparseable becomes null.
      A missing column raises, in the order the columns are read; so does a
      quantity with a fraction. Column order, the other columns and the row
      count are unchanged. */
  function EnforceSchema(lib: Library, t: Table): (r: Result<Table, Failure>)
    ensures r.Err? <==>
      (exists c :: c in SchemaColumns && c !in t.cols) ||
      (exists i :: 0 <= i < t.rows && Fractional(t.cols["quantity"][i]))
    ensures "order_id" !in t.cols ==> r == Err(ColumnNotFound("order_id"))
    ensures r.Err? && (forall c :: c in SchemaColumns ==> c in t.cols) ==> r.error == NonIntegralQuantity
    ensures r.Ok? ==> r.value.names == t.names && r.value.rows == t.rows
    ensures r.Ok? ==> forall n :: n in t.cols && n !in SchemaColumns ==> r.value.cols[n] == t.cols[n]
    ensures r.Ok? ==> r.value.cols["order_id"] == StringColumn(lib, t.cols["order_id"])
    ensures r.Ok? ==> r.value.cols["user_id"] == StringColumn(lib, t.cols["user_id"])
    ensures r.Ok? ==> r.value.cols["amount"] == NumberColumn(t.cols["amount"])
    ensures r.Ok? ==> r.value.cols["quantity"] == IntegerColumn(t.cols["quantity"]).value
  {
    if "order_id" !in t.cols then Err(ColumnNotFound("order_id"))
    else if "user_id" !in t.cols then Err(ColumnNotFound("user_id"))
    else if "amount" !in t.cols then Err(ColumnNotFound("amount"))
    else if "quantity" !in t.cols then Err(ColumnNotFound("quantity"))
    else
      var quantity := IntegerColumn(t.cols["quantity"]);
      if quantity.Err? then Err(quantity.error)
      else
        var t1 := Assign(t, "order_id", StringColumn(lib, t.cols["order_id"]));
        var t2 := Assign(t1, "user_id", StringColumn(lib, t.cols["user_id"]));
        var t3 := Assign(t2, "amount", NumberColumn(t.cols["amount"]));
        Ok(Assign(t3, "quantity", quantity.value))
  }

  lemma StringColumnIdempotent(lib: Library, col: Column)
    ensures StringColumn(lib, StringColumn(lib, col)) == StringColumn(lib, col)
  {
  }

  lemma NumberColumnIdempotent(col: Column)
    ensures NumberColumn(NumberColumn(col)) == NumberColumn(col)
  {
  }

  lemma IntegerColumnIdempotent(col: Column)
    requires IntegerColumn(col).Ok?
    ensures IntegerColumn(IntegerColumn(col).value) == IntegerColumn(col)
  {
    var q := IntegerColumn(col).value;
    forall i | 0 <= i < |q| && q[i].Some?
      ensures ToNumber(q[i].value) == Some(q[i].value.i as real)
      ensures (q[i].value.i as real).Floor == q[i].value.i
    {
    }
    assert forall i :: 0 <= i < |q| ==> !Fractional(q[i]);
    assert IntegerColumn(q).value == q;
  }

  /** Coercing an already coerced table changes nothing. */
  lemma EnforceSchemaIdempotent(lib: Library, t: Table)
    requires EnforceSchema(lib, t).Ok?
    ensures EnforceSchema(lib, EnforceSchema(lib, t).value) == EnforceSchema(lib, t)
  {
    var u := EnforceSchema(lib, t).value;
    StringColumnIdempotent(lib, t.cols["order_id"]);
    StringColumnIdempotent(lib, t.cols["user_id"]);
    NumberColumnIdempotent(t.cols["amount"]);
    IntegerColumnIdempotent(t.cols["quantity"]);
    AssignUnchanged(u, "order_id");
    AssignUnchanged(u, "user_id");
    AssignUnchanged(u, "amount");
    AssignUnchanged(u, "quantity");
  }

  /** `normalize_text` on a column: nulls stay null, anything else is
      rendered as text and normalised. */
  function NormalizeText(lib: Library, col: Column): (r: Column)
    ensures |r| == |col|
    ensures forall i :: 0 <= i < |col| ==> (r[i].None? <==> col[i].None?)
    ensures forall i :: 0 <= i < |col| && col[i].Some? ==> r[i].value.Text?
  {
    seq(|col|, i requires 0 <= i < |col| =>
      if col[i].None? then None else Some(Text(Normalize(AsString(lib, col[i].value)))))
  }

  /** Every text `normalize_text` produces is normalised and keeps the words
      of the input, and a second pass changes nothing. */
  lemma NormalizeTextProperties(lib: Library, col: Column)
    ensures forall i :: 0 <= i < |col| && col[i].Some? ==>
      Normalized(NormalizeText(lib, col)[i].value.s) &&
      Words(NormalizeText(lib, col)[i].value.s) == Fold(Words(AsString(lib, col[i].value)))
    ensures NormalizeText(lib, NormalizeText(lib, col)) == NormalizeText(lib, col)
  {
    var r := NormalizeText(lib, col);
    forall i | 0 <= i < |col| && col[i].Some?
      ensures Normalized(r[i].value.s)
      ensures Words(r[i].value.s) == Fold(Words(AsString(lib, col[i].value)))
      ensures Normalize(r[i].value.s) == r[i].value.s
    {
      NormalizeIsNormalized(AsString(lib, col[i].value));
      NormalizeKeepsWords(AsString(lib, col[i].value));
      NormalizeIdempotent(AsString(lib, col[i].value));
    }
  }

  /** `apply_mapping`: a non-null value that is a key of `m` is replaced by
      its image; any other cell, null included, is left alone. */
  function ApplyMapping(col: Column, m: map<Value, Value>): (r: Column)
    ensures |r| == |col|
    ensures forall i :: 0 <= i < |col| && col[i].Some? && col[i].value in m ==> r[i] == Some(m[col[i].value])
    ensures forall i :: 0 <= i < |col| && !(col[i].Some? && col[i].value in m) ==> r[i] == col[i]
  {
    seq(|col|, i requires 0 <= i < |col| =>
      if col[i].Some? && col[i].value in m then Some(m[col[i].value]) else col[i])
  }

  /** A mapping that sends every key to a value it leaves alone. */
  predicate Settled(m: map<Value, Value>) {
    forall k :: k in m && m[k] in m ==> m[m[k]] == m[k]
  }

  /** Mapping twice with a settled mapping is mapping once. */
  lemma ApplyMappingIdempotent(col: Column, m: map<Value, Value>)
    requires Settled(m)
    ensures ApplyMapping(ApplyMapping(col, m), m) == ApplyMapping(col, m)
  {
  }

  /** The column `add_missing_flags` adds for `c`. */
  function FlagName(c: string): string {
    c + "__isna"
  }

  lemma FlagNameInjective(a: string, b: string)
    ensures FlagName(a) == FlagName(b) ==> a == b
  {
    if FlagName(a) == FlagName(b) {
      assert a == FlagName(a)[..|a|];
    }
  }

  /** `isna()`: a non-null boolean per cell, true exactly at the nulls. */
  function IsNa(col: Column): (r: Column)
    ensures |r| == |col|
    ensures forall i :: 0 <= i < |col| ==> r[i] == Some(Flag(col[i].None?))
  {
    seq(|col|, i requires 0 <= i < |col| => Some(Flag(col[i].None?)))
  }

  /** `add_missing_flags` as a fold over `cols`: each step reads the current
      table, so a flag added earlier is visible to a later name. A name the
      table lacks raises. */
  function MissingFlags(t: Table, cols: seq<string>): Result<Table, Failure>
    decreases |cols|
  {
    if cols == [] then Ok(t)
    else if cols[0] !in t.cols then Err(ColumnNotFound(cols[0]))
    else MissingFlags(Assign(t, FlagName(cols[0]), IsNa(t.cols[cols[0]])), cols[1..])
  }

  /** `add_missing_flags`: copy the table, then assign one flag column per
      listed name, in order. */
  method AddMissingFlags(t: Table, cols: seq<string>) returns (r: Result<Table, Failure>)
    ensures r == MissingFlags(t, cols)
  {
    var out := t;
    var i := 0;
    while i < |cols|
      invariant 0 <= i <= |cols|
      invariant MissingFlags(out, cols[i..]) == MissingFlags(t, cols)
    {
      var c := cols[i];
      assert cols[i..][1..] == cols[i + 1..];
      if c !in out.cols {
        return Err(ColumnNotFound(c));
      }
      out := Assign(out, FlagName(c), IsNa(out.cols[c]));
      i := i + 1;
    }
    return Ok(out);
  }

  function FlagNames(cols: seq<string>): (r: seq<string>)
    ensures |r| == |cols|
    ensures forall i :: 0 <= i < |cols| ==> r[i] == FlagName(cols[i])
  {
    seq(|cols|, i requires 0 <= i < |cols| => FlagName(cols[i]))
  }

  /** Adding a flag for `c` leaves every listed name's column where it was,
      when no listed name is a flag. */
  lemma FlagStepKeepsListed(t: Table, cols: seq<string>)
    requires cols != [] && cols[0] in t.cols
    requires forall c :: c in cols ==> FlagName(c) !in cols
    ensures forall x :: x in cols[1..] ==> x in cols
    ensures forall x :: x in cols[1..] ==>
      (x in Assign(t, FlagName(cols[0]), IsNa(t.cols[cols[0]])).cols <==> x in t.cols)
    ensures forall x :: x in cols[1..] && x in t.cols ==>
      Assign(t, FlagName(cols[0]), IsNa(t.cols[cols[0]])).cols[x] == t.cols[x]
  {
    assert forall x :: x in cols[1..] ==> x in cols;
    assert forall x :: x in cols[1..] ==> x != FlagName(cols[0]);
  }

  /** The flags are added exactly when every listed column exists, and then
      the row count stays and the old column order is a prefix of the new. */
  lemma {:induction false} MissingFlagsShape(t: Table, cols: seq<string>)
    requires forall c :: c in cols ==> FlagName(c) !in cols
    ensures MissingFlags(t, cols).Ok? <==> forall c :: c in cols ==> c in t.cols
    ensures MissingFlags(t, cols).Ok? ==> MissingFlags(t, cols).value.rows == t.rows
    ensures MissingFlags(t, cols).Ok? ==>
      |t.names| <= |MissingFlags(t, cols).value.names| &&
      MissingFlags(t, cols).value.names[..|t.names|] == t.names
    decreases |cols|
  {
    if cols != [] && cols[0] in t.cols {
      var u := Assign(t, FlagName(cols[0]), IsNa(t.cols[cols[0]]));
      FlagStepKeepsListed(t, cols);
      MissingFlagsShape(u, cols[1..]);
      assert forall x :: x in cols <==> x == cols[0] || x in cols[1..];
      if MissingFlags(u, cols[1..]).Ok? {
        var r := MissingFlags(u, cols[1..]).value;
        assert r.names[..|t.names|] == u.names[..|t.names|];
      }
    }
  }

  lemma FlagNamesSplit(cols: seq<string>)
    requires cols != []
    ensures forall n :: n in FlagNames(cols) <==> n == FlagName(cols[0]) || n in FlagNames(cols[1..])
  {
    forall n
      ensures n in FlagNames(cols) <==> n == FlagName(cols[0]) || n in FlagNames(cols[1..])
    {
      if n in FlagNames(cols[1..]) {
        var k :| 0 <= k < |cols[1..]| && FlagNames(cols[1..])[k] == n;
        assert FlagNames(cols)[k + 1] == n;
      }
      if n in FlagNames(cols) {
        var k :| 0 <= k < |cols| && FlagNames(cols)[k] == n;
        if k > 0 {
          assert FlagNames(cols[1..])[k - 1] == n;
        }
      }
    }
  }

  lemma FlagNamesMember(c: string, cols: seq<string>)
    ensures FlagName(c) in FlagNames(cols) <==> c in cols
  {
    if FlagName(c) in FlagNames(cols) {
      var k :| 0 <= k < |cols| && FlagNames(cols)[k] == FlagName(c);
      FlagNameInjective(cols[k], c);
    }
    if c in cols {
      var k :| 0 <= k < |cols| && cols[k] == c;
      assert FlagNames(cols)[k] == FlagName(c);
    }
  }

  /** Only flag columns are added, and every column that is not the flag of
      a listed name keeps its contents. */
  lemma {:induction false} MissingFlagsKeepsOthers(t: Table, cols: seq<string>)
    requires MissingFlags(t, cols).Ok?
    ensures forall n :: n in MissingFlags(t, cols).value.cols <==> n in t.cols || n in FlagNames(cols)
    ensures forall n :: n in t.cols && n !in FlagNames(cols) ==> MissingFlags(t, cols).value.cols[n] == t.cols[n]
    decreases |cols|
  {
    if cols != [] {
      var u := Assign(t, FlagName(cols[0]), IsNa(t.cols[cols[0]]));
      MissingFlagsKeepsOthers(u, cols[1..]);
      FlagNamesSplit(cols);
    }
  }

  /** Each flag marks exactly the nulls its column held on entry, when no
      listed name is a flag. */
  lemma {:induction false} MissingFlagsMarkNulls(t: Table, cols: seq<string>)
    requires forall c :: c in cols ==> FlagName(c) !in cols
    requires MissingFlags(t, cols).Ok?
    ensures forall c :: c in cols ==>
      c in t.cols && FlagName(c) in MissingFlags(t, cols).value.cols &&
      MissingFlags(t, cols).value.cols[FlagName(c)] == IsNa(t.cols[c])
    decreases |cols|
  {
    if cols != [] {
      var c0 := cols[0];
      var u := Assign(t, FlagName(c0), IsNa(t.cols[c0]));
      FlagStepKeepsListed(t, cols);
      MissingFlagsMarkNulls(u, cols[1..]);
      MissingFlagsKeepsOthers(u, cols[1..]);
      FlagNamesMember(c0, cols[1..]);
      assert forall x :: x in cols <==> x == c0 || x in cols[1..];
    }
  }

  /** One row of `missingness_report`. The share is None (NaN) for a table
      without rows. */
  datatype ReportRow = ReportRow(column: string, nMissing: nat, pMissing: Option<real>)

  function Share(k: nat, n: nat): Option<real> {
    if n == 0 then None else Some(k as real / n as real)
  }

  /** The report before sorting: one row per column, in column order. */
  function ReportRows(t: Table): (r: seq<ReportRow>)
    ensures |r| == |t.names|
    ensures forall i :: 0 <= i < |r| ==> r[i].column == t.names[i]
  {
    seq(|t.names|, i requires 0 <= i < |t.names| =>
      ReportRow(t.names[i], NullCount(t.cols[t.names[i]]), Share(NullCount(t.cols[t.names[i]]), t.rows)))
  }

  /** Sort key for `sort_values("p_missing", ascending=False)`. */
  function Descending(row: ReportRow): real {
    if row.pMissing.Some? then -row.pMissing.value else 0.0
  }

  /** `missingness_report`: the per-column rows sorted by share of nulls,
      largest first. */
  function MissingnessReport(t: Table): (r: seq<ReportRow>)
    ensures |r| == |t.names|
    ensures multiset(r) == multiset(ReportRows(t))
    ensures forall i, j :: 0 <= i <= j < |r| && r[i].pMissing.Some? && r[j].pMissing.Some? ==>
      r[i].pMissing.value >= r[j].pMissing.value
  {
    var r := SortBy(ReportRows(t), Descending);
    assert forall i, j :: 0 <= i <= j < |r| ==> Descending(r[i]) <= Descending(r[j]);
    r
  }

  lemma ReportRowsSame(t: Table)
    ensures forall row :: row in MissingnessReport(t) <==> row in ReportRows(t)
  {
    var r := MissingnessReport(t);
    var u := ReportRows(t);
    forall row
      ensures row in r <==> row in u
    {
      assert row in r <==> row in multiset(r);
      assert row in u <==> row in multiset(u);
    }
  }

  /** Every row holds a column of the table, its null count and that
      count's share of the rows. */
  lemma MissingnessReportCounts(t: Table)
    ensures forall row :: row in MissingnessReport(t) ==>
      row.column in t.cols && row.nMissing == NullCount(t.cols[row.column]) &&
      row.pMissing == Share(row.nMissing, t.rows)
  {
    ReportRowsSame(t);
  }

  /** Every column of the table has a row. */
  lemma MissingnessReportCovers(t: Table)
    ensures forall n :: n in t.cols ==> exists i :: 0 <= i < |MissingnessReport(t)| && MissingnessReport(t)[i].column == n
  {
    var r := MissingnessReport(t);
    var u := ReportRows(t);
    ReportRowsSame(t);
    forall n | n in t.cols
      ensures exists i :: 0 <= i < |r| && r[i].column == n
    {
      var k :| 0 <= k < |t.names| && t.names[k] == n;
      assert u[k] in r;
    }
  }

  /** No column has two rows. */
  lemma MissingnessReportDistinct(t: Table)
    ensures forall i, j :: 0 <= i < j < |MissingnessReport(t)| ==>
      MissingnessReport(t)[i].column != MissingnessReport(t)[j].column
  {
    var r := MissingnessReport(t);
    var u := ReportRows(t);
    ReportRowsSame(t);
    forall i, j | 0 <= i < j < |r|
      ensures r[i].column != r[j].column
    {
      if r[i].column == r[j].column {
        assert r[i] in r && r[j] in r;
        assert r[i] in u && r[j] in u;
        var a :| 0 <= a < |u| && u[a] == r[i];
        var b :| 0 <= b < |u| && u[b] == r[j];
        assert u[a].column == t.names[a] && u[b].column == t.names[b];
        assert a == b;
        assert r[i] == r[j];
        MultisetTwice(r, i, j);
        MultisetOnce(u, a);
      }
    }
  }

  /** In a sequence of rows for distinct columns each row occurs once. */
  lemma MultisetOnce(u: seq<ReportRow>, a: nat)
    requires a < |u| && forall i, j :: 0 <= i < j < |u| ==> u[i].column != u[j].column
    ensures multiset(u)[u[a]] == 1
  {
    assert u == u[..a] + [u[a]] + u[a + 1..];
    assert u[a] !in u[..a] && u[a] !in u[a + 1..];
  }

  /** An element at two positions occurs twice. */
  lemma MultisetTwice<T>(s: seq<T>, i: nat, j: nat)
    requires i < j < |s| && s[i] == s[j]
    ensures multiset(s)[s[i]] >= 2
  {
    assert s == s[..i] + [s[i]] + s[i + 1..j] + [s[j]] + s[j + 1..];
  }

  lemma FractionBounds(k: real, n: real)
    requires 0.0 <= k <= n && n > 0.0
    ensures 0.0 <= k / n <= 1.0
    ensures k / n == 0.0 <==> k == 0.0
    ensures k / n == 1.0 <==> k == n
  {
    var q := k / n;
    assert q * n == k;
  }

  /** The share of nulls is a fraction, zero exactly without nulls and one
      exactly when every cell is null. */
  lemma ShareBounds<T>(col: seq<Option<T>>)
    requires |col| > 0
    ensures 0.0 <= Share(NullCount(col), |col|).value <= 1.0
    ensures Share(NullCount(col), |col|).value == 0.0 <==> forall i :: 0 <= i < |col| ==> col[i].Some?
    ensures Share(NullCount(col), |col|).value == 1.0 <==> forall i :: 0 <= i < |col| ==> col[i].None?
  {
    FractionBounds(NullCount(col) as real, |col| as real);
  }

  /** `pd.to_datetime(..., errors="coerce", utc=True)` on a column: nulls and
      unparseable cells become null, every other cell a timestamp. */
  function ParseTimes(lib: Library, col: Column): (r: Column)
    ensures |r| == |col|
    ensures forall i :: 0 <= i < |col| ==> (r[i].None? <==> col[i].None? || lib.parseTime(col[i].value).None?)
    ensures forall i :: 0 <= i < |col| && r[i].Some? ==> r[i] == Some(Stamp(lib.parseTime(col[i].value).value))
  {
    seq(|col|, i requires 0 <= i < |col| =>
      if col[i].None? || lib.parseTime(col[i].value).None? then None else Some(Stamp(lib.parseTime(col[i].value).value)))
  }

  /** `parse_datetime(df, col)`: the column is replaced in place by its
      parsed timestamps; a missing column raises. */
  function ParseDatetime(lib: Library, t: Table, col: string): (r: Result<Table, Failure>)
    ensures r.Err? <==> col !in t.cols
    ensures r.Err? ==> r.error == ColumnNotFound(col)
    ensures r.Ok? ==> r.value.names == t.names && r.value.rows == t.rows
    ensures r.Ok? ==> r.value.cols == t.cols[col := ParseTimes(lib, t.cols[col])]
  {
    if col !in t.cols then Err(ColumnNotFound(col)) else Ok(Assign(t, col, ParseTimes(lib, t.cols[col])))
  }

  /** When the parser reads a timestamp as itself, parsing twice is parsing
      once. */
  lemma ParseDatetimeIdempotent(lib: Library, t: Table, col: string)
    requires forall ns :: lib.parseTime(Stamp(ns)) == Some(ns)
    requires ParseDatetime(lib, t, col).Ok?
    ensures ParseDatetime(lib, ParseDatetime(lib, t, col).value, col) == ParseDatetime(lib, t, col)
  {
    var u := ParseDatetime(lib, t, col).value;
    var c := u.cols[col];
    assert ParseTimes(lib, c) == c;
    assert u.cols[col := c] == u.cols;
  }

  /** The columns `add_time_parts` adds, in the order it adds them. */
  const TimePartNames: seq<string> := ["date", "year", "month", "dow", "hour"]

  /** One calendar part: the date, the year, the "YYYY-MM" month, the day's
      name or the hour. */
  function PartOf(p: TimeParts, name: string): Value {
    if name == "date" then Day(p.day)
    else if name == "year" then Int(p.year)
    else if name == "month" then Text(p.month)
    else if name == "dow" then Text(p.weekday)
    else Int(p.hour)
  }

  /** One derived column: null where the timestamp is null. */
  function PartColumn(lib: Library, ts: Column, name: string): (r: Column)
    ensures |r| == |ts|
    ensures forall i :: 0 <= i < |ts| ==> (r[i].None? <==> !(ts[i].Some? && ts[i].value.Stamp?))
    ensures forall i :: 0 <= i < |ts| && ts[i].Some? && ts[i].value.Stamp? ==>
      r[i] == Some(PartOf(lib.timeParts(ts[i].value.ns), name))
  {
    seq(|ts|, i requires 0 <= i < |ts| =>
      if ts[i].Some? && ts[i].value.Stamp? then Some(PartOf(lib.timeParts(ts[i].value.ns), name)) else None)
  }

  /** Assigns the listed parts of `ts`, in order. */
  function AssignParts(lib: Library, t: Table, ts: Column, names: seq<string>): (r: Table)
    requires |ts| == t.rows
    ensures r.rows == t.rows
    ensures forall n :: n in names ==> n in r.cols && r.cols[n] == PartColumn(lib, ts, n)
    ensures forall n :: n in r.cols <==> n in t.cols || n in names
    ensures forall n :: n in t.cols && n !in names ==> r.cols[n] == t.cols[n]
    ensures |t.names| <= |r.names| && r.names[..|t.names|] == t.names
    decreases |names|
  {
    if names == [] then t
    else
      var u := Assign(t, names[0], PartColumn(lib, ts, names[0]));
      var r := AssignParts(lib, u, ts, names[1..]);
      assert forall n :: n in names <==> n == names[0] || n in names[1..];
      assert r.names[..|t.names|] == u.names[..|t.names|];
      r
  }

  /** `add_time_parts(df, ts_col)`: the `.dt` accessor raises on a missing
      column or on a value that is not a timestamp; otherwise the five parts
      are computed from the original column and assigned in order. */
  function AddTimeParts(lib: Library, t: Table, col: string): (r: Result<Table, Failure>)
    ensures r.Err? <==> col !in t.cols || exists i :: 0 <= i < t.rows && t.cols[col][i].Some? && !t.cols[col][i].value.Stamp?
    ensures r.Ok? ==> r.value.rows == t.rows
    ensures r.Ok? ==> forall n :: n in TimePartNames ==> n in r.value.cols && r.value.cols[n] == PartColumn(lib, t.cols[col], n)
    ensures r.Ok? ==> forall n :: n in r.value.cols <==> n in t.cols || n in TimePartNames
    ensures r.Ok? ==> forall n :: n in t.cols && n !in TimePartNames ==> r.value.cols[n] == t.cols[n]
    ensures r.Ok? ==> |t.names| <= |r.value.names| && r.value.names[..|t.names|] == t.names
  {
    if col !in t.cols then Err(ColumnNotFound(col))
    else
      var ts := t.cols[col];
      if exists i :: 0 <= i < t.rows && ts[i].Some? && !ts[i].value.Stamp? then Err(NotDatetime(col))
      else Ok(AssignParts(lib, t, ts, TimePartNames))
  }

  /** The numbers of a numeric column, as `quantile` and comparisons need
      them; a value of any other kind raises. */
  function AsNumbers(col: Column, name: string): (r: Result<seq<Option<real>>, Failure>)
    ensures r.Err? <==> exists i :: 0 <= i < |col| && col[i].Some? && !(col[i].value.Num? || col[i].value.Int?)
    ensures r.Err? ==> r.error == NotNumeric(name)
    ensures r.Ok? ==> |r.value| == |col|
    ensures r.Ok? ==> forall i :: 0 <= i < |col| ==>
      (r.value[i].None? <==> col[i].None?) &&
      (col[i].Some? ==> Some(r.value[i].value) == ToNumber(col[i].value))
  {
    if exists i :: 0 <= i < |col| && col[i].Some? && !(col[i].value.Num? || col[i].value.Int?) then Err(NotNumeric(name))
    else Ok(seq(|col|, i requires 0 <= i < |col| => if col[i].None? then None else ToNumber(col[i].value)))
  }

  /** The column `add_outlier_flag` adds for `col`. */
  function OutlierName(col: string): string {
    col + "__is_outlier"
  }

  /** Flag cells from nullable booleans. */
  function FlagColumn(b: seq<Option<bool>>): (r: Column)
    ensures |r| == |b|
    ensures forall i :: 0 <= i < |b| ==> r[i] == if b[i].None? then None else Some(Flag(b[i].value))
  {
    seq(|b|, i requires 0 <= i < |b| => if b[i].None? then None else Some(Flag(b[i].value)))
  }

  /** `add_outlier_flag(df, col, k)`: a missing or non-numeric column
      raises; otherwise the outlier flags of the column are assigned to
      `col__is_outlier`. */
  function AddOutlierFlag(t: Table, col: string, k: real): (r: Result<Table, Failure>)
    ensures col !in t.cols ==> r == Err(ColumnNotFound(col))
    ensures r.Ok? <==> col in t.cols && AsNumbers(t.cols[col], col).Ok?
    ensures r.Ok? ==> r.value.rows == t.rows
    ensures r.Ok? ==> r.value.cols == t.cols[OutlierName(col) := FlagColumn(OutlierFlags(AsNumbers(t.cols[col], col).value, k))]
  {
    if col !in t.cols then Err(ColumnNotFound(col))
    else
      var x := AsNumbers(t.cols[col], col);
      if x.Err? then Err(x.error)
      else Ok(Assign(t, OutlierName(col), FlagColumn(OutlierFlags(x.value, k))))
  }

  /** A non-null value is flagged true exactly when it lies outside the IQR
      bounds of the column; a null gets a null flag; the column itself and
      the row count are unchanged. */
  lemma AddOutlierFlagMeaning(t: Table, col: string, k: real, i: nat)
    requires AddOutlierFlag(t, col, k).Ok? && i < t.rows && OutlierName(col) != col
    ensures AddOutlierFlag(t, col, k).value.cols[col] == t.cols[col]
    ensures AddOutlierFlag(t, col, k).value.cols[OutlierName(col)][i].None? <==> t.cols[col][i].None?
    ensures t.cols[col][i].Some? ==>
      var x := AsNumbers(t.cols[col], col).value;
      IqrBounds(x, k).Some? &&
      (AddOutlierFlag(t, col, k).value.cols[OutlierName(col)][i] == Some(Flag(true)) <==>
       x[i].value < IqrBounds(x, k).value.0 || x[i].value > IqrBounds(x, k).value.1)
  {
    var x := AsNumbers(t.cols[col], col).value;
    OutlierFlagMeaning(x, k, i);
  }
}
