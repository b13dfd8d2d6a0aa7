/** The pipeline of etl.py: its own unique-key check, the left join of
    orders to users, `transform`, the `orders_clean` projection and the row
    counts of the run metadata. */
module Etl {
  import opened Frames
  import opened Quality
  import opened Transforms
  import opened Quantiles
  import opened TextNorm
  import opened Numeric

  /** `duplicated().any()`: some value occurs twice, where two nulls count
      as the same value. */
  predicate HasDuplicates(col: Column) {
    exists i, j :: 0 <= i < j < |col| && col[i] == col[j]
  }

  /** etl.py's `assert_unique_key`: a missing column raises; otherwise it
      fails exactly when some value, null included, repeats. */
  function AssertUniqueKeyEtl(t: Table, key: string): (r: Outcome<Failure>)
    ensures r.Fail? <==> key !in t.cols || HasDuplicates(t.cols[key])
    ensures key !in t.cols ==> r == Fail(ColumnNotFound(key))
    ensures key in t.cols && r.Fail? ==> r.error == DuplicateKeyValues(key)
  {
    if key !in t.cols then Fail(ColumnNotFound(key))
    else if HasDuplicates(t.cols[key]) then Fail(DuplicateKeyValues(key))
    else Pass
  }

  /** How the two unique-key checks relate: the quality check that refuses
      nulls is the stricter one, the one that allows nulls the more lenient,
      and two nulls separate the etl check from the lenient one. */
  lemma UniqueKeyChecksCompared(t: Table, key: string)
    ensures AssertUniqueKey(t, key, false).Pass? ==> AssertUniqueKeyEtl(t, key).Pass?
    ensures AssertUniqueKeyEtl(t, key).Pass? ==> AssertUniqueKey(t, key, true).Pass?
    ensures key in t.cols && NullCount(t.cols[key]) >= 2 ==> AssertUniqueKeyEtl(t, key).Fail?
  {
    if key in t.cols && NullCount(t.cols[key]) >= 2 {
      TwoNullsRepeat(t.cols[key]);
    }
  }

  lemma {:induction false} TwoNullsRepeat(col: Column)
    requires NullCount(col) >= 2
    ensures HasDuplicates(col)
  {
    var i :| 0 <= i < |col| && col[i].None?;
    if col[0].None? {
      var j :| 0 <= j < |col[1..]| && col[1..][j].None?;
      assert col[0] == col[j + 1];
    } else {
      TwoNullsRepeat(col[1..]);
      var a, b :| 0 <= a < b < |col[1..]| && col[1..][a] == col[1..][b];
      assert col[a + 1] == col[b + 1];
    }
  }

  /** The right rows whose key equals `k`, from position `j` on, in order. */
  function MatchesFrom(k: Cell, rk: Column, j: nat): (m: seq<nat>)
    requires j <= |rk|
    ensures forall x :: x in m <==> j <= x < |rk| && rk[x] == k
    ensures forall a, b :: 0 <= a < b < |m| ==> m[a] < m[b]
    decreases |rk| - j
  {
    if j == |rk| then []
    else
      var rest := MatchesFrom(k, rk, j + 1);
      if rk[j] == k then
        assert forall a :: 0 <= a < |rest| ==> rest[a] in rest;
        [j] + rest
      else rest
  }

  /** The right rows a left key matches; nulls match nulls, as in
      `pd.merge`. */
  function Matches(k: Cell, rk: Column): (m: seq<nat>)
    ensures forall x :: x in m <==> 0 <= x < |rk| && rk[x] == k
    ensures forall a, b :: 0 <= a < b < |m| ==> m[a] < m[b]
  {
    MatchesFrom(k, rk, 0)
  }

  /** A key that matches twice is a repeated right key; so with unique
      right keys no left key matches twice. */
  lemma MatchTwiceIsRepeat(k: Cell, rk: Column)
    ensures |Matches(k, rk)| >= 2 ==> HasDuplicates(rk)
  {
    var m := Matches(k, rk);
    if |m| >= 2 {
      assert m[0] in m && m[1] in m;
      assert rk[m[0]] == rk[m[1]];
    }
  }

  /** One output row: a left row, and the matching right row if any. */
  type Pair = (nat, Option<nat>)

  function PairsFor(i: nat, m: seq<nat>): (p: seq<Pair>)
    ensures |p| == if m == [] then 1 else |m|
    ensures forall q :: q in p ==> q.0 == i
    ensures m == [] ==> p == [(i, None)]
    ensures forall k :: 0 <= k < |m| ==> p[k] == (i, Some(m[k]))
  {
    if m == [] then [(i, None)] else seq(|m|, k requires 0 <= k < |m| => (i, Some(m[k])))
  }

  /** The rows of `pd.merge(how="left")`: each left row in order, paired
      with each matching right row in right order, or with none. */
  function RowPairs(lk: Column, rk: Column): (p: seq<Pair>)
    ensures |p| >= |lk|
    ensures forall q :: q in p ==> q.0 < |lk|
    ensures forall q :: q in p && q.1.Some? ==> q.1.value < |rk| && rk[q.1.value] == lk[q.0]
    ensures forall q :: q in p && q.1.None? ==> Matches(lk[q.0], rk) == []
    decreases |lk|
  {
    if lk == [] then []
    else
      var n := |lk| - 1;
      var front := lk[..n];
      assert forall i :: 0 <= i < n ==> front[i] == lk[i];
      var m := Matches(lk[n], rk);
      assert forall k :: 0 <= k < |m| ==> m[k] in m;
      RowPairs(front, rk) + PairsFor(n, m)
  }

  /** When no left key matches twice, output row `i` is left row `i`, with
      its match if it has one. */
  lemma {:induction false} RowPairsOneToOne(lk: Column, rk: Column)
    requires forall i :: 0 <= i < |lk| ==> |Matches(lk[i], rk)| <= 1
    ensures |RowPairs(lk, rk)| == |lk|
    ensures forall i :: 0 <= i < |lk| ==>
      RowPairs(lk, rk)[i] == (i, if Matches(lk[i], rk) == [] then None else Some(Matches(lk[i], rk)[0]))
    decreases |lk|
  {
    if lk != [] {
      var n := |lk| - 1;
      var front := lk[..n];
      assert forall i :: 0 <= i < n ==> front[i] == lk[i];
      RowPairsOneToOne(front, rk);
      var p, last := RowPairs(front, rk), PairsFor(n, Matches(lk[n], rk));
      assert RowPairs(lk, rk) == p + last;
      assert |last| == 1;
      assert forall i :: 0 <= i < n ==> RowPairs(lk, rk)[i] == p[i];
    }
  }

  /** A left key that matches twice adds rows. */
  lemma {:induction false} RowPairsFanOut(lk: Column, rk: Column, i: nat)
    requires i < |lk| && |Matches(lk[i], rk)| >= 2
    ensures |RowPairs(lk, rk)| > |lk|
    decreases |lk|
  {
    var n := |lk| - 1;
    var front := lk[..n];
    if i < n {
      assert front[i] == lk[i];
      RowPairsFanOut(front, rk, i);
    }
  }

  /** Overlapping column names get `_x` on the left and `_y` on the right;
      the join key is shared and keeps its name. */
  function LeftName(n: string, right: Table, key: string): string {
    if n != key && n in right.cols then n + "_x" else n
  }

  function RightName(n: string, left: Table): string {
    if n in left.cols then n + "_y" else n
  }

  function RightOnly(right: Table, key: string): (rn: seq<string>)
    ensures forall n :: n in rn <==> n in right.cols && n != key
  {
    Filter(right.names, n => n != key)
  }

  /** The columns of the join: the left ones, then the right ones other
      than the key, renamed where they overlap. */
  function JoinNames(left: Table, right: Table, key: string): seq<string> {
    var rn := RightOnly(right, key);
    seq(|left.names|, i requires 0 <= i < |left.names| => LeftName(left.names[i], right, key))
    + seq(|rn|, i requires 0 <= i < |rn| => RightName(rn[i], left))
  }

  predicate LeftRowsIn(p: seq<Pair>, rows: nat) {
    forall k :: 0 <= k < |p| ==> p[k].0 < rows
  }

  predicate RightRowsIn(p: seq<Pair>, rows: nat) {
    forall k :: 0 <= k < |p| && p[k].1.Some? ==> p[k].1.value < rows
  }

  function LeftColumn(c: Column, p: seq<Pair>): (r: Column)
    requires LeftRowsIn(p, |c|)
    ensures |r| == |p|
  {
    seq(|p|, k requires 0 <= k < |p| => c[p[k].0])
  }

  function RightColumn(c: Column, p: seq<Pair>): (r: Column)
    requires RightRowsIn(p, |c|)
    ensures |r| == |p|
  {
    seq(|p|, k requires 0 <= k < |p| => if p[k].1.Some? then c[p[k].1.value] else None)
  }

  function JoinColumns(left: Table, right: Table, key: string, p: seq<Pair>): (cols: seq<Column>)
    requires LeftRowsIn(p, left.rows) && RightRowsIn(p, right.rows)
    ensures |cols| == |JoinNames(left, right, key)|
    ensures forall i :: 0 <= i < |cols| ==> |cols[i]| == |p|
  {
    var rn := RightOnly(right, key);
    seq(|left.names|, i requires 0 <= i < |left.names| => LeftColumn(left.cols[left.names[i]], p))
    + seq(|rn|, i requires 0 <= i < |rn| => RightColumn(right.cols[rn[i]], p))
  }

  /** `safe_left_join(left, right, on=key, validate)`, i.e. `pd.merge(...,
      how="left")`: a key missing on either side raises, then (with
      many-to-one validation) a repeated right key, then renamed columns
      that still collide. */
  function SafeLeftJoin(left: Table, right: Table, key: string, validate: bool): (r: Result<Table, Failure>)
    ensures r.Err? <==>
      key !in left.cols || key !in right.cols ||
      (validate && HasDuplicates(right.cols[key])) || !DistinctNames(JoinNames(left, right, key))
    ensures key in left.cols && key in right.cols && validate && HasDuplicates(right.cols[key]) ==>
      r == Err(JoinNotManyToOne(key))
    ensures r.Err? && key in left.cols && key in right.cols ==>
      (r.error == JoinNotManyToOne(key) && validate && HasDuplicates(right.cols[key])) || r.error == ClashingColumns
    ensures r.Ok? ==> r.value.names == JoinNames(left, right, key)
    ensures r.Ok? ==> r.value.rows == |RowPairs(left.cols[key], right.cols[key])|
  {
    if key !in left.cols || key !in right.cols then Err(ColumnNotFound(key))
    else if validate && HasDuplicates(right.cols[key]) then Err(JoinNotManyToOne(key))
    else if !DistinctNames(JoinNames(left, right, key)) then Err(ClashingColumns)
    else
      var p := RowPairs(left.cols[key], right.cols[key]);
      assert LeftRowsIn(p, left.rows) && RightRowsIn(p, right.rows) by {
        assert forall k :: 0 <= k < |p| ==> p[k] in p;
      }
      Ok(FromColumns(JoinNames(left, right, key), JoinColumns(left, right, key, p), |p|))
  }

  /** A left column follows the left row of each output row. */
  lemma JoinLeftColumns(left: Table, right: Table, key: string, validate: bool)
    requires SafeLeftJoin(left, right, key, validate).Ok?
    ensures LeftRowsIn(RowPairs(left.cols[key], right.cols[key]), left.rows)
    ensures forall n :: n in left.cols ==>
      LeftName(n, right, key) in SafeLeftJoin(left, right, key, validate).value.cols &&
      SafeLeftJoin(left, right, key, validate).value.cols[LeftName(n, right, key)] ==
        LeftColumn(left.cols[n], RowPairs(left.cols[key], right.cols[key]))
  {
    var p := RowPairs(left.cols[key], right.cols[key]);
    assert forall k :: 0 <= k < |p| ==> p[k] in p;
    assert RightRowsIn(p, right.rows) by {
      assert forall k :: 0 <= k < |p| ==> p[k] in p;
    }
    var names := JoinNames(left, right, key);
    var cols := JoinColumns(left, right, key, p);
    var t := SafeLeftJoin(left, right, key, validate).value;
    assert t == FromColumns(names, cols, |p|);
    forall n | n in left.cols
      ensures LeftName(n, right, key) in t.cols && t.cols[LeftName(n, right, key)] == LeftColumn(left.cols[n], p)
    {
      var i :| 0 <= i < |left.names| && left.names[i] == n;
      assert names[i] == LeftName(n, right, key);
      assert cols[i] == LeftColumn(left.cols[n], p);
    }
  }

  /** A right column other than the key follows the matching right row,
      null where there is none. */
  lemma JoinRightColumns(left: Table, right: Table, key: string, validate: bool)
    requires SafeLeftJoin(left, right, key, validate).Ok?
    ensures RightRowsIn(RowPairs(left.cols[key], right.cols[key]), right.rows)
    ensures forall n :: n in right.cols && n != key ==>
      RightName(n, left) in SafeLeftJoin(left, right, key, validate).value.cols &&
      SafeLeftJoin(left, right, key, validate).value.cols[RightName(n, left)] ==
        RightColumn(right.cols[n], RowPairs(left.cols[key], right.cols[key]))
  {
    var p := RowPairs(left.cols[key], right.cols[key]);
    assert forall k :: 0 <= k < |p| ==> p[k] in p;
    var names := JoinNames(left, right, key);
    var cols := JoinColumns(left, right, key, p);
    var t := SafeLeftJoin(left, right, key, validate).value;
    assert t == FromColumns(names, cols, |p|);
    var rn := RightOnly(right, key);
    forall n | n in right.cols && n != key
      ensures RightName(n, left) in t.cols && t.cols[RightName(n, left)] == RightColumn(right.cols[n], p)
    {
      var i :| 0 <= i < |rn| && rn[i] == n;
      assert names[|left.names| + i] == RightName(n, left);
      assert cols[|left.names| + i] == RightColumn(right.cols[n], p);
    }
  }

  /** The cell of column `c` in the first right row whose key is `k`, or
      null when no right key is `k`. */
  function Lookup(c: Column, rk: Column, k: Cell): (r: Cell)
    requires |c| == |rk|
    ensures (forall j :: 0 <= j < |rk| ==> rk[j] != k) ==> r == None
    ensures forall j :: 0 <= j < |rk| && rk[j] == k && (forall a :: 0 <= a < j ==> rk[a] != k) ==> r == c[j]
  {
    var m := Matches(k, rk);
    if m == [] then None
    else
      assert m[0] in m;
      assert forall j :: 0 <= j < |rk| && rk[j] == k ==> j in m;
      assert forall j :: j in m ==> m[0] <= j by {
        forall j | j in m ensures m[0] <= j {
          var b :| 0 <= b < |m| && m[b] == j;
        }
      }
      c[m[0]]
  }

  /** With many-to-one validation passing, the join has one row per left
      row, in left order: every left column keeps its values, and every
      right column holds the value of the one matching user, or null when
      no right key equals the left key. */
  lemma JoinManyToOne(left: Table, right: Table, key: string, i: nat)
    requires SafeLeftJoin(left, right, key, true).Ok? && i < left.rows
    ensures SafeLeftJoin(left, right, key, true).value.rows == left.rows
    ensures |Matches(left.cols[key][i], right.cols[key])| <= 1
    ensures forall n :: n in left.cols ==>
      LeftName(n, right, key) in SafeLeftJoin(left, right, key, true).value.cols &&
      SafeLeftJoin(left, right, key, true).value.cols[LeftName(n, right, key)][i] == left.cols[n][i]
    ensures forall n :: n in right.cols && n != key ==>
      RightName(n, left) in SafeLeftJoin(left, right, key, true).value.cols &&
      SafeLeftJoin(left, right, key, true).value.cols[RightName(n, left)][i] ==
        Lookup(right.cols[n], right.cols[key], left.cols[key][i])
  {
    var lk, rk := left.cols[key], right.cols[key];
    forall a | 0 <= a < |lk|
      ensures |Matches(lk[a], rk)| <= 1
    {
      MatchTwiceIsRepeat(lk[a], rk);
    }
    RowPairsOneToOne(lk, rk);
    var p := RowPairs(lk, rk);
    var m := Matches(lk[i], rk);
    assert p[i] == (i, if m == [] then None else Some(m[0]));
    JoinLeftColumns(left, right, key, true);
    JoinRightColumns(left, right, key, true);
    forall n | n in left.cols
      ensures LeftColumn(left.cols[n], p)[i] == left.cols[n][i]
    {
    }
    forall n | n in right.cols && n != key
      ensures RightColumn(right.cols[n], p)[i] == Lookup(right.cols[n], rk, lk[i])
    {
    }
  }

  /** Without validation the join keeps the left row count exactly when
      no left key matches two right rows; otherwise it adds rows. */
  lemma JoinRowCount(left: Table, right: Table, key: string)
    requires SafeLeftJoin(left, right, key, false).Ok?
    ensures SafeLeftJoin(left, right, key, false).value.rows >= left.rows
    ensures SafeLeftJoin(left, right, key, false).value.rows == left.rows <==>
      forall i :: 0 <= i < left.rows ==> |Matches(left.cols[key][i], right.cols[key])| <= 1
  {
    var lk, rk := left.cols[key], right.cols[key];
    if forall i :: 0 <= i < |lk| ==> |Matches(lk[i], rk)| <= 1 {
      RowPairsOneToOne(lk, rk);
    } else {
      var i :| 0 <= i < |lk| && |Matches(lk[i], rk)| >= 2;
      RowPairsFanOut(lk, rk, i);
    }
  }

  /** With many-to-one validation passing, every left column comes through
      whole when its name is not renamed. */
  lemma JoinKeepsLeft(left: Table, right: Table, key: string, n: string)
    requires SafeLeftJoin(left, right, key, true).Ok?
    requires n in left.cols && (n == key || n !in right.cols)
    ensures SafeLeftJoin(left, right, key, true).value.rows == left.rows
    ensures n in SafeLeftJoin(left, right, key, true).value.cols
    ensures SafeLeftJoin(left, right, key, true).value.cols[n] == left.cols[n]
  {
    var lk, rk := left.cols[key], right.cols[key];
    forall a | 0 <= a < |lk|
      ensures |Matches(lk[a], rk)| <= 1
    {
      MatchTwiceIsRepeat(lk[a], rk);
    }
    RowPairsOneToOne(lk, rk);
    JoinLeftColumns(left, right, key, true);
    assert LeftName(n, right, key) == n;
  }

  /** The columns `transform` requires of each input. */
  const OrderColumns: seq<string> := ["order_id", "user_id", "amount", "quantity", "created_at", "status"]
  const UserColumns: seq<string> := ["user_id", "country", "signup_date"]

  /** The checks at the head of `transform`, in the order it runs them;
      the first failure is the one reported. */
  function CheckInputs(orders: Table, users: Table): (r: Outcome<Failure>)
    ensures r.Pass? <==>
      (forall c :: c in OrderColumns ==> c in orders.cols) &&
      (forall c :: c in UserColumns ==> c in users.cols) &&
      orders.rows > 0 && users.rows > 0 && !HasDuplicates(users.cols["user_id"])
    ensures RequireColumns(orders, OrderColumns).Fail? ==> r == RequireColumns(orders, OrderColumns)
    ensures r.Fail? && (forall c :: c in OrderColumns ==> c in orders.cols) &&
            (forall c :: c in UserColumns ==> c in users.cols) && orders.rows > 0 && users.rows > 0
            ==> r == Fail(DuplicateKeyValues("user_id"))
  {
    var columnsOfOrders := RequireColumns(orders, OrderColumns);
    if columnsOfOrders.Fail? then columnsOfOrders
    else
      var columnsOfUsers := RequireColumns(users, UserColumns);
      if columnsOfUsers.Fail? then columnsOfUsers
      else
        var ordersNonEmpty := AssertNonEmpty(orders, "orders_raw");
        if ordersNonEmpty.Fail? then ordersNonEmpty
        else
          var usersNonEmpty := AssertNonEmpty(users, "users");
          if usersNonEmpty.Fail? then usersNonEmpty
          else AssertUniqueKeyEtl(users, "user_id")
  }

  /** The `status_map` of `transform`. */
  const StatusMap: map<Value, Value> :=
    map[Text("paid") := Text("paid"), Text("refund") := Text("refund"), Text("refunded") := Text("refund")]

  /** `apply_mapping(normalize_text(status), status_map)`. */
  function StatusClean(lib: Library, status: Column): (r: Column)
    ensures |r| == |status|
  {
    ApplyMapping(NormalizeText(lib, status), StatusMap)
  }

  /** The status mapping sends "refunded" to "refund", keeps "paid" and
      "refund", and a second pass changes nothing. */
  lemma StatusMapSettled()
    ensures Settled(StatusMap)
    ensures StatusMap[Text("refunded")] == Text("refund")
    ensures forall v :: v in StatusMap ==> StatusMap[v] in StatusMap && StatusMap[StatusMap[v]] == StatusMap[v]
  {
    assert Text("paid") != Text("refund") && Text("refund") != Text("refunded");
  }

  /** The status mapping on one normalised text. */
  lemma MapStatus(s: string)
    requires Normalized(s)
    ensures var v := if Text(s) in StatusMap then StatusMap[Text(s)] else Text(s);
      v.Text? && Normalized(v.s) && v.s != "refunded" &&
      (s == "refunded" ==> v == Text("refund")) &&
      (s != "refunded" ==> v == Text(s))
  {
    if s == "refunded" {
      RefundNormalized();
      assert StatusMap[Text(s)] == Text("refund");
    } else if s == "paid" || s == "refund" {
      assert StatusMap[Text(s)] == Text(s);
    } else {
      assert Text(s) !in StatusMap;
    }
  }

  lemma RefundNormalized()
    ensures Normalized("refund") && "refund" != "refunded"
  {
    var refund: string := "refund";
    assert |refund| == 6;
    assert !IsSpace(refund[0]) && !IsSpace(refund[5]) && SingleSpaced(refund);
  }

  /** Every status is cleaned to null exactly when it was null, and otherwise
      to a normalised text that is never "refunded": "refunded" in any case
      or spacing becomes "refund", and any other status keeps its normalised
      spelling. */
  lemma StatusCleanValues(lib: Library, status: Column)
    ensures forall i :: 0 <= i < |status| ==> (StatusClean(lib, status)[i].None? <==> status[i].None?)
    ensures forall i :: 0 <= i < |status| && status[i].Some? ==>
      var s := Normalize(AsString(lib, status[i].value));
      StatusClean(lib, status)[i].value.Text? &&
      Normalized(StatusClean(lib, status)[i].value.s) &&
      StatusClean(lib, status)[i].value.s != "refunded" &&
      (s == "refunded" ==> StatusClean(lib, status)[i] == Some(Text("refund"))) &&
      (s != "refunded" ==> StatusClean(lib, status)[i] == Some(Text(s)))
  {
    var n := NormalizeText(lib, status);
    forall i | 0 <= i < |status| && status[i].Some?
      ensures var s := Normalize(AsString(lib, status[i].value));
        var v := if Text(s) in StatusMap then StatusMap[Text(s)] else Text(s);
        n[i] == Some(Text(s)) && StatusClean(lib, status)[i] == Some(v)
    {
    }
    forall i | 0 <= i < |status| && status[i].Some?
      ensures Normalized(Normalize(AsString(lib, status[i].value)))
    {
      NormalizeIsNormalized(AsString(lib, status[i].value));
    }
    forall s | Normalized(s)
      ensures var v := if Text(s) in StatusMap then StatusMap[Text(s)] else Text(s);
        v.Text? && Normalized(v.s) && v.s != "refunded" &&
        (s == "refunded" ==> v == Text("refund")) && (s != "refunded" ==> v == Text(s))
    {
      MapStatus(s);
    }
  }

  /** The flag columns `transform` adds to orders. */
  const FlaggedColumns: seq<string> := ["amount", "quantity"]

  lemma FlaggedNames()
    ensures FlagName("amount") == "amount__isna" && FlagName("quantity") == "quantity__isna"
    ensures forall c :: c in FlaggedColumns ==> FlagName(c) !in FlaggedColumns
    ensures forall n :: n in FlagNames(FlaggedColumns) <==> n == "amount__isna" || n == "quantity__isna"
  {
    assert FlagNames(FlaggedColumns)[0] == "amount__isna";
    assert FlagNames(FlaggedColumns)[1] == "quantity__isna";
  }

  /** The table `status_clean` is added to. */
  function WithStatus(lib: Library, e: Table): (r: Result<Table, Failure>)
    ensures r.Ok? <==> "status" in e.cols
  {
    if "status" !in e.cols then Err(ColumnNotFound("status"))
    else Ok(Assign(e, "status_clean", StatusClean(lib, e.cols["status"])))
  }

  /** The orders chain of `transform`: `enforce_schema`, then `status_clean`
      computed from the coerced table, then the null flags of `amount` and
      `quantity`. Each step fails as its own function does. */
  function CleanOrders(lib: Library, orders: Table): (r: Result<Table, Failure>)
    ensures EnforceSchema(lib, orders).Err? ==> r == EnforceSchema(lib, orders)
    ensures r.Ok? <==> EnforceSchema(lib, orders).Ok? && "status" in orders.cols
    ensures r.Ok? ==> r.value.rows == orders.rows
  {
    var e := EnforceSchema(lib, orders);
    if e.Err? then e
    else
      var s := WithStatus(lib, e.value);
      if s.Err? then s
      else
        FlaggedNames();
        MissingFlagsShape(s.value, FlaggedColumns);
        MissingFlags(s.value, FlaggedColumns)
  }

  /** The cleaned orders hold the input's columns, `status_clean` and the
      two flags, and no other. */
  lemma CleanOrdersNames(lib: Library, orders: Table)
    requires CleanOrders(lib, orders).Ok?
    ensures forall n :: n in CleanOrders(lib, orders).value.cols <==>
      n in orders.cols || n == "status_clean" || n == "amount__isna" || n == "quantity__isna"
  {
    var s := WithStatus(lib, EnforceSchema(lib, orders).value).value;
    FlaggedNames();
    MissingFlagsKeepsOthers(s, FlaggedColumns);
  }

  /** `status_clean` is the cleaned status of the input. */
  lemma CleanOrdersStatus(lib: Library, orders: Table)
    requires CleanOrders(lib, orders).Ok?
    ensures "status_clean" in CleanOrders(lib, orders).value.cols
    ensures CleanOrders(lib, orders).value.cols["status_clean"] == StatusClean(lib, orders.cols["status"])
  {
    var e := EnforceSchema(lib, orders).value;
    StatusNames();
    assert e.cols["status"] == orders.cols["status"];
    var s := WithStatus(lib, e).value;
    assert s.cols["status_clean"] == StatusClean(lib, orders.cols["status"]);
    assert CleanOrders(lib, orders) == MissingFlags(s, FlaggedColumns);
    MissingFlagsKeepsOthers(s, FlaggedColumns);
  }

  lemma StatusNames()
    ensures "status" !in SchemaColumns
    ensures "status_clean" !in FlagNames(FlaggedColumns)
  {
    FlaggedNames();
  }

  /** Each flag marks the nulls of its coerced column. */
  lemma CleanOrdersFlags(lib: Library, orders: Table)
    requires CleanOrders(lib, orders).Ok?
    ensures "amount__isna" in CleanOrders(lib, orders).value.cols
    ensures "quantity__isna" in CleanOrders(lib, orders).value.cols
    ensures CleanOrders(lib, orders).value.cols["amount__isna"] == IsNa(NumberColumn(orders.cols["amount"]))
    ensures CleanOrders(lib, orders).value.cols["quantity__isna"] == IsNa(IntegerColumn(orders.cols["quantity"]).value)
  {
    var e := EnforceSchema(lib, orders).value;
    var s := WithStatus(lib, e).value;
    assert CleanOrders(lib, orders) == MissingFlags(s, FlaggedColumns);
    assert s.cols["amount"] == NumberColumn(orders.cols["amount"]);
    assert s.cols["quantity"] == IntegerColumn(orders.cols["quantity"]).value;
    FlaggedNames();
    MissingFlagsMarkNulls(s, FlaggedColumns);
    assert "amount" in FlaggedColumns && "quantity" in FlaggedColumns;
  }

  /** The coerced columns are those of `enforce_schema`, and every column
      the chain does not write is the input's. */
  lemma CleanOrdersKeeps(lib: Library, orders: Table, n: string)
    requires CleanOrders(lib, orders).Ok? && n in orders.cols
    requires n != "status_clean" && n != "amount__isna" && n != "quantity__isna"
    ensures n in CleanOrders(lib, orders).value.cols
    ensures n in SchemaColumns ==> CleanOrders(lib, orders).value.cols[n] == EnforceSchema(lib, orders).value.cols[n]
    ensures n !in SchemaColumns ==> CleanOrders(lib, orders).value.cols[n] == orders.cols[n]
  {
    var s := WithStatus(lib, EnforceSchema(lib, orders).value).value;
    FlaggedNames();
    MissingFlagsKeepsOthers(s, FlaggedColumns);
  }

  /** `users.assign(user_id=users["user_id"].astype("string"))`; a missing
      `user_id` raises. */
  function CleanUsers(lib: Library, users: Table): (r: Result<Table, Failure>)
    ensures r.Ok? <==> "user_id" in users.cols
    ensures r.Ok? ==> r.value.names == users.names && r.value.rows == users.rows
    ensures r.Ok? ==> r.value.cols == users.cols["user_id" := StringColumn(lib, users.cols["user_id"])]
  {
    if "user_id" !in users.cols then Err(ColumnNotFound("user_id"))
    else Ok(Assign(users, "user_id", StringColumn(lib, users.cols["user_id"])))
  }

  /** Ids that are already text or null are left exactly as they are. */
  lemma CleanUsersKeepsTextIds(lib: Library, users: Table)
    requires "user_id" in users.cols
    requires forall i :: 0 <= i < users.rows && users.cols["user_id"][i].Some? ==> users.cols["user_id"][i].value.Text?
    ensures CleanUsers(lib, users) == Ok(users)
  {
    var ids := users.cols["user_id"];
    TextColumnUnchanged(lib, ids);
    assert users.cols["user_id" := ids] == users.cols;
  }

  /** Casting text (or null) cells to text changes nothing. */
  lemma TextColumnUnchanged(lib: Library, ids: Column)
    requires forall i :: 0 <= i < |ids| && ids[i].Some? ==> ids[i].value.Text?
    ensures StringColumn(lib, ids) == ids
  {
  }

  lemma TimePartsNamed()
    ensures "created_at" !in TimePartNames && "user_id" !in TimePartNames
    ensures "status_clean" !in TimePartNames && "amount" !in TimePartNames
  {
  }

  /** `parse_datetime(col="created_at")` then `add_time_parts` on it: the
      parsed column holds only timestamps and nulls, so the second step
      cannot raise, and only a missing `created_at` fails. */
  function Timestamps(lib: Library, t: Table): (r: Result<Table, Failure>)
    ensures r.Ok? <==> "created_at" in t.cols
    ensures r.Ok? ==> r.value.rows == t.rows
    ensures r.Ok? ==> forall n :: n in r.value.cols <==> n in t.cols || n in TimePartNames
    ensures r.Ok? ==> r.value.cols["created_at"] == ParseTimes(lib, t.cols["created_at"])
    ensures r.Ok? ==> forall n :: n in TimePartNames ==> r.value.cols[n] == PartColumn(lib, ParseTimes(lib, t.cols["created_at"]), n)
    ensures r.Ok? ==> forall n :: n in t.cols && n != "created_at" && n !in TimePartNames ==> r.value.cols[n] == t.cols[n]
  {
    var parsed := ParseDatetime(lib, t, "created_at");
    if parsed.Err? then parsed
    else
      TimePartsNamed();
      AddTimeParts(lib, parsed.value, "created_at")
  }

  /** The orders side of the join: the cleaned orders with their
      timestamps. */
  function PreJoin(lib: Library, orders: Table): (r: Result<Table, Failure>)
    ensures r.Ok? <==> CleanOrders(lib, orders).Ok? && "created_at" in orders.cols
    ensures CleanOrders(lib, orders).Err? ==> r == CleanOrders(lib, orders)
    ensures r.Ok? ==> r.value.rows == orders.rows
  {
    var cleaned := CleanOrders(lib, orders);
    if cleaned.Err? then cleaned
    else
      assert "created_at" in cleaned.value.cols <==> "created_at" in orders.cols by {
        CleanOrdersNames(lib, orders);
      }
      Timestamps(lib, cleaned.value)
  }

  /** A column of numbers, with nulls where there is none. */
  function NumColumn(x: seq<Option<real>>): (r: Column)
    ensures |r| == |x|
    ensures forall i :: 0 <= i < |x| ==> r[i] == if x[i].None? then None else Some(Num(x[i].value))
  {
    seq(|x|, i requires 0 <= i < |x| => if x[i].None? then None else Some(Num(x[i].value)))
  }

  /** The winsorizing levels and the IQR multiplier `transform` uses. */
  const WinsorLow: real := 0.01
  const WinsorHigh: real := 0.99
  const OutlierK: real := 1.5

  /** `amount` is present and holds only numbers and nulls. */
  predicate NumericAmount(a: Table) {
    "amount" in a.cols && AsNumbers(a.cols["amount"], "amount").Ok?
  }

  function Amounts(a: Table): (x: seq<Option<real>>)
    requires NumericAmount(a)
    ensures |x| == a.rows
  {
    AsNumbers(a.cols["amount"], "amount").value
  }

  /** `winsorize(analytics["amount"])`, as number cells. */
  function WinsorColumn(a: Table): (r: Column)
    requires NumericAmount(a)
    ensures |r| == a.rows
  {
    var w := Winsorize(Amounts(a), WinsorLow, WinsorHigh);
    assert w.Ok?;
    NumColumn(w.value)
  }

  /** The outlier flags of `amount`, as flag cells. */
  function OutlierColumn(a: Table): (r: Column)
    requires NumericAmount(a)
    ensures |r| == a.rows
  {
    FlagColumn(OutlierFlags(Amounts(a), OutlierK))
  }

  lemma OutlierNamed()
    ensures OutlierName("amount") == "amount__is_outlier"
    ensures "amount" != "amount_winsor" && "amount" != "amount__is_outlier"
  {
  }

  /** The last two steps of `transform`: `amount_winsor` is the winsorized
      `amount`, then `amount__is_outlier` flags it. Both read `amount`,
      whose absence or a non-number in it raises. They add or replace
      those two columns and change nothing else. */
  function Finish(a: Table): (r: Result<Table, Failure>)
    ensures "amount" !in a.cols ==> r == Err(ColumnNotFound("amount"))
    ensures "amount" in a.cols && r.Err? ==> r.error == NotNumeric("amount")
    ensures r.Ok? <==> NumericAmount(a)
    ensures r.Ok? ==> r.value.rows == a.rows
    ensures r.Ok? ==> r.value.cols == a.cols["amount_winsor" := WinsorColumn(a)]["amount__is_outlier" := OutlierColumn(a)]
  {
    if "amount" !in a.cols then Err(ColumnNotFound("amount"))
    else
      var x := AsNumbers(a.cols["amount"], "amount");
      if x.Err? then Err(x.error)
      else
        var b := Assign(a, "amount_winsor", WinsorColumn(a));
        OutlierNamed();
        assert b.cols["amount"] == a.cols["amount"];
        AddOutlierFlag(b, "amount", OutlierK)
  }

  /** `amount_winsor` and `amount__is_outlier` are the only columns the
      last two steps add or change. */
  lemma FinishKeeps(a: Table)
    requires Finish(a).Ok?
    ensures forall n :: n in Finish(a).value.cols <==> n in a.cols || n == "amount_winsor" || n == "amount__is_outlier"
    ensures forall n :: n in a.cols && n != "amount_winsor" && n != "amount__is_outlier" ==> Finish(a).value.cols[n] == a.cols[n]
  {
    TwoUpdates(a.cols, "amount_winsor", "amount__is_outlier", WinsorColumn(a), OutlierColumn(a));
  }

  /** Two updates of a map add or change only their two keys. */
  lemma TwoUpdates<V>(m: map<string, V>, x: string, y: string, v: V, w: V)
    ensures forall n :: n in m[x := v][y := w] <==> n in m || n == x || n == y
    ensures forall n :: n in m && n != x && n != y ==> m[x := v][y := w][n] == m[n]
  {
  }

  /** Each winsorized amount is null exactly where the amount is; otherwise
      it lies between the 1% and 99% quantiles of the amounts, equals the
      amount when that already lies there, and two amounts keep their
      order. */
  lemma FinishWinsor(a: Table, i: nat, j: nat)
    requires NumericAmount(a) && i < a.rows && j < a.rows
    ensures WinsorColumn(a)[i].None? <==> a.cols["amount"][i].None?
    ensures var x := Amounts(a);
      x[i].Some? ==>
        && Quantile(Present(x), WinsorLow).Some? && Quantile(Present(x), WinsorHigh).Some?
        && WinsorColumn(a)[i].Some? && WinsorColumn(a)[i].value.Num?
        && Quantile(Present(x), WinsorLow).value <= WinsorColumn(a)[i].value.r <= Quantile(Present(x), WinsorHigh).value
        && (Quantile(Present(x), WinsorLow).value <= x[i].value <= Quantile(Present(x), WinsorHigh).value ==>
              WinsorColumn(a)[i] == Some(Num(x[i].value)))
        && (x[j].Some? && x[i].value <= x[j].value ==> WinsorColumn(a)[i].value.r <= WinsorColumn(a)[j].value.r)
  {
    var x := Amounts(a);
    if x[i].Some? && x[j].Some? {
      WinsorizeClamps(x, WinsorLow, WinsorHigh, i, j);
    } else if x[i].Some? {
      WinsorizeClamps(x, WinsorLow, WinsorHigh, i, i);
    }
  }

  /** Each outlier flag is null exactly where the amount is; otherwise it is
      true exactly when the amount lies outside the 1.5 IQR bounds. */
  lemma FinishOutlier(a: Table, i: nat)
    requires NumericAmount(a) && i < a.rows
    ensures OutlierColumn(a)[i].None? <==> a.cols["amount"][i].None?
    ensures var x := Amounts(a);
      x[i].Some? ==>
        IqrBounds(x, OutlierK).Some? &&
        (OutlierColumn(a)[i] == Some(Flag(true)) <==>
          x[i].value < IqrBounds(x, OutlierK).value.0 || x[i].value > IqrBounds(x, OutlierK).value.1)
  {
    OutlierFlagMeaning(Amounts(a), OutlierK, i);
  }

  /** `transform(orders_raw, users)`. */
  function Transform(lib: Library, orders: Table, users: Table): (r: Result<Table, Failure>)
    ensures CheckInputs(orders, users).Fail? ==> r == Err(CheckInputs(orders, users).error)
  {
    var check := CheckInputs(orders, users);
    if check.Fail? then Err(check.error)
    else
      var pre := PreJoin(lib, orders);
      if pre.Err? then pre
      else
        var usersClean := CleanUsers(lib, users);
        if usersClean.Err? then usersClean
        else
          var joined := SafeLeftJoin(pre.value, usersClean.value, "user_id", true);
          if joined.Err? then joined
          else Finish(joined.value)
  }

  /** The join of a successful `transform`. */
  function Joined(lib: Library, orders: Table, users: Table): (j: Table)
    requires Transform(lib, orders, users).Ok?
  {
    SafeLeftJoin(PreJoin(lib, orders).value, CleanUsers(lib, users).value, "user_id", true).value
  }

  lemma JoinedIsFinished(lib: Library, orders: Table, users: Table)
    requires Transform(lib, orders, users).Ok?
    ensures CheckInputs(orders, users).Pass? && PreJoin(lib, orders).Ok? && CleanUsers(lib, users).Ok?
    ensures SafeLeftJoin(PreJoin(lib, orders).value, CleanUsers(lib, users).value, "user_id", true).Ok?
    ensures Transform(lib, orders, users) == Finish(Joined(lib, orders, users))
    ensures forall n :: n in CleanUsers(lib, users).value.cols <==> n in users.cols
  {
  }

  /** `transform` keeps one row per order: the join is many-to-one and the
      last steps add columns only. */
  lemma TransformKeepsRows(lib: Library, orders: Table, users: Table)
    requires Transform(lib, orders, users).Ok?
    ensures Transform(lib, orders, users).value.rows == orders.rows
  {
    JoinedIsFinished(lib, orders, users);
    var pre := PreJoin(lib, orders).value;
    JoinKeepsLeft(pre, CleanUsers(lib, users).value, "user_id", "user_id");
  }

  /** A column of the orders side whose name the users do not share (or
      the key itself) comes through the join and the last steps unchanged,
      unless it is one of the two columns those steps write. */
  lemma TransformKeepsOrderColumn(lib: Library, orders: Table, users: Table, n: string)
    requires Transform(lib, orders, users).Ok?
    requires PreJoin(lib, orders).Ok? && n in PreJoin(lib, orders).value.cols
    requires n == "user_id" || n !in users.cols
    requires n != "amount_winsor" && n != "amount__is_outlier"
    ensures n in Transform(lib, orders, users).value.cols
    ensures Transform(lib, orders, users).value.cols[n] == PreJoin(lib, orders).value.cols[n]
  {
    JoinedIsFinished(lib, orders, users);
    JoinKeepsLeft(PreJoin(lib, orders).value, CleanUsers(lib, users).value, "user_id", n);
    FinishKeeps(Joined(lib, orders, users));
  }

  /** The literal column names the pipeline writes are distinct. */
  lemma PipelineNamesDiffer()
    ensures "status_clean" != "amount_winsor" && "status_clean" != "amount__is_outlier"
    ensures "created_at" != "amount_winsor" && "created_at" != "amount__is_outlier"
    ensures "user_id" != "amount_winsor" && "user_id" != "amount__is_outlier"
    ensures "status_clean" != "created_at" && "status_clean" !in TimePartNames
    ensures "created_at" !in SchemaColumns && "user_id" in SchemaColumns
    ensures "created_at" != "status_clean" && "created_at" != "amount__isna" && "created_at" != "quantity__isna"
    ensures "user_id" != "status_clean" && "user_id" != "amount__isna" && "user_id" != "quantity__isna"
    ensures "user_id" != "created_at" && "user_id" !in TimePartNames && "created_at" !in TimePartNames
  {
  }

  /** `status_clean` in the output is the cleaned status of each order,
      when the users have no column of that name. */
  lemma TransformStatusClean(lib: Library, orders: Table, users: Table)
    requires Transform(lib, orders, users).Ok? && "status_clean" !in users.cols
    ensures "status_clean" in Transform(lib, orders, users).value.cols
    ensures Transform(lib, orders, users).value.cols["status_clean"] == StatusClean(lib, orders.cols["status"])
  {
    JoinedIsFinished(lib, orders, users);
    PipelineNamesDiffer();
    CleanOrdersStatus(lib, orders);
    TransformKeepsOrderColumn(lib, orders, users, "status_clean");
  }

  /** `created_at` in the output is the parsed timestamp of each order,
      when the users have no column of that name. */
  lemma TransformCreatedAt(lib: Library, orders: Table, users: Table)
    requires Transform(lib, orders, users).Ok? && "created_at" !in users.cols
    ensures "created_at" in Transform(lib, orders, users).value.cols
    ensures Transform(lib, orders, users).value.cols["created_at"] == ParseTimes(lib, orders.cols["created_at"])
  {
    JoinedIsFinished(lib, orders, users);
    PipelineNamesDiffer();
    CleanOrdersKeeps(lib, orders, "created_at");
    TransformKeepsOrderColumn(lib, orders, users, "created_at");
  }

  /** The key in the output is each order's `user_id` as text. */
  lemma TransformUserId(lib: Library, orders: Table, users: Table)
    requires Transform(lib, orders, users).Ok?
    ensures "user_id" in Transform(lib, orders, users).value.cols
    ensures Transform(lib, orders, users).value.cols["user_id"] == StringColumn(lib, orders.cols["user_id"])
  {
    JoinedIsFinished(lib, orders, users);
    PipelineNamesDiffer();
    CleanOrdersKeeps(lib, orders, "user_id");
    TransformKeepsOrderColumn(lib, orders, users, "user_id");
  }

  /** The pre-join key is each order's `user_id` as text. */
  lemma PreJoinUserId(lib: Library, orders: Table)
    requires PreJoin(lib, orders).Ok?
    ensures "user_id" in PreJoin(lib, orders).value.cols
    ensures PreJoin(lib, orders).value.cols["user_id"] == StringColumn(lib, orders.cols["user_id"])
  {
    PipelineNamesDiffer();
    CleanOrdersKeeps(lib, orders, "user_id");
  }

  /** In the join, a user column the orders side lacks holds in row `i`
      the value of the user with the order's id. */
  lemma JoinedUserColumn(lib: Library, orders: Table, users: Table, n: string, i: nat)
    requires Transform(lib, orders, users).Ok? && i < orders.rows
    requires n in users.cols && n != "user_id"
    requires PreJoin(lib, orders).Ok? && n !in PreJoin(lib, orders).value.cols
    ensures n in Joined(lib, orders, users).cols && i < |Joined(lib, orders, users).cols[n]|
    ensures Joined(lib, orders, users).cols[n][i] ==
      Lookup(users.cols[n], StringColumn(lib, users.cols["user_id"]), StringColumn(lib, orders.cols["user_id"])[i])
  {
    JoinedIsFinished(lib, orders, users);
    var pre, u := PreJoin(lib, orders).value, CleanUsers(lib, users).value;
    PreJoinUserId(lib, orders);
    JoinManyToOne(pre, u, "user_id", i);
    assert RightName(n, pre) == n;
    assert u.cols[n] == users.cols[n];
  }

  /** A user column the orders side lacks holds, in row `i`, the value of
      the user whose id (as text) equals the order's id (as text), or null
      when there is no such user. */
  lemma TransformUserColumn(lib: Library, orders: Table, users: Table, a: Table, n: string, i: nat)
    requires Transform(lib, orders, users) == Ok(a) && i < orders.rows
    requires n in users.cols && n != "user_id" && n != "amount_winsor" && n != "amount__is_outlier"
    requires PreJoin(lib, orders).Ok? && n !in PreJoin(lib, orders).value.cols
    ensures n in a.cols && i < |a.cols[n]|
    ensures a.cols[n][i] ==
      Lookup(users.cols[n], StringColumn(lib, users.cols["user_id"]), StringColumn(lib, orders.cols["user_id"])[i])
  {
    JoinedIsFinished(lib, orders, users);
    var j := Joined(lib, orders, users);
    JoinedUserColumn(lib, orders, users, n, i);
    assert a == Finish(j).value;
    FinishKeeps(j);
    assert a.cols[n] == j.cols[n];
  }

  /** The last two columns depend on `amount` alone. */
  lemma AmountColumnsFollowAmount(a: Table, b: Table)
    requires NumericAmount(a) && "amount" in b.cols && b.cols["amount"] == a.cols["amount"]
    ensures NumericAmount(b)
    ensures WinsorColumn(b) == WinsorColumn(a) && OutlierColumn(b) == OutlierColumn(a)
  {
    assert Amounts(b) == Amounts(a);
  }

  /** After the last two steps, `amount_winsor` and `amount__is_outlier`
      are the winsorized amounts and the outlier flags of the output's own
      `amount`. */
  lemma FinishAmountColumns(j: Table)
    requires Finish(j).Ok?
    ensures NumericAmount(Finish(j).value)
    ensures "amount_winsor" in Finish(j).value.cols && Finish(j).value.cols["amount_winsor"] == WinsorColumn(Finish(j).value)
    ensures "amount__is_outlier" in Finish(j).value.cols && Finish(j).value.cols["amount__is_outlier"] == OutlierColumn(Finish(j).value)
  {
    var a := Finish(j).value;
    OutlierNamed();
    FinishKeeps(j);
    assert a.cols["amount"] == j.cols["amount"];
    AmountColumnsFollowAmount(j, a);
  }

  /** The outputs `amount_winsor` and `amount__is_outlier` are the winsorized
      amounts and their outlier flags. */
  lemma TransformAmountColumns(lib: Library, orders: Table, users: Table, a: Table)
    requires Transform(lib, orders, users) == Ok(a)
    ensures NumericAmount(a)
    ensures "amount_winsor" in a.cols && a.cols["amount_winsor"] == WinsorColumn(a)
    ensures "amount__is_outlier" in a.cols && a.cols["amount__is_outlier"] == OutlierColumn(a)
  {
    JoinedIsFinished(lib, orders, users);
    FinishAmountColumns(Joined(lib, orders, users));
  }

  /** A renamed column never reads "amount". */
  lemma SuffixedIsNotAmount(n: string, c: char)
    requires c == 'x' || c == 'y'
    ensures n + ['_', c] != "amount"
  {
    if |n + ['_', c]| == 6 {
      assert (n + ['_', c])[5] == c;
    }
  }

  /** When both sides have an `amount` column, both are renamed and the
      join's column names do not include `amount`. */
  lemma AmountNotInJoinNames(left: Table, right: Table, key: string)
    requires key != "amount" && "amount" in left.cols && "amount" in right.cols
    ensures "amount" !in JoinNames(left, right, key)
  {
    var rn := RightOnly(right, key);
    var lefts := seq(|left.names|, i requires 0 <= i < |left.names| => LeftName(left.names[i], right, key));
    var rights := seq(|rn|, i requires 0 <= i < |rn| => RightName(rn[i], left));
    assert JoinNames(left, right, key) == lefts + rights;
    assert "_x" == ['_', 'x'] && "_y" == ['_', 'y'];
    forall i | 0 <= i < |lefts|
      ensures lefts[i] != "amount"
    {
      SuffixedIsNotAmount(left.names[i], 'x');
    }
    forall i | 0 <= i < |rights|
      ensures rights[i] != "amount"
    {
      SuffixedIsNotAmount(rn[i], 'y');
    }
  }

  /** The coerced amounts reach the join unchanged. */
  lemma PreJoinAmount(lib: Library, orders: Table)
    requires PreJoin(lib, orders).Ok?
    ensures "amount" in PreJoin(lib, orders).value.cols
    ensures PreJoin(lib, orders).value.cols["amount"] == NumberColumn(orders.cols["amount"])
  {
    assert "amount" in SchemaColumns && "amount" != "status_clean" && "amount" != "amount__isna" && "amount" != "quantity__isna";
    CleanOrdersKeeps(lib, orders, "amount");
    TimePartsNamed();
  }

  /** Coerced amounts are numbers or nulls. */
  lemma NumberColumnIsNumeric(col: Column)
    ensures AsNumbers(NumberColumn(col), "amount").Ok?
  {
    var r := NumberColumn(col);
    assert forall i :: 0 <= i < |r| && r[i].Some? ==> r[i].value.Num?;
  }

  /** When the users have no `amount` column, the join carries the coerced
      amounts, all numbers or nulls. */
  lemma AmountNumericInJoin(lib: Library, orders: Table, users: Table)
    requires PreJoin(lib, orders).Ok? && CleanUsers(lib, users).Ok? && "amount" !in users.cols
    requires SafeLeftJoin(PreJoin(lib, orders).value, CleanUsers(lib, users).value, "user_id", true).Ok?
    ensures NumericAmount(SafeLeftJoin(PreJoin(lib, orders).value, CleanUsers(lib, users).value, "user_id", true).value)
  {
    var pre, u := PreJoin(lib, orders).value, CleanUsers(lib, users).value;
    PreJoinAmount(lib, orders);
    assert "amount" !in u.cols;
    JoinKeepsLeft(pre, u, "user_id", "amount");
    var joined := SafeLeftJoin(pre, u, "user_id", true).value;
    assert joined.cols["amount"] == NumberColumn(orders.cols["amount"]);
    NumberColumnIsNumeric(orders.cols["amount"]);
  }

  /** Once the input checks pass, `transform` can still fail in four ways
      only: a quantity with a fraction, two user ids that are equal as text,
      renamed columns that collide, or an `amount` column among the users'
      (the join renames both copies, so `amount` is then missing). */
  lemma TransformFailures(lib: Library, orders: Table, users: Table)
    requires CheckInputs(orders, users).Pass? && Transform(lib, orders, users).Err?
    ensures var e := Transform(lib, orders, users).error;
      e == NonIntegralQuantity || e == JoinNotManyToOne("user_id") || e == ClashingColumns ||
      (e == ColumnNotFound("amount") && "amount" in users.cols)
    ensures Transform(lib, orders, users).error == JoinNotManyToOne("user_id") ==>
      HasDuplicates(StringColumn(lib, users.cols["user_id"]))
  {
    assert "status" in orders.cols && "created_at" in orders.cols && "user_id" in users.cols;
    if PreJoin(lib, orders).Ok? {
      var pre, u := PreJoin(lib, orders).value, CleanUsers(lib, users).value;
      PreJoinUserId(lib, orders);
      var joined := SafeLeftJoin(pre, u, "user_id", true);
      if joined.Ok? {
        OutlierNamed();
        if "amount" in users.cols {
          PreJoinAmount(lib, orders);
          AmountNotInJoinNames(pre, u, "user_id");
        } else {
          AmountNumericInJoin(lib, orders, users);
        }
      }
    }
  }

  /** Under `astype("string")` the integer 1 and the text "1" become equal:
      user ids can pass the input check on the raw table and still make the
      many-to-one join fail. */
  lemma CastKeysCanCollide(lib: Library, ids: Column)
    requires ids == [Some(Int(1)), Some(Text("1"))]
    ensures !HasDuplicates(ids)
    ensures HasDuplicates(StringColumn(lib, ids))
  {
    assert IntText(1) == "1";
    var c := StringColumn(lib, ids);
    assert c[0] == c[1];
  }

  /** Whenever the user ids collide as text, `transform` fails at the join
      even though the input checks passed. */
  lemma TransformRejectsCastCollision(lib: Library, orders: Table, users: Table)
    requires CheckInputs(orders, users).Pass? && PreJoin(lib, orders).Ok?
    requires HasDuplicates(StringColumn(lib, users.cols["user_id"]))
    ensures Transform(lib, orders, users) == Err(JoinNotManyToOne("user_id"))
  {
    PreJoinUserId(lib, orders);
  }

  /** Ids that are all text (or null) cannot collide, so after the input
      checks the join's many-to-one validation always passes. */
  lemma TextIdsPassTheJoinCheck(lib: Library, orders: Table, users: Table)
    requires CheckInputs(orders, users).Pass?
    requires forall i :: 0 <= i < users.rows && users.cols["user_id"][i].Some? ==> users.cols["user_id"][i].value.Text?
    ensures Transform(lib, orders, users) != Err(JoinNotManyToOne("user_id"))
  {
    var ids := users.cols["user_id"];
    TextColumnUnchanged(lib, ids);
    if Transform(lib, orders, users) == Err(JoinNotManyToOne("user_id")) {
      TransformFailures(lib, orders, users);
      assert false;
    }
  }

  /** The user-side columns of `load_outputs`: every users column but the
      key. */
  function UserSide(users: Table): (r: seq<string>)
    ensures forall c :: c in r <==> c in users.cols && c != "user_id"
  {
    Filter(users.names, c => c != "user_id")
  }

  /** `orders_clean` of `load_outputs`: the output without the user-side
      columns (those it has), in the output's column order. */
  function OrdersClean(analytics: Table, users: Table): (r: Table)
    ensures r.rows == analytics.rows
    ensures r.names == Kept(analytics.names, UserSide(users))
    ensures forall n :: n in r.cols <==> n in analytics.cols && (n == "user_id" || n !in users.cols)
    ensures forall n :: n in r.cols ==> r.cols[n] == analytics.cols[n]
  {
    var userSide := UserSide(users);
    var drop := Filter(userSide, c => c in analytics.cols);
    FilterAgree(analytics.names, n => n !in drop, n => n !in userSide);
    Drop(analytics, drop)
  }

  /** After `transform`, `orders_clean` keeps one row per order and every
      orders-side column the users do not share, as `transform` left it. */
  lemma OrdersCleanKeepsOrders(lib: Library, orders: Table, users: Table, a: Table, n: string)
    requires Transform(lib, orders, users) == Ok(a)
    requires PreJoin(lib, orders).Ok? && n in PreJoin(lib, orders).value.cols
    requires n !in users.cols && n != "amount_winsor" && n != "amount__is_outlier"
    ensures OrdersClean(a, users).rows == orders.rows
    ensures n in OrdersClean(a, users).cols && OrdersClean(a, users).cols[n] == PreJoin(lib, orders).value.cols[n]
  {
    TransformKeepsRows(lib, orders, users);
    TransformKeepsOrderColumn(lib, orders, users, n);
  }

  /** The counts `write_run_meta` records. The match rate is None (NaN)
      when `country` is present but the output has no rows. */
  datatype RunMeta = RunMeta(
    rowsInOrdersRaw: nat,
    rowsInUsers: nat,
    rowsOutAnalytics: nat,
    missingCreatedAt: nat,
    countryMatchRate: Option<real>)

  /** `write_run_meta`: row counts, the null timestamps of the output (0
      without `created_at`) and the share of output rows with a country
      (0.0 without `country`). */
  function WriteRunMeta(orders: Table, users: Table, analytics: Table): (m: RunMeta)
    ensures m.rowsInOrdersRaw == orders.rows && m.rowsInUsers == users.rows && m.rowsOutAnalytics == analytics.rows
    ensures m.missingCreatedAt <= analytics.rows
    ensures "created_at" in analytics.cols ==> m.missingCreatedAt == NullCount(analytics.cols["created_at"])
    ensures "created_at" !in analytics.cols ==> m.missingCreatedAt == 0
    ensures "created_at" in analytics.cols ==>
      (m.missingCreatedAt == 0 <==> forall i :: 0 <= i < analytics.rows ==> analytics.cols["created_at"][i].Some?)
    ensures "country" !in analytics.cols ==> m.countryMatchRate == Some(0.0)
    ensures "country" in analytics.cols ==> (m.countryMatchRate.None? <==> analytics.rows == 0)
    ensures "country" in analytics.cols && analytics.rows > 0 ==>
      && 0.0 <= m.countryMatchRate.value <= 1.0
      && (m.countryMatchRate.value == 1.0 <==> forall i :: 0 <= i < analytics.rows ==> analytics.cols["country"][i].Some?)
      && (m.countryMatchRate.value == 0.0 <==> forall i :: 0 <= i < analytics.rows ==> analytics.cols["country"][i].None?)
  {
    var missing := if "created_at" in analytics.cols then NullCount(analytics.cols["created_at"]) else 0;
    RunMeta(orders.rows, users.rows, analytics.rows, missing, MatchRate(analytics))
  }

  /** `1.0 - analytics["country"].isna().mean()`, or 0.0 without `country`. */
  function MatchRate(analytics: Table): (rate: Option<real>)
    ensures "country" in analytics.cols && analytics.rows > 0 ==>
      && rate.Some? && 0.0 <= rate.value <= 1.0
      && (rate.value == 1.0 <==> forall i :: 0 <= i < analytics.rows ==> analytics.cols["country"][i].Some?)
      && (rate.value == 0.0 <==> forall i :: 0 <= i < analytics.rows ==> analytics.cols["country"][i].None?)
  {
    if "country" !in analytics.cols then Some(0.0)
    else if analytics.rows == 0 then None
    else
      ShareBounds(analytics.cols["country"]);
      Some(1.0 - Share(NullCount(analytics.cols["country"]), analytics.rows).value)
  }

  /** After `transform`, the run metadata reports as many output rows as
      raw orders, and the missing timestamps are the orders whose
      `created_at` was null or could not be parsed. */
  lemma RunMetaOfTransform(lib: Library, orders: Table, users: Table, a: Table)
    requires Transform(lib, orders, users) == Ok(a) && "created_at" !in users.cols
    ensures WriteRunMeta(orders, users, a).rowsOutAnalytics == WriteRunMeta(orders, users, a).rowsInOrdersRaw
    ensures WriteRunMeta(orders, users, a).missingCreatedAt == NullCount(ParseTimes(lib, orders.cols["created_at"]))
    ensures "country" in a.cols ==> WriteRunMeta(orders, users, a).countryMatchRate.Some?
  {
    TransformKeepsRows(lib, orders, users);
    TransformCreatedAt(lib, orders, users);
  }
}
