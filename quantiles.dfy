/** The statistics of transforms.py on a numeric series (a sequence of
    nullable exact numbers): quantiles with linear interpolation, `iqr_bounds`,
    the outlier flag and `winsorize`. */
module Quantiles {
  import opened Frames
  import opened Sorting

  predicate Sorted(v: seq<real>) {
    forall i, j :: 0 <= i <= j < |v| ==> v[i] <= v[j]
  }

  function Identity(x: real): real { x }

  /** Data in order between neighbours is in order. */
  lemma {:induction false} NeighboursSorted(v: seq<real>)
    requires forall i :: 0 < i < |v| ==> v[i - 1] <= v[i]
    ensures Sorted(v)
  {
    if |v| > 1 {
      var w := v[..|v| - 1];
      NeighboursSorted(w);
      forall i, j | 0 <= i <= j < |v|
        ensures v[i] <= v[j]
      {
        if j < |v| - 1 {
          assert w[i] <= w[j];
        } else if i < j {
          assert w[i] <= w[j - 1];
        }
      }
    }
  }

  function Ascending(x: seq<real>): (v: seq<real>)
    ensures |v| == |x| && Sorted(v) && multiset(v) == multiset(x)
  {
    var v := SortBy(x, Identity);
    assert forall i, j :: 0 <= i <= j < |v| ==> Identity(v[i]) <= Identity(v[j]);
    v
  }

  lemma AscendingOfSorted(x: seq<real>)
    requires Sorted(x)
    ensures Ascending(x) == x
  {
    assert forall i, j :: 0 <= i <= j < |x| ==> Identity(x[i]) <= Identity(x[j]);
    SortBySorted(x, Identity);
  }

  lemma PositionBounds(m: nat, q: real)
    requires 0.0 <= q <= 1.0
    ensures 0.0 <= m as real * q <= m as real
  {
    assert m as real * (1.0 - q) >= 0.0;
  }

  /** The two ranks around position (n - 1) * q of sorted data. */
  function Floor(v: seq<real>, q: real): (lo: nat)
    requires |v| > 0 && 0.0 <= q <= 1.0
    ensures lo < |v|
  {
    PositionBounds(|v| - 1, q);
    ((|v| - 1) as real * q).Floor
  }

  function Ceiling(v: seq<real>, q: real): (hi: nat)
    requires |v| > 0 && 0.0 <= q <= 1.0
    ensures Floor(v, q) <= hi <= Floor(v, q) + 1 && hi < |v|
  {
    PositionBounds(|v| - 1, q);
    var pos := (|v| - 1) as real * q;
    if Floor(v, q) as real == pos then Floor(v, q) else Floor(v, q) + 1
  }

  /** numpy's "linear" rule, pandas' default: interpolate between the floor
      and ceiling ranks of position (n - 1) * q. */
  function Interpolate(v: seq<real>, q: real): real
    requires |v| > 0 && 0.0 <= q <= 1.0
  {
    var pos := (|v| - 1) as real * q;
    var lo := Floor(v, q);
    v[lo] + (v[Ceiling(v, q)] - v[lo]) * (pos - lo as real)
  }

  lemma Lerp(a: real, b: real, t: real)
    requires a <= b && 0.0 <= t <= 1.0
    ensures a <= a + (b - a) * t <= b
  {
    var d := b - a;
    assert d * t >= 0.0;
    assert d * (1.0 - t) >= 0.0;
    assert d * t + d * (1.0 - t) == d;
  }

  lemma LerpMonotone(a: real, b: real, t1: real, t2: real)
    requires a <= b && t1 <= t2
    ensures a + (b - a) * t1 <= a + (b - a) * t2
  {
    var d, e := b - a, t2 - t1;
    assert d * e >= 0.0;
    assert d * t2 == d * t1 + d * e;
  }

  lemma InterpolateBetweenRanks(v: seq<real>, q: real)
    requires |v| > 0 && 0.0 <= q <= 1.0 && Sorted(v)
    ensures v[Floor(v, q)] <= Interpolate(v, q) <= v[Ceiling(v, q)]
  {
    var pos := (|v| - 1) as real * q;
    var lo := Floor(v, q);
    Lerp(v[lo], v[Ceiling(v, q)], pos - lo as real);
  }

  /** At a whole-number position there is nothing to interpolate. */
  lemma InterpolateAtRank(v: seq<real>, q: real)
    requires |v| > 0 && 0.0 <= q <= 1.0 && Ceiling(v, q) == Floor(v, q)
    ensures Interpolate(v, q) == v[Floor(v, q)]
  {
    var pos := (|v| - 1) as real * q;
    var lo := Floor(v, q);
    assert pos - lo as real == 0.0;
    var d := v[Ceiling(v, q)] - v[lo];
    assert d * (pos - lo as real) == 0.0;
  }

  /** `x.quantile(q)` of the non-null values `x`; no value gives NaN (None). */
  function Quantile(x: seq<real>, q: real): (r: Option<real>)
    requires 0.0 <= q <= 1.0
    ensures r.Some? <==> |x| > 0
  {
    if |x| == 0 then None else Some(Interpolate(Ascending(x), q))
  }

  /** A quantile lies between two of the data values. */
  lemma QuantileWithinData(x: seq<real>, q: real)
    requires 0.0 <= q <= 1.0 && |x| > 0
    ensures exists a, b :: a in x && b in x && a <= Quantile(x, q).value <= b
  {
    var v := Ascending(x);
    assert Quantile(x, q).value == Interpolate(v, q);
    InterpolateBetweenRanks(v, q);
    var a, b := v[Floor(v, q)], v[Ceiling(v, q)];
    assert a in multiset(v) && b in multiset(v);
    assert a in x && b in x;
  }

  /** The 0 and 1 quantiles are the least and the greatest value. */
  lemma QuantileExtremes(x: seq<real>)
    requires |x| > 0
    ensures Quantile(x, 0.0).value in x && Quantile(x, 1.0).value in x
    ensures forall y :: y in x ==> Quantile(x, 0.0).value <= y <= Quantile(x, 1.0).value
  {
    var v := Ascending(x);
    var n := |v|;
    assert Quantile(x, 0.0).value == Interpolate(v, 0.0);
    assert Quantile(x, 1.0).value == Interpolate(v, 1.0);
    assert (n - 1) as real * 0.0 == 0.0;
    assert Floor(v, 0.0) == 0 && Ceiling(v, 0.0) == 0;
    InterpolateAtRank(v, 0.0);
    assert (n - 1) as real * 1.0 == (n - 1) as real;
    assert Floor(v, 1.0) == n - 1 && Ceiling(v, 1.0) == n - 1;
    InterpolateAtRank(v, 1.0);
    assert v[0] in multiset(v) && v[n - 1] in multiset(v);
    forall y | y in x
      ensures v[0] <= y <= v[n - 1]
    {
      assert y in multiset(v);
      var k :| 0 <= k < n && v[k] == y;
    }
  }

  lemma InterpolateMonotone(v: seq<real>, q1: real, q2: real)
    requires 0.0 <= q1 <= q2 <= 1.0 && |v| > 0 && Sorted(v)
    ensures Interpolate(v, q1) <= Interpolate(v, q2)
  {
    var m := (|v| - 1) as real;
    var pos1, pos2 := m * q1, m * q2;
    assert pos1 <= pos2 by {
      assert m * (q2 - q1) >= 0.0;
    }
    var lo1, lo2 := Floor(v, q1), Floor(v, q2);
    InterpolateBetweenRanks(v, q1);
    InterpolateBetweenRanks(v, q2);
    if lo1 == lo2 {
      if Ceiling(v, q1) == lo1 {
        InterpolateAtRank(v, q1);
      } else {
        assert Ceiling(v, q2) == Ceiling(v, q1);
        LerpMonotone(v[lo1], v[Ceiling(v, q1)], pos1 - lo1 as real, pos2 - lo2 as real);
      }
    } else {
      assert Ceiling(v, q1) <= lo2;
    }
  }

  /** A higher level never gives a lower quantile. */
  lemma QuantileMonotone(x: seq<real>, q1: real, q2: real)
    requires 0.0 <= q1 <= q2 <= 1.0 && |x| > 0
    ensures Quantile(x, q1).value <= Quantile(x, q2).value
  {
    var v := Ascending(x);
    assert Quantile(x, q1).value == Interpolate(v, q1);
    assert Quantile(x, q2).value == Interpolate(v, q2);
    InterpolateMonotone(v, q1, q2);
  }

  /** `Series.clip(lower, upper)` applied to one non-null value. A NaN bound
      (None) is no bound; two bounds in the wrong order are swapped, after
      which the two tests cannot both hold and their order does not matter. */
  function Clip(x: real, lower: Option<real>, upper: Option<real>): real {
    var (a, b) := if lower.Some? && upper.Some? && upper.value < lower.value then (upper, lower) else (lower, upper);
    if b.Some? && x > b.value then b.value
    else if a.Some? && x < a.value then a.value
    else x
  }

  lemma ClipProperties(x: real, lower: real, upper: real)
    requires lower <= upper
    ensures lower <= Clip(x, Some(lower), Some(upper)) <= upper
    ensures lower <= x <= upper ==> Clip(x, Some(lower), Some(upper)) == x
    ensures forall y :: x <= y ==> Clip(x, Some(lower), Some(upper)) <= Clip(y, Some(lower), Some(upper))
  {
  }

  /** `winsorize(s, lo, hi)`: clip every value to the `lo` and `hi` quantiles of
      the non-null values; nulls stay null. Levels outside [0, 1] raise. */
  function Winsorize(s: seq<Option<real>>, lo: real, hi: real): (r: Result<seq<Option<real>>, Failure>)
    ensures r.Err? <==> !(0.0 <= lo <= 1.0 && 0.0 <= hi <= 1.0)
    ensures r.Ok? ==> |r.value| == |s|
    ensures r.Ok? ==> forall i :: 0 <= i < |s| ==> (r.value[i].None? <==> s[i].None?)
  {
    if !(0.0 <= lo <= 1.0) then Err(QuantileOutOfRange(lo))
    else if !(0.0 <= hi <= 1.0) then Err(QuantileOutOfRange(hi))
    else
      var x := Present(s);
      var a, b := Quantile(x, lo), Quantile(x, hi);
      Ok(seq(|s|, i requires 0 <= i < |s| => if s[i].None? then None else Some(Clip(s[i].value, a, b))))
  }

  /** Every winsorized value lies in [quantile(lo), quantile(hi)] of the
      non-null values, values already there are unchanged, and the order of
      any two values is kept. */
  lemma WinsorizeClamps(s: seq<Option<real>>, lo: real, hi: real, i: nat, j: nat)
    requires 0.0 <= lo <= hi <= 1.0 && i < |s| && j < |s| && s[i].Some? && s[j].Some?
    ensures Quantile(Present(s), lo).Some? && Quantile(Present(s), hi).Some?
    ensures Quantile(Present(s), lo).value <= Winsorize(s, lo, hi).value[i].value <= Quantile(Present(s), hi).value
    ensures Quantile(Present(s), lo).value <= s[i].value <= Quantile(Present(s), hi).value
            ==> Winsorize(s, lo, hi).value[i] == s[i]
    ensures s[i].value <= s[j].value ==> Winsorize(s, lo, hi).value[i].value <= Winsorize(s, lo, hi).value[j].value
  {
    var x := Present(s);
    assert s[i].value in x;
    QuantileMonotone(x, lo, hi);
    ClipProperties(s[i].value, Quantile(x, lo).value, Quantile(x, hi).value);
  }

  /** `iqr_bounds(s, k)`: `(q1 - k * iqr, q3 + k * iqr)` over the non-null
      values; with no value the bounds are NaN (None). */
  function IqrBounds(s: seq<Option<real>>, k: real): (r: Option<(real, real)>)
    ensures r.Some? <==> exists i :: 0 <= i < |s| && s[i].Some?
  {
    var x := Present(s);
    if x == [] then
      assert forall i :: 0 <= i < |s| ==> s[i].None?;
      None
    else
      Some(Fences(Quantile(x, 0.25).value, Quantile(x, 0.75).value, k))
  }

  /** The outlier fences around the quartiles `q1` and `q3`. */
  function Fences(q1: real, q3: real, k: real): (real, real) {
    (q1 - k * (q3 - q1), q3 + k * (q3 - q1))
  }

  lemma FencesEnclose(q1: real, q3: real, k: real)
    requires q1 <= q3 && k >= 0.0
    ensures Fences(q1, q3, k).0 <= q1 && q3 <= Fences(q1, q3, k).1
  {
    assert k * (q3 - q1) >= 0.0;
  }

  /** With k >= 0 the bounds enclose the quartiles, so lo <= hi. */
  lemma IqrBoundsOrdered(s: seq<Option<real>>, k: real)
    requires k >= 0.0 && IqrBounds(s, k).Some?
    ensures IqrBounds(s, k).value.0 <= Quantile(Present(s), 0.25).value
    ensures Quantile(Present(s), 0.25).value <= Quantile(Present(s), 0.75).value
    ensures Quantile(Present(s), 0.75).value <= IqrBounds(s, k).value.1
  {
    var x := Present(s);
    QuantileMonotone(x, 0.25, 0.75);
    var q1, q3 := Quantile(x, 0.25).value, Quantile(x, 0.75).value;
    FencesEnclose(q1, q3, k);
    assert IqrBounds(s, k) == Some(Fences(q1, q3, k));
  }

  /** `(s < lo) | (s > hi)` with the IQR bounds: a null stays null (Kleene
      logic on the nullable dtype), any other value is flagged exactly when it
      lies outside the bounds. */
  function OutlierFlags(s: seq<Option<real>>, k: real): (r: seq<Option<bool>>)
    ensures |r| == |s|
  {
    var b := IqrBounds(s, k);
    seq(|s|, i requires 0 <= i < |s| =>
      if s[i].None? || b.None? then None else Some(s[i].value < b.value.0 || s[i].value > b.value.1))
  }

  lemma OutlierFlagMeaning(s: seq<Option<real>>, k: real, i: nat)
    requires i < |s|
    ensures OutlierFlags(s, k)[i].None? <==> s[i].None?
    ensures s[i].Some? ==> IqrBounds(s, k).Some?
    ensures s[i].Some? ==>
      (OutlierFlags(s, k)[i] == Some(true) <==>
       s[i].value < IqrBounds(s, k).value.0 || s[i].value > IqrBounds(s, k).value.1)
  {
  }

  /** With k >= 0, a value between the quartiles is never an outlier. */
  lemma MiddleHalfNotFlagged(s: seq<Option<real>>, k: real, i: nat)
    requires k >= 0.0 && i < |s| && s[i].Some?
    requires Quantile(Present(s), 0.25).value <= s[i].value <= Quantile(Present(s), 0.75).value
    ensures OutlierFlags(s, k)[i] == Some(false)
  {
    IqrBoundsOrdered(s, k);
  }

  /** A series without nulls. */
  function Somes(x: seq<real>): (s: seq<Option<real>>)
    ensures |s| == |x| && forall i :: 0 <= i < |x| ==> s[i] == Some(x[i])
  {
    seq(|x|, i requires 0 <= i < |x| => Some(x[i]))
  }

  /** Dropping the nulls of a series without nulls gives back its values. */
  lemma {:induction false} PresentOfSomes(x: seq<real>)
    ensures Present(Somes(x)) == x
  {
    if x != [] {
      assert Somes(x)[1..] == Somes(x[1..]);
      PresentOfSomes(x[1..]);
      assert x == [x[0]] + x[1..];
    }
  }

  /** The worked data is already in ascending order. */
  lemma ExampleAscending(x: seq<real>)
    requires x == [1.0, 2.0, 3.0, 4.0, 5.0, 100.0]
    ensures Ascending(x) == x
  {
    assert x[0] <= x[1] <= x[2] <= x[3] <= x[4] <= x[5];
    NeighboursSorted(x);
    AscendingOfSorted(x);
  }

  lemma LowerQuartileExample(x: seq<real>)
    requires x == [1.0, 2.0, 3.0, 4.0, 5.0, 100.0]
    ensures Interpolate(x, 0.25) == 2.25
  {
    assert 5.0 * 0.25 == 1.25 && 1.25.Floor == 1;
    assert Floor(x, 0.25) == 1 && Ceiling(x, 0.25) == 2;
  }

  lemma UpperQuartileExample(x: seq<real>)
    requires x == [1.0, 2.0, 3.0, 4.0, 5.0, 100.0]
    ensures Interpolate(x, 0.75) == 4.75
  {
    assert 5.0 * 0.75 == 3.75 && 3.75.Floor == 3;
    assert Floor(x, 0.75) == 3 && Ceiling(x, 0.75) == 4;
  }

  /** For [1, 2, 3, 4, 5, 100] the quartiles are 2.25 and 4.75. */
  lemma QuartilesExample(x: seq<real>)
    requires x == [1.0, 2.0, 3.0, 4.0, 5.0, 100.0]
    ensures Quantile(x, 0.25) == Some(2.25)
    ensures Quantile(x, 0.75) == Some(4.75)
  {
    ExampleAscending(x);
    LowerQuartileExample(x);
    UpperQuartileExample(x);
  }

  /** For [1, 2, 3, 4, 5, 100] and k = 1.5 the bounds are -1.5 and 8.5. */
  lemma IqrBoundsExample(x: seq<real>)
    requires x == [1.0, 2.0, 3.0, 4.0, 5.0, 100.0]
    ensures IqrBounds(Somes(x), 1.5) == Some((-1.5, 8.5))
  {
    PresentOfSomes(x);
    QuartilesExample(x);
    assert Fences(2.25, 4.75, 1.5) == (-1.5, 8.5);
  }

  /** With those bounds only 100 is flagged. */
  lemma OutlierExample(x: seq<real>)
    requires x == [1.0, 2.0, 3.0, 4.0, 5.0, 100.0]
    ensures forall i :: 0 <= i < 5 ==> OutlierFlags(Somes(x), 1.5)[i] == Some(false)
    ensures OutlierFlags(Somes(x), 1.5)[5] == Some(true)
  {
    IqrBoundsExample(x);
    forall i | 0 <= i < 5
      ensures OutlierFlags(Somes(x), 1.5)[i] == Some(false)
    {
      assert 1.0 <= x[i] <= 5.0 by {
        assert i == 0 || i == 1 || i == 2 || i == 3 || i == 4;
      }
    }
  }
}
