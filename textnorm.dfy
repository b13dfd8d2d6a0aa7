/** `normalize_text` on one text value: strip surrounding whitespace, fold
    case, and replace every run of whitespace by a single space. Whitespace is
    what Python's `str.isspace` and the regular expression `\s` accept. */
module TextNorm {
  import opened Frames

  /** Python's whitespace characters, by code point. */
  predicate IsSpace(c: char) {
    var n := c as int;
    n == 0x20 || 0x09 <= n <= 0x0d || 0x1c <= n <= 0x1f || n == 0x85 || n == 0xa0
    || n == 0x1680 || 0x2000 <= n <= 0x200a || n == 0x2028 || n == 0x2029
    || n == 0x202f || n == 0x205f || n == 0x3000
  }

  function NotSpace(c: char): bool {
    !IsSpace(c)
  }

  predicate IsUpper(c: char) {
    'A' <= c <= 'Z'
  }

  function Lower(c: char): (d: char)
    ensures !IsUpper(d)
    ensures IsSpace(d) <==> IsSpace(c)
  {
    if IsUpper(c) then (c as int + 32) as char else c
  }

  /** Case folding of every character. */
  function Fold(s: string): (r: string)
    ensures |r| == |s|
    ensures forall i :: 0 <= i < |s| ==> r[i] == Lower(s[i])
  {
    seq(|s|, i requires 0 <= i < |s| => Lower(s[i]))
  }

  /** How many whitespace characters `s` starts with. */
  function LeadingSpaces(s: string): (k: nat)
    ensures k <= |s|
    ensures forall i :: 0 <= i < k ==> IsSpace(s[i])
    ensures k < |s| ==> !IsSpace(s[k])
  {
    if s == [] || !IsSpace(s[0]) then 0 else 1 + LeadingSpaces(s[1..])
  }

  /** How many whitespace characters `s` ends with. */
  function TrailingSpaces(s: string): (k: nat)
    ensures k <= |s|
    ensures forall i :: |s| - k <= i < |s| ==> IsSpace(s[i])
    ensures k < |s| ==> !IsSpace(s[|s| - k - 1])
  {
    if s == [] || !IsSpace(s[|s| - 1]) then 0 else 1 + TrailingSpaces(s[..|s| - 1])
  }

  function TrimStart(s: string): string {
    s[LeadingSpaces(s)..]
  }

  function TrimEnd(s: string): string {
    s[..|s| - TrailingSpaces(s)]
  }

  /** `str.strip()`: neither end of the result is whitespace. */
  function Strip(s: string): (r: string)
    ensures |r| > 0 ==> !IsSpace(r[0]) && !IsSpace(r[|r| - 1])
  {
    var t := TrimStart(s);
    var r := TrimEnd(t);
    assert |r| > 0 ==> r[0] == t[0];
    r
  }

  /** No whitespace but single spaces, each followed by something else. */
  predicate SingleSpaced(r: string) {
    forall i :: 0 <= i < |r| && IsSpace(r[i]) ==> r[i] == ' ' && (i + 1 < |r| ==> !IsSpace(r[i + 1]))
  }

  /** `str.replace(r"\s+", " ")`: each maximal run of whitespace becomes one
      space, so the result is single-spaced, begins and ends with whitespace
      exactly when `s` does, and adds no upper-case letter. */
  function Collapse(s: string): (r: string)
    ensures SingleSpaced(r)
    ensures |r| == 0 <==> |s| == 0
    ensures |r| > 0 ==> (IsSpace(r[0]) <==> IsSpace(s[0]))
    ensures |r| > 0 ==> (IsSpace(r[|r| - 1]) <==> IsSpace(s[|s| - 1]))
    ensures (forall i :: 0 <= i < |s| ==> !IsUpper(s[i])) ==> forall i :: 0 <= i < |r| ==> !IsUpper(r[i])
    decreases |s|
  {
    if s == [] then []
    else if IsSpace(s[0]) then
      var t := TrimStart(s);
      var c := Collapse(t);
      assert forall i :: 0 <= i < |t| ==> t[i] == s[LeadingSpaces(s) + i];
      assert |t| > 0 ==> t[|t| - 1] == s[|s| - 1];
      var r := [' '] + c;
      assert forall i :: 1 <= i < |r| ==> r[i] == c[i - 1];
      r
    else
      var c := Collapse(s[1..]);
      var r := [s[0]] + c;
      assert forall i :: 1 <= i < |r| ==> r[i] == c[i - 1];
      r
  }

  /** `normalize_text` on a text value. */
  function Normalize(s: string): string {
    Collapse(Fold(Strip(s)))
  }

  /** What `Normalize` promises of its result: lower case, no whitespace at
      either end, and single spaces between words. */
  predicate Normalized(r: string) {
    && (forall i :: 0 <= i < |r| ==> !IsUpper(r[i]))
    && (|r| > 0 ==> !IsSpace(r[0]) && !IsSpace(r[|r| - 1]))
    && SingleSpaced(r)
  }

  lemma NormalizeIsNormalized(s: string)
    ensures Normalized(Normalize(s))
  {
  }

  lemma {:induction false} CollapseSingleSpaced(r: string)
    requires SingleSpaced(r)
    ensures Collapse(r) == r
    decreases |r|
  {
    if r != [] {
      assert SingleSpaced(r[1..]) by {
        forall i | 0 <= i < |r[1..]| && IsSpace(r[1..][i])
          ensures r[1..][i] == ' ' && (i + 1 < |r[1..]| ==> !IsSpace(r[1..][i + 1]))
        {
          assert r[1..][i] == r[i + 1];
        }
      }
      CollapseSingleSpaced(r[1..]);
      if IsSpace(r[0]) {
        assert LeadingSpaces(r) == 1;
        assert TrimStart(r) == r[1..];
      }
      assert r == [r[0]] + r[1..];
    }
  }

  /** A normalised text normalises to itself. */
  lemma NormalizedIsFixed(r: string)
    requires Normalized(r)
    ensures Normalize(r) == r
  {
    assert LeadingSpaces(r) == 0;
    assert TrimStart(r) == r;
    assert TrailingSpaces(r) == 0;
    assert Strip(r) == r;
    assert Fold(r) == r;
    CollapseSingleSpaced(r);
  }

  lemma NormalizeIdempotent(s: string)
    ensures Normalize(Normalize(s)) == Normalize(s)
  {
    NormalizeIsNormalized(s);
    NormalizedIsFixed(Normalize(s));
  }

  /** The non-whitespace characters of a text, in order. */
  function Words(s: string): (w: string)
    ensures forall c :: c in w ==> !IsSpace(c)
  {
    Filter(s, NotSpace)
  }

  lemma AllSpaceHasNoWords(s: string)
    requires forall i :: 0 <= i < |s| ==> IsSpace(s[i])
    ensures Words(s) == []
  {
    if s != [] {
      AllSpaceHasNoWords(s[1..]);
    }
  }

  lemma TrimStartKeepsWords(s: string)
    ensures Words(TrimStart(s)) == Words(s)
  {
    var a := LeadingSpaces(s);
    assert s == s[..a] + s[a..];
    FilterAppend(s[..a], s[a..], NotSpace);
    AllSpaceHasNoWords(s[..a]);
  }

  lemma TrimEndKeepsWords(t: string)
    ensures Words(TrimEnd(t)) == Words(t)
  {
    var b := |t| - TrailingSpaces(t);
    assert t == t[..b] + t[b..];
    FilterAppend(t[..b], t[b..], NotSpace);
    AllSpaceHasNoWords(t[b..]);
  }

  /** Stripping removes only whitespace. */
  lemma StripKeepsWords(s: string)
    ensures Words(Strip(s)) == Words(s)
  {
    TrimStartKeepsWords(s);
    TrimEndKeepsWords(TrimStart(s));
  }

  lemma {:induction false} LeadingSpacesOfPadded(a: string, w: string)
    requires forall i :: 0 <= i < |a| ==> IsSpace(a[i])
    requires w != [] && !IsSpace(w[0])
    ensures LeadingSpaces(a + w) == |a|
  {
    if a != [] {
      assert (a + w)[1..] == a[1..] + w;
      LeadingSpacesOfPadded(a[1..], w);
    }
  }

  lemma {:induction false} TrailingSpacesOfPadded(w: string, b: string)
    requires forall i :: 0 <= i < |b| ==> IsSpace(b[i])
    requires w != [] && !IsSpace(w[|w| - 1])
    ensures TrailingSpaces(w + b) == |b|
  {
    if b != [] {
      assert (w + b)[..|w + b| - 1] == w + b[..|b| - 1];
      TrailingSpacesOfPadded(w, b[..|b| - 1]);
    }
  }

  /** Stripping whitespace padding gives back the padded text. */
  lemma StripPadded(a: string, w: string, b: string)
    requires forall i :: 0 <= i < |a| ==> IsSpace(a[i])
    requires forall i :: 0 <= i < |b| ==> IsSpace(b[i])
    requires w != [] && !IsSpace(w[0]) && !IsSpace(w[|w| - 1])
    ensures Strip(a + w + b) == w
  {
    assert a + w + b == a + (w + b);
    LeadingSpacesOfPadded(a, w + b);
    assert TrimStart(a + w + b) == w + b;
    TrailingSpacesOfPadded(w, b);
    assert (w + b)[..|w|] == w;
  }

  lemma {:induction false} FoldKeepsWords(s: string)
    ensures Words(Fold(s)) == Fold(Words(s))
  {
    if s != [] {
      FoldKeepsWords(s[1..]);
      assert Fold(s)[1..] == Fold(s[1..]);
      if NotSpace(s[0]) {
        assert Fold([s[0]] + Words(s[1..])) == [Lower(s[0])] + Fold(Words(s[1..]));
      }
    }
  }

  lemma {:induction false} CollapseKeepsWords(s: string)
    ensures Words(Collapse(s)) == Words(s)
    decreases |s|
  {
    if s != [] {
      if IsSpace(s[0]) {
        var k := LeadingSpaces(s);
        var t := s[k..];
        CollapseKeepsWords(t);
        assert s == s[..k] + t;
        FilterAppend(s[..k], t, NotSpace);
        AllSpaceHasNoWords(s[..k]);
        assert ([' '] + Collapse(t))[1..] == Collapse(t);
      } else {
        CollapseKeepsWords(s[1..]);
        assert ([s[0]] + Collapse(s[1..]))[1..] == Collapse(s[1..]);
      }
    }
  }

  /** Normalising only drops and merges whitespace and lowers case: the
      words of the result are the case-folded words of the input. */
  lemma NormalizeKeepsWords(s: string)
    ensures Words(Normalize(s)) == Fold(Words(s))
  {
    StripKeepsWords(s);
    FoldKeepsWords(Strip(s));
    CollapseKeepsWords(Fold(Strip(s)));
  }

  lemma NormalizeExample(s: string, r: string)
    requires s == " Paid  \n" && r == "paid"
    ensures Normalize(s) == r
  {
    var a, w, b := s[..1], s[1..5], s[5..];
    assert s == a + w + b;
    assert IsSpace(b[0]) && IsSpace(b[1]) && IsSpace(b[2]);
    StripPadded(a, w, b);
    assert Fold(w) == r;
    CollapseSingleSpaced(r);
  }
}
