/** The summary figures shown under an alignment: the identical and similar
    columns counted by `buildMatchLine`, the gap columns counted in
    `alignAndShow`, and the warning raised when the two inputs differ too much
    in length. Counts are kept as integers; the percentages the page prints
    are these counts over the alignment length. */
module Statistics {
  import opened Scoring

  /** A column counts as identical when both sides hold the same symbol. */
  predicate Identical(x: char, y: char)
  {
    x == y
  }

  /** A column counts as similar when it is identical, or when neither side
      is a gap and the pair scores above zero under the default scorer (the
      one `new NeedlemanSearch()` builds). */
  predicate Similar(x: char, y: char)
  {
    x == y || (x != Gap && y != Gap && BlosumScore(x, y, DefaultGapPenalty) > 0)
  }

  /** A column counts as a gap column when either side is the gap symbol. */
  predicate GapColumn(x: char, y: char)
  {
    x == Gap || y == Gap
  }

  /** The number of columns of the aligned pair that satisfy `counts`. */
  function ColumnCount(a1: string, a2: string, counts: (char, char) -> bool): nat
    requires |a1| == |a2|
    decreases |a1|
  {
    if a1 == [] then 0
    else ColumnCount(a1[..|a1| - 1], a2[..|a2| - 1], counts) + (if counts(a1[|a1| - 1], a2[|a2| - 1]) then 1 else 0)
  }

  /** `buildMatchLine(a1, a2)`: one pass over the columns, counting identical
      columns and similar ones. */
  method BuildMatchLine(a1: string, a2: string) returns (identity: nat, similarity: nat)
    requires |a1| == |a2|
    ensures identity == ColumnCount(a1, a2, Identical)
    ensures similarity == ColumnCount(a1, a2, Similar)
    ensures identity <= similarity <= |a1|
  {
    identity, similarity := 0, 0;
    for i := 0 to |a1|
      invariant identity == ColumnCount(a1[..i], a2[..i], Identical)
      invariant similarity == ColumnCount(a1[..i], a2[..i], Similar)
    {
      assert a1[..i + 1][..i] == a1[..i] && a2[..i + 1][..i] == a2[..i];
      if a1[i] == a2[i] {
        identity, similarity := identity + 1, similarity + 1;
      } else if a1[i] != Gap && a2[i] != Gap {
        var sc := BlosumScore(a1[i], a2[i], DefaultGapPenalty);
        if sc > 0 {
          similarity := similarity + 1;
        }
      }
    }
    assert a1[..|a1|] == a1 && a2[..|a2|] == a2;
    CountsOrdered(a1, a2);
  }

  /** The gap count of `alignAndShow`: one pass over the columns, counting
      those with a gap on either side. */
  method GapColumns(a1: string, a2: string) returns (gapCount: nat)
    requires |a1| == |a2|
    ensures gapCount == ColumnCount(a1, a2, GapColumn)
    ensures gapCount <= |a1|
  {
    gapCount := 0;
    for k := 0 to |a1|
      invariant gapCount == ColumnCount(a1[..k], a2[..k], GapColumn)
    {
      assert a1[..k + 1][..k] == a1[..k] && a2[..k + 1][..k] == a2[..k];
      if a1[k] == Gap || a2[k] == Gap {
        gapCount := gapCount + 1;
      }
    }
    assert a1[..|a1|] == a1 && a2[..|a2|] == a2;
    ColumnCountBounded(a1, a2, GapColumn);
  }

  /** No count exceeds the number of columns. */
  lemma {:induction false} ColumnCountBounded(a1: string, a2: string, counts: (char, char) -> bool)
    requires |a1| == |a2|
    ensures ColumnCount(a1, a2, counts) <= |a1|
    decreases |a1|
  {
    if a1 != [] {
      ColumnCountBounded(a1[..|a1| - 1], a2[..|a2| - 1], counts);
    }
  }

  /** Every identical column is similar, and no column count exceeds the
      length. */
  lemma {:induction false} CountsOrdered(a1: string, a2: string)
    requires |a1| == |a2|
    ensures ColumnCount(a1, a2, Identical) <= ColumnCount(a1, a2, Similar) <= |a1|
    decreases |a1|
  {
    if a1 != [] {
      CountsOrdered(a1[..|a1| - 1], a2[..|a2| - 1]);
    }
  }

  /** Full identity means the two aligned strings are the same string. */
  lemma {:induction false} FullIdentityIffEqual(a1: string, a2: string)
    requires |a1| == |a2|
    ensures ColumnCount(a1, a2, Identical) == |a1| <==> a1 == a2
    decreases |a1|
  {
    if a1 != [] {
      var n := |a1| - 1;
      FullIdentityIffEqual(a1[..n], a2[..n]);
      ColumnCountBounded(a1[..n], a2[..n], Identical);
      if a1 == a2 {
        assert a1[..n] == a2[..n];
      }
      if ColumnCount(a1, a2, Identical) == |a1| {
        assert a1 == a1[..n] + [a1[n]] && a2 == a2[..n] + [a2[n]];
      }
    }
  }

  /** When no column pairs a gap with a gap (as in every alignment of gap-free
      inputs), the similar columns and the gap columns are disjoint, so
      together they number at most the length. */
  lemma {:induction false} SimilarAndGapColumnsDisjoint(a1: string, a2: string)
    requires |a1| == |a2|
    requires forall k :: 0 <= k < |a1| ==> !(a1[k] == Gap && a2[k] == Gap)
    ensures ColumnCount(a1, a2, Similar) + ColumnCount(a1, a2, GapColumn) <= |a1|
    decreases |a1|
  {
    if a1 != [] {
      var n := |a1| - 1;
      SimilarAndGapColumnsDisjoint(a1[..n], a2[..n]);
    }
  }

  /** A count splits over a concatenation of aligned pairs. */
  lemma {:induction false} ColumnCountAppend(a1: string, a2: string, b1: string, b2: string, counts: (char, char) -> bool)
    requires |a1| == |a2| && |b1| == |b2|
    ensures ColumnCount(a1 + b1, a2 + b2, counts) == ColumnCount(a1, a2, counts) + ColumnCount(b1, b2, counts)
    decreases |b1|
  {
    if b1 == [] {
      assert a1 + b1 == a1 && a2 + b2 == a2;
    } else {
      var n := |b1| - 1;
      ColumnCountAppend(a1, a2, b1[..n], b2[..n], counts);
      assert (a1 + b1)[..|a1| + n] == a1 + b1[..n];
      assert (a2 + b2)[..|a2| + n] == a2 + b2[..n];
    }
  }

  function Abs(x: int): nat
  {
    if x < 0 then -x else x
  }

  /** The length-warning expression of `alignAndShow`: shown unless
      |m - n| / max(m, n) <= 0.6. The page only evaluates it for two
      non-empty inputs, since it returns with an alert when either input is
      empty; there, two inputs of the same length never raise it. For a zero
      length the expression itself would show the warning (the ratio is 1, or
      not a number when both are zero), but the page never reaches it. */
  predicate LengthWarning(m: nat, n: nat)
    ensures m == 0 || n == 0 ==> LengthWarning(m, n)
    ensures m == n && m > 0 ==> !LengthWarning(m, n)
  {
    var longer := if m >= n then m else n;
    longer == 0 || 5 * Abs(m - n) > 3 * longer
  }

  /** The integer test agrees with the ratio the page computes. */
  lemma LengthWarningIsRatioTest(m: nat, n: nat)
    requires m > 0 || n > 0
    ensures var longer := if m >= n then m else n;
      LengthWarning(m, n) <==> (Abs(m - n) as real) / (longer as real) > 0.6
  {
    var longer := if m >= n then m else n;
    RatioAboveThreeFifths(Abs(m - n) as real, longer as real);
  }

  /** d / l > 0.6 exactly when 5 d > 3 l, for a positive l. */
  lemma RatioAboveThreeFifths(d: real, l: real)
    requires l > 0.0
    ensures d / l > 0.6 <==> 5.0 * d > 3.0 * l
  {
    var q := d / l;
    assert q * l == d;
    assert (q - 0.6) * l == q * l - 0.6 * l;
    if q > 0.6 {
      ProductPositive(q - 0.6, l);
    } else if 5.0 * d > 3.0 * l {
      ProductPositive(d / l - 0.6, l);
    }
  }

  lemma ProductPositive(x: real, y: real)
    requires y > 0.0
    ensures x > 0.0 <==> x * y > 0.0
  {
    if x <= 0.0 {
      assert x * y <= 0.0;
    }
  }

  /** The warning does not depend on the order of the inputs. */
  lemma LengthWarningSymmetric(m: nat, n: nat)
    ensures LengthWarning(m, n) == LengthWarning(n, m)
  {
  }
}
