/** `NeedlemanSearch.align`: global alignment of two sequences with the
    BLOSUM62 scorer and a linear gap penalty. The dynamic-programming matrix is
    specified by the recurrence `Cell`; an alignment is a path of steps through
    that matrix (`Step`), rendered into two gapped strings by `Render`; the
    traceback the aligner performs is the path `TracePath`, built from the
    tie-break `Choice`. The method `Align` fills a two-dimensional array and
    walks back through it as the source does, and is proved to return `Cell`
    at the corner together with the rendering of `TracePath`, which scores
    exactly `Cell` and is at least as good as every other global alignment. */
module Alignment {
  import opened Scoring

  /** The pair scorer the aligner consults, `NeedlemanSearch.blosumScore`
      bound to the search's gap penalty. */
  type Scorer = (char, char) -> int

  /** The scorer charges the gap penalty whenever one side is the gap symbol,
      as `blosumScore` does. */
  predicate ChargesGapPenalty(pairScore: Scorer, gapPenalty: int)
  {
    forall x :: pairScore(x, Gap) == gapPenalty && pairScore(Gap, x) == gapPenalty
  }

  /** The aligner's scorer for a search with the given gap penalty. */
  function Blosum(gapPenalty: int): Scorer
  {
    (a: char, b: char) => BlosumScore(a, b, gapPenalty)
  }

  lemma {:induction false} BlosumChargesGapPenalty(gapPenalty: int)
    ensures ChargesGapPenalty(Blosum(gapPenalty), gapPenalty)
  {
    forall x: char
      ensures Blosum(gapPenalty)(x, Gap) == gapPenalty && Blosum(gapPenalty)(Gap, x) == gapPenalty
    {
      GapScoresPenalty(x, gapPenalty);
    }
  }

  function Max(a: int, b: int): int
  {
    if a >= b then a else b
  }

  /** `Math.max(a, b, c)`. */
  function Max3(a: int, b: int, c: int): (r: int)
    ensures r >= a && r >= b && r >= c
    ensures r == a || r == b || r == c
  {
    Max(a, Max(b, c))
  }

  /** The penalty of k gaps in a row, accumulated one gap at a time. */
  function GapCost(k: nat, gapPenalty: int): int
  {
    if k == 0 then 0 else GapCost(k - 1, gapPenalty) + gapPenalty
  }

  /** k gaps cost k times the penalty, as the first row and column of the
      matrix are initialised. */
  lemma {:induction false} GapCostIsProduct(k: nat, gapPenalty: int)
    ensures GapCost(k, gapPenalty) == k * gapPenalty
  {
    if k > 0 {
      GapCostIsProduct(k - 1, gapPenalty);
      assert (k - 1) * gapPenalty + gapPenalty == k * gapPenalty;
    }
  }

  /** `M[i][j]`: row 0 and column 0 accumulate the gap penalty, every other
      cell is the best of the diagonal, up and left moves into it. */
  function Cell(seq1: string, seq2: string, pairScore: Scorer, gapPenalty: int, i: nat, j: nat): int
    requires i <= |seq1| && j <= |seq2|
    decreases i + j
  {
    if i == 0 then GapCost(j, gapPenalty)
    else if j == 0 then GapCost(i, gapPenalty)
    else Max3(Cell(seq1, seq2, pairScore, gapPenalty, i - 1, j - 1) + pairScore(seq1[i - 1], seq2[j - 1]),
              Cell(seq1, seq2, pairScore, gapPenalty, i - 1, j) + gapPenalty,
              Cell(seq1, seq2, pairScore, gapPenalty, i, j - 1) + gapPenalty)
  }

  /** One column of an alignment: a residue of each sequence (Diag), a
      residue of seq1 against a gap (Up), or a gap against a residue of seq2
      (Left). */
  datatype Step = Diag | Up | Left

  /** p, read column by column, aligns all of seq1[..i] with all of seq2[..j]. */
  predicate IsPath(i: nat, j: nat, p: seq<Step>)
    decreases |p|
  {
    if p == [] then i == 0 && j == 0
    else
      var q := p[..|p| - 1];
      match p[|p| - 1]
      case Diag => i > 0 && j > 0 && IsPath(i - 1, j - 1, q)
      case Up => i > 0 && IsPath(i - 1, j, q)
      case Left => j > 0 && IsPath(i, j - 1, q)
  }

  /** The score of the alignment p, column by column. */
  function PathScore(seq1: string, seq2: string, pairScore: Scorer, gapPenalty: int, i: nat, j: nat, p: seq<Step>): int
    requires i <= |seq1| && j <= |seq2| && IsPath(i, j, p)
    decreases |p|
  {
    if p == [] then 0
    else
      var q := p[..|p| - 1];
      match p[|p| - 1]
      case Diag => PathScore(seq1, seq2, pairScore, gapPenalty, i - 1, j - 1, q) + pairScore(seq1[i - 1], seq2[j - 1])
      case Up => PathScore(seq1, seq2, pairScore, gapPenalty, i - 1, j, q) + gapPenalty
      case Left => PathScore(seq1, seq2, pairScore, gapPenalty, i, j - 1, q) + gapPenalty
  }

  /** The two gapped strings that the alignment p writes out. */
  function Render(seq1: string, seq2: string, i: nat, j: nat, p: seq<Step>): (r: (string, string))
    requires i <= |seq1| && j <= |seq2| && IsPath(i, j, p)
    ensures |r.0| == |p| && |r.1| == |p|
    decreases |p|
  {
    if p == [] then ([], [])
    else
      var q := p[..|p| - 1];
      match p[|p| - 1]
      case Diag =>
        var t := Render(seq1, seq2, i - 1, j - 1, q);
        (t.0 + [seq1[i - 1]], t.1 + [seq2[j - 1]])
      case Up =>
        var t := Render(seq1, seq2, i - 1, j, q);
        (t.0 + [seq1[i - 1]], t.1 + [Gap])
      case Left =>
        var t := Render(seq1, seq2, i, j - 1, q);
        (t.0 + [Gap], t.1 + [seq2[j - 1]])
  }

  // Appending one column to a path: the longer path is valid, and what its
  // rendering and its score become.

  lemma {:induction false} DiagSnoc(seq1: string, seq2: string, i: nat, j: nat, q: seq<Step>)
    requires 0 < i <= |seq1| && 0 < j <= |seq2| && IsPath(i - 1, j - 1, q)
    ensures IsPath(i, j, q + [Diag])
    ensures var t := Render(seq1, seq2, i - 1, j - 1, q);
      Render(seq1, seq2, i, j, q + [Diag]) == (t.0 + [seq1[i - 1]], t.1 + [seq2[j - 1]])
  {
    assert (q + [Diag])[..|q|] == q;
  }

  lemma {:induction false} UpSnoc(seq1: string, seq2: string, i: nat, j: nat, q: seq<Step>)
    requires 0 < i <= |seq1| && j <= |seq2| && IsPath(i - 1, j, q)
    ensures IsPath(i, j, q + [Up])
    ensures var t := Render(seq1, seq2, i - 1, j, q);
      Render(seq1, seq2, i, j, q + [Up]) == (t.0 + [seq1[i - 1]], t.1 + [Gap])
  {
    assert (q + [Up])[..|q|] == q;
  }

  lemma {:induction false} LeftSnoc(seq1: string, seq2: string, i: nat, j: nat, q: seq<Step>)
    requires i <= |seq1| && 0 < j <= |seq2| && IsPath(i, j - 1, q)
    ensures IsPath(i, j, q + [Left])
    ensures var t := Render(seq1, seq2, i, j - 1, q);
      Render(seq1, seq2, i, j, q + [Left]) == (t.0 + [Gap], t.1 + [seq2[j - 1]])
  {
    assert (q + [Left])[..|q|] == q;
  }

  lemma {:induction false} SnocScore(seq1: string, seq2: string, pairScore: Scorer, gapPenalty: int, i: nat, j: nat, q: seq<Step>, s: Step)
    requires i <= |seq1| && j <= |seq2|
    requires s == Diag ==> 0 < i && 0 < j && IsPath(i - 1, j - 1, q)
    requires s == Up ==> 0 < i && IsPath(i - 1, j, q)
    requires s == Left ==> 0 < j && IsPath(i, j - 1, q)
    ensures IsPath(i, j, q + [s])
    ensures match s
      case Diag => PathScore(seq1, seq2, pairScore, gapPenalty, i, j, q + [s])
                == PathScore(seq1, seq2, pairScore, gapPenalty, i - 1, j - 1, q) + pairScore(seq1[i - 1], seq2[j - 1])
      case Up => PathScore(seq1, seq2, pairScore, gapPenalty, i, j, q + [s])
              == PathScore(seq1, seq2, pairScore, gapPenalty, i - 1, j, q) + gapPenalty
      case Left => (PathScore(seq1, seq2, pairScore, gapPenalty, i, j, q + [s])
                    == PathScore(seq1, seq2, pairScore, gapPenalty, i, j - 1, q) + gapPenalty)
  {
    assert (q + [s])[..|q|] == q;
  }

  /** The filled matrix the traceback consults, as a function of the cell's
      coordinates. */
  type Table = (nat, nat) -> int

  /** Cell (a, b) of the table holds the recurrence. */
  predicate FilledAt(seq1: string, seq2: string, pairScore: Scorer, gapPenalty: int, table: Table, a: nat, b: nat)
    requires a <= |seq1| && b <= |seq2|
  {
    table(a, b) == Cell(seq1, seq2, pairScore, gapPenalty, a, b)
  }

  /** Every cell of the table holds the recurrence. */
  predicate Filled(seq1: string, seq2: string, pairScore: Scorer, gapPenalty: int, table: Table)
  {
    forall a: nat, b: nat :: a <= |seq1| && b <= |seq2| ==> FilledAt(seq1, seq2, pairScore, gapPenalty, table, a, b)
  }

  /** The recurrence as a table; outside the matrix it reads 0. */
  function CellTable(seq1: string, seq2: string, pairScore: Scorer, gapPenalty: int): (t: Table)
    ensures Filled(seq1, seq2, pairScore, gapPenalty, t)
  {
    (a: nat, b: nat) => if a <= |seq1| && b <= |seq2| then Cell(seq1, seq2, pairScore, gapPenalty, a, b) else 0
  }

  /** The move the traceback takes out of cell (i, j): inside the matrix the
      diagonal when it reproduces the cell, else up when that does, else left;
      on the left column up, on the top row left. */
  function Choice(seq1: string, seq2: string, pairScore: Scorer, gapPenalty: int, table: Table, i: nat, j: nat): (s: Step)
    requires i <= |seq1| && j <= |seq2| && 0 < i + j
    ensures s == Diag ==> i > 0 && j > 0
    ensures s == Up ==> i > 0
    ensures s == Left ==> j > 0
  {
    if i > 0 && j > 0 then
      if table(i, j) == table(i - 1, j - 1) + pairScore(seq1[i - 1], seq2[j - 1]) then Diag
      else if table(i, j) == table(i - 1, j) + gapPenalty then Up
      else Left
    else if i > 0 then Up
    else Left
  }

  /** Whatever move the traceback chooses, the cell it leaves is the cell it
      moves to plus the score of that move; in particular the final `else`
      (left) never disagrees with the matrix, since the cell is the largest of
      the three moves. */
  lemma {:induction false} ChoiceAgreesWithTable(seq1: string, seq2: string, pairScore: Scorer, gapPenalty: int, table: Table, i: nat, j: nat)
    requires i <= |seq1| && j <= |seq2| && 0 < i + j
    requires Filled(seq1, seq2, pairScore, gapPenalty, table)
    ensures Choice(seq1, seq2, pairScore, gapPenalty, table, i, j) == Diag ==>
      table(i, j) == table(i - 1, j - 1) + pairScore(seq1[i - 1], seq2[j - 1])
    ensures Choice(seq1, seq2, pairScore, gapPenalty, table, i, j) == Up ==>
      table(i, j) == table(i - 1, j) + gapPenalty
    ensures Choice(seq1, seq2, pairScore, gapPenalty, table, i, j) == Left ==>
      table(i, j) == table(i, j - 1) + gapPenalty
  {
    assert FilledAt(seq1, seq2, pairScore, gapPenalty, table, i, j);
    if i > 0 {
      assert FilledAt(seq1, seq2, pairScore, gapPenalty, table, i - 1, j);
    }
    if j > 0 {
      assert FilledAt(seq1, seq2, pairScore, gapPenalty, table, i, j - 1);
    }
    if i > 0 && j > 0 {
      assert FilledAt(seq1, seq2, pairScore, gapPenalty, table, i - 1, j - 1);
    }
  }

  /** The traceback from (i, j) back to (0, 0), as a path in column order. */
  function TracePath(seq1: string, seq2: string, pairScore: Scorer, gapPenalty: int, table: Table, i: nat, j: nat): (p: seq<Step>)
    requires i <= |seq1| && j <= |seq2|
    ensures IsPath(i, j, p)
    decreases i + j
  {
    if i == 0 && j == 0 then []
    else
      match Choice(seq1, seq2, pairScore, gapPenalty, table, i, j)
      case Diag =>
        var q := TracePath(seq1, seq2, pairScore, gapPenalty, table, i - 1, j - 1);
        assert (q + [Diag])[..|q|] == q;
        q + [Diag]
      case Up =>
        var q := TracePath(seq1, seq2, pairScore, gapPenalty, table, i - 1, j);
        assert (q + [Up])[..|q|] == q;
        q + [Up]
      case Left =>
        var q := TracePath(seq1, seq2, pairScore, gapPenalty, table, i, j - 1);
        assert (q + [Left])[..|q|] == q;
        q + [Left]
  }

  /** The aligned pair the traceback from (i, j) writes out: the traceback
      path, rendered. */
  function Trace(seq1: string, seq2: string, pairScore: Scorer, gapPenalty: int, table: Table, i: nat, j: nat): (string, string)
    requires i <= |seq1| && j <= |seq2|
  {
    Render(seq1, seq2, i, j, TracePath(seq1, seq2, pairScore, gapPenalty, table, i, j))
  }

  // One step of the traceback as the loops of `Align` take it: the move the
  // matrix comparison selects puts one more column in front of what the rest
  // of the walk builds.

  lemma {:induction false} TraceDiagStep(seq1: string, seq2: string, pairScore: Scorer, gapPenalty: int, table: Table, i: nat, j: nat, a1: string, a2: string)
    requires 0 < i <= |seq1| && 0 < j <= |seq2|
    requires table(i, j)
          == table(i - 1, j - 1) + pairScore(seq1[i - 1], seq2[j - 1])
    ensures var t, u := Trace(seq1, seq2, pairScore, gapPenalty, table, i, j), Trace(seq1, seq2, pairScore, gapPenalty, table, i - 1, j - 1);
      (t.0 + a1, t.1 + a2) == (u.0 + ([seq1[i - 1]] + a1), u.1 + ([seq2[j - 1]] + a2))
  {
    assert Choice(seq1, seq2, pairScore, gapPenalty, table, i, j) == Diag;
    var q := TracePath(seq1, seq2, pairScore, gapPenalty, table, i - 1, j - 1);
    assert TracePath(seq1, seq2, pairScore, gapPenalty, table, i, j) == q + [Diag];
    DiagSnoc(seq1, seq2, i, j, q);
    var u := Trace(seq1, seq2, pairScore, gapPenalty, table, i - 1, j - 1);
    assert (u.0 + [seq1[i - 1]]) + a1 == u.0 + ([seq1[i - 1]] + a1);
    assert (u.1 + [seq2[j - 1]]) + a2 == u.1 + ([seq2[j - 1]] + a2);
  }

  lemma {:induction false} TraceUpStep(seq1: string, seq2: string, pairScore: Scorer, gapPenalty: int, table: Table, i: nat, j: nat, a1: string, a2: string)
    requires 0 < i <= |seq1| && j <= |seq2|
    requires j > 0 ==>
      && table(i, j)
         != table(i - 1, j - 1) + pairScore(seq1[i - 1], seq2[j - 1])
      && table(i, j) == table(i - 1, j) + gapPenalty
    ensures var t, u := Trace(seq1, seq2, pairScore, gapPenalty, table, i, j), Trace(seq1, seq2, pairScore, gapPenalty, table, i - 1, j);
      (t.0 + a1, t.1 + a2) == (u.0 + ([seq1[i - 1]] + a1), u.1 + ([Gap] + a2))
  {
    assert Choice(seq1, seq2, pairScore, gapPenalty, table, i, j) == Up;
    var q := TracePath(seq1, seq2, pairScore, gapPenalty, table, i - 1, j);
    assert TracePath(seq1, seq2, pairScore, gapPenalty, table, i, j) == q + [Up];
    UpSnoc(seq1, seq2, i, j, q);
    var u := Trace(seq1, seq2, pairScore, gapPenalty, table, i - 1, j);
    assert (u.0 + [seq1[i - 1]]) + a1 == u.0 + ([seq1[i - 1]] + a1);
    assert (u.1 + [Gap]) + a2 == u.1 + ([Gap] + a2);
  }

  lemma {:induction false} TraceLeftStep(seq1: string, seq2: string, pairScore: Scorer, gapPenalty: int, table: Table, i: nat, j: nat, a1: string, a2: string)
    requires i <= |seq1| && 0 < j <= |seq2|
    requires i > 0 ==>
      && table(i, j)
         != table(i - 1, j - 1) + pairScore(seq1[i - 1], seq2[j - 1])
      && table(i, j) != table(i - 1, j) + gapPenalty
    ensures var t, u := Trace(seq1, seq2, pairScore, gapPenalty, table, i, j), Trace(seq1, seq2, pairScore, gapPenalty, table, i, j - 1);
      (t.0 + a1, t.1 + a2) == (u.0 + ([Gap] + a1), u.1 + ([seq2[j - 1]] + a2))
  {
    assert Choice(seq1, seq2, pairScore, gapPenalty, table, i, j) == Left;
    var q := TracePath(seq1, seq2, pairScore, gapPenalty, table, i, j - 1);
    assert TracePath(seq1, seq2, pairScore, gapPenalty, table, i, j) == q + [Left];
    LeftSnoc(seq1, seq2, i, j, q);
    var u := Trace(seq1, seq2, pairScore, gapPenalty, table, i, j - 1);
    assert (u.0 + [Gap]) + a1 == u.0 + ([Gap] + a1);
    assert (u.1 + [seq2[j - 1]]) + a2 == u.1 + ([seq2[j - 1]] + a2);
  }

  /** The traceback as `align` runs it: from (i, j) back to the origin, each
      move putting one more column in front of the strings built so far. */
  function Walk(seq1: string, seq2: string, pairScore: Scorer, gapPenalty: int, table: Table, i: nat, j: nat, a1: string, a2: string): (string, string)
    requires i <= |seq1| && j <= |seq2|
    decreases i + j
  {
    if i == 0 && j == 0 then (a1, a2)
    else
      match Choice(seq1, seq2, pairScore, gapPenalty, table, i, j)
      case Diag => Walk(seq1, seq2, pairScore, gapPenalty, table, i - 1, j - 1, [seq1[i - 1]] + a1, [seq2[j - 1]] + a2)
      case Up => Walk(seq1, seq2, pairScore, gapPenalty, table, i - 1, j, [seq1[i - 1]] + a1, [Gap] + a2)
      case Left => Walk(seq1, seq2, pairScore, gapPenalty, table, i, j - 1, [Gap] + a1, [seq2[j - 1]] + a2)
  }

  // Walking back one move at a time: the walk from the cell the move leads
  // back to puts that cell's pair in front, and one more column joins it.

  lemma {:induction false} WalkDiag(seq1: string, seq2: string, pairScore: Scorer, gapPenalty: int, table: Table, i: nat, j: nat, a1: string, a2: string)
    requires 0 < i <= |seq1| && 0 < j <= |seq2|
    requires Choice(seq1, seq2, pairScore, gapPenalty, table, i, j) == Diag
    ensures var t := Trace(seq1, seq2, pairScore, gapPenalty, table, i, j);
      Walk(seq1, seq2, pairScore, gapPenalty, table, i, j, a1, a2) == (t.0 + a1, t.1 + a2)
    decreases i + j, 0
  {
    WalkIsTrace(seq1, seq2, pairScore, gapPenalty, table, i - 1, j - 1, [seq1[i - 1]] + a1, [seq2[j - 1]] + a2);
    TraceDiagStep(seq1, seq2, pairScore, gapPenalty, table, i, j, a1, a2);
  }

  lemma {:induction false} WalkUp(seq1: string, seq2: string, pairScore: Scorer, gapPenalty: int, table: Table, i: nat, j: nat, a1: string, a2: string)
    requires 0 < i <= |seq1| && j <= |seq2|
    requires Choice(seq1, seq2, pairScore, gapPenalty, table, i, j) == Up
    ensures var t := Trace(seq1, seq2, pairScore, gapPenalty, table, i, j);
      Walk(seq1, seq2, pairScore, gapPenalty, table, i, j, a1, a2) == (t.0 + a1, t.1 + a2)
    decreases i + j, 0
  {
    WalkIsTrace(seq1, seq2, pairScore, gapPenalty, table, i - 1, j, [seq1[i - 1]] + a1, [Gap] + a2);
    TraceUpStep(seq1, seq2, pairScore, gapPenalty, table, i, j, a1, a2);
  }

  lemma {:induction false} WalkLeft(seq1: string, seq2: string, pairScore: Scorer, gapPenalty: int, table: Table, i: nat, j: nat, a1: string, a2: string)
    requires i <= |seq1| && 0 < j <= |seq2|
    requires Choice(seq1, seq2, pairScore, gapPenalty, table, i, j) == Left
    ensures var t := Trace(seq1, seq2, pairScore, gapPenalty, table, i, j);
      Walk(seq1, seq2, pairScore, gapPenalty, table, i, j, a1, a2) == (t.0 + a1, t.1 + a2)
    decreases i + j, 0
  {
    WalkIsTrace(seq1, seq2, pairScore, gapPenalty, table, i, j - 1, [Gap] + a1, [seq2[j - 1]] + a2);
    TraceLeftStep(seq1, seq2, pairScore, gapPenalty, table, i, j, a1, a2);
  }

  /** Walking back from (i, j) puts the traceback's pair for (i, j) in front
      of what was built so far. */
  lemma {:induction false} WalkIsTrace(seq1: string, seq2: string, pairScore: Scorer, gapPenalty: int, table: Table, i: nat, j: nat, a1: string, a2: string)
    requires i <= |seq1| && j <= |seq2|
    ensures var t := Trace(seq1, seq2, pairScore, gapPenalty, table, i, j);
      Walk(seq1, seq2, pairScore, gapPenalty, table, i, j, a1, a2) == (t.0 + a1, t.1 + a2)
    decreases i + j, 1
  {
    if i == 0 && j == 0 {
      assert Trace(seq1, seq2, pairScore, gapPenalty, table, 0, 0) == ([], []);
      assert [] + a1 == a1 && [] + a2 == a2;
    } else {
      var s := Choice(seq1, seq2, pairScore, gapPenalty, table, i, j);
      if s == Diag {
        WalkDiag(seq1, seq2, pairScore, gapPenalty, table, i, j, a1, a2);
      } else if s == Up {
        WalkUp(seq1, seq2, pairScore, gapPenalty, table, i, j, a1, a2);
      } else {
        WalkLeft(seq1, seq2, pairScore, gapPenalty, table, i, j, a1, a2);
      }
    }
  }

  /** The sum over the columns of an aligned pair of the pair score; a column
      with a gap scores the gap penalty. */
  function ColumnsScore(a1: string, a2: string, pairScore: Scorer): int
    requires |a1| == |a2|
    decreases |a1|
  {
    if a1 == [] then 0
    else ColumnsScore(a1[..|a1| - 1], a2[..|a2| - 1], pairScore) + pairScore(a1[|a1| - 1], a2[|a2| - 1])
  }

  /** A global alignment of seq1[..i] with seq2[..j] has at least max(i, j)
      and at most i + j columns: every column uses up a residue of one
      sequence or of both. */
  lemma {:induction false} PathLength(i: nat, j: nat, p: seq<Step>)
    requires IsPath(i, j, p)
    ensures Max(i, j) <= |p| <= i + j
    decreases |p|
  {
    if p != [] {
      var q := p[..|p| - 1];
      match p[|p| - 1]
      case Diag => PathLength(i - 1, j - 1, q);
      case Up => PathLength(i - 1, j, q);
      case Left => PathLength(i, j - 1, q);
    }
  }

  /** No global alignment scores more than the matrix cell: `M[i][j]` is an
      upper bound over all of them. */
  lemma {:induction false} CellIsUpperBound(seq1: string, seq2: string, pairScore: Scorer, gapPenalty: int, i: nat, j: nat, p: seq<Step>)
    requires i <= |seq1| && j <= |seq2| && IsPath(i, j, p)
    ensures PathScore(seq1, seq2, pairScore, gapPenalty, i, j, p) <= Cell(seq1, seq2, pairScore, gapPenalty, i, j)
    decreases |p|
  {
    if p != [] {
      var q := p[..|p| - 1];
      match p[|p| - 1]
      case Diag =>
        CellIsUpperBound(seq1, seq2, pairScore, gapPenalty, i - 1, j - 1, q);
      case Up =>
        CellIsUpperBound(seq1, seq2, pairScore, gapPenalty, i - 1, j, q);
      case Left =>
        CellIsUpperBound(seq1, seq2, pairScore, gapPenalty, i, j - 1, q);
    }
  }

  /** The traceback path out of (i, j) scores exactly the table's cell. */
  predicate TraceScoresCell(seq1: string, seq2: string, pairScore: Scorer, gapPenalty: int, table: Table, i: nat, j: nat)
    requires i <= |seq1| && j <= |seq2|
  {
    PathScore(seq1, seq2, pairScore, gapPenalty, i, j, TracePath(seq1, seq2, pairScore, gapPenalty, table, i, j)) == table(i, j)
  }

  // The traceback step by step: the path into the cell the move leads back
  // to scores that cell, so the path into (i, j) scores (i, j).

  lemma {:induction false} TraceDiagScore(seq1: string, seq2: string, pairScore: Scorer, gapPenalty: int, table: Table, i: nat, j: nat)
    requires 0 < i <= |seq1| && 0 < j <= |seq2|
    requires Choice(seq1, seq2, pairScore, gapPenalty, table, i, j) == Diag
    requires TraceScoresCell(seq1, seq2, pairScore, gapPenalty, table, i - 1, j - 1)
    ensures TraceScoresCell(seq1, seq2, pairScore, gapPenalty, table, i, j)
  {
    var q := TracePath(seq1, seq2, pairScore, gapPenalty, table, i - 1, j - 1);
    assert TracePath(seq1, seq2, pairScore, gapPenalty, table, i, j) == q + [Diag];
    SnocScore(seq1, seq2, pairScore, gapPenalty, i, j, q, Diag);
  }

  lemma {:induction false} TraceUpScore(seq1: string, seq2: string, pairScore: Scorer, gapPenalty: int, table: Table, i: nat, j: nat)
    requires 0 < i <= |seq1| && j <= |seq2|
    requires Filled(seq1, seq2, pairScore, gapPenalty, table)
    requires Choice(seq1, seq2, pairScore, gapPenalty, table, i, j) == Up
    requires TraceScoresCell(seq1, seq2, pairScore, gapPenalty, table, i - 1, j)
    ensures TraceScoresCell(seq1, seq2, pairScore, gapPenalty, table, i, j)
  {
    ChoiceAgreesWithTable(seq1, seq2, pairScore, gapPenalty, table, i, j);
    var q := TracePath(seq1, seq2, pairScore, gapPenalty, table, i - 1, j);
    assert TracePath(seq1, seq2, pairScore, gapPenalty, table, i, j) == q + [Up];
    SnocScore(seq1, seq2, pairScore, gapPenalty, i, j, q, Up);
  }

  lemma {:induction false} TraceLeftScore(seq1: string, seq2: string, pairScore: Scorer, gapPenalty: int, table: Table, i: nat, j: nat)
    requires i <= |seq1| && 0 < j <= |seq2|
    requires Filled(seq1, seq2, pairScore, gapPenalty, table)
    requires Choice(seq1, seq2, pairScore, gapPenalty, table, i, j) == Left
    requires TraceScoresCell(seq1, seq2, pairScore, gapPenalty, table, i, j - 1)
    ensures TraceScoresCell(seq1, seq2, pairScore, gapPenalty, table, i, j)
  {
    ChoiceAgreesWithTable(seq1, seq2, pairScore, gapPenalty, table, i, j);
    var q := TracePath(seq1, seq2, pairScore, gapPenalty, table, i, j - 1);
    assert TracePath(seq1, seq2, pairScore, gapPenalty, table, i, j) == q + [Left];
    SnocScore(seq1, seq2, pairScore, gapPenalty, i, j, q, Left);
  }

  /** The traceback path reaches the bound: it scores exactly the cell it
      starts from. */
  lemma {:induction false} TracePathScore(seq1: string, seq2: string, pairScore: Scorer, gapPenalty: int, table: Table, i: nat, j: nat)
    requires Filled(seq1, seq2, pairScore, gapPenalty, table)
    requires i <= |seq1| && j <= |seq2|
    ensures TraceScoresCell(seq1, seq2, pairScore, gapPenalty, table, i, j)
    decreases i + j
  {
    if 0 < i + j {
      var s := Choice(seq1, seq2, pairScore, gapPenalty, table, i, j);
      if s == Diag {
        TracePathScore(seq1, seq2, pairScore, gapPenalty, table, i - 1, j - 1);
        TraceDiagScore(seq1, seq2, pairScore, gapPenalty, table, i, j);
      } else if s == Up {
        TracePathScore(seq1, seq2, pairScore, gapPenalty, table, i - 1, j);
        TraceUpScore(seq1, seq2, pairScore, gapPenalty, table, i, j);
      } else {
        TracePathScore(seq1, seq2, pairScore, gapPenalty, table, i, j - 1);
        TraceLeftScore(seq1, seq2, pairScore, gapPenalty, table, i, j);
      }
    } else {
      assert FilledAt(seq1, seq2, pairScore, gapPenalty, table, 0, 0);
    }
  }

  /** Scoring the rendering of path p column by column gives the score of
      the path. */
  predicate RenderScoresPath(seq1: string, seq2: string, pairScore: Scorer, gapPenalty: int, i: nat, j: nat, p: seq<Step>)
    requires i <= |seq1| && j <= |seq2| && IsPath(i, j, p)
  {
    var r := Render(seq1, seq2, i, j, p);
    ColumnsScore(r.0, r.1, pairScore) == PathScore(seq1, seq2, pairScore, gapPenalty, i, j, p)
  }

  /** Scoring the rendered strings column by column gives the score of the
      path, for a scorer that charges the gap penalty against the gap symbol. */
  lemma {:induction false} RenderScore(seq1: string, seq2: string, pairScore: Scorer, gapPenalty: int, i: nat, j: nat, p: seq<Step>)
    requires i <= |seq1| && j <= |seq2| && IsPath(i, j, p)
    requires ChargesGapPenalty(pairScore, gapPenalty)
    ensures RenderScoresPath(seq1, seq2, pairScore, gapPenalty, i, j, p)
    decreases |p|
  {
    if p != [] {
      var q := p[..|p| - 1];
      var r := Render(seq1, seq2, i, j, p);
      var n := |p| - 1;
      match p[n]
      case Diag =>
        RenderScore(seq1, seq2, pairScore, gapPenalty, i - 1, j - 1, q);
        var t := Render(seq1, seq2, i - 1, j - 1, q);
        assert r.0[..n] == t.0 && r.1[..n] == t.1;
      case Up =>
        RenderScore(seq1, seq2, pairScore, gapPenalty, i - 1, j, q);
        var t := Render(seq1, seq2, i - 1, j, q);
        assert r.0[..n] == t.0 && r.1[..n] == t.1;
      case Left =>
        RenderScore(seq1, seq2, pairScore, gapPenalty, i, j - 1, q);
        var t := Render(seq1, seq2, i, j - 1, q);
        assert r.0[..n] == t.0 && r.1[..n] == t.1;
    }
  }

  /** The string s with every gap symbol deleted. */
  function RemoveGaps(s: string): (r: string)
    ensures Gap !in r
    ensures |r| <= |s|
    decreases |s|
  {
    if s == [] then []
    else RemoveGaps(s[..|s| - 1]) + (if s[|s| - 1] == Gap then [] else [s[|s| - 1]])
  }

  lemma {:induction false} RemoveGapsSnoc(s: string, c: char)
    ensures RemoveGaps(s + [c]) == RemoveGaps(s) + (if c == Gap then [] else [c])
  {
    assert (s + [c])[..|s|] == s;
  }

  /** No column of the pair holds a gap on both sides. */
  predicate NoGapGapColumn(a1: string, a2: string)
    requires |a1| == |a2|
  {
    forall k :: 0 <= k < |a1| ==> !(a1[k] == Gap && a2[k] == Gap)
  }

  /** The pair r aligns all of seq1[..i] with all of seq2[..j]: no column
      pairs a gap with a gap, and deleting the gaps from either side gives
      back that prefix. */
  predicate Recovers(seq1: string, seq2: string, i: nat, j: nat, r: (string, string))
    requires i <= |seq1| && j <= |seq2|
  {
    && |r.0| == |r.1|
    && NoGapGapColumn(r.0, r.1)
    && RemoveGaps(r.0) == seq1[..i]
    && RemoveGaps(r.1) == seq2[..j]
  }

  /** Appending the column (x, y), at most one of them a gap, keeps a pair
      free of gap-gap columns. */
  lemma {:induction false} NoGapGapSnoc(a1: string, a2: string, x: char, y: char)
    requires |a1| == |a2| && NoGapGapColumn(a1, a2)
    requires x != Gap || y != Gap
    ensures NoGapGapColumn(a1 + [x], a2 + [y])
  {
    forall k | 0 <= k < |a1| + 1
      ensures !((a1 + [x])[k] == Gap && (a2 + [y])[k] == Gap)
    {
      if k < |a1| {
        assert (a1 + [x])[k] == a1[k] && (a2 + [y])[k] == a2[k];
      }
    }
  }

  lemma {:induction false} PrefixSnoc(s: string, k: nat)
    requires 0 < k <= |s|
    ensures s[..k] == s[..k - 1] + [s[k - 1]]
  {
  }

  /** Appending a gap leaves the gap-free side unchanged; appending the next
      residue of s extends it by one. */
  lemma RemoveGapsExtends(s: string, a: string, k: nat, x: char)
    requires k <= |s| && RemoveGaps(a) == s[..k]
    requires x == Gap || (k < |s| && x == s[k])
    ensures RemoveGaps(a + [x]) == s[..if x == Gap then k else k + 1]
  {
    RemoveGapsSnoc(a, x);
    if x != Gap {
      PrefixSnoc(s, k + 1);
    }
  }

  /** One more column, at most one side of it a gap and each residue the next
      one of its input: a pair t that recovers seq1[..i] and seq2[..j] becomes
      a pair r that recovers the prefixes one residue longer on each side the
      column consumes. */
  lemma RecoversSnoc(seq1: string, seq2: string, i: nat, j: nat, t: (string, string), x: char, y: char, i': nat, j': nat, r: (string, string))
    requires i <= |seq1| && j <= |seq2| && Recovers(seq1, seq2, i, j, t)
    requires x != Gap || y != Gap
    requires x == Gap ==> i' == i
    requires x != Gap ==> i' == i + 1 <= |seq1| && x == seq1[i]
    requires y == Gap ==> j' == j
    requires y != Gap ==> j' == j + 1 <= |seq2| && y == seq2[j]
    requires r == (t.0 + [x], t.1 + [y])
    ensures Recovers(seq1, seq2, i', j', r)
  {
    NoGapGapSnoc(t.0, t.1, x, y);
    RemoveGapsExtends(seq1, t.0, i, x);
    RemoveGapsExtends(seq2, t.1, j, y);
  }

  // One more column on a path of gap-free inputs: the rendering of the
  // shorter path recovers the shorter prefixes, and the new column takes one
  // more residue from the side (or sides) it consumes, so the longer
  // rendering recovers the longer prefixes.

  lemma {:induction false} RenderRecoversDiag(seq1: string, seq2: string, i: nat, j: nat, q: seq<Step>)
    requires 0 < i <= |seq1| && 0 < j <= |seq2| && IsPath(i - 1, j - 1, q)
    requires Gap !in seq1 && Gap !in seq2
    ensures IsPath(i, j, q + [Diag]) && Recovers(seq1, seq2, i, j, Render(seq1, seq2, i, j, q + [Diag]))
    decreases |q| + 1, 0
  {
    RenderRecoversInputs(seq1, seq2, i - 1, j - 1, q);
    DiagSnoc(seq1, seq2, i, j, q);
    var u := Render(seq1, seq2, i - 1, j - 1, q);
    assert seq1[i - 1] in seq1 && seq2[j - 1] in seq2;
    assert seq1[i - 1] != Gap && seq2[j - 1] != Gap;
    RecoversSnoc(seq1, seq2, i - 1, j - 1, u, seq1[i - 1], seq2[j - 1], i, j, Render(seq1, seq2, i, j, q + [Diag]));
  }

  lemma {:induction false} RenderRecoversUp(seq1: string, seq2: string, i: nat, j: nat, q: seq<Step>)
    requires 0 < i <= |seq1| && j <= |seq2| && IsPath(i - 1, j, q)
    requires Gap !in seq1 && Gap !in seq2
    ensures IsPath(i, j, q + [Up]) && Recovers(seq1, seq2, i, j, Render(seq1, seq2, i, j, q + [Up]))
    decreases |q| + 1, 0
  {
    RenderRecoversInputs(seq1, seq2, i - 1, j, q);
    UpSnoc(seq1, seq2, i, j, q);
    var u := Render(seq1, seq2, i - 1, j, q);
    assert seq1[i - 1] in seq1;
    assert seq1[i - 1] != Gap;
    RecoversSnoc(seq1, seq2, i - 1, j, u, seq1[i - 1], Gap, i, j, Render(seq1, seq2, i, j, q + [Up]));
  }

  lemma {:induction false} RenderRecoversLeft(seq1: string, seq2: string, i: nat, j: nat, q: seq<Step>)
    requires i <= |seq1| && 0 < j <= |seq2| && IsPath(i, j - 1, q)
    requires Gap !in seq1 && Gap !in seq2
    ensures IsPath(i, j, q + [Left]) && Recovers(seq1, seq2, i, j, Render(seq1, seq2, i, j, q + [Left]))
    decreases |q| + 1, 0
  {
    RenderRecoversInputs(seq1, seq2, i, j - 1, q);
    LeftSnoc(seq1, seq2, i, j, q);
    var u := Render(seq1, seq2, i, j - 1, q);
    assert seq2[j - 1] in seq2;
    assert seq2[j - 1] != Gap;
    RecoversSnoc(seq1, seq2, i, j - 1, u, Gap, seq2[j - 1], i, j, Render(seq1, seq2, i, j, q + [Left]));
  }

  /** For inputs without the gap symbol, an alignment never pairs a gap with
      a gap, and deleting the gaps from either side gives back that input. */
  lemma {:induction false} RenderRecoversInputs(seq1: string, seq2: string, i: nat, j: nat, p: seq<Step>)
    requires i <= |seq1| && j <= |seq2| && IsPath(i, j, p)
    requires Gap !in seq1 && Gap !in seq2
    ensures Recovers(seq1, seq2, i, j, Render(seq1, seq2, i, j, p))
    decreases |p|, 1
  {
    if p != [] {
      var q := p[..|p| - 1];
      assert p == q + [p[|p| - 1]];
      match p[|p| - 1]
      case Diag => RenderRecoversDiag(seq1, seq2, i, j, q);
      case Up => RenderRecoversUp(seq1, seq2, i, j, q);
      case Left => RenderRecoversLeft(seq1, seq2, i, j, q);
    }
  }

  /** An interior cell from its three neighbours, as the filling loop
      computes it. */
  lemma {:induction false} CellRecurrence(seq1: string, seq2: string, pairScore: Scorer, gapPenalty: int, i: nat, j: nat, d: int, u: int, l: int)
    requires 0 < i <= |seq1| && 0 < j <= |seq2|
    requires d == Cell(seq1, seq2, pairScore, gapPenalty, i - 1, j - 1)
    requires u == Cell(seq1, seq2, pairScore, gapPenalty, i - 1, j)
    requires l == Cell(seq1, seq2, pairScore, gapPenalty, i, j - 1)
    ensures Cell(seq1, seq2, pairScore, gapPenalty, i, j) == Max3(d + pairScore(seq1[i - 1], seq2[j - 1]), u + gapPenalty, l + gapPenalty)
  {
  }

  /** The matrix-filling half of `align`: a fresh (m+1)x(n+1) array holding
      the recurrence in every cell. */
  method FillMatrix(seq1: string, seq2: string, pairScore: Scorer, gapPenalty: int) returns (M: array2<int>)
    ensures fresh(M)
    ensures M.Length0 == |seq1| + 1 && M.Length1 == |seq2| + 1
    ensures forall a, b :: 0 <= a <= |seq1| && 0 <= b <= |seq2| ==> M[a, b] == Cell(seq1, seq2, pairScore, gapPenalty, a, b)
  {
    var m, n := |seq1|, |seq2|;
    M := new int[m + 1, n + 1];
    for i := 0 to m + 1
      invariant forall a, b {:trigger M[a, b]} :: 0 <= a < i && b == 0 ==>
        M[a, b] == Cell(seq1, seq2, pairScore, gapPenalty, a, b)
    {
      GapCostIsProduct(i, gapPenalty);
      M[i, 0] := i * gapPenalty;
    }
    for j := 0 to n + 1
      invariant forall a, b {:trigger M[a, b]} :: 0 <= a <= m && 0 <= b <= n && (b == 0 || (a == 0 && b < j)) ==>
        M[a, b] == Cell(seq1, seq2, pairScore, gapPenalty, a, b)
    {
      GapCostIsProduct(j, gapPenalty);
      M[0, j] := j * gapPenalty;
    }
    for i := 1 to m + 1
      invariant forall a, b {:trigger M[a, b]} :: 0 <= a <= m && 0 <= b <= n && (a < i || b == 0) ==>
        M[a, b] == Cell(seq1, seq2, pairScore, gapPenalty, a, b)
    {
      FillRow(seq1, seq2, pairScore, gapPenalty, M, i);
    }
  }

  /** One pass of the inner loop of the filling: row i from column 1 on, each
      cell the best of the diagonal, up and left moves into it. The rows below
      row i are left as they were. */
  method FillRow(seq1: string, seq2: string, pairScore: Scorer, gapPenalty: int, M: array2<int>, i: nat)
    requires M.Length0 == |seq1| + 1 && M.Length1 == |seq2| + 1 && 0 < i <= |seq1|
    requires forall a, b {:trigger M[a, b]} :: 0 <= a <= |seq1| && 0 <= b <= |seq2| && (a < i || b == 0) ==>
      M[a, b] == Cell(seq1, seq2, pairScore, gapPenalty, a, b)
    modifies M
    ensures forall a, b {:trigger M[a, b]} :: 0 <= a <= |seq1| && 0 <= b <= |seq2| && (a <= i || b == 0) ==>
      M[a, b] == Cell(seq1, seq2, pairScore, gapPenalty, a, b)
    ensures forall a, b {:trigger M[a, b]} :: i < a <= |seq1| && 0 <= b <= |seq2| ==> M[a, b] == old(M[a, b])
  {
    var n := |seq2|;
    for j := 1 to n + 1
      invariant forall a, b {:trigger M[a, b]} :: 0 <= a <= |seq1| && 0 <= b <= n && (a < i || (a == i && b < j) || b == 0) ==>
        M[a, b] == Cell(seq1, seq2, pairScore, gapPenalty, a, b)
      invariant forall a, b {:trigger M[a, b]} :: i < a <= |seq1| && 0 <= b <= n ==> M[a, b] == old(M[a, b])
    {
      var diag := M[i - 1, j - 1] + pairScore(seq1[i - 1], seq2[j - 1]);
      var up := M[i - 1, j] + gapPenalty;
      var left := M[i, j - 1] + gapPenalty;
      CellRecurrence(seq1, seq2, pairScore, gapPenalty, i, j, M[i - 1, j - 1], M[i - 1, j], M[i, j - 1]);
      M[i, j] := Max3(diag, up, left);
    }
  }

  /** What the traceback from the corner achieves: an aligned pair of equal
      lengths between max(m, n) and m + n whose path scores exactly the
      corner cell, whose columns sum to that score, and which no global
      alignment beats. */
  lemma {:induction false} TraceIsOptimal(seq1: string, seq2: string, pairScore: Scorer, gapPenalty: int)
    ensures var t := Trace(seq1, seq2, pairScore, gapPenalty, CellTable(seq1, seq2, pairScore, gapPenalty), |seq1|, |seq2|);
      && |t.0| == |t.1|
      && Max(|seq1|, |seq2|) <= |t.0| <= |seq1| + |seq2|
      && (ChargesGapPenalty(pairScore, gapPenalty) ==> ColumnsScore(t.0, t.1, pairScore) == Cell(seq1, seq2, pairScore, gapPenalty, |seq1|, |seq2|))
    ensures PathScore(seq1, seq2, pairScore, gapPenalty, |seq1|, |seq2|, TracePath(seq1, seq2, pairScore, gapPenalty, CellTable(seq1, seq2, pairScore, gapPenalty), |seq1|, |seq2|))
         == Cell(seq1, seq2, pairScore, gapPenalty, |seq1|, |seq2|)
    ensures forall p :: IsPath(|seq1|, |seq2|, p) ==>
      PathScore(seq1, seq2, pairScore, gapPenalty, |seq1|, |seq2|, p) <= Cell(seq1, seq2, pairScore, gapPenalty, |seq1|, |seq2|)
    ensures Gap !in seq1 && Gap !in seq2 ==>
      Recovers(seq1, seq2, |seq1|, |seq2|, Trace(seq1, seq2, pairScore, gapPenalty, CellTable(seq1, seq2, pairScore, gapPenalty), |seq1|, |seq2|))
  {
    var m, n := |seq1|, |seq2|;
    var table := CellTable(seq1, seq2, pairScore, gapPenalty);
    var path := TracePath(seq1, seq2, pairScore, gapPenalty, table, m, n);
    PathLength(m, n, path);
    TracePathScore(seq1, seq2, pairScore, gapPenalty, table, m, n);
    assert FilledAt(seq1, seq2, pairScore, gapPenalty, table, m, n);
    if ChargesGapPenalty(pairScore, gapPenalty) {
      RenderScore(seq1, seq2, pairScore, gapPenalty, m, n, path);
    }
    forall p | IsPath(m, n, p)
      ensures PathScore(seq1, seq2, pairScore, gapPenalty, m, n, p) <= Cell(seq1, seq2, pairScore, gapPenalty, m, n)
    {
      CellIsUpperBound(seq1, seq2, pairScore, gapPenalty, m, n, p);
    }
    if Gap !in seq1 && Gap !in seq2 {
      RenderRecoversInputs(seq1, seq2, m, n, path);
    }
  }

  /** A run of k gap symbols. */
  function Gaps(k: nat): (r: string)
    ensures |r| == k
  {
    seq(k, _ => Gap)
  }

  /** On the top row the traceback only moves left: the first j residues of
      seq2 against gaps. */
  lemma {:induction false} TraceTopRow(seq1: string, seq2: string, pairScore: Scorer, gapPenalty: int, table: Table, j: nat)
    requires j <= |seq2|
    ensures Trace(seq1, seq2, pairScore, gapPenalty, table, 0, j) == (Gaps(j), seq2[..j])
    decreases j
  {
    if j > 0 {
      TraceTopRow(seq1, seq2, pairScore, gapPenalty, table, j - 1);
      assert Choice(seq1, seq2, pairScore, gapPenalty, table, 0, j) == Left;
      assert Gaps(j) == Gaps(j - 1) + [Gap];
      PrefixSnoc(seq2, j);
    }
  }

  /** In the left column the traceback only moves up: the first i residues of
      seq1 against gaps. */
  lemma {:induction false} TraceLeftColumn(seq1: string, seq2: string, pairScore: Scorer, gapPenalty: int, table: Table, i: nat)
    requires i <= |seq1|
    ensures Trace(seq1, seq2, pairScore, gapPenalty, table, i, 0) == (seq1[..i], Gaps(i))
    decreases i
  {
    if i > 0 {
      TraceLeftColumn(seq1, seq2, pairScore, gapPenalty, table, i - 1);
      assert Choice(seq1, seq2, pairScore, gapPenalty, table, i, 0) == Up;
      assert Gaps(i) == Gaps(i - 1) + [Gap];
      PrefixSnoc(seq1, i);
    }
  }

  /** When one input is empty, the alignment is the other input against a run
      of gaps, scoring its length times the gap penalty. */
  lemma {:induction false} EmptyInputAlignment(seq1: string, seq2: string, pairScore: Scorer, gapPenalty: int)
    ensures seq1 == [] ==>
      && Trace(seq1, seq2, pairScore, gapPenalty, CellTable(seq1, seq2, pairScore, gapPenalty), 0, |seq2|) == (Gaps(|seq2|), seq2)
      && Cell(seq1, seq2, pairScore, gapPenalty, 0, |seq2|) == |seq2| * gapPenalty
    ensures seq2 == [] ==>
      && Trace(seq1, seq2, pairScore, gapPenalty, CellTable(seq1, seq2, pairScore, gapPenalty), |seq1|, 0) == (seq1, Gaps(|seq1|))
      && Cell(seq1, seq2, pairScore, gapPenalty, |seq1|, 0) == |seq1| * gapPenalty
  {
    var table := CellTable(seq1, seq2, pairScore, gapPenalty);
    TraceTopRow(seq1, seq2, pairScore, gapPenalty, table, |seq2|);
    TraceLeftColumn(seq1, seq2, pairScore, gapPenalty, table, |seq1|);
    assert seq1[..|seq1|] == seq1 && seq2[..|seq2|] == seq2;
    GapCostIsProduct(|seq1|, gapPenalty);
    GapCostIsProduct(|seq2|, gapPenalty);
  }

  /** The traceback half of `align`: from the corner of a filled matrix back
      to its origin, preferring the diagonal, then up, then left, each move
      putting one more column in front of the aligned pair. */
  method Traceback(seq1: string, seq2: string, pairScore: Scorer, gapPenalty: int, ghost table: Table, M: array2<int>)
      returns (alignment1: string, alignment2: string)
    requires M.Length0 == |seq1| + 1 && M.Length1 == |seq2| + 1
    requires forall a, b {:trigger M[a, b]} :: 0 <= a <= |seq1| && 0 <= b <= |seq2| ==> M[a, b] == table(a, b)
    ensures (alignment1, alignment2) == Trace(seq1, seq2, pairScore, gapPenalty, table, |seq1|, |seq2|)
  {
    var m, n := |seq1|, |seq2|;
    alignment1, alignment2 := "", "";
    var i, j := m, n;
    while i > 0 && j > 0
      modifies {}
      invariant 0 <= i <= m && 0 <= j <= n
      invariant Walk(seq1, seq2, pairScore, gapPenalty, table, i, j, alignment1, alignment2) == Walk(seq1, seq2, pairScore, gapPenalty, table, m, n, "", "")
    {
      if M[i, j] == M[i - 1, j - 1] + pairScore(seq1[i - 1], seq2[j - 1]) {
        alignment1, alignment2 := [seq1[i - 1]] + alignment1, [seq2[j - 1]] + alignment2;
        i, j := i - 1, j - 1;
      } else if M[i, j] == M[i - 1, j] + gapPenalty {
        alignment1, alignment2 := [seq1[i - 1]] + alignment1, [Gap] + alignment2;
        i := i - 1;
      } else {
        alignment1, alignment2 := [Gap] + alignment1, [seq2[j - 1]] + alignment2;
        j := j - 1;
      }
    }
    while i > 0
      modifies {}
      invariant 0 <= i <= m && 0 <= j <= n && (i == 0 || j == 0)
      invariant Walk(seq1, seq2, pairScore, gapPenalty, table, i, j, alignment1, alignment2) == Walk(seq1, seq2, pairScore, gapPenalty, table, m, n, "", "")
    {
      alignment1, alignment2 := [seq1[i - 1]] + alignment1, [Gap] + alignment2;
      i := i - 1;
    }
    while j > 0
      modifies {}
      invariant 0 <= j <= n && i == 0
      invariant Walk(seq1, seq2, pairScore, gapPenalty, table, i, j, alignment1, alignment2) == Walk(seq1, seq2, pairScore, gapPenalty, table, m, n, "", "")
    {
      alignment1, alignment2 := [Gap] + alignment1, [seq2[j - 1]] + alignment2;
      j := j - 1;
    }
    WalkIsTrace(seq1, seq2, pairScore, gapPenalty, table, m, n, "", "");
    ghost var t := Trace(seq1, seq2, pairScore, gapPenalty, table, m, n);
    assert t.0 + "" == t.0 && t.1 + "" == t.1;
  }

  /** The path that pairs the first k residues of each input column by
      column, with no gap. */
  function Diagonal(k: nat): (p: seq<Step>)
    ensures |p| == k && forall t :: 0 <= t < k ==> p[t] == Diag
  {
    if k == 0 then [] else Diagonal(k - 1) + [Diag]
  }

  /** The gap-free path renders the two prefixes unchanged. */
  lemma {:induction false} GaplessRender(seq1: string, seq2: string, k: nat)
    requires k <= |seq1| && k <= |seq2|
    ensures IsPath(k, k, Diagonal(k))
    ensures Render(seq1, seq2, k, k, Diagonal(k)) == (seq1[..k], seq2[..k])
    decreases k
  {
    if k > 0 {
      var q := Diagonal(k - 1);
      GaplessRender(seq1, seq2, k - 1);
      DiagSnoc(seq1, seq2, k, k, q);
      PrefixSnoc(seq1, k);
      PrefixSnoc(seq2, k);
    }
  }

  /** The gap-free path scores the sum of the column scores of the two
      prefixes. */
  lemma {:induction false} GaplessScore(seq1: string, seq2: string, pairScore: Scorer, gapPenalty: int, k: nat)
    requires k <= |seq1| && k <= |seq2|
    ensures IsPath(k, k, Diagonal(k))
    ensures PathScore(seq1, seq2, pairScore, gapPenalty, k, k, Diagonal(k)) == ColumnsScore(seq1[..k], seq2[..k], pairScore)
    decreases k
  {
    GaplessRender(seq1, seq2, k);
    if k > 0 {
      var q := Diagonal(k - 1);
      GaplessScore(seq1, seq2, pairScore, gapPenalty, k - 1);
      SnocScore(seq1, seq2, pairScore, gapPenalty, k, k, q, Diag);
      var a1, a2 := seq1[..k], seq2[..k];
      assert a1[..k - 1] == seq1[..k - 1] && a2[..k - 1] == seq2[..k - 1];
      assert ColumnsScore(a1, a2, pairScore) == ColumnsScore(a1[..k - 1], a2[..k - 1], pairScore) + pairScore(seq1[k - 1], seq2[k - 1]);
    }
  }

  /** Two inputs of the same length can always be aligned without gaps, so
      the optimal score is at least the score of pairing them column by
      column. */
  lemma GaplessLowerBound(seq1: string, seq2: string, pairScore: Scorer, gapPenalty: int)
    requires |seq1| == |seq2|
    ensures ColumnsScore(seq1, seq2, pairScore) <= Cell(seq1, seq2, pairScore, gapPenalty, |seq1|, |seq2|)
  {
    var n := |seq1|;
    GaplessScore(seq1, seq2, pairScore, gapPenalty, n);
    assert seq1[..n] == seq1 && seq2[..n] == seq2;
    CellIsUpperBound(seq1, seq2, pairScore, gapPenalty, n, n, Diagonal(n));
  }

  /** Aligning s with itself, no column beats pairing residues with
      themselves: twice a substitution scores at most the two residues
      against themselves, and twice the gap penalty at most any residue
      against itself. */
  predicate DiagonalDominant(s: string, pairScore: Scorer, gapPenalty: int)
  {
    && (forall x, y :: 0 <= x < |s| && 0 <= y < |s| ==>
          2 * pairScore(s[x], s[y]) <= pairScore(s[x], s[x]) + pairScore(s[y], s[y]))
    && (forall x :: 0 <= x < |s| ==> 2 * gapPenalty <= pairScore(s[x], s[x]))
  }

  /** The score of s[..k] against itself without gaps: the sum of its first
      k residues against themselves. */
  function SelfScore(s: string, pairScore: Scorer, k: nat): int
    requires k <= |s|
  {
    if k == 0 then 0 else SelfScore(s, pairScore, k - 1) + pairScore(s[k - 1], s[k - 1])
  }

  /** That sum is the column score of the prefix paired with itself. */
  lemma {:induction false} SelfScoreIsColumnsScore(s: string, pairScore: Scorer, k: nat)
    requires k <= |s|
    ensures SelfScore(s, pairScore, k) == ColumnsScore(s[..k], s[..k], pairScore)
    decreases k
  {
    if k == 0 {
      assert s[..0] == [];
    } else {
      SelfScoreIsColumnsScore(s, pairScore, k - 1);
      assert s[..k][..k - 1] == s[..k - 1];
    }
  }

  /** No alignment of s[..i] with s[..j] scores more than the mean of the
      gapless scores of the two prefixes: each column adds at most the mean
      of the residues it consumes. */
  lemma {:induction false} PathBelowSelfMean(s: string, pairScore: Scorer, gapPenalty: int, i: nat, j: nat, p: seq<Step>)
    requires i <= |s| && j <= |s| && IsPath(i, j, p) && DiagonalDominant(s, pairScore, gapPenalty)
    ensures 2 * PathScore(s, s, pairScore, gapPenalty, i, j, p) <= SelfScore(s, pairScore, i) + SelfScore(s, pairScore, j)
    decreases |p|
  {
    if p != [] {
      var q := p[..|p| - 1];
      match p[|p| - 1]
      case Diag =>
        PathBelowSelfMean(s, pairScore, gapPenalty, i - 1, j - 1, q);
        assert 2 * pairScore(s[i - 1], s[j - 1]) <= pairScore(s[i - 1], s[i - 1]) + pairScore(s[j - 1], s[j - 1]);
      case Up =>
        PathBelowSelfMean(s, pairScore, gapPenalty, i - 1, j, q);
        assert 2 * gapPenalty <= pairScore(s[i - 1], s[i - 1]);
      case Left =>
        PathBelowSelfMean(s, pairScore, gapPenalty, i, j - 1, q);
        assert 2 * gapPenalty <= pairScore(s[j - 1], s[j - 1]);
    }
  }

  /** On the diagonal of the matrix of s against itself, each cell is the
      gapless score of the prefix: the gapless path reaches it, and the
      traceback path, which scores the cell, cannot beat it. */
  lemma SelfDiagonalCell(s: string, pairScore: Scorer, gapPenalty: int, k: nat)
    requires k <= |s| && DiagonalDominant(s, pairScore, gapPenalty)
    ensures Cell(s, s, pairScore, gapPenalty, k, k) == SelfScore(s, pairScore, k)
  {
    var table := CellTable(s, s, pairScore, gapPenalty);
    TracePathScore(s, s, pairScore, gapPenalty, table, k, k);
    PathBelowSelfMean(s, pairScore, gapPenalty, k, k, TracePath(s, s, pairScore, gapPenalty, table, k, k));
    SelfScoreIsColumnsScore(s, pairScore, k);
    GaplessScore(s, s, pairScore, gapPenalty, k);
    CellIsUpperBound(s, s, pairScore, gapPenalty, k, k, Diagonal(k));
  }

  /** The traceback from the diagonal cell (k, k) of the matrix of s against
      itself is the gapless path. */
  predicate TracesDiagonally(s: string, pairScore: Scorer, gapPenalty: int, k: nat)
    requires k <= |s|
  {
    TracePath(s, s, pairScore, gapPenalty, CellTable(s, s, pairScore, gapPenalty), k, k) == Diagonal(k)
  }

  /** A diagonal move out of (k, k) extends a gapless traceback from
      (k - 1, k - 1). */
  lemma TracesDiagonallyStep(s: string, pairScore: Scorer, gapPenalty: int, k: nat)
    requires 0 < k <= |s| && TracesDiagonally(s, pairScore, gapPenalty, k - 1)
    requires Choice(s, s, pairScore, gapPenalty, CellTable(s, s, pairScore, gapPenalty), k, k) == Diag
    ensures TracesDiagonally(s, pairScore, gapPenalty, k)
  {
  }

  /** From a diagonal cell of that matrix the traceback only moves
      diagonally. */
  lemma {:induction false} SelfTracePath(s: string, pairScore: Scorer, gapPenalty: int, k: nat)
    requires k <= |s| && DiagonalDominant(s, pairScore, gapPenalty)
    ensures TracesDiagonally(s, pairScore, gapPenalty, k)
    decreases k
  {
    if k > 0 {
      var table := CellTable(s, s, pairScore, gapPenalty);
      SelfTracePath(s, pairScore, gapPenalty, k - 1);
      SelfDiagonalCell(s, pairScore, gapPenalty, k);
      SelfDiagonalCell(s, pairScore, gapPenalty, k - 1);
      assert table(k, k) == table(k - 1, k - 1) + pairScore(s[k - 1], s[k - 1]);
      TracesDiagonallyStep(s, pairScore, gapPenalty, k);
    }
  }

  /** A sequence aligned with itself under a diagonally dominant scorer comes
      back unchanged, scoring the sum of its residues against themselves. */
  lemma IdenticalInputsUnchanged(s: string, pairScore: Scorer, gapPenalty: int)
    requires DiagonalDominant(s, pairScore, gapPenalty)
    ensures Trace(s, s, pairScore, gapPenalty, CellTable(s, s, pairScore, gapPenalty), |s|, |s|) == (s, s)
    ensures Cell(s, s, pairScore, gapPenalty, |s|, |s|) == ColumnsScore(s, s, pairScore)
  {
    var n := |s|;
    SelfTracePath(s, pairScore, gapPenalty, n);
    assert TracesDiagonally(s, pairScore, gapPenalty, n);
    GaplessRender(s, s, n);
    SelfDiagonalCell(s, pairScore, gapPenalty, n);
    SelfScoreIsColumnsScore(s, pairScore, n);
    assert s[..n] == s;
  }

  /** BLOSUM62 is diagonally dominant on every string of residues once the
      gap penalty is at most 2 (half the smallest diagonal entry). */
  lemma BlosumDiagonalDominantOn(s: string, gapPenalty: int)
    requires gapPenalty <= 2
    requires forall k :: 0 <= k < |s| ==> IsResidue(s[k])
    ensures DiagonalDominant(s, Blosum(gapPenalty), gapPenalty)
  {
    forall x, y | 0 <= x < |s| && 0 <= y < |s|
      ensures 2 * Blosum(gapPenalty)(s[x], s[y]) <= Blosum(gapPenalty)(s[x], s[x]) + Blosum(gapPenalty)(s[y], s[y])
      ensures 2 * gapPenalty <= Blosum(gapPenalty)(s[x], s[x])
    {
      BlosumDiagonalDominant(s[x], s[y], gapPenalty);
    }
  }

  /** The matrix for "A" against "A" with a gap penalty of 3. */
  lemma IdenticalInputsCells()
    ensures Cell("A", "A", Blosum(3), 3, 0, 1) == 3
    ensures Cell("A", "A", Blosum(3), 3, 1, 0) == 3
    ensures Cell("A", "A", Blosum(3), 3, 1, 1) == 6
  {
    DiagonalExamples(3);
    assert Blosum(3)('A', 'A') == 4;
  }

  /** On that matrix the walk back goes up, then left. */
  lemma IdenticalInputsPath()
    ensures TracePath("A", "A", Blosum(3), 3, CellTable("A", "A", Blosum(3), 3), 1, 1) == [Left, Up]
  {
    var table := CellTable("A", "A", Blosum(3), 3);
    IdenticalInputsCells();
    DiagonalExamples(3);
    assert table(1, 1) != table(0, 0) + Blosum(3)('A', 'A');
    assert Choice("A", "A", Blosum(3), 3, table, 1, 1) == Up;
    assert Choice("A", "A", Blosum(3), 3, table, 0, 1) == Left;
    assert TracePath("A", "A", Blosum(3), 3, table, 0, 1) == [Left];
  }

  /** The bound of 2 on the gap penalty in `BlosumDiagonalDominantOn` is
      tight: with a gap penalty of 3, "A" against "A" scores 6 by opening a
      gap on each side, more than the 4 of the match, and the walk back
      returns the gapped pair. */
  lemma IdenticalInputsMayGap()
    ensures Cell("A", "A", Blosum(3), 3, 1, 1) == 6
    ensures Trace("A", "A", Blosum(3), 3, CellTable("A", "A", Blosum(3), 3), 1, 1) == ("-A", "A-")
  {
    IdenticalInputsCells();
    IdenticalInputsPath();
    GapThenResidue('A');
  }

  /** Left then up on two one-residue inputs puts a gap first on top and
      last underneath. */
  lemma GapThenResidue(c: char)
    ensures IsPath(1, 1, [Left, Up])
    ensures Render([c], [c], 1, 1, [Left, Up]) == ([Gap, c], [c, Gap])
  {
    var none: string := [];
    LeftSnoc([c], [c], 0, 1, []);
    assert [] + [Left] == [Left];
    assert Render([c], [c], 0, 0, []) == (none, none);
    assert none + [Gap] == [Gap] && none + [c] == [c];
    UpSnoc([c], [c], 1, 1, [Left]);
    assert [Left] + [Up] == [Left, Up];
    assert Render([c], [c], 0, 1, [Left]) == ([Gap], [c]);
    assert [Gap] + [c] == [Gap, c] && [c] + [Gap] == [c, Gap];
  }

  /** `NeedlemanSearch.align(seq1, seq2)` with the search's gap penalty: fill
      the matrix, walk back from the corner, and return the corner together
      with the aligned pair. */
  method Align(seq1: string, seq2: string, gapPenalty: int) returns (score: int, alignment1: string, alignment2: string)
    ensures score == Cell(seq1, seq2, Blosum(gapPenalty), gapPenalty, |seq1|, |seq2|)
    ensures (alignment1, alignment2) == Trace(seq1, seq2, Blosum(gapPenalty), gapPenalty, CellTable(seq1, seq2, Blosum(gapPenalty), gapPenalty), |seq1|, |seq2|)
    ensures |alignment1| == |alignment2|
    ensures Max(|seq1|, |seq2|) <= |alignment1| <= |seq1| + |seq2|
    ensures score == ColumnsScore(alignment1, alignment2, Blosum(gapPenalty))
    ensures |seq1| == |seq2| ==> ColumnsScore(seq1, seq2, Blosum(gapPenalty)) <= score
    ensures seq1 == seq2 && gapPenalty <= 2 && (forall k :: 0 <= k < |seq1| ==> IsResidue(seq1[k])) ==>
      alignment1 == seq1 && alignment2 == seq2 && score == ColumnsScore(seq1, seq1, Blosum(gapPenalty))
    ensures forall p :: IsPath(|seq1|, |seq2|, p) ==> PathScore(seq1, seq2, Blosum(gapPenalty), gapPenalty, |seq1|, |seq2|, p) <= score
    ensures Gap !in seq1 && Gap !in seq2 ==> Recovers(seq1, seq2, |seq1|, |seq2|, (alignment1, alignment2))
    ensures seq1 == [] ==> alignment1 == Gaps(|seq2|) && alignment2 == seq2 && score == |seq2| * gapPenalty
    ensures seq2 == [] ==> alignment1 == seq1 && alignment2 == Gaps(|seq1|) && score == |seq1| * gapPenalty
  {
    var m, n := |seq1|, |seq2|;
    var pairScore := Blosum(gapPenalty);
    var M := FillMatrix(seq1, seq2, pairScore, gapPenalty);
    ghost var table := CellTable(seq1, seq2, pairScore, gapPenalty);
    alignment1, alignment2 := Traceback(seq1, seq2, pairScore, gapPenalty, table, M);
    score := M[m, n];
    BlosumChargesGapPenalty(gapPenalty);
    TraceIsOptimal(seq1, seq2, pairScore, gapPenalty);
    EmptyInputAlignment(seq1, seq2, pairScore, gapPenalty);
    if m == n {
      GaplessLowerBound(seq1, seq2, pairScore, gapPenalty);
    }
    if seq1 == seq2 && gapPenalty <= 2 && (forall k :: 0 <= k < m ==> IsResidue(seq1[k])) {
      BlosumDiagonalDominantOn(seq1, gapPenalty);
      IdenticalInputsUnchanged(seq1, pairScore, gapPenalty);
    }
  }
}
