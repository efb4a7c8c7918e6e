/** The scorer of the aligner: the 20-letter amino-acid alphabet, the BLOSUM62
    substitution table (Henikoff & Henikoff 1992), the case-insensitive pair
    score with its gap-penalty fallback, and the three-way classification of a
    substitution score. */
module Scoring {

  /** The symbol the aligner writes for a gap column. */
  const Gap: char := '-'

  /** The gap penalty a scorer built without configuration uses. */
  const DefaultGapPenalty: int := -4

  /** The alphabet, in the order of the table's rows and columns. */
  const Alphabet: seq<char> :=
    ['A','R','N','D','C','Q','E','G','H','I','L','K','M','F','P','S','T','W','Y','V']

  /** BLOSUM62, indexed by alphabet position. */
  const Blosum62: seq<seq<int>> := [
    [ 4,-1,-2,-2, 0,-1,-1, 0,-2,-1,-1,-1,-1,-2,-1, 1, 0,-3,-2, 0],
    [-1, 5, 0,-2,-3, 1, 0,-2, 0,-3,-2, 2,-1,-3,-2,-1,-1,-3,-2,-3],
    [-2, 0, 6, 1,-3, 0, 0, 0, 1,-3,-3, 0,-2,-3,-2, 1, 0,-4,-2,-3],
    [-2,-2, 1, 6,-3, 0, 2,-1,-1,-3,-4,-1,-3,-3,-1, 0,-1,-4,-3,-3],
    [ 0,-3,-3,-3, 9,-3,-4,-3,-3,-1,-1,-3,-1,-2,-3,-1,-1,-2,-2,-1],
    [-1, 1, 0, 0,-3, 5, 2,-2, 0,-3,-2, 1, 0,-3,-1, 0,-1,-2,-1,-2],
    [-1, 0, 0, 2,-4, 2, 5,-2, 0,-3,-3, 1,-2,-3,-1, 0,-1,-3,-2,-2],
    [ 0,-2, 0,-1,-3,-2,-2, 6,-2,-4,-4,-2,-3,-3,-2, 0,-2,-2,-3,-3],
    [-2, 0, 1,-1,-3, 0, 0,-2, 8,-3,-3,-1,-2,-1,-2,-1,-2,-2, 2,-3],
    [-1,-3,-3,-3,-1,-3,-3,-4,-3, 4, 2,-3, 1, 0,-3,-2,-1,-3,-1, 3],
    [-1,-2,-3,-4,-1,-2,-3,-4,-3, 2, 4,-2, 2, 0,-3,-2,-1,-2,-1, 1],
    [-1, 2, 0,-1,-3, 1, 1,-2,-1,-3,-2, 5,-1,-3,-1, 0,-1,-3,-2,-2],
    [-1,-1,-2,-3,-1, 0,-2,-3,-2, 1, 2,-1, 5, 0,-2,-1,-1,-1,-1, 1],
    [-2,-3,-3,-3,-2,-3,-3,-3,-1, 0, 0,-3, 0, 6,-4,-2,-2, 1, 3,-1],
    [-1,-2,-2,-1,-3,-1,-1,-2,-2,-3,-3,-1,-2,-4, 7,-1,-1,-4,-3,-2],
    [ 1,-1, 1, 0,-1, 0, 0, 0,-1,-2,-2, 0,-1,-2,-1, 4, 1,-3,-2,-2],
    [ 0,-1, 0,-1,-1,-1,-1,-2,-2,-1,-1,-1,-1,-2,-1, 1, 5,-2,-2, 0],
    [-3,-3,-4,-4,-2,-2,-3,-2,-2,-3,-2,-3,-1, 1,-4,-3,-2,11, 2,-3],
    [-2,-2,-2,-3,-2,-1,-2,-3, 2,-1,-1,-2,-1, 3,-3,-2,-2, 2, 7,-1],
    [ 0,-3,-3,-3,-1,-2,-2,-3,-3, 3, 1,-2, 1,-1,-2,-2, 0,-3,-1, 4]
  ]

  /** The table is square over the alphabet. */
  lemma TableShape()
    ensures |Alphabet| == 20 && |Blosum62| == 20
    ensures forall i :: 0 <= i < 20 ==> |Blosum62[i]| == 20
  {
  }

  // Row k of the table equals column k, checked two rows at a time so that
  // each proof obligation stays small.
  lemma RowsMatchColumns0And1()
    ensures forall j :: 0 <= j < 20 ==> Blosum62[0][j] == Blosum62[j][0]
    ensures forall j :: 0 <= j < 20 ==> Blosum62[1][j] == Blosum62[j][1]
  {
  }

  lemma RowsMatchColumns2And3()
    ensures forall j :: 0 <= j < 20 ==> Blosum62[2][j] == Blosum62[j][2]
    ensures forall j :: 0 <= j < 20 ==> Blosum62[3][j] == Blosum62[j][3]
  {
  }

  lemma RowsMatchColumns4And5()
    ensures forall j :: 0 <= j < 20 ==> Blosum62[4][j] == Blosum62[j][4]
    ensures forall j :: 0 <= j < 20 ==> Blosum62[5][j] == Blosum62[j][5]
  {
  }

  lemma RowsMatchColumns6And7()
    ensures forall j :: 0 <= j < 20 ==> Blosum62[6][j] == Blosum62[j][6]
    ensures forall j :: 0 <= j < 20 ==> Blosum62[7][j] == Blosum62[j][7]
  {
  }

  lemma RowsMatchColumns8And9()
    ensures forall j :: 0 <= j < 20 ==> Blosum62[8][j] == Blosum62[j][8]
    ensures forall j :: 0 <= j < 20 ==> Blosum62[9][j] == Blosum62[j][9]
  {
  }

  lemma RowsMatchColumns10And11()
    ensures forall j :: 0 <= j < 20 ==> Blosum62[10][j] == Blosum62[j][10]
    ensures forall j :: 0 <= j < 20 ==> Blosum62[11][j] == Blosum62[j][11]
  {
  }

  lemma RowsMatchColumns12And13()
    ensures forall j :: 0 <= j < 20 ==> Blosum62[12][j] == Blosum62[j][12]
    ensures forall j :: 0 <= j < 20 ==> Blosum62[13][j] == Blosum62[j][13]
  {
  }

  lemma RowsMatchColumns14And15()
    ensures forall j :: 0 <= j < 20 ==> Blosum62[14][j] == Blosum62[j][14]
    ensures forall j :: 0 <= j < 20 ==> Blosum62[15][j] == Blosum62[j][15]
  {
  }

  lemma RowsMatchColumns16And17()
    ensures forall j :: 0 <= j < 20 ==> Blosum62[16][j] == Blosum62[j][16]
    ensures forall j :: 0 <= j < 20 ==> Blosum62[17][j] == Blosum62[j][17]
  {
  }

  lemma RowsMatchColumns18And19()
    ensures forall j :: 0 <= j < 20 ==> Blosum62[18][j] == Blosum62[j][18]
    ensures forall j :: 0 <= j < 20 ==> Blosum62[19][j] == Blosum62[j][19]
  {
  }

  /** The table is symmetric: scoring X against Y is scoring Y against X. */
  lemma TableSymmetric()
    ensures forall i, j :: 0 <= i < 20 && 0 <= j < 20 ==> Blosum62[i][j] == Blosum62[j][i]
  {
    forall i, j | 0 <= i < 20 && 0 <= j < 20
      ensures Blosum62[i][j] == Blosum62[j][i]
    {
      if i == 0 || i == 1 {
        RowsMatchColumns0And1();
      } else if i == 2 || i == 3 {
        RowsMatchColumns2And3();
      } else if i == 4 || i == 5 {
        RowsMatchColumns4And5();
      } else if i == 6 || i == 7 {
        RowsMatchColumns6And7();
      } else if i == 8 || i == 9 {
        RowsMatchColumns8And9();
      } else if i == 10 || i == 11 {
        RowsMatchColumns10And11();
      } else if i == 12 || i == 13 {
        RowsMatchColumns12And13();
      } else if i == 14 || i == 15 {
        RowsMatchColumns14And15();
      } else if i == 16 || i == 17 {
        RowsMatchColumns16And17();
      } else if i == 18 || i == 19 {
        RowsMatchColumns18And19();
      }
    }
  }

  /** `String.prototype.toUpperCase` on one character, as far as it matters for
      the lookup: the ASCII letters, plus the two non-ASCII characters whose
      upper case is a letter of the alphabet (dotless i becomes I, long s
      becomes S). Every other character is returned unchanged; its JavaScript
      upper case, whatever it is, is not in the alphabet either. */
  function ToUpper(c: char): (r: char)
    ensures !('a' <= r <= 'z') && r != '\U{0131}' && r != '\U{017F}'
    ensures 'A' <= c <= 'Z' ==> r == c
    ensures 'a' <= c <= 'z' ==> r as int == c as int - 32
    ensures c == '\U{0131}' ==> r == 'I'
    ensures c == '\U{017F}' ==> r == 'S'
    ensures r in Alphabet ==> c == r || c as int == r as int + 32 || (c == '\U{0131}' && r == 'I') || (c == '\U{017F}' && r == 'S')
  {
    if 'a' <= c <= 'z' then (c as int - 32) as char
    else if c == '\U{0131}' then 'I'
    else if c == '\U{017F}' then 'S'
    else c
  }

  /** `aminoAcids.indexOf(c)`, searching from position k on. */
  function IndexFrom(c: char, k: nat): (r: int)
    requires k <= |Alphabet|
    ensures -1 <= r < |Alphabet|
    ensures r == -1 ==> forall x :: k <= x < |Alphabet| ==> Alphabet[x] != c
    ensures r != -1 ==> k <= r && Alphabet[r] == c && forall x :: k <= x < r ==> Alphabet[x] != c
    decreases |Alphabet| - k
  {
    if k == |Alphabet| then -1
    else if Alphabet[k] == c then k
    else IndexFrom(c, k + 1)
  }

  /** `aminoAcids.indexOf(c)`: the first position of c in the alphabet, or -1
      when c is not a letter of it. */
  function IndexOf(c: char): (r: int)
    ensures r == -1 <==> c !in Alphabet
    ensures r != -1 ==> 0 <= r < 20 && Alphabet[r] == c
  {
    IndexFrom(c, 0)
  }

  /** The letters are pairwise distinct, so a position names its letter. */
  lemma AlphabetDistinct()
    ensures forall i, j :: 0 <= i < j < 20 ==> Alphabet[i] != Alphabet[j]
  {
  }

  /** The character counts as a residue for scoring. */
  predicate IsResidue(c: char)
  {
    ToUpper(c) in Alphabet
  }

  /** `NeedlemanSearch.blosumScore(a, b)` for a scorer whose gap penalty is
      gapPenalty: the table entry of the upper-cased pair, or the gap penalty
      when either character is not a residue (the gap symbol included). */
  function BlosumScore(a: char, b: char, gapPenalty: int): (r: int)
    ensures !IsResidue(a) || !IsResidue(b) ==> r == gapPenalty
  {
    var i := IndexOf(ToUpper(a));
    var j := IndexOf(ToUpper(b));
    TableShape();
    if i == -1 || j == -1 then gapPenalty
    else Blosum62[i][j]
  }

  /** For two residues, the score is the table entry at the alphabet positions
      of their upper-case forms. */
  lemma BlosumScoreIsTableEntry(a: char, b: char, gapPenalty: int, i: nat, j: nat)
    requires i < 20 && j < 20 && Alphabet[i] == ToUpper(a) && Alphabet[j] == ToUpper(b)
    ensures BlosumScore(a, b, gapPenalty) == Blosum62[i][j]
  {
    AlphabetDistinct();
  }

  /** The score of a pair does not depend on the order of the pair. */
  lemma BlosumSymmetric(a: char, b: char, gapPenalty: int)
    ensures BlosumScore(a, b, gapPenalty) == BlosumScore(b, a, gapPenalty)
  {
    TableSymmetric();
    var i := IndexOf(ToUpper(a));
    var j := IndexOf(ToUpper(b));
    TableShape();
    if i != -1 && j != -1 {
      assert BlosumScore(a, b, gapPenalty) == Blosum62[i][j];
      assert BlosumScore(b, a, gapPenalty) == Blosum62[j][i];
    }
  }

  /** Lookup ignores case. */
  lemma BlosumCaseInsensitive(a: char, b: char, gapPenalty: int)
    ensures BlosumScore(a, b, gapPenalty) == BlosumScore(ToUpper(a), ToUpper(b), gapPenalty)
  {
    assert ToUpper(ToUpper(a)) == ToUpper(a);
    assert ToUpper(ToUpper(b)) == ToUpper(b);
  }

  /** A gap against anything, a gap against a gap included, scores the gap penalty. */
  lemma GapScoresPenalty(x: char, gapPenalty: int)
    ensures BlosumScore(x, Gap, gapPenalty) == gapPenalty
    ensures BlosumScore(Gap, x, gapPenalty) == gapPenalty
  {
    assert !IsResidue(Gap);
  }

  /** Two diagonal entries, and the same entry reached through lower case. */
  lemma DiagonalExamples(gapPenalty: int)
    ensures BlosumScore('A', 'A', gapPenalty) == 4
    ensures BlosumScore('W', 'W', gapPenalty) == 11
    ensures BlosumScore('a', 'A', gapPenalty) == 4
  {
    BlosumScoreIsTableEntry('A', 'A', gapPenalty, 0, 0);
    BlosumScoreIsTableEntry('W', 'W', gapPenalty, 17, 17);
    BlosumScoreIsTableEntry('a', 'A', gapPenalty, 0, 0);
  }

  /** Every diagonal entry is at least 4: a residue against itself always
      scores well. */
  lemma DiagonalAtLeastFour()
    ensures forall i :: 0 <= i < 20 ==> Blosum62[i][i] >= 4
  {
  }

  // Every entry off the diagonal is at most 3, checked four rows at a time so
  // that each proof obligation stays small.
  lemma OffDiagonalRows0To3()
    ensures forall j :: 0 <= j < 20 && j != 0 ==> Blosum62[0][j] <= 3
    ensures forall j :: 0 <= j < 20 && j != 1 ==> Blosum62[1][j] <= 3
    ensures forall j :: 0 <= j < 20 && j != 2 ==> Blosum62[2][j] <= 3
    ensures forall j :: 0 <= j < 20 && j != 3 ==> Blosum62[3][j] <= 3
  {
  }

  lemma OffDiagonalRows4To7()
    ensures forall j :: 0 <= j < 20 && j != 4 ==> Blosum62[4][j] <= 3
    ensures forall j :: 0 <= j < 20 && j != 5 ==> Blosum62[5][j] <= 3
    ensures forall j :: 0 <= j < 20 && j != 6 ==> Blosum62[6][j] <= 3
    ensures forall j :: 0 <= j < 20 && j != 7 ==> Blosum62[7][j] <= 3
  {
  }

  lemma OffDiagonalRows8To11()
    ensures forall j :: 0 <= j < 20 && j != 8 ==> Blosum62[8][j] <= 3
    ensures forall j :: 0 <= j < 20 && j != 9 ==> Blosum62[9][j] <= 3
    ensures forall j :: 0 <= j < 20 && j != 10 ==> Blosum62[10][j] <= 3
    ensures forall j :: 0 <= j < 20 && j != 11 ==> Blosum62[11][j] <= 3
  {
  }

  lemma OffDiagonalRows12To15()
    ensures forall j :: 0 <= j < 20 && j != 12 ==> Blosum62[12][j] <= 3
    ensures forall j :: 0 <= j < 20 && j != 13 ==> Blosum62[13][j] <= 3
    ensures forall j :: 0 <= j < 20 && j != 14 ==> Blosum62[14][j] <= 3
    ensures forall j :: 0 <= j < 20 && j != 15 ==> Blosum62[15][j] <= 3
  {
  }

  lemma OffDiagonalRows16To19()
    ensures forall j :: 0 <= j < 20 && j != 16 ==> Blosum62[16][j] <= 3
    ensures forall j :: 0 <= j < 20 && j != 17 ==> Blosum62[17][j] <= 3
    ensures forall j :: 0 <= j < 20 && j != 18 ==> Blosum62[18][j] <= 3
    ensures forall j :: 0 <= j < 20 && j != 19 ==> Blosum62[19][j] <= 3
  {
  }

  /** No entry off the diagonal exceeds 3. */
  lemma OffDiagonalAtMostThree()
    ensures forall i, j :: 0 <= i < 20 && 0 <= j < 20 && i != j ==> Blosum62[i][j] <= 3
  {
    forall i, j | 0 <= i < 20 && 0 <= j < 20 && i != j
      ensures Blosum62[i][j] <= 3
    {
      if i < 4 {
        OffDiagonalRows0To3();
      } else if i < 8 {
        OffDiagonalRows4To7();
      } else if i < 12 {
        OffDiagonalRows8To11();
      } else if i < 16 {
        OffDiagonalRows12To15();
      } else {
        OffDiagonalRows16To19();
      }
    }
  }

  /** Substituting one residue for another never scores more than the mean
      of the two residues against themselves: twice the pair score is at most
      the sum of the two diagonal scores, and each diagonal score is at least
      4. */
  lemma BlosumDiagonalDominant(a: char, b: char, gapPenalty: int)
    requires IsResidue(a) && IsResidue(b)
    ensures BlosumScore(a, a, gapPenalty) >= 4
    ensures 2 * BlosumScore(a, b, gapPenalty) <= BlosumScore(a, a, gapPenalty) + BlosumScore(b, b, gapPenalty)
  {
    var i := IndexOf(ToUpper(a));
    var j := IndexOf(ToUpper(b));
    BlosumScoreIsTableEntry(a, b, gapPenalty, i, j);
    BlosumScoreIsTableEntry(a, a, gapPenalty, i, i);
    BlosumScoreIsTableEntry(b, b, gapPenalty, j, j);
    DiagonalAtLeastFour();
    OffDiagonalAtMostThree();
  }

  /** The qualitative class of a substitution score. */
  datatype SubstitutionClass = Conservative | Neutral | NonConservative

  /** `NeedlemanSearch.classify(score)`. */
  function Classify(score: int): (c: SubstitutionClass)
    ensures c == Conservative <==> score >= 2
    ensures c == Neutral <==> 0 <= score < 2
    ensures c == NonConservative <==> score < 0
  {
    if score >= 2 then Conservative
    else if score >= 0 then Neutral
    else NonConservative
  }

  /** Conservative ranks above Neutral, which ranks above Non-conservative. */
  function Rank(c: SubstitutionClass): nat
  {
    match c
    case NonConservative => 0
    case Neutral => 1
    case Conservative => 2
  }

  /** A higher score never falls into a lower class. */
  lemma ClassifyMonotone(s: int, t: int)
    requires s <= t
    ensures Rank(Classify(s)) <= Rank(Classify(t))
  {
  }
}
