# nw-b62 in Dafny

A verified model of the computational core of nw-b62, a single-page
Needleman-Wunsch aligner for protein sequences scored with BLOSUM62. The
page aligns two amino-acid sequences globally, shows the score and the two
aligned strings, reports identity, similarity and gap counts, warns when
the inputs differ too much in length, and lists the variant blocks (maximal
runs of differing columns) with a per-column substitution table for each
block. Everything here is a model of `scripts.js`.

The four modules follow the program's structure:

- `Scoring` (Scoring.dfy): the 20-letter alphabet, the BLOSUM62 table,
  `NeedlemanSearch.blosumScore`, which falls back to the gap penalty for any
  character that is not a residue, and `NeedlemanSearch.classify`.
- `Alignment` (Alignment.dfy): `NeedlemanSearch.align`. The fill runs in
  place on an `array2<int>` (`FillMatrix`, `FillRow`). The traceback runs
  as the source's three `while` loops (`Traceback`). `Align` composes them.
  The specification side has these parts:
  - the recurrence `Cell`;
  - alignment paths (`IsPath`, `PathScore`, `Render`);
  - the path the traceback walks (`TracePath`, `Trace`, `Walk`).
  The proofs show that the result is an optimal global alignment, that its
  columns score exactly the reported score, and that for inputs without
  '-', deleting the gaps gives back the inputs.
- `Statistics` (Statistics.dfy): `buildMatchLine`'s identity and similarity
  counts, the gap-column count of `alignAndShow`, and its length-ratio
  warning.
- `Variants` (Variants.dfy): `getVariantBlocks`, its per-block counts and
  type table, and the substitution detail rows shown when a block is
  expanded.

The gap penalty is a parameter. `new NeedlemanSearch()` uses -4, written
`DefaultGapPenalty`. `buildMatchLine` and the detail loop both build such a
default scorer, whatever penalty the user typed, and the model does the
same.

Identical inputs align unchanged, scoring the sum of their residues
against themselves, whenever the inputs are residues and the gap penalty is
at most 2. The default -4 is one such penalty. This rests on two facts about
BLOSUM62. Every diagonal entry is at least 4, and every entry off the
diagonal is at most 3, so substituting one residue for another never beats
the mean of the two identities. With a penalty of at most 2, a gap column
never scores more than half an identity either. The matrix cells on the diagonal are therefore the gapless
prefix scores, and the diagonal-first traceback takes the diagonal all the
way back (`Alignment.IdenticalInputsUnchanged`, `Alignment.BlosumDiagonalDominantOn`,
and in `Alignment.Align`'s contract). The bound of 2 is tight: with penalty 3,
"A" against "A" scores 6 with a gap on each side, more than the 4 of the
match, and aligns as `-A` over `A-` (`Alignment.IdenticalInputsMayGap`). The
page's number field accepts such penalties. For every penalty, equal-length
inputs score at least their column-by-column score
(`Alignment.GaplessLowerBound`).

## Model

| member | source | states |
|---|---|---|
| Scoring.TableShape | scripts.js:3-26 | The alphabet has 20 letters and the table is 20 by 20. |
| Scoring.TableSymmetric | scripts.js:5-26 | BLOSUM62 is symmetric: entry (i, j) equals entry (j, i). |
| Scoring.DiagonalAtLeastFour | scripts.js:6-25 | Every residue scores at least 4 against itself. |
| Scoring.OffDiagonalAtMostThree | scripts.js:6-25 | Every pair of different alphabet positions scores at most 3. |
| Scoring.ToUpper | scripts.js:31-32 | The result is not a lower-case ASCII letter, dotless i or long s. A lower-case ASCII letter becomes its upper-case form (32 code points lower), dotless i becomes I and long s becomes S. Upper-case ASCII letters stay unchanged. A result in the alphabet comes from itself, from its lower-case ASCII form, or from dotless i or long s (for I and S). |
| Scoring.AlphabetDistinct | scripts.js:3 | The 20 letters are pairwise distinct, so `indexOf` names a unique position. |
| Scoring.IndexOf | scripts.js:31-32 | `indexOf` gives -1 exactly when the character is not in the alphabet. Otherwise the alphabet holds that character at the returned position. |
| Scoring.BlosumScore | scripts.js:30-35 | If either character, after upper-casing, is not a residue, the score is the gap penalty. |
| Scoring.BlosumScoreIsTableEntry | scripts.js:30-35 | Two residues score the table entry at the alphabet positions of their upper-case forms. |
| Scoring.BlosumSymmetric | scripts.js:30-35 | The pair score does not depend on the order of the pair. |
| Scoring.BlosumCaseInsensitive | scripts.js:31-32 | Scoring a pair equals scoring their upper-case forms. |
| Scoring.GapScoresPenalty | scripts.js:33 | A gap against any character scores the gap penalty. This includes a gap against a gap. |
| Scoring.DiagonalExamples | scripts.js:6-23 | A/A scores 4, W/W scores 11, and a/A scores 4 through upper-casing. |
| Scoring.Classify | scripts.js:36-40 | Conservative iff score >= 2; Neutral iff 0 <= score < 2; Non-conservative iff score < 0. |
| Scoring.BlosumDiagonalDominant | scripts.js:30-35 | For two residues, twice their pair score is at most the sum of their scores against themselves. Each such score is at least 4. |
| Scoring.ClassifyMonotone | scripts.js:36-40 | A higher score never gets a lower class. |
| Alignment.BlosumChargesGapPenalty | scripts.js:33 | Under the BLOSUM scorer, a gap symbol on either side of a column scores the gap penalty. This ties the rendered columns to the path's moves. |
| Alignment.GapCostIsProduct | scripts.js:44-45 | The border cell k holds k * gapPenalty. |
| Alignment.Max3 | scripts.js:50 | `Math.max` of three values is at least each of them and equals one of them. |
| Alignment.CellRecurrence | scripts.js:46-50 | The unfolding of `Cell` at an interior cell that `FillRow` uses to justify each assignment: the maximum of the diagonal move (with the pair score) and the up and left moves (with the gap penalty). It is a bridge, not a separate property. |
| Alignment.FillMatrix | scripts.js:42-51 | Returns a fresh (m+1) x (n+1) matrix. Every cell (a, b) holds `Cell(a, b)`, the optimal score of aligning seq1[..a] with seq2[..b]. |
| Alignment.FillRow | scripts.js:46-51 | Filling row i, given every earlier row and column 0, leaves rows 0..i and column 0 equal to the recurrence. The rows below i are unchanged. |
| Alignment.Choice | scripts.js:54-65 | The traceback's move out of (i, j) never leaves the matrix: a diagonal move needs i, j > 0; up needs i > 0; left needs j > 0. |
| Alignment.ChoiceAgreesWithTable | scripts.js:54-63 | Whichever move the traceback takes, the cell it leaves equals the cell it reaches plus that move's score. This includes the final `else` (left). |
| Alignment.TracePath | scripts.js:52-66 | The traceback from (i, j) is a path from (0, 0) to (i, j): each step is diagonal, up or left. |
| Alignment.WalkIsTrace | scripts.js:54-66 | Walking back from (i, j) while prepending to a suffix yields the traceback's rendered pair followed by that suffix. |
| Alignment.Traceback | scripts.js:52-66 | The three `while` loops return exactly the rendering of the traceback path from (m, n). |
| Alignment.PathLength | scripts.js:52-66 | A path to (i, j) has between max(i, j) and i + j columns. |
| Alignment.CellIsUpperBound | scripts.js:46-50 | No path to (i, j) scores more than `Cell(i, j)`. |
| Alignment.TracePathScore | scripts.js:54-63 | Over a filled table, the traceback path out of (i, j) scores exactly the table's cell (i, j). |
| Alignment.RenderScore | scripts.js:57-63 | When gap columns score the gap penalty, scoring the rendered strings column by column equals the score of the path. |
| Alignment.RenderRecoversInputs | scripts.js:57-65 | For gap-free inputs the rendering has equal-length rows and no gap-against-gap column. Deleting the gaps from each row gives back seq1[..i] and seq2[..j]. |
| Alignment.TraceIsOptimal | scripts.js:41-67 | The traceback's alignment has these properties: its path scores `Cell(m, n)` and no path scores more; its rows have equal length, between max(m, n) and m + n; when gap columns score the gap penalty, its columns score `Cell(m, n)`; for gap-free inputs it recovers them. |
| Alignment.TraceTopRow | scripts.js:66 | On the top row the traceback gives j gaps above the first j residues of seq2. |
| Alignment.TraceLeftColumn | scripts.js:65 | In the left column the traceback gives the first i residues of seq1 above i gaps. |
| Alignment.EmptyInputAlignment | scripts.js:44-45 | If one input is empty, the alignment pairs the other input with gaps. The score is its length times the gap penalty. |
| Alignment.GaplessRender | scripts.js:58 | The all-diagonal path renders the two prefixes unchanged. |
| Alignment.GaplessScore | scripts.js:46-47 | The all-diagonal path scores the sum of the column scores of the two prefixes. |
| Alignment.GaplessLowerBound | scripts.js:46-51 | For equal-length inputs, the corner cell is at least the column-by-column score of the unaligned pair. |
| Alignment.PathBelowSelfMean | scripts.js:46-50 | For a diagonally dominant scorer on s, twice the score of any alignment of s[..i] with s[..j] is at most the gapless score of s[..i] plus that of s[..j]. |
| Alignment.SelfDiagonalCell | scripts.js:46-50 | Under the same condition, the diagonal cell (k, k) is exactly the gapless score of s[..k]. |
| Alignment.SelfTracePath | scripts.js:54-58 | Under the same condition, from the diagonal cell (k, k) the traceback takes k diagonal moves. |
| Alignment.IdenticalInputsUnchanged | scripts.js:41-67 | Under the same condition, s aligned with itself comes back as (s, s), and the corner cell is the column score of s against itself. |
| Alignment.BlosumDiagonalDominantOn | scripts.js:30-35 | For a string of residues and a gap penalty of at most 2, the BLOSUM62 scorer is diagonally dominant on it. |
| Alignment.IdenticalInputsMayGap | scripts.js:57-62 | With gap penalty 3, "A" against "A" scores 6, and the traceback returns `-A` over `A-`. So the bound of 2 above is tight. |
| Alignment.Align | scripts.js:41-68 | The score is the optimum `Cell(m, n)` and no path scores more. The alignment is the traceback's pair, of equal lengths between max(m, n) and m + n, whose columns score exactly the score. For equal lengths the score is at least the gapless score. Identical residue inputs with a gap penalty of at most 2, the default -4 included, come back unchanged with the sum of their diagonal scores. Gap-free inputs are recovered by deleting gaps. An empty input gives the other input against gaps. |
| Statistics.BuildMatchLine | scripts.js:121-134 | Returns the number of identical columns and the number of similar columns, with identity <= similarity <= length. A column is similar when it is identical or pairs two non-gaps scoring above 0 under the default scorer. |
| Statistics.CountsOrdered | scripts.js:122-129 | Every identical column is similar, and neither count exceeds the number of columns. |
| Statistics.FullIdentityIffEqual | scripts.js:124 | Identity equals the length exactly when the two aligned strings are equal. |
| Statistics.GapColumns | scripts.js:234-235 | Returns the number of columns with a gap on either side. It is at most the length. |
| Statistics.SimilarAndGapColumnsDisjoint | scripts.js:234-235 | When no column pairs two gaps, similar columns and gap columns together number at most the length. |
| Statistics.LengthWarning | scripts.js:239-240 | For two non-empty inputs, the only case the page reaches (scripts.js:223 returns with an alert before the ratio when either input is empty), equal lengths never warn. For a zero length the expression itself would warn, but the page never evaluates it there. |
| Statistics.LengthWarningIsRatioTest | scripts.js:239-240 | For non-zero lengths, the integer test 5·abs(m-n) > 3·max(m, n) agrees with abs(m-n)/max(m, n) > 0.6. |
| Statistics.LengthWarningSymmetric | scripts.js:239-240 | The warning does not depend on the order of the inputs. |
| Variants.BlockKind | scripts.js:204-213 | The type table, one iff per type. Deletion: no substitution, gaps only above. Insertion: no substitution, gaps only below. Indel: no substitution, gaps on both sides or none. Substitution block: substitutions, no gaps. Complex: substitutions and some gap. |
| Variants.RunEnd | scripts.js:191-192 | The inner scan stops at the first matching column at or after i, or at the end. Every column it passes differs. |
| Variants.CountBlock | scripts.js:198-203 | The counting loop returns the number of columns with a gap above, with a gap below, and with two different residues. |
| Variants.DifferingColumnsSplit | scripts.js:198-203 | In a run of differing columns, every column is exactly one of: gap above, gap below, or substitution. The three counts sum to the length. |
| Variants.ScanBlock | scripts.js:191-214 | From a differing column, the scan ends where the maximal run ends and builds that run's block. |
| Variants.BlockFields | scripts.js:193-197 | For a reported block: posStart = startIdx + 1 and posEnd is the exclusive end. block1 and block2 are the two substrings of length len. The type is the table's verdict on the block's counts. |
| Variants.GetVariantBlocks | scripts.js:186-217 | The outer loop returns exactly the segmentation `VariantBlocks` of the aligned pair. |
| Variants.BlocksFromApart | scripts.js:189-192 | Blocks are in increasing order. Each ends at least one column before any later block starts. |
| Variants.BlocksFromCover | scripts.js:189-192 | Every differing column at or after the scan's start lies in some block. |
| Variants.VariantBlocksSegment | scripts.js:186-217 | The blocks are maximal runs of differing columns, increasing and pairwise apart. A column lies in some block iff it differs. Their lengths add up to the number of non-identical columns. There are no blocks iff the two strings are equal. |
| Variants.BlockDetails | scripts.js:269-279 | The detail loop returns one row per substituted column of the block, in column order, when hasSub > 0, and no rows otherwise. |
| Variants.SubstitutionRowsCount | scripts.js:271-274 | The detail rows of a range number its substituted columns. |
| Variants.SubstitutionRowsAreColumns | scripts.js:271-277 | Each row has the 1-based position of a column in the range and that column's two different residues. It carries their default-scorer score and its class. Positions increase. |
| Variants.DetailRowsCountSubstitutions | scripts.js:269-279 | A reported block's detail table has exactly `hasSub` rows. |

## Left out

- Page rendering and the browser are not modelled. This covers `renderWrappedAlignment`, the HTML tables, the click handlers, the result panel, the demo buttons and the spike-protein demo data. These are I/O; they compute nothing the model needs.
- The input sanitiser and gap parsing (scripts.js:220-223) are not modelled:
  - trimming, upper-casing and dropping non-alphabet characters;
  - `parseInt(...) || -4`, which turns a typed 0 into -4;
  - the alert for an empty input.
  
  `Align` takes any strings and any integer penalty. It therefore also covers what the sanitiser would let through.
- `toFixed(1)` is not modelled. The percentages the page prints are the proved counts divided by the alignment length, formatted as decimals. The `'0'` that `buildMatchLine` prints for an empty alignment is left out with them, as is the NaN gap percentage of an empty alignment. Decimal formatting is floating-point presentation.
- Alignment.Align: the model computes the matrix in unbounded integers, and so do `FillMatrix` and `Traceback`. The source computes `i * this.gapPenalty`, the running sums and the `===` tie-break tests (scripts.js:44-50, 57-59) in JavaScript numbers, which are IEEE doubles. The two agree while every value stays below 2^53 in magnitude. That holds when |gapPenalty|·(m + n) + 11·min(m, n) < 2^53, since a path has at most min(m, n) substitution columns, each scoring at most 11 in magnitude, and at most m + n gap columns. A non-finite penalty is not modelled: `parseInt` of a numeral too large for a double gives Infinity, `M[0][0]` becomes `0 * Infinity`, which is NaN, and every tie-break test then fails.
- Statistics.LengthWarningIsRatioTest: the source compares a binary floating-point ratio with 0.6; the lemma compares exact rationals. The two agree whenever the exact ratio is not within half an ulp of 0.6, which holds for all lengths below 2^26. A zero length never reaches the ratio, because `alignAndShow` returns with an alert first; `LengthWarning` still gives the expression's value there (the warning would show).
- JavaScript strings are UTF-16 code units and Dafny `char`s are Unicode scalar values, so a lone surrogate has no counterpart, and a character outside the Basic Multilingual Plane is one column in the model but two code units, so two columns, in `align`. For such input m, n and the alignment differ from the source's. The page's cleanup (scripts.js:220-221) removes every such character before aligning. `ToUpper` models `toUpperCase` only where the result can be an alphabet letter: ASCII plus dotless i and long s. Every other character stays unchanged. Its JavaScript upper case is never a residue either, so this does not change any score.
- `buildMatchLine`, the gap count and `getVariantBlocks` are stated for two aligned strings of equal length, the only shape `align` produces. JavaScript would read `undefined` past the shorter string; that is not modelled.
- The saved-comparison history is not modelled: `saveComparison` and `renderHistory` (scripts.js:299-322) keep the 20 most recent results in localStorage. That is storage and display, outside the computational core.
