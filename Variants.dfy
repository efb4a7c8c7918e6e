/** `getVariantBlocks`: the segmentation of an aligned pair into maximal runs
    of differing columns, each reported with its 1-based span, its two
    substrings, its length, its gap and substitution counts and its type; and
    the per-column substitution detail the page lists for a block. */
module Variants {
  import opened Scoring
  import opened Statistics

  /** The type of a run of differing columns. */
  datatype BlockType = Deletion | Insertion | Indel | SubstitutionBlock | Complex

  /** One entry of the list `getVariantBlocks` returns. */
  datatype VariantBlock = VariantBlock(
    posStart: nat,
    posEnd: nat,
    block1: string,
    block2: string,
    len: nat,
    kind: BlockType,
    startIdx: nat,
    hasSub: nat)

  /** The column has a gap in the first aligned string. */
  predicate GapAbove(x: char, y: char)
  {
    x == Gap
  }

  /** The column has a gap in the second aligned string. */
  predicate GapBelow(x: char, y: char)
  {
    y == Gap
  }

  /** The column pairs two different residues. */
  predicate Substituted(x: char, y: char)
  {
    x != Gap && y != Gap && x != y
  }

  /** The type table of `getVariantBlocks`: without substitutions, gaps on
      the first side only make a deletion, on the second side only an
      insertion, otherwise an indel; with substitutions, no gaps make a
      substitution block and any gap a complex block. */
  function BlockKind(gaps1: nat, gaps2: nat, hasSub: nat): (t: BlockType)
    ensures t == Deletion <==> hasSub == 0 && gaps1 > 0 && gaps2 == 0
    ensures t == Insertion <==> hasSub == 0 && gaps2 > 0 && gaps1 == 0
    ensures t == Indel <==> hasSub == 0 && (gaps1 == 0) == (gaps2 == 0)
    ensures t == SubstitutionBlock <==> hasSub > 0 && gaps1 == 0 && gaps2 == 0
    ensures t == Complex <==> hasSub > 0 && (gaps1 > 0 || gaps2 > 0)
  {
    if hasSub == 0 then
      if gaps1 > 0 && gaps2 == 0 then Deletion
      else if gaps2 > 0 && gaps1 == 0 then Insertion
      else Indel
    else if gaps1 == 0 && gaps2 == 0 then SubstitutionBlock
    else Complex
  }

  /** Where the run of differing columns that starts at i ends: the first
      column at or after i that matches, or the end of the alignment. */
  function RunEnd(aln1: string, aln2: string, i: nat): (e: nat)
    requires |aln1| == |aln2| && i <= |aln1|
    ensures i <= e <= |aln1|
    ensures forall k :: i <= k < e ==> aln1[k] != aln2[k]
    ensures e == |aln1| || aln1[e] == aln2[e]
    decreases |aln1| - i
  {
    if i == |aln1| || aln1[i] == aln2[i] then i else RunEnd(aln1, aln2, i + 1)
  }

  /** The entry `getVariantBlocks` pushes for the run of columns [s, e). */
  function MakeBlock(aln1: string, aln2: string, s: nat, e: nat): VariantBlock
    requires |aln1| == |aln2| && s < e <= |aln1|
  {
    var b1, b2 := aln1[s..e], aln2[s..e];
    var hasSub := ColumnCount(b1, b2, Substituted);
    VariantBlock(s + 1, e, b1, b2, e - s,
                 BlockKind(ColumnCount(b1, b2, GapAbove), ColumnCount(b1, b2, GapBelow), hasSub),
                 s, hasSub)
  }

  /** The blocks `getVariantBlocks` reports from column i on. */
  function BlocksFrom(aln1: string, aln2: string, i: nat): seq<VariantBlock>
    requires |aln1| == |aln2| && i <= |aln1|
    decreases |aln1| - i
  {
    if i == |aln1| then []
    else if aln1[i] == aln2[i] then BlocksFrom(aln1, aln2, i + 1)
    else
      var e := RunEnd(aln1, aln2, i);
      [MakeBlock(aln1, aln2, i, e)] + BlocksFrom(aln1, aln2, e)
  }

  /** The blocks of the whole aligned pair. */
  function VariantBlocks(aln1: string, aln2: string): seq<VariantBlock>
    requires |aln1| == |aln2|
  {
    BlocksFrom(aln1, aln2, 0)
  }

  /** `getVariantBlocks(aln1, aln2)`: skip matching columns; at a differing
      column walk to the end of the run, count its gaps and substitutions,
      type it and push it. */
  method GetVariantBlocks(aln1: string, aln2: string) returns (blocks: seq<VariantBlock>)
    requires |aln1| == |aln2|
    ensures blocks == VariantBlocks(aln1, aln2)
  {
    blocks := [];
    var i := 0;
    while i < |aln1|
      invariant i <= |aln1|
      invariant VariantBlocks(aln1, aln2) == blocks + BlocksFrom(aln1, aln2, i)
      decreases |aln1| - i
    {
      if aln1[i] == aln2[i] {
        BlocksFromSkip(aln1, aln2, i);
        i := i + 1;
        continue;
      }
      var start := i;
      var block;
      block, i := ScanBlock(aln1, aln2, start);
      BlocksFromRun(aln1, aln2, start);
      assert (blocks + [block]) + BlocksFrom(aln1, aln2, i) == blocks + ([block] + BlocksFrom(aln1, aln2, i));
      blocks := blocks + [block];
    }
  }

  /** The body of the outer loop of `getVariantBlocks` at a differing
      column: walk to the end of the run, count its gaps and substitutions,
      type it. */
  method ScanBlock(aln1: string, aln2: string, start: nat) returns (block: VariantBlock, i: nat)
    requires |aln1| == |aln2| && start < |aln1| && aln1[start] != aln2[start]
    ensures i == RunEnd(aln1, aln2, start)
    ensures block == MakeBlock(aln1, aln2, start, i)
  {
    i := start;
    while i < |aln1| && aln1[i] != aln2[i]
      invariant start <= i <= |aln1|
      invariant RunEnd(aln1, aln2, i) == RunEnd(aln1, aln2, start)
      decreases |aln1| - i
    {
      i := i + 1;
    }
    assert i == RunEnd(aln1, aln2, start);
    var block1 := aln1[start..i];
    var block2 := aln2[start..i];
    var len := i - start;
    var gaps1, gaps2, hasSub := CountBlock(block1, block2);
    var kind := BlockKind(gaps1, gaps2, hasSub);
    block := VariantBlock(start + 1, i, block1, block2, len, kind, start, hasSub);
  }

  /** The counting loop of `getVariantBlocks` over one block: gaps in the
      first string, gaps in the second, and substituted columns. */
  method CountBlock(block1: string, block2: string) returns (gaps1: nat, gaps2: nat, hasSub: nat)
    requires |block1| == |block2|
    ensures gaps1 == ColumnCount(block1, block2, GapAbove)
    ensures gaps2 == ColumnCount(block1, block2, GapBelow)
    ensures hasSub == ColumnCount(block1, block2, Substituted)
  {
    gaps1, gaps2, hasSub := 0, 0, 0;
    for k := 0 to |block1|
      invariant gaps1 == ColumnCount(block1[..k], block2[..k], GapAbove)
      invariant gaps2 == ColumnCount(block1[..k], block2[..k], GapBelow)
      invariant hasSub == ColumnCount(block1[..k], block2[..k], Substituted)
    {
      assert block1[..k + 1][..k] == block1[..k] && block2[..k + 1][..k] == block2[..k];
      if block1[k] == Gap {
        gaps1 := gaps1 + 1;
      }
      if block2[k] == Gap {
        gaps2 := gaps2 + 1;
      }
      if block1[k] != Gap && block2[k] != Gap && block1[k] != block2[k] {
        hasSub := hasSub + 1;
      }
    }
    assert block1[..|block1|] == block1 && block2[..|block2|] == block2;
  }

  // What the segmentation guarantees.

  /** The columns where the two strings differ. */
  predicate Differs(x: char, y: char)
  {
    x != y
  }

  /** b is the entry for a maximal run of differing columns: it lies inside
      the alignment, every column it spans differs, the columns just before
      and just after it (if any) match, and its fields are those
      `getVariantBlocks` computes for that run. */
  predicate IsVariantBlock(aln1: string, aln2: string, b: VariantBlock)
    requires |aln1| == |aln2|
  {
    && 0 < b.len && b.startIdx + b.len <= |aln1|
    && b == MakeBlock(aln1, aln2, b.startIdx, b.startIdx + b.len)
    && (forall k :: b.startIdx <= k < b.startIdx + b.len ==> aln1[k] != aln2[k])
    && (b.startIdx == 0 || aln1[b.startIdx - 1] == aln2[b.startIdx - 1])
    && (b.startIdx + b.len == |aln1| || aln1[b.startIdx + b.len] == aln2[b.startIdx + b.len])
  }

  /** The scan may start at column i: at the beginning, at the end, or next
      to a matching column, so no run is cut in two. */
  predicate ScanStart(aln1: string, aln2: string, i: nat)
    requires |aln1| == |aln2| && i <= |aln1|
  {
    i == 0 || i == |aln1| || aln1[i - 1] == aln2[i - 1] || aln1[i] == aln2[i]
  }

  /** Every column of a run of differing columns is a gap above, a gap below
      or a substitution, and exactly one of them. */
  lemma {:induction false} DifferingColumnsSplit(b1: string, b2: string)
    requires |b1| == |b2|
    requires forall k :: 0 <= k < |b1| ==> b1[k] != b2[k]
    ensures ColumnCount(b1, b2, GapAbove) + ColumnCount(b1, b2, GapBelow) + ColumnCount(b1, b2, Substituted) == |b1|
    decreases |b1|
  {
    if b1 != [] {
      var n := |b1| - 1;
      DifferingColumnsSplit(b1[..n], b2[..n]);
    }
  }

  /** The fields of a block: 1-based inclusive span, length, the two
      substrings, and counts that add up to the length. */
  lemma BlockFields(aln1: string, aln2: string, b: VariantBlock)
    requires |aln1| == |aln2| && IsVariantBlock(aln1, aln2, b)
    ensures b.posStart == b.startIdx + 1
    ensures b.len == b.posEnd - b.posStart + 1
    ensures b.block1 == aln1[b.startIdx..b.posEnd] && b.block2 == aln2[b.startIdx..b.posEnd]
    ensures |b.block1| == |b.block2| == b.len
    ensures ColumnCount(b.block1, b.block2, GapAbove) + ColumnCount(b.block1, b.block2, GapBelow) + b.hasSub == b.len
    ensures b.kind == BlockKind(ColumnCount(b.block1, b.block2, GapAbove), ColumnCount(b.block1, b.block2, GapBelow), b.hasSub)
  {
    var s, e := b.startIdx, b.startIdx + b.len;
    forall k | 0 <= k < e - s
      ensures aln1[s..e][k] != aln2[s..e][k]
    {
      assert aln1[s..e][k] == aln1[s + k] && aln2[s..e][k] == aln2[s + k];
    }
    DifferingColumnsSplit(aln1[s..e], aln2[s..e]);
  }

  /** Block b spans column c. */
  predicate Covers(b: VariantBlock, c: nat)
  {
    b.startIdx <= c < b.startIdx + b.len
  }

  // The two ways the scan advances: past a matching column, or past a whole
  // run of differing columns, which it reports.

  lemma BlocksFromSkip(aln1: string, aln2: string, i: nat)
    requires |aln1| == |aln2| && i < |aln1| && aln1[i] == aln2[i]
    ensures BlocksFrom(aln1, aln2, i) == BlocksFrom(aln1, aln2, i + 1)
  {
  }

  lemma BlocksFromRun(aln1: string, aln2: string, i: nat)
    requires |aln1| == |aln2| && i < |aln1| && aln1[i] != aln2[i]
    ensures RunEnd(aln1, aln2, i) > i
    ensures BlocksFrom(aln1, aln2, i)
         == [MakeBlock(aln1, aln2, i, RunEnd(aln1, aln2, i))] + BlocksFrom(aln1, aln2, RunEnd(aln1, aln2, i))
  {
  }

  /** Every reported block is a maximal run of differing columns at or after
      the column the scan starts from. */
  lemma {:induction false} BlocksFromAreRuns(aln1: string, aln2: string, i: nat)
    requires |aln1| == |aln2| && i <= |aln1| && ScanStart(aln1, aln2, i)
    ensures forall b :: b in BlocksFrom(aln1, aln2, i) ==> IsVariantBlock(aln1, aln2, b) && i <= b.startIdx
    decreases |aln1| - i
  {
    if i < |aln1| {
      if aln1[i] == aln2[i] {
        BlocksFromSkip(aln1, aln2, i);
        BlocksFromAreRuns(aln1, aln2, i + 1);
      } else {
        BlocksFromRun(aln1, aln2, i);
        var e := RunEnd(aln1, aln2, i);
        BlocksFromAreRuns(aln1, aln2, e);
        RunIsVariantBlock(aln1, aln2, i, e);
      }
    }
  }

  /** The run [i, e) the scan walks, started where the scan may start, is a
      maximal run. */
  lemma RunIsVariantBlock(aln1: string, aln2: string, i: nat, e: nat)
    requires |aln1| == |aln2| && i < |aln1| && ScanStart(aln1, aln2, i) && aln1[i] != aln2[i]
    requires e == RunEnd(aln1, aln2, i)
    ensures e > i && IsVariantBlock(aln1, aln2, MakeBlock(aln1, aln2, i, e))
  {
    var h := MakeBlock(aln1, aln2, i, e);
    assert h.startIdx == i && h.len == e - i;
  }

  /** The blocks come in increasing order, each ending strictly before the
      next begins (a matching column always separates two runs). */
  lemma {:induction false} BlocksFromOrdered(aln1: string, aln2: string, i: nat)
    requires |aln1| == |aln2| && i <= |aln1| && ScanStart(aln1, aln2, i)
    ensures var bs := BlocksFrom(aln1, aln2, i);
      forall k :: 0 <= k < |bs| - 1 ==> bs[k].startIdx + bs[k].len < bs[k + 1].startIdx
    decreases |aln1| - i
  {
    if i < |aln1| {
      if aln1[i] == aln2[i] {
        BlocksFromSkip(aln1, aln2, i);
        BlocksFromOrdered(aln1, aln2, i + 1);
      } else {
        BlocksFromRun(aln1, aln2, i);
        var e := RunEnd(aln1, aln2, i);
        BlocksFromOrdered(aln1, aln2, e);
        var rest := BlocksFrom(aln1, aln2, e);
        if rest != [] {
          BlocksFromAreRuns(aln1, aln2, e);
          assert rest[0] in rest;
          assert aln1[rest[0].startIdx] != aln2[rest[0].startIdx];
        }
      }
    }
  }

  /** In a list where each block ends before the next begins, each block
      ends before every later one begins. */
  lemma {:induction false} OrderedApart(bs: seq<VariantBlock>, k: nat, k2: nat)
    requires forall t :: 0 <= t < |bs| - 1 ==> bs[t].startIdx + bs[t].len < bs[t + 1].startIdx
    requires k < k2 < |bs|
    ensures bs[k].startIdx + bs[k].len < bs[k2].startIdx
    decreases k2 - k
  {
    if k + 1 < k2 {
      OrderedApart(bs, k, k2 - 1);
    }
  }

  /** Any two reported blocks are apart: the earlier one ends before the
      later one begins, so no column lies in two blocks. */
  lemma BlocksFromApart(aln1: string, aln2: string, i: nat)
    requires |aln1| == |aln2| && i <= |aln1| && ScanStart(aln1, aln2, i)
    ensures var bs := BlocksFrom(aln1, aln2, i);
      forall k, k2 :: 0 <= k < k2 < |bs| ==> bs[k].startIdx + bs[k].len < bs[k2].startIdx
  {
    var bs := BlocksFrom(aln1, aln2, i);
    BlocksFromOrdered(aln1, aln2, i);
    assert var bs' := BlocksFrom(aln1, aln2, i);
      forall t :: 0 <= t < |bs'| - 1 ==> bs'[t].startIdx + bs'[t].len < bs'[t + 1].startIdx;
    forall k, k2 | 0 <= k < k2 < |bs|
      ensures bs[k].startIdx + bs[k].len < bs[k2].startIdx
    {
      OrderedApart(bs, k, k2);
    }
  }

  /** Every differing column from i on is spanned by some block. */
  lemma {:induction false} BlocksFromCover(aln1: string, aln2: string, i: nat)
    requires |aln1| == |aln2| && i <= |aln1|
    ensures forall c :: i <= c < |aln1| && aln1[c] != aln2[c] ==>
      exists b :: b in BlocksFrom(aln1, aln2, i) && Covers(b, c)
    decreases |aln1| - i
  {
    if i < |aln1| {
      if aln1[i] == aln2[i] {
        BlocksFromSkip(aln1, aln2, i);
        BlocksFromCover(aln1, aln2, i + 1);
      } else {
        BlocksFromRun(aln1, aln2, i);
        var e := RunEnd(aln1, aln2, i);
        BlocksFromCover(aln1, aln2, e);
        var h := MakeBlock(aln1, aln2, i, e);
        assert h in BlocksFrom(aln1, aln2, i);
        assert forall c :: i <= c < e ==> Covers(h, c);
      }
    }
  }

  /** The blocks from i on span exactly the differing columns from i on. */
  lemma {:induction false} BlocksFromLength(aln1: string, aln2: string, i: nat)
    requires |aln1| == |aln2| && i <= |aln1|
    ensures TotalLength(BlocksFrom(aln1, aln2, i)) == ColumnCount(aln1[i..], aln2[i..], Differs)
    decreases |aln1| - i
  {
    if i == |aln1| {
      assert aln1[i..] == [] && aln2[i..] == [];
    } else if aln1[i] == aln2[i] {
      BlocksFromSkip(aln1, aln2, i);
      BlocksFromLength(aln1, aln2, i + 1);
      SuffixSplit(aln1, aln2, i, i + 1);
      assert aln1[i..i + 1][..0] == [] && aln2[i..i + 1][..0] == [];
    } else {
      BlocksFromRun(aln1, aln2, i);
      var e := RunEnd(aln1, aln2, i);
      BlocksFromLength(aln1, aln2, e);
      SuffixSplit(aln1, aln2, i, e);
      AllColumnsDiffer(aln1[i..e], aln2[i..e]);
    }
  }

  /** A count over the columns from i on splits at any later column j. */
  lemma SuffixSplit(aln1: string, aln2: string, i: nat, j: nat)
    requires |aln1| == |aln2| && i <= j <= |aln1|
    ensures ColumnCount(aln1[i..], aln2[i..], Differs)
         == ColumnCount(aln1[i..j], aln2[i..j], Differs) + ColumnCount(aln1[j..], aln2[j..], Differs)
  {
    assert aln1[i..] == aln1[i..j] + aln1[j..] && aln2[i..] == aln2[i..j] + aln2[j..];
    ColumnCountAppend(aln1[i..j], aln2[i..j], aln1[j..], aln2[j..], Differs);
  }

  /** The number of columns the blocks span, together. */
  function TotalLength(bs: seq<VariantBlock>): nat
  {
    if bs == [] then 0 else bs[0].len + TotalLength(bs[1..])
  }

  lemma {:induction false} AllColumnsDiffer(b1: string, b2: string)
    requires |b1| == |b2|
    requires forall k :: 0 <= k < |b1| ==> b1[k] != b2[k]
    ensures ColumnCount(b1, b2, Differs) == |b1|
    decreases |b1|
  {
    if b1 != [] {
      AllColumnsDiffer(b1[..|b1| - 1], b2[..|b2| - 1]);
    }
  }

  /** Every column is identical or differing, never both. */
  lemma {:induction false} IdenticalOrDiffering(a1: string, a2: string)
    requires |a1| == |a2|
    ensures ColumnCount(a1, a2, Identical) + ColumnCount(a1, a2, Differs) == |a1|
    decreases |a1|
  {
    if a1 != [] {
      IdenticalOrDiffering(a1[..|a1| - 1], a2[..|a2| - 1]);
    }
  }

  /** What `getVariantBlocks` returns for an aligned pair: maximal runs of
      differing columns, in increasing order and pairwise apart (so no column
      lies in two blocks), covering every differing column and nothing else, spanning
      together as many columns as are not identical; the list is empty
      exactly when the two strings are equal. */
  lemma VariantBlocksSegment(aln1: string, aln2: string)
    requires |aln1| == |aln2|
    ensures var bs := VariantBlocks(aln1, aln2);
      && (forall b :: b in bs ==> IsVariantBlock(aln1, aln2, b))
      && (forall k, k2 :: 0 <= k < k2 < |bs| ==> bs[k].startIdx + bs[k].len < bs[k2].startIdx)
      && (forall c :: 0 <= c < |aln1| ==> (aln1[c] != aln2[c] <==> exists b :: b in bs && Covers(b, c)))
      && TotalLength(bs) == |aln1| - ColumnCount(aln1, aln2, Identical)
      && (bs == [] <==> aln1 == aln2)
  {
    var bs := VariantBlocks(aln1, aln2);
    BlocksFromAreRuns(aln1, aln2, 0);
    BlocksFromApart(aln1, aln2, 0);
    BlocksFromCover(aln1, aln2, 0);
    BlocksFromLength(aln1, aln2, 0);
    assert aln1[0..] == aln1 && aln2[0..] == aln2;
    IdenticalOrDiffering(aln1, aln2);
    if bs != [] {
      assert bs[0] in bs;
      assert aln1[bs[0].startIdx] != aln2[bs[0].startIdx];
    }
    if aln1 != aln2 {
      var c :| 0 <= c < |aln1| && aln1[c] != aln2[c];
    }
  }

  /** One row of the detail table of a block. */
  datatype SubstitutionRow = SubstitutionRow(pos: nat, from: char, to: char, score: int, cls: SubstitutionClass)

  /** The detail row for column k: 1-based position, the two residues, their
      score under the default scorer and its class. */
  function RowAt(aln1: string, aln2: string, k: nat): SubstitutionRow
    requires k < |aln1| && k < |aln2|
  {
    var sc := BlosumScore(aln1[k], aln2[k], DefaultGapPenalty);
    SubstitutionRow(k + 1, aln1[k], aln2[k], sc, Classify(sc))
  }

  /** The detail rows for the substituted columns among [lo, hi), in column
      order. */
  function SubstitutionRows(aln1: string, aln2: string, lo: nat, hi: nat): seq<SubstitutionRow>
    requires |aln1| == |aln2| && lo <= hi <= |aln1|
    decreases hi - lo
  {
    if hi == lo then []
    else SubstitutionRows(aln1, aln2, lo, hi - 1) + (if Substituted(aln1[hi - 1], aln2[hi - 1]) then [RowAt(aln1, aln2, hi - 1)] else [])
  }

  /** The detail panel of a block: when it has substitutions, one row per
      substituted column of the block; otherwise no table. */
  method BlockDetails(aln1: string, aln2: string, block: VariantBlock) returns (rows: seq<SubstitutionRow>)
    requires |aln1| == |aln2| && block.startIdx + block.len <= |aln1|
    ensures rows == if block.hasSub > 0 then SubstitutionRows(aln1, aln2, block.startIdx, block.startIdx + block.len) else []
  {
    rows := [];
    if block.hasSub > 0 {
      for k := block.startIdx to block.startIdx + block.len
        invariant rows == SubstitutionRows(aln1, aln2, block.startIdx, k)
      {
        var a := aln1[k];
        var b := aln2[k];
        if a != b && a != Gap && b != Gap {
          var sc := BlosumScore(a, b, DefaultGapPenalty);
          rows := rows + [SubstitutionRow(k + 1, a, b, sc, Classify(sc))];
        }
      }
    }
  }

  /** There is one row per substituted column of [lo, hi). */
  lemma {:induction false} SubstitutionRowsCount(aln1: string, aln2: string, lo: nat, hi: nat)
    requires |aln1| == |aln2| && lo <= hi <= |aln1|
    ensures |SubstitutionRows(aln1, aln2, lo, hi)| == ColumnCount(aln1[lo..hi], aln2[lo..hi], Substituted)
    decreases hi - lo
  {
    if hi > lo {
      SubstitutionRowsCount(aln1, aln2, lo, hi - 1);
      assert aln1[lo..hi][..hi - 1 - lo] == aln1[lo..hi - 1];
      assert aln2[lo..hi][..hi - 1 - lo] == aln2[lo..hi - 1];
    }
  }

  /** Each row sits at the 1-based position of its column inside [lo, hi),
      pairs two different residues, and carries their score under the
      default scorer and its class; the positions increase. */
  lemma {:induction false} SubstitutionRowsAreColumns(aln1: string, aln2: string, lo: nat, hi: nat)
    requires |aln1| == |aln2| && lo <= hi <= |aln1|
    ensures var rows := SubstitutionRows(aln1, aln2, lo, hi);
      && (forall r :: r in rows ==>
            && lo < r.pos <= hi
            && r.from == aln1[r.pos - 1] && r.to == aln2[r.pos - 1]
            && Substituted(r.from, r.to)
            && r.score == BlosumScore(r.from, r.to, DefaultGapPenalty)
            && r.cls == Classify(r.score))
      && (forall k :: 0 <= k < |rows| - 1 ==> rows[k].pos < rows[k + 1].pos)
    decreases hi - lo
  {
    if hi > lo {
      SubstitutionRowsAreColumns(aln1, aln2, lo, hi - 1);
    }
  }

  /** The detail table of a reported block has exactly `hasSub` rows. */
  lemma DetailRowsCountSubstitutions(aln1: string, aln2: string, b: VariantBlock)
    requires |aln1| == |aln2| && IsVariantBlock(aln1, aln2, b)
    ensures |SubstitutionRows(aln1, aln2, b.startIdx, b.startIdx + b.len)| == b.hasSub
  {
    SubstitutionRowsCount(aln1, aln2, b.startIdx, b.startIdx + b.len);
  }
}
