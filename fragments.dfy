/**
 * The list of fragments of a file (build_fragments_list of
 * src/dll/udefrag/defrag.c): the block map with every run of physically
 * contiguous blocks merged into one fragment, and runs of total length
 * zero dropped.
 */
module Fragments {
  import opened Types

  /** Block `b` starts on the cluster right after block `a`. */
  predicate Contiguous(a: Block, b: Block)
  {
    b.lcn == a.lcn + a.length
  }

  /**
   * The block map cut into runs: a block joins the run of the block
   * before it exactly when it is contiguous with that block.
   */
  function Runs(bs: seq<Block>): (g: seq<seq<Block>>)
    ensures |g| <= |bs|
    ensures bs != [] ==> |g| > 0
    ensures forall k :: 0 <= k < |g| ==> g[k] != []
    decreases |bs|
  {
    if bs == [] then []
    else
      var g := Runs(bs[..|bs| - 1]);
      var b := bs[|bs| - 1];
      if |bs| > 1 && Contiguous(bs[|bs| - 2], b) then g[..|g| - 1] + [g[|g| - 1] + [b]]
      else g + [[b]]
  }

  /** The runs put back together. */
  function Flatten(gs: seq<seq<Block>>): seq<Block>
  {
    if gs == [] then [] else Flatten(gs[..|gs| - 1]) + gs[|gs| - 1]
  }

  /** The fragment a nonempty run becomes: its start and its total length. */
  function Fragment(r: seq<Block>): Block
    requires r != []
  {
    Block(r[0].vcn, r[0].lcn, SumLengths(r))
  }

  /** The fragments of a list of runs: one per run of nonzero length. */
  function Merge(gs: seq<seq<Block>>): seq<Block>
    requires forall k :: 0 <= k < |gs| ==> gs[k] != []
  {
    if gs == [] then []
    else
      var last := gs[|gs| - 1];
      Merge(gs[..|gs| - 1]) + (if SumLengths(last) > 0 then [Fragment(last)] else [])
  }

  /** The fragment list build_fragments_list returns for a block map. */
  function Fragments(bs: seq<Block>): seq<Block>
  {
    Merge(Runs(bs))
  }

  // ---------------------------------------------------------------------
  // The runs are the maximal contiguous pieces of the block map
  // ---------------------------------------------------------------------

  lemma FlattenSnoc(gs: seq<seq<Block>>, r: seq<Block>)
    ensures Flatten(gs + [r]) == Flatten(gs) + r
  {
    assert (gs + [r])[..|gs|] == gs;
  }

  /** Runs of a map that ends in block `b`: `b` extends the last run or starts its own. */
  lemma RunsSnoc(init: seq<Block>, b: Block)
    ensures var g := Runs(init);
      Runs(init + [b]) ==
        if init != [] && Contiguous(init[|init| - 1], b) then g[..|g| - 1] + [g[|g| - 1] + [b]]
        else g + [[b]]
  {
    var bs := init + [b];
    assert bs[..|bs| - 1] == init;
  }

  /** Cutting into runs loses and reorders nothing. */
  lemma {:induction false} RunsFlatten(bs: seq<Block>)
    ensures Flatten(Runs(bs)) == bs
    decreases |bs|
  {
    if bs != [] {
      var init := bs[..|bs| - 1];
      var b := bs[|bs| - 1];
      assert bs == init + [b];
      RunsFlatten(init);
      RunsSnoc(init, b);
      var g := Runs(init);
      if init != [] && Contiguous(init[|init| - 1], b) {
        var m := |g|;
        assert g == g[..m - 1] + [g[m - 1]];
        FlattenSnoc(g[..m - 1], g[m - 1]);
        FlattenSnoc(g[..m - 1], g[m - 1] + [b]);
      } else {
        FlattenSnoc(g, [b]);
      }
    }
  }

  /** Inside a run every block is contiguous with the one before it. */
  predicate RunsContiguous(g: seq<seq<Block>>)
  {
    forall k, j :: 0 <= k < |g| && 0 < j < |g[k]| ==> Contiguous(g[k][j - 1], g[k][j])
  }

  /** The first block of a run is not contiguous with the last block of the run before. */
  predicate RunsMaximal(g: seq<seq<Block>>)
    requires forall k :: 0 <= k < |g| ==> g[k] != []
  {
    forall k :: 0 < k < |g| ==> !Contiguous(g[k - 1][|g[k - 1]| - 1], g[k][0])
  }

  /** The last block of the last run is the last block of the map. */
  lemma {:induction false} RunsLast(bs: seq<Block>)
    requires bs != []
    ensures var g := Runs(bs); g[|g| - 1][|g[|g| - 1]| - 1] == bs[|bs| - 1]
  {
  }

  predicate NonEmptyRuns(g: seq<seq<Block>>)
  {
    forall k :: 0 <= k < |g| ==> g[k] != []
  }

  /** Appending a block that is contiguous with the last run's end keeps the shape. */
  lemma ExtendShape(g: seq<seq<Block>>, b: Block)
    requires g != [] && NonEmptyRuns(g) && RunsContiguous(g) && RunsMaximal(g)
    requires Contiguous(g[|g| - 1][|g[|g| - 1]| - 1], b)
    ensures var h := g[..|g| - 1] + [g[|g| - 1] + [b]];
      NonEmptyRuns(h) && RunsContiguous(h) && RunsMaximal(h)
  {
    var m := |g|;
    var h := g[..m - 1] + [g[m - 1] + [b]];
    forall k, j | 0 <= k < |h| && 0 < j < |h[k]|
      ensures Contiguous(h[k][j - 1], h[k][j])
    {
      if k < m - 1 {
        assert h[k] == g[k];
      } else if j < |g[m - 1]| {
        assert h[k][j - 1] == g[m - 1][j - 1] && h[k][j] == g[m - 1][j];
      } else {
        assert h[k][j - 1] == g[m - 1][|g[m - 1]| - 1];
      }
    }
    forall k | 0 < k < |h|
      ensures !Contiguous(h[k - 1][|h[k - 1]| - 1], h[k][0])
    {
      assert h[k - 1] == g[k - 1];
      assert h[k][0] == g[k][0];
    }
  }

  /** Appending a block that is not contiguous with the last run's end as a run of its own keeps the shape. */
  lemma NewRunShape(g: seq<seq<Block>>, b: Block)
    requires NonEmptyRuns(g) && RunsContiguous(g) && RunsMaximal(g)
    requires g != [] ==> !Contiguous(g[|g| - 1][|g[|g| - 1]| - 1], b)
    ensures var h := g + [[b]];
      NonEmptyRuns(h) && RunsContiguous(h) && RunsMaximal(h)
  {
    var h := g + [[b]];
    forall k, j | 0 <= k < |h| && 0 < j < |h[k]|
      ensures Contiguous(h[k][j - 1], h[k][j])
    {
      assert h[k] == g[k];
    }
    forall k | 0 < k < |h|
      ensures !Contiguous(h[k - 1][|h[k - 1]| - 1], h[k][0])
    {
      assert h[k - 1] == g[k - 1];
      if k < |g| {
        assert h[k] == g[k];
      }
    }
  }

  /**
   * The runs are the maximal contiguous pieces of the map: inside a run
   * each block follows on from the one before, and no run could be
   * joined to the run before it.
   */
  lemma {:induction false} RunsShape(bs: seq<Block>)
    ensures RunsContiguous(Runs(bs))
    ensures RunsMaximal(Runs(bs))
    decreases |bs|
  {
    if bs != [] {
      var init := bs[..|bs| - 1];
      var b := bs[|bs| - 1];
      assert bs == init + [b];
      RunsShape(init);
      RunsSnoc(init, b);
      var g := Runs(init);
      if init != [] {
        RunsLast(init);
      }
      if init != [] && Contiguous(init[|init| - 1], b) {
        ExtendShape(g, b);
      } else {
        NewRunShape(g, b);
      }
    }
  }

  // ---------------------------------------------------------------------
  // What the fragment list keeps
  // ---------------------------------------------------------------------

  lemma {:induction false} MergeSum(gs: seq<seq<Block>>)
    requires forall k :: 0 <= k < |gs| ==> gs[k] != []
    ensures SumLengths(Merge(gs)) == SumLengths(Flatten(gs))
  {
    if gs != [] {
      var init := gs[..|gs| - 1];
      var last := gs[|gs| - 1];
      MergeSum(init);
      var tail := if SumLengths(last) > 0 then [Fragment(last)] else [];
      SumLengthsAppend(Merge(init), tail);
      SumLengthsAppend(Flatten(init), last);
      assert SumLengths(tail) == SumLengths(last);
    }
  }

  lemma {:induction false} MergeShape(gs: seq<seq<Block>>)
    requires forall k :: 0 <= k < |gs| ==> gs[k] != []
    ensures |Merge(gs)| <= |gs|
    ensures forall i :: 0 <= i < |Merge(gs)| ==> Merge(gs)[i].length > 0
  {
    if gs != [] {
      MergeShape(gs[..|gs| - 1]);
    }
  }

  /**
   * The fragments cover exactly as many clusters as the block map, no
   * fragment is empty, and there are no more fragments than blocks.
   */
  lemma FragmentsSpec(bs: seq<Block>)
    ensures SumLengths(Fragments(bs)) == SumLengths(bs)
    ensures |Fragments(bs)| <= |bs|
    ensures forall i :: 0 <= i < |Fragments(bs)| ==> Fragments(bs)[i].length > 0
  {
    MergeSum(Runs(bs));
    RunsFlatten(bs);
    MergeShape(Runs(bs));
  }

  // ---------------------------------------------------------------------
  // The loop of build_fragments_list
  // ---------------------------------------------------------------------

  /**
   * build_fragments_list: walks the block map once, extending the current
   * run while blocks are contiguous and emitting it, if nonempty, when a
   * block breaks the run and at the end.
   */
  method BuildFragmentsList(blocks: seq<Block>) returns (fragments: seq<Block>)
    ensures fragments == Fragments(blocks)
  {
    fragments := [];
    if blocks == [] {
      return;
    }
    var vcn: nat, lcn: nat, length: nat := blocks[0].vcn, blocks[0].lcn, blocks[0].length;
    ProgressStart(blocks);
    var i := 1;
    while i < |blocks|
      invariant 1 <= i <= |blocks|
      invariant Progress(blocks, i, fragments, vcn, lcn, length)
    {
      var b := blocks[i];
      if b.lcn == blocks[i - 1].lcn + blocks[i - 1].length {
        ProgressJoin(blocks, i, fragments, vcn, lcn, length);
        length := length + b.length;
      } else {
        ProgressBreak(blocks, i, fragments, vcn, lcn, length);
        if length > 0 {
          fragments := fragments + [Block(vcn, lcn, length)];
        }
        vcn, lcn, length := b.vcn, b.lcn, b.length;
      }
      i := i + 1;
    }
    ProgressDone(blocks, fragments, vcn, lcn, length);
    if length > 0 {
      fragments := fragments + [Block(vcn, lcn, length)];
    }
  }

  /**
   * The state of the walk after `i` blocks: `fragments` holds the
   * fragments of every run but the last, and (`vcn`, `lcn`, `length`)
   * describe the last run so far.
   */
  ghost predicate Progress(blocks: seq<Block>, i: nat, fragments: seq<Block>, vcn: nat, lcn: nat, length: nat)
    requires 1 <= i <= |blocks|
  {
    var g := Runs(blocks[..i]);
    |g| > 0 && fragments == Merge(g[..|g| - 1]) &&
    g[|g| - 1][0].vcn == vcn && g[|g| - 1][0].lcn == lcn && SumLengths(g[|g| - 1]) == length
  }

  lemma MergeSnoc(g: seq<seq<Block>>, r: seq<Block>)
    requires NonEmptyRuns(g) && r != []
    ensures Merge(g + [r]) == Merge(g) + (if SumLengths(r) > 0 then [Fragment(r)] else [])
  {
    assert (g + [r])[..|g|] == g;
  }

  lemma ProgressStart(blocks: seq<Block>)
    requires blocks != []
    ensures Progress(blocks, 1, [], blocks[0].vcn, blocks[0].lcn, blocks[0].length)
  {
    RunsSnoc([], blocks[0]);
    assert blocks[..1] == [] + [blocks[0]];
  }

  lemma ProgressJoin(blocks: seq<Block>, i: nat, fragments: seq<Block>, vcn: nat, lcn: nat, length: nat)
    requires 1 <= i < |blocks| && Progress(blocks, i, fragments, vcn, lcn, length)
    requires Contiguous(blocks[i - 1], blocks[i])
    ensures Progress(blocks, i + 1, fragments, vcn, lcn, length + blocks[i].length)
  {
    var init := blocks[..i];
    var b := blocks[i];
    var g := Runs(init);
    var last := g[|g| - 1];
    assert blocks[..i + 1] == init + [b];
    assert init[|init| - 1] == blocks[i - 1];
    RunsSnoc(init, b);
    var h := g[..|g| - 1] + [last + [b]];
    assert Runs(blocks[..i + 1]) == h;
    assert h[..|h| - 1] == g[..|g| - 1];
    SumLengthsAppend(last, [b]);
  }

  lemma ProgressBreak(blocks: seq<Block>, i: nat, fragments: seq<Block>, vcn: nat, lcn: nat, length: nat)
    requires 1 <= i < |blocks| && Progress(blocks, i, fragments, vcn, lcn, length)
    requires !Contiguous(blocks[i - 1], blocks[i])
    ensures Progress(blocks, i + 1, fragments + (if length > 0 then [Block(vcn, lcn, length)] else []),
      blocks[i].vcn, blocks[i].lcn, blocks[i].length)
  {
    var init := blocks[..i];
    var b := blocks[i];
    var g := Runs(init);
    var last := g[|g| - 1];
    assert blocks[..i + 1] == init + [b];
    assert init[|init| - 1] == blocks[i - 1];
    RunsSnoc(init, b);
    var h := g + [[b]];
    assert Runs(blocks[..i + 1]) == h;
    assert h[..|h| - 1] == g;
    MergeSnoc(g[..|g| - 1], last);
    assert g == g[..|g| - 1] + [last];
  }

  lemma ProgressDone(blocks: seq<Block>, fragments: seq<Block>, vcn: nat, lcn: nat, length: nat)
    requires blocks != [] && Progress(blocks, |blocks|, fragments, vcn, lcn, length)
    ensures fragments + (if length > 0 then [Block(vcn, lcn, length)] else []) == Fragments(blocks)
  {
    assert blocks[..|blocks|] == blocks;
    var g := Runs(blocks);
    MergeSnoc(g[..|g| - 1], g[|g| - 1]);
    assert g == g[..|g| - 1] + [g[|g| - 1]];
  }

  /** What the walk has emitted so far begins the fragment list of the whole map. */
  lemma {:induction false} CompletedPrefix(blocks: seq<Block>, i: nat, fragments: seq<Block>, vcn: nat, lcn: nat, length: nat)
    requires 1 <= i <= |blocks| && Progress(blocks, i, fragments, vcn, lcn, length)
    ensures fragments <= Fragments(blocks)
    decreases |blocks| - i
  {
    if i == |blocks| {
      ProgressDone(blocks, fragments, vcn, lcn, length);
    } else if Contiguous(blocks[i - 1], blocks[i]) {
      ProgressJoin(blocks, i, fragments, vcn, lcn, length);
      CompletedPrefix(blocks, i + 1, fragments, vcn, lcn, length + blocks[i].length);
    } else {
      ProgressBreak(blocks, i, fragments, vcn, lcn, length);
      CompletedPrefix(blocks, i + 1, fragments + (if length > 0 then [Block(vcn, lcn, length)] else []),
        blocks[i].vcn, blocks[i].lcn, blocks[i].length);
    }
  }
}
