/**
 * The arithmetic of the volume optimizer of src/dll/udefrag/optimize.c:
 * advancing a VCN through a file's map, the moves cleanup_space issues,
 * the count of allocated clusters behind an LCN, the test that sends a
 * block to the end of the disk, the cutting off of already sorted groups
 * of files, and the counters and results of `optimize` and `optimize_mft`.
 */
module Optimize {
  import opened Types
  import Move
  import Fragments
  import Search

  // ---------------------------------------------------------------------
  // advance_vcn
  // ---------------------------------------------------------------------

  /** A map as the file system reports it: nonempty blocks in increasing VCN order. */
  predicate Ordered(bs: seq<Block>)
  {
    (forall i :: 0 <= i < |bs| ==> bs[i].length > 0) &&
    (forall i, j :: 0 <= i < j < |bs| ==> Move.End(bs[i]) <= bs[j].vcn)
  }

  /** Clusters of the map from `vcn` in block `i` to the start of block `k`. */
  function Walk(bs: seq<Block>, i: nat, vcn: nat, k: nat): int
    requires i < k <= |bs|
  {
    Move.End(bs[i]) - vcn + SumLengths(bs[i + 1..k])
  }

  /** Clusters of the map from `vcn` in block `i` to `r` in block `k`. */
  function Distance(bs: seq<Block>, i: nat, vcn: nat, k: nat, r: int): int
    requires i <= k < |bs|
  {
    if k == i then r - vcn else Walk(bs, i, vcn, k) + (r - bs[k].vcn)
  }

  /**
   * `r` is what advancing `vcn`, which lies in block `i`, by `n` clusters
   * of the map must give: the VCN `n` map clusters further on, the end
   * of the last block when exactly the rest of the map is asked for, and
   * 0 when more is asked for.
   */
  predicate Advanced(bs: seq<Block>, i: nat, vcn: nat, n: nat, r: int)
    requires i < |bs|
  {
    var available := Walk(bs, i, vcn, |bs|);
    && (n > available ==> r == 0)
    && (n == available ==> r == Move.End(bs[|bs| - 1]))
    && (n < available ==> exists k :: i <= k < |bs| && bs[k].vcn <= r < Move.End(bs[k]) && Distance(bs, i, vcn, k, r) == n)
  }

  /**
   * advance_vcn: the VCN `n` clusters of the map after `vcn`; `vcn`
   * itself for `n == 0`, and 0 when the map ends first.
   */
  method AdvanceVcn(blocks: seq<Block>, vcn: nat, n: nat) returns (r: int)
    ensures n == 0 ==> r == vcn
    ensures n > 0 && (forall j :: 0 <= j < |blocks| ==> Move.End(blocks[j]) <= vcn) ==> r == 0
    ensures n > 0 && Ordered(blocks) && Move.FirstBlockOf(blocks, vcn).Some? ==>
      Advanced(blocks, Move.FirstBlockOf(blocks, vcn).value, vcn, n, r)
  {
    if n == 0 {
      return vcn;
    }
    ghost var ord := Ordered(blocks) && Move.FirstBlockOf(blocks, vcn).Some?;
    ghost var i0: nat := if ord then Move.FirstBlockOf(blocks, vcn).value else 0;
    var cur: int := vcn;
    var left: int := n;
    var i := 0;
    while i < |blocks|
      invariant 0 <= i <= |blocks| && left > 0 && (i < |blocks| || |blocks| == 0)
      invariant ord ==> i0 < |blocks| && Move.Holds(blocks[i0], vcn)
      invariant ord && i < |blocks| ==> Walked(blocks, i0, vcn, n, i, cur, left)
    {
      var b := blocks[i];
      if ord {
        OrderedPosition(blocks, i0, vcn, i);
      }
      if b.vcn + b.length > vcn {
        var rem := b.length - (cur - b.vcn);
        if left > rem {
          if ord {
            AdvancePast(blocks, i0, vcn, n, i, cur, left);
          }
          left := left - rem;
          cur := if i + 1 < |blocks| then blocks[i + 1].vcn else blocks[0].vcn;
        } else if left == rem {
          if ord {
            AdvanceToEnd(blocks, i0, vcn, n, i, cur, left);
          }
          return if i == |blocks| - 1 then b.vcn + b.length else blocks[i + 1].vcn;
        } else {
          if ord {
            AdvanceInside(blocks, i0, vcn, n, i, cur, left);
          }
          return cur + left;
        }
      }
      if i == |blocks| - 1 {
        break;
      }
      i := i + 1;
    }
    return 0;
  }

  /**
   * The state of advance_vcn's walk at block `i` of an ordered map, `vcn`
   * lying in block `i0`: before that block nothing is counted; after it
   * `cur` is the start of block `i` and `left` what remains of `n`.
   */
  predicate Walked(bs: seq<Block>, i0: nat, vcn: nat, n: nat, i: nat, cur: int, left: int)
    requires i0 < |bs| && i < |bs|
  {
    && (i <= i0 ==> cur == vcn && left == n)
    && (i0 < i ==> cur == bs[i].vcn && left == n - Walk(bs, i0, vcn, i))
  }

  /** The walk at a block that holds more than what is left stops inside it. */
  lemma AdvanceInside(bs: seq<Block>, i0: nat, vcn: nat, n: nat, i: nat, cur: int, left: int)
    requires i0 < |bs| && i < |bs| && Ordered(bs) && Move.Holds(bs[i0], vcn) && Walked(bs, i0, vcn, n, i, cur, left)
    requires Move.End(bs[i]) > vcn && 0 < left < bs[i].length - (cur - bs[i].vcn)
    ensures Advanced(bs, i0, vcn, n, cur + left)
  {
    OrderedPosition(bs, i0, vcn, i);
    WalkRest(bs, i0, vcn, i);
    assert Distance(bs, i0, vcn, i, cur + left) == n;
  }

  /** The walk at a block that holds exactly what is left stops at the start of the next block, or at the end. */
  lemma AdvanceToEnd(bs: seq<Block>, i0: nat, vcn: nat, n: nat, i: nat, cur: int, left: int)
    requires i0 < |bs| && i < |bs| && Ordered(bs) && Move.Holds(bs[i0], vcn) && Walked(bs, i0, vcn, n, i, cur, left)
    requires Move.End(bs[i]) > vcn && 0 < left == bs[i].length - (cur - bs[i].vcn)
    ensures Advanced(bs, i0, vcn, n, if i == |bs| - 1 then Move.End(bs[i]) else bs[i + 1].vcn)
  {
    OrderedPosition(bs, i0, vcn, i);
    WalkStep(bs, i0, vcn, i);
    if i + 1 < |bs| {
      WalkRest(bs, i0, vcn, i + 1);
      assert Distance(bs, i0, vcn, i + 1, bs[i + 1].vcn) == n;
    }
  }

  /** The walk passes a block that holds less than what is left. */
  lemma AdvancePast(bs: seq<Block>, i0: nat, vcn: nat, n: nat, i: nat, cur: int, left: int)
    requires i0 < |bs| && i < |bs| && Ordered(bs) && Move.Holds(bs[i0], vcn) && Walked(bs, i0, vcn, n, i, cur, left)
    requires Move.End(bs[i]) > vcn && left > bs[i].length - (cur - bs[i].vcn)
    ensures i + 1 < |bs| ==>
      Walked(bs, i0, vcn, n, i + 1, bs[i + 1].vcn, left - (bs[i].length - (cur - bs[i].vcn)))
    ensures i + 1 == |bs| ==> Advanced(bs, i0, vcn, n, 0)
  {
    OrderedPosition(bs, i0, vcn, i);
    WalkStep(bs, i0, vcn, i);
  }

  /** In an ordered map the blocks before the one holding `vcn` end at or before it, the others after it. */
  lemma OrderedPosition(bs: seq<Block>, i0: nat, vcn: nat, i: nat)
    requires i0 < |bs| && i < |bs| && Ordered(bs) && Move.Holds(bs[i0], vcn)
    ensures i < i0 <==> Move.End(bs[i]) <= vcn
  {
    if i < i0 {
      assert Move.End(bs[i]) <= bs[i0].vcn;
    } else if i > i0 {
      assert Move.End(bs[i0]) <= bs[i].vcn;
    }
  }

  /** The walk to the start of block `i + 1` adds block `i`, or the tail of it for the first block. */
  lemma WalkStep(bs: seq<Block>, i0: nat, vcn: nat, i: nat)
    requires i0 <= i < |bs|
    ensures Walk(bs, i0, vcn, i + 1) == if i == i0 then Move.End(bs[i0]) - vcn else Walk(bs, i0, vcn, i) + bs[i].length
  {
    if i > i0 {
      assert bs[i0 + 1..i + 1] == bs[i0 + 1..i] + [bs[i]];
      SumLengthsAppend(bs[i0 + 1..i], [bs[i]]);
    }
  }

  /** With nonempty blocks, the walk to the end of the map passes the start of every later block. */
  lemma WalkRest(bs: seq<Block>, i0: nat, vcn: nat, i: nat)
    requires i0 <= i < |bs| && Ordered(bs) && Move.Holds(bs[i0], vcn)
    ensures i == i0 ==> Walk(bs, i0, vcn, |bs|) >= Move.End(bs[i0]) - vcn
    ensures i > i0 ==> Walk(bs, i0, vcn, |bs|) >= Walk(bs, i0, vcn, i) + bs[i].length
    ensures i + 1 < |bs| ==> Walk(bs, i0, vcn, |bs|) > Walk(bs, i0, vcn, i + 1)
  {
    assert bs[i0 + 1..|bs|] == bs[i0 + 1..i + 1] + bs[i + 1..|bs|];
    SumLengthsAppend(bs[i0 + 1..i + 1], bs[i + 1..|bs|]);
    WalkStep(bs, i0, vcn, i);
    if i + 1 < |bs| {
      assert bs[i + 1] == bs[i + 1..|bs|][0];
    }
  }

  // ---------------------------------------------------------------------
  // cleanup_space
  // ---------------------------------------------------------------------

  /** One move of cleanup_space: `length` clusters from `vcn` of the file to `target`. */
  datatype Portion = Portion(vcn: nat, length: nat, target: nat)

  function Total(ps: seq<Portion>): nat
  {
    if ps == [] then 0 else Total(ps[..|ps| - 1]) + ps[|ps| - 1].length
  }

  /** A nonempty free region wholly outside the reserved range `[start, end]`. */
  predicate Outside(r: Region, start: nat, end: nat)
  {
    r.length > 0 && (r.lcn > end || r.lcn + r.length <= start)
  }

  /** The search of cleanup_space: the last region of the list outside the reserved range. */
  method LastOutsideRegion(rs: seq<Region>, start: nat, end: nat) returns (k: Option<nat>)
    ensures k.Some? ==> k.value < |rs| && Outside(rs[k.value], start, end)
    ensures k.Some? ==> forall j :: k.value < j < |rs| ==> !Outside(rs[j], start, end)
    ensures k.None? ==> forall j :: 0 <= j < |rs| ==> !Outside(rs[j], start, end)
  {
    var i := |rs|;
    while i > 0
      invariant 0 <= i <= |rs|
      invariant forall j :: i <= j < |rs| ==> !Outside(rs[j], start, end)
    {
      if Outside(rs[i - 1], start, end) {
        return Some(i - 1);
      }
      i := i - 1;
    }
    return None;
  }

  /**
   * Portion `p` is what cleanup_space moves when `done` of `clusters`
   * clusters from `vcn` are moved and the free list is `rs`: from
   * `vcn + done` on, as many clusters as the last region outside the
   * reserved range holds, at most the rest, to the tail end of that region.
   */
  predicate Step(rs: seq<Region>, start: nat, end: nat, clusters: nat, done: nat, vcn: nat, p: Portion)
  {
    done < clusters &&
    exists k :: 0 <= k < |rs| && Outside(rs[k], start, end) &&
      (forall j :: k < j < |rs| ==> !Outside(rs[j], start, end)) &&
      var n := if rs[k].length <= clusters - done then rs[k].length else clusters - done;
      p == Portion(vcn + done, n, rs[k].lcn + rs[k].length - n)
  }

  /**
   * cleanup_space: moves `clusters` clusters of a file, from `vcn` on,
   * out of the reserved range, portion by portion. `free(k)` is the free
   * list before move `k` and `moveOk(k)` whether move_file succeeds on it.
   * The result is 0 when everything is moved, -1 when no free region is
   * left outside the range and -2 when a move fails.
   */
  method CleanupSpace(vcn: nat, clusters: nat, start: nat, end: nat,
                      free: nat -> seq<Region>, moveOk: nat -> bool)
    returns (code: int, moves: seq<Portion>)
    ensures code == 0 || code == -1 || code == -2
    ensures clusters == 0 ==> code == 0 && moves == []
    ensures Steps(free, start, end, clusters, vcn, moves)
    ensures Total(moves) <= clusters
    ensures code == 0 ==> Total(moves) == clusters
    ensures code == -1 ==> Total(moves) < clusters && forall j :: 0 <= j < |free(|moves|)| ==> !Outside(free(|moves|)[j], start, end)
    ensures code == -2 <==> moves != [] && !moveOk(|moves| - 1)
    ensures Succeeded(moveOk, |moves| - 1)
  {
    moves := [];
    var current: nat := vcn;
    var left: nat := clusters;
    while left > 0
      invariant Total(moves) + left == clusters && current == vcn + Total(moves) && |moves| <= Total(moves)
      invariant Steps(free, start, end, clusters, vcn, moves)
      invariant Succeeded(moveOk, |moves|)
      decreases left
    {
      var next := NextPortion(free(|moves|), start, end, clusters, Total(moves), vcn);
      if next.None? {
        return -1, moves;
      }
      var p := next.value;
      StepsSnoc(free, start, end, clusters, vcn, moves, p);
      moves := moves + [p];
      if !moveOk(|moves| - 1) {
        return -2, moves;
      }
      current := current + p.length;
      left := left - p.length;
    }
    return 0, moves;
  }

  /** The body of cleanup_space's loop: the next move, or None when no region is outside the range. */
  method NextPortion(rs: seq<Region>, start: nat, end: nat, clusters: nat, done: nat, vcn: nat)
    returns (p: Option<Portion>)
    requires done < clusters
    ensures p.None? ==> forall j :: 0 <= j < |rs| ==> !Outside(rs[j], start, end)
    ensures p.Some? ==> Step(rs, start, end, clusters, done, vcn, p.value) && 0 < p.value.length <= clusters - done
  {
    var k := LastOutsideRegion(rs, start, end);
    if k.None? {
      return None;
    }
    var rgn := rs[k.value];
    var n := if rgn.length <= clusters - done then rgn.length else clusters - done;
    p := Some(Portion(vcn + done, n, rgn.lcn + rgn.length - n));
  }

  /** The first `n` moves succeeded. */
  predicate Succeeded(moveOk: nat -> bool, n: int)
  {
    forall k :: 0 <= k < n ==> moveOk(k)
  }

  /** Each move `k` is the Step taken with the clusters of the moves before it done. */
  ghost predicate Steps(free: nat -> seq<Region>, start: nat, end: nat, clusters: nat, vcn: nat, moves: seq<Portion>)
  {
    forall k :: 0 <= k < |moves| ==> StepAt(free, start, end, clusters, vcn, moves, k)
  }

  /** Move `k` is the Step taken from the free list before it, with the moves before it done. */
  ghost predicate StepAt(free: nat -> seq<Region>, start: nat, end: nat, clusters: nat, vcn: nat, moves: seq<Portion>, k: nat)
    requires k < |moves|
  {
    Step(free(k), start, end, clusters, Total(moves[..k]), vcn, moves[k])
  }

  lemma StepsSnoc(free: nat -> seq<Region>, start: nat, end: nat, clusters: nat, vcn: nat, moves: seq<Portion>, p: Portion)
    requires Steps(free, start, end, clusters, vcn, moves)
    requires Step(free(|moves|), start, end, clusters, Total(moves), vcn, p)
    ensures Steps(free, start, end, clusters, vcn, moves + [p])
    ensures Total(moves + [p]) == Total(moves) + p.length
  {
    var m := moves + [p];
    assert m[..|moves|] == moves;
    forall k | 0 <= k < |m|
      ensures StepAt(free, start, end, clusters, vcn, m, k)
    {
      if k < |moves| {
        assert m[..k] == moves[..k] && m[k] == moves[k];
        assert StepAt(free, start, end, clusters, vcn, moves, k);
      }
    }
  }

  /** Every move lands on free clusters outside the reserved range, at the tail end of its region. */
  lemma StepOutside(rs: seq<Region>, start: nat, end: nat, clusters: nat, done: nat, vcn: nat, p: Portion)
    requires Step(rs, start, end, clusters, done, vcn, p)
    ensures p.vcn == vcn + done && 0 < p.length <= clusters - done
    ensures p.target > end || p.target + p.length <= start
    ensures exists k :: 0 <= k < |rs| && rs[k].lcn <= p.target && p.target + p.length == rs[k].lcn + rs[k].length
  {
  }

  // ---------------------------------------------------------------------
  // count_clusters
  // ---------------------------------------------------------------------

  /** The free clusters of region `r` at or after `start`. */
  function After(r: Region, start: nat): nat
  {
    if r.lcn >= start then r.length
    else if r.lcn + r.length > start then r.length - (start - r.lcn)
    else 0
  }

  /** The free clusters of the list at or after `start`. */
  function FreeFrom(rs: seq<Region>, start: nat): nat
  {
    if rs == [] then 0 else FreeFrom(rs[..|rs| - 1], start) + After(rs[|rs| - 1], start)
  }

  /**
   * count_clusters: the clusters from `start` to the end of the volume
   * that are not free, as far as the router lets the walk go; `visited`
   * counts the regions added up.
   */
  method CountClusters(free: seq<Region>, start: nat, total: nat, terminated: nat -> bool)
    returns (r: int, ghost visited: nat)
    ensures visited <= |free| && Search.Allowed(terminated, visited)
    ensures visited < |free| ==> terminated(visited)
    ensures r == total - start - FreeFrom(free[..visited], start)
  {
    var n := 0;
    var i := 0;
    while i < |free|
      invariant 0 <= i <= |free| && Search.Allowed(terminated, i)
      invariant n == FreeFrom(free[..i], start)
    {
      if terminated(i) {
        return total - start - n, i;
      }
      var rgn := free[i];
      if rgn.lcn >= start {
        n := n + rgn.length;
      } else if rgn.lcn + rgn.length > start {
        n := n + rgn.length - (start - rgn.lcn);
      }
      assert free[..i + 1][..i] == free[..i];
      i := i + 1;
    }
    assert free[..i] == free;
    return total - start - n, i;
  }

  /**
   * The free clusters behind `start` of a valid free list within the
   * volume do not exceed the clusters behind `start`, so the count of
   * allocated clusters is never negative.
   */
  lemma {:induction false} FreeFromBound(rs: seq<Region>, start: nat, bound: nat)
    requires (forall i :: 0 <= i < |rs| ==> rs[i].length > 0)
    requires forall i, j :: 0 <= i < j < |rs| ==> rs[i].lcn + rs[i].length < rs[j].lcn
    requires forall i :: 0 <= i < |rs| ==> rs[i].lcn + rs[i].length <= bound
    ensures FreeFrom(rs, start) <= if bound >= start then bound - start else 0
  {
    if rs != [] {
      var x := rs[|rs| - 1];
      var init := rs[..|rs| - 1];
      FreeFromBound(init, start, x.lcn);
    }
  }

  // ---------------------------------------------------------------------
  // is_block_quite_small
  // ---------------------------------------------------------------------

  /** Fragment `fr` holds cluster `lcn`. */
  predicate HoldsLcn(fr: Block, lcn: nat)
  {
    fr.lcn <= lcn < fr.lcn + fr.length
  }

  /**
   * The fragment of the list that holds `lcn` first, when there is one,
   * is below the threshold.
   */
  predicate FragmentBelow(frs: seq<Block>, lcn: nat, bytesPerCluster: nat, threshold: nat)
  {
    forall k :: 0 <= k < |frs| && HoldsLcn(frs[k], lcn) && (forall j :: 0 <= j < k ==> !HoldsLcn(frs[j], lcn)) ==>
      frs[k].length * bytesPerCluster < threshold
  }

  /**
   * is_block_quite_small: a block of a file below the optimizer size
   * limit is moved; of a bigger file only a fragmented one's block is,
   * and only when the fragment size threshold is the default or both
   * the block and the fragment holding it are below the threshold.
   */
  method IsBlockQuiteSmall(f: FileRec, block: Block, bytesPerCluster: nat, sizeLimit: nat, threshold: nat)
    returns (small: bool)
    ensures small <==>
      || f.clusters * bytesPerCluster < sizeLimit
      || (&& f.fragmented
          && (|| threshold == DEFAULT_FRAGMENT_SIZE_THRESHOLD
              || (&& block.length * bytesPerCluster < threshold
                  && FragmentBelow(Fragments.Fragments(f.blocks), block.lcn, bytesPerCluster, threshold))))
  {
    if f.clusters * bytesPerCluster < sizeLimit {
      return true;
    }
    if !f.fragmented {
      return false;
    }
    if threshold == DEFAULT_FRAGMENT_SIZE_THRESHOLD {
      return true;
    }
    if block.length * bytesPerCluster >= threshold {
      return false;
    }
    var frs := Fragments.BuildFragmentsList(f.blocks);
    var i := 0;
    while i < |frs|
      invariant 0 <= i <= |frs|
      invariant forall j :: 0 <= j < i ==> !HoldsLcn(frs[j], block.lcn)
    {
      if block.lcn >= frs[i].lcn && block.lcn < frs[i].lcn + frs[i].length {
        return frs[i].length * bytesPerCluster < threshold;
      }
      i := i + 1;
    }
    return true;
  }

  // ---------------------------------------------------------------------
  // cut_off_sorted_out_files and cut_off_group_of_files
  // ---------------------------------------------------------------------

  /** The LCN of the first block of a file, where the grouping looks. */
  function Lcn(fs: seq<FileRec>, i: nat): nat
    requires i < |fs| && fs[i].blocks != []
  {
    fs[i].blocks[0].lcn
  }

  /** Every file of the tree has a map. */
  predicate HaveMaps(fs: seq<FileRec>)
  {
    forall i :: 0 <= i < |fs| ==> fs[i].blocks != []
  }

  /** The file with UD_FILE_MOVED_TO_FRONT set. */
  function Mark(f: FileRec): FileRec
  {
    f.(flags := f.flags + {MovedToFront})
  }

  /** The clusters of the files from `a` up to `b`, `b` excluded. */
  function Clusters(fs: seq<FileRec>, a: nat, b: nat): nat
    requires a <= b <= |fs|
    decreases b - a
  {
    if a == b then 0 else Clusters(fs, a, b - 1) + fs[b - 1].clusters
  }

  /** Runs whose files have the same sizes have the same clusters. */
  lemma {:induction false} ClustersSame(xs: seq<FileRec>, ys: seq<FileRec>, a: nat, b: nat)
    requires a <= b <= |xs| == |ys|
    requires forall i :: a <= i < b ==> xs[i].clusters == ys[i].clusters
    ensures Clusters(xs, a, b) == Clusters(ys, a, b)
    decreases b - a
  {
    if a < b {
      ClustersSame(xs, ys, a, b - 1);
    }
  }

  /** A group worth cutting off: 20 MB or more, or at least 10 files. */
  predicate Large(bytesPerCluster: nat, n: nat, length: nat)
  {
    length * bytesPerCluster >= OPTIMIZER_MAGIC_CONSTANT || n >= OPTIMIZER_MAGIC_CONSTANT_N
  }

  /**
   * File `f` may follow a group whose last file lies at `plcn` with
   * `prevClusters` clusters and whose file before it, if any, at `pplcn`:
   * it is not fragmented, it does not lie below both of them, and it is
   * no further from the last one than 20 MB or the length of the lower
   * of the two files, whichever is more.
   */
  predicate Admits(bytesPerCluster: nat, pplcn: Option<nat>, plcn: nat, prevClusters: nat, f: FileRec)
    requires f.blocks != []
  {
    var lcn := f.blocks[0].lcn;
    && !f.fragmented
    && !(pplcn.Some? && lcn < pplcn.value && lcn < plcn)
    && (if lcn < plcn then (plcn - lcn) * bytesPerCluster <= Max(OPTIMIZER_MAGIC_CONSTANT, f.clusters * bytesPerCluster)
        else (lcn - plcn) * bytesPerCluster <= Max(OPTIMIZER_MAGIC_CONSTANT, prevClusters * bytesPerCluster))
  }

  /** File `j` may join the group of the files from `a` to `j - 1`. */
  predicate Joins(fs: seq<FileRec>, bytesPerCluster: nat, a: nat, j: nat)
    requires a < j < |fs| && HaveMaps(fs)
  {
    Admits(bytesPerCluster, if j == a + 1 then None else Some(Lcn(fs, j - 2)), Lcn(fs, j - 1), fs[j - 1].clusters, fs[j])
  }

  /** The `n` files from `a` on form a group, and the file after them does not join it. */
  predicate Group(fs: seq<FileRec>, bytesPerCluster: nat, a: nat, n: nat)
    requires HaveMaps(fs)
  {
    && n >= 1 && a + n <= |fs| && !fs[a].fragmented
    && (forall j :: a < j < a + n ==> Joins(fs, bytesPerCluster, a, j))
  }

  predicate Maximal(fs: seq<FileRec>, bytesPerCluster: nat, a: nat, n: nat)
    requires HaveMaps(fs) && a + n <= |fs| && n >= 1
  {
    a + n == |fs| || !Joins(fs, bytesPerCluster, a, a + n)
  }

  /** The first file from `i` on that is not fragmented, or `|fs|`. */
  function NextStart(fs: seq<FileRec>, i: nat): (r: nat)
    requires i <= |fs|
    ensures i <= r <= |fs|
    decreases |fs| - i
  {
    if i == |fs| || !fs[i].fragmented then i else NextStart(fs, i + 1)
  }

  /** NextStart skips exactly the fragmented files in its way. */
  lemma {:induction false} NextStartSkips(fs: seq<FileRec>, i: nat)
    requires i <= |fs|
    ensures NextStart(fs, i) < |fs| ==> !fs[NextStart(fs, i)].fragmented
    ensures forall j :: i <= j < NextStart(fs, i) ==> fs[j].fragmented
    decreases |fs| - i
  {
    if i < |fs| && fs[i].fragmented {
      NextStartSkips(fs, i + 1);
    }
  }

  /** A group `(a, n)` marked by cut_off_group_of_files. */
  predicate Cut(fs: seq<FileRec>, bytesPerCluster: nat, g: (nat, nat))
  {
    g.1 > 1 && g.0 + g.1 <= |fs| && Large(bytesPerCluster, g.1, Clusters(fs, g.0, g.0 + g.1))
  }

  /** File `i` lies in a group that is cut off. */
  predicate Marked(fs: seq<FileRec>, bytesPerCluster: nat, gs: seq<(nat, nat)>, i: nat)
  {
    exists j :: 0 <= j < |gs| && Cut(fs, bytesPerCluster, gs[j]) && gs[j].0 <= i < gs[j].0 + gs[j].1
  }

  /** The clusters of the groups cut off. */
  function CutClusters(fs: seq<FileRec>, bytesPerCluster: nat, gs: seq<(nat, nat)>): nat
  {
    if gs == [] then 0
    else
      var g := gs[|gs| - 1];
      CutClusters(fs, bytesPerCluster, gs[..|gs| - 1]) + if Cut(fs, bytesPerCluster, g) then Clusters(fs, g.0, g.0 + g.1) else 0
  }

  /**
   * `gs` are the groups the walk of cut_off_sorted_out_files forms, in
   * order, up to the file `upTo`: each starts at the first unfragmented
   * file after the one before, takes files while they join, and ends at
   * the first file that does not.
   */
  ghost predicate Partition(fs: seq<FileRec>, bytesPerCluster: nat, gs: seq<(nat, nat)>, upTo: nat)
    requires HaveMaps(fs) && upTo <= |fs|
  {
    && (forall j :: 0 <= j < |gs| ==> Group(fs, bytesPerCluster, gs[j].0, gs[j].1) && Maximal(fs, bytesPerCluster, gs[j].0, gs[j].1))
    && (if gs == [] then upTo else gs[0].0) == NextStart(fs, 0)
    && upTo == (if gs == [] then NextStart(fs, 0) else NextStart(fs, gs[|gs| - 1].0 + gs[|gs| - 1].1))
    && (forall j :: 0 < j < |gs| ==> Follows(fs, gs, j))
  }

  /** Group `j` starts at the first unfragmented file after group `j - 1`. */
  predicate Follows(fs: seq<FileRec>, gs: seq<(nat, nat)>, j: nat)
    requires 0 < j < |gs|
  {
    var prev := gs[j - 1];
    prev.0 + prev.1 <= |fs| && gs[j].0 == NextStart(fs, prev.0 + prev.1)
  }

  /** The groups end in turn, at or before `upTo`. */
  lemma PartitionBounds(fs: seq<FileRec>, bytesPerCluster: nat, gs: seq<(nat, nat)>, upTo: nat)
    requires HaveMaps(fs) && upTo <= |fs| && Partition(fs, bytesPerCluster, gs, upTo)
    ensures EndBy(gs, upTo)
  {
    ChainEnds(fs, gs, upTo);
  }

  /** Groups that follow each other end in turn, so all end by the end of the last one. */
  lemma {:induction false} ChainEnds(fs: seq<FileRec>, gs: seq<(nat, nat)>, upTo: nat)
    requires forall j :: 0 < j < |gs| ==> Follows(fs, gs, j)
    requires gs != [] ==> gs[|gs| - 1].0 + gs[|gs| - 1].1 <= upTo
    ensures EndBy(gs, upTo)
    decreases |gs|
  {
    if |gs| > 1 {
      var init := gs[..|gs| - 1];
      var prev := gs[|gs| - 2];
      assert Follows(fs, gs, |gs| - 1);
      forall j | 0 < j < |init|
        ensures Follows(fs, init, j)
      {
        assert Follows(fs, gs, j);
      }
      ChainEnds(fs, init, prev.0 + prev.1);
      assert forall j :: 0 <= j < |init| ==> init[j] == gs[j];
    }
  }

  /** The groups of `gs` all end at or before file `a`. */
  predicate EndBy(gs: seq<(nat, nat)>, a: nat)
  {
    forall j :: 0 <= j < |gs| ==> gs[j].0 + gs[j].1 <= a
  }

  /**
   * `files` are the files `fs` with exactly the files of the groups cut
   * off among `groups` marked, and `already` counts their clusters.
   */
  predicate Marking(fs: seq<FileRec>, bytesPerCluster: nat, groups: seq<(nat, nat)>, files: seq<FileRec>, already: nat)
  {
    && |files| == |fs|
    && (forall i :: 0 <= i < |files| ==> Shown(fs, bytesPerCluster, groups, files, i))
    && already == CutClusters(fs, bytesPerCluster, groups)
  }

  /** File `i` of `files` is file `i` of `fs`, marked when a group cut off holds it. */
  predicate Shown(fs: seq<FileRec>, bytesPerCluster: nat, groups: seq<(nat, nat)>, files: seq<FileRec>, i: nat)
    requires i < |fs| && i < |files|
  {
    files[i] == if Marked(fs, bytesPerCluster, groups, i) then Mark(fs[i]) else fs[i]
  }

  /** File `i` of `after` is file `i` of `before`, marked when it lies in `g` and `g` is cut off. */
  predicate Stamped(fs: seq<FileRec>, bytesPerCluster: nat, g: (nat, nat), before: seq<FileRec>, after: seq<FileRec>, i: nat)
    requires i < |before| && i < |after|
  {
    after[i] == if Cut(fs, bytesPerCluster, g) && g.0 <= i < g.0 + g.1 then Mark(before[i]) else before[i]
  }

  /** Closing the group `g` marks its files when it is cut off, and no others. */
  lemma MarkedSnoc(fs: seq<FileRec>, bytesPerCluster: nat, gs: seq<(nat, nat)>, g: (nat, nat), i: nat)
    requires EndBy(gs, g.0)
    ensures Marked(fs, bytesPerCluster, gs + [g], i) <==>
      Marked(fs, bytesPerCluster, gs, i) || (Cut(fs, bytesPerCluster, g) && g.0 <= i < g.0 + g.1)
    ensures g.0 <= i ==> !Marked(fs, bytesPerCluster, gs, i)
  {
    var hs := gs + [g];
    if Marked(fs, bytesPerCluster, hs, i) {
      var j :| 0 <= j < |hs| && Cut(fs, bytesPerCluster, hs[j]) && hs[j].0 <= i < hs[j].0 + hs[j].1;
      if j < |gs| {
        assert hs[j] == gs[j];
      }
    }
    if Marked(fs, bytesPerCluster, gs, i) {
      var j :| 0 <= j < |gs| && Cut(fs, bytesPerCluster, gs[j]) && gs[j].0 <= i < gs[j].0 + gs[j].1;
      assert hs[j] == gs[j];
    }
    if Cut(fs, bytesPerCluster, g) && g.0 <= i < g.0 + g.1 {
      assert hs[|gs|] == g;
    }
  }

  /** A maximal group that starts where the partition stops extends it. */
  lemma PartitionSnoc(fs: seq<FileRec>, bytesPerCluster: nat, groups: seq<(nat, nat)>, first: nat, n: nat)
    requires HaveMaps(fs) && first <= |fs| && Partition(fs, bytesPerCluster, groups, first)
    requires Group(fs, bytesPerCluster, first, n) && Maximal(fs, bytesPerCluster, first, n)
    ensures Partition(fs, bytesPerCluster, groups + [(first, n)], NextStart(fs, first + n))
  {
    var gs := groups + [(first, n)];
    assert gs[|gs| - 1] == (first, n);
    FollowsSnoc(fs, groups, (first, n));
    forall j | 0 <= j < |gs|
      ensures Group(fs, bytesPerCluster, gs[j].0, gs[j].1) && Maximal(fs, bytesPerCluster, gs[j].0, gs[j].1)
    {
      if j < |groups| {
        assert gs[j] == groups[j];
      }
    }
  }

  /** A group that starts at the first unfragmented file after the last group follows it. */
  lemma FollowsSnoc(fs: seq<FileRec>, groups: seq<(nat, nat)>, g: (nat, nat))
    requires forall j :: 0 < j < |groups| ==> Follows(fs, groups, j)
    requires groups != [] ==>
      var last := groups[|groups| - 1];
      last.0 + last.1 <= |fs| && g.0 == NextStart(fs, last.0 + last.1)
    ensures forall j :: 0 < j < |groups + [g]| ==> Follows(fs, groups + [g], j)
  {
    var gs := groups + [g];
    forall j | 0 < j < |gs|
      ensures Follows(fs, gs, j)
    {
      assert gs[j - 1] == groups[j - 1];
      if j < |groups| {
        assert gs[j] == groups[j];
        assert Follows(fs, groups, j);
      }
    }
  }

  /** Marking the files of group `g` when it is cut off keeps every file marked as its groups say. */
  lemma MarksSnoc(fs: seq<FileRec>, bytesPerCluster: nat, groups: seq<(nat, nat)>, g: (nat, nat),
                  before: seq<FileRec>, already: nat, after: seq<FileRec>, already': nat)
    requires EndBy(groups, g.0) && g.0 + g.1 <= |fs|
    requires Marking(fs, bytesPerCluster, groups, before, already)
    requires |after| == |before|
    requires forall i :: 0 <= i < |after| ==> Stamped(fs, bytesPerCluster, g, before, after, i)
    requires already' == already + if Cut(fs, bytesPerCluster, g) then Clusters(before, g.0, g.0 + g.1) else 0
    ensures Marking(fs, bytesPerCluster, groups + [g], after, already')
  {
    MarkedFilesSnoc(fs, bytesPerCluster, groups, g, before, after);
    MarkingClusters(fs, bytesPerCluster, groups, before, g.0, g.0 + g.1);
    CutClustersSnoc(fs, bytesPerCluster, groups, g);
  }

  /** Marking a file leaves its clusters, so marked files count as the files they were. */
  lemma MarkingClusters(fs: seq<FileRec>, bytesPerCluster: nat, groups: seq<(nat, nat)>, before: seq<FileRec>, a: nat, b: nat)
    requires a <= b <= |fs| == |before|
    requires forall i :: 0 <= i < |before| ==> Shown(fs, bytesPerCluster, groups, before, i)
    ensures Clusters(before, a, b) == Clusters(fs, a, b)
  {
    forall i | a <= i < b
      ensures before[i].clusters == fs[i].clusters
    {
      assert Shown(fs, bytesPerCluster, groups, before, i);
    }
    ClustersSame(before, fs, a, b);
  }

  /** The files after closing `g` are marked as the groups with `g` say. */
  lemma MarkedFilesSnoc(fs: seq<FileRec>, bytesPerCluster: nat, groups: seq<(nat, nat)>, g: (nat, nat),
                        before: seq<FileRec>, after: seq<FileRec>)
    requires EndBy(groups, g.0) && |after| == |before| == |fs|
    requires forall i :: 0 <= i < |before| ==> Shown(fs, bytesPerCluster, groups, before, i)
    requires forall i :: 0 <= i < |after| ==> Stamped(fs, bytesPerCluster, g, before, after, i)
    ensures forall i :: 0 <= i < |after| ==> Shown(fs, bytesPerCluster, groups + [g], after, i)
  {
    forall i | 0 <= i < |after|
      ensures Shown(fs, bytesPerCluster, groups + [g], after, i)
    {
      assert Shown(fs, bytesPerCluster, groups, before, i) && Stamped(fs, bytesPerCluster, g, before, after, i);
      MarkedAt(fs, bytesPerCluster, groups, g, before[i], after[i], i);
    }
  }

  /** File `i` before and after closing `g`, as the groups say. */
  lemma MarkedAt(fs: seq<FileRec>, bytesPerCluster: nat, groups: seq<(nat, nat)>, g: (nat, nat),
                 before: FileRec, after: FileRec, i: nat)
    requires EndBy(groups, g.0) && i < |fs|
    requires before == if Marked(fs, bytesPerCluster, groups, i) then Mark(fs[i]) else fs[i]
    requires after == if Cut(fs, bytesPerCluster, g) && g.0 <= i < g.0 + g.1 then Mark(before) else before
    ensures after == if Marked(fs, bytesPerCluster, groups + [g], i) then Mark(fs[i]) else fs[i]
  {
    MarkedSnoc(fs, bytesPerCluster, groups, g, i);
  }

  /** Closing a group adds its clusters to the count when it is cut off. */
  lemma CutClustersSnoc(fs: seq<FileRec>, bytesPerCluster: nat, groups: seq<(nat, nat)>, g: (nat, nat))
    ensures CutClusters(fs, bytesPerCluster, groups + [g]) ==
      CutClusters(fs, bytesPerCluster, groups) + if Cut(fs, bytesPerCluster, g) then Clusters(fs, g.0, g.0 + g.1) else 0
  {
    assert (groups + [g])[..|groups|] == groups;
  }


  /**
   * The three checks of cut_off_sorted_out_files for the file after a
   * group: it must not be fragmented, must not lie below both of the
   * two files before it, and must be close to the last one.
   */
  method BelongsToGroup(bytesPerCluster: nat, pplcn: Option<nat>, plcn: nat, prevClusters: nat, f: FileRec)
    returns (belongs: bool)
    requires f.blocks != []
    ensures belongs == Admits(bytesPerCluster, pplcn, plcn, prevClusters, f)
  {
    var lcn := f.blocks[0].lcn;
    belongs := true;
    if f.fragmented {
      belongs := false;
    }
    if belongs && pplcn.Some? {
      if lcn < pplcn.value && lcn < plcn {
        belongs := false;
      }
    }
    if belongs {
      if lcn < plcn {
        if (plcn - lcn) * bytesPerCluster > Max(OPTIMIZER_MAGIC_CONSTANT, f.clusters * bytesPerCluster) {
          belongs := false;
        }
      } else {
        if (lcn - plcn) * bytesPerCluster > Max(OPTIMIZER_MAGIC_CONSTANT, prevClusters * bytesPerCluster) {
          belongs := false;
        }
      }
    }
  }

  /** The walk to the next file that is not fragmented. */
  method SkipFragmented(fs: seq<FileRec>, i: nat) returns (j: nat)
    requires i <= |fs|
    ensures j == NextStart(fs, i) && (j < |fs| ==> !fs[j].fragmented)
  {
    j := i;
    while j < |fs| && fs[j].fragmented
      invariant i <= j <= |fs| && NextStart(fs, i) == NextStart(fs, j)
    {
      j := j + 1;
    }
  }

  /** A group that the next file joins grows by one file. */
  lemma GroupSnoc(fs: seq<FileRec>, bytesPerCluster: nat, first: nat, n: nat)
    requires HaveMaps(fs) && Group(fs, bytesPerCluster, first, n) && first + n < |fs|
    requires Joins(fs, bytesPerCluster, first, first + n)
    ensures Group(fs, bytesPerCluster, first, n + 1)
  {
  }

  /**
   * The group being formed by cut_off_sorted_out_files: its first file,
   * its count and length, and `pplcn`, `plcn` and the clusters of
   * `prev_file`.
   */
  datatype Current = Current(first: nat, n: nat, length: nat, pplcn: Option<nat>, plcn: nat, prevClusters: nat)

  /** `c` holds the files of a group from `c.first` on, and the figures of its last two files. */
  predicate Tracks(fs: seq<FileRec>, bytesPerCluster: nat, c: Current)
    requires HaveMaps(fs)
  {
    && Group(fs, bytesPerCluster, c.first, c.n)
    && c.length == Clusters(fs, c.first, c.first + c.n)
    && c.plcn == Lcn(fs, c.first + c.n - 1) && c.prevClusters == fs[c.first + c.n - 1].clusters
    && c.pplcn == if c.n == 1 then None else Some(Lcn(fs, c.first + c.n - 2))
  }

  /** The figures `c` keeps are those Joins asks about the file after the group. */
  lemma TracksJoins(fs: seq<FileRec>, bytesPerCluster: nat, c: Current)
    requires HaveMaps(fs) && Tracks(fs, bytesPerCluster, c) && c.first + c.n < |fs|
    ensures Joins(fs, bytesPerCluster, c.first, c.first + c.n) <==>
      Admits(bytesPerCluster, c.pplcn, c.plcn, c.prevClusters, fs[c.first + c.n])
  {
  }

  /** The file after the group joins it. */
  function Extend(fs: seq<FileRec>, bytesPerCluster: nat, c: Current): (c': Current)
    requires HaveMaps(fs) && Tracks(fs, bytesPerCluster, c) && c.first + c.n < |fs|
    requires Joins(fs, bytesPerCluster, c.first, c.first + c.n)
    ensures Tracks(fs, bytesPerCluster, c') && c'.first == c.first && c'.n == c.n + 1
  {
    var i := c.first + c.n;
    GroupSnoc(fs, bytesPerCluster, c.first, c.n);
    Current(c.first, c.n + 1, c.length + fs[i].clusters, Some(c.plcn), Lcn(fs, i), fs[i].clusters)
  }

  /** A group starts at an unfragmented file, alone. */
  function Start(fs: seq<FileRec>, bytesPerCluster: nat, i: nat): (c: Current)
    requires HaveMaps(fs) && i < |fs| && !fs[i].fragmented
    ensures Tracks(fs, bytesPerCluster, c) && c.first == i && c.n == 1
  {
    Current(i, 1, fs[i].clusters, None, Lcn(fs, i), fs[i].clusters)
  }

  /** The state of cut_off_sorted_out_files over the files of the tree. */
  class Optimizer {
    /** The files of the tree sorted by path, in tree order. */
    var files: seq<FileRec>
    /** `jp->already_optimized_clusters`. */
    var alreadyOptimizedClusters: nat
    const bytesPerCluster: nat

    constructor (fs: seq<FileRec>, bpc: nat)
      ensures files == fs && alreadyOptimizedClusters == 0 && bytesPerCluster == bpc
    {
      files := fs;
      alreadyOptimizedClusters := 0;
      bytesPerCluster := bpc;
    }

    /**
     * cut_off_group_of_files: a group of 20 MB or more, or of at least
     * 10 files, has its `n` files from `first` on marked as moved to the
     * front (as many as the tree holds) and counted as already optimized;
     * a smaller group is left alone.
     */
    method CutOffGroupOfFiles(first: nat, n: nat, length: nat)
      requires first <= |files|
      modifies this
      ensures |files| == |old(files)|
      ensures !Large(bytesPerCluster, n, length) ==>
        files == old(files) && alreadyOptimizedClusters == old(alreadyOptimizedClusters)
      ensures Large(bytesPerCluster, n, length) ==>
        var m := Min(n, |files| - first);
        && (forall i :: 0 <= i < |files| ==> files[i] == if first <= i < first + m then Mark(old(files)[i]) else old(files)[i])
        && alreadyOptimizedClusters == old(alreadyOptimizedClusters) + Clusters(old(files), first, first + m)
    {
      if !Large(bytesPerCluster, n, length) {
        return;
      }
      ghost var fs := files;
      var i := first;
      var left := n;
      while i < |files| && left > 0
        invariant first <= i <= |files| && |files| == |fs| && i - first + left == n
        invariant forall j :: 0 <= j < |files| ==> files[j] == if first <= j < i then Mark(fs[j]) else fs[j]
        invariant alreadyOptimizedClusters == old(alreadyOptimizedClusters) + Clusters(fs, first, i)
      {
        alreadyOptimizedClusters := alreadyOptimizedClusters + files[i].clusters;
        files := files[i := Mark(files[i])];
        left := left - 1;
        i := i + 1;
      }
    }

    /** Every file is marked exactly as `groups` say. */
    ghost predicate Marks(fs: seq<FileRec>, groups: seq<(nat, nat)>)
      reads this
    {
      Marking(fs, bytesPerCluster, groups, files, alreadyOptimizedClusters)
    }

    /**
     * The end of a group: cut_off_group_of_files for a group of more than
     * one file, the group joins the ones before it, and the walk goes on
     * to the first file after it that is not fragmented.
     */
    method CloseGroup(fs: seq<FileRec>, first: nat, n: nat, length: nat, ghost groups: seq<(nat, nat)>)
      returns (next: nat)
      requires HaveMaps(fs) && first <= |fs| && Partition(fs, bytesPerCluster, groups, first)
      requires Group(fs, bytesPerCluster, first, n) && Maximal(fs, bytesPerCluster, first, n)
      requires length == Clusters(fs, first, first + n)
      requires Marks(fs, groups)
      modifies this
      ensures next == NextStart(fs, first + n) && (next < |fs| ==> !fs[next].fragmented)
      ensures Partition(fs, bytesPerCluster, groups + [(first, n)], next)
      ensures Marks(fs, groups + [(first, n)])
    {
      PartitionBounds(fs, bytesPerCluster, groups, first);
      PartitionSnoc(fs, bytesPerCluster, groups, first, n);
      CutGroup(fs, first, n, length, groups);
      next := SkipFragmented(fs, first + n);
    }

    /** cut_off_group_of_files on a group of more than one file, as the group closes. */
    method CutGroup(fs: seq<FileRec>, first: nat, n: nat, length: nat, ghost groups: seq<(nat, nat)>)
      requires EndBy(groups, first) && first + n <= |fs| && length == Clusters(fs, first, first + n)
      requires Marks(fs, groups)
      modifies this
      ensures Marks(fs, groups + [(first, n)])
    {
      ghost var before, already := files, alreadyOptimizedClusters;
      if n > 1 {
        CutOffGroupOfFiles(first, n, length);
        assert Min(n, |files| - first) == n;
      }
      assert forall i :: 0 <= i < |files| ==> Stamped(fs, bytesPerCluster, (first, n), before, files, i);
      MarksSnoc(fs, bytesPerCluster, groups, (first, n), before, already, files, alreadyOptimizedClusters);
    }

    /**
     * One file of the walk of cut_off_sorted_out_files, the file just
     * after the group `c`: it joins the group, or the group is closed and
     * a new one starts at the next unfragmented file. `done` says the
     * walk has reached the end of the tree.
     */
    method Visit(fs: seq<FileRec>, c: Current, ghost groups: seq<(nat, nat)>)
      returns (c': Current, done: bool, ghost groups': seq<(nat, nat)>)
      requires HaveMaps(fs) && Tracks(fs, bytesPerCluster, c) && c.first + c.n < |fs|
      requires Partition(fs, bytesPerCluster, groups, c.first) && Marks(fs, groups)
      modifies this
      ensures Marks(fs, groups')
      ensures done ==> Partition(fs, bytesPerCluster, groups', |fs|)
      ensures !done ==>
        && Tracks(fs, bytesPerCluster, c') && Partition(fs, bytesPerCluster, groups', c'.first)
        && c.first + c.n < c'.first + c'.n
    {
      var i := c.first + c.n;
      var belongs := BelongsToGroup(bytesPerCluster, c.pplcn, c.plcn, c.prevClusters, fs[i]);
      TracksJoins(fs, bytesPerCluster, c);
      if belongs {
        return Extend(fs, bytesPerCluster, c), false, groups;
      }
      var next := CloseGroup(fs, c.first, c.n, c.length, groups);
      groups' := groups + [(c.first, c.n)];
      if next == |fs| {
        return c, true, groups';
      }
      c' := Start(fs, bytesPerCluster, next);
      done := false;
    }

    /**
     * cut_off_sorted_out_files: walks the tree, forming groups of files
     * that are already sorted out (`groups`, each a first file and a
     * count), and cuts off every group of more than one file that is
     * large enough. The count of already optimized clusters starts at 0.
     */
    method CutOffSortedOutFiles() returns (ghost groups: seq<(nat, nat)>)
      requires HaveMaps(files)
      modifies this
      ensures Partition(old(files), bytesPerCluster, groups, |old(files)|)
      ensures Marks(old(files), groups)
    {
      alreadyOptimizedClusters := 0;
      var fs := files;
      groups := [];
      var i := SkipFragmented(fs, 0);
      if i == |fs| {
        return;
      }
      var c := Start(fs, bytesPerCluster, i);
      while c.first + c.n < |fs|
        invariant fs == old(files) && Tracks(fs, bytesPerCluster, c)
        invariant Partition(fs, bytesPerCluster, groups, c.first) && Marks(fs, groups)
        decreases |fs| - (c.first + c.n)
      {
        var done;
        c, done, groups := Visit(fs, c, groups);
        if done {
          return;
        }
      }
      var _ := CloseGroup(fs, c.first, c.n, c.length, groups);
      groups := groups + [(c.first, c.n)];
    }
  }

  // ---------------------------------------------------------------------
  // optimize and optimize_mft
  // ---------------------------------------------------------------------

  /**
   * The results of the optimizers `optimize` runs, in order: the FAT
   * directory optimizer on FAT, the MFT optimizer on NTFS, then the disk
   * optimizer.
   */
  function RanResults(isFat: bool, ntfs: bool, dirs: int, mft: int, routine: int): seq<int>
  {
    (if isFat then [dirs] else []) + (if ntfs then [mft] else []) + [routine]
  }

  /**
   * Some optimizer that ran succeeded exactly when the directory
   * optimizer did on FAT, the MFT optimizer did on NTFS, or the disk
   * optimizer did.
   */
  lemma RanResultsSucceed(isFat: bool, ntfs: bool, dirs: int, mft: int, routine: int)
    ensures 0 in RanResults(isFat, ntfs, dirs, mft, routine) <==>
      (isFat && dirs == 0) || (ntfs && mft == 0) || routine == 0
  {
  }

  /** The parts of the job that optimize and optimize_mft read and update. */
  class Job {
    /** The free regions in list order, and the clusters of the volume. */
    const free: seq<Region>
    const totalClusters: nat
    /** `udo.size_limit` and `udo.fragments_limit`. */
    var sizeLimit: nat
    var fragmentsLimit: nat
    /** `pi.processed_clusters`, `pi.clusters_to_process` and `pi.current_operation`. */
    var processedClusters: nat
    var clustersToProcess: int
    var currentOperation: Operation

    constructor (rs: seq<Region>, total: nat, size: nat, fragments: nat)
      ensures free == rs && totalClusters == total && sizeLimit == size && fragmentsLimit == fragments
      ensures processedClusters == 0 && clustersToProcess == 0 && currentOperation == VolumeAnalysis
    {
      free := rs;
      totalClusters := total;
      sizeLimit := size;
      fragmentsLimit := fragments;
      processedClusters := 0;
      clustersToProcess := 0;
      currentOperation := VolumeAnalysis;
    }

    /**
     * optimize. The size and fragment filters are reset before the
     * analysis, whose failure is returned as is. Otherwise the clusters
     * to process are twice the allocated ones (count_clusters from 0,
     * as far as the router lets it walk) plus the counts of the
     * directory optimizer on FAT and the MFT optimizer on NTFS; the
     * optimizers report `dirs`, `mft` and `routine`. The analysis sets the
     * operation to analysis; the disk optimizer, which always runs after a
     * passed analysis, sets it to optimization, restarts the processed
     * clusters from those extra counts and adds the `processed` clusters it
     * moves, and the defragmentation count `defragClusters` is added at the end. The job succeeds when one of the optimizers
     * that ran returned 0. The state is the one `defragment(jp)` at the end
     * of optimize starts from; its result does not change optimize's.
     */
    method Optimize(analyze: int, isFat: bool, ntfs: bool, dirsClusters: nat, mftClusters: nat,
                    dirs: int, mft: int, routine: int, processed: nat, defragClusters: nat,
                    terminated: nat -> bool)
      returns (result: int, ghost visited: nat)
      modifies this
      ensures sizeLimit == MAX_FILE_SIZE && fragmentsLimit == 0
      ensures analyze < 0 ==>
        && result == analyze && processedClusters == old(processedClusters)
        && clustersToProcess == old(clustersToProcess) && currentOperation == VolumeAnalysis
      ensures analyze >= 0 ==>
        && (result == 0 || result == -1)
        && (result == 0 <==> 0 in RanResults(isFat, ntfs, dirs, mft, routine))
        && processedClusters == (if isFat then dirsClusters else 0) + (if ntfs then mftClusters else 0) + processed
        && visited <= |free| && (visited < |free| ==> terminated(visited))
        && clustersToProcess == 2 * (totalClusters - FreeFrom(free[..visited], 0))
             + (if isFat then dirsClusters else 0) + (if ntfs then mftClusters else 0) + defragClusters
        && currentOperation == VolumeOptimization
    {
      sizeLimit := MAX_FILE_SIZE;
      fragmentsLimit := 0;
      currentOperation := VolumeAnalysis;
      if analyze < 0 {
        result, visited := analyze, 0;
      } else {
        var overall := -1;
        var extra := 0;
        processedClusters := 0;
        if isFat {
          extra := extra + dirsClusters;
        }
        if ntfs {
          extra := extra + mftClusters;
        }
        var inUse;
        inUse, visited := CountClusters(free, 0, totalClusters, terminated);
        clustersToProcess := inUse * 2 + extra;
        if isFat && dirs == 0 {
          overall := 0;
        }
        if ntfs && mft == 0 {
          overall := 0;
        }
        currentOperation := VolumeOptimization;
        processedClusters := extra;
        if routine == 0 {
          overall := 0;
        }
        processedClusters := processedClusters + processed;
        clustersToProcess := clustersToProcess + defragClusters;
        result := overall;
      }
    }

    /**
     * optimize_mft. The analysis sets the operation to analysis, and a
     * failed analysis is returned as is. On a file system
     * other than NTFS nothing is done: the result is 0, with one cluster
     * to process and the operation set to optimization. Otherwise the
     * clusters to process are those of the MFT (`mftClusters`), the MFT
     * optimizer sets the operation to optimization, reports `routine` and
     * processes `processed` clusters, and
     * the defragmentation count is added. The state is the one
     * `defragment(jp)` at the end of optimize_mft starts from.
     */
    method OptimizeMft(analyze: int, ntfs: bool, mftClusters: nat, routine: int, processed: nat, defragClusters: nat)
      returns (result: int)
      modifies this
      ensures sizeLimit == old(sizeLimit) && fragmentsLimit == old(fragmentsLimit)
      ensures analyze < 0 ==>
        && result == analyze && processedClusters == old(processedClusters)
        && clustersToProcess == old(clustersToProcess) && currentOperation == VolumeAnalysis
      ensures analyze >= 0 && !ntfs ==>
        result == 0 && processedClusters == 0 && clustersToProcess == 1 && currentOperation == VolumeOptimization
      ensures analyze >= 0 && ntfs ==>
        && result == routine && processedClusters == processed
        && clustersToProcess == mftClusters + defragClusters && currentOperation == VolumeOptimization
    {
      currentOperation := VolumeAnalysis;
      if analyze < 0 {
        result := analyze;
      } else if !ntfs {
        processedClusters := 0;
        clustersToProcess := 1;
        currentOperation := VolumeOptimization;
        result := 0;
      } else {
        processedClusters := 0;
        clustersToProcess := mftClusters;
        currentOperation := VolumeOptimization;
        result := routine;
        processedClusters := processedClusters + processed;
        clustersToProcess := clustersToProcess + defragClusters;
      }
    }
  }

  /**
   * The clusters optimize counts as allocated, when the router lets the
   * walk go to the end of a valid free list within the volume, are the
   * volume's clusters less the free ones, and never negative.
   */
  lemma {:induction false} InUseCount(rs: seq<Region>, total: nat)
    requires forall i :: 0 <= i < |rs| ==> rs[i].length > 0
    requires forall i, j :: 0 <= i < j < |rs| ==> rs[i].lcn + rs[i].length < rs[j].lcn
    requires forall i :: 0 <= i < |rs| ==> rs[i].lcn + rs[i].length <= total
    ensures 0 <= total - FreeFrom(rs[..|rs|], 0) <= total
  {
    assert rs[..|rs|] == rs;
    FreeFromBound(rs, 0, total);
  }
}
