/**
 * File moving of src/dll/udefrag/move.c: which files may be moved, the
 * block holding a VCN, the chunked requests of move_file_helper, the
 * block map calculate_file_disposition expects after a move, the
 * comparison of two maps, and the checks and outcome rules of move_file.
 */
module Move {
  import opened Types
  import Fragments
  import Analyze
  import ClusterMap
  import Regions

  // ---------------------------------------------------------------------
  // can_move, can_move_entirely
  // ---------------------------------------------------------------------

  /** A file of zero length: no clusters, or a single empty block. */
  predicate ZeroLength(f: FileRec)
  {
    f.clusters == 0 || (|f.blocks| == 1 && f.blocks[0].length == 0)
  }

  /** The tests can_move makes before it looks at the length. */
  predicate PassesEarlyChecks(f: FileRec)
  {
    f.path != "" && MovedToFront !in f.flags && CurrentlyExcluded !in f.flags &&
    f.blocks != [] && Locked !in f.flags
  }

  /**
   * can_move: a file with a path and a map that is neither moved to the
   * front, currently excluded, locked, empty, in an improper state nor
   * failed before. Only an empty file gets a flag, UD_FILE_IMPROPER_STATE.
   */
  function CanMove(f: FileRec): (r: (bool, FileRec))
    ensures r.0 <==> PassesEarlyChecks(f) && !ZeroLength(f) && ImproperState !in f.flags && MovingFailed !in f.flags
    ensures r.1 == f.(flags := if PassesEarlyChecks(f) && ZeroLength(f) then f.flags + {ImproperState} else f.flags)
  {
    if f.path == "" then (false, f)
    else if MovedToFront in f.flags then (false, f)
    else if CurrentlyExcluded in f.flags then (false, f)
    else if f.blocks == [] || Locked in f.flags then (false, f)
    else if ZeroLength(f) then (false, f.(flags := f.flags + {ImproperState}))
    else if ImproperState in f.flags then (false, f)
    else if MovingFailed in f.flags then (false, f)
    else (true, f)
  }

  /** Asking can_move again gives the same answer and changes nothing more. */
  lemma CanMoveStable(f: FileRec)
    ensures CanMove(CanMove(f).1) == (CanMove(f).0, CanMove(f).1)
  {
  }

  /** A movable file is left as it is; a refused one only ever gains UD_FILE_IMPROPER_STATE. */
  lemma CanMoveFlags(f: FileRec)
    ensures CanMove(f).0 ==> CanMove(f).1 == f
    ensures CanMove(f).1.flags - f.flags <= {ImproperState}
    ensures ImproperState in CanMove(f).1.flags ==> !CanMove(f).0
  {
  }

  /**
   * can_move_entirely: movable, not the MFT (whose first clusters cannot
   * move) and not a directory on FAT. Asking is_mft may cache its answer.
   */
  function CanMoveEntirely(f: FileRec, ntfs: bool, isFat: bool): (r: (bool, FileRec))
    ensures r.0 <==> CanMove(f).0 && !ClusterMap.IsMft(f, ntfs).0 && !(isFat && f.directory)
    ensures !CanMove(f).0 ==> r.1 == CanMove(f).1
    ensures CanMove(f).0 ==> r.1 == ClusterMap.IsMft(f, ntfs).1
  {
    var (movable, g) := CanMove(f);
    if !movable then (false, g)
    else
      var (mft, h) := ClusterMap.IsMft(g, ntfs);
      if mft then (false, h)
      else if isFat && h.directory then (false, h)
      else (true, h)
  }

  /** Whatever can be moved entirely can be moved. */
  lemma EntirelyImpliesMovable(f: FileRec, ntfs: bool, isFat: bool)
    ensures CanMoveEntirely(f, ntfs, isFat).0 ==> CanMove(f).0
  {
  }

  // ---------------------------------------------------------------------
  // get_first_block_of_cluster_chain
  // ---------------------------------------------------------------------

  /** Block `b` holds virtual cluster `vcn`. */
  predicate Holds(b: Block, vcn: nat)
  {
    b.vcn <= vcn < b.vcn + b.length
  }

  /** The first block, from `i` on, that holds `vcn`. */
  function FirstFrom(blocks: seq<Block>, vcn: nat, i: nat): (k: Option<nat>)
    requires i <= |blocks|
    ensures k.Some? ==> i <= k.value < |blocks| && Holds(blocks[k.value], vcn)
    ensures k.Some? ==> forall j :: i <= j < k.value ==> !Holds(blocks[j], vcn)
    ensures k.None? ==> forall j :: i <= j < |blocks| ==> !Holds(blocks[j], vcn)
    decreases |blocks| - i
  {
    if i == |blocks| then None
    else if Holds(blocks[i], vcn) then Some(i)
    else FirstFrom(blocks, vcn, i + 1)
  }

  /** The index of the first block holding `vcn`, or None. */
  function FirstBlockOf(blocks: seq<Block>, vcn: nat): (k: Option<nat>)
    ensures k.Some? ==> k.value < |blocks| && Holds(blocks[k.value], vcn)
    ensures k.Some? ==> forall j :: 0 <= j < k.value ==> !Holds(blocks[j], vcn)
    ensures k.None? ==> forall j :: 0 <= j < |blocks| ==> !Holds(blocks[j], vcn)
  {
    FirstFrom(blocks, vcn, 0)
  }

  /** get_first_block_of_cluster_chain: walks the map until a block holds `vcn`. */
  method GetFirstBlockOfClusterChain(blocks: seq<Block>, vcn: nat) returns (k: Option<nat>)
    ensures k == FirstBlockOf(blocks, vcn)
  {
    var i := 0;
    while i < |blocks|
      invariant 0 <= i <= |blocks|
      invariant FirstFrom(blocks, vcn, i) == FirstBlockOf(blocks, vcn)
    {
      if vcn >= blocks[i].vcn && vcn < blocks[i].vcn + blocks[i].length {
        return Some(i);
      }
      i := i + 1;
    }
    return None;
  }

  // ---------------------------------------------------------------------
  // move_file_helper
  // ---------------------------------------------------------------------

  /** One move_file_clusters call: `n` clusters from `vcn` to `target`. */
  datatype Request = Request(vcn: nat, target: nat, n: nat)

  /** Clusters asked for by a list of requests. */
  function SumN(rs: seq<Request>): nat
  {
    if rs == [] then 0 else SumN(rs[..|rs| - 1]) + rs[|rs| - 1].n
  }

  lemma SumNSnoc(rs: seq<Request>, x: Request)
    ensures SumN(rs + [x]) == SumN(rs) + x.n
  {
    assert (rs + [x])[..|rs|] == rs;
  }

  /** Each request targets the clusters right after those of the requests before it. */
  predicate Chained(rs: seq<Request>, target: nat)
  {
    forall k :: 0 <= k < |rs| ==> rs[k].target == target + SumN(rs[..k])
  }

  lemma ChainedSnoc(rs: seq<Request>, target: nat, x: Request)
    requires Chained(rs, target) && x.target == target + SumN(rs)
    ensures Chained(rs + [x], target)
  {
    forall k | 0 <= k < |rs| + 1
      ensures (rs + [x])[k].target == target + SumN((rs + [x])[..k])
    {
      if k < |rs| {
        assert (rs + [x])[..k] == rs[..k];
      } else {
        assert (rs + [x])[..k] == rs;
      }
    }
  }

  /** Request `r` stays within block `b`, at or after `vcn`, and asks for 1 to `cao` clusters. */
  predicate WithinBlock(r: Request, b: Block, cao: nat)
  {
    b.vcn <= r.vcn && r.vcn + r.n <= b.vcn + b.length && 0 < r.n <= cao
  }

  /** Every request stays within one block of the map. */
  predicate WithinFile(rs: seq<Request>, blocks: seq<Block>, cao: nat)
  {
    forall k :: 0 <= k < |rs| ==> exists j :: 0 <= j < |blocks| && WithinBlock(rs[k], blocks[j], cao)
  }

  lemma WithinFileSnoc(rs: seq<Request>, blocks: seq<Block>, cao: nat, x: Request, j: nat)
    requires WithinFile(rs, blocks, cao) && j < |blocks| && WithinBlock(x, blocks[j], cao)
    ensures WithinFile(rs + [x], blocks, cao)
  {
    forall k | 0 <= k < |rs| + 1
      ensures exists i :: 0 <= i < |blocks| && WithinBlock((rs + [x])[k], blocks[i], cao)
    {
      if k == |rs| {
        assert WithinBlock((rs + [x])[k], blocks[j], cao);
      } else {
        assert (rs + [x])[k] == rs[k];
      }
    }
  }

  /** The parts of the job that file moving updates. */
  class Job {
    /** `clusters_at_once`, the largest request. */
    var clustersAtOnce: nat
    /** `pi.processed_clusters` and `pi.moved_clusters`. */
    var processedClusters: nat
    var movedClusters: nat
    /** The move_file_clusters calls made, in order. */
    var requests: seq<Request>
    /** `free_regions`, the pool of free space. */
    const free: Regions.RegionList
    /** `pi.fragmented` and `pi.fragments`, the fragmentation statistics. */
    const stats: Statistics

    constructor (cao: nat)
      ensures clustersAtOnce == cao && processedClusters == 0 && movedClusters == 0 && requests == []
      ensures fresh(free) && free.regions == [] && fresh(stats) && stats.fragmentedFiles == 0 && stats.fragments == 0
    {
      clustersAtOnce := cao;
      processedClusters := 0;
      movedClusters := 0;
      requests := [];
      free := new Regions.RegionList();
      stats := new Statistics();
    }

    /**
     * move_file_clusters: one request. `accepted` stands for the
     * termination router, the dry-run switch and the status of the
     * FSCTL_MOVE_FILE call: an accepted request counts as moved, a
     * refused one returns -1.
     */
    method MoveFileClusters(vcn: nat, target: nat, n: nat, accepted: Request -> bool) returns (result: int)
      modifies this
      ensures requests == old(requests) + [Request(vcn, target, n)]
      ensures accepted(Request(vcn, target, n)) ==> result == 0 && movedClusters == old(movedClusters) + n
      ensures !accepted(Request(vcn, target, n)) ==> result == -1 && movedClusters == old(movedClusters)
      ensures processedClusters == old(processedClusters) && clustersAtOnce == old(clustersAtOnce)
    {
      requests := requests + [Request(vcn, target, n)];
      if accepted(Request(vcn, target, n)) {
        movedClusters := movedClusters + n;
        result := 0;
      } else {
        result := -1;
      }
    }

    /**
     * move_file_helper: moves `length` clusters from `vcn` to `target`,
     * block after block, in requests of at most `clusters_at_once`. It
     * stops at the first refused request, and counts every one of the
     * `length` clusters as processed whether moved or not. The requests
     * target consecutive clusters from `target` on.
     */
    method MoveFileHelper(blocks: seq<Block>, vcn: nat, length: nat, target: nat, accepted: Request -> bool)
      returns (ghost issued: seq<Request>)
      requires clustersAtOnce > 0
      modifies this
      ensures clustersAtOnce == old(clustersAtOnce)
      ensures processedClusters == old(processedClusters) + length
      ensures requests == old(requests) + issued
      ensures Chained(issued, target) && SumN(issued) <= length
      ensures WithinFile(issued, blocks, clustersAtOnce)
      ensures forall k :: 0 <= k < |issued| - 1 ==> accepted(issued[k])
      ensures |issued| > 0 && !accepted(issued[|issued| - 1]) ==>
        movedClusters == old(movedClusters) + SumN(issued) - issued[|issued| - 1].n
      ensures |issued| == 0 || accepted(issued[|issued| - 1]) ==> movedClusters == old(movedClusters) + SumN(issued)
    {
      var cao := clustersAtOnce;
      var toProcess: nat := length;
      var curVcn: nat := vcn;
      var curTarget: nat := target;
      ghost var r0, p0, m0 := requests, processedClusters, movedClusters;
      issued := [];
      var first := GetFirstBlockOfClusterChain(blocks, vcn);
      var stopped := false;
      if first.Some? {
        var i := first.value;
        while true
          invariant i < |blocks| && blocks[i].vcn <= curVcn <= blocks[i].vcn + blocks[i].length
          invariant Tracks(r0, p0, m0, issued, blocks, cao, target, length, toProcess, curTarget, accepted)
          decreases |blocks| - i
        {
          var toMove;
          toMove, stopped, toProcess, curTarget, issued :=
            MoveBlock(i, curVcn, curTarget, accepted, r0, p0, m0, issued, blocks, target, length, toProcess);
          if stopped || toMove == 0 || i == |blocks| - 1 {
            break;
          }
          curVcn := blocks[i + 1].vcn;
          i := i + 1;
        }
      }
      processedClusters := processedClusters + toProcess;
    }

    /**
     * The body of move_file_helper's walk for block `i`: the part of it
     * from `curVcn` on, at most the clusters left, in `toMove / cao` full
     * requests and one request for the `toMove % cao` left over.
     * `stopped` tells that a request was refused.
     */
    method MoveBlock(i: nat, curVcn: nat, curTarget: nat, accepted: Request -> bool,
                     ghost r0: seq<Request>, ghost p0: nat, ghost m0: nat, ghost issued: seq<Request>,
                     blocks: seq<Block>, ghost target: nat, ghost length: nat, toProcess: nat)
      returns (toMove: nat, stopped: bool, toProcess': nat, curTarget': nat, ghost issued': seq<Request>)
      requires i < |blocks| && blocks[i].vcn <= curVcn <= blocks[i].vcn + blocks[i].length
      requires Tracks(r0, p0, m0, issued, blocks, clustersAtOnce, target, length, toProcess, curTarget, accepted)
      modifies this
      ensures clustersAtOnce == old(clustersAtOnce)
      ensures !stopped ==>
        Tracks(r0, p0, m0, issued', blocks, clustersAtOnce, target, length, toProcess', curTarget', accepted)
      ensures stopped ==> Stopped(r0, p0, m0, issued', blocks, clustersAtOnce, target, length, toProcess', accepted)
    {
      var cao := clustersAtOnce;
      var b := blocks[i];
      var vcn := curVcn;
      toMove := Min(b.length - (curVcn - b.vcn), toProcess);
      toProcess', curTarget', issued' := toProcess, curTarget, issued;
      stopped := false;
      var left: nat := toMove;
      while left >= cao
        invariant vcn + left <= b.vcn + b.length && b.vcn <= vcn && left <= toProcess'
        invariant Tracks(r0, p0, m0, issued', blocks, cao, target, length, toProcess', curTarget', accepted)
      {
        var result;
        result, issued' := Chunk(vcn, curTarget', cao, accepted, r0, p0, m0, issued', blocks, i, target, length, toProcess');
        if result < 0 {
          stopped := true;
          return;
        }
        toProcess' := toProcess' - cao;
        vcn := vcn + cao;
        curTarget' := curTarget' + cao;
        left := left - cao;
      }
      if left > 0 {
        var result;
        result, issued' := Chunk(vcn, curTarget', left, accepted, r0, p0, m0, issued', blocks, i, target, length, toProcess');
        if result < 0 {
          stopped := true;
          return;
        }
        toProcess' := toProcess' - left;
        curTarget' := curTarget' + left;
      }
    }

    /** The bookkeeping after a refused request: the last request failed, all before it were accepted. */
    ghost predicate Stopped(r0: seq<Request>, p0: nat, m0: nat, issued: seq<Request>, blocks: seq<Block>, cao: nat,
                            target: nat, length: nat, toProcess: nat, accepted: Request -> bool)
      reads this
    {
      && clustersAtOnce == cao
      && requests == r0 + issued
      && Chained(issued, target) && SumN(issued) <= length
      && WithinFile(issued, blocks, cao)
      && |issued| > 0
      && (forall k :: 0 <= k < |issued| - 1 ==> accepted(issued[k]))
      && !accepted(issued[|issued| - 1])
      && processedClusters + toProcess == p0 + length
      && movedClusters == m0 + SumN(issued) - issued[|issued| - 1].n
    }

    /**
     * The bookkeeping of move_file_helper since it started with the
     * requests `r0` and the counters `p0`, `m0`: the requests `issued`
     * so far were all accepted, chain from `target` and fit the map, and
     * the counters went up by what they asked for.
     */
    ghost predicate Tracks(r0: seq<Request>, p0: nat, m0: nat, issued: seq<Request>, blocks: seq<Block>, cao: nat,
                           target: nat, length: nat, toProcess: nat, curTarget: nat, accepted: Request -> bool)
      reads this
    {
      && clustersAtOnce == cao > 0
      && requests == r0 + issued
      && Chained(issued, target) && SumN(issued) + toProcess == length
      && curTarget == target + SumN(issued)
      && WithinFile(issued, blocks, cao)
      && (forall k :: 0 <= k < |issued| ==> accepted(issued[k]))
      && processedClusters == p0 + SumN(issued)
      && movedClusters == m0 + SumN(issued)
    }

    /** One request of move_file_helper and, when accepted, the counting of its clusters as processed. */
    method Chunk(curVcn: nat, curTarget: nat, n: nat, accepted: Request -> bool,
                 ghost r0: seq<Request>, ghost p0: nat, ghost m0: nat, ghost issued: seq<Request>,
                 ghost blocks: seq<Block>, ghost i: nat, ghost target: nat, ghost length: nat, toProcess: nat)
      returns (result: int, ghost issued': seq<Request>)
      requires Tracks(r0, p0, m0, issued, blocks, clustersAtOnce, target, length, toProcess, curTarget, accepted)
      requires i < |blocks| && WithinBlock(Request(curVcn, curTarget, n), blocks[i], clustersAtOnce) && n <= toProcess
      modifies this
      ensures clustersAtOnce == old(clustersAtOnce)
      ensures issued' == issued + [Request(curVcn, curTarget, n)]
      ensures result >= 0 ==>
        Tracks(r0, p0, m0, issued', blocks, clustersAtOnce, target, length, toProcess - n, curTarget + n, accepted)
      ensures result < 0 ==> Stopped(r0, p0, m0, issued', blocks, clustersAtOnce, target, length, toProcess, accepted)
    {
      var x := Request(curVcn, curTarget, n);
      result := MoveFileClusters(curVcn, curTarget, n, accepted);
      ChainedSnoc(issued, target, x);
      WithinFileSnoc(issued, blocks, clustersAtOnce, x, i);
      SumNSnoc(issued, x);
      issued' := issued + [x];
      if result >= 0 {
        processedClusters := processedClusters + n;
      }
    }

    /**
     * move_file: checks the request, opens the file, moves the clusters,
     * works out the outcome from the block map the file system reports
     * afterwards (`dump`, ignored in a dry run) or else from the expected
     * one, and updates the file, the free space pool and the statistics.
     * `opens` is the result of opening the file for moving.
     */
    method MoveFile(f: FileRec, vcn: nat, length: nat, target: nat, env: MoveEnv,
                    opens: bool, dump: Option<Disposition>, accepted: Request -> bool)
      returns (code: int, g: FileRec, ghost issued: seq<Request>)
      requires clustersAtOnce > 0 && Regions.Valid(free.regions)
      modifies this, free, stats
      ensures code == MoveFileSpec(f, vcn, length, target, env, opens, dump).code
      ensures g == MoveFileSpec(f, vcn, length, target, env, opens, dump).file
      ensures free.regions ==
        FreeAfter(old(free.regions), MoveFileSpec(f, vcn, length, target, env, opens, dump).outcome, f.blocks, vcn, length, target, env)
      ensures (stats.fragmentedFiles, stats.fragments) ==
        StatisticsAfter(old(stats.fragmentedFiles), old(stats.fragments), f, MoveFileSpec(f, vcn, length, target, env, opens, dump))
      ensures clustersAtOnce == old(clustersAtOnce)
      ensures !Proceeds(f, vcn, length, target, env, opens) ==>
        requests == old(requests) && processedClusters == old(processedClusters) && movedClusters == old(movedClusters)
      ensures Proceeds(f, vcn, length, target, env, opens) ==>
        processedClusters == old(processedClusters) + length && requests == old(requests) + issued &&
        Chained(issued, target) && SumN(issued) <= length
    {
      issued := [];
      var v, k := CheckRequest(f, vcn, length, target, env.totalClusters);
      if v.Some? {
        code, g := v.value, f.(flags := f.flags + {ImproperState});
      } else {
        // get_file_color may cache the is_mft answer in the flags
        var f1 := ClusterMap.GetFileColor(f, env.ntfs).1;
        if !opens {
          code, g := -1, f1.(flags := f1.flags + {Locked});
        } else {
          assert MoveFileSpec(f, vcn, length, target, env, opens, dump) == AfterMove(f, f1, vcn, length, target, env, dump);
          code, g, issued := MoveOpened(f, f1, k, vcn, length, target, env, dump, accepted);
        }
      }
    }

    /**
     * The checks at the head of move_file, in their order: the code it
     * returns at once, if any, and otherwise the block holding `vcn`.
     */
    method CheckRequest(f: FileRec, vcn: nat, length: nat, target: nat, totalClusters: nat)
      returns (v: Option<int>, k: nat)
      ensures v == Validate(f, vcn, length, target, totalClusters)
      ensures v.None? ==> FirstBlockOf(f.blocks, vcn) == Some(k)
    {
      k := 0;
      if length == 0 {
        return Some(0), k;
      }
      if f.clusters == 0 || f.fragments == 0 || f.blocks == [] {
        return Some(0), k;
      }
      if vcn + length > f.blocks[|f.blocks| - 1].vcn + f.blocks[|f.blocks| - 1].length {
        return Some(-1), k;
      }
      var first := GetFirstBlockOfClusterChain(f.blocks, vcn);
      if first.None? {
        return Some(-1), k;
      }
      if !Analyze.CheckRegion(totalClusters, target, length) {
        return Some(-1), k;
      }
      return None, first.value;
    }

    /** move_file once the file is open for moving. */
    method MoveOpened(f: FileRec, f1: FileRec, k: nat, vcn: nat, length: nat, target: nat, env: MoveEnv,
                      dump: Option<Disposition>, accepted: Request -> bool)
      returns (code: int, g: FileRec, ghost issued: seq<Request>)
      requires clustersAtOnce > 0 && Regions.Valid(free.regions)
      requires f1.blocks == f.blocks && FirstBlockOf(f.blocks, vcn) == Some(k)
      modifies this, free, stats
      ensures code == AfterMove(f, f1, vcn, length, target, env, dump).code
      ensures g == AfterMove(f, f1, vcn, length, target, env, dump).file
      ensures free.regions ==
        FreeAfter(old(free.regions), AfterMove(f, f1, vcn, length, target, env, dump).outcome, f.blocks, vcn, length, target, env)
      ensures (stats.fragmentedFiles, stats.fragments) ==
        StatisticsAfter(old(stats.fragmentedFiles), old(stats.fragments), f, AfterMove(f, f1, vcn, length, target, env, dump))
      ensures clustersAtOnce == old(clustersAtOnce)
      ensures processedClusters == old(processedClusters) + length && requests == old(requests) + issued
      ensures Chained(issued, target) && SumN(issued) <= length
    {
      issued := MoveFileHelper(f1.blocks, vcn, length, target, accepted);
      var desired := CalculateFileDisposition(f1, vcn, length, target);
      var info, outcome := DetermineOutcome(f1, desired, if env.dryRun then None else dump);
      ghost var m := AfterMove(f, f1, vcn, length, target, env, dump);
      if outcome == DeterminedFailure {
        free.Sub(target, length);
        code, g := -1, f1.(flags := f1.flags + {MovingFailed});
        assert m == MoveResult(code, g, Some(outcome));
      } else {
        code, g := Finish(f, f1, k, vcn, length, target, env, info, outcome);
        assert m == Finished(f1, info, outcome, env);
      }
      assert m.outcome == Some(outcome);
    }

    /** move_file after a move that changed something: flags, free space and statistics. */
    method Finish(f: FileRec, f1: FileRec, k: nat, vcn: nat, length: nat, target: nat, env: MoveEnv,
                  info: FileRec, outcome: Outcome)
      returns (code: int, g: FileRec)
      requires Regions.Valid(free.regions) && outcome != DeterminedFailure
      requires f1.blocks == f.blocks && FirstBlockOf(f.blocks, vcn) == Some(k)
      modifies free, stats
      ensures MoveResult(code, g, Some(outcome)) == Finished(f1, info, outcome, env)
      ensures free.regions == FreeAfter(old(free.regions), Some(outcome), f.blocks, vcn, length, target, env)
      ensures (stats.fragmentedFiles, stats.fragments) ==
        AdjustStatistics(old(stats.fragmentedFiles), old(stats.fragments), f.fragmented, Excluded in f.flags, f.fragments,
                         g.fragmented, Excluded in g.flags, g.fragments)
    {
      var excluded := Refilter(info.(flags := info.flags - {Excluded}), env);
      var flags := NewFlags(f1.flags, outcome, excluded);
      UpdateFreeSpace(f1.blocks, k, vcn, length, target, env, outcome);
      g := WithDisposition(f1.(flags := flags), DispositionOf(info));
      stats.Adjust(f.fragmented, Excluded in f.flags, f.fragments, g.fragmented, Excluded in g.flags, g.fragments);
      code := if outcome == DeterminedPartialSuccess then -1 else 0;
    }

    /**
     * The free space update of move_file: the target range is taken, and
     * the old places are given back unless the move was partial or the
     * volume is NTFS outside a dry run.
     */
    method UpdateFreeSpace(blocks: seq<Block>, k: nat, vcn: nat, length: nat, target: nat, env: MoveEnv, outcome: Outcome)
      requires Regions.Valid(free.regions) && outcome != DeterminedFailure && FirstBlockOf(blocks, vcn) == Some(k)
      modifies free
      ensures free.regions == FreeAfter(old(free.regions), Some(outcome), blocks, vcn, length, target, env)
    {
      FreeAfterRelease(free.regions, outcome, blocks, k, vcn, length, target, env);
      free.Sub(target, length);
      if outcome != DeterminedPartialSuccess && (!env.ntfs || env.dryRun) {
        ReleaseFreed(blocks, k, vcn, length);
      }
    }

    /**
     * The walk of move_file over the moved clusters' old places: each
     * piece is returned to the free space pool.
     */
    method ReleaseFreed(bs: seq<Block>, k: nat, vcn: nat, length: nat)
      requires k < |bs| && bs[k].vcn <= vcn <= End(bs[k])
      modifies free
      ensures free.regions == AddAll(old(free.regions), Freed(bs, k, vcn, length))
    {
      var left: nat := length;
      var curVcn: nat := vcn;
      var i := k;
      ghost var s0 := free.regions;
      ghost var done: seq<Region> := [];
      while true
        invariant k <= i < |bs| && bs[i].vcn <= curVcn <= End(bs[i])
        invariant Freed(bs, k, vcn, length) == done + Freed(bs, i, curVcn, left)
        invariant free.regions == AddAll(s0, done)
        decreases |bs| - i
      {
        var n, last := ReleasePiece(bs, i, curVcn, left);
        ghost var r := Region(bs[i].lcn + (curVcn - bs[i].vcn), n);
        AddAllSnoc(s0, done, r);
        if last {
          WalkLast(bs, k, vcn, length, done, i, curVcn, left, n);
          return;
        }
        WalkNext(bs, k, vcn, length, done, i, curVcn, left, n);
        done := done + [r];
        left, curVcn, i := left - n, bs[i + 1].vcn, i + 1;
      }
    }

    /**
     * One piece of ReleaseFreed's walk: the part of block `i` from
     * `curVcn` on, at most `left` clusters, added to the pool. `last`
     * tells that the walk ends with it.
     */
    method ReleasePiece(bs: seq<Block>, i: nat, curVcn: nat, left: nat) returns (n: nat, last: bool)
      requires i < |bs| && bs[i].vcn <= curVcn <= End(bs[i])
      modifies free
      ensures n == Min(bs[i].length - (curVcn - bs[i].vcn), left)
      ensures last <==> left - n == 0 || i == |bs| - 1
      ensures free.regions == Regions.AddRegion(old(free.regions), bs[i].lcn + (curVcn - bs[i].vcn), n)
    {
      var b := bs[i];
      var lcn := b.lcn + (curVcn - b.vcn);
      n := Min(b.length - (curVcn - b.vcn), left);
      last := left - n == 0 || i == |bs| - 1;
      free.Add(lcn, n);
    }
  }

  // ---------------------------------------------------------------------
  // calculate_file_disposition
  // ---------------------------------------------------------------------

  function End(b: Block): nat { b.vcn + b.length }

  /**
   * What calculate_file_disposition puts in the new map for block `b`
   * when the moved chain goes on at `curVcn` with `left` clusters still
   * to place at `curTarget`, and how many of them the block takes. A
   * chain starting inside a block keeps the block's head and places its
   * tail; one starting at the block places its head, or all of it.
   */
  function DisposeBlock(b: Block, curVcn: nat, curTarget: nat, left: nat): (d: (seq<Block>, nat))
    requires b.vcn <= curVcn <= End(b)
    ensures d.1 <= left && (left == 0 ==> d.1 == 0)
    ensures left > 0 ==> d.1 == Min(End(b) - curVcn, left)
  {
    if left == 0 then ([b], 0)
    else
      var n := Min(b.length - (curVcn - b.vcn), left);
      if curVcn != b.vcn then ([Block(b.vcn, b.lcn, b.length - n), Block(curVcn, curTarget, n)], n)
      else if n != b.length then ([Block(curVcn, curTarget, n), Block(b.vcn + n, b.lcn + n, b.length - n)], n)
      else ([Block(b.vcn, curTarget, b.length)], n)
  }

  /**
   * The new blocks for `bs[i..]` and the pieces placed at the target,
   * when the chain goes on at `curVcn` with `left` clusters to place at
   * `curTarget`.
   */
  function Dispose(bs: seq<Block>, i: nat, curVcn: nat, curTarget: nat, left: nat): (d: (seq<Block>, seq<Block>))
    requires i < |bs| && bs[i].vcn <= curVcn <= End(bs[i])
    decreases |bs| - i
  {
    var step := DisposeBlock(bs[i], curVcn, curTarget, left);
    var p := Placed(curVcn, curTarget, left, step.1);
    if i == |bs| - 1 then (step.0, p)
    else
      var rest := Dispose(bs, i + 1, bs[i + 1].vcn, curTarget + step.1, left - step.1);
      (step.0 + rest.0, p + rest.1)
  }

  /** One step of Dispose, for the lemmas and the loop. */
  lemma DisposeUnfold(bs: seq<Block>, i: nat, curVcn: nat, curTarget: nat, left: nat)
    requires i < |bs| - 1 && bs[i].vcn <= curVcn <= End(bs[i])
    ensures var step := DisposeBlock(bs[i], curVcn, curTarget, left);
      var rest := Dispose(bs, i + 1, bs[i + 1].vcn, curTarget + step.1, left - step.1);
      Dispose(bs, i, curVcn, curTarget, left) == (step.0 + rest.0, Placed(curVcn, curTarget, left, step.1) + rest.1)
  {
  }

  /** The piece a block places: none once nothing is left. */
  function Placed(curVcn: nat, curTarget: nat, left: nat, n: nat): seq<Block>
  {
    if left > 0 then [Block(curVcn, curTarget, n)] else []
  }

  /** The whole new map: the blocks before the chain, then the disposed ones, merged into fragments. */
  function Desired(f: FileRec, vcn: nat, length: nat, target: nat): FileRec
  {
    match FirstBlockOf(f.blocks, vcn)
    case None => f.(blocks := [], fragments := 0, clusters := 0)
    case Some(k) =>
      var fr := Fragments.Fragments(f.blocks[..k] + Dispose(f.blocks, k, vcn, target, length).0);
      f.(blocks := fr, fragments := |fr|)
  }

  lemma SumLengthsCons(x: Block, s: seq<Block>)
    ensures SumLengths([x] + s) == x.length + SumLengths(s)
  {
    assert ([x] + s)[1..] == s;
  }

  lemma DisposeBlockSum(b: Block, curVcn: nat, curTarget: nat, left: nat)
    requires b.vcn <= curVcn <= End(b)
    ensures SumLengths(DisposeBlock(b, curVcn, curTarget, left).0) == b.length
  {
    var e := DisposeBlock(b, curVcn, curTarget, left).0;
    if |e| == 2 {
      SumLengthsCons(e[0], [e[1]]);
      assert [e[0]] + [e[1]] == e;
    }
  }

  /** The new blocks hold as many clusters as the old ones. */
  lemma {:induction false} DisposeSum(bs: seq<Block>, i: nat, curVcn: nat, curTarget: nat, left: nat)
    requires i < |bs| && bs[i].vcn <= curVcn <= End(bs[i])
    ensures SumLengths(Dispose(bs, i, curVcn, curTarget, left).0) == SumFrom(bs, i)
    decreases |bs| - i
  {
    var n := DisposeBlock(bs[i], curVcn, curTarget, left).1;
    DisposeBlockSum(bs[i], curVcn, curTarget, left);
    if i < |bs| - 1 {
      DisposeSum(bs, i + 1, bs[i + 1].vcn, curTarget + n, left - n);
      DisposeSumNext(bs, i, curVcn, curTarget, left);
    } else {
      assert Dispose(bs, i, curVcn, curTarget, left).0 == DisposeBlock(bs[i], curVcn, curTarget, left).0;
    }
  }

  /** The blocks disposed from a block before the last total the clusters from it on when those of the rest do. */
  lemma DisposeSumNext(bs: seq<Block>, i: nat, curVcn: nat, curTarget: nat, left: nat)
    requires i < |bs| - 1 && bs[i].vcn <= curVcn <= End(bs[i])
    requires var n := DisposeBlock(bs[i], curVcn, curTarget, left).1;
      SumLengths(Dispose(bs, i + 1, bs[i + 1].vcn, curTarget + n, left - n).0) == SumFrom(bs, i + 1)
    ensures SumLengths(Dispose(bs, i, curVcn, curTarget, left).0) == SumFrom(bs, i)
  {
    var step := DisposeBlock(bs[i], curVcn, curTarget, left);
    var rest := Dispose(bs, i + 1, bs[i + 1].vcn, curTarget + step.1, left - step.1).0;
    DisposeBlockSum(bs[i], curVcn, curTarget, left);
    DisposeNextBlocks(bs, i, curVcn, curTarget, left);
    SumLengthsAppend(step.0, rest);
  }

  /** The clusters of the blocks from position `i` on. */
  function SumFrom(bs: seq<Block>, i: nat): nat
    decreases |bs| - i
  {
    if i >= |bs| then 0 else bs[i].length + SumFrom(bs, i + 1)
  }

  lemma {:induction false} SumFromSuffix(bs: seq<Block>, i: nat)
    requires i <= |bs|
    ensures SumFrom(bs, i) == SumLengths(bs[i..])
    decreases |bs| - i
  {
    if i < |bs| {
      SumFromSuffix(bs, i + 1);
      assert bs[i..][1..] == bs[i + 1..];
    }
  }

  /** The new blocks for a block before the last: its own, then those of the rest. */
  lemma DisposeNextBlocks(bs: seq<Block>, i: nat, curVcn: nat, curTarget: nat, left: nat)
    requires i < |bs| - 1 && bs[i].vcn <= curVcn <= End(bs[i])
    ensures var step := DisposeBlock(bs[i], curVcn, curTarget, left);
      Dispose(bs, i, curVcn, curTarget, left).0 ==
        step.0 + Dispose(bs, i + 1, bs[i + 1].vcn, curTarget + step.1, left - step.1).0
  {
    DisposeUnfold(bs, i, curVcn, curTarget, left);
  }

  /** Pieces placed one after the other from `t` on. */
  predicate Consecutive(ps: seq<Block>, t: nat)
  {
    ps == [] || (ps[0].lcn == t && Consecutive(ps[1..], t + ps[0].length))
  }

  lemma ConsecutiveCons(x: Block, ps: seq<Block>, t: nat)
    requires x.lcn == t && Consecutive(ps, t + x.length)
    ensures Consecutive([x] + ps, t)
  {
    assert ([x] + ps)[1..] == ps;
  }

  /** Piece `k` of a consecutive list starts right after the clusters of the pieces before it. */
  lemma {:induction false} ConsecutiveAt(ps: seq<Block>, t: nat, k: nat)
    requires Consecutive(ps, t) && k < |ps|
    ensures ps[k].lcn == t + SumLengths(ps[..k])
  {
    if k > 0 {
      ConsecutiveAt(ps[1..], t + ps[0].length, k - 1);
      assert ps[..k] == [ps[0]] + ps[1..][..k - 1];
      SumLengthsCons(ps[0], ps[1..][..k - 1]);
    } else {
      assert ps[..k] == [];
    }
  }

  /** The placed pieces take the clusters `curTarget, curTarget + 1, ...` in VCN order. */
  lemma {:induction false} DisposePieces(bs: seq<Block>, i: nat, curVcn: nat, curTarget: nat, left: nat)
    requires i < |bs| && bs[i].vcn <= curVcn <= End(bs[i])
    ensures Consecutive(Dispose(bs, i, curVcn, curTarget, left).1, curTarget)
    decreases |bs| - i
  {
    var n := DisposeBlock(bs[i], curVcn, curTarget, left).1;
    var p := Placed(curVcn, curTarget, left, n);
    if i < |bs| - 1 {
      var p2 := Dispose(bs, i + 1, bs[i + 1].vcn, curTarget + n, left - n).1;
      DisposeUnfold(bs, i, curVcn, curTarget, left);
      DisposePieces(bs, i + 1, bs[i + 1].vcn, curTarget + n, left - n);
      if left > 0 {
        var x := Block(curVcn, curTarget, n);
        assert p == [x];
        ConsecutiveCons(x, p2, curTarget);
      } else {
        assert p + p2 == p2;
      }
    } else if left > 0 {
      assert p[1..] == [];
    }
  }

  /** At most `left` clusters are placed. */
  lemma {:induction false} DisposePiecesBound(bs: seq<Block>, i: nat, curVcn: nat, curTarget: nat, left: nat)
    requires i < |bs| && bs[i].vcn <= curVcn <= End(bs[i])
    ensures SumLengths(Dispose(bs, i, curVcn, curTarget, left).1) <= left
    decreases |bs| - i
  {
    var n := DisposeBlock(bs[i], curVcn, curTarget, left).1;
    var p := Placed(curVcn, curTarget, left, n);
    PlacedSum(curVcn, curTarget, left, n);
    if i < |bs| - 1 {
      var p2 := Dispose(bs, i + 1, bs[i + 1].vcn, curTarget + n, left - n).1;
      DisposeNextPlaced(bs, i, curVcn, curTarget, left);
      DisposePiecesBound(bs, i + 1, bs[i + 1].vcn, curTarget + n, left - n);
      SumLengthsAppend(p, p2);
    } else {
      DisposeLastPlaced(bs, i, curVcn, curTarget, left);
    }
  }

  /** The clusters of the piece a block places. */
  lemma PlacedSum(curVcn: nat, curTarget: nat, left: nat, n: nat)
    ensures SumLengths(Placed(curVcn, curTarget, left, n)) == if left > 0 then n else 0
  {
    if left > 0 {
      SumLengthsCons(Block(curVcn, curTarget, n), []);
    }
  }

  /** The pieces placed from the last block of the map. */
  lemma DisposeLastPlaced(bs: seq<Block>, i: nat, curVcn: nat, curTarget: nat, left: nat)
    requires i == |bs| - 1 && bs[i].vcn <= curVcn <= End(bs[i])
    ensures Dispose(bs, i, curVcn, curTarget, left).1 ==
      Placed(curVcn, curTarget, left, DisposeBlock(bs[i], curVcn, curTarget, left).1)
  {
  }

  /** The pieces placed from a block before the last: its own, then those of the rest. */
  lemma DisposeNextPlaced(bs: seq<Block>, i: nat, curVcn: nat, curTarget: nat, left: nat)
    requires i < |bs| - 1 && bs[i].vcn <= curVcn <= End(bs[i])
    ensures var n := DisposeBlock(bs[i], curVcn, curTarget, left).1;
      Dispose(bs, i, curVcn, curTarget, left).1 ==
        Placed(curVcn, curTarget, left, n) + Dispose(bs, i + 1, bs[i + 1].vcn, curTarget + n, left - n).1
  {
    DisposeUnfold(bs, i, curVcn, curTarget, left);
  }

  /** Each placed piece is a block of the new map. */
  lemma {:induction false} DisposePiecesInMap(bs: seq<Block>, i: nat, curVcn: nat, curTarget: nat, left: nat)
    requires i < |bs| && bs[i].vcn <= curVcn <= End(bs[i])
    ensures forall k :: 0 <= k < |Dispose(bs, i, curVcn, curTarget, left).1| ==>
      Dispose(bs, i, curVcn, curTarget, left).1[k] in Dispose(bs, i, curVcn, curTarget, left).0
    decreases |bs| - i
  {
    var step := DisposeBlock(bs[i], curVcn, curTarget, left);
    var e, n := step.0, step.1;
    var p := Placed(curVcn, curTarget, left, n);
    assert forall k :: 0 <= k < |p| ==> p[k] in e;
    if i < |bs| - 1 {
      var rest := Dispose(bs, i + 1, bs[i + 1].vcn, curTarget + n, left - n);
      var e2, p2 := rest.0, rest.1;
      DisposePiecesInMap(bs, i + 1, bs[i + 1].vcn, curTarget + n, left - n);
      forall k | 0 <= k < |p + p2| ensures (p + p2)[k] in e + e2 {
        if k < |p| {
          assert (p + p2)[k] == p[k];
        } else {
          assert (p + p2)[k] == p2[k - |p|];
          assert p2[k - |p|] in e2;
        }
      }
    }
  }

  /** With nothing left to place, nothing is placed. */
  lemma {:induction false} DisposeNothingLeft(bs: seq<Block>, i: nat, curVcn: nat, curTarget: nat)
    requires i < |bs| && bs[i].vcn <= curVcn <= End(bs[i])
    ensures Dispose(bs, i, curVcn, curTarget, 0).1 == []
    decreases |bs| - i
  {
    if i < |bs| - 1 {
      DisposeNothingLeft(bs, i + 1, bs[i + 1].vcn, curTarget);
    }
  }

  /** The blocks follow each other without gaps in VCN order. */
  predicate VcnContiguous(bs: seq<Block>)
  {
    forall j :: 0 < j < |bs| ==> FollowsPrevious(bs, j)
  }

  /** Block `j` starts at the VCN where block `j - 1` ends. */
  predicate FollowsPrevious(bs: seq<Block>, j: nat)
    requires 0 < j < |bs|
  {
    bs[j].vcn == End(bs[j - 1])
  }

  /** When the map covers the whole chain without gaps, every one of its clusters is placed. */
  lemma {:induction false} DisposePlacesAll(bs: seq<Block>, i: nat, curVcn: nat, curTarget: nat, left: nat)
    requires i < |bs| && bs[i].vcn <= curVcn <= End(bs[i])
    requires VcnContiguous(bs) && curVcn + left <= End(bs[|bs| - 1])
    ensures SumLengths(Dispose(bs, i, curVcn, curTarget, left).1) == left
    decreases |bs| - i
  {
    var n := DisposeBlock(bs[i], curVcn, curTarget, left).1;
    if i < |bs| - 1 {
      if n < left {
        assert n == End(bs[i]) - curVcn && FollowsPrevious(bs, i + 1);
        DisposePlacesAll(bs, i + 1, bs[i + 1].vcn, curTarget + n, left - n);
      }
      DisposePlacesNext(bs, i, curVcn, curTarget, left);
    } else {
      assert curVcn + left <= End(bs[i]);
      PlacedSum(curVcn, curTarget, left, n);
      DisposeLastPlaced(bs, i, curVcn, curTarget, left);
    }
  }

  /**
   * The pieces placed from a block before the last total `left` when
   * the rest, if any clusters are left after the block, places them all.
   */
  lemma DisposePlacesNext(bs: seq<Block>, i: nat, curVcn: nat, curTarget: nat, left: nat)
    requires i < |bs| - 1 && bs[i].vcn <= curVcn <= End(bs[i])
    requires var n := DisposeBlock(bs[i], curVcn, curTarget, left).1;
      n < left ==> SumLengths(Dispose(bs, i + 1, bs[i + 1].vcn, curTarget + n, left - n).1) == left - n
    ensures SumLengths(Dispose(bs, i, curVcn, curTarget, left).1) == left
  {
    var n := DisposeBlock(bs[i], curVcn, curTarget, left).1;
    var p := Placed(curVcn, curTarget, left, n);
    var p2 := Dispose(bs, i + 1, bs[i + 1].vcn, curTarget + n, left - n).1;
    PlacedSum(curVcn, curTarget, left, n);
    DisposeNextPlaced(bs, i, curVcn, curTarget, left);
    if n >= left {
      assert left - n == 0;
      DisposeNothingLeft(bs, i + 1, bs[i + 1].vcn, curTarget + n);
    }
    SumLengthsAppend(p, p2);
  }

  /**
   * The desired map of a chain that starts in the file keeps the file's
   * cluster count and totals as many clusters as the old map.
   */
  lemma DesiredKeepsClusters(f: FileRec, vcn: nat, length: nat, target: nat)
    requires FirstBlockOf(f.blocks, vcn).Some?
    ensures Desired(f, vcn, length, target).clusters == f.clusters
    ensures SumLengths(Desired(f, vcn, length, target).blocks) == SumLengths(f.blocks)
    ensures Desired(f, vcn, length, target).fragments == |Desired(f, vcn, length, target).blocks|
  {
    var k := FirstBlockOf(f.blocks, vcn).value;
    var d := Dispose(f.blocks, k, vcn, target, length).0;
    Fragments.FragmentsSpec(f.blocks[..k] + d);
    SumLengthsAppend(f.blocks[..k], d);
    DisposeSum(f.blocks, k, vcn, target, length);
    SumFromSuffix(f.blocks, k);
    assert f.blocks == f.blocks[..k] + f.blocks[k..];
    SumLengthsAppend(f.blocks[..k], f.blocks[k..]);
  }

  /** A chain that starts in no block gives the empty map of zero clusters. */
  lemma DesiredOutside(f: FileRec, vcn: nat, length: nat, target: nat)
    requires FirstBlockOf(f.blocks, vcn).None?
    ensures Desired(f, vcn, length, target) == f.(blocks := [], fragments := 0, clusters := 0)
  {
  }

  /**
   * calculate_file_disposition: copies the blocks before the one holding
   * `vcn`, disposes that one and the rest, and replaces the result by its
   * list of fragments.
   */
  method CalculateFileDisposition(f: FileRec, vcn: nat, length: nat, target: nat) returns (nf: FileRec)
    ensures nf == Desired(f, vcn, length, target)
  {
    var bs := f.blocks;
    var first := GetFirstBlockOfClusterChain(bs, vcn);
    if first.None? {
      return f.(blocks := [], fragments := 0, clusters := 0);
    }
    var k := first.value;
    var nb: seq<Block> := [];
    var j := 0;
    while j < k
      invariant j <= k && nb == bs[..j]
    {
      nb := nb + [bs[j]];
      j := j + 1;
    }
    var tail := DisposeChain(bs, k, vcn, target, length);
    nb := nb + tail;
    var fr := Fragments.BuildFragmentsList(nb);
    nf := f.(blocks := fr, fragments := |fr|);
  }

  /** The walk of calculate_file_disposition from the block holding `vcn` to the end of the map. */
  method DisposeChain(bs: seq<Block>, k: nat, vcn: nat, target: nat, length: nat) returns (out: seq<Block>)
    requires k < |bs| && bs[k].vcn <= vcn <= End(bs[k])
    ensures out == Dispose(bs, k, vcn, target, length).0
  {
    var left: nat := length;
    var curVcn: nat := vcn;
    var curTarget: nat := target;
    var i := k;
    out := [];
    while true
      invariant k <= i < |bs| && bs[i].vcn <= curVcn <= End(bs[i])
      invariant Dispose(bs, k, vcn, target, length).0 == out + Dispose(bs, i, curVcn, curTarget, left).0
      decreases |bs| - i
    {
      var last;
      out, curTarget, left, last := ChainStep(bs, k, vcn, target, length, out, i, curVcn, curTarget, left);
      if last {
        return;
      }
      curVcn := bs[i + 1].vcn;
      i := i + 1;
    }
  }

  /** The body of DisposeChain's walk for block `i`; `last` when it is the last block of the map. */
  method ChainStep(bs: seq<Block>, ghost k: nat, ghost vcn: nat, ghost target: nat, ghost length: nat, out: seq<Block>,
                   i: nat, curVcn: nat, curTarget: nat, left: nat)
    returns (out': seq<Block>, curTarget': nat, left': nat, last: bool)
    requires k <= i < |bs| && bs[k].vcn <= vcn <= End(bs[k]) && bs[i].vcn <= curVcn <= End(bs[i])
    requires Dispose(bs, k, vcn, target, length).0 == out + Dispose(bs, i, curVcn, curTarget, left).0
    ensures last <==> i == |bs| - 1
    ensures last ==> out' == Dispose(bs, k, vcn, target, length).0
    ensures !last ==>
      Dispose(bs, k, vcn, target, length).0 == out' + Dispose(bs, i + 1, bs[i + 1].vcn, curTarget', left').0
  {
    var added, n := DisposeStep(bs[i], curVcn, curTarget, left);
    out' := out + added;
    last := i == |bs| - 1;
    curTarget', left' := curTarget + n, left - n;
    if !last {
      ChainNext(bs, k, vcn, target, length, out, i, curVcn, curTarget, left);
    }
  }

  /** A step of DisposeChain's walk that is not the last: the blocks of block `i` join `out`. */
  lemma ChainNext(bs: seq<Block>, k: nat, vcn: nat, target: nat, length: nat, out: seq<Block>,
                  i: nat, curVcn: nat, curTarget: nat, left: nat)
    requires k <= i < |bs| - 1 && bs[k].vcn <= vcn <= End(bs[k]) && bs[i].vcn <= curVcn <= End(bs[i])
    requires Dispose(bs, k, vcn, target, length).0 == out + Dispose(bs, i, curVcn, curTarget, left).0
    ensures var step := DisposeBlock(bs[i], curVcn, curTarget, left);
      Dispose(bs, k, vcn, target, length).0 ==
        (out + step.0) + Dispose(bs, i + 1, bs[i + 1].vcn, curTarget + step.1, left - step.1).0
  {
    var step := DisposeBlock(bs[i], curVcn, curTarget, left);
    var rest := Dispose(bs, i + 1, bs[i + 1].vcn, curTarget + step.1, left - step.1).0;
    DisposeUnfold(bs, i, curVcn, curTarget, left);
    assert out + (step.0 + rest) == (out + step.0) + rest;
  }

  /** The body of calculate_file_disposition's walk for one block. */
  method DisposeStep(b: Block, curVcn: nat, curTarget: nat, left: nat) returns (added: seq<Block>, n: nat)
    requires b.vcn <= curVcn <= End(b)
    ensures (added, n) == DisposeBlock(b, curVcn, curTarget, left)
  {
    if left == 0 {
      return [b], 0;
    }
    n := Min(b.length - (curVcn - b.vcn), left);
    if curVcn != b.vcn {
      // the second part of the block moves
      added := [Block(b.vcn, b.lcn, b.length - n), Block(curVcn, curTarget, n)];
    } else if n != b.length {
      // the first part of the block moves
      added := [Block(curVcn, curTarget, n), Block(b.vcn + n, b.lcn + n, b.length - n)];
    } else {
      // the entire block moves
      added := [Block(b.vcn, curTarget, b.length)];
    }
  }

  // ---------------------------------------------------------------------
  // compare_file_dispositions
  // ---------------------------------------------------------------------

  /**
   * compare_file_dispositions: -1 for a missing file; otherwise 0 when
   * the two lists of fragments are equal (both empty included) and 1
   * when they differ.
   */
  method CompareFileDispositions(f1: Option<FileRec>, f2: Option<FileRec>) returns (r: int)
    ensures f1.None? || f2.None? ==> r == -1
    ensures f1.Some? && f2.Some? ==>
      (r == 0 || r == 1) && (r == 0 <==> Fragments.Fragments(f1.value.blocks) == Fragments.Fragments(f2.value.blocks))
  {
    if f1.None? || f2.None? {
      return -1;
    }
    var map1 := Fragments.BuildFragmentsList(f1.value.blocks);
    var map2 := Fragments.BuildFragmentsList(f2.value.blocks);
    if map1 == [] && map2 == [] {
      return 0;
    }
    if |map1| != |map2| {
      return 1;
    }
    var i := 0;
    while true
      invariant 0 <= i < |map1| && map1[..i] == map2[..i]
      decreases |map1| - i
    {
      var b1, b2 := map1[i], map2[i];
      if b1.vcn != b2.vcn || b1.lcn != b2.lcn || b1.length != b2.length {
        assert map1[i] != map2[i];
        return 1;
      }
      if i == |map1| - 1 {
        assert map1 == map1[..i] + [map1[i]] && map2 == map2[..i] + [map2[i]];
        return 0;
      }
      assert map1[..i + 1] == map1[..i] + [map1[i]] && map2[..i + 1] == map2[..i] + [map2[i]];
      i := i + 1;
    }
  }

  // ---------------------------------------------------------------------
  // move_file
  // ---------------------------------------------------------------------

  /** The job parameters move_file reads. */
  datatype MoveEnv = MoveEnv(
    totalClusters: nat,
    bytesPerCluster: nat,
    ntfs: bool,
    dryRun: bool,
    fragmentSizeThreshold: nat,
    algorithmDefinedFst: bool,
    fragmentsThreshold: nat,
    sizeLimit: nat)

  /** `winx_file_disposition`: the part of a file that a move replaces. */
  datatype Disposition = Disposition(blocks: seq<Block>, clusters: nat, fragments: nat, fragmented: bool)

  function DispositionOf(f: FileRec): Disposition
  {
    Disposition(f.blocks, f.clusters, f.fragments, f.fragmented)
  }

  function WithDisposition(f: FileRec, d: Disposition): FileRec
  {
    f.(blocks := d.blocks, clusters := d.clusters, fragments := d.fragments, fragmented := d.fragmented)
  }

  /** `ud_file_moving_result`. */
  datatype Outcome = CalculatedSuccess | DeterminedFailure | DeterminedPartialSuccess | DeterminedSuccess

  /** What move_file returns: its code, the file as it leaves it, and the outcome once something was moved. */
  datatype MoveResult = MoveResult(code: int, file: FileRec, outcome: Option<Outcome>)

  /**
   * The checks move_file makes before it touches the file: Some(code)
   * when it returns at once, None when the request is sound.
   */
  function Validate(f: FileRec, vcn: nat, length: nat, target: nat, totalClusters: nat): (v: Option<int>)
    ensures v.Some? ==> v.value == 0 || v.value == -1
    ensures v.None? ==>
      length > 0 && f.blocks != [] && vcn + length <= End(f.blocks[|f.blocks| - 1]) &&
      FirstBlockOf(f.blocks, vcn).Some? && Analyze.CheckRegion(totalClusters, target, length)
  {
    if length == 0 then Some(0)
    else if f.clusters == 0 || f.fragments == 0 || f.blocks == [] then Some(0)
    else if vcn + length > End(f.blocks[|f.blocks| - 1]) then Some(-1)
    else if FirstBlockOf(f.blocks, vcn).None? then Some(-1)
    else if !Analyze.CheckRegion(totalClusters, target, length) then Some(-1)
    else None
  }

  /** move_file reaches move_file_helper: the request is sound and the file opens. */
  predicate Proceeds(f: FileRec, vcn: nat, length: nat, target: nat, env: MoveEnv, opens: bool)
  {
    Validate(f, vcn, length, target, env.totalClusters).None? && opens
  }

  /**
   * The moving result: without a reported map the move is taken as
   * successful; otherwise the reported fragments are compared with the
   * expected ones, then with the old ones.
   */
  function Classify(reported: Option<Disposition>, desired: FileRec, f: FileRec): Outcome
  {
    match reported
    case None => CalculatedSuccess
    case Some(d) =>
      if Fragments.Fragments(d.blocks) == Fragments.Fragments(desired.blocks) then DeterminedSuccess
      else if Fragments.Fragments(d.blocks) == Fragments.Fragments(f.blocks) then DeterminedFailure
      else DeterminedPartialSuccess
  }

  /** The filters of analyze.c, reapplied to the file's new disposition. */
  predicate Refiltered(info: FileRec, env: MoveEnv)
  {
    (env.fragmentSizeThreshold != DEFAULT_FRAGMENT_SIZE_THRESHOLD && !env.algorithmDefinedFst && info.blocks != [] &&
     Analyze.AllFragmentsLarge(info.blocks, env.bytesPerCluster, env.fragmentSizeThreshold))
    || Analyze.ExcludeByFragments(info.fragments, env.fragmentsThreshold)
    || Analyze.ExcludeBySize(info, env.bytesPerCluster, env.sizeLimit).0
  }

  /** The disposition move_file takes for the file after a move. */
  function NewInfo(f1: FileRec, desired: FileRec, reported: Option<Disposition>): FileRec
  {
    if reported.None? then desired else WithDisposition(f1, reported.value)
  }

  /**
   * The comparisons of move_file: the map taken for the file, and the
   * moving result.
   */
  method DetermineOutcome(f1: FileRec, desired: FileRec, reported: Option<Disposition>)
    returns (info: FileRec, outcome: Outcome)
    ensures info == NewInfo(f1, desired, reported)
    ensures outcome == Classify(reported, desired, f1)
  {
    if reported.None? {
      return desired, CalculatedSuccess;
    }
    info := WithDisposition(f1, reported.value);
    var same := CompareFileDispositions(Some(info), Some(desired));
    if same == 0 {
      return info, DeterminedSuccess;
    }
    var unmoved := CompareFileDispositions(Some(info), Some(f1));
    outcome := if unmoved == 0 then DeterminedFailure else DeterminedPartialSuccess;
  }

  /** The three filters of move_file, reapplied to the new disposition. */
  method Refilter(info: FileRec, env: MoveEnv) returns (excluded: bool)
    ensures excluded == Refiltered(info, env)
  {
    var r1 := Analyze.ExcludeByFragmentSize(info.blocks, env.fragmentSizeThreshold, env.algorithmDefinedFst, env.bytesPerCluster);
    var r2 := Analyze.ExcludeByFragments(info.fragments, env.fragmentsThreshold);
    var r3 := Analyze.ExcludeBySize(info, env.bytesPerCluster, env.sizeLimit).0;
    excluded := r1 || r2 || r3;
  }

  /**
   * The flags of a moved file: UD_FILE_MOVING_FAILED after a partial
   * move, and UD_FILE_EXCLUDED set anew from the filters.
   */
  function NewFlags(flags: set<FileFlag>, outcome: Outcome, excluded: bool): (r: set<FileFlag>)
    ensures MovingFailed in r <==> MovingFailed in flags || outcome == DeterminedPartialSuccess
    ensures Excluded in r <==> excluded
    ensures r - {MovingFailed, Excluded} == flags - {MovingFailed, Excluded}
  {
    var failed := if outcome == DeterminedPartialSuccess then flags + {MovingFailed} else flags;
    if excluded then failed - {Excluded} + {Excluded} else failed - {Excluded}
  }

  /** move_file from the file's opening on; `f1` is the file after get_file_color. */
  function AfterMove(f: FileRec, f1: FileRec, vcn: nat, length: nat, target: nat, env: MoveEnv,
                     dump: Option<Disposition>): MoveResult
  {
    var desired := Desired(f1, vcn, length, target);
    var reported := if env.dryRun then None else dump;
    var info := NewInfo(f1, desired, reported);
    var outcome := Classify(reported, desired, f1);
    if outcome == DeterminedFailure then MoveResult(-1, f1.(flags := f1.flags + {MovingFailed}), Some(outcome))
    else Finished(f1, info, outcome, env)
  }

  /** The file after a move that changed something, with the new disposition `info`. */
  function Finished(f1: FileRec, info: FileRec, outcome: Outcome, env: MoveEnv): MoveResult
  {
    var flags := NewFlags(f1.flags, outcome, Refiltered(info.(flags := info.flags - {Excluded}), env));
    MoveResult(if outcome == DeterminedPartialSuccess then -1 else 0,
               WithDisposition(f1.(flags := flags), DispositionOf(info)), Some(outcome))
  }

  /** move_file as a function of its inputs and of the answers of the file system. */
  function MoveFileSpec(f: FileRec, vcn: nat, length: nat, target: nat, env: MoveEnv,
                        opens: bool, dump: Option<Disposition>): MoveResult
  {
    var v := Validate(f, vcn, length, target, env.totalClusters);
    if v.Some? then MoveResult(v.value, f.(flags := f.flags + {ImproperState}), None)
    else
      var f1 := ClusterMap.GetFileColor(f, env.ntfs).1;
      if !opens then MoveResult(-1, f1.(flags := f1.flags + {Locked}), None)
      else AfterMove(f, f1, vcn, length, target, env, dump)
  }

  /**
   * The old places of the moved clusters, block by block from `curVcn`
   * on, until `left` clusters are covered or the map ends.
   */
  function Freed(bs: seq<Block>, i: nat, curVcn: nat, left: nat): seq<Region>
    requires i < |bs| && bs[i].vcn <= curVcn <= End(bs[i])
    decreases |bs| - i
  {
    var b := bs[i];
    var n := Min(b.length - (curVcn - b.vcn), left);
    var r := Region(b.lcn + (curVcn - b.vcn), n);
    if left - n == 0 || i == |bs| - 1 then [r]
    else [r] + Freed(bs, i + 1, bs[i + 1].vcn, left - n)
  }

  /** The last step of the walk over the old places: block `i`'s piece ends it. */
  lemma WalkLast(bs: seq<Block>, k: nat, vcn: nat, length: nat, done: seq<Region>, i: nat, curVcn: nat, left: nat, n: nat)
    requires k < |bs| && bs[k].vcn <= vcn <= End(bs[k]) && i < |bs| && bs[i].vcn <= curVcn <= End(bs[i])
    requires Freed(bs, k, vcn, length) == done + Freed(bs, i, curVcn, left)
    requires n == Min(bs[i].length - (curVcn - bs[i].vcn), left) && (left - n == 0 || i == |bs| - 1)
    ensures Freed(bs, k, vcn, length) == done + [Region(bs[i].lcn + (curVcn - bs[i].vcn), n)]
  {
    FreedLast(bs, i, curVcn, left, n);
    assert [Region(bs[i].lcn + (curVcn - bs[i].vcn), n)] + [] == [Region(bs[i].lcn + (curVcn - bs[i].vcn), n)];
  }

  /** A step of the walk over the old places that is not the last: block `i + 1` comes next. */
  lemma WalkNext(bs: seq<Block>, k: nat, vcn: nat, length: nat, done: seq<Region>, i: nat, curVcn: nat, left: nat, n: nat)
    requires k < |bs| && bs[k].vcn <= vcn <= End(bs[k]) && i < |bs| && bs[i].vcn <= curVcn <= End(bs[i])
    requires Freed(bs, k, vcn, length) == done + Freed(bs, i, curVcn, left)
    requires n == Min(bs[i].length - (curVcn - bs[i].vcn), left) && left - n != 0 && i < |bs| - 1
    ensures Freed(bs, k, vcn, length) ==
      (done + [Region(bs[i].lcn + (curVcn - bs[i].vcn), n)]) + Freed(bs, i + 1, bs[i + 1].vcn, left - n)
  {
    var r := Region(bs[i].lcn + (curVcn - bs[i].vcn), n);
    var rest := Freed(bs, i + 1, bs[i + 1].vcn, left - n);
    FreedNext(bs, i, curVcn, left, n);
    assert done + ([r] + rest) == (done + [r]) + rest;
  }

  /** winx_add_volume_region applied to each range in turn, the first range first. */
  function AddAll(s: seq<Region>, rs: seq<Region>): seq<Region>
    decreases |rs|
  {
    if rs == [] then s
    else
      var last := rs[|rs| - 1];
      Regions.AddRegion(AddAll(s, rs[..|rs| - 1]), last.lcn, last.length)
  }

  /** Adding one more range after the others. */
  lemma AddAllSnoc(s: seq<Region>, rs: seq<Region>, r: Region)
    ensures AddAll(s, rs + [r]) == Regions.AddRegion(AddAll(s, rs), r.lcn, r.length)
  {
    assert (rs + [r])[..|rs|] == rs;
  }

  /**
   * The free space pool after move_file: the target range is taken
   * out once something was attempted, and after a whole move off NTFS
   * (or in a dry run) the old places of the clusters are given back.
   */
  function FreeAfter(free: seq<Region>, outcome: Option<Outcome>, blocks: seq<Block>, vcn: nat, length: nat,
                     target: nat, env: MoveEnv): seq<Region>
  {
    if outcome.None? then free
    else
      var s := Regions.SubRegion(free, target, length);
      if outcome.value == DeterminedFailure || outcome.value == DeterminedPartialSuccess || (env.ntfs && !env.dryRun) then s
      else match FirstBlockOf(blocks, vcn)
        case None => s
        case Some(k) => AddAll(s, Freed(blocks, k, vcn, length))
  }

  /** The pool after a move that changed something, with the first block of the chain known. */
  lemma FreeAfterRelease(free: seq<Region>, outcome: Outcome, blocks: seq<Block>, k: nat, vcn: nat, length: nat,
                         target: nat, env: MoveEnv)
    requires FirstBlockOf(blocks, vcn) == Some(k)
    ensures var s := Regions.SubRegion(free, target, length);
      FreeAfter(free, Some(outcome), blocks, vcn, length, target, env) ==
        if outcome == DeterminedFailure || outcome == DeterminedPartialSuccess || (env.ntfs && !env.dryRun) then s
        else AddAll(s, Freed(blocks, k, vcn, length))
  {
  }

  /** The fragmentation statistics of a job, `pi.fragmented` and `pi.fragments`. */
  class Statistics {
    var fragmentedFiles: int
    var fragments: int

    constructor ()
      ensures fragmentedFiles == 0 && fragments == 0
    {
      fragmentedFiles := 0;
      fragments := 0;
    }

    /** The statistics update of move_file, for a file before and after a move. */
    method Adjust(wasFragmented: bool, wasExcluded: bool, oldFragments: nat,
                  becameFragmented: bool, isExcluded: bool, newFragments: nat)
      modifies this
      ensures (fragmentedFiles, fragments) ==
        AdjustStatistics(old(fragmentedFiles), old(fragments), wasFragmented, wasExcluded, oldFragments,
                         becameFragmented, isExcluded, newFragments)
    {
      if becameFragmented && !isExcluded {
        if !wasFragmented || wasExcluded {
          fragmentedFiles := fragmentedFiles + 1;
          fragments := fragments + (newFragments - 1);
        } else {
          fragments := fragments - (oldFragments - newFragments);
        }
      }
      if !becameFragmented || isExcluded {
        if wasFragmented && !wasExcluded {
          fragmentedFiles := fragmentedFiles - 1;
          fragments := fragments - (oldFragments - 1);
        }
      }
    }
  }

  /** A file counted in the statistics: fragmented and not excluded. */
  predicate Counted(fragmented: bool, excluded: bool)
  {
    fragmented && !excluded
  }

  /** What a file adds to `pi.fragments`: its fragments beyond the first, if counted. */
  function Contribution(fragmented: bool, excluded: bool, fragments: nat): int
  {
    if Counted(fragmented, excluded) then fragments - 1 else 0
  }

  /**
   * The statistics update of move_file. A file counted before and after
   * changes `pi.fragments` by its change of fragments; one that starts
   * or stops being counted is added or taken away whole.
   */
  function AdjustStatistics(fragmentedFiles: int, fragments: int, wasFragmented: bool, wasExcluded: bool, oldFragments: nat,
                            becameFragmented: bool, isExcluded: bool, newFragments: nat): (r: (int, int))
    ensures r.0 - fragmentedFiles ==
      (if Counted(becameFragmented, isExcluded) then 1 else 0) - (if Counted(wasFragmented, wasExcluded) then 1 else 0)
    ensures r.1 - fragments ==
      Contribution(becameFragmented, isExcluded, newFragments) - Contribution(wasFragmented, wasExcluded, oldFragments)
  {
    var (files1, frags1) :=
      if becameFragmented && !isExcluded then
        if !wasFragmented || wasExcluded then (fragmentedFiles + 1, fragments + (newFragments - 1))
        else (fragmentedFiles, fragments - (oldFragments - newFragments))
      else (fragmentedFiles, fragments);
    if (!becameFragmented || isExcluded) && wasFragmented && !wasExcluded then
      (files1 - 1, frags1 - (oldFragments - 1))
    else (files1, frags1)
  }

  /** The statistics after move_file; they change only when something was moved. */
  function StatisticsAfter(fragmentedFiles: int, fragments: int, f: FileRec, m: MoveResult): (int, int)
  {
    if m.outcome.None? || m.outcome.value == DeterminedFailure then (fragmentedFiles, fragments)
    else AdjustStatistics(fragmentedFiles, fragments, f.fragmented, Excluded in f.flags, f.fragments,
                          m.file.fragmented, Excluded in m.file.flags, m.file.fragments)
  }

  // ---------------------------------------------------------------------
  // Properties of move_file
  // ---------------------------------------------------------------------

  /**
   * The early returns of move_file: 0 for an empty request or an empty
   * file, -1 for a request past the end of the file or a target range
   * outside the volume; each of them sets UD_FILE_IMPROPER_STATE and
   * leaves the map alone.
   */
  lemma MoveFileEarly(f: FileRec, vcn: nat, length: nat, target: nat, env: MoveEnv, opens: bool, dump: Option<Disposition>)
    ensures var m := MoveFileSpec(f, vcn, length, target, env, opens, dump);
      && (length == 0 ==> m == MoveResult(0, f.(flags := f.flags + {ImproperState}), None))
      && (length > 0 && (f.clusters == 0 || f.fragments == 0 || f.blocks == []) ==>
            m == MoveResult(0, f.(flags := f.flags + {ImproperState}), None))
      && (length > 0 && f.clusters > 0 && f.fragments > 0 && f.blocks != [] &&
          (vcn + length > End(f.blocks[|f.blocks| - 1]) || !Analyze.CheckRegion(env.totalClusters, target, length)) ==>
            m == MoveResult(-1, f.(flags := f.flags + {ImproperState}), None))
  {
  }

  /**
   * Once something was attempted, move_file returns -1 exactly for a
   * failed or partial move, and both set UD_FILE_MOVING_FAILED; a
   * whole move never sets it.
   */
  lemma MoveFileOutcome(f: FileRec, vcn: nat, length: nat, target: nat, env: MoveEnv, opens: bool, dump: Option<Disposition>)
    ensures var m := MoveFileSpec(f, vcn, length, target, env, opens, dump);
      && (m.code == 0 || m.code == -1)
      && (m.outcome.Some? <==> Proceeds(f, vcn, length, target, env, opens))
      && (m.outcome.Some? ==>
            (m.code == -1 <==> m.outcome.value == DeterminedFailure || m.outcome.value == DeterminedPartialSuccess))
      && (m.outcome.Some? && m.code == -1 ==> MovingFailed in m.file.flags)
      && (m.outcome.Some? && m.code == 0 ==> (MovingFailed in m.file.flags <==> MovingFailed in f.flags))
  {
    var m := MoveFileSpec(f, vcn, length, target, env, opens, dump);
    if Proceeds(f, vcn, length, target, env, opens) {
      var f1 := ClusterMap.GetFileColor(f, env.ntfs).1;
      ColorKeepsMovingFailed(f, env.ntfs);
      var desired := Desired(f1, vcn, length, target);
      var reported := if env.dryRun then None else dump;
      var info := NewInfo(f1, desired, reported);
      var outcome := Classify(reported, desired, f1);
      assert m == AfterMove(f, f1, vcn, length, target, env, dump);
      if outcome != DeterminedFailure {
        assert m == Finished(f1, info, outcome, env);
        FinishedSpec(f1, info, outcome, env);
      }
    }
  }

  /** get_file_color leaves UD_FILE_MOVING_FAILED as it is. */
  lemma ColorKeepsMovingFailed(f: FileRec, ntfs: bool)
    ensures MovingFailed in ClusterMap.GetFileColor(f, ntfs).1.flags <==> MovingFailed in f.flags
  {
    ClusterMap.FileColorSpec(f, ntfs);
  }

  /** What Finished returns: the code and outcome of the move, and UD_FILE_MOVING_FAILED after a partial move. */
  lemma FinishedSpec(f1: FileRec, info: FileRec, outcome: Outcome, env: MoveEnv)
    ensures var m := Finished(f1, info, outcome, env);
      && m.code == (if outcome == DeterminedPartialSuccess then -1 else 0)
      && m.outcome == Some(outcome)
      && (MovingFailed in m.file.flags <==> MovingFailed in f1.flags || outcome == DeterminedPartialSuccess)
  {
  }

  /**
   * A failed move keeps the old map; any other move takes the new one
   * and sets UD_FILE_EXCLUDED exactly when a filter excludes it.
   */
  lemma MoveFileDisposition(f: FileRec, vcn: nat, length: nat, target: nat, env: MoveEnv, opens: bool, dump: Option<Disposition>)
    requires Proceeds(f, vcn, length, target, env, opens)
    ensures var m := MoveFileSpec(f, vcn, length, target, env, opens, dump);
      var f1 := ClusterMap.GetFileColor(f, env.ntfs).1;
      var info := NewInfo(f1, Desired(f1, vcn, length, target), if env.dryRun then None else dump);
      && (m.outcome == Some(DeterminedFailure) ==> DispositionOf(m.file) == DispositionOf(f))
      && (m.outcome != Some(DeterminedFailure) ==>
            DispositionOf(m.file) == DispositionOf(info) &&
            (Excluded in m.file.flags <==> Refiltered(info.(flags := info.flags - {Excluded}), env)))
  {
    ClusterMap.FileColorSpec(f, env.ntfs);
  }

  /**
   * Without a reported map (a dry run, or a failed redump) the file
   * takes the expected map: the same clusters, in maximal fragments.
   */
  lemma MoveFileCalculated(f: FileRec, vcn: nat, length: nat, target: nat, env: MoveEnv, opens: bool, dump: Option<Disposition>)
    requires Proceeds(f, vcn, length, target, env, opens) && (env.dryRun || dump.None?)
    ensures var m := MoveFileSpec(f, vcn, length, target, env, opens, dump);
      && m.outcome == Some(CalculatedSuccess)
      && m.file.clusters == f.clusters
      && SumLengths(m.file.blocks) == SumLengths(f.blocks)
      && m.file.fragments == |m.file.blocks|
  {
    var f1 := ClusterMap.GetFileColor(f, env.ntfs).1;
    ClusterMap.FileColorSpec(f, env.ntfs);
    DesiredKeepsClusters(f1, vcn, length, target);
  }

  /**
   * Where the old places are not given back (on NTFS outside a dry run,
   * or after a failed or partial move) the target range is no longer free,
   * and the pool stays a valid region list.
   */
  lemma MoveFileTakesTarget(free: seq<Region>, f: FileRec, vcn: nat, length: nat, target: nat, env: MoveEnv,
                            opens: bool, dump: Option<Disposition>)
    requires Regions.Valid(free)
    requires var m := MoveFileSpec(f, vcn, length, target, env, opens, dump);
      m.outcome.Some? &&
      (m.outcome.value == DeterminedFailure || m.outcome.value == DeterminedPartialSuccess || (env.ntfs && !env.dryRun))
    ensures var s := FreeAfter(free, MoveFileSpec(f, vcn, length, target, env, opens, dump).outcome, f.blocks, vcn, length, target, env);
      && Regions.Valid(s)
      && forall c :: target <= c < target + length ==> !Regions.Covers(s, c)
  {
    Regions.SubRegionSpec(free, target, length);
  }

  /** Ranges and pieces that correspond one to one, of the same lengths. */
  predicate SameLengths(rs: seq<Region>, ps: seq<Block>)
  {
    |rs| == |ps| && forall j :: 0 <= j < |rs| ==> rs[j].length == ps[j].length
  }

  lemma SameLengthsCons(r: Region, rs: seq<Region>, p: Block, ps: seq<Block>)
    requires r.length == p.length && SameLengths(rs, ps)
    ensures SameLengths([r] + rs, [p] + ps)
  {
    forall j | 0 <= j < |rs| + 1
      ensures ([r] + rs)[j].length == ([p] + ps)[j].length
    {
      if j > 0 {
        assert ([r] + rs)[j] == rs[j - 1] && ([p] + ps)[j] == ps[j - 1];
      }
    }
  }

  /**
   * The ranges given back are the old places of the pieces the expected
   * map puts at the target: as many, and of the same lengths.
   */
  lemma {:induction false} FreedMatchesPlaced(bs: seq<Block>, i: nat, curVcn: nat, curTarget: nat, left: nat)
    requires i < |bs| && bs[i].vcn <= curVcn <= End(bs[i]) && left > 0
    ensures SameLengths(Freed(bs, i, curVcn, left), Dispose(bs, i, curVcn, curTarget, left).1)
    decreases |bs| - i
  {
    var n := DisposeBlock(bs[i], curVcn, curTarget, left).1;
    var r := Region(bs[i].lcn + (curVcn - bs[i].vcn), n);
    var pb := Block(curVcn, curTarget, n);
    if i < |bs| - 1 && left - n != 0 {
      var rest := Freed(bs, i + 1, bs[i + 1].vcn, left - n);
      var p2 := Dispose(bs, i + 1, bs[i + 1].vcn, curTarget + n, left - n).1;
      FreedMatchesPlaced(bs, i + 1, bs[i + 1].vcn, curTarget + n, left - n);
      FreedNext(bs, i, curVcn, left, n);
      PlacedNext(bs, i, curVcn, curTarget, left, n);
      SameLengthsCons(r, rest, pb, p2);
    } else {
      FreedLast(bs, i, curVcn, left, n);
      PlacedLast(bs, i, curVcn, curTarget, left, n);
      SameLengthsCons(r, [], pb, []);
    }
  }

  lemma FreedNext(bs: seq<Block>, i: nat, curVcn: nat, left: nat, n: nat)
    requires i < |bs| && bs[i].vcn <= curVcn <= End(bs[i])
    requires n == Min(bs[i].length - (curVcn - bs[i].vcn), left) && left - n != 0 && i < |bs| - 1
    ensures Freed(bs, i, curVcn, left) == [Region(bs[i].lcn + (curVcn - bs[i].vcn), n)] + Freed(bs, i + 1, bs[i + 1].vcn, left - n)
  {
  }

  lemma FreedLast(bs: seq<Block>, i: nat, curVcn: nat, left: nat, n: nat)
    requires i < |bs| && bs[i].vcn <= curVcn <= End(bs[i])
    requires n == Min(bs[i].length - (curVcn - bs[i].vcn), left) && (left - n == 0 || i == |bs| - 1)
    ensures Freed(bs, i, curVcn, left) == [Region(bs[i].lcn + (curVcn - bs[i].vcn), n)] + []
  {
  }

  lemma PlacedNext(bs: seq<Block>, i: nat, curVcn: nat, curTarget: nat, left: nat, n: nat)
    requires i < |bs| && bs[i].vcn <= curVcn <= End(bs[i]) && left > 0
    requires n == DisposeBlock(bs[i], curVcn, curTarget, left).1 && left - n != 0 && i < |bs| - 1
    ensures Dispose(bs, i, curVcn, curTarget, left).1 ==
      [Block(curVcn, curTarget, n)] + Dispose(bs, i + 1, bs[i + 1].vcn, curTarget + n, left - n).1
  {
  }

  lemma PlacedLast(bs: seq<Block>, i: nat, curVcn: nat, curTarget: nat, left: nat, n: nat)
    requires i < |bs| && bs[i].vcn <= curVcn <= End(bs[i]) && left > 0
    requires n == DisposeBlock(bs[i], curVcn, curTarget, left).1 && (left - n == 0 || i == |bs| - 1)
    ensures Dispose(bs, i, curVcn, curTarget, left).1 == [Block(curVcn, curTarget, n)] + []
  {
    if i < |bs| - 1 {
      DisposeNothingLeft(bs, i + 1, bs[i + 1].vcn, curTarget + n);
    }
  }
}
