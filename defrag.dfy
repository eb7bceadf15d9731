/**
 * Defragmentation of src/dll/udefrag/defrag.c: which files may be
 * defragmented, the pass loop of `defragment` with its closing partial
 * pass, and the length fine_defrag_routine cuts from a neighbouring
 * fragment. The list of fragments itself is in the Fragments module.
 */
module Defrag {
  import opened Types
  import Move
  import ClusterMap

  // ---------------------------------------------------------------------
  // can_defragment
  // ---------------------------------------------------------------------

  /**
   * can_defragment: a movable file of more than one block and at least
   * two fragments, fragmented, not the MFT, not a FAT directory, and in
   * an MFT optimization job marked by the file optimizer.
   */
  function CanDefragment(f: FileRec, ntfs: bool, isFat: bool, jobType: JobType): (r: (bool, FileRec))
    ensures r.0 <==>
      && Move.CanMove(f).0
      && |f.blocks| > 1 && f.fragments >= 2 && f.fragmented
      && !ClusterMap.IsMft(f, ntfs).0
      && !(isFat && f.directory)
      && (jobType == MftOptimization ==> FragmentedByFileOpt in f.flags)
    ensures !Move.CanMove(f).0 ==> r.1 == Move.CanMove(f).1
  {
    var (movable, g) := Move.CanMove(f);
    if !movable then (false, g)
    else if |g.blocks| == 1 || g.fragments < 2 || !g.fragmented then (false, g)
    else
      var (mft, h) := ClusterMap.IsMft(g, ntfs);
      if mft then (false, h)
      else if isFat && h.directory then (false, h)
      else if jobType == MftOptimization && FragmentedByFileOpt !in h.flags then (false, h)
      else (true, h)
  }

  /** Asking can_defragment changes nothing but the cache flags of is_mft and the flag can_move may set. */
  lemma CanDefragmentFlags(f: FileRec, ntfs: bool, isFat: bool, jobType: JobType)
    ensures CanDefragment(f, ntfs, isFat, jobType).1.flags - f.flags <= {ImproperState, MftFile, NotMftFile}
    ensures CanDefragment(f, ntfs, isFat, jobType).1 == f.(flags := CanDefragment(f, ntfs, isFat, jobType).1.flags)
  {
  }

  /** A file that can be defragmented can also be moved entirely. */
  lemma DefragmentableIsMovable(f: FileRec, ntfs: bool, isFat: bool, jobType: JobType)
    ensures CanDefragment(f, ntfs, isFat, jobType).0 ==> Move.CanMoveEntirely(f, ntfs, isFat).0
  {
  }

  // ---------------------------------------------------------------------
  // The pass loop of defragment
  // ---------------------------------------------------------------------

  /**
   * What one pass of a defragmentation routine reports: its result,
   * `pi.moved_clusters`, and the clusters its calls of move_file add to
   * `pi.processed_clusters`.
   */
  datatype PassResult = PassResult(code: int, moved: nat, processed: nat)

  /** The loop stops after a pass that failed or moved nothing. */
  predicate Stops(p: PassResult)
  {
    p.code < 0 || p.moved == 0
  }

  /** The clusters passes `i` to `j - 1` add to `pi.processed_clusters`. */
  function SumProcessed(pass: nat -> PassResult, i: nat, j: nat): nat
    requires i <= j
    decreases j - i
  {
    if i == j then 0 else pass(i).processed + SumProcessed(pass, i + 1, j)
  }

  /**
   * The passes from pass `i` on: whether one of them returned 0, the
   * pass number the loop ends with, and the clusters the passes that ran
   * processed. `terminated(i)` is the answer of the termination router
   * before pass `i`; `pass(i)` what pass `i` reports.
   */
  function RunPasses(pass: nat -> PassResult, terminated: nat -> bool, i: nat, bound: nat): (r: (bool, nat, nat))
    requires i <= bound && Stops(pass(bound))
    ensures i <= r.1 <= bound
    decreases bound - i
  {
    if terminated(i) then (false, i, 0)
    else if Stops(pass(i)) then (pass(i).code == 0, i, pass(i).processed)
    else
      var rest := RunPasses(pass, terminated, i + 1, bound);
      (pass(i).code == 0 || rest.0, rest.1, pass(i).processed + rest.2)
  }

  /** Pass `j` is run: the router let it start. */
  predicate Ran(terminated: nat -> bool, j: nat)
  {
    !terminated(j)
  }

  /**
   * The loop runs each pass while the router allows it and the pass
   * before moved something; it ends at the first pass that fails or
   * moves nothing, or at termination. It reports success exactly when
   * some pass it ran returned 0, and the processed clusters are those
   * of the passes it ran.
   */
  lemma {:induction false} RunPassesSpec(pass: nat -> PassResult, terminated: nat -> bool, i: nat, bound: nat)
    requires i <= bound && Stops(pass(bound))
    ensures var (ok, last, processed) := RunPasses(pass, terminated, i, bound);
      && (forall j :: i <= j < last ==> Ran(terminated, j) && !Stops(pass(j)))
      && (terminated(last) || Stops(pass(last)))
      && (ok <==> exists j :: i <= j <= last && Ran(terminated, j) && pass(j).code == 0)
      && processed == SumProcessed(pass, i, last) + (if terminated(last) then 0 else pass(last).processed)
    decreases bound - i
  {
    if !terminated(i) && !Stops(pass(i)) {
      RunPassesSpec(pass, terminated, i + 1, bound);
      var (ok, last, processed) := RunPasses(pass, terminated, i + 1, bound);
      if pass(i).code == 0 {
        assert Ran(terminated, i);
      }
      if ok {
        var j :| i + 1 <= j <= last && Ran(terminated, j) && pass(j).code == 0;
        assert i <= j <= last;
      }
    }
  }

  /**
   * The pass loop of defragment: passes run from 0 while the router
   * allows and each moves something; `overall` is 0 once a pass
   * returned 0, `last` is the pass number the loop ends with, and
   * `processed` what the passes added to `pi.processed_clusters`.
   */
  method RunLoop(pass: nat -> PassResult, terminated: nat -> bool, ghost bound: nat)
    returns (overall: int, last: nat, processed: nat)
    requires Stops(pass(bound))
    ensures (overall == 0) == RunPasses(pass, terminated, 0, bound).0 && (overall == 0 || overall == -1)
    ensures last == RunPasses(pass, terminated, 0, bound).1
    ensures processed == RunPasses(pass, terminated, 0, bound).2
  {
    overall := -1;
    last := 0;
    processed := 0;
    while !terminated(last)
      invariant last <= bound
      invariant overall == 0 || overall == -1
      invariant RunPasses(pass, terminated, 0, bound) ==
        var rest := RunPasses(pass, terminated, last, bound);
        (overall == 0 || rest.0, rest.1, processed + rest.2)
      decreases bound - last
    {
      var r := pass(last);
      processed := processed + r.processed;
      if r.code == 0 {
        overall := 0;
      }
      if r.code < 0 || r.moved == 0 {
        break;
      }
      last := last + 1;
    }
  }

  /** The parts of the job that defragment reads and updates. */
  class DefragJob {
    /** `udo.fragment_size_threshold` and `udo.algorithm_defined_fst`. */
    var fragmentSizeThreshold: nat
    var algorithmDefinedFst: bool
    /** `pi.pass_number`, `pi.processed_clusters` and `pi.clusters_to_process`. */
    var passNumber: nat
    var processedClusters: nat
    var clustersToProcess: nat

    constructor (fst: nat)
      ensures fragmentSizeThreshold == fst && !algorithmDefinedFst
      ensures passNumber == 0 && processedClusters == 0 && clustersToProcess == 0
    {
      fragmentSizeThreshold := fst;
      algorithmDefinedFst := false;
      passNumber := 0;
      processedClusters := 0;
      clustersToProcess := 0;
    }

    /**
     * defragment. The rough routines serve the weak API and a missing
     * fragment size threshold, the fine ones the rest; `pass(fine, n)`
     * is what pass `n` of the chosen routine reports, `count(fine)` what
     * its counting routine returns. After the loop a volume without a
     * threshold gets one partial pass, whose result and processed
     * clusters `partial(threshold, byAlgorithm)` reports, with the
     * threshold set for it and reset afterwards. `pi.processed_clusters`
     * starts at 0 and gathers what the passes that ran processed.
     * The analysis runs first in a defragmentation job and its failure
     * is returned as is. The router is asked before each pass and once
     * at the end; termination makes the result 0.
     */
    method Defragment(jobType: JobType, weakApi: bool, analyzeResult: int,
                      count: bool -> nat, pass: (bool, nat) -> PassResult, partial: (nat, bool) -> (int, nat),
                      terminated: nat -> bool, ghost bound: nat)
      returns (result: int)
      requires Stops(pass(!(weakApi || fragmentSizeThreshold == 0), bound))
      modifies this
      ensures jobType == Defragmentation && analyzeResult < 0 ==> result == analyzeResult && unchanged(this)
      ensures !(jobType == Defragmentation && analyzeResult < 0) ==>
        var fine := !(weakApi || old(fragmentSizeThreshold) == 0);
        var (ok, last, processed) := RunPasses((n: nat) => pass(fine, n), terminated, 0, bound);
        var partialRuns := !weakApi && old(fragmentSizeThreshold) == 0;
        var partialOk := partialRuns && partial(PART_DEFRAG_MAGIC_CONSTANT, true).0 == 0;
        && result == (if terminated(last + 1) || ok || partialOk then 0 else -1)
        && passNumber == last
        && processedClusters == processed + (if partialRuns then partial(PART_DEFRAG_MAGIC_CONSTANT, true).1 else 0)
        && clustersToProcess == count(fine)
        && fragmentSizeThreshold == old(fragmentSizeThreshold)
        && algorithmDefinedFst == (if !weakApi && old(fragmentSizeThreshold) == 0 then false else old(algorithmDefinedFst))
    {
      if jobType == Defragmentation && analyzeResult < 0 {
        return analyzeResult;
      }
      var fine := !(weakApi || fragmentSizeThreshold == 0);
      var p := (n: nat) => pass(fine, n);
      processedClusters := 0;
      clustersToProcess := count(fine);
      var overall, last, processed := RunLoop(p, terminated, bound);
      passNumber := last;
      processedClusters := processedClusters + processed;
      if !weakApi && fragmentSizeThreshold == 0 {
        fragmentSizeThreshold := PART_DEFRAG_MAGIC_CONSTANT;
        algorithmDefinedFst := true;
        var (code, added) := partial(fragmentSizeThreshold, algorithmDefinedFst);
        processedClusters := processedClusters + added;
        if code == 0 {
          overall := 0;
        }
        fragmentSizeThreshold := 0;
        algorithmDefinedFst := false;
      }
      result := if terminated(passNumber + 1) then 0 else overall;
    }
  }

  // ---------------------------------------------------------------------
  // cut_length in fine_defrag_routine
  // ---------------------------------------------------------------------

  /**
   * cut_length: the clusters a run of `length` small clusters must take
   * from its neighbour to reach the fragment size threshold, computed
   * when the run is still below it.
   */
  function CutLength(fst: nat, bytesPerCluster: nat, length: nat): (cut: nat)
    requires bytesPerCluster > 0 && length * bytesPerCluster < fst
    ensures (length + cut) * bytesPerCluster >= fst
    ensures cut > 0 && (length + cut - 1) * bytesPerCluster < fst
  {
    var c := ClusterMap.CeilDiv(fst, bytesPerCluster);
    CeilAbove(fst, bytesPerCluster, length);
    c - length
  }

  /** A run below the threshold is shorter than the threshold rounded up to clusters. */
  lemma CeilAbove(fst: nat, bytesPerCluster: nat, length: nat)
    requires bytesPerCluster > 0 && length * bytesPerCluster < fst
    ensures ClusterMap.CeilDiv(fst, bytesPerCluster) > length
  {
    var c := ClusterMap.CeilDiv(fst, bytesPerCluster);
    if c <= length {
      ClusterMap.MulMono(c, length, bytesPerCluster);
    }
  }
}
