/**
 * The job driver of src/dll/udefrag/udefrag.c: the colour each cell of
 * the progress map shows in deliver_progress_info, the completion status
 * start_job leaves, the result udefrag_start_job derives from it, the
 * overflow test of the time limit, and udefrag_get_error_description.
 */
module Udefrag {
  import opened Types
  import ClusterMap

  // ---------------------------------------------------------------------
  // The cell colours of deliver_progress_info
  // ---------------------------------------------------------------------

  /**
   * The clusters a cell holds: one in the opposite order, the clusters
   * of the last used cell for that one, `clusters_per_cell` otherwise.
   */
  function Capacity(g: ClusterMap.Geometry, i: nat): nat
  {
    if g.opposite then 1
    else if i == g.mapSize - g.unusedCells - 1 then g.clustersPerLastCell
    else g.clustersPerCell
  }

  /** Colour `k` may win the cell: free space and the MFT zone are passed over in a full MFT zone. */
  predicate Eligible(k: nat, mftZone: bool)
  {
    (k != MFT_ZONE_SPACE && k != FREE_SPACE) || !mftZone
  }

  /**
   * The loop over the colours from `k` on with the best count `maximum`
   * so far at `index`: a colour at least as frequent takes over, so ties
   * go to the higher colour. The result is the greatest count among the
   * eligible colours from `k` on and `maximum`, at the last colour that
   * has it, or `index` when none of them reaches `maximum`.
   */
  function Choose(counts: seq<nat>, k: nat, mftZone: bool, maximum: nat, index: nat): (r: (nat, nat))
    requires k <= |counts|
    ensures r.0 >= maximum
    ensures (r.1 == index && r.0 == maximum) || (k <= r.1 < |counts| && Eligible(r.1, mftZone) && r.0 == counts[r.1])
    ensures forall j :: k <= j < |counts| && Eligible(j, mftZone) ==> counts[j] <= r.0
    ensures forall j :: k <= j < |counts| && j > r.1 && Eligible(j, mftZone) ==> counts[j] < r.0
    ensures r.1 == index || r.1 >= k
    decreases |counts| - k
  {
    if k == |counts| then (maximum, index)
    else if counts[k] >= maximum && Eligible(k, mftZone) then Choose(counts, k + 1, mftZone, counts[k], k)
    else Choose(counts, k + 1, mftZone, maximum, index)
  }

  /** The cell is mostly MFT zone: its MFT zone count reaches its capacity. */
  predicate MftZone(counts: seq<nat>, capacity: nat)
    requires |counts| == NUM_OF_SPACE_STATES
  {
    counts[MFT_ZONE_SPACE] >= capacity
  }

  /**
   * The colour of a cell with `counts` per colour: MFT_ZONE_SPACE when
   * both MFT zone and free space fill it, else the most frequent
   * eligible colour, DEFAULT_COLOR when all of them are zero.
   */
  function CellColor(counts: seq<nat>, capacity: nat): nat
    requires |counts| == NUM_OF_SPACE_STATES
  {
    var mftZone := MftZone(counts, capacity);
    if mftZone && counts[FREE_SPACE] >= capacity then MFT_ZONE_SPACE
    else
      var r := Choose(counts, 1, mftZone, counts[0], 0);
      if r.0 == 0 then DEFAULT_COLOR else r.1
  }

  /**
   * What a cell shows: the MFT zone when MFT zone and free space both
   * fill it; otherwise, when some eligible colour has a count, the
   * eligible colour of greatest count (the highest such colour on a
   * tie), and DEFAULT_COLOR when every eligible count is zero.
   */
  lemma CellColorSpec(counts: seq<nat>, capacity: nat)
    requires |counts| == NUM_OF_SPACE_STATES
    ensures var c := CellColor(counts, capacity);
      var mftZone := MftZone(counts, capacity);
      var full := mftZone && counts[FREE_SPACE] >= capacity;
      && (full ==> c == MFT_ZONE_SPACE)
      && (!full && (forall j :: 0 <= j < |counts| && Eligible(j, mftZone) ==> counts[j] == 0) ==> c == DEFAULT_COLOR)
      && (!full && (exists j :: 0 <= j < |counts| && Eligible(j, mftZone) && counts[j] > 0) ==>
            && c < |counts| && Eligible(c, mftZone) && counts[c] > 0
            && (forall j :: 0 <= j < |counts| && Eligible(j, mftZone) ==> counts[j] <= counts[c])
            && (forall j :: c < j < |counts| && Eligible(j, mftZone) ==> counts[j] < counts[c]))
  {
    var mftZone := MftZone(counts, capacity);
    var r := Choose(counts, 1, mftZone, counts[0], 0);
    assert Eligible(0, mftZone);
    if exists j :: 0 <= j < |counts| && Eligible(j, mftZone) && counts[j] > 0 {
      var j :| 0 <= j < |counts| && Eligible(j, mftZone) && counts[j] > 0;
      assert counts[j] <= r.0;
    }
  }

  /** The counts of cell `i`, colour by colour. */
  function Row(cells: array2<nat>, i: nat): (r: seq<nat>)
    requires i < cells.Length0
    reads cells
    ensures |r| == cells.Length1 && forall k :: 0 <= k < cells.Length1 ==> r[k] == cells[i, k]
  {
    seq(cells.Length1, k requires 0 <= k < cells.Length1 reads cells => cells[i, k])
  }

  /** The inner loop of deliver_progress_info over the colours of cell `i`. */
  method PickColor(cells: array2<nat>, i: nat, mftZone: bool) returns (maximum: nat, index: nat)
    requires i < cells.Length0 && cells.Length1 > 0
    ensures (maximum, index) == Choose(Row(cells, i), 1, mftZone, cells[i, 0], 0)
  {
    ghost var counts := Row(cells, i);
    maximum := cells[i, 0];
    index := 0;
    for k := 1 to cells.Length1
      invariant Choose(counts, 1, mftZone, cells[i, 0], 0) == Choose(counts, k, mftZone, maximum, index)
    {
      var n := cells[i, k];
      if n >= maximum {
        if (k != MFT_ZONE_SPACE && k != FREE_SPACE) || !mftZone {
          maximum := n;
          index := k;
        }
      }
    }
  }

  /**
   * The refill of the progress map in deliver_progress_info: when the
   * map is allocated and `out` has as many cells, each cell gets the
   * colour of its counts; otherwise `out` is left as it was.
   */
  method RefillMap(m: ClusterMap.Map, out: array<nat>)
    requires m.Valid()
    modifies out
    ensures m.isAllocated && out.Length == m.geo.mapSize ==>
      forall i :: 0 <= i < out.Length ==> out[i] == CellColor(Row(m.cells, i), Capacity(m.geo, i))
    ensures !(m.isAllocated && out.Length == m.geo.mapSize) ==> unchanged(out)
  {
    if !m.isAllocated || out.Length != m.geo.mapSize {
      return;
    }
    var cells := m.cells;
    for i := 0 to out.Length
      invariant forall a :: 0 <= a < i ==> out[a] == CellColor(Row(cells, a), Capacity(m.geo, a))
    {
      var maximum := Capacity(m.geo, i);
      var mftZone := cells[i, MFT_ZONE_SPACE] >= maximum;
      var freeCell := cells[i, FREE_SPACE] >= maximum;
      ghost var counts := Row(cells, i);
      assert mftZone == MftZone(counts, maximum);
      if mftZone && freeCell {
        out[i] := MFT_ZONE_SPACE;
      } else {
        var index;
        maximum, index := PickColor(cells, i, mftZone);
        out[i] := if maximum == 0 then DEFAULT_COLOR else index;
      }
    }
  }

  // ---------------------------------------------------------------------
  // start_job and udefrag_start_job
  // ---------------------------------------------------------------------

  /** The routine start_job runs for each job type, given what each of them returns. */
  function JobResult(jobType: JobType, analyze: int, defragment: int, optimize: int, optimizeMft: int): int
  {
    match jobType
    case Analysis => analyze
    case Defragmentation => defragment
    case FullOptimization => optimize
    case QuickOptimization => optimize
    case MftOptimization => optimizeMft
  }

  /** The completion status start_job leaves: never 0, since success becomes 1. */
  function CompletionStatus(result: int): (s: int)
    ensures s != 0
    ensures result != 0 ==> s == result
  {
    if result == 0 then 1 else result
  }

  /** What udefrag_start_job returns for the completion status it finds after the job. */
  function StartJobResult(status: int): int
  {
    if status > 0 then 0 else if status < 0 then status else -1
  }

  /**
   * A job that ran returns 0 for a result of 0 or more and its own
   * negative result otherwise; a job that never ran leaves the status 0
   * and returns -1.
   */
  lemma StartJobOutcome(result: int)
    ensures StartJobResult(CompletionStatus(result)) == if result < 0 then result else 0
    ensures StartJobResult(0) == -1
  {
  }

  /** The completion status of a job, as start_job writes it and udefrag_start_job reads it. */
  class JobStatus {
    var completionStatus: int

    constructor ()
      ensures completionStatus == 0
    {
      completionStatus := 0;
    }

    /** start_job: runs the routine of the job type and stores its result as the completion status. */
    method StartJob(jobType: JobType, analyze: int, defragment: int, optimize: int, optimizeMft: int)
      modifies this
      ensures completionStatus == CompletionStatus(JobResult(jobType, analyze, defragment, optimize, optimizeMft))
      ensures completionStatus != 0
    {
      var result := JobResult(jobType, analyze, defragment, optimize, optimizeMft);
      completionStatus := result;
      if completionStatus == 0 {
        completionStatus := completionStatus + 1;
      }
    }

    /** The end of udefrag_start_job: 0 on success, the error itself, or -1 for a job that never completed. */
    method Result() returns (result: int)
      ensures result == StartJobResult(completionStatus)
      ensures completionStatus != 0 ==> result == 0 || result == completionStatus
    {
      result := -1;
      if completionStatus > 0 {
        result := 0;
      } else if completionStatus < 0 {
        result := completionStatus;
      }
    }
  }

  // ---------------------------------------------------------------------
  // The time limit of udefrag_start_job
  // ---------------------------------------------------------------------

  /** The modulus of a ULONGLONG. */
  const ULONGLONG_MOD: nat := 0x1_0000_0000_0000_0000

  /**
   * The time limit is used when it is set and its value in
   * milliseconds, computed as a ULONGLONG, divides back to it.
   */
  function UsesTimeLimit(timeLimit: nat): bool
    requires timeLimit < ULONGLONG_MOD
  {
    timeLimit != 0 && ((timeLimit * 1000) % ULONGLONG_MOD) / 1000 == timeLimit
  }

  /** The test holds exactly when the limit is set and the product does not wrap. */
  lemma UsesTimeLimitNoOverflow(timeLimit: nat)
    requires timeLimit < ULONGLONG_MOD
    ensures UsesTimeLimit(timeLimit) <==> timeLimit != 0 && timeLimit * 1000 < ULONGLONG_MOD
  {
    var p := timeLimit * 1000;
    if p < ULONGLONG_MOD {
      assert p % ULONGLONG_MOD == p;
      assert p / 1000 == timeLimit;
    } else {
      var w := p % ULONGLONG_MOD;
      assert w < ULONGLONG_MOD;
      assert w / 1000 <= 18_446_744_073_709_551;
      assert timeLimit >= 18_446_744_073_709_552;
    }
  }

  // ---------------------------------------------------------------------
  // udefrag_get_error_description
  // ---------------------------------------------------------------------

  /** The texts udefrag_get_error_description returns, one line of the source to each line here. */
  const UNKNOWN_ERROR_TEXT: string :=
    "Some unknown internal bug or some\n" +
    "rarely arising error has been encountered."
  const NO_MEM_TEXT: string := "Not enough memory."
  const CDROM_TEXT: string := "It is impossible to defragment CDROM drives."
  const REMOTE_TEXT: string := "It is impossible to defragment remote disks."
  const ASSIGNED_BY_SUBST_TEXT: string :=
    "It is impossible to defragment disks\n" +
    "assigned by the 'subst' command."
  const REMOVABLE_TEXT: string :=
    "You are trying to defragment a removable disk.\n" +
    "If the disk type was wrongly identified, send\n" +
    "a bug report to the author, thanks."
  const UDF_DEFRAG_TEXT: string :=
    "UDF disks can neither be defragmented nor optimized,\n" +
    "because the file system driver does not support FSCTL_MOVE_FILE."
  const DIRTY_VOLUME_TEXT: string := "Disk is dirty, run CHKDSK to repair it."

  /** The text for each error code that has one, "" for any other code. */
  function ErrorDescription(code: int): string
  {
    if code == UNKNOWN_ERROR then UNKNOWN_ERROR_TEXT
    else if code == NO_MEM then NO_MEM_TEXT
    else if code == CDROM then CDROM_TEXT
    else if code == REMOTE then REMOTE_TEXT
    else if code == ASSIGNED_BY_SUBST then ASSIGNED_BY_SUBST_TEXT
    else if code == REMOVABLE then REMOVABLE_TEXT
    else if code == UDF_DEFRAG then UDF_DEFRAG_TEXT
    else if code == DIRTY_VOLUME then DIRTY_VOLUME_TEXT
    else ""
  }

  /**
   * A description exists exactly for the codes the switch lists; the
   * code for 4 KB clusters on Windows 2000 has none.
   */
  lemma ErrorDescriptionKnown(code: int)
    ensures |ErrorDescription(code)| > 0 <==>
      code == UNKNOWN_ERROR || code == NO_MEM || code == CDROM || code == REMOTE ||
      code == ASSIGNED_BY_SUBST || code == REMOVABLE || code == UDF_DEFRAG || code == DIRTY_VOLUME
    ensures |ErrorDescription(W2K_4KB_CLUSTERS)| == 0
  {
  }


}
