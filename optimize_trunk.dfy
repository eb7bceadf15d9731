/**
 * The volume optimizer of trunk/src/dll/udefrag/optimize.c: the free
 * region size threshold, the starting point of the optimization and its
 * advance to the next large gap, the cluster count of opt_cc_routine,
 * the size exclusion and the tree walk of optimize_routine, and the defaults
 * and results of optimize and optimize_mft.
 *
 * The free space regions are `jp->free_regions` in list order, as in
 * the Regions module. The counts of fragmented, free and movable
 * clusters between two LCNs, which the C code gets by walking the file
 * and region lists, are parameters here.
 */
module OptimizeTrunk {
  import opened Types
  import Move
  import ClusterMap

  /** The NT version numbers of `winx_get_os_version` (major * 10 + minor). */
  const WINDOWS_2K: nat := 50
  const WINDOWS_XP: nat := 51

  // ---------------------------------------------------------------------
  // calculate_free_rgn_size_threshold
  // ---------------------------------------------------------------------

  /** The length of the largest region, 0 for an empty list. */
  function Largest(rs: seq<Region>): (m: nat)
    ensures forall j :: 0 <= j < |rs| ==> rs[j].length <= m
    ensures rs == [] ==> m == 0
    ensures rs != [] ==> exists j :: 0 <= j < |rs| && rs[j].length == m
  {
    if rs == [] then 0
    else
      var m := Largest(rs[..|rs| - 1]);
      assert forall j :: 0 <= j < |rs| - 1 ==> rs[..|rs| - 1][j] == rs[j];
      if rs[|rs| - 1].length > m then rs[|rs| - 1].length else m
  }

  /**
   * The threshold for a volume with `freeBytes` of `totalBytes` free:
   * with at least a tenth free, the smaller of 0.5% of the volume and
   * half the largest region; otherwise 0.5% of the volume; never below 2.
   */
  function RgnSizeThreshold(freeBytes: nat, totalBytes: nat, totalClusters: nat, largest: nat): (t: nat)
    ensures t >= 2
    ensures freeBytes >= totalBytes / 10 ==> t == Max(2, Min(totalClusters / 200, largest / 2))
    ensures freeBytes < totalBytes / 10 ==> t == Max(2, totalClusters / 200)
  {
    var t := if freeBytes >= totalBytes / 10 then Min(totalClusters / 200, largest / 2) else totalClusters / 200;
    if t < 2 then 2 else t
  }

  // ---------------------------------------------------------------------
  // Searching the region list
  // ---------------------------------------------------------------------

  /**
   * A region the optimizer may start at: at least `threshold` long and
   * at (`strict` false) or after (`strict` true) the point `sp`.
   */
  predicate Gap(r: Region, sp: nat, threshold: nat, strict: bool)
  {
    (if strict then r.lcn > sp else r.lcn >= sp) && r.length >= threshold
  }

  /** The position of the first gap from position `i` on, `|rs|` when there is none. */
  function FirstGap(rs: seq<Region>, i: nat, sp: nat, threshold: nat, strict: bool): (k: nat)
    requires i <= |rs|
    ensures i <= k <= |rs|
    ensures k < |rs| ==> Gap(rs[k], sp, threshold, strict)
    ensures forall j :: i <= j < k ==> !Gap(rs[j], sp, threshold, strict)
    decreases |rs| - i
  {
    if i == |rs| || Gap(rs[i], sp, threshold, strict) then i
    else FirstGap(rs, i + 1, sp, threshold, strict)
  }

  /** The walk of the region list that stops at the first gap. */
  method FindGap(rs: seq<Region>, sp: nat, threshold: nat, strict: bool) returns (k: nat)
    ensures k == FirstGap(rs, 0, sp, threshold, strict)
  {
    k := 0;
    while k < |rs|
      invariant k <= |rs| && FirstGap(rs, 0, sp, threshold, strict) == FirstGap(rs, k, sp, threshold, strict)
      decreases |rs| - k
    {
      if Gap(rs[k], sp, threshold, strict) {
        return;
      }
      k := k + 1;
    }
  }

  // ---------------------------------------------------------------------
  // calculate_starting_point
  // ---------------------------------------------------------------------

  /**
   * The bsearch walk of calculate_starting_point: `lim` candidates are
   * left from `i` on; each probe `i + lim / 2` moves the walk left when
   * `bad` holds at it and right past it otherwise. The last probe is the
   * answer (`mid` before the first one).
   */
  function BSearch(i: nat, lim: nat, bad: nat -> bool, mid: nat): nat
    decreases lim
  {
    if lim == 0 then mid
    else
      var m := i + lim / 2;
      if bad(m) then BSearch(i, lim / 2, bad, m)
      else BSearch(m + 1, (lim - 1) / 2, bad, m)
  }

  /** Every probe of the walk lies in the range it starts with. */
  lemma {:induction false} BSearchRange(lo: nat, hi: nat, i: nat, lim: nat, bad: nat -> bool, mid: nat)
    requires lo <= i && i + lim <= hi + 1 && lo <= mid <= hi
    ensures lo <= BSearch(i, lim, bad, mid) <= hi
    decreases lim
  {
    if lim > 0 {
      var m := i + lim / 2;
      if bad(m) {
        BSearchRange(lo, hi, i, lim / 2, bad, m);
      } else {
        assert m + 1 + (lim - 1) / 2 == i + lim;
        BSearchRange(lo, hi, m + 1, (lim - 1) / 2, bad, m);
      }
    }
  }

  /** The loop of the bsearch walk. */
  method Bisect(i0: nat, lim0: nat, bad: nat -> bool, mid0: nat) returns (mid: nat)
    ensures mid == BSearch(i0, lim0, bad, mid0)
  {
    var i: nat := i0;
    var lim: nat := lim0;
    mid := mid0;
    while lim > 0
      invariant BSearch(i0, lim0, bad, mid0) == BSearch(i, lim, bad, mid)
      decreases lim
    {
      mid := i + lim / 2;
      if !bad(mid) {
        i := mid + 1;
        lim := lim - 1;
      }
      lim := lim / 2;
    }
  }

  /** More than 5% of the clusters from `oldSp` to a probe belong to fragmented files. */
  function Crowded(oldSp: nat, fragmented: (nat, nat) -> nat): nat -> bool
  {
    (m: nat) => fragmented(oldSp, m) > (m - oldSp) / 20
  }

  /** More than a third of the clusters from a probe to `maxSp` are free. */
  function Loose(maxSp: nat, free: (nat, nat) -> nat): nat -> bool
  {
    (m: nat) => free(m, maxSp) > (maxSp - m) / 3
  }

  /**
   * The last step of calculate_starting_point: past each following free
   * region the point moves while the part before the region holds no
   * movable cluster; the first region with movable clusters before it
   * stops the walk.
   */
  function SkipFrom(rs: seq<Region>, i: nat, sp: nat, movable: (nat, nat) -> nat): (r: nat)
    requires i <= |rs|
    ensures r >= sp
    ensures r == sp || exists j :: i <= j < |rs| && rs[j].lcn == r
    decreases |rs| - i
  {
    if i == |rs| then sp
    else if rs[i].lcn > sp then
      if movable(sp, rs[i].lcn) != 0 then sp else SkipFrom(rs, i + 1, rs[i].lcn, movable)
    else SkipFrom(rs, i + 1, sp, movable)
  }

  /** The walk of the last step. */
  method SkipUnmovable(rs: seq<Region>, sp0: nat, movable: (nat, nat) -> nat) returns (sp: nat)
    ensures sp == SkipFrom(rs, 0, sp0, movable)
  {
    sp := sp0;
    var i := 0;
    while i < |rs|
      invariant i <= |rs| && SkipFrom(rs, 0, sp0, movable) == SkipFrom(rs, i, sp, movable)
      decreases |rs| - i
    {
      if rs[i].lcn > sp {
        if movable(sp, rs[i].lcn) != 0 {
          break;
        }
        sp := rs[i].lcn;
      }
      i := i + 1;
    }
  }

  /**
   * The point of the first phase: the start of the first region at or
   * after `oldSp` that reaches the threshold, or `oldSp` itself.
   */
  function GapStart(rs: seq<Region>, oldSp: nat, threshold: nat): (g: nat)
    ensures g >= oldSp
  {
    var k := FirstGap(rs, 0, oldSp, threshold, false);
    if k < |rs| then rs[k].lcn else oldSp
  }

  /** The second phase: moved back while the skipped part holds too many fragmented clusters. */
  function Unfragmented(oldSp: nat, gap: nat, fragmented: (nat, nat) -> nat): (p: nat)
    requires gap >= oldSp
    ensures oldSp <= p <= gap
  {
    if fragmented(oldSp, gap) > (gap - oldSp) / 20 then
      BSearchRange(oldSp, gap, oldSp, gap - oldSp + 1, Crowded(oldSp, fragmented), gap);
      BSearch(oldSp, gap - oldSp + 1, Crowded(oldSp, fragmented), gap)
    else gap
  }

  /** The third phase: moved back while the part before the second point is too loosely filled. */
  function Compact(oldSp: nat, p2: nat, free: (nat, nat) -> nat): (p: nat)
    requires p2 >= oldSp
    ensures oldSp <= p <= p2
  {
    BSearchRange(oldSp, p2, oldSp, p2 - oldSp + 1, Loose(p2, free), p2);
    BSearch(oldSp, p2 - oldSp + 1, Loose(p2, free), p2)
  }

  /**
   * calculate_starting_point. `containing(p)` is the first block of a
   * fragmented file that holds cluster `p`, with its LCN and whether its
   * file can be moved; `fragmented`, `free` and `movable` count the
   * clusters of each kind between two LCNs.
   */
  function StartingPoint(rs: seq<Region>, oldSp: nat, threshold: nat, fragmented: (nat, nat) -> nat,
                         free: (nat, nat) -> nat, containing: nat -> Option<(nat, bool)>,
                         movable: (nat, nat) -> nat): nat
  {
    var p2 := Unfragmented(oldSp, GapStart(rs, oldSp, threshold), fragmented);
    if p2 == oldSp then oldSp
    else
      var p3 := Compact(oldSp, p2, free);
      if p3 == oldSp then oldSp
      else match containing(p3)
        case Some((lcn, true)) => lcn
        case _ => SkipFrom(rs, 0, p3, movable)
  }

  /** Without a large enough region at or after the old point, the point stays where it is. */
  lemma NoGapKeepsPoint(rs: seq<Region>, oldSp: nat, threshold: nat, fragmented: (nat, nat) -> nat,
                        free: (nat, nat) -> nat, containing: nat -> Option<(nat, bool)>, movable: (nat, nat) -> nat)
    requires forall j :: 0 <= j < |rs| ==> !Gap(rs[j], oldSp, threshold, false)
    ensures StartingPoint(rs, oldSp, threshold, fragmented, free, containing, movable) == oldSp
  {
    assert GapStart(rs, oldSp, threshold) == oldSp;
  }

  /**
   * Unless the point moves back into a movable fragmented file, it ends
   * at or after the point the bsearch phases found, which lies between
   * the old point and the first large gap.
   */
  lemma StartingPointOrder(rs: seq<Region>, oldSp: nat, threshold: nat, fragmented: (nat, nat) -> nat,
                           free: (nat, nat) -> nat, containing: nat -> Option<(nat, bool)>, movable: (nat, nat) -> nat)
    ensures var p2 := Unfragmented(oldSp, GapStart(rs, oldSp, threshold), fragmented);
      var p3 := Compact(oldSp, p2, free);
      var sp := StartingPoint(rs, oldSp, threshold, fragmented, free, containing, movable);
      && oldSp <= p3 <= p2 <= GapStart(rs, oldSp, threshold)
      && (p2 == oldSp || p3 == oldSp ==> sp == oldSp)
      && (p3 != oldSp && !(containing(p3).Some? && containing(p3).value.1) ==> sp >= p3)
  {
  }

  // ---------------------------------------------------------------------
  // opt_cc_routine
  // ---------------------------------------------------------------------

  /** A file below the optimizer's size limit. */
  predicate BelowLimit(f: FileRec, bytesPerCluster: nat, sizeLimit: nat)
  {
    f.clusters * bytesPerCluster < sizeLimit
  }

  /** A file opt_cc_routine counts: below the limit, entirely movable and not excluded. */
  predicate Counted(f: FileRec, bytesPerCluster: nat, sizeLimit: nat, ntfs: bool, isFat: bool)
  {
    BelowLimit(f, bytesPerCluster, sizeLimit) && Move.CanMoveEntirely(f, ntfs, isFat).0 && Excluded !in f.flags
  }

  /**
   * Twice the clusters of the counted files from position `i` on, up to
   * the first file before which the termination router answers yes.
   */
  function OptCount(fs: seq<FileRec>, i: nat, bytesPerCluster: nat, sizeLimit: nat, ntfs: bool, isFat: bool,
                    terminated: nat -> bool): (n: nat)
    requires i <= |fs|
    decreases |fs| - i
  {
    if i == |fs| || terminated(i) then 0
    else CountOf(fs[i], bytesPerCluster, sizeLimit, ntfs, isFat) + OptCount(fs, i + 1, bytesPerCluster, sizeLimit, ntfs, isFat, terminated)
  }

  /** What one file adds to the count: twice its clusters when it is counted. */
  function CountOf(f: FileRec, bytesPerCluster: nat, sizeLimit: nat, ntfs: bool, isFat: bool): (n: nat)
    ensures n == 0 || n == 2 * f.clusters
  {
    if Counted(f, bytesPerCluster, sizeLimit, ntfs, isFat) then f.clusters * 2 else 0
  }

  /** The count is at most twice the clusters of the files. */
  lemma {:induction false} OptCountBounds(fs: seq<FileRec>, i: nat, bytesPerCluster: nat, sizeLimit: nat, ntfs: bool,
                                          isFat: bool, terminated: nat -> bool)
    requires i <= |fs|
    ensures var n := OptCount(fs, i, bytesPerCluster, sizeLimit, ntfs, isFat, terminated);
      n <= 2 * ClustersFrom(fs, i)
    decreases |fs| - i
  {
    if i < |fs| && !terminated(i) {
      OptCountBounds(fs, i + 1, bytesPerCluster, sizeLimit, ntfs, isFat, terminated);
    }
  }

  /** The clusters of the files from position `i` on. */
  function ClustersFrom(fs: seq<FileRec>, i: nat): nat
    requires i <= |fs|
    decreases |fs| - i
  {
    if i == |fs| then 0 else fs[i].clusters + ClustersFrom(fs, i + 1)
  }

  /** Where the walk of opt_cc_routine stops: the first file from `i` on at which the router answers yes, or the end. */
  function CcStop(fs: seq<FileRec>, i: nat, terminated: nat -> bool): (k: nat)
    requires i <= |fs|
    ensures i <= k <= |fs| && (k < |fs| ==> terminated(k))
    ensures forall j :: i <= j < k ==> !terminated(j)
    decreases |fs| - i
  {
    if i == |fs| || terminated(i) then i else CcStop(fs, i + 1, terminated)
  }

  /**
   * A file as opt_cc_routine leaves it: a file below the size limit that
   * the walk reaches is asked about with can_move_entirely, which may
   * record flags on it; every other file stays as it was.
   */
  function CcProbed(fs: seq<FileRec>, j: nat, bytesPerCluster: nat, sizeLimit: nat, ntfs: bool, isFat: bool,
                    terminated: nat -> bool): FileRec
    requires j < |fs|
  {
    if j < CcStop(fs, 0, terminated) && BelowLimit(fs[j], bytesPerCluster, sizeLimit) then Probed(fs[j], ntfs, isFat)
    else fs[j]
  }

  /** The file list as opt_cc_routine leaves it. */
  function CcProbedAll(fs: seq<FileRec>, bytesPerCluster: nat, sizeLimit: nat, ntfs: bool, isFat: bool,
                       terminated: nat -> bool): (ps: seq<FileRec>)
    ensures |ps| == |fs|
    ensures forall j :: 0 <= j < |fs| ==> ps[j] == CcProbed(fs, j, bytesPerCluster, sizeLimit, ntfs, isFat, terminated)
  {
    seq(|fs|, j requires 0 <= j < |fs| => CcProbed(fs, j, bytesPerCluster, sizeLimit, ntfs, isFat, terminated))
  }

  /**
   * opt_cc_routine: the clusters the optimization may have to move,
   * twice, and the files as its can_move_entirely calls leave them.
   */
  method OptCcRoutine(fs: seq<FileRec>, bytesPerCluster: nat, sizeLimit: nat, ntfs: bool, isFat: bool,
                      terminated: nat -> bool) returns (n: nat, ps: seq<FileRec>)
    ensures n == OptCount(fs, 0, bytesPerCluster, sizeLimit, ntfs, isFat, terminated)
    ensures ps == CcProbedAll(fs, bytesPerCluster, sizeLimit, ntfs, isFat, terminated)
  {
    n := 0;
    ps := fs;
    var i := 0;
    while i < |fs|
      invariant i <= |fs| == |ps|
      invariant OptCount(fs, 0, bytesPerCluster, sizeLimit, ntfs, isFat, terminated) ==
        n + OptCount(fs, i, bytesPerCluster, sizeLimit, ntfs, isFat, terminated)
      invariant CcStop(fs, 0, terminated) == CcStop(fs, i, terminated)
      invariant forall j :: 0 <= j < i ==> ps[j] == CcProbed(fs, j, bytesPerCluster, sizeLimit, ntfs, isFat, terminated)
      invariant forall j :: i <= j < |fs| ==> ps[j] == fs[j]
      decreases |fs| - i
    {
      if terminated(i) {
        break;
      }
      var f := ps[i];
      if f.clusters * bytesPerCluster < sizeLimit {
        var (movable, h) := Move.CanMoveEntirely(f, ntfs, isFat);
        ps := ps[i := h];
        ProbedFlags(f, ntfs, isFat);
        if movable && Excluded !in h.flags {
          n := n + f.clusters * 2;
        }
      }
      i := i + 1;
    }
    assert forall j :: 0 <= j < |fs| ==> ps[j] == CcProbed(fs, j, bytesPerCluster, sizeLimit, ntfs, isFat, terminated);
  }

  /**
   * opt_cc_routine only ever adds UD_FILE_IMPROPER_STATE or the MFT cache
   * flags to a file, and only to the files below the size limit that its
   * walk reaches.
   */
  lemma CcProbedFlags(fs: seq<FileRec>, j: nat, bytesPerCluster: nat, sizeLimit: nat, ntfs: bool, isFat: bool,
                      terminated: nat -> bool)
    requires j < |fs|
    ensures var p := CcProbed(fs, j, bytesPerCluster, sizeLimit, ntfs, isFat, terminated);
      && p == fs[j].(flags := p.flags) && fs[j].flags <= p.flags
      && p.flags - {ImproperState, MftFile, NotMftFile} == fs[j].flags - {ImproperState, MftFile, NotMftFile}
      && (p != fs[j] ==> j < CcStop(fs, 0, terminated) && BelowLimit(fs[j], bytesPerCluster, sizeLimit))
  {
    ProbedFlags(fs[j], ntfs, isFat);
  }

  /** Once the router answers yes, no later file is counted. */
  lemma {:induction false} OptCountStops(fs: seq<FileRec>, i: nat, k: nat, bytesPerCluster: nat, sizeLimit: nat,
                                         ntfs: bool, isFat: bool, terminated: nat -> bool)
    requires i <= k < |fs| && terminated(k)
    ensures OptCount(fs, i, bytesPerCluster, sizeLimit, ntfs, isFat, terminated) ==
      OptCount(fs[..k], i, bytesPerCluster, sizeLimit, ntfs, isFat, terminated)
    decreases k - i
  {
    if i < k && !terminated(i) {
      OptCountStops(fs, i + 1, k, bytesPerCluster, sizeLimit, ntfs, isFat, terminated);
      assert fs[..k][i] == fs[i];
    }
  }

  // ---------------------------------------------------------------------
  // The size exclusion of optimize_routine
  // ---------------------------------------------------------------------

  /**
   * A file after the size exclusion: UD_FILE_CURRENTLY_EXCLUDED set
   * exactly when the file reaches the size limit, nothing else changed.
   */
  function SizeExcluded(f: FileRec, bytesPerCluster: nat, sizeLimit: nat): (g: FileRec)
    ensures CurrentlyExcluded in g.flags <==> !BelowLimit(f, bytesPerCluster, sizeLimit)
    ensures g.flags - {CurrentlyExcluded} == f.flags - {CurrentlyExcluded}
    ensures g == f.(flags := g.flags)
  {
    if BelowLimit(f, bytesPerCluster, sizeLimit) then f.(flags := f.flags - {CurrentlyExcluded})
    else f.(flags := f.flags + {CurrentlyExcluded})
  }

  /** Applying the size exclusion twice changes nothing more. */
  lemma SizeExcludedIdempotent(f: FileRec, bytesPerCluster: nat, sizeLimit: nat)
    ensures SizeExcluded(SizeExcluded(f, bytesPerCluster, sizeLimit), bytesPerCluster, sizeLimit) ==
      SizeExcluded(f, bytesPerCluster, sizeLimit)
  {
    var g := SizeExcluded(f, bytesPerCluster, sizeLimit);
    var h := SizeExcluded(g, bytesPerCluster, sizeLimit);
    assert g.clusters == f.clusters;
    assert h.flags == g.flags;
  }

  /** Every file of the list after the size exclusion. */
  function SizeExcludedAll(fs: seq<FileRec>, bytesPerCluster: nat, sizeLimit: nat): (gs: seq<FileRec>)
    ensures |gs| == |fs| && forall i :: 0 <= i < |fs| ==> gs[i] == SizeExcluded(fs[i], bytesPerCluster, sizeLimit)
  {
    seq(|fs|, i requires 0 <= i < |fs| => SizeExcluded(fs[i], bytesPerCluster, sizeLimit))
  }

  // ---------------------------------------------------------------------
  // The tree of optimize_routine
  // ---------------------------------------------------------------------

  /** A file as the tree's walk leaves it: can_move_entirely may record flags on it. */
  function Probed(g: FileRec, ntfs: bool, isFat: bool): FileRec
  {
    Move.CanMoveEntirely(g, ntfs, isFat).1
  }

  /** A file optimize_routine offers to its tree: it can be moved entirely and is not excluded. */
  predicate Eligible(g: FileRec, ntfs: bool, isFat: bool)
  {
    Move.CanMoveEntirely(g, ntfs, isFat).0 && Excluded !in Probed(g, ntfs, isFat).flags
  }

  /** Which files are offered to the tree, in list order. */
  function Offers(gs: seq<FileRec>, ntfs: bool, isFat: bool): (o: seq<bool>)
    ensures |o| == |gs| && forall k :: 0 <= k < |gs| ==> o[k] == Eligible(gs[k], ntfs, isFat)
  {
    seq(|gs|, k requires 0 <= k < |gs| => Eligible(gs[k], ntfs, isFat))
  }

  /** The tree's key of each file: its path ignoring case (files_compare, `_wcsicmp`). */
  function PathKeys(gs: seq<FileRec>): (ks: seq<string>)
    ensures |ks| == |gs| && forall k :: 0 <= k < |gs| ==> ks[k] == LowerStr(gs[k].path)
  {
    seq(|gs|, k requires 0 <= k < |gs| => LowerStr(gs[k].path))
  }

  /** Some entry before `j` that is offered has the key of entry `j`. */
  predicate RepeatsAt(o: seq<bool>, ks: seq<string>, j: nat)
    requires j < |o| == |ks|
  {
    exists k :: 0 <= k < j && o[k] && ks[k] == ks[j]
  }

  /**
   * File `j` has the key of an earlier file offered to the tree:
   * prb_probe finds that one and adds nothing.
   */
  predicate Repeated(gs: seq<FileRec>, j: nat, ntfs: bool, isFat: bool)
    requires j < |gs|
  {
    RepeatsAt(Offers(gs, ntfs, isFat), PathKeys(gs), j)
  }

  /** Entry `j` is offered and its key is not among those before it: it gets a node of its own. */
  predicate NewKey(o: seq<bool>, ks: seq<string>, j: nat)
    requires j < |o| == |ks|
  {
    o[j] && !RepeatsAt(o, ks, j)
  }

  /** File `j` gets a node of its own in the tree. */
  predicate Inserted(gs: seq<FileRec>, j: nat, ntfs: bool, isFat: bool)
    requires j < |gs|
  {
    NewKey(Offers(gs, ntfs, isFat), PathKeys(gs), j)
  }

  /**
   * The position, from `i` on, of the first entry with a node of its
   * own that cannot be allocated (`fails`), or the length of the list
   * when every node can.
   */
  function ProbeFailure(o: seq<bool>, ks: seq<string>, i: nat, fails: nat -> bool): (k: nat)
    requires i <= |o| == |ks|
    ensures i <= k <= |o|
    ensures k < |o| ==> NewKey(o, ks, k) && fails(k)
    ensures forall j :: i <= j < k ==> !(NewKey(o, ks, j) && fails(j))
    decreases |o| - i
  {
    if i == |o| then |o|
    else if NewKey(o, ks, i) && fails(i) then i
    else ProbeFailure(o, ks, i + 1, fails)
  }

  /** Where the walk of the tree's files stops: the length when every node can be allocated. */
  function TreeStop(gs: seq<FileRec>, ntfs: bool, isFat: bool, fails: nat -> bool): (k: nat)
    ensures k <= |gs|
  {
    ProbeFailure(Offers(gs, ntfs, isFat), PathKeys(gs), 0, fails)
  }

  /** A file after a complete walk: the files of the tree marked UD_FILE_CURRENTLY_EXCLUDED. */
  function Marked(gs: seq<FileRec>, j: nat, ntfs: bool, isFat: bool): FileRec
    requires j < |gs|
  {
    var h := Probed(gs[j], ntfs, isFat);
    if Inserted(gs, j, ntfs, isFat) then h.(flags := h.flags + {CurrentlyExcluded}) else h
  }

  /**
   * File `j` after the tree part of optimize_routine on an open volume.
   * When the tree cannot be created (`created` false) nothing is walked;
   * when a node cannot be allocated the walk stops at that file (it has
   * been asked about already) and nothing is marked; otherwise every
   * file of the tree is marked.
   */
  function TreeOutcome(gs: seq<FileRec>, j: nat, created: bool, fails: nat -> bool, ntfs: bool, isFat: bool): FileRec
    requires j < |gs|
  {
    var k := TreeStop(gs, ntfs, isFat, fails);
    if !created then gs[j]
    else if k == |gs| then Marked(gs, j, ntfs, isFat)
    else if j <= k then Probed(gs[j], ntfs, isFat)
    else gs[j]
  }

  /** The keys of the entries before `i` that are offered. */
  function KeysBefore(o: seq<bool>, ks: seq<string>, i: nat): set<string>
    requires i <= |o| == |ks|
  {
    set k | 0 <= k < i && o[k] :: ks[k]
  }

  /** The keys tell a repeated key, and one more entry offered adds its key. */
  lemma KeysNext(o: seq<bool>, ks: seq<string>, i: nat)
    requires i < |o| == |ks|
    ensures ks[i] in KeysBefore(o, ks, i) <==> RepeatsAt(o, ks, i)
    ensures KeysBefore(o, ks, i + 1) == if o[i] then KeysBefore(o, ks, i) + {ks[i]} else KeysBefore(o, ks, i)
  {
    if ks[i] in KeysBefore(o, ks, i) {
      var k :| 0 <= k < i && o[k] && ks[k] == ks[i];
    }
    if RepeatsAt(o, ks, i) {
      var k :| 0 <= k < i && o[k] && ks[k] == ks[i];
      assert ks[i] in KeysBefore(o, ks, i);
    }
  }

  /** Asking can_move_entirely about a file adds at most its cache and state flags. */
  lemma ProbedFlags(g: FileRec, ntfs: bool, isFat: bool)
    ensures var h := Probed(g, ntfs, isFat);
      && h == g.(flags := h.flags) && g.flags <= h.flags
      && h.flags - {ImproperState, MftFile, NotMftFile} == g.flags - {ImproperState, MftFile, NotMftFile}
  {
    var (movable, g1) := Move.CanMove(g);
    if movable {
      var _ := ClusterMap.IsMft(g1, ntfs);
    }
  }

  /**
   * A file reaching the size limit never enters the tree; a file below
   * it that was not marked before enters the tree's test exactly when
   * opt_cc_routine counts it.
   */
  lemma EligibleCounted(f: FileRec, bytesPerCluster: nat, sizeLimit: nat, ntfs: bool, isFat: bool)
    ensures !BelowLimit(f, bytesPerCluster, sizeLimit) ==>
      !Eligible(SizeExcluded(f, bytesPerCluster, sizeLimit), ntfs, isFat)
    ensures CurrentlyExcluded !in f.flags ==>
      (Eligible(SizeExcluded(f, bytesPerCluster, sizeLimit), ntfs, isFat) <==> Counted(f, bytesPerCluster, sizeLimit, ntfs, isFat))
  {
    var g := SizeExcluded(f, bytesPerCluster, sizeLimit);
    ProbedFlags(f, ntfs, isFat);
    ProbedFlags(g, ntfs, isFat);
    if CurrentlyExcluded !in f.flags && BelowLimit(f, bytesPerCluster, sizeLimit) {
      assert g == f;
    }
  }

  /** Asking can_move_entirely again about a file it has left gives the same answer and changes nothing more. */
  lemma ProbedStable(g: FileRec, ntfs: bool, isFat: bool)
    ensures Move.CanMoveEntirely(Probed(g, ntfs, isFat), ntfs, isFat) ==
      (Move.CanMoveEntirely(g, ntfs, isFat).0, Probed(g, ntfs, isFat))
  {
    Move.CanMoveStable(g);
    var (movable, g1) := Move.CanMove(g);
    if movable {
      ClusterMap.IsMftCached(g1, ntfs);
      var h := ClusterMap.IsMft(g1, ntfs).1;
      assert Move.CanMove(h) == (true, h);
    }
  }

  /**
   * The flags opt_cc_routine records do not change what the tree takes:
   * a file reaching the size limit never enters it, and a file that was
   * not marked before enters it exactly when it passes the counting test
   * of opt_cc_routine.
   */
  lemma CcEligible(fs: seq<FileRec>, j: nat, bytesPerCluster: nat, sizeLimit: nat, ntfs: bool, isFat: bool,
                   terminated: nat -> bool)
    requires j < |fs|
    ensures var g := SizeExcluded(CcProbed(fs, j, bytesPerCluster, sizeLimit, ntfs, isFat, terminated), bytesPerCluster, sizeLimit);
      && (!BelowLimit(fs[j], bytesPerCluster, sizeLimit) ==> !Eligible(g, ntfs, isFat))
      && (CurrentlyExcluded !in fs[j].flags ==> (Eligible(g, ntfs, isFat) <==> Counted(fs[j], bytesPerCluster, sizeLimit, ntfs, isFat)))
  {
    var p := CcProbed(fs, j, bytesPerCluster, sizeLimit, ntfs, isFat, terminated);
    CcProbedFlags(fs, j, bytesPerCluster, sizeLimit, ntfs, isFat, terminated);
    EligibleCounted(fs[j], bytesPerCluster, sizeLimit, ntfs, isFat);
    if p != fs[j] {
      var g := SizeExcluded(p, bytesPerCluster, sizeLimit);
      ProbedFlags(p, ntfs, isFat);
      ProbedStable(fs[j], ntfs, isFat);
      if CurrentlyExcluded !in fs[j].flags {
        assert g == p;
      }
    }
  }

  /**
   * After optimize_routine on an open volume a file is marked
   * UD_FILE_CURRENTLY_EXCLUDED exactly when it reaches the size limit or,
   * after a complete walk, it has a node of its own in the tree; the
   * flags opt_cc_routine recorded before do not touch the mark.
   */
  lemma {:induction false} TreeMarks(fs: seq<FileRec>, bytesPerCluster: nat, sizeLimit: nat, created: bool,
                                     fails: nat -> bool, ntfs: bool, isFat: bool, terminated: nat -> bool, j: nat)
    requires j < |fs|
    ensures var gs := SizeExcludedAll(CcProbedAll(fs, bytesPerCluster, sizeLimit, ntfs, isFat, terminated), bytesPerCluster, sizeLimit);
      var complete := created && TreeStop(gs, ntfs, isFat, fails) == |gs|;
      CurrentlyExcluded in TreeOutcome(gs, j, created, fails, ntfs, isFat).flags <==>
        !BelowLimit(fs[j], bytesPerCluster, sizeLimit) || (complete && Inserted(gs, j, ntfs, isFat))
  {
    var gs := SizeExcludedAll(CcProbedAll(fs, bytesPerCluster, sizeLimit, ntfs, isFat, terminated), bytesPerCluster, sizeLimit);
    CcProbedFlags(fs, j, bytesPerCluster, sizeLimit, ntfs, isFat, terminated);
    ProbedFlags(gs[j], ntfs, isFat);
  }

  /** What optimize_mft returns: a code, or UDEFRAG_UNMOVABLE_MFT before Windows XP. */
  datatype MftOutcome = Code(code: int) | UnmovableMft

  /** The parts of the job the trunk optimizer reads and updates. */
  class Job {
    /** The file list, in list order. */
    var files: seq<FileRec>
    /** `jp->free_rgn_size_threshold` and `jp->udo.optimizer_size_limit`. */
    var freeRgnSizeThreshold: nat
    var optimizerSizeLimit: nat
    /** `pi.processed_clusters`, `pi.clusters_to_process`, `pi.current_operation` and `pi.moved_clusters`. */
    var processedClusters: nat
    var clustersToProcess: nat
    var currentOperation: Operation
    var movedClusters: nat
    const bytesPerCluster: nat

    constructor (fs: seq<FileRec>, bpc: nat, sizeLimit: nat)
      ensures files == fs && bytesPerCluster == bpc && optimizerSizeLimit == sizeLimit
      ensures freeRgnSizeThreshold == 0 && processedClusters == 0 && clustersToProcess == 0
      ensures currentOperation == VolumeAnalysis && movedClusters == 0
    {
      files := fs;
      bytesPerCluster := bpc;
      optimizerSizeLimit := sizeLimit;
      freeRgnSizeThreshold := 0;
      processedClusters := 0;
      clustersToProcess := 0;
      currentOperation := VolumeAnalysis;
      movedClusters := 0;
    }

    /** calculate_free_rgn_size_threshold, with the largest free region found by a walk of the list. */
    method CalculateFreeRgnSizeThreshold(freeBytes: nat, totalBytes: nat, totalClusters: nat, rs: seq<Region>)
      modifies this
      ensures freeRgnSizeThreshold == RgnSizeThreshold(freeBytes, totalBytes, totalClusters, Largest(rs))
      ensures files == old(files) && optimizerSizeLimit == old(optimizerSizeLimit)
      ensures processedClusters == old(processedClusters) && clustersToProcess == old(clustersToProcess)
      ensures currentOperation == old(currentOperation) && movedClusters == old(movedClusters)
    {
      if freeBytes >= totalBytes / 10 {
        var length := 0;
        var i := 0;
        while i < |rs|
          invariant i <= |rs| && length == Largest(rs[..i])
        {
          if rs[i].length > length {
            length := rs[i].length;
          }
          assert rs[..i + 1][..i] == rs[..i];
          i := i + 1;
        }
        assert rs[..i] == rs;
        freeRgnSizeThreshold := Min(totalClusters / 200, length / 2);
      } else {
        freeRgnSizeThreshold := totalClusters / 200;
      }
      if freeRgnSizeThreshold < 2 {
        freeRgnSizeThreshold := 2;
      }
    }

    /** calculate_starting_point, phase by phase. */
    method CalculateStartingPoint(rs: seq<Region>, oldSp: nat, fragmented: (nat, nat) -> nat,
                                  free: (nat, nat) -> nat, containing: nat -> Option<(nat, bool)>,
                                  movable: (nat, nat) -> nat)
      returns (sp: nat)
      ensures sp == StartingPoint(rs, oldSp, freeRgnSizeThreshold, fragmented, free, containing, movable)
    {
      var k := FindGap(rs, oldSp, freeRgnSizeThreshold, false);
      var newSp := if k < |rs| then rs[k].lcn else oldSp;
      assert newSp == GapStart(rs, oldSp, freeRgnSizeThreshold);
      if fragmented(oldSp, newSp) > (newSp - oldSp) / 20 {
        newSp := Bisect(oldSp, newSp - oldSp + 1, Crowded(oldSp, fragmented), newSp);
      }
      assert newSp == Unfragmented(oldSp, GapStart(rs, oldSp, freeRgnSizeThreshold), fragmented);
      if newSp == oldSp {
        return oldSp;
      }
      var maxNewSp := newSp;
      newSp := Bisect(oldSp, newSp - oldSp + 1, Loose(maxNewSp, free), newSp);
      assert newSp == Compact(oldSp, maxNewSp, free);
      if newSp == oldSp {
        return oldSp;
      }
      var block := containing(newSp);
      if block.Some? && block.value.1 {
        return block.value.0;
      }
      sp := SkipUnmovable(rs, newSp, movable);
    }

    /**
     * increase_starting_point: nothing for a NULL `sp`; otherwise the
     * point goes to the first region after the new starting point that
     * reaches the threshold, and -1 tells that the disk end is reached.
     */
    method IncreaseStartingPoint(rs: seq<Region>, sp: Option<nat>, fragmented: (nat, nat) -> nat,
                                 free: (nat, nat) -> nat, containing: nat -> Option<(nat, bool)>,
                                 movable: (nat, nat) -> nat)
      returns (result: int, sp': Option<nat>)
      ensures sp.None? ==> result == -1 && sp' == None
      ensures sp.Some? ==>
        var newSp := StartingPoint(rs, sp.value, freeRgnSizeThreshold, fragmented, free, containing, movable);
        var k := FirstGap(rs, 0, newSp, freeRgnSizeThreshold, true);
        && (result == 0 <==> exists j :: 0 <= j < |rs| && Gap(rs[j], newSp, freeRgnSizeThreshold, true))
        && (result == 0 ==> sp' == Some(rs[k].lcn) && rs[k].lcn > newSp && rs[k].length >= freeRgnSizeThreshold)
        && (result != 0 ==> result == -1 && sp' == sp)
    {
      if sp.None? {
        return -1, None;
      }
      var newSp := CalculateStartingPoint(rs, sp.value, fragmented, free, containing, movable);
      var k := FindGap(rs, newSp, freeRgnSizeThreshold, true);
      if k < |rs| {
        return 0, Some(rs[k].lcn);
      }
      return -1, sp;
    }

    /** The loop of optimize_routine that excludes the files reaching the size limit. */
    method ExcludeBySizeLimit()
      modifies this
      ensures |files| == |old(files)|
      ensures forall i :: 0 <= i < |files| ==> files[i] == SizeExcluded(old(files)[i], bytesPerCluster, optimizerSizeLimit)
      ensures optimizerSizeLimit == old(optimizerSizeLimit) && freeRgnSizeThreshold == old(freeRgnSizeThreshold)
      ensures processedClusters == old(processedClusters) && clustersToProcess == old(clustersToProcess)
      ensures currentOperation == old(currentOperation) && movedClusters == old(movedClusters)
    {
      ghost var fs := files;
      var i := 0;
      while i < |files|
        invariant i <= |files| == |fs|
        invariant forall j :: 0 <= j < i ==> files[j] == SizeExcluded(fs[j], bytesPerCluster, optimizerSizeLimit)
        invariant forall j :: i <= j < |files| ==> files[j] == fs[j]
        invariant optimizerSizeLimit == old(optimizerSizeLimit) && freeRgnSizeThreshold == old(freeRgnSizeThreshold)
        invariant processedClusters == old(processedClusters) && clustersToProcess == old(clustersToProcess)
        invariant currentOperation == old(currentOperation) && movedClusters == old(movedClusters)
        decreases |files| - i
      {
        var f := files[i];
        if f.clusters * bytesPerCluster < optimizerSizeLimit {
          f := f.(flags := f.flags - {CurrentlyExcluded});
        } else {
          f := f.(flags := f.flags + {CurrentlyExcluded});
        }
        files := files[i := f];
        i := i + 1;
      }
    }

    /**
     * The tree part of optimize_routine on an open volume. The files that
     * can be moved entirely and are not excluded go into a tree keyed by
     * their path ignoring case, where a repeated path finds the file
     * already there; once every file is in, each file of the tree is
     * marked UD_FILE_CURRENTLY_EXCLUDED. `created` tells whether the tree
     * can be created and `fails(j)` whether the node of file `j` cannot be
     * allocated; either failure skips the marking. The C code marks the
     * files in path order; the marks do not depend on the order, and they
     * are set here in list order.
     */
    method BuildAndMark(ntfs: bool, isFat: bool, created: bool, fails: nat -> bool)
      modifies this
      ensures |files| == |old(files)|
      ensures forall j :: 0 <= j < |files| ==> files[j] == TreeOutcome(old(files), j, created, fails, ntfs, isFat)
      ensures optimizerSizeLimit == old(optimizerSizeLimit) && freeRgnSizeThreshold == old(freeRgnSizeThreshold)
      ensures processedClusters == old(processedClusters) && clustersToProcess == old(clustersToProcess)
      ensures currentOperation == old(currentOperation) && movedClusters == old(movedClusters)
    {
      if !created {
        return;
      }
      ghost var gs := files;
      ghost var o := Offers(gs, ntfs, isFat);
      ghost var ks := PathKeys(gs);
      var tree, complete := ProbeAll(gs, o, ks, ntfs, isFat, fails);
      if complete {
        MarkTree(gs, o, ks, tree, ntfs, isFat, fails);
      }
    }

    /**
     * The loop of optimize_routine that fills the tree: every file is
     * asked about with can_move_entirely and, when offered, put into the
     * tree under its key unless the key is there already. The loop stops
     * at the first node that cannot be allocated.
     */
    method ProbeAll(ghost gs: seq<FileRec>, ghost o: seq<bool>, ghost ks: seq<string>, ntfs: bool, isFat: bool,
                    fails: nat -> bool)
      returns (tree: seq<nat>, complete: bool)
      requires |o| == |ks| == |gs| && files == gs
      requires forall k {:trigger Eligible(gs[k], ntfs, isFat)} :: 0 <= k < |gs| ==> o[k] == Eligible(gs[k], ntfs, isFat)
      requires forall k {:trigger LowerStr(gs[k].path)} :: 0 <= k < |gs| ==> ks[k] == LowerStr(gs[k].path)
      modifies this
      ensures |files| == |gs| && var k := ProbeFailure(o, ks, 0, fails);
        && (complete <==> k == |gs|)
        && (forall j :: 0 <= j < |gs| ==> files[j] == if j <= k then Probed(gs[j], ntfs, isFat) else gs[j])
      ensures forall j :: 0 <= j < |tree| ==> tree[j] < |gs| && NewKey(o, ks, tree[j])
      ensures complete ==> forall j :: 0 <= j < |gs| && NewKey(o, ks, j) ==> j in tree
      ensures optimizerSizeLimit == old(optimizerSizeLimit) && freeRgnSizeThreshold == old(freeRgnSizeThreshold)
      ensures processedClusters == old(processedClusters) && clustersToProcess == old(clustersToProcess)
      ensures currentOperation == old(currentOperation) && movedClusters == old(movedClusters)
    {
      tree := [];
      var keys: set<string> := {};
      complete := true;
      var i := 0;
      while i < |files|
        invariant i <= |files| == |gs|
        invariant forall j :: 0 <= j < i ==> files[j] == Probed(gs[j], ntfs, isFat)
        invariant forall j :: i <= j < |files| ==> files[j] == gs[j]
        invariant keys == KeysBefore(o, ks, i)
        invariant forall j :: 0 <= j < |tree| ==> tree[j] < i && NewKey(o, ks, tree[j])
        invariant forall j :: 0 <= j < i && NewKey(o, ks, j) ==> j in tree
        invariant ProbeFailure(o, ks, 0, fails) == ProbeFailure(o, ks, i, fails)
        invariant optimizerSizeLimit == old(optimizerSizeLimit) && freeRgnSizeThreshold == old(freeRgnSizeThreshold)
        invariant processedClusters == old(processedClusters) && clustersToProcess == old(clustersToProcess)
        invariant currentOperation == old(currentOperation) && movedClusters == old(movedClusters)
        decreases |files| - i
      {
        var f := files[i];
        var (movable, h) := Move.CanMoveEntirely(f, ntfs, isFat);
        files := files[i := h];
        KeysNext(o, ks, i);
        assert o[i] == Eligible(gs[i], ntfs, isFat) && ks[i] == LowerStr(gs[i].path);
        if movable && Excluded !in h.flags {
          var key := LowerStr(f.path);
          if key !in keys {
            if fails(i) {
              complete := false;
              break;
            }
            tree := tree + [i];
          }
          keys := keys + {key};
        }
        i := i + 1;
      }
    }

    /** The walk over the tree: each file in it gets UD_FILE_CURRENTLY_EXCLUDED. */
    method MarkTree(ghost gs: seq<FileRec>, ghost o: seq<bool>, ghost ks: seq<string>, tree: seq<nat>,
                    ntfs: bool, isFat: bool, ghost fails: nat -> bool)
      requires o == Offers(gs, ntfs, isFat) && ks == PathKeys(gs)
      requires |files| == |gs| && ProbeFailure(o, ks, 0, fails) == |gs|
      requires forall j :: 0 <= j < |files| ==> files[j] == Probed(gs[j], ntfs, isFat)
      requires forall j :: 0 <= j < |tree| ==> tree[j] < |gs| && NewKey(o, ks, tree[j])
      requires forall j :: 0 <= j < |gs| && NewKey(o, ks, j) ==> j in tree
      modifies this
      ensures |files| == |gs|
      ensures forall j :: 0 <= j < |files| ==> files[j] == TreeOutcome(gs, j, true, fails, ntfs, isFat)
      ensures optimizerSizeLimit == old(optimizerSizeLimit) && freeRgnSizeThreshold == old(freeRgnSizeThreshold)
      ensures processedClusters == old(processedClusters) && clustersToProcess == old(clustersToProcess)
      ensures currentOperation == old(currentOperation) && movedClusters == old(movedClusters)
    {
      var t := 0;
      while t < |tree|
        invariant t <= |tree| && |files| == |gs|
        invariant forall j :: 0 <= j < |files| ==>
          files[j] == (if j in tree[..t] then Marked(gs, j, ntfs, isFat) else Probed(gs[j], ntfs, isFat))
        invariant optimizerSizeLimit == old(optimizerSizeLimit) && freeRgnSizeThreshold == old(freeRgnSizeThreshold)
        invariant processedClusters == old(processedClusters) && clustersToProcess == old(clustersToProcess)
        invariant currentOperation == old(currentOperation) && movedClusters == old(movedClusters)
        decreases |tree| - t
      {
        var j := tree[t];
        files := files[j := files[j].(flags := files[j].flags + {CurrentlyExcluded})];
        assert tree[..t + 1] == tree[..t] + [j];
        t := t + 1;
      }
      assert tree[..t] == tree;
    }

    /**
     * optimize. A failed analysis is returned as is. On Windows XP and
     * later the FAT directory optimizer (on FAT) and the MFT optimizer
     * (on NTFS) run, reporting `dirs` and `mft`; an unset size limit
     * becomes OPTIMIZER_MAGIC_CONSTANT, the counters are reset and the
     * clusters to process are those of opt_cc_routine, whose
     * can_move_entirely calls may record flags on the files.
     * optimize_routine then sets the operation to VOLUME_OPTIMIZATION
     * and the moved clusters to 0, excludes the files at or above the
     * limit, returns -1 when the volume cannot be opened (`volumeOpened`
     * false), and otherwise builds and walks its tree and returns 0; it
     * moves nothing, so no cluster is processed or moved. The job
     * succeeds when one of the optimizers that ran returned 0. The state
     * is the one `defragment(jp)` at the end of optimize starts from.
     */
    method Optimize(analyze: int, osVersion: nat, isFat: bool, ntfs: bool, dirs: int, mft: int, volumeOpened: bool,
                    created: bool, fails: nat -> bool, terminated: nat -> bool)
      returns (result: int)
      modifies this
      ensures analyze < 0 ==> result == analyze && unchanged(this)
      ensures analyze >= 0 ==>
        var limit := if old(optimizerSizeLimit) == 0 then OPTIMIZER_MAGIC_CONSTANT else old(optimizerSizeLimit);
        var ps := CcProbedAll(old(files), bytesPerCluster, limit, ntfs, isFat, terminated);
        var gs := SizeExcludedAll(ps, bytesPerCluster, limit);
        && optimizerSizeLimit == limit
        && processedClusters == 0 && movedClusters == 0 && currentOperation == VolumeOptimization
        && clustersToProcess == OptCount(old(files), 0, bytesPerCluster, limit, ntfs, isFat, terminated)
        && |files| == |old(files)|
        && (forall i :: 0 <= i < |files| ==>
              files[i] == (if volumeOpened then TreeOutcome(gs, i, created, fails, ntfs, isFat) else gs[i]))
        && (result == 0 || result == -1)
        && (result == 0 <==>
              (isFat && osVersion > WINDOWS_2K && dirs == 0) || (ntfs && osVersion > WINDOWS_2K && mft == 0) || volumeOpened)
    {
      if analyze < 0 {
        return analyze;
      }
      var overall := -1;
      if isFat && osVersion > WINDOWS_2K && dirs == 0 {
        overall := 0;
      }
      if ntfs && osVersion > WINDOWS_2K && mft == 0 {
        overall := 0;
      }
      if optimizerSizeLimit == 0 {
        optimizerSizeLimit := OPTIMIZER_MAGIC_CONSTANT;
      }
      processedClusters := 0;
      var n, ps := OptCcRoutine(files, bytesPerCluster, optimizerSizeLimit, ntfs, isFat, terminated);
      clustersToProcess := n;
      files := ps;
      currentOperation := VolumeOptimization;
      movedClusters := 0;
      ExcludeBySizeLimit();
      ghost var gs := SizeExcludedAll(ps, bytesPerCluster, optimizerSizeLimit);
      assert files == gs;
      var routine := -1;
      if volumeOpened {
        BuildAndMark(ntfs, isFat, created, fails);
        routine := 0;
      }
      if routine == 0 {
        overall := 0;
      }
      result := overall;
    }

    /**
     * optimize_mft. A failed analysis is returned as is; off NTFS there
     * is nothing to do, one cluster to process, the operation
     * VOLUME_OPTIMIZATION and the result 0; before Windows XP the MFT
     * cannot be moved; otherwise the result is that of
     * optimize_mft_routine, `routine`, with the counters reset for it and
     * `routineProcessed` and `routineMoved` the clusters its moves process
     * and move. optimize_mft_routine sets the operation to
     * VOLUME_OPTIMIZATION and the moved clusters to 0, and clears
     * UD_FILE_CURRENTLY_EXCLUDED on every file. The state is the one
     * `defragment(jp)` at the end of optimize_mft starts from.
     */
    method OptimizeMft(analyze: int, osVersion: nat, ntfs: bool, mftClusters: nat, routine: int, routineProcessed: nat,
                       routineMoved: nat)
      returns (result: MftOutcome)
      modifies this
      ensures analyze < 0 ==> result == Code(analyze) && unchanged(this)
      ensures analyze >= 0 && !ntfs ==>
        && result == Code(0) && processedClusters == 0 && clustersToProcess == 1 && files == old(files)
        && currentOperation == VolumeOptimization && movedClusters == old(movedClusters)
      ensures analyze >= 0 && ntfs && osVersion < WINDOWS_XP ==> result == UnmovableMft && unchanged(this)
      ensures analyze >= 0 && ntfs && osVersion >= WINDOWS_XP ==>
        && result == Code(routine) && processedClusters == routineProcessed && clustersToProcess == mftClusters
        && currentOperation == VolumeOptimization && movedClusters == routineMoved
        && |files| == |old(files)|
        && forall i :: 0 <= i < |files| ==>
             files[i] == old(files)[i].(flags := old(files)[i].flags - {CurrentlyExcluded})
      ensures optimizerSizeLimit == old(optimizerSizeLimit)
    {
      if analyze < 0 {
        return Code(analyze);
      }
      if !ntfs {
        processedClusters := 0;
        clustersToProcess := 1;
        currentOperation := VolumeOptimization;
        return Code(0);
      }
      if osVersion < WINDOWS_XP {
        return UnmovableMft;
      }
      processedClusters := 0;
      clustersToProcess := mftClusters;
      currentOperation := VolumeOptimization;
      movedClusters := 0;
      var i := 0;
      while i < |files|
        invariant i <= |files| == |old(files)|
        invariant forall j :: 0 <= j < i ==> files[j] == old(files)[j].(flags := old(files)[j].flags - {CurrentlyExcluded})
        invariant forall j :: i <= j < |files| ==> files[j] == old(files)[j]
        invariant optimizerSizeLimit == old(optimizerSizeLimit)
        invariant processedClusters == 0 && clustersToProcess == mftClusters
        invariant currentOperation == VolumeOptimization && movedClusters == 0
        decreases |files| - i
      {
        files := files[i := files[i].(flags := files[i].flags - {CurrentlyExcluded})];
        i := i + 1;
      }
      processedClusters := processedClusters + routineProcessed;
      movedClusters := movedClusters + routineMoved;
      result := Code(routine);
    }
  }
}
