/**
 * Searches of trunk/src/dll/udefrag/search.c: free regions by position
 * and by size, the order of the file blocks tree, and the slow path of
 * find_first_block, which walks every block of every movable file.
 * `terminated(i)` is the answer of the termination router at its i-th
 * call during one search.
 */
module Search {
  import opened Types
  import Move
  import Analyze

  /** The router let the first `n` checks through. */
  predicate Allowed(terminated: nat -> bool, n: nat)
  {
    forall i :: 0 <= i < n ==> !terminated(i)
  }

  /** A region at or after `minLcn` of at least `minLength` clusters. */
  predicate Fits(r: Region, minLcn: nat, minLength: nat)
  {
    r.lcn >= minLcn && r.length >= minLength
  }

  // ---------------------------------------------------------------------
  // find_first_free_region
  // ---------------------------------------------------------------------

  /**
   * find_first_free_region: the first region in list order that fits, or
   * None once the list or the router stops the walk. `maxLength` is the
   * largest region at or after `minLcn` met on the way; `visited` counts
   * the regions looked at.
   */
  method FindFirstFreeRegion(regions: seq<Region>, minLcn: nat, minLength: nat, terminated: nat -> bool)
    returns (k: Option<nat>, maxLength: nat, ghost visited: nat)
    ensures visited <= |regions| && Allowed(terminated, visited)
    ensures k.Some? ==> visited == k.value + 1 && Fits(regions[k.value], minLcn, minLength)
    ensures k.None? ==> visited == |regions| || terminated(visited)
    ensures forall j :: 0 <= j < visited && k != Some(j) ==> !Fits(regions[j], minLcn, minLength)
    ensures forall j :: 0 <= j < visited && regions[j].lcn >= minLcn ==> regions[j].length <= maxLength
    ensures maxLength == 0 || exists j :: 0 <= j < visited && regions[j].lcn >= minLcn && regions[j].length == maxLength
  {
    maxLength := 0;
    var i := 0;
    while i < |regions|
      invariant 0 <= i <= |regions| && Allowed(terminated, i)
      invariant forall j :: 0 <= j < i ==> !Fits(regions[j], minLcn, minLength)
      invariant forall j :: 0 <= j < i && regions[j].lcn >= minLcn ==> regions[j].length <= maxLength
      invariant maxLength == 0 || exists j :: 0 <= j < i && regions[j].lcn >= minLcn && regions[j].length == maxLength
    {
      if terminated(i) {
        return None, maxLength, i;
      }
      var r := regions[i];
      if r.lcn >= minLcn {
        if r.length > maxLength {
          maxLength := r.length;
        }
        if r.length >= minLength {
          return Some(i), maxLength, i + 1;
        }
      }
      i := i + 1;
    }
    return None, maxLength, i;
  }

  // ---------------------------------------------------------------------
  // find_last_free_region
  // ---------------------------------------------------------------------

  /**
   * find_last_free_region: walks from the tail, stops at the first region
   * below `minLcn`, and returns the highest region of at least
   * `minLength` clusters. The regions looked at are `regions[low..]`;
   * `maxLength` is the largest of them.
   */
  method FindLastFreeRegion(regions: seq<Region>, minLcn: nat, minLength: nat, terminated: nat -> bool)
    returns (k: Option<nat>, maxLength: nat, ghost low: nat)
    ensures low <= |regions| && Allowed(terminated, |regions| - low)
    ensures forall j :: low <= j < |regions| ==> regions[j].lcn >= minLcn
    ensures k.Some? ==> low == k.value < |regions| && regions[k.value].length >= minLength
    ensures k.None? ==> low == 0 || terminated(|regions| - low) || regions[low - 1].lcn < minLcn
    ensures forall j :: low <= j < |regions| && k != Some(j) ==> regions[j].length < minLength
    ensures forall j :: low <= j < |regions| ==> regions[j].length <= maxLength
    ensures maxLength == 0 || exists j :: low <= j < |regions| && regions[j].length == maxLength
  {
    maxLength := 0;
    var i := |regions|;
    while i > 0
      invariant 0 <= i <= |regions| && Allowed(terminated, |regions| - i)
      invariant forall j :: i <= j < |regions| ==> regions[j].lcn >= minLcn && regions[j].length < minLength
      invariant forall j :: i <= j < |regions| ==> regions[j].length <= maxLength
      invariant maxLength == 0 || exists j :: i <= j < |regions| && regions[j].length == maxLength
    {
      if terminated(|regions| - i) {
        return None, maxLength, i;
      }
      var r := regions[i - 1];
      if r.lcn < minLcn {
        return None, maxLength, i;
      }
      if r.length > maxLength {
        maxLength := r.length;
      }
      if r.length >= minLength {
        return Some(i - 1), maxLength, i - 1;
      }
      i := i - 1;
    }
    return None, maxLength, 0;
  }

  // ---------------------------------------------------------------------
  // find_largest_free_region
  // ---------------------------------------------------------------------

  /**
   * find_largest_free_region: the first region of the greatest length,
   * None for a list without a nonempty region, and None whenever the
   * router asks to stop.
   */
  method FindLargestFreeRegion(regions: seq<Region>, terminated: nat -> bool) returns (k: Option<nat>)
    ensures k.Some? <==> Allowed(terminated, |regions|) && exists j :: 0 <= j < |regions| && regions[j].length > 0
    ensures k.Some? ==> k.value < |regions|
    ensures k.Some? ==> forall j :: 0 <= j < |regions| ==> regions[j].length <= regions[k.value].length
    ensures k.Some? ==> forall j :: 0 <= j < k.value ==> regions[j].length < regions[k.value].length
  {
    var largest: Option<nat> := None;
    var length := 0;
    var i := 0;
    while i < |regions|
      invariant 0 <= i <= |regions| && Allowed(terminated, i)
      invariant largest.None? ==> length == 0 && forall j :: 0 <= j < i ==> regions[j].length == 0
      invariant largest.Some? ==> largest.value < i && length == regions[largest.value].length > 0
      invariant largest.Some? ==> forall j :: 0 <= j < i ==> regions[j].length <= length
      invariant largest.Some? ==> forall j :: 0 <= j < largest.value ==> regions[j].length < length
    {
      if terminated(i) {
        return None;
      }
      if regions[i].length > length {
        largest := Some(i);
        length := regions[i].length;
      }
      i := i + 1;
    }
    return largest;
  }

  // ---------------------------------------------------------------------
  // blocks_compare
  // ---------------------------------------------------------------------

  /** blocks_compare: the order of the file blocks tree, by LCN alone. */
  function BlocksCompare(a: Block, b: Block): (r: int)
    ensures r == -1 <==> a.lcn < b.lcn
    ensures r == 0 <==> a.lcn == b.lcn
    ensures r == 1 <==> a.lcn > b.lcn
  {
    if a.lcn < b.lcn then -1
    else if a.lcn == b.lcn then 0
    else 1
  }

  /** The comparison is antisymmetric and transitive, a total preorder on blocks. */
  lemma BlocksCompareOrder(a: Block, b: Block, c: Block)
    ensures BlocksCompare(a, b) == -BlocksCompare(b, a)
    ensures BlocksCompare(a, b) <= 0 && BlocksCompare(b, c) <= 0 ==> BlocksCompare(a, c) <= 0
    ensures BlocksCompare(a, a) == 0
  {
  }

  // ---------------------------------------------------------------------
  // find_first_block, slow path
  // ---------------------------------------------------------------------

  /** The movability test find_first_block uses: can_move_entirely or can_move. */
  function Movable(f: FileRec, skipPartiallyMovable: bool, ntfs: bool, isFat: bool): (r: (bool, FileRec))
    ensures r.0 ==> Move.CanMove(f).0
    ensures Locked in r.1.flags <==> Locked in f.flags
    ensures r.0 ==> Locked !in r.1.flags && Move.CanMove(r.1).0
    ensures r.1 == f.(flags := r.1.flags) && f.flags <= r.1.flags && NotLocked !in r.1.flags - f.flags
  {
    if skipPartiallyMovable then Move.CanMoveEntirely(f, ntfs, isFat) else Move.CanMove(f)
  }

  /** Block `bi` of file `f` is one the search may pick. */
  predicate Candidate(f: FileRec, bi: nat, minLcn: nat, isFat: bool)
    requires bi < |f.blocks|
  {
    f.blocks[bi].lcn >= minLcn && f.blocks[bi].length > 0 && !(isFat && f.directory && bi == 0)
  }

  /** Block `(fi, bi)` comes before block `(fj, bj)` in the walk. */
  predicate Before(fi: int, bi: int, fj: int, bj: int)
  {
    fi < fj || (fi == fj && bi < bj)
  }

  /** `(fi, bi)` is a candidate block of a movable file, at LCN `lcn`. */
  predicate Chosen(fs: seq<FileRec>, pos: (nat, nat), minLcn: nat, skip: bool, ntfs: bool, isFat: bool, lcn: nat)
  {
    var (fi, bi) := pos;
    fi < |fs| && Movable(fs[fi], skip, ntfs, isFat).0 &&
    bi < |fs[fi].blocks| && Candidate(fs[fi], bi, minLcn, isFat) && fs[fi].blocks[bi].lcn == lcn
  }

  /**
   * Candidate block `(fj, bj)` does not beat the choice: with nothing
   * chosen it lies at or past the end of the volume, otherwise at or
   * above the chosen block, and strictly above it when met first.
   */
  predicate NotBelow(fs: seq<FileRec>, found: Option<(nat, nat)>, fj: nat, bj: nat, totalClusters: nat)
    requires fj < |fs| && bj < |fs[fj].blocks|
  {
    match found
    case None => fs[fj].blocks[bj].lcn >= totalClusters
    case Some((fi, bi)) =>
      fi < |fs| && bi < |fs[fi].blocks| &&
      fs[fi].blocks[bi].lcn <= fs[fj].blocks[bj].lcn &&
      (Before(fj, bj, fi, bi) ==> fs[fi].blocks[bi].lcn < fs[fj].blocks[bj].lcn)
  }

  /**
   * `found` is the candidate block of a movable file with the least LCN
   * below `totalClusters`, the first one in the walk among equals, or
   * None when there is no such block.
   */
  predicate Least(fs: seq<FileRec>, found: Option<(nat, nat)>, minLcn: nat, skip: bool, ntfs: bool, isFat: bool,
                  totalClusters: nat)
  {
    && (found.Some? ==>
          var (fi, bi) := found.value;
          fi < |fs| && bi < |fs[fi].blocks| &&
          Chosen(fs, found.value, minLcn, skip, ntfs, isFat, fs[fi].blocks[bi].lcn) && fs[fi].blocks[bi].lcn < totalClusters)
    && forall fj, bj ::
         (0 <= fj < |fs| && 0 <= bj < |fs[fj].blocks| &&
          Movable(fs[fj], skip, ntfs, isFat).0 && Candidate(fs[fj], bj, minLcn, isFat)) ==>
           NotBelow(fs, found, fj, bj, totalClusters)
  }

  /**
   * One round of the slow search: every file is examined for movability,
   * which may set its flags, and the least candidate block is chosen.
   */
  method ScanFiles(files: seq<FileRec>, minLcn: nat, skipPartiallyMovable: bool, ntfs: bool, isFat: bool,
                   totalClusters: nat)
    returns (found: Option<(nat, nat)>, files': seq<FileRec>)
    ensures |files'| == |files|
    ensures forall i :: 0 <= i < |files| ==> files'[i] == Movable(files[i], skipPartiallyMovable, ntfs, isFat).1
    ensures Least(files, found, minLcn, skipPartiallyMovable, ntfs, isFat, totalClusters)
  {
    found := None;
    var lcn: nat := totalClusters;
    files' := files;
    var i := 0;
    while i < |files|
      invariant 0 <= i <= |files| && |files'| == |files|
      invariant forall j :: 0 <= j < i ==> files'[j] == Movable(files[j], skipPartiallyMovable, ntfs, isFat).1
      invariant found.Some? ==> Chosen(files, found.value, minLcn, skipPartiallyMovable, ntfs, isFat, lcn) && found.value.0 < i
      invariant found.None? ==> lcn == totalClusters
      invariant lcn <= totalClusters && (found.Some? ==> lcn < totalClusters)
      invariant SmallestSoFar(files, i, 0, found, lcn, minLcn, skipPartiallyMovable, ntfs, isFat)
    {
      var (movable, g) := Movable(files[i], skipPartiallyMovable, ntfs, isFat);
      files' := files'[i := g];
      if movable {
        found, lcn := ScanBlocks(files, i, found, lcn, minLcn, skipPartiallyMovable, ntfs, isFat, totalClusters);
      }
      SmallestNext(files, i, found, lcn, minLcn, skipPartiallyMovable, ntfs, isFat);
      i := i + 1;
    }
    SmallestLeast(files, found, lcn, minLcn, skipPartiallyMovable, ntfs, isFat, totalClusters);
  }

  /** The inner loop of the search: the blocks of movable file `i`, in order. */
  method ScanBlocks(fs: seq<FileRec>, i: nat, found: Option<(nat, nat)>, lcn: nat, minLcn: nat,
                    skip: bool, ntfs: bool, isFat: bool, totalClusters: nat)
    returns (found': Option<(nat, nat)>, lcn': nat)
    requires i < |fs| && Movable(fs[i], skip, ntfs, isFat).0
    requires found.Some? ==> Chosen(fs, found.value, minLcn, skip, ntfs, isFat, lcn) && found.value.0 < i
    requires found.None? ==> lcn == totalClusters
    requires lcn <= totalClusters && (found.Some? ==> lcn < totalClusters)
    requires SmallestSoFar(fs, i, 0, found, lcn, minLcn, skip, ntfs, isFat)
    ensures found'.Some? ==> Chosen(fs, found'.value, minLcn, skip, ntfs, isFat, lcn') && found'.value.0 <= i
    ensures found'.None? ==> lcn' == totalClusters
    ensures lcn' <= totalClusters && (found'.Some? ==> lcn' < totalClusters)
    ensures SmallestSoFar(fs, i, |fs[i].blocks|, found', lcn', minLcn, skip, ntfs, isFat)
  {
    found', lcn' := found, lcn;
    var b := 0;
    while b < |fs[i].blocks|
      invariant 0 <= b <= |fs[i].blocks|
      invariant found'.Some? ==> Chosen(fs, found'.value, minLcn, skip, ntfs, isFat, lcn') && found'.value.0 <= i
      invariant found'.Some? ==> Before(found'.value.0, found'.value.1, i, b)
      invariant found'.None? ==> lcn' == totalClusters
      invariant lcn' <= totalClusters && (found'.Some? ==> lcn' < totalClusters)
      invariant SmallestSoFar(fs, i, b, found', lcn', minLcn, skip, ntfs, isFat)
    {
      var blk := fs[i].blocks[b];
      ghost var (found0, lcn0) := (found', lcn');
      if blk.lcn >= minLcn && blk.lcn < lcn' && blk.length > 0 {
        if !isFat || !fs[i].directory || b != 0 {
          found', lcn' := Some((i, b)), blk.lcn;
        }
      }
      SmallestStep(fs, i, b, found0, lcn0, found', lcn', minLcn, skip, ntfs, isFat);
      b := b + 1;
    }
  }

  /** Past the last block of file `i` the next file begins. */
  lemma SmallestNext(fs: seq<FileRec>, i: nat, found: Option<(nat, nat)>, lcn: nat, minLcn: nat,
                     skip: bool, ntfs: bool, isFat: bool)
    requires i < |fs|
    requires SmallestSoFar(fs, i, if Movable(fs[i], skip, ntfs, isFat).0 then |fs[i].blocks| else 0, found, lcn, minLcn, skip, ntfs, isFat)
    ensures SmallestSoFar(fs, i + 1, 0, found, lcn, minLcn, skip, ntfs, isFat)
  {
    var b := if Movable(fs[i], skip, ntfs, isFat).0 then |fs[i].blocks| else 0;
    var next := i + 1;
    forall fj, bj | 0 <= fj < |fs| && 0 <= bj < |fs[fj].blocks|
      ensures Settled(fs, next, 0, found, lcn, minLcn, skip, ntfs, isFat, fj, bj)
    {
      assert Settled(fs, i, b, found, lcn, minLcn, skip, ntfs, isFat, fj, bj);
    }
  }

  /** Once every block has been looked at, the block chosen is the least one. */
  lemma SmallestLeast(fs: seq<FileRec>, found: Option<(nat, nat)>, lcn: nat, minLcn: nat, skip: bool, ntfs: bool,
                      isFat: bool, totalClusters: nat)
    requires SmallestSoFar(fs, |fs|, 0, found, lcn, minLcn, skip, ntfs, isFat)
    requires found.Some? ==> Chosen(fs, found.value, minLcn, skip, ntfs, isFat, lcn) && lcn < totalClusters
    requires found.None? ==> lcn == totalClusters
    ensures Least(fs, found, minLcn, skip, ntfs, isFat, totalClusters)
  {
    forall fj, bj | 0 <= fj < |fs| && 0 <= bj < |fs[fj].blocks| &&
         Movable(fs[fj], skip, ntfs, isFat).0 && Candidate(fs[fj], bj, minLcn, isFat)
      ensures NotBelow(fs, found, fj, bj, totalClusters)
    {
      assert Settled(fs, |fs|, 0, found, lcn, minLcn, skip, ntfs, isFat, fj, bj);
    }
  }

  /**
   * Every candidate block met before block `b` of file `i` lies at or
   * above `lcn`, and strictly above it when met before the chosen one.
   */
  predicate SmallestSoFar(fs: seq<FileRec>, i: nat, b: nat, found: Option<(nat, nat)>,
                          lcn: nat, minLcn: nat, skip: bool, ntfs: bool, isFat: bool)
  {
    forall fj, bj :: 0 <= fj < |fs| && 0 <= bj < |fs[fj].blocks| ==>
      Settled(fs, i, b, found, lcn, minLcn, skip, ntfs, isFat, fj, bj)
  }

  /** Block `(fj, bj)`, if met before block `b` of file `i` and a candidate, does not beat `lcn`. */
  predicate Settled(fs: seq<FileRec>, i: nat, b: nat, found: Option<(nat, nat)>,
                    lcn: nat, minLcn: nat, skip: bool, ntfs: bool, isFat: bool, fj: nat, bj: nat)
    requires fj < |fs| && bj < |fs[fj].blocks|
  {
    (Before(fj, bj, i, b) && Movable(fs[fj], skip, ntfs, isFat).0 && Candidate(fs[fj], bj, minLcn, isFat)) ==>
      fs[fj].blocks[bj].lcn >= lcn &&
      (found.Some? && Before(fj, bj, found.value.0, found.value.1) ==> fs[fj].blocks[bj].lcn > lcn)
  }

  /** Looking at block `b` of movable file `i` keeps SmallestSoFar. */
  lemma SmallestStep(fs: seq<FileRec>, i: nat, b: nat, found: Option<(nat, nat)>, lcn: nat,
                     found': Option<(nat, nat)>, lcn': nat, minLcn: nat, skip: bool, ntfs: bool, isFat: bool)
    requires i < |fs| && b < |fs[i].blocks| && Movable(fs[i], skip, ntfs, isFat).0
    requires SmallestSoFar(fs, i, b, found, lcn, minLcn, skip, ntfs, isFat)
    requires found.Some? ==> Before(found.value.0, found.value.1, i, b)
    requires if Candidate(fs[i], b, minLcn, isFat) && fs[i].blocks[b].lcn < lcn
             then found' == Some((i, b)) && lcn' == fs[i].blocks[b].lcn
             else found' == found && lcn' == lcn
    ensures SmallestSoFar(fs, i, b + 1, found', lcn', minLcn, skip, ntfs, isFat)
  {
    var next := b + 1;
    forall fj, bj | 0 <= fj < |fs| && 0 <= bj < |fs[fj].blocks|
      ensures Settled(fs, i, next, found', lcn', minLcn, skip, ntfs, isFat, fj, bj)
    {
      assert Settled(fs, i, b, found, lcn, minLcn, skip, ntfs, isFat, fj, bj);
    }
  }

  /** Files whose flags do not hold UD_FILE_LOCKED. */
  function Unlocked(fs: seq<FileRec>): nat
  {
    if fs == [] then 0 else (if Locked in fs[0].flags then 0 else 1) + Unlocked(fs[1..])
  }

  lemma {:induction false} UnlockedSame(a: seq<FileRec>, b: seq<FileRec>)
    requires |a| == |b| && forall i :: 0 <= i < |a| ==> (Locked in a[i].flags <==> Locked in b[i].flags)
    ensures Unlocked(a) == Unlocked(b)
  {
    if a != [] {
      UnlockedSame(a[1..], b[1..]);
    }
  }

  lemma {:induction false} UnlockedLock(a: seq<FileRec>, k: nat, g: FileRec)
    requires k < |a| && Locked !in a[k].flags && Locked in g.flags
    ensures Unlocked(a[k := g]) == Unlocked(a) - 1
  {
    if k > 0 {
      assert a[k := g][1..] == a[1..][k - 1 := g];
      UnlockedLock(a[1..], k - 1, g);
    } else {
      assert a[k := g][1..] == a[1..];
    }
  }

  /**
   * The slow path of find_first_block: rounds of ScanFiles until the
   * block found belongs to a file that is not locked. `opens(i)` is
   * whether file `i` can be opened; a locked file gets the flag and is
   * no longer movable, so the next round skips it. The router is asked
   * before each round; `rounds` counts the rounds begun and `before` is
   * the list as the last round found it. On success the minimum LCN
   * moves past the block; otherwise the file is None.
   */
  method FindFirstBlock(files: seq<FileRec>, minLcn: nat, skipPartiallyMovable: bool, ntfs: bool, isFat: bool,
                        totalClusters: nat, opens: nat -> bool, terminated: nat -> bool)
    returns (found: Option<(nat, nat)>, newMinLcn: nat, files': seq<FileRec>, rounds: nat, ghost before: seq<FileRec>)
    ensures |files'| == |files| == |before|
    ensures forall i :: 0 <= i < |files| ==> files'[i].blocks == files[i].blocks && files'[i].directory == files[i].directory
    ensures Allowed(terminated, rounds) && (rounds == 0 ==> before == files)
    ensures found.None? ==> newMinLcn == minLcn
    ensures found.None? ==> terminated(rounds) || Least(before, None, minLcn, skipPartiallyMovable, ntfs, isFat, totalClusters)
    ensures found.Some? ==>
      var (fi, bi) := found.value;
      && !terminated(rounds)
      && Least(before, found, minLcn, skipPartiallyMovable, ntfs, isFat, totalClusters)
      && fi < |files'| && bi < |files'[fi].blocks|
      && Move.CanMove(files'[fi]).0 && NotLocked in files'[fi].flags
      && newMinLcn == files'[fi].blocks[bi].lcn + 1
  {
    files' := files;
    before := files;
    rounds := 0;
    while !terminated(rounds)
      invariant |files'| == |files| == |before|
      invariant forall i :: 0 <= i < |files| ==> files'[i].blocks == files[i].blocks && files'[i].directory == files[i].directory
      invariant Allowed(terminated, rounds) && (rounds == 0 ==> before == files && files' == files)
      decreases Unlocked(files')
    {
      before := files';
      var pos, locked;
      pos, locked, files' := Round(files', minLcn, skipPartiallyMovable, ntfs, isFat, totalClusters, opens);
      if pos.None? {
        return None, minLcn, files', rounds, before;
      }
      if !locked {
        return pos, files'[pos.value.0].blocks[pos.value.1].lcn + 1, files', rounds, before;
      }
      rounds := rounds + 1;
    }
    return None, minLcn, files', rounds, before;
  }

  /**
   * The lock test of a movable file: a file found locked was not locked
   * before and now is; one found unlocked is still movable and has the
   * answer cached. Its map and kind stay as they were.
   */
  lemma LockTest(f: FileRec, skip: bool, ntfs: bool, isFat: bool, opens: bool)
    requires Movable(f, skip, ntfs, isFat).0
    ensures var g := Movable(f, skip, ntfs, isFat).1;
      var (locked, h) := Analyze.IsFileLocked(g, opens);
      && h.blocks == f.blocks && h.directory == f.directory
      && (!locked ==> Move.CanMove(h).0 && NotLocked in h.flags)
      && (locked ==> Locked in h.flags && Locked !in g.flags)
  {
    var g := Movable(f, skip, ntfs, isFat).1;
    var (locked, h) := Analyze.IsFileLocked(g, opens);
    if !locked && NotLocked !in g.flags {
      assert h == g.(flags := g.flags + {NotLocked});
      assert Move.CanMove(h).0 by {
        Move.CanMoveFlags(g);
      }
    }
  }

  /**
   * One round of find_first_block's slow path: the scan, then the lock
   * test of the file found. A locked file leaves fewer unlocked files.
   */
  method Round(files: seq<FileRec>, minLcn: nat, skipPartiallyMovable: bool, ntfs: bool, isFat: bool,
               totalClusters: nat, opens: nat -> bool)
    returns (found: Option<(nat, nat)>, locked: bool, files': seq<FileRec>)
    ensures Least(files, found, minLcn, skipPartiallyMovable, ntfs, isFat, totalClusters)
    ensures |files'| == |files|
    ensures forall i :: 0 <= i < |files| ==> files'[i].blocks == files[i].blocks && files'[i].directory == files[i].directory
    ensures found.Some? && locked ==> Unlocked(files') < Unlocked(files)
    ensures found.Some? && !locked ==> Move.CanMove(files'[found.value.0]).0 && NotLocked in files'[found.value.0].flags
    ensures found.Some? ==> locked == Analyze.IsFileLocked(Movable(files[found.value.0], skipPartiallyMovable, ntfs, isFat).1,
                                                          opens(found.value.0)).0
  {
    var scanned;
    found, scanned := ScanFiles(files, minLcn, skipPartiallyMovable, ntfs, isFat, totalClusters);
    files' := scanned;
    locked := false;
    if found.Some? {
      var fi := found.value.0;
      var g;
      locked, g := Analyze.IsFileLocked(scanned[fi], opens(fi)).0, Analyze.IsFileLocked(scanned[fi], opens(fi)).1;
      LockTest(files[fi], skipPartiallyMovable, ntfs, isFat, opens(fi));
      files' := scanned[fi := g];
      if locked {
        UnlockedSame(files, scanned);
        UnlockedLock(scanned, fi, g);
      }
    }
    forall i | 0 <= i < |files|
      ensures files'[i].blocks == files[i].blocks && files'[i].directory == files[i].directory
    {
      var m := Movable(files[i], skipPartiallyMovable, ntfs, isFat).1;
      assert scanned[i] == m && m == files[i].(flags := m.flags);
    }
  }
}
