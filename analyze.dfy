/**
 * The volume analysis helpers of src/dll/udefrag/analyze.c: the volume
 * geometry checks, the file system name lookup, the number of clusters
 * moved at once, the file filters, the list of fragmented files and the
 * progress counters.
 */
module Analyze {
  import opened Types
  import Fragments

  // ---------------------------------------------------------------------
  // File system names
  // ---------------------------------------------------------------------

  /** One row of `fs_types`: name, type and whether it is a FAT file system. */
  datatype FsRow = FsRow(name: string, fsType: FsType, isFat: bool)

  const FS_TYPES: seq<FsRow> := [
    FsRow("NTFS", FsNtfs, false),
    FsRow("FAT12", FsFat12, true),
    FsRow("FAT", FsFat16, true),
    FsRow("FAT16", FsFat16, true),
    FsRow("FAT32", FsFat32, true),
    FsRow("EXFAT", FsExfat, true),
    FsRow("UDF", FsUdf, false)
  ]

  /** What each upper-case file system name stands for. */
  function FsByName(upper: string): (r: (FsType, bool))
  {
    if upper == "NTFS" then (FsNtfs, false)
    else if upper == "FAT12" then (FsFat12, true)
    else if upper == "FAT" || upper == "FAT16" then (FsFat16, true)
    else if upper == "FAT32" then (FsFat32, true)
    else if upper == "EXFAT" then (FsExfat, true)
    else if upper == "UDF" then (FsUdf, false)
    else (FsUnknown, false)
  }

  /**
   * The lookup of get_volume_information: the name is upper-cased and
   * compared with each row of `fs_types` in turn; the first equal row
   * gives the type, and no row leaves FS_UNKNOWN and `is_fat` = 0.
   */
  method LookupFsName(fsName: string) returns (fsType: FsType, isFat: bool)
    ensures (fsType, isFat) == FsByName(UpperStr(fsName))
    ensures fsType == FsUnknown ==> !isFat
  {
    var upper := UpperStr(fsName);
    fsType, isFat := FsUnknown, false;
    var i := 0;
    while i < |FS_TYPES|
      invariant 0 <= i <= |FS_TYPES|
      invariant forall k :: 0 <= k < i ==> FS_TYPES[k].name != upper
    {
      if upper == FS_TYPES[i].name {
        fsType, isFat := FS_TYPES[i].fsType, FS_TYPES[i].isFat;
        RowMeaning(i);
        return;
      }
      i := i + 1;
    }
    NoRow(upper);
  }

  /** Each row of `fs_types` agrees with FsByName. */
  lemma RowMeaning(i: nat)
    requires i < |FS_TYPES|
    ensures FsByName(FS_TYPES[i].name) == (FS_TYPES[i].fsType, FS_TYPES[i].isFat)
  {
    if i == 0 {
    } else if i == 1 {
    } else if i == 2 {
    } else if i == 3 {
    } else if i == 4 {
    } else if i == 5 {
    } else {
    }
  }

  /** A name in no row of `fs_types` is unknown to FsByName. */
  lemma NoRow(upper: string)
    requires forall k :: 0 <= k < |FS_TYPES| ==> FS_TYPES[k].name != upper
    ensures FsByName(upper) == (FsUnknown, false)
  {
    assert FS_TYPES[0].name != upper && FS_TYPES[1].name != upper && FS_TYPES[2].name != upper;
    assert FS_TYPES[3].name != upper && FS_TYPES[4].name != upper && FS_TYPES[5].name != upper;
    assert FS_TYPES[6].name != upper;
  }

  // ---------------------------------------------------------------------
  // Clusters moved at once
  // ---------------------------------------------------------------------

  const K256: nat := 256 * 1024
  const M4: nat := 4 * 1024 * 1024
  const M8: nat := 8 * 1024 * 1024
  const M16: nat := 16 * 1024 * 1024
  const M32: nat := 32 * 1024 * 1024
  const M64: nat := 64 * 1024 * 1024
  const G20: nat := 20 * 1024 * 1024 * 1024
  const G100: nat := 100 * 1024 * 1024 * 1024
  const G250: nat := 250 * 1024 * 1024 * 1024
  const T1: nat := 1024 * 1024 * 1024 * 1024
  const T2: nat := 2 * 1024 * 1024 * 1024 * 1024

  /** Bytes moved by one FSCTL_MOVE_FILE request, by device capacity. */
  function BytesAtOnce(capacity: nat, preXp: bool): (b: nat)
    ensures preXp ==> b == K256
    ensures K256 <= b <= M64
  {
    if preXp then K256
    else if capacity < G20 then K256
    else if capacity < G100 then M4
    else if capacity < G250 then M8
    else if capacity < T1 then M16
    else if capacity < T2 then M32
    else M64
  }

  /** adjust_move_at_once_parameter: the bytes in clusters, and never 0. */
  function ClustersAtOnce(capacity: nat, bytesPerCluster: nat, preXp: bool): (n: nat)
    requires bytesPerCluster > 0
    ensures n >= 1
    ensures BytesAtOnce(capacity, preXp) >= bytesPerCluster ==>
      n * bytesPerCluster <= BytesAtOnce(capacity, preXp) < (n + 1) * bytesPerCluster
    ensures BytesAtOnce(capacity, preXp) < bytesPerCluster ==> n == 1
  {
    var b := BytesAtOnce(capacity, preXp);
    DivBounds(b, bytesPerCluster);
    var c := b / bytesPerCluster;
    if c == 0 then 1 else c
  }

  lemma DivBounds(b: nat, d: nat)
    requires d > 0
    ensures (b / d) * d <= b < (b / d + 1) * d
    ensures b < d <==> b / d == 0
  {
    var q, r := b / d, b % d;
    assert b == q * d + r && 0 <= r < d;
    assert (q + 1) * d == q * d + d;
    if q > 0 {
      assert q * d >= d;
    }
  }

  /** A bigger device never moves fewer bytes at once. */
  lemma BytesAtOnceMonotone(c1: nat, c2: nat, preXp: bool)
    requires c1 <= c2
    ensures BytesAtOnce(c1, preXp) <= BytesAtOnce(c2, preXp)
  {
  }

  // ---------------------------------------------------------------------
  // Volume geometry
  // ---------------------------------------------------------------------

  /** What winx_get_volume_information reports. */
  datatype VolumeInfo = VolumeInfo(
    totalClusters: nat, bytesPerCluster: nat, isDirty: bool,
    fsName: string, deviceCapacity: nat, totalBytes: nat, freeBytes: nat)

  /** The job parameters get_volume_information sets. */
  datatype Geometry = Geometry(
    totalClusters: nat, bytesPerCluster: nat, fsType: FsType, isFat: bool,
    clustersAtOnce: nat, fragmentSizeThreshold: nat, clustersToProcess: nat)

  datatype VolumeResult = VolumeOk(g: Geometry) | VolumeError(code: int)

  /**
   * get_volume_information: `info` is None when the volume cannot be
   * queried. A fragment size threshold not above the cluster size is
   * ignored (set to 0).
   */
  function GetVolumeInformation(info: Option<VolumeInfo>, fst: nat, preXp: bool): (r: VolumeResult)
    ensures info.None? ==> r == VolumeError(-1)
    ensures info.Some? && info.value.isDirty ==> r == VolumeError(DIRTY_VOLUME)
    ensures info.Some? && !info.value.isDirty && (info.value.totalClusters == 0 || info.value.bytesPerCluster == 0)
      ==> r == VolumeError(-1)
    ensures r.VolumeOk? ==>
      && info.Some? && !info.value.isDirty
      && r.g.totalClusters == r.g.clustersToProcess == info.value.totalClusters > 0
      && r.g.bytesPerCluster == info.value.bytesPerCluster > 0
      && (r.g.fsType, r.g.isFat) == FsByName(UpperStr(info.value.fsName))
      && r.g.clustersAtOnce == ClustersAtOnce(info.value.deviceCapacity, info.value.bytesPerCluster, preXp)
      && r.g.fragmentSizeThreshold == (if fst <= info.value.bytesPerCluster then 0 else fst)
    ensures info.Some? && !info.value.isDirty && info.value.totalClusters > 0 && info.value.bytesPerCluster > 0
      ==> r.VolumeOk?
  {
    match info
    case None => VolumeError(-1)
    case Some(v) =>
      if v.isDirty then VolumeError(DIRTY_VOLUME)
      else if v.totalClusters == 0 || v.bytesPerCluster == 0 then VolumeError(-1)
      else
        var (t, fat) := FsByName(UpperStr(v.fsName));
        VolumeOk(Geometry(
          v.totalClusters, v.bytesPerCluster, t, fat,
          ClustersAtOnce(v.deviceCapacity, v.bytesPerCluster, preXp),
          if fst != 0 && fst <= v.bytesPerCluster then 0 else fst,
          v.totalClusters))
  }

  /**
   * check_region: the range lies inside the volume. The first cluster
   * must exist even for an empty range.
   */
  predicate CheckRegion(totalClusters: nat, lcn: nat, length: nat)
  {
    lcn < totalClusters && lcn + length <= totalClusters
  }

  /** Cluster `c` exists on a volume of `totalClusters` clusters. */
  predicate OnVolume(totalClusters: nat, c: int)
  {
    0 <= c < totalClusters
  }

  /** check_region holds exactly when the first cluster and every cluster of the range are on the volume. */
  lemma CheckRegionClusters(totalClusters: nat, lcn: nat, length: nat)
    ensures CheckRegion(totalClusters, lcn, length) <==>
      OnVolume(totalClusters, lcn) && forall c :: lcn <= c < lcn + length ==> OnVolume(totalClusters, c)
  {
    if OnVolume(totalClusters, lcn) && length > 0 && (forall c :: lcn <= c < lcn + length ==> OnVolume(totalClusters, c)) {
      assert OnVolume(totalClusters, lcn + length - 1);
    }
  }

  // ---------------------------------------------------------------------
  // File filters
  // ---------------------------------------------------------------------

  /** Every fragment of the map is at least `fst` bytes long. */
  predicate AllFragmentsLarge(blocks: seq<Block>, bytesPerCluster: nat, fst: nat)
  {
    AllLarge(Fragments.Fragments(blocks), bytesPerCluster, fst)
  }

  /**
   * exclude_by_fragment_size: the file is excluded when a real threshold
   * is set by the user and every fragment reaches it; it is kept as soon
   * as one contiguous run is smaller.
   */
  method ExcludeByFragmentSize(blocks: seq<Block>, fst: nat, algorithmDefinedFst: bool, bytesPerCluster: nat)
    returns (excluded: bool)
    ensures excluded <==>
      fst != DEFAULT_FRAGMENT_SIZE_THRESHOLD && !algorithmDefinedFst && blocks != [] &&
      AllFragmentsLarge(blocks, bytesPerCluster, fst)
  {
    if fst == DEFAULT_FRAGMENT_SIZE_THRESHOLD || algorithmDefinedFst || blocks == [] {
      return false;
    }
    var size: nat := blocks[0].length;
    ghost var fragments: seq<Block> := [];
    ghost var vcn: nat, lcn: nat := blocks[0].vcn, blocks[0].lcn;
    Fragments.ProgressStart(blocks);
    var i := 1;
    while i < |blocks|
      invariant 1 <= i <= |blocks|
      invariant Fragments.Progress(blocks, i, fragments, vcn, lcn, size)
      invariant AllLarge(fragments, bytesPerCluster, fst)
    {
      var small;
      fragments, vcn, lcn, size, small := ScanBlock(blocks, i, fragments, vcn, lcn, size, bytesPerCluster, fst);
      if small {
        return false;
      }
      i := i + 1;
    }
    excluded := size == 0 || size * bytesPerCluster >= fst;
    LastFragment(blocks, fragments, vcn, lcn, size, bytesPerCluster, fst);
  }

  /**
   * One step of the walk of exclude_by_fragment_size: block `i` extends
   * the open run or closes it, and a closed run below the threshold
   * stops the walk.
   */
  method ScanBlock(blocks: seq<Block>, i: nat, ghost fragments: seq<Block>, ghost vcn: nat, ghost lcn: nat, size: nat,
                   bytesPerCluster: nat, fst: nat)
    returns (ghost fragments': seq<Block>, ghost vcn': nat, ghost lcn': nat, size': nat, small: bool)
    requires 1 <= i < |blocks| && Fragments.Progress(blocks, i, fragments, vcn, lcn, size)
    requires AllLarge(fragments, bytesPerCluster, fst)
    ensures small ==> !AllFragmentsLarge(blocks, bytesPerCluster, fst)
    ensures !small ==> Fragments.Progress(blocks, i + 1, fragments', vcn', lcn', size')
    ensures !small ==> AllLarge(fragments', bytesPerCluster, fst)
  {
    var b := blocks[i];
    small := false;
    if b.lcn == blocks[i - 1].lcn + blocks[i - 1].length {
      Fragments.ProgressJoin(blocks, i, fragments, vcn, lcn, size);
      fragments', vcn', lcn', size' := fragments, vcn, lcn, size + b.length;
    } else {
      Fragments.ProgressBreak(blocks, i, fragments, vcn, lcn, size);
      fragments' := fragments + (if size > 0 then [Block(vcn, lcn, size)] else []);
      vcn', lcn', size' := b.vcn, b.lcn, b.length;
      if size > 0 {
        if size * bytesPerCluster < fst {
          SmallBefore(blocks, i + 1, fragments, Block(vcn, lcn, size), b, bytesPerCluster, fst);
          small := true;
          return;
        }
        LargeSnoc(fragments, Block(vcn, lcn, size), bytesPerCluster, fst);
      }
    }
  }

  /** A small fragment closed before block `i - 1` settles the answer. */
  lemma SmallBefore(blocks: seq<Block>, i: nat, fragments: seq<Block>, f: Block, b: Block, bytesPerCluster: nat, fst: nat)
    requires 1 <= i <= |blocks| && Fragments.Progress(blocks, i, fragments + [f], b.vcn, b.lcn, b.length)
    requires f.length * bytesPerCluster < fst
    ensures !AllFragmentsLarge(blocks, bytesPerCluster, fst)
  {
    Fragments.CompletedPrefix(blocks, i, fragments + [f], b.vcn, b.lcn, b.length);
    SmallFragment(blocks, fragments, f, bytesPerCluster, fst);
  }

  /** After the last block, the run still open decides the answer. */
  lemma LastFragment(blocks: seq<Block>, fragments: seq<Block>, vcn: nat, lcn: nat, size: nat, bytesPerCluster: nat, fst: nat)
    requires blocks != [] && Fragments.Progress(blocks, |blocks|, fragments, vcn, lcn, size)
    requires AllLarge(fragments, bytesPerCluster, fst)
    ensures AllFragmentsLarge(blocks, bytesPerCluster, fst) <==> size == 0 || size * bytesPerCluster >= fst
  {
    Fragments.ProgressDone(blocks, fragments, vcn, lcn, size);
    if size > 0 {
      if size * bytesPerCluster < fst {
        SmallFragment(blocks, fragments, Block(vcn, lcn, size), bytesPerCluster, fst);
      } else {
        LargeSnoc(fragments, Block(vcn, lcn, size), bytesPerCluster, fst);
      }
    } else {
      assert fragments + [] == fragments;
    }
  }

  /** Every fragment in `fs` reaches the threshold. */
  predicate AllLarge(fs: seq<Block>, bytesPerCluster: nat, fst: nat)
  {
    forall k :: 0 <= k < |fs| ==> fs[k].length * bytesPerCluster >= fst
  }

  lemma LargeSnoc(fs: seq<Block>, f: Block, bytesPerCluster: nat, fst: nat)
    requires AllLarge(fs, bytesPerCluster, fst) && f.length * bytesPerCluster >= fst
    ensures AllLarge(fs + [f], bytesPerCluster, fst)
  {
    assert forall k :: 0 <= k < |fs| ==> (fs + [f])[k] == fs[k];
  }

  /** A fragment of the map that is found small. */
  lemma SmallFragment(blocks: seq<Block>, fragments: seq<Block>, f: Block, bytesPerCluster: nat, fst: nat)
    requires fragments + [f] <= Fragments.Fragments(blocks)
    requires f.length * bytesPerCluster < fst
    ensures !AllFragmentsLarge(blocks, bytesPerCluster, fst)
  {
    assert Fragments.Fragments(blocks)[|fragments|] == (fragments + [f])[|fragments|];
  }

  /** exclude_by_fragments: only files with fewer fragments than a nonzero limit. */
  predicate ExcludeByFragments(fragments: nat, limit: nat)
  {
    limit != 0 && fragments < limit
  }

  /**
   * exclude_by_size: the file is excluded exactly when it is larger than
   * the size limit, and UD_FILE_OVER_LIMIT is set exactly then.
   */
  function ExcludeBySize(f: FileRec, bytesPerCluster: nat, sizeLimit: nat): (r: (bool, FileRec))
    ensures r.0 <==> f.clusters * bytesPerCluster > sizeLimit
    ensures OverLimit in r.1.flags <==> r.0
    ensures r.1.flags - {OverLimit} == f.flags - {OverLimit}
    ensures r.1 == f.(flags := r.1.flags)
  {
    var cleared := f.(flags := f.flags - {OverLimit});
    if f.clusters * bytesPerCluster > sizeLimit then (true, cleared.(flags := cleared.flags + {OverLimit}))
    else (false, cleared)
  }

  // ---------------------------------------------------------------------
  // Locked files
  // ---------------------------------------------------------------------

  /**
   * is_file_locked: the cached answer of an earlier call, or else whether
   * the file can be opened for moving (`opens`), which is then cached.
   */
  function IsFileLocked(f: FileRec, opens: bool): (r: (bool, FileRec))
    ensures NotLocked in f.flags ==> r == (false, f)
    ensures NotLocked !in f.flags && Locked in f.flags ==> r == (true, f)
    ensures NotLocked !in f.flags && Locked !in f.flags ==>
      r.0 == !opens && r.1 == f.(flags := f.flags + {if opens then NotLocked else Locked})
  {
    if NotLocked in f.flags then (false, f)
    else if Locked in f.flags then (true, f)
    else if opens then (false, f.(flags := f.flags + {NotLocked}))
    else (true, f.(flags := f.flags + {Locked}))
  }

  /** Once asked, the answer is cached: asking again gives it whatever the file system says. */
  lemma IsFileLockedCached(f: FileRec, opens: bool, again: bool)
    ensures IsFileLocked(IsFileLocked(f, opens).1, again) == (IsFileLocked(f, opens).0, IsFileLocked(f, opens).1)
  {
  }

  // ---------------------------------------------------------------------
  // The list of fragmented files
  // ---------------------------------------------------------------------

  /** An entry of the fragmented files list: a file and its fragment count. */
  datatype Entry = Entry(file: nat, fragments: nat)

  /** The list is ordered by non-increasing fragment count. */
  predicate Sorted(s: seq<Entry>)
  {
    forall i, j :: 0 <= i < j < |s| ==> s[i].fragments >= s[j].fragments
  }

  /** Where expand_fragmented_files_list puts a file with `n` fragments: before the first entry with at most `n`. */
  function InsertPosition(s: seq<Entry>, n: nat): (k: nat)
    ensures k <= |s|
    ensures forall i :: 0 <= i < k ==> s[i].fragments > n
    ensures k < |s| ==> s[k].fragments <= n
  {
    if s == [] || s[0].fragments <= n then 0 else 1 + InsertPosition(s[1..], n)
  }

  lemma InsertKeepsSorted(s: seq<Entry>, e: Entry)
    requires Sorted(s)
    ensures var k := InsertPosition(s, e.fragments); Sorted(s[..k] + [e] + s[k..])
  {
    var k := InsertPosition(s, e.fragments);
    var t := s[..k] + [e] + s[k..];
    forall i, j | 0 <= i < j < |t| ensures t[i].fragments >= t[j].fragments {
      if j < k {
        assert t[i] == s[i] && t[j] == s[j];
      } else if j == k {
        assert t[i] == s[i];
      } else if i < k {
        assert t[i] == s[i] && t[j] == s[j - 1];
      } else if i == k {
        assert t[j] == s[j - 1];
      } else {
        assert t[i] == s[i - 1] && t[j] == s[j - 1];
      }
    }
  }

  /** The list of fragmented files of a job, which the routines edit in place. */
  class FragmentedFiles {
    var entries: seq<Entry>

    constructor ()
      ensures entries == []
    {
      entries := [];
    }

    /**
     * expand_fragmented_files_list: an excluded file is skipped; any
     * other is inserted before the first entry with no more fragments
     * than it has, or at the end.
     */
    method Expand(file: nat, fragments: nat, excluded: bool)
      modifies this
      ensures excluded ==> entries == old(entries)
      ensures !excluded ==> var k := InsertPosition(old(entries), fragments);
        entries == old(entries)[..k] + [Entry(file, fragments)] + old(entries)[k..]
      ensures multiset(entries) == multiset(old(entries)) + (if excluded then multiset{} else multiset{Entry(file, fragments)})
      ensures Sorted(old(entries)) ==> Sorted(entries)
    {
      if excluded {
        return;
      }
      var i := 0;
      while i < |entries| && entries[i].fragments > fragments
        invariant 0 <= i <= |entries|
        invariant forall k :: 0 <= k < i ==> entries[k].fragments > fragments
      {
        i := i + 1;
      }
      assert i == InsertPosition(entries, fragments) by {
        InsertPositionUnique(entries, fragments, i);
      }
      ghost var s := entries;
      entries := entries[..i] + [Entry(file, fragments)] + entries[i..];
      assert s == s[..i] + s[i..];
      if Sorted(s) {
        InsertKeepsSorted(s, Entry(file, fragments));
      }
    }

    /** truncate_fragmented_files_list: removes the first entry of the file, if any. */
    method Truncate(file: nat)
      modifies this
      ensures FirstOf(old(entries), file) == |old(entries)| ==> entries == old(entries)
      ensures var k := FirstOf(old(entries), file);
        k < |old(entries)| ==> entries == old(entries)[..k] + old(entries)[k + 1..]
      ensures Sorted(old(entries)) ==> Sorted(entries)
    {
      var i := 0;
      while i < |entries| && entries[i].file != file
        invariant 0 <= i <= |entries|
        invariant forall k :: 0 <= k < i ==> entries[k].file != file
      {
        i := i + 1;
      }
      assert i == FirstOf(entries, file) by {
        FirstOfUnique(entries, file, i);
      }
      if i < |entries| {
        ghost var s := entries;
        entries := entries[..i] + entries[i + 1..];
        forall a, b | 0 <= a < b < |entries| ensures entries[a].fragments >= entries[b].fragments || !Sorted(s) {
          if Sorted(s) {
            var a' := if a < i then a else a + 1;
            var b' := if b < i then b else b + 1;
            assert entries[a] == s[a'] && entries[b] == s[b'];
          }
        }
      }
    }
  }

  /** Position of the first entry of `file`, or the length when there is none. */
  function FirstOf(s: seq<Entry>, file: nat): (k: nat)
    ensures k <= |s|
    ensures forall i :: 0 <= i < k ==> s[i].file != file
    ensures k < |s| ==> s[k].file == file
  {
    if s == [] then 0 else if s[0].file == file then 0 else 1 + FirstOf(s[1..], file)
  }

  lemma InsertPositionUnique(s: seq<Entry>, n: nat, i: nat)
    requires i <= |s|
    requires forall k :: 0 <= k < i ==> s[k].fragments > n
    requires i < |s| ==> s[i].fragments <= n
    ensures i == InsertPosition(s, n)
  {
  }

  lemma FirstOfUnique(s: seq<Entry>, file: nat, i: nat)
    requires i <= |s|
    requires forall k :: 0 <= k < i ==> s[k].file != file
    requires i < |s| ==> s[i].file == file
    ensures i == FirstOf(s, file)
  {
  }

  // ---------------------------------------------------------------------
  // Progress counters
  // ---------------------------------------------------------------------

  const SMALL_FILE_SIZE: nat := 10 * 1024
  const AVERAGE_FILE_SIZE: nat := 100 * 1024
  const BIG_FILE_SIZE: nat := 1024 * 1024
  const HUGE_FILE_SIZE: nat := 16 * 1024 * 1024
  const GIANT_FILE_SIZE: nat := 128 * 1024 * 1024

  /** Lower bounds of the size classes tiny, small, average, big, huge and giant. */
  const CLASS_FLOOR: seq<nat> := [0, SMALL_FILE_SIZE, AVERAGE_FILE_SIZE, BIG_FILE_SIZE, HUGE_FILE_SIZE, GIANT_FILE_SIZE]

  /** The size class update_progress_counters counts a file of `size` bytes in. */
  function SizeClass(size: nat): (k: nat)
    ensures k < 6
    ensures CLASS_FLOOR[k] <= size
    ensures k < 5 ==> size < CLASS_FLOOR[k + 1]
  {
    if size >= GIANT_FILE_SIZE then 5
    else if size >= HUGE_FILE_SIZE then 4
    else if size >= BIG_FILE_SIZE then 3
    else if size >= AVERAGE_FILE_SIZE then 2
    else if size >= SMALL_FILE_SIZE then 1
    else 0
  }

  /** The size classes do not overlap: a file belongs to exactly one. */
  lemma SizeClassUnique(size: nat, k: nat)
    requires k < 6 && CLASS_FLOOR[k] <= size && (k < 5 ==> size < CLASS_FLOOR[k + 1])
    ensures SizeClass(size) == k
  {
  }

  /** The file counters of the progress information. */
  class Counters {
    var files: nat
    var directories: nat
    var compressed: nat
    var processedClusters: nat
    /** Counts of tiny, small, average, big, huge and giant files. */
    var classes: seq<nat>

    ghost predicate Valid()
      reads this
    {
      |classes| == 6
    }

    constructor ()
      ensures Valid()
      ensures files == directories == compressed == processedClusters == 0
      ensures classes == [0, 0, 0, 0, 0, 0]
    {
      files, directories, compressed, processedClusters := 0, 0, 0, 0;
      classes := [0, 0, 0, 0, 0, 0];
    }

    /** update_progress_counters: counts the file once, and in exactly one size class. */
    method UpdateProgressCounters(f: FileRec, bytesPerCluster: nat)
      requires Valid()
      modifies this
      ensures Valid()
      ensures files == old(files) + 1
      ensures directories == old(directories) + (if f.directory then 1 else 0)
      ensures compressed == old(compressed) + (if f.compressed then 1 else 0)
      ensures processedClusters == old(processedClusters) + f.clusters
      ensures var k := SizeClass(f.clusters * bytesPerCluster);
        classes == old(classes)[k := old(classes)[k] + 1]
    {
      files := files + 1;
      if f.directory {
        directories := directories + 1;
      }
      if f.compressed {
        compressed := compressed + 1;
      }
      processedClusters := processedClusters + f.clusters;
      var size := f.clusters * bytesPerCluster;
      var k := SizeClass(size);
      classes := classes[k := classes[k] + 1];
    }
  }
}
