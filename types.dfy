/**
 * Records and constants shared by the udefrag and zenwinx models.
 *
 * The C code keeps regions, blocks and files in circular doubly linked
 * lists; here every such list is a sequence in list order (head first).
 * Cluster numbers and lengths are ULONGLONG in C and unbounded here.
 */
module Types {

  datatype Option<T> = None | Some(value: T)

  /** A free space region: `winx_volume_region`. */
  datatype Region = Region(lcn: nat, length: nat)

  /** One block of a file's cluster map: `winx_blockmap`. */
  datatype Block = Block(vcn: nat, lcn: nat, length: nat)

  /**
   * A bit of the `user_defined_flags` of a file, with the values of the
   * header. MftFile and NotMftFile are the two answers `is_mft` caches,
   * given the next two bits here.
   */
  newtype FileFlag = x: nat | x < 0x1_0000
  const Excluded: FileFlag := 0x1
  const OverLimit: FileFlag := 0x2
  const Locked: FileFlag := 0x4
  const MovingFailed: FileFlag := 0x10
  const ImproperState: FileFlag := 0x20
  const CurrentlyExcluded: FileFlag := 0x40
  const NotLocked: FileFlag := 0x80
  const MovedToFront: FileFlag := 0x100
  const FragmentedByFileOpt: FileFlag := 0x200
  const ExcludedByPath: FileFlag := 0x400
  const EssentialDosFile: FileFlag := 0x800
  const RegionNotFound: FileFlag := 0x1000
  const MftFile: FileFlag := 0x2000
  const NotMftFile: FileFlag := 0x4000

  /**
   * A file of the volume: `winx_file_info` with its disposition.
   * `blocks` is the block map in VCN order (empty for a NULL map);
   * `fragmented`, `directory` and `compressed` stand for the opaque
   * `is_fragmented`, `is_directory` and `is_compressed` tests.
   */
  datatype FileRec = FileRec(
    path: string,
    name: string,
    flags: set<FileFlag>,
    blocks: seq<Block>,
    clusters: nat,
    fragments: nat,
    fragmented: bool,
    directory: bool,
    compressed: bool)

  /** The steps of `pi.current_operation` (udefrag_operation_type, src/dll/udefrag/udefrag.h). */
  datatype Operation = VolumeAnalysis | VolumeDefragmentation | VolumeOptimization

  /** `udefrag_job_type`. */
  datatype JobType = Analysis | Defragmentation | FullOptimization | QuickOptimization | MftOptimization

  /** `file_system_type`. */
  datatype FsType = FsUnknown | FsFat12 | FsFat16 | FsFat32 | FsExfat | FsNtfs | FsUdf

  /** Numeric value of each `file_system_type` constant. */
  function FsCode(t: FsType): (n: nat)
    ensures n <= 6
  {
    match t
    case FsUnknown => 0
    case FsFat12 => 1
    case FsFat16 => 2
    case FsFat32 => 3
    case FsExfat => 4
    case FsNtfs => 5
    case FsUdf => 6
  }

  /** Error codes of udefrag.h. */
  const UNKNOWN_ERROR: int := -1
  const W2K_4KB_CLUSTERS: int := -3
  const NO_MEM: int := -4
  const CDROM: int := -5
  const REMOTE: int := -6
  const ASSIGNED_BY_SUBST: int := -7
  const REMOVABLE: int := -8
  const UDF_DEFRAG: int := -9
  const DIRTY_VOLUME: int := -12

  /** `MAX_FILE_SIZE` is `(ULONGLONG) -1`. */
  const MAX_FILE_SIZE: nat := 0xFFFF_FFFF_FFFF_FFFF
  const DEFAULT_FRAGMENT_SIZE_THRESHOLD: nat := MAX_FILE_SIZE / 2

  /** Thresholds of udefrag-internals.h. */
  const PART_DEFRAG_MAGIC_CONSTANT: nat := 20 * 1024 * 1024
  const OPTIMIZER_MAGIC_CONSTANT: nat := 20 * 1024 * 1024
  const OPTIMIZER_MAGIC_CONSTANT_N: nat := 10

  /** Cluster map colours (`udefrag.h`), in precedence order. */
  const UNUSED_MAP_SPACE: nat := 0
  const FREE_SPACE: nat := 1
  const SYSTEM_SPACE: nat := 2
  const SYSTEM_OVER_LIMIT_SPACE: nat := 3
  const FRAGM_SPACE: nat := 4
  const FRAGM_OVER_LIMIT_SPACE: nat := 5
  const UNFRAGM_SPACE: nat := 6
  const UNFRAGM_OVER_LIMIT_SPACE: nat := 7
  const DIR_SPACE: nat := 8
  const DIR_OVER_LIMIT_SPACE: nat := 9
  const COMPRESSED_SPACE: nat := 10
  const COMPRESSED_OVER_LIMIT_SPACE: nat := 11
  const MFT_ZONE_SPACE: nat := 12
  const MFT_SPACE: nat := 13
  const NUM_OF_SPACE_STATES: nat := 14
  const DEFAULT_COLOR: nat := SYSTEM_SPACE

  /** Sum of the lengths of a block list. */
  function SumLengths(bs: seq<Block>): nat
  {
    if bs == [] then 0 else bs[0].length + SumLengths(bs[1..])
  }

  lemma {:induction false} SumLengthsAppend(a: seq<Block>, b: seq<Block>)
    ensures SumLengths(a + b) == SumLengths(a) + SumLengths(b)
  {
    if a == [] {
      assert a + b == b;
    } else {
      assert (a + b)[1..] == a[1..] + b;
      SumLengthsAppend(a[1..], b);
    }
  }

  /** ASCII `tolower`, as the C run-time does in the "C" locale. */
  function Lower(c: char): (l: char)
    ensures 'A' <= c <= 'Z' ==> l as int == c as int + 32
    ensures !('A' <= c <= 'Z') ==> l == c
  {
    if 'A' <= c <= 'Z' then (c as int + 32) as char else c
  }

  function LowerStr(s: string): (l: string)
    ensures |l| == |s| && forall i :: 0 <= i < |s| ==> l[i] == Lower(s[i])
  {
    if s == [] then [] else [Lower(s[0])] + LowerStr(s[1..])
  }

  /** ASCII `toupper`. */
  function Upper(c: char): (u: char)
    ensures 'a' <= c <= 'z' ==> u as int == c as int - 32
    ensures !('a' <= c <= 'z') ==> u == c
  {
    if 'a' <= c <= 'z' then (c as int - 32) as char else c
  }

  function UpperStr(s: string): (u: string)
    ensures |u| == |s| && forall i :: 0 <= i < |s| ==> u[i] == Upper(s[i])
  {
    if s == [] then [] else [Upper(s[0])] + UpperStr(s[1..])
  }

  /** Case-insensitive equality of `_stricmp`/`winx_wcsicmp`: equal after lowering. */
  predicate EqualsIgnoreCase(a: string, b: string)
  {
    LowerStr(a) == LowerStr(b)
  }

  /** `p` occurs in `s` at position `k`. */
  predicate StartsAt(s: string, p: string, k: int)
  {
    0 <= k && k + |p| <= |s| && s[k..k + |p|] == p
  }

  /** `s` contains `p` as a substring, as `strstr`/`wcsstr` find it. */
  predicate Contains(s: string, p: string)
  {
    exists k :: 0 <= k <= |s| && StartsAt(s, p, k)
  }

  /** Where `strstr` finds `p` in `s` at or after `i`, or -1. */
  function FirstIndexFrom(s: string, p: string, i: nat): (k: int)
    requires i <= |s| + 1
    ensures k == -1 || (i <= k && StartsAt(s, p, k))
    ensures forall j :: i <= j && (k == -1 || j < k) ==> !StartsAt(s, p, j)
    decreases |s| + 1 - i
  {
    if i > |s| then -1
    else if StartsAt(s, p, i) then i
    else FirstIndexFrom(s, p, i + 1)
  }

  /** The index `strstr` returns, as an offset from `s`, or -1 for NULL. */
  function FirstIndex(s: string, p: string): (k: int)
    ensures k == -1 <==> !Contains(s, p)
    ensures k >= 0 ==> StartsAt(s, p, k) && forall j :: 0 <= j < k ==> !StartsAt(s, p, j)
  {
    FirstIndexFrom(s, p, 0)
  }

  /** Decimal digits of a natural number, as `%u` prints it. */
  function NatToString(n: nat): (s: string)
    ensures |s| > 0
    ensures forall i :: 0 <= i < |s| ==> '0' <= s[i] <= '9'
    decreases n
  {
    if n < 10 then [(48 + n) as char] else NatToString(n / 10) + [(48 + n % 10) as char]
  }

  /** `%i`/`%d` of a signed integer. */
  function IntToString(n: int): (s: string)
    ensures |s| > 0
  {
    if n < 0 then "-" + NatToString(-n) else NatToString(n)
  }

  /** Lower-case hexadecimal digits, as `%x` prints them. */
  function HexDigit(d: nat): (c: char)
    requires d < 16
    ensures ('0' <= c <= '9') || ('a' <= c <= 'f')
  {
    if d < 10 then (48 + d) as char else (87 + d) as char
  }

  function NatToHex(n: nat): (s: string)
    ensures |s| > 0
    decreases n
  {
    if n < 16 then [HexDigit(n)] else NatToHex(n / 16) + [HexDigit(n % 16)]
  }

  const INT_MOD: int := 0x1_0000_0000

  /** A value stored in a 32-bit `int`: reduced modulo 2^32 into the signed range. */
  function Int32(x: int): (r: int)
    ensures -INT_MOD / 2 <= r < INT_MOD / 2
    ensures (r - x) % INT_MOD == 0
    ensures -INT_MOD / 2 <= x < INT_MOD / 2 ==> r == x
  {
    (x + INT_MOD / 2) % INT_MOD - INT_MOD / 2
  }

  function Max(a: int, b: int): (m: int)
    ensures m >= a && m >= b && (m == a || m == b)
  {
    if a >= b then a else b
  }

  function Min(a: int, b: int): (m: int)
    ensures m <= a && m <= b && (m == a || m == b)
  {
    if a <= b then a else b
  }
}
