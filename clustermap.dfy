/**
 * The cluster map of trunk/src/dll/udefrag/map.c. The volume is cut into
 * `map_size` cells; each cell counts how many of its clusters have each
 * of the NUM_OF_SPACE_STATES colours. When there are fewer clusters than
 * cells (the "opposite order"), each cluster covers `cells_per_cluster`
 * cells instead, and a cell holds a single 1 in the colour it shows.
 */
module ClusterMap {
  import opened Types

  // ---------------------------------------------------------------------
  // Geometry (allocate_map)
  // ---------------------------------------------------------------------

  /** The `cmap` fields allocate_map sets. */
  datatype Geometry = Geometry(
    mapSize: nat, fieldSize: nat, opposite: bool,
    clustersPerCell: nat, clustersPerLastCell: nat, cellsPerCluster: nat, unusedCells: nat)

  /** `a / b` rounded up, as allocate_map rounds: add one if the product misses. */
  function CeilDiv(a: nat, b: nat): (q: nat)
    requires b > 0
    ensures q * b >= a
    ensures q > 0 ==> (q - 1) * b < a
  {
    var d := a / b;
    DivIdentity(a, b);
    if d * b != a then d + 1 else d
  }

  lemma DivIdentity(a: nat, b: nat)
    requires b > 0
    ensures (a / b) * b <= a < (a / b) * b + b
    ensures (a / b) * b == a <==> a % b == 0
  {
    assert a == (a / b) * b + a % b;
  }

  /** Number of cells holding clusters, in normal order. */
  function UsedCells(g: Geometry): int
  {
    g.mapSize - g.unusedCells
  }

  /**
   * The identities the geometry keeps. In normal order the used cells
   * hold `clusters_per_cell` clusters each except the last used one,
   * which holds `clusters_per_last_cell`, between 1 and
   * `clusters_per_cell`. In opposite order every cluster covers
   * `cells_per_cluster` cells and the rest are unused.
   */
  ghost predicate GeometryOk(g: Geometry)
  {
    g.mapSize > 0 && g.fieldSize > 0 &&
    if !g.opposite then
      g.clustersPerCell > 0 && 1 <= UsedCells(g) <= g.mapSize &&
      g.clustersPerCell * (UsedCells(g) - 1) + g.clustersPerLastCell == g.fieldSize &&
      0 < g.clustersPerLastCell <= g.clustersPerCell
    else
      g.cellsPerCluster >= 1 && g.cellsPerCluster * g.fieldSize + g.unusedCells == g.mapSize
  }

  /** The geometry allocate_map computes for `mapSize` cells over `total` clusters. */
  function ComputeGeometry(mapSize: nat, total: nat): (g: Geometry)
    requires mapSize > 0 && total > 0
    ensures GeometryOk(g)
    ensures g.mapSize == mapSize && g.fieldSize == total
    ensures g.opposite <==> total < mapSize
    ensures !g.opposite ==> g.clustersPerCell == CeilDiv(total, mapSize)
    ensures g.opposite ==> g.cellsPerCluster == mapSize / total
  {
    DivAtLeastOne(total, mapSize);
    var cpc0 := total / mapSize;
    if cpc0 != 0 then
      var cpc := CeilDiv(total, mapSize);
      CeilBounds(total, mapSize, cpc);
      var used := CeilDiv(total, cpc);
      UsedFits(total, mapSize, cpc, used);
      Geometry(mapSize, total, false, cpc, total - cpc * (used - 1), 0, mapSize - used)
    else
      var cpcl := mapSize / total;
      DivAtLeastOne(mapSize, total);
      DivIdentity(mapSize, total);
      Geometry(mapSize, total, true, 0, 0, cpcl, mapSize - cpcl * total)
  }

  /** A quotient is at least 1 exactly when the dividend reaches the divisor. */
  lemma DivAtLeastOne(a: nat, b: nat)
    requires b > 0
    ensures a / b >= 1 <==> a >= b
  {
    DivIdentity(a, b);
    if a / b >= 1 {
      MulMono(1, a / b, b);
    }
  }

  /** With `cpc` clusters per cell, ceil(total/cpc) cells fit in the map. */
  lemma UsedFits(total: nat, mapSize: nat, cpc: nat, used: nat)
    requires mapSize > 0 && total >= mapSize && cpc == CeilDiv(total, mapSize) && cpc > 0
    requires used == CeilDiv(total, cpc)
    ensures 1 <= used <= mapSize
    ensures 0 < total - cpc * (used - 1) <= cpc
  {
    CeilBounds(total, mapSize, cpc);
    CeilBounds(total, cpc, used);
    if used > mapSize {
      MulMono(mapSize, used - 1, cpc);
    }
    MulSucc(used - 1, cpc);
  }

  /** The facts of a ceiling division `q` = ceil(a/b) of a positive `a`, with the products written out. */
  lemma CeilBounds(a: nat, b: nat, q: nat)
    requires a > 0 && b > 0 && q == CeilDiv(a, b)
    ensures q >= 1 && q * b >= a && b * q >= a && (q - 1) * b < a && b * (q - 1) < a
  {
  }

  lemma MulSucc(a: nat, c: nat)
    ensures (a + 1) * c == a * c + c && c * (a + 1) == c * a + c
  {
  }

  /**
   * A cell `cell` followed by `rest > 0` more clusters lies among the
   * `used` cells with `cpc` clusters each but a last one of `last`.
   */
  lemma CellBelow(cell: nat, cpc: nat, rest: nat, used: nat, last: nat, total: nat)
    requires used >= 1 && cpc * (used - 1) + last == total && last <= cpc
    requires cell * cpc + rest <= total && rest > 0
    ensures cell < used
  {
    MulSucc(used - 1, cpc);
    if cell >= used {
      MulMono(used, cell, cpc);
    }
  }

  lemma MulMono(a: nat, b: nat, c: nat)
    requires a <= b
    ensures a * c <= b * c
  {
    var d := b - a;
    assert b * c == a * c + d * c;
  }

  datatype AllocResult = Allocated(g: Geometry) | NothingAllocated | AllocError(code: int)

  /**
   * allocate_map: a map of size 0 is a success that allocates nothing;
   * a volume that cannot be queried (`total` None) or has no clusters
   * gives -1, and a failed allocation UDEFRAG_NO_MEM.
   */
  function AllocateMap(mapSize: nat, total: Option<nat>, memoryOk: bool): (r: AllocResult)
    ensures mapSize == 0 <==> r.NothingAllocated?
    ensures mapSize > 0 && (total.None? || total.value == 0) ==> r == AllocError(-1)
    ensures mapSize > 0 && total.Some? && total.value > 0 && !memoryOk ==> r == AllocError(NO_MEM)
    ensures r.Allocated? ==> total.Some? && GeometryOk(r.g) && r.g.mapSize == mapSize && r.g.fieldSize == total.value
  {
    if mapSize == 0 then NothingAllocated
    else if total.None? || total.value == 0 then AllocError(-1)
    else if !memoryOk then AllocError(NO_MEM)
    else Allocated(ComputeGeometry(mapSize, total.value))
  }

  // ---------------------------------------------------------------------
  // Cell contents
  // ---------------------------------------------------------------------

  /** What reset_cluster_map leaves in cell `i`, colour `c`. */
  function ResetCount(g: Geometry, i: nat, c: nat): nat
  {
    if !g.opposite then
      if c == DEFAULT_COLOR && i + 1 < UsedCells(g) then g.clustersPerCell
      else if c == DEFAULT_COLOR && i + 1 == UsedCells(g) then g.clustersPerLastCell
      else if c == UNUSED_MAP_SPACE && i >= UsedCells(g) then g.clustersPerCell
      else 0
    else
      if c == DEFAULT_COLOR && i < UsedCells(g) then 1
      else if c == UNUSED_MAP_SPACE && i >= UsedCells(g) then 1
      else 0
  }

  /** Sum of the counts of colour `c` over the first `k` cells after a reset. */
  function ResetColorSum(g: Geometry, c: nat, k: nat): nat
  {
    if k == 0 then 0 else ResetColorSum(g, c, k - 1) + ResetCount(g, k - 1, c)
  }

  lemma {:induction false} ResetDefaultPrefix(g: Geometry, k: nat)
    requires GeometryOk(g) && !g.opposite && k < UsedCells(g)
    ensures ResetColorSum(g, DEFAULT_COLOR, k) == g.clustersPerCell * k
  {
    if k > 0 {
      ResetDefaultPrefix(g, k - 1);
      assert g.clustersPerCell * k == g.clustersPerCell * (k - 1) + g.clustersPerCell;
    }
  }

  lemma {:induction false} ResetDefaultTail(g: Geometry, k: nat)
    requires GeometryOk(g) && UsedCells(g) <= k <= g.mapSize
    ensures ResetColorSum(g, DEFAULT_COLOR, k) == ResetColorSum(g, DEFAULT_COLOR, UsedCells(g))
  {
    if k > UsedCells(g) {
      ResetDefaultTail(g, k - 1);
    }
  }

  /**
   * After a reset the map accounts for every cluster of the volume once,
   * in the default colour (normal order); in opposite order each cluster
   * covers `cells_per_cluster` cells.
   */
  lemma ResetCountsVolume(g: Geometry)
    requires GeometryOk(g)
    ensures !g.opposite ==> ResetColorSum(g, DEFAULT_COLOR, g.mapSize) == g.fieldSize
    ensures g.opposite ==> ResetColorSum(g, DEFAULT_COLOR, g.mapSize) == g.cellsPerCluster * g.fieldSize
  {
    ResetDefaultTail(g, g.mapSize);
    if !g.opposite {
      ResetDefaultPrefix(g, UsedCells(g) - 1);
    } else {
      OppositeDefaultPrefix(g, UsedCells(g));
    }
  }

  lemma {:induction false} OppositeDefaultPrefix(g: Geometry, k: nat)
    requires GeometryOk(g) && g.opposite && k <= UsedCells(g)
    ensures ResetColorSum(g, DEFAULT_COLOR, k) == k
  {
    if k > 0 {
      OppositeDefaultPrefix(g, k - 1);
    }
  }

  /** Clusters of `[lcn, lcn + length)` inside cell `i` of `cpc` clusters. */
  function Overlap(i: nat, cpc: nat, lcn: nat, length: nat): nat
  {
    var lo := i * cpc;
    var hi := lo + cpc;
    var a := if lcn > lo then lcn else lo;
    var b := if lcn + length < hi then lcn + length else hi;
    if b > a then b - a else 0
  }

  /** The count colorize_map_region leaves in cell `i`, colour `c`, that held `v`. */
  function Recolored(g: Geometry, v: nat, i: nat, c: nat, lcn: nat, length: nat, newColor: nat, oldColor: nat): nat
  {
    if !g.opposite then
      var n := Overlap(i, g.clustersPerCell, lcn, length);
      if c == newColor then v + n
      else if c == oldColor && newColor != MFT_ZONE_SPACE then (if v >= n then v - n else 0)
      else v
    else if lcn * g.cellsPerCluster <= i < (lcn + length) * g.cellsPerCluster then
      if c == newColor then 1
      else if newColor != MFT_ZONE_SPACE then 0
      else v
    else v
  }

  /** The checks before colorize_map_region changes anything. */
  predicate Effective(total: nat, lcn: nat, length: nat, newColor: int, oldColor: int)
  {
    lcn < total && lcn + length <= total && length > 0 &&
    0 <= newColor < NUM_OF_SPACE_STATES as int &&
    (newColor != MFT_ZONE_SPACE as int ==> 0 <= oldColor < NUM_OF_SPACE_STATES as int) &&
    newColor != oldColor
  }

  // ---------------------------------------------------------------------
  // Overlap arithmetic
  // ---------------------------------------------------------------------

  /** The part of the range in the cell where the walk stands. */
  lemma OverlapAt(i: nat, cpc: nat, lcn: nat, length: nat, offset: nat, len: nat)
    requires cpc > 0 && offset < cpc
    requires i * cpc + offset + len == lcn + length
    requires i * cpc + offset == lcn || (offset == 0 && i * cpc >= lcn)
    ensures Overlap(i, cpc, lcn, length) == Min(len, cpc - offset)
  {
  }

  lemma NextStart(i: nat, cpc: nat)
    ensures (i + 1) * cpc == i * cpc + cpc
  {
  }

  /** Cells wholly before the range hold none of it. */
  lemma OverlapBefore(i: nat, cpc: nat, lcn: nat, length: nat)
    requires cpc > 0 && (i + 1) * cpc <= lcn
    ensures Overlap(i, cpc, lcn, length) == 0
  {
    assert (i + 1) * cpc == i * cpc + cpc;
  }

  /** Cells wholly after the range hold none of it. */
  lemma OverlapAfter(i: nat, j: nat, cpc: nat, lcn: nat, length: nat)
    requires cpc > 0 && j <= i && lcn + length <= j * cpc
    ensures Overlap(i, cpc, lcn, length) == 0
  {
    MulMono(j, i, cpc);
  }

  lemma OverlapBeforeAll(cell: nat, cpc: nat, lcn: nat, length: nat)
    requires cpc > 0 && cell * cpc <= lcn
    ensures forall i :: 0 <= i < cell ==> Overlap(i, cpc, lcn, length) == 0
  {
    forall i | 0 <= i < cell ensures Overlap(i, cpc, lcn, length) == 0 {
      MulMono(i + 1, cell, cpc);
      OverlapBefore(i, cpc, lcn, length);
    }
  }

  lemma OverlapAfterAll(cell: nat, cpc: nat, lcn: nat, length: nat)
    requires cpc > 0 && lcn + length <= cell * cpc
    ensures forall i :: cell <= i ==> Overlap(i, cpc, lcn, length) == 0
  {
    forall i | cell <= i ensures Overlap(i, cpc, lcn, length) == 0 {
      OverlapAfter(i, cell, cpc, lcn, length);
    }
  }

  /** Sum of the overlaps of the first `k` cells. */
  function OverlapSum(k: nat, cpc: nat, lcn: nat, length: nat): nat
  {
    if k == 0 then 0 else OverlapSum(k - 1, cpc, lcn, length) + Overlap(k - 1, cpc, lcn, length)
  }

  function Clip(x: nat, b: nat): nat { if x < b then x else b }

  lemma {:induction false} OverlapSumClip(k: nat, cpc: nat, lcn: nat, length: nat)
    requires cpc > 0
    ensures OverlapSum(k, cpc, lcn, length) == Clip(lcn + length, k * cpc) - Clip(lcn, k * cpc)
  {
    if k > 0 {
      OverlapSumClip(k - 1, cpc, lcn, length);
      assert k * cpc == (k - 1) * cpc + cpc;
    }
  }

  /** The cells of a map covering the range hold exactly `length` of its clusters between them. */
  lemma OverlapSumLength(k: nat, cpc: nat, lcn: nat, length: nat)
    requires cpc > 0 && lcn + length <= k * cpc
    ensures OverlapSum(k, cpc, lcn, length) == length
  {
    OverlapSumClip(k, cpc, lcn, length);
  }

  // ---------------------------------------------------------------------
  // The map object
  // ---------------------------------------------------------------------

  /** The cluster map of a job: its geometry and the count array. */
  class Map {
    var isAllocated: bool
    var geo: Geometry
    var cells: array2<nat>

    ghost predicate Valid()
      reads this
    {
      isAllocated ==> GeometryOk(geo) && cells.Length0 == geo.mapSize && cells.Length1 == NUM_OF_SPACE_STATES
    }

    constructor ()
      ensures Valid() && !isAllocated
    {
      isAllocated := false;
      geo := Geometry(0, 0, false, 0, 0, 0, 0);
      cells := new nat[0, NUM_OF_SPACE_STATES];
    }

    /** allocate_map: computes the geometry, allocates the counts and resets them. */
    method Allocate(mapSize: nat, total: Option<nat>, memoryOk: bool) returns (result: int)
      modifies this
      ensures Valid()
      ensures result == 0 <==> !AllocateMap(mapSize, total, memoryOk).AllocError?
      ensures AllocateMap(mapSize, total, memoryOk).AllocError? ==>
        result == AllocateMap(mapSize, total, memoryOk).code && !isAllocated
      ensures AllocateMap(mapSize, total, memoryOk).NothingAllocated? ==> !isAllocated
      ensures AllocateMap(mapSize, total, memoryOk).Allocated? ==>
        isAllocated && geo == AllocateMap(mapSize, total, memoryOk).g &&
        forall i, c :: 0 <= i < cells.Length0 && 0 <= c < cells.Length1 ==> cells[i, c] == ResetCount(geo, i, c)
    {
      isAllocated := false;
      var r := AllocateMap(mapSize, total, memoryOk);
      match r
      case NothingAllocated =>
        result := 0;
      case AllocError(code) =>
        result := code;
      case Allocated(g) =>
        geo := g;
        cells := new nat[g.mapSize, NUM_OF_SPACE_STATES];
        isAllocated := true;
        Reset();
        result := 0;
    }

    /** reset_cluster_map: every cell back to its reset counts. */
    method Reset()
      requires Valid()
      modifies cells
      ensures isAllocated ==> forall i, c :: 0 <= i < cells.Length0 && 0 <= c < cells.Length1 ==> cells[i, c] == ResetCount(geo, i, c)
      ensures !isAllocated ==> unchanged(cells)
    {
      if !isAllocated {
        return;
      }
      var m := geo.mapSize;
      for i := 0 to m
        invariant forall a, c :: 0 <= a < i && 0 <= c < NUM_OF_SPACE_STATES ==> cells[a, c] == ResetCount(geo, a, c)
      {
        for c := 0 to NUM_OF_SPACE_STATES
          invariant forall a, d :: 0 <= a < i && 0 <= d < NUM_OF_SPACE_STATES ==> cells[a, d] == ResetCount(geo, a, d)
          invariant forall d :: 0 <= d < c ==> cells[i, d] == ResetCount(geo, i, d)
        {
          cells[i, c] := ResetCount(geo, i, c);
        }
      }
    }

    /**
     * colorize_map_region: moves the clusters of `[lcn, lcn + length)`
     * from the old colour to the new one in every cell they fall into.
     * The old count never drops below zero; MFT_ZONE_SPACE as the new
     * colour leaves the old one alone. Invalid requests change nothing.
     */
    method Colorize(lcn: nat, length: nat, newColor: int, oldColor: int)
      requires Valid()
      modifies cells
      ensures !isAllocated || !Effective(geo.fieldSize, lcn, length, newColor, oldColor) ==> unchanged(cells)
      ensures isAllocated && Effective(geo.fieldSize, lcn, length, newColor, oldColor) ==>
        forall i, c :: 0 <= i < cells.Length0 && 0 <= c < cells.Length1 ==>
          cells[i, c] == Recolored(geo, old(cells[i, c]), i, c, lcn, length, newColor as nat,
            if oldColor >= 0 then oldColor as nat else NUM_OF_SPACE_STATES)
    {
      if !isAllocated || !Effective(geo.fieldSize, lcn, length, newColor, oldColor) {
        return;
      }
      var oc := if oldColor >= 0 then oldColor as nat else NUM_OF_SPACE_STATES;
      if !geo.opposite {
        ColorizeNormal(lcn, length, newColor as nat, oc);
      } else {
        ColorizeOpposite(lcn, length, newColor as nat, oc);
      }
    }

    /** The normal-order walk of colorize_map_region, cell by cell. */
    method ColorizeNormal(lcn: nat, length: nat, newColor: nat, oldColor: nat)
      requires Valid() && isAllocated && !geo.opposite
      requires Effective(geo.fieldSize, lcn, length, newColor, oldColor)
      modifies cells
      ensures forall i, c :: 0 <= i < cells.Length0 && 0 <= c < cells.Length1 ==>
        cells[i, c] == Recolored(geo, old(cells[i, c]), i, c, lcn, length, newColor, oldColor)
    {
      var cpc := geo.clustersPerCell;
      var cell, offset, len := WalkFullCells(lcn, length, newColor, oldColor);
      if len > 0 {
        LastCellFits(cell, offset, len, lcn, length);
        var n := Min(len, geo.clustersPerLastCell - offset);
        OverlapAt(cell, cpc, lcn, length, offset, len);
        RecolorOverlap(cell, n, lcn, length, newColor, oldColor);
        NextStart(cell, cpc);
        cell := cell + 1;
      }
      OverlapAfterAll(cell, cpc, lcn, length);
    }

    /**
     * The walk over every cell but the last: from the cell holding `lcn`,
     * each cell takes as many of the remaining clusters as it has room
     * for. It stops with clusters left only in the last cell of the map.
     */
    method WalkFullCells(lcn: nat, length: nat, newColor: nat, oldColor: nat) returns (cell: nat, offset: nat, len: nat)
      requires Valid() && isAllocated && !geo.opposite
      requires Effective(geo.fieldSize, lcn, length, newColor, oldColor)
      modifies cells
      ensures cell <= geo.mapSize && offset < geo.clustersPerCell
      ensures len > 0 ==> cell == geo.mapSize - 1
      ensures len > 0 ==> cell * geo.clustersPerCell + offset + len == lcn + length
      ensures len > 0 ==> cell * geo.clustersPerCell + offset == lcn || (offset == 0 && cell * geo.clustersPerCell >= lcn)
      ensures len == 0 ==> lcn + length <= cell * geo.clustersPerCell
      ensures forall i, c :: 0 <= i < cell && 0 <= c < NUM_OF_SPACE_STATES ==>
        cells[i, c] == Recolored(geo, old(cells[i, c]), i, c, lcn, length, newColor, oldColor)
      ensures forall i, c :: cell <= i < geo.mapSize && 0 <= c < NUM_OF_SPACE_STATES ==> cells[i, c] == old(cells[i, c])
    {
      var cpc := geo.clustersPerCell;
      var m := geo.mapSize;
      cell := lcn / cpc;
      offset := lcn % cpc;
      len := length;
      DivIdentity(lcn, cpc);
      ghost var start := cell * cpc;
      assert start + offset == lcn;
      OverlapBeforeAll(cell, cpc, lcn, length);
      CellBound(cell, offset, len, lcn, length);
      while cell < m - 1 && len > 0
        invariant cell <= m && offset < cpc && start == cell * cpc
        invariant len > 0 ==> start + offset + len == lcn + length
        invariant len > 0 ==> start + offset == lcn || (offset == 0 && start >= lcn)
        invariant len > 0 ==> cell < m
        invariant len == 0 ==> lcn + length <= start
        invariant forall i, c :: 0 <= i < cell && 0 <= c < NUM_OF_SPACE_STATES ==>
          cells[i, c] == Recolored(geo, old(cells[i, c]), i, c, lcn, length, newColor, oldColor)
        invariant forall i, c :: cell <= i < m && 0 <= c < NUM_OF_SPACE_STATES ==> cells[i, c] == old(cells[i, c])
      {
        var n := Min(len, cpc - offset);
        OverlapAt(cell, cpc, lcn, length, offset, len);
        RecolorOverlap(cell, n, lcn, length, newColor, oldColor);
        NextStart(cell, cpc);
        start := start + cpc;
        if len > cpc - offset {
          CellBound(cell + 1, 0, len - n, lcn, length);
        }
        len := len - n;
        cell := cell + 1;
        offset := 0;
      }
    }

    /** Recolours one cell of the normal-order walk by its overlap with the range. */
    method RecolorOverlap(cell: nat, n: nat, lcn: nat, length: nat, newColor: nat, oldColor: nat)
      requires Valid() && isAllocated && !geo.opposite && cell < cells.Length0
      requires Effective(geo.fieldSize, lcn, length, newColor, oldColor)
      requires n == Overlap(cell, geo.clustersPerCell, lcn, length)
      modifies cells
      ensures forall i, c :: 0 <= i < cells.Length0 && 0 <= c < cells.Length1 ==>
        cells[i, c] == if i == cell then Recolored(geo, old(cells[i, c]), i, c, lcn, length, newColor, oldColor)
                       else old(cells[i, c])
    {
      RecolorCell(cell, n, newColor, oldColor);
    }

    /** While the walk has clusters left, it stands inside the map. */
    lemma CellBound(cell: nat, offset: nat, len: nat, lcn: nat, length: nat)
      requires Valid() && isAllocated && !geo.opposite
      requires offset < geo.clustersPerCell && cell * geo.clustersPerCell + offset + len == lcn + length
      requires lcn + length <= geo.fieldSize && len > 0
      ensures cell < UsedCells(geo) <= geo.mapSize
    {
      CellBelow(cell, geo.clustersPerCell, offset + len, UsedCells(geo), geo.clustersPerLastCell, geo.fieldSize);
    }

    /** In the last cell of the map, the clusters left fit in its last-cell capacity. */
    lemma LastCellFits(cell: nat, offset: nat, len: nat, lcn: nat, length: nat)
      requires Valid() && isAllocated && !geo.opposite
      requires cell == geo.mapSize - 1 && offset < geo.clustersPerCell
      requires cell * geo.clustersPerCell + offset + len == lcn + length
      requires lcn + length <= geo.fieldSize && len > 0
      ensures len <= geo.clustersPerLastCell - offset && len <= geo.clustersPerCell - offset
    {
      var cpc := geo.clustersPerCell;
      CellBound(cell, offset, len, lcn, length);
      assert UsedCells(geo) == geo.mapSize;
      assert cell * cpc == cpc * (UsedCells(geo) - 1);
    }

    /** Adds `n` to the new colour of one cell and takes it from the old one, floored at 0. */
    method RecolorCell(cell: nat, n: nat, newColor: nat, oldColor: nat)
      requires Valid() && isAllocated && cell < cells.Length0
      requires newColor < NUM_OF_SPACE_STATES && newColor != oldColor
      requires newColor != MFT_ZONE_SPACE ==> oldColor < NUM_OF_SPACE_STATES
      modifies cells
      ensures forall i, c :: 0 <= i < cells.Length0 && 0 <= c < cells.Length1 ==>
        cells[i, c] ==
          if i != cell then old(cells[i, c])
          else if c == newColor then old(cells[i, c]) + n
          else if c == oldColor && newColor != MFT_ZONE_SPACE then (if old(cells[i, c]) >= n then old(cells[i, c]) - n else 0)
          else old(cells[i, c])
    {
      cells[cell, newColor] := cells[cell, newColor] + n;
      if newColor != MFT_ZONE_SPACE {
        var v := cells[cell, oldColor];
        cells[cell, oldColor] := if v >= n then v - n else 0;
      }
    }

    /** The opposite-order branch: every cell of the range shows the new colour alone. */
    method ColorizeOpposite(lcn: nat, length: nat, newColor: nat, oldColor: nat)
      requires Valid() && isAllocated && geo.opposite
      requires Effective(geo.fieldSize, lcn, length, newColor, oldColor)
      modifies cells
      ensures forall i, c :: 0 <= i < cells.Length0 && 0 <= c < cells.Length1 ==>
        cells[i, c] == Recolored(geo, old(cells[i, c]), i, c, lcn, length, newColor, oldColor)
    {
      var cpcl := geo.cellsPerCluster;
      var lo := lcn * cpcl;
      var ncells := length * cpcl;
      OppositeSpan(geo, lcn, length);
      for k := 0 to ncells
        invariant forall i, c :: 0 <= i < cells.Length0 && 0 <= c < NUM_OF_SPACE_STATES ==>
          cells[i, c] == if lo <= i < lo + k then Recolored(geo, old(cells[i, c]), i, c, lcn, length, newColor, oldColor)
                         else old(cells[i, c])
      {
        PaintCell(lo + k, newColor);
      }
    }

    /** One cell of the opposite-order branch shows the new colour alone. */
    method PaintCell(i: nat, newColor: nat)
      requires Valid() && isAllocated && i < cells.Length0 && newColor < NUM_OF_SPACE_STATES
      modifies cells
      ensures forall a, c :: 0 <= a < cells.Length0 && 0 <= c < cells.Length1 ==>
        cells[a, c] ==
          if a != i then old(cells[a, c])
          else if c == newColor then 1
          else if newColor != MFT_ZONE_SPACE then 0
          else old(cells[a, c])
    {
      if newColor != MFT_ZONE_SPACE {
        for j := 0 to NUM_OF_SPACE_STATES
          invariant forall a, c :: 0 <= a < cells.Length0 && 0 <= c < cells.Length1 ==>
            cells[a, c] == if a == i && c < j then 0 else old(cells[a, c])
        {
          cells[i, j] := 0;
        }
      }
      cells[i, newColor] := 1;
    }
  }

  /** In opposite order the cells of a range on the volume lie in the map. */
  lemma OppositeSpan(g: Geometry, lcn: nat, length: nat)
    requires GeometryOk(g) && g.opposite && lcn + length <= g.fieldSize
    ensures lcn * g.cellsPerCluster + length * g.cellsPerCluster == (lcn + length) * g.cellsPerCluster
    ensures (lcn + length) * g.cellsPerCluster <= g.mapSize
  {
    MulMono(lcn + length, g.fieldSize, g.cellsPerCluster);
  }

  // ---------------------------------------------------------------------
  // File colours
  // ---------------------------------------------------------------------

  /**
   * is_mft: never off NTFS; otherwise the cached answer, or else the
   * file whose path is 11 characters long and whose name contains
   * "$Mft" in any case, with the answer cached in the file's flags.
   */
  function IsMft(f: FileRec, ntfs: bool): (r: (bool, FileRec))
    ensures !ntfs ==> r == (false, f)
    ensures ntfs && NotMftFile in f.flags ==> r == (false, f)
    ensures ntfs && NotMftFile !in f.flags && MftFile in f.flags ==> r == (true, f)
    ensures ntfs && NotMftFile !in f.flags && MftFile !in f.flags ==>
      r.0 == (|f.path| == 11 && Contains(LowerStr(f.name), "$mft")) &&
      r.1 == f.(flags := f.flags + {if r.0 then MftFile else NotMftFile})
  {
    if !ntfs then (false, f)
    else if NotMftFile in f.flags then (false, f)
    else if MftFile in f.flags then (true, f)
    else if |f.path| == 11 && Contains(LowerStr(f.name), "$mft") then (true, f.(flags := f.flags + {MftFile}))
    else (false, f.(flags := f.flags + {NotMftFile}))
  }

  /** A second call of is_mft answers from the cache, the same way. */
  lemma IsMftCached(f: FileRec, ntfs: bool)
    ensures IsMft(IsMft(f, ntfs).1, ntfs) == (IsMft(f, ntfs).0, IsMft(f, ntfs).1)
  {
  }

  /**
   * get_file_color: MFT first, then locked files as system space, then
   * fragmented files that are not excluded, then directories,
   * compressed files and the rest, each in its over-limit variant when
   * the file is over the size limit.
   */
  function GetFileColor(f: FileRec, ntfs: bool): (r: (nat, FileRec))
  {
    var (mft, g) := IsMft(f, ntfs);
    var over := OverLimit in g.flags;
    var color :=
      if mft then MFT_SPACE
      else if Locked in g.flags then (if over then SYSTEM_OVER_LIMIT_SPACE else SYSTEM_SPACE)
      else if g.fragmented && Excluded !in g.flags then (if over then FRAGM_OVER_LIMIT_SPACE else FRAGM_SPACE)
      else if g.directory then (if over then DIR_OVER_LIMIT_SPACE else DIR_SPACE)
      else if g.compressed then (if over then COMPRESSED_OVER_LIMIT_SPACE else COMPRESSED_SPACE)
      else (if over then UNFRAGM_OVER_LIMIT_SPACE else UNFRAGM_SPACE);
    (color, g)
  }

  /**
   * A file is never drawn as free, unused or MFT zone space; apart from
   * the MFT, its colour is an over-limit variant (an odd number) exactly
   * when the file is over the limit, and the pair it belongs to is
   * decided by locks, fragmentation, and the directory and compressed
   * tests, in that order.
   */
  lemma FileColorSpec(f: FileRec, ntfs: bool)
    ensures var (color, g) := GetFileColor(f, ntfs);
      && SYSTEM_SPACE <= color <= MFT_SPACE && color != MFT_ZONE_SPACE
      && g == IsMft(f, ntfs).1
      && (color == MFT_SPACE <==> IsMft(f, ntfs).0)
      && (color != MFT_SPACE ==> (color % 2 == 1 <==> OverLimit in f.flags))
      && (color != MFT_SPACE ==> (color / 2 == 1 <==> Locked in f.flags))
      && (color != MFT_SPACE && Locked !in f.flags ==>
            (color / 2 == 2 <==> f.fragmented && Excluded !in f.flags))
  {
  }
}
