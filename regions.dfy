/**
 * The free space region list of zenwinx (src/dll/zenwinx/volume.c):
 * the bitmap scan that builds it, and the routines that add a range of
 * clusters to it and subtract a range from it.
 */
module Regions {
  import opened Types

  function End(r: Region): nat { r.lcn + r.length }

  /**
   * The invariant of a free region list: every region is nonempty, and the
   * regions ascend without overlapping or touching, so that each region is
   * a maximal run of free clusters.
   */
  predicate Valid(s: seq<Region>)
  {
    (forall i :: 0 <= i < |s| ==> s[i].length > 0) &&
    (forall i, j :: 0 <= i < j < |s| ==> Precedes(s, i, j))
  }

  /** Region `i` ends strictly before region `j` starts. */
  predicate Precedes(s: seq<Region>, i: int, j: int)
    requires 0 <= i < |s| && 0 <= j < |s|
  {
    End(s[i]) < s[j].lcn
  }

  /** Cluster `c` lies in one of the regions. */
  predicate Covers(s: seq<Region>, c: int)
  {
    exists i :: 0 <= i < |s| && s[i].lcn <= c < End(s[i])
  }

  /** The range `[lcn, lcn + length)` shares no cluster with any region. */
  predicate Apart(s: seq<Region>, lcn: nat, length: nat)
  {
    forall i :: 0 <= i < |s| ==> End(s[i]) <= lcn || s[i].lcn >= lcn + length
  }

  // ---------------------------------------------------------------------
  // Facts about Valid and Covers on concatenations.
  // ---------------------------------------------------------------------

  lemma CoversAppend(a: seq<Region>, b: seq<Region>, c: int)
    ensures Covers(a + b, c) <==> Covers(a, c) || Covers(b, c)
  {
    if Covers(a + b, c) {
      var i :| 0 <= i < |a + b| && (a + b)[i].lcn <= c < End((a + b)[i]);
      if i < |a| {
        assert a[i] == (a + b)[i];
      } else {
        assert b[i - |a|] == (a + b)[i];
      }
    }
    if Covers(a, c) {
      var i :| 0 <= i < |a| && a[i].lcn <= c < End(a[i]);
      assert (a + b)[i] == a[i];
    }
    if Covers(b, c) {
      var i :| 0 <= i < |b| && b[i].lcn <= c < End(b[i]);
      assert (a + b)[|a| + i] == b[i];
    }
  }

  lemma CoversSingle(x: Region, c: int)
    ensures Covers([x], c) <==> x.lcn <= c < End(x)
  {
    if x.lcn <= c < End(x) {
      assert [x][0] == x;
    }
  }

  /** Covers of `a + [x] + b` splits into its three parts. */
  lemma CoversSplice(a: seq<Region>, x: Region, b: seq<Region>, c: int)
    ensures Covers(a + [x] + b, c) <==> Covers(a, c) || (x.lcn <= c < End(x)) || Covers(b, c)
  {
    CoversAppend(a + [x], b, c);
    CoversAppend(a, [x], c);
    CoversSingle(x, c);
  }

  lemma ValidAppend(a: seq<Region>, b: seq<Region>)
    requires Valid(a) && Valid(b)
    requires |a| > 0 && |b| > 0 ==> End(a[|a| - 1]) < b[0].lcn
    ensures Valid(a + b)
  {
    var t := a + b;
    forall i, j | 0 <= i < j < |t|
      ensures Precedes(t, i, j)
    {
      if j < |a| {
        assert t[i] == a[i] && t[j] == a[j];
        assert Precedes(a, i, j);
      } else if i >= |a| {
        assert t[i] == b[i - |a|] && t[j] == b[j - |a|];
        assert Precedes(b, i - |a|, j - |a|);
      } else {
        assert t[i] == a[i] && t[j] == b[j - |a|];
        assert i == |a| - 1 || Precedes(a, i, |a| - 1);
        assert j == |a| || Precedes(b, 0, j - |a|);
      }
    }
  }

  lemma ValidSplice(a: seq<Region>, x: Region, b: seq<Region>)
    requires Valid(a) && Valid(b) && x.length > 0
    requires |a| > 0 ==> End(a[|a| - 1]) < x.lcn
    requires |b| > 0 ==> End(x) < b[0].lcn
    ensures Valid(a + [x] + b)
  {
    ValidAppend(a, [x]);
    ValidAppend(a + [x], b);
  }

  lemma ValidSlice(s: seq<Region>, lo: int, hi: int)
    requires Valid(s) && 0 <= lo <= hi <= |s|
    ensures Valid(s[lo..hi])
    ensures lo == 0 ==> Valid(s[..hi])
    ensures hi == |s| ==> Valid(s[lo..])
  {
    assert s[..hi] == s[0..hi] && s[lo..] == s[lo..|s|];
    var t := s[lo..hi];
    forall i, j | 0 <= i < j < |t| ensures Precedes(t, i, j) {
      assert t[i] == s[lo + i] && t[j] == s[lo + j];
      assert Precedes(s, lo + i, lo + j);
    }
  }

  // ---------------------------------------------------------------------
  // winx_add_volume_region
  // ---------------------------------------------------------------------

  /**
   * Position of the first region whose lcn exceeds `lcn`: the list walk of
   * winx_add_volume_region stops there, and the region before it is
   * `rprev`.
   */
  function FirstAbove(s: seq<Region>, lcn: nat): (j: nat)
    ensures j <= |s|
    ensures forall k :: 0 <= k < j ==> s[k].lcn <= lcn
    ensures j < |s| ==> s[j].lcn > lcn
  {
    if s == [] || s[0].lcn > lcn then 0 else 1 + FirstAbove(s[1..], lcn)
  }

  /**
   * The list winx_add_volume_region returns once its walk has stopped.
   * `p` is the index of `rprev` (-1 for NULL). In the C list the
   * successor of the tail is the head; when `rprev` is the tail every
   * region starts at or below `lcn`, so neither the merge with
   * `rprev->next` nor the lowering of `rnext` can apply to the head, and
   * the successor is only ever `s[p + 1]`.
   */
  function Place(s: seq<Region>, lcn: nat, length: nat, p: int): seq<Region>
    requires -1 <= p < |s|
  {
    if p >= 0 && End(s[p]) == lcn then
      var grown := s[p].length + length;
      if p + 1 < |s| && s[p].lcn + grown == s[p + 1].lcn then
        s[..p] + [Region(s[p].lcn, grown + s[p + 1].length)] + s[p + 2..]
      else s[p := Region(s[p].lcn, grown)]
    else if p + 1 < |s| && lcn + length == s[p + 1].lcn then
      s[p + 1 := Region(lcn, s[p + 1].length + length)]
    else s[..p + 1] + [Region(lcn, length)] + s[p + 1..]
  }

  /**
   * winx_add_volume_region: the walk goes past each region that starts
   * at or below `lcn` and is followed by another such region, and the
   * range is placed next to the region where it stops.
   */
  function AddRegion(s: seq<Region>, lcn: nat, length: nat): (r: seq<Region>)
    ensures length == 0 ==> r == s
    decreases |s|
  {
    if length == 0 then s
    else if |s| >= 2 && s[0].lcn <= lcn && s[1].lcn <= lcn then [s[0]] + AddRegion(s[1..], lcn, length)
    else Place(s, lcn, length, if s != [] && s[0].lcn <= lcn then 0 else -1)
  }

  /** Placing past the head leaves the head in front. */
  lemma PlaceCons(s: seq<Region>, lcn: nat, length: nat, p: int)
    requires 1 <= p < |s|
    ensures Place(s, lcn, length, p) == [s[0]] + Place(s[1..], lcn, length, p - 1)
  {
    var t := s[1..];
    assert t[p - 1] == s[p];
    if End(s[p]) == lcn {
      var grown := s[p].length + length;
      if p + 1 < |s| && s[p].lcn + grown == s[p + 1].lcn {
        var x := Region(s[p].lcn, grown + s[p + 1].length);
        assert t[p] == s[p + 1];
        SpliceCons(s, p, p + 2, x);
      } else {
        var x := Region(s[p].lcn, grown);
        UpdateCons(s, p, x);
      }
    } else if p + 1 < |s| && lcn + length == s[p + 1].lcn {
      assert t[p] == s[p + 1];
      UpdateCons(s, p + 1, Region(lcn, s[p + 1].length + length));
    } else {
      SpliceCons(s, p + 1, p + 1, Region(lcn, length));
    }
  }

  lemma SpliceCons(s: seq<Region>, i: nat, j: nat, x: Region)
    requires 1 <= i <= j <= |s|
    ensures s[..i] + [x] + s[j..] == [s[0]] + (s[1..][..i - 1] + [x] + s[1..][j - 1..])
  {
    assert s[..i] == [s[0]] + s[1..][..i - 1];
    assert s[j..] == s[1..][j - 1..];
  }

  lemma UpdateCons(s: seq<Region>, i: nat, x: Region)
    requires 1 <= i < |s|
    ensures s[i := x] == [s[0]] + s[1..][i - 1 := x]
  {
  }

  /** The walk stops right after the last region of the leading run at or below `lcn`. */
  lemma {:induction false} AddRegionPlace(s: seq<Region>, lcn: nat, length: nat)
    requires length > 0
    ensures AddRegion(s, lcn, length) == Place(s, lcn, length, FirstAbove(s, lcn) - 1)
    decreases |s|
  {
    if |s| >= 2 && s[0].lcn <= lcn && s[1].lcn <= lcn {
      AddRegionPlace(s[1..], lcn, length);
      assert s[1..][0] == s[1];
      PlaceCons(s, lcn, length, FirstAbove(s, lcn) - 1);
    } else if s != [] && s[0].lcn <= lcn {
      assert |s| >= 2 ==> s[1..][0] == s[1];
    }
  }

  /**
   * On a valid list, the region walk stops right after the last region
   * that starts at or below `lcn`.
   */
  lemma FirstAboveSorted(s: seq<Region>, lcn: nat, m: nat)
    requires Valid(s) && m <= |s|
    requires m > 0 ==> s[m - 1].lcn <= lcn
    requires m < |s| ==> s[m].lcn > lcn
    ensures FirstAbove(s, lcn) == m
  {
    forall k | 0 <= k < m - 1 ensures s[k].lcn < s[m - 1].lcn {
      assert Precedes(s, k, m - 1);
    }
  }

  /**
   * A range placed strictly between two neighbours (touching neither) is
   * inserted as a new region between them.
   */
  lemma AddBetween(t: seq<Region>, m: nat, lcn: nat, length: nat)
    requires Valid(t) && length > 0 && m <= |t|
    requires m > 0 ==> End(t[m - 1]) < lcn
    requires m < |t| ==> lcn + length < t[m].lcn
    ensures AddRegion(t, lcn, length) == t[..m] + [Region(lcn, length)] + t[m..]
  {
    AddRegionPlace(t, lcn, length);
    FirstAboveSorted(t, lcn, m);
  }

  /**
   * A range starting exactly at the end of region `p` extends that region;
   * when the range also reaches the next region, the two are merged.
   */
  lemma AddExtendsPredecessor(s: seq<Region>, p: nat, lcn: nat, length: nat)
    requires Valid(s) && Apart(s, lcn, length) && length > 0
    requires p < |s| && End(s[p]) == lcn
    ensures AddRegion(s, lcn, length) ==
      if p + 1 < |s| && s[p + 1].lcn == lcn + length
      then s[..p] + [Region(s[p].lcn, s[p].length + length + s[p + 1].length)] + s[p + 2..]
      else s[p := Region(s[p].lcn, s[p].length + length)]
  {
    AddRegionPlace(s, lcn, length);
    if p + 1 < |s| {
      assert Precedes(s, p, p + 1);
    }
    FirstAboveSorted(s, lcn, p + 1);
  }

  /**
   * A range ending exactly at the start of region `n`, with no region
   * ending at its own start, lowers that region's lcn and grows it.
   */
  lemma AddLowersSuccessor(s: seq<Region>, n: nat, lcn: nat, length: nat)
    requires Valid(s) && Apart(s, lcn, length) && length > 0
    requires n < |s| && s[n].lcn == lcn + length
    requires forall i :: 0 <= i < |s| ==> End(s[i]) != lcn
    ensures AddRegion(s, lcn, length) == s[n := Region(lcn, s[n].length + length)]
  {
    AddRegionPlace(s, lcn, length);
    if n > 0 {
      assert Precedes(s, n - 1, n);
    }
    FirstAboveSorted(s, lcn, n);
  }

  /**
   * A range touching no region is inserted after the last region with
   * lcn <= the new lcn, so the list keeps ascending.
   */
  lemma AddInsertsInOrder(s: seq<Region>, lcn: nat, length: nat)
    requires Valid(s) && Apart(s, lcn, length) && length > 0
    requires forall i :: 0 <= i < |s| ==> End(s[i]) != lcn && s[i].lcn != lcn + length
    ensures var k := FirstAbove(s, lcn);
      AddRegion(s, lcn, length) == s[..k] + [Region(lcn, length)] + s[k..] &&
      Valid(AddRegion(s, lcn, length))
  {
    var k := FirstAbove(s, lcn);
    if k > 0 {
      assert End(s[k - 1]) < lcn;
    }
    if k < |s| {
      assert lcn + length < s[k].lcn;
    }
    AddBetween(s, k, lcn, length);
    ValidSlice(s, 0, k);
    ValidSlice(s, k, |s|);
    ValidSplice(s[..k], Region(lcn, length), s[k..]);
  }

  /**
   * Widening region `k` to a region `x` that still keeps clear of its
   * neighbours keeps the list valid and adds the clusters of `x`.
   */
  lemma WidenOne(s: seq<Region>, k: nat, x: Region)
    requires Valid(s) && k < |s| && x.length > 0
    requires x.lcn <= s[k].lcn && End(s[k]) <= End(x)
    requires k > 0 ==> End(s[k - 1]) < x.lcn
    requires k + 1 < |s| ==> End(x) < s[k + 1].lcn
    ensures Valid(s[k := x])
    ensures forall c :: Covers(s[k := x], c) <==> Covers(s, c) || x.lcn <= c < End(x)
  {
    var r := s[k := x];
    ValidSlice(s, 0, k);
    ValidSlice(s, k + 1, |s|);
    ValidSplice(s[..k], x, s[k + 1..]);
    assert r == s[..k] + [x] + s[k + 1..];
    assert s == s[..k] + [s[k]] + s[k + 1..];
    forall c ensures Covers(r, c) <==> Covers(s, c) || x.lcn <= c < End(x) {
      CoversSplice(s[..k], x, s[k + 1..], c);
      CoversSplice(s[..k], s[k], s[k + 1..], c);
    }
  }

  /**
   * Replacing regions `k` and `k + 1` by the region `x` spanning both
   * keeps the list valid and adds the clusters of `x`.
   */
  lemma MergeTwo(s: seq<Region>, k: nat, x: Region)
    requires Valid(s) && k + 1 < |s|
    requires x.lcn == s[k].lcn && End(x) == End(s[k + 1])
    ensures Valid(s[..k] + [x] + s[k + 2..])
    ensures forall c :: Covers(s[..k] + [x] + s[k + 2..], c) <==> Covers(s, c) || x.lcn <= c < End(x)
  {
    var r := s[..k] + [x] + s[k + 2..];
    ValidSlice(s, 0, k);
    ValidSlice(s, k + 2, |s|);
    assert Precedes(s, k, k + 1);
    if k > 0 {
      assert Precedes(s, k - 1, k);
    }
    if k + 2 < |s| {
      assert Precedes(s, k + 1, k + 2);
    }
    ValidSplice(s[..k], x, s[k + 2..]);
    assert s == s[..k] + [s[k]] + ([s[k + 1]] + s[k + 2..]);
    forall c ensures Covers(r, c) <==> Covers(s, c) || x.lcn <= c < End(x) {
      CoversSplice(s[..k], x, s[k + 2..], c);
      CoversSplice(s[..k], s[k], [s[k + 1]] + s[k + 2..], c);
      CoversAppend([s[k + 1]], s[k + 2..], c);
      CoversSingle(s[k + 1], c);
    }
  }

  /** Case of AddRegionSpec: the range closes the gap between regions `p` and `p + 1`. */
  lemma AddSpecMerge(s: seq<Region>, p: nat, lcn: nat, length: nat)
    requires Valid(s) && Apart(s, lcn, length) && length > 0
    requires p + 1 < |s| && End(s[p]) == lcn && s[p + 1].lcn == lcn + length
    ensures Valid(AddRegion(s, lcn, length))
    ensures forall c :: Covers(AddRegion(s, lcn, length), c) <==> Covers(s, c) || lcn <= c < lcn + length
  {
    var x := Region(s[p].lcn, s[p].length + length + s[p + 1].length);
    AddExtendsPredecessor(s, p, lcn, length);
    var r := s[..p] + [x] + s[p + 2..];
    assert AddRegion(s, lcn, length) == r;
    MergeTwo(s, p, x);
    forall c ensures Covers(r, c) <==> Covers(s, c) || lcn <= c < lcn + length {
      assert Covers(r, c) <==> Covers(s, c) || x.lcn <= c < End(x);
      assert x.lcn <= c < End(x) <==>
        s[p].lcn <= c < End(s[p]) || lcn <= c < lcn + length || s[p + 1].lcn <= c < End(s[p + 1]);
      if s[p].lcn <= c < End(s[p]) {
        assert Covers(s, c);
      } else if s[p + 1].lcn <= c < End(s[p + 1]) {
        assert Covers(s, c);
      }
    }
  }

  /** Case of AddRegionSpec: the range extends region `p` only. */
  lemma AddSpecExtend(s: seq<Region>, p: nat, lcn: nat, length: nat)
    requires Valid(s) && Apart(s, lcn, length) && length > 0
    requires p < |s| && End(s[p]) == lcn
    requires p + 1 < |s| ==> s[p + 1].lcn != lcn + length
    ensures Valid(AddRegion(s, lcn, length))
    ensures forall c :: Covers(AddRegion(s, lcn, length), c) <==> Covers(s, c) || lcn <= c < lcn + length
  {
    var x := Region(s[p].lcn, s[p].length + length);
    AddExtendsPredecessor(s, p, lcn, length);
    if p > 0 {
      assert Precedes(s, p - 1, p);
    }
    if p + 1 < |s| {
      assert Precedes(s, p, p + 1);
    }
    WidenOne(s, p, x);
    var r := AddRegion(s, lcn, length);
    assert r == s[p := x];
    forall c ensures Covers(r, c) <==> Covers(s, c) || lcn <= c < lcn + length {
      assert Covers(r, c) <==> Covers(s, c) || x.lcn <= c < End(x);
      if s[p].lcn <= c < End(s[p]) {
        assert Covers(s, c);
      }
    }
  }

  /** Case of AddRegionSpec: the range lowers region `k`. */
  lemma AddSpecLower(s: seq<Region>, k: nat, lcn: nat, length: nat)
    requires Valid(s) && Apart(s, lcn, length) && length > 0
    requires k < |s| && s[k].lcn == lcn + length
    requires forall i :: 0 <= i < |s| ==> End(s[i]) != lcn
    ensures Valid(AddRegion(s, lcn, length))
    ensures forall c :: Covers(AddRegion(s, lcn, length), c) <==> Covers(s, c) || lcn <= c < lcn + length
  {
    var x := Region(lcn, s[k].length + length);
    AddLowersSuccessor(s, k, lcn, length);
    if k > 0 {
      assert Precedes(s, k - 1, k);
    }
    if k + 1 < |s| {
      assert Precedes(s, k, k + 1);
    }
    WidenOne(s, k, x);
    var r := AddRegion(s, lcn, length);
    assert r == s[k := x];
    forall c ensures Covers(r, c) <==> Covers(s, c) || lcn <= c < lcn + length {
      assert Covers(r, c) <==> Covers(s, c) || x.lcn <= c < End(x);
      if s[k].lcn <= c < End(s[k]) {
        assert Covers(s, c);
      }
    }
  }

  /** Case of AddRegionSpec: the range becomes a region of its own. */
  lemma AddSpecInsert(s: seq<Region>, lcn: nat, length: nat)
    requires Valid(s) && Apart(s, lcn, length) && length > 0
    requires forall i :: 0 <= i < |s| ==> End(s[i]) != lcn && s[i].lcn != lcn + length
    ensures Valid(AddRegion(s, lcn, length))
    ensures forall c :: Covers(AddRegion(s, lcn, length), c) <==> Covers(s, c) || lcn <= c < lcn + length
  {
    var r := AddRegion(s, lcn, length);
    var k := FirstAbove(s, lcn);
    AddInsertsInOrder(s, lcn, length);
    assert s == s[..k] + s[k..];
    forall c ensures Covers(r, c) <==> Covers(s, c) || lcn <= c < lcn + length {
      CoversSplice(s[..k], Region(lcn, length), s[k..], c);
      CoversAppend(s[..k], s[k..], c);
    }
  }

  /**
   * Adding a range that lies outside every region keeps the list valid and
   * adds exactly the clusters of the range.
   */
  lemma AddRegionSpec(s: seq<Region>, lcn: nat, length: nat)
    requires Valid(s) && Apart(s, lcn, length)
    ensures Valid(AddRegion(s, lcn, length))
    ensures forall c :: Covers(AddRegion(s, lcn, length), c) <==> Covers(s, c) || lcn <= c < lcn + length
  {
    if length == 0 {
      return;
    }
    var k := FirstAbove(s, lcn);
    if k > 0 && End(s[k - 1]) == lcn {
      if k < |s| && s[k].lcn == lcn + length {
        AddSpecMerge(s, k - 1, lcn, length);
      } else {
        AddSpecExtend(s, k - 1, lcn, length);
      }
    } else if k < |s| && s[k].lcn == lcn + length {
      forall i | 0 <= i < |s| ensures End(s[i]) != lcn {
        if i < k - 1 {
          assert Precedes(s, i, k - 1);
        } else if i >= k {
          assert i == k || Precedes(s, k, i);
        }
      }
      AddSpecLower(s, k, lcn, length);
    } else {
      forall i | 0 <= i < |s| ensures End(s[i]) != lcn && s[i].lcn != lcn + length {
        if i < k - 1 {
          assert Precedes(s, i, k - 1);
        } else if i >= k {
          assert i == k || Precedes(s, k, i);
        }
      }
      AddSpecInsert(s, lcn, length);
    }
  }

  // ---------------------------------------------------------------------
  // winx_sub_volume_region
  // ---------------------------------------------------------------------

  /**
   * What subtracting `[lcn, lcn + length)` leaves of one region: the
   * region itself when they do not intersect, nothing when it lies inside
   * the range, the part left of `lcn` when it crosses the left end, the
   * part right of `lcn + length` when it crosses the right end, and both
   * parts when it contains the whole range.
   */
  function Cut(r: Region, lcn: nat, length: nat): (rs: seq<Region>)
    ensures |rs| <= 2
  {
    var e := lcn + length;
    if End(r) <= lcn || r.lcn >= e then [r]
    else if r.lcn >= lcn && End(r) <= e then []
    else if r.lcn < lcn && End(r) <= e then [Region(r.lcn, lcn - r.lcn)]
    else if r.lcn >= lcn then [Region(e, End(r) - e)]
    else [Region(r.lcn, lcn - r.lcn), Region(e, End(r) - e)]
  }

  /**
   * The pieces Cut leaves of a region are valid, lie inside it, and hold
   * exactly its clusters outside the range.
   */
  lemma CutSpec(r: Region, lcn: nat, length: nat)
    requires length > 0
    ensures forall c :: Covers(Cut(r, lcn, length), c) <==> r.lcn <= c < End(r) && !(lcn <= c < lcn + length)
    ensures r.length > 0 ==> Valid(Cut(r, lcn, length))
    ensures var rs := Cut(r, lcn, length); |rs| > 0 ==> r.lcn <= rs[0].lcn && End(rs[|rs| - 1]) <= End(r)
  {
    var rs := Cut(r, lcn, length);
    forall c ensures Covers(rs, c) <==> r.lcn <= c < End(r) && !(lcn <= c < lcn + length) {
      if |rs| == 1 {
        CoversSingle(rs[0], c);
      } else if |rs| == 2 {
        assert rs == [rs[0]] + [rs[1]];
        CoversAppend([rs[0]], [rs[1]], c);
        CoversSingle(rs[0], c);
        CoversSingle(rs[1], c);
      }
    }
  }

  function CutAll(s: seq<Region>, lcn: nat, length: nat): seq<Region>
    requires length > 0
  {
    if s == [] then [] else Cut(s[0], lcn, length) + CutAll(s[1..], lcn, length)
  }

  /** The list winx_sub_volume_region returns for a valid list. */
  function SubRegion(s: seq<Region>, lcn: nat, length: nat): seq<Region>
  {
    if length == 0 then s else CutAll(s, lcn, length)
  }

  lemma {:induction false} CutAllAppend(a: seq<Region>, b: seq<Region>, lcn: nat, length: nat)
    requires length > 0
    ensures CutAll(a + b, lcn, length) == CutAll(a, lcn, length) + CutAll(b, lcn, length)
  {
    if a == [] {
      assert a + b == b;
    } else {
      assert (a + b)[1..] == a[1..] + b;
      CutAllAppend(a[1..], b, lcn, length);
    }
  }

  /** Regions that start at or beyond the end of the range are kept as they are. */
  lemma {:induction false} CutAllBeyond(s: seq<Region>, lcn: nat, length: nat)
    requires length > 0
    requires forall i :: 0 <= i < |s| ==> s[i].lcn >= lcn + length
    ensures CutAll(s, lcn, length) == s
  {
    if s != [] {
      CutAllBeyond(s[1..], lcn, length);
    }
  }

  /** Every region of CutAll(s) lies inside the span of s, and the result is valid. */
  /** The regions of CutAll(s) lie within the span of s. */
  lemma {:induction false} CutAllBounds(s: seq<Region>, lcn: nat, length: nat)
    requires length > 0 && Valid(s)
    ensures var cs := CutAll(s, lcn, length);
      |cs| > 0 ==> s[0].lcn <= cs[0].lcn && End(cs[|cs| - 1]) <= End(s[|s| - 1])
  {
    if s != [] {
      var head := Cut(s[0], lcn, length);
      var tail := CutAll(s[1..], lcn, length);
      var cs := head + tail;
      CutSpec(s[0], lcn, length);
      ValidSlice(s, 1, |s|);
      CutAllBounds(s[1..], lcn, length);
      if |tail| > 0 {
        assert s[1..][0] == s[1] && s[1..][|s| - 2] == s[|s| - 1];
        assert Precedes(s, 0, 1);
        assert cs[|cs| - 1] == tail[|tail| - 1];
      } else if |head| > 0 {
        assert cs[|cs| - 1] == head[|head| - 1];
      }
      if |head| > 0 {
        assert |s| == 1 || Precedes(s, 0, |s| - 1);
        assert cs[0] == head[0];
      }
    }
  }

  /** Cutting a range out of a valid list leaves a valid list. */
  lemma {:induction false} CutAllValid(s: seq<Region>, lcn: nat, length: nat)
    requires length > 0 && Valid(s)
    ensures Valid(CutAll(s, lcn, length))
  {
    if s != [] {
      var head := Cut(s[0], lcn, length);
      var tail := CutAll(s[1..], lcn, length);
      CutSpec(s[0], lcn, length);
      ValidSlice(s, 1, |s|);
      CutAllValid(s[1..], lcn, length);
      CutAllBounds(s[1..], lcn, length);
      if |head| > 0 && |tail| > 0 {
        assert s[1..][0] == s[1];
        assert Precedes(s, 0, 1);
      }
      ValidAppend(head, tail);
    }
  }

  lemma {:induction false} CutAllCovers(s: seq<Region>, lcn: nat, length: nat, c: int)
    requires length > 0
    ensures Covers(CutAll(s, lcn, length), c) <==> Covers(s, c) && !(lcn <= c < lcn + length)
  {
    if s == [] {
    } else {
      CutAllCovers(s[1..], lcn, length, c);
      CutSpec(s[0], lcn, length);
      CoversAppend(Cut(s[0], lcn, length), CutAll(s[1..], lcn, length), c);
      assert s == [s[0]] + s[1..];
      CoversAppend([s[0]], s[1..], c);
      CoversSingle(s[0], c);
    }
  }

  /**
   * Subtraction keeps a valid list valid and removes exactly the clusters
   * of the range, so no remaining region intersects it.
   */
  lemma SubRegionSpec(s: seq<Region>, lcn: nat, length: nat)
    requires Valid(s)
    ensures Valid(SubRegion(s, lcn, length))
    ensures forall c :: Covers(SubRegion(s, lcn, length), c) <==> Covers(s, c) && !(lcn <= c < lcn + length)
  {
    if length > 0 {
      CutAllValid(s, lcn, length);
      forall c ensures Covers(SubRegion(s, lcn, length), c) <==> Covers(s, c) && !(lcn <= c < lcn + length) {
        CutAllCovers(s, lcn, length, c);
      }
    }
  }

  /** Regions starting at or after `lcn + length` come out untouched, in place. */
  lemma SubRegionKeepsSuffix(s: seq<Region>, lcn: nat, length: nat, k: nat)
    requires Valid(s) && length > 0 && k < |s| && s[k].lcn >= lcn + length
    ensures SubRegion(s, lcn, length) == CutAll(s[..k], lcn, length) + s[k..]
  {
    assert s == s[..k] + s[k..];
    CutAllAppend(s[..k], s[k..], lcn, length);
    forall i | 0 <= i < |s[k..]| ensures s[k..][i].lcn >= lcn + length {
      assert i == 0 || Precedes(s, k, k + i);
    }
    CutAllBeyond(s[k..], lcn, length);
  }

  /** Region `r` lies wholly inside `[lcn, lcn + length)`. */
  predicate Inside(r: Region, lcn: nat, length: nat)
  {
    r.lcn >= lcn && End(r) <= lcn + length
  }

  /** Clusters of the regions of `t` that lie wholly inside the range. */
  function InsideSum(t: seq<Region>, lcn: nat, length: nat): nat
  {
    if t == [] then 0
    else InsideSum(t[..|t| - 1], lcn, length) + (if Inside(t[|t| - 1], lcn, length) then t[|t| - 1].length else 0)
  }

  /**
   * The regions of a valid prefix that lie inside the range occupy no more
   * than the part of the range up to the prefix's end.
   */
  lemma {:induction false} InsideSumBound(s: seq<Region>, lcn: nat, length: nat, k: nat)
    requires Valid(s) && 0 < k <= |s|
    ensures InsideSum(s[..k], lcn, length) <= Max(0, Min(lcn + length, End(s[k - 1])) - lcn)
  {
    assert s[..k][..k - 1] == s[..k - 1];
    if k > 1 {
      InsideSumBound(s, lcn, length, k - 1);
      assert Precedes(s, k - 2, k - 1);
    }
  }

  // ---------------------------------------------------------------------
  // The list object
  // ---------------------------------------------------------------------

  /** A free region list that the routines edit in place. */
  class RegionList {
    var regions: seq<Region>

    constructor ()
      ensures regions == []
    {
      regions := [];
    }

    /** winx_add_volume_region. */
    method Add(lcn: nat, length: nat)
      modifies this
      ensures regions == AddRegion(old(regions), lcn, length)
    {
      if length == 0 {
        return;
      }
      var i := 0;
      while i < |regions| && regions[i].lcn <= lcn
        invariant 0 <= i <= |regions|
        invariant forall k :: 0 <= k < i ==> regions[k].lcn <= lcn
      {
        i := i + 1;
      }
      assert i == FirstAbove(regions, lcn);
      AddRegionPlace(regions, lcn, length);
      var p := i - 1;
      if p >= 0 && End(regions[p]) == lcn {
        var grown := regions[p].length + length;
        if p + 1 < |regions| && regions[p].lcn + grown == regions[p + 1].lcn {
          regions := regions[..p] + [Region(regions[p].lcn, grown + regions[p + 1].length)] + regions[p + 2..];
        } else {
          regions := regions[p := Region(regions[p].lcn, grown)];
        }
        return;
      }
      if p + 1 < |regions| && lcn + length == regions[p + 1].lcn {
        regions := regions[p + 1 := Region(lcn, regions[p + 1].length + length)];
        return;
      }
      regions := regions[..p + 1] + [Region(lcn, length)] + regions[p + 1..];
    }

    /**
     * winx_sub_volume_region. The walk stops at the first region at or
     * beyond the range, or once the regions removed whole add up to the
     * range's length; a region sticking out on the right is removed and
     * its tail put back through Add.
     */
    method Sub(lcn: nat, length: nat)
      requires Valid(regions)
      modifies this
      ensures regions == SubRegion(old(regions), lcn, length)
    {
      if length == 0 {
        // remaining_clusters starts at zero: the walk does not begin
        return;
      }
      ghost var s := regions;
      var e := lcn + length;
      var remaining: int := length;
      var i := 0;
      ghost var k := 0;
      while i < |regions| && remaining != 0
        invariant 0 <= k <= |s|
        invariant regions == CutAll(s[..k], lcn, length) + s[k..]
        invariant i == |CutAll(s[..k], lcn, length)|
        invariant remaining == length - InsideSum(s[..k], lcn, length)
        decreases |s| - k
      {
        assert regions[i..] == s[k..];
        var r := regions[i];
        assert r == s[k];
        if r.lcn >= e {
          break;
        }
        var removed;
        i, removed := CutRegion(i, lcn, length, s, k);
        SubAdvance(s, k, lcn, length);
        remaining := remaining - removed;
        k := k + 1;
      }
      assert i >= |regions| ==> k == |s|;
      SubWalkDone(s, k, lcn, length, remaining);
    }

    /**
     * The body of the walk of winx_sub_volume_region for the region at
     * position `i`, which is region `k` of the original list `s`: it is
     * kept, removed, trimmed, or split, and the tail that sticks out on
     * the right is put back through Add. Returns the position of the next
     * original region and the clusters removed whole.
     */
    method CutRegion(i: nat, lcn: nat, length: nat, ghost s: seq<Region>, ghost k: nat)
      returns (next: nat, removed: nat)
      requires Valid(s) && length > 0 && k < |s| && s[k].lcn < lcn + length
      requires regions == CutAll(s[..k], lcn, length) + s[k..]
      requires i == |CutAll(s[..k], lcn, length)|
      modifies this
      ensures regions == CutAll(s[..k + 1], lcn, length) + s[k + 1..]
      ensures next == |CutAll(s[..k + 1], lcn, length)|
      ensures removed == if Inside(s[k], lcn, length) then s[k].length else 0
    {
      ghost var prefix := CutAll(s[..k], lcn, length);
      assert regions[..i] == prefix && regions[i + 1..] == s[k + 1..];
      var r := regions[i];
      assert r == s[k];
      SubAdvance(s, k, lcn, length);
      removed := 0;
      next := i + 1;
      if End(r) <= lcn {
        assert CutAll(s[..k + 1], lcn, length) == prefix + [r];
        assert regions == prefix + [r] + s[k + 1..];
      } else if End(r) <= lcn + length {
        next, removed := CutInside(i, lcn, length, s, k);
      } else {
        next := CutCrossing(i, lcn, length, s, k);
      }
    }

    /** CutRegion for a region that ends inside the range: it is removed or trimmed on the right. */
    method CutInside(i: nat, lcn: nat, length: nat, ghost s: seq<Region>, ghost k: nat)
      returns (next: nat, removed: nat)
      requires length > 0 && k < |s| && s[k].length > 0 && lcn < End(s[k]) <= lcn + length
      requires regions == CutAll(s[..k], lcn, length) + s[k..]
      requires i == |CutAll(s[..k], lcn, length)|
      modifies this
      ensures regions == CutAll(s[..k + 1], lcn, length) + s[k + 1..]
      ensures next == |CutAll(s[..k + 1], lcn, length)|
      ensures removed == if Inside(s[k], lcn, length) then s[k].length else 0
    {
      ghost var prefix := CutAll(s[..k], lcn, length);
      assert regions[..i] == prefix && regions[i + 1..] == s[k + 1..];
      var r := regions[i];
      assert r == s[k];
      SubAdvance(s, k, lcn, length);
      if r.lcn >= lcn {
        removed := r.length;
        regions := regions[..i] + regions[i + 1..];
        next := i;
        assert CutAll(s[..k + 1], lcn, length) == prefix + [];
        assert regions == prefix + s[k + 1..];
      } else {
        removed := 0;
        regions := regions[i := Region(r.lcn, lcn - r.lcn)];
        next := i + 1;
        assert CutAll(s[..k + 1], lcn, length) == prefix + [Region(r.lcn, lcn - r.lcn)];
        assert regions == prefix + [Region(r.lcn, lcn - r.lcn)] + s[k + 1..];
      }
    }

    /**
     * CutRegion for a region that sticks out right of the range: the part
     * left of the range stays or goes, and the part right of it is put
     * back through Add.
     */
    method CutCrossing(i: nat, lcn: nat, length: nat, ghost s: seq<Region>, ghost k: nat)
      returns (next: nat)
      requires Valid(s) && length > 0 && k < |s| && s[k].lcn < lcn + length < End(s[k])
      requires regions == CutAll(s[..k], lcn, length) + s[k..]
      requires i == |CutAll(s[..k], lcn, length)|
      modifies this
      ensures regions == CutAll(s[..k + 1], lcn, length) + s[k + 1..]
      ensures next == |CutAll(s[..k + 1], lcn, length)|
    {
      ghost var prefix := CutAll(s[..k], lcn, length);
      assert regions[..i] == prefix && regions[i + 1..] == s[k + 1..];
      var r := regions[i];
      assert r == s[k];
      var e := lcn + length;
      var tail := End(r) - e;
      if r.lcn >= lcn {
        regions := regions[..i] + regions[i + 1..];
        assert regions == prefix + s[k + 1..];
        SubCutsRight(s, k, r, lcn, length, e, tail);
        Add(e, tail);
        next := i + 1;
      } else {
        regions := regions[i := Region(r.lcn, lcn - r.lcn)];
        assert regions == prefix + [Region(r.lcn, lcn - r.lcn)] + s[k + 1..];
        SubSplits(s, k, r, lcn, length, e, tail);
        Add(e, tail);
        next := i + 2;
      }
    }
  }

  /**
   * The walk may stop once it has passed every region, reached one at or
   * beyond the range, or removed whole regions adding up to `length`: the
   * regions it has not visited are then all beyond the range.
   */
  lemma SubWalkDone(s: seq<Region>, k: nat, lcn: nat, length: nat, remaining: int)
    requires Valid(s) && length > 0 && k <= |s|
    requires remaining == length - InsideSum(s[..k], lcn, length)
    requires k == |s| || s[k].lcn >= lcn + length || remaining == 0
    ensures CutAll(s[..k], lcn, length) + s[k..] == SubRegion(s, lcn, length)
  {
    if k < |s| {
      if remaining == 0 {
        InsideSumBound(s, lcn, length, k);
        assert Precedes(s, k - 1, k);
      }
      SubRegionKeepsSuffix(s, lcn, length, k);
    } else {
      assert s[..k] == s;
    }
  }

  /** One step of the walk of winx_sub_volume_region over the original list. */
  lemma SubAdvance(s: seq<Region>, k: nat, lcn: nat, length: nat)
    requires length > 0 && k < |s|
    ensures CutAll(s[..k + 1], lcn, length) == CutAll(s[..k], lcn, length) + Cut(s[k], lcn, length)
    ensures InsideSum(s[..k + 1], lcn, length) ==
      InsideSum(s[..k], lcn, length) + (if Inside(s[k], lcn, length) then s[k].length else 0)
  {
    assert s[..k + 1] == s[..k] + [s[k]];
    CutAllAppend(s[..k], [s[k]], lcn, length);
    assert s[..k + 1][..k] == s[..k];
  }

  /**
   * Adding a range that fits strictly between two valid lists, touching
   * neither, puts it as a region between them.
   */
  lemma AddBetweenLists(pre: seq<Region>, post: seq<Region>, x: Region)
    requires Valid(pre) && Valid(post) && x.length > 0
    requires |pre| > 0 ==> End(pre[|pre| - 1]) < x.lcn
    requires |post| > 0 ==> End(x) < post[0].lcn
    ensures AddRegion(pre + post, x.lcn, x.length) == pre + [x] + post
  {
    if |pre| > 0 && |post| > 0 {
      assert End(pre[|pre| - 1]) < post[0].lcn;
    }
    ValidAppend(pre, post);
    var t := pre + post;
    assert t[..|pre|] == pre && t[|pre|..] == post;
    AddBetween(t, |pre|, x.lcn, x.length);
  }

  /**
   * What the walk has produced before region `k`: a valid list ending
   * before region `k` starts.
   */
  lemma SubPrefix(s: seq<Region>, k: nat, lcn: nat, length: nat)
    requires Valid(s) && length > 0 && k < |s|
    ensures var prefix := CutAll(s[..k], lcn, length);
      Valid(prefix) && (|prefix| > 0 ==> End(prefix[|prefix| - 1]) < s[k].lcn)
  {
    ValidSlice(s, 0, k);
    CutAllValid(s[..k], lcn, length);
    CutAllBounds(s[..k], lcn, length);
    if k > 0 {
      assert s[..k][k - 1] == s[k - 1];
      assert Precedes(s, k - 1, k);
    }
  }

  /** The walk's output before region `k` = `r`, followed by the part of `r` left of `lcn`. */
  lemma SubPrefixLeft(s: seq<Region>, k: nat, r: Region, lcn: nat, length: nat)
    requires Valid(s) && length > 0 && k < |s| && r == s[k] && r.lcn < lcn
    ensures var t := CutAll(s[..k], lcn, length) + [Region(r.lcn, lcn - r.lcn)];
      Valid(t) && End(t[|t| - 1]) == lcn
  {
    var prefix := CutAll(s[..k], lcn, length);
    var left := Region(r.lcn, lcn - r.lcn);
    SubPrefix(s, k, lcn, length);
    ValidAppend(prefix, [left]);
    assert (prefix + [left])[|prefix + [left]| - 1] == left;
  }

  /**
   * The list after removing region `k` = `r`, which crosses the right end
   * of the range ending at `e`: putting its tail back lands it where `r`
   * was.
   */
  lemma SubCutsRight(s: seq<Region>, k: nat, r: Region, lcn: nat, length: nat, e: nat, tail: nat)
    requires Valid(s) && length > 0 && k < |s| && r == s[k]
    requires e == lcn + length && lcn <= r.lcn < e < End(r) && tail == End(r) - e
    ensures AddRegion(CutAll(s[..k], lcn, length) + s[k + 1..], e, tail) ==
      CutAll(s[..k + 1], lcn, length) + s[k + 1..]
    ensures |CutAll(s[..k + 1], lcn, length)| == |CutAll(s[..k], lcn, length)| + 1
  {
    var prefix := CutAll(s[..k], lcn, length);
    var post := s[k + 1..];
    SubPrefix(s, k, lcn, length);
    ValidSlice(s, k + 1, |s|);
    if k + 1 < |s| {
      assert Precedes(s, k, k + 1);
      assert post[0] == s[k + 1];
    }
    var x := Region(e, tail);
    AddBetweenLists(prefix, post, x);
    SubAdvance(s, k, lcn, length);
    CutRight(r, lcn, length);
    assert CutAll(s[..k + 1], lcn, length) == prefix + [x];
    assert prefix + [x] + post == (prefix + [x]) + post;
  }

  /** A region that starts in the range and ends beyond it keeps its part after the range. */
  lemma CutRight(r: Region, lcn: nat, length: nat)
    requires lcn <= r.lcn < lcn + length < End(r)
    ensures Cut(r, lcn, length) == [Region(lcn + length, End(r) - (lcn + length))]
  {
  }

  /**
   * The list after trimming region `k` = `r`, which contains the whole
   * range, to its left part: putting the right part back lands it just
   * after it.
   */
  lemma SubSplits(s: seq<Region>, k: nat, r: Region, lcn: nat, length: nat, e: nat, tail: nat)
    requires Valid(s) && length > 0 && k < |s| && r == s[k]
    requires e == lcn + length && r.lcn < lcn && e < End(r) && tail == End(r) - e
    ensures AddRegion(CutAll(s[..k], lcn, length) + [Region(r.lcn, lcn - r.lcn)] + s[k + 1..], e, tail) ==
      CutAll(s[..k + 1], lcn, length) + s[k + 1..]
    ensures |CutAll(s[..k + 1], lcn, length)| == |CutAll(s[..k], lcn, length)| + 2
  {
    var prefix := CutAll(s[..k], lcn, length);
    var left := Region(r.lcn, lcn - r.lcn);
    SubPrefixLeft(s, k, r, lcn, length);
    ValidSlice(s, k + 1, |s|);
    if k + 1 < |s| {
      assert Precedes(s, k, k + 1);
    }
    var x := Region(e, tail);
    AddBetweenLists(prefix + [left], s[k + 1..], x);
    SubAdvance(s, k, lcn, length);
    assert Cut(s[k], lcn, length) == [left, x];
    assert CutAll(s[..k + 1], lcn, length) == prefix + [left] + [x];
  }

  // ---------------------------------------------------------------------
  // The bitmap scan of winx_get_free_volume_regions
  // ---------------------------------------------------------------------

  /**
   * Turns the volume bitmap (true = cluster in use) into the list of free
   * regions: each maximal run of clear bits becomes one region, in
   * ascending order, including a run that reaches the end of the volume.
   */
  method ScanBitmap(bits: seq<bool>) returns (rs: seq<Region>)
    ensures Valid(rs)
    ensures forall c :: Covers(rs, c) <==> 0 <= c < |bits| && !bits[c]
  {
    rs := [];
    var start: Option<nat> := None;
    var i := 0;
    while i < |bits|
      invariant 0 <= i <= |bits|
      invariant Valid(rs)
      invariant start.Some? ==> start.value < i && forall c :: start.value <= c < i ==> !bits[c]
      invariant var f := if start.Some? then start.value else i;
        (rs != [] ==> End(rs[|rs| - 1]) < f || (start.None? && End(rs[|rs| - 1]) == f)) &&
        (forall c :: Covers(rs, c) <==> 0 <= c < f && !bits[c])
      invariant start.None? && rs != [] ==> End(rs[|rs| - 1]) < i
    {
      if !bits[i] {
        if start.None? {
          start := Some(i);
        }
      } else {
        if start.Some? {
          var x := Region(start.value, i - start.value);
          forall c ensures Covers(rs + [x], c) <==> 0 <= c < i && !bits[c] {
            CoversAppend(rs, [x], c);
            CoversSingle(x, c);
          }
          ValidAppend(rs, [x]);
          rs := rs + [x];
          start := None;
        }
      }
      i := i + 1;
    }
    if start.Some? {
      var x := Region(start.value, i - start.value);
      forall c ensures Covers(rs + [x], c) <==> 0 <= c < i && !bits[c] {
        CoversAppend(rs, [x], c);
        CoversSingle(x, c);
      }
      ValidAppend(rs, [x]);
      rs := rs + [x];
    }
  }
}
