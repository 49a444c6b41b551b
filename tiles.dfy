/** Tile grids and the pure specifications the map generator is proved
    against: the 3x3 wall count and the in-place smoothing pass, 4-adjacency
    and regions, tile updates, and disks carved by a passage. */
module Tiles {

  /** A tile coordinate (class Coord). */
  datatype Coord = Coord(tileX: int, tileY: int)

  /** A tile grid indexed map[x][y]; 1 is a wall, 0 is floor. */
  type Grid = seq<seq<int>>

  /** map[0].length, the height every column must have. */
  function Height(m: Grid): nat
  {
    if |m| == 0 then 0 else |m[0]|
  }

  /** Rectangular: every column is as long as column 0. */
  predicate IsGrid(m: Grid)
  {
    forall x :: 0 <= x < |m| ==> |m[x]| == Height(m)
  }

  /** isInMapRange */
  predicate InRange(m: Grid, x: int, y: int)
  {
    0 <= x < |m| && 0 <= y < Height(m)
  }

  ghost predicate IsBinary(m: Grid)
    requires IsGrid(m)
  {
    forall x, y :: InRange(m, x, y) ==> m[x][y] == 0 || m[x][y] == 1
  }

  predicate SameShape(a: Grid, b: Grid)
  {
    IsGrid(a) && IsGrid(b) && |a| == |b| && Height(a) == Height(b)
  }

  /** The tiles randomFillMap forces to wall: x = 0, x > width - 2, y = 0 or y > height - 2. */
  predicate IsBorder(m: Grid, x: int, y: int)
  {
    x == 0 || x > |m| - 2 || y == 0 || y > Height(m) - 2
  }

  ghost predicate BorderIsWall(m: Grid)
    requires IsGrid(m)
  {
    forall x, y :: InRange(m, x, y) && IsBorder(m, x, y) ==> m[x][y] == 1
  }

  /** map[x][y] = v */
  function Set(m: Grid, x: int, y: int, v: int): (r: Grid)
    requires IsGrid(m) && InRange(m, x, y)
    ensures SameShape(m, r)
    ensures r[x][y] == v
    ensures forall i, j :: InRange(m, i, j) && (i != x || j != y) ==> r[i][j] == m[i][j]
  {
    m[x := m[x][y := v]]
  }

  // ---------------------------------------------------------------------
  // getNeighborWallCount: the 3x3 window, visited x-outer then y-inner.

  /** What cell (nx, ny) of the window around (x, y) adds to the count: an
      out-of-range cell counts as a wall and the centre counts nothing. */
  function CellWall(m: Grid, x: int, y: int, nx: int, ny: int): int
    requires IsGrid(m)
  {
    if !InRange(m, nx, ny) then 1
    else if nx == x && ny == y then 0
    else m[nx][ny]
  }

  /** The count over cells (nx, y - 1) .. (nx, ny - 1) of one window column. */
  function ColumnSum(m: Grid, x: int, y: int, nx: int, ny: int): int
    requires IsGrid(m)
    decreases ny - y
  {
    if ny <= y - 1 then 0 else ColumnSum(m, x, y, nx, ny - 1) + CellWall(m, x, y, nx, ny - 1)
  }

  /** The count over the window columns x - 1 .. nx - 1. */
  function WindowSum(m: Grid, x: int, y: int, nx: int): int
    requires IsGrid(m)
    decreases nx - x
  {
    if nx <= x - 1 then 0 else WindowSum(m, x, y, nx - 1) + ColumnSum(m, x, y, nx - 1, y + 2)
  }

  /** The value getNeighborWallCount(x, y) returns. */
  function NeighbourWallCount(m: Grid, x: int, y: int): int
    requires IsGrid(m)
  {
    WindowSum(m, x, y, x + 2)
  }

  /** The count is the sum over the nine window cells. */
  lemma NeighbourWallCountExpanded(m: Grid, x: int, y: int)
    requires IsGrid(m)
    ensures NeighbourWallCount(m, x, y)
         == CellWall(m, x, y, x - 1, y - 1) + CellWall(m, x, y, x - 1, y) + CellWall(m, x, y, x - 1, y + 1)
          + CellWall(m, x, y, x, y - 1) + CellWall(m, x, y, x, y) + CellWall(m, x, y, x, y + 1)
          + CellWall(m, x, y, x + 1, y - 1) + CellWall(m, x, y, x + 1, y) + CellWall(m, x, y, x + 1, y + 1)
  {
    forall nx | x - 1 <= nx <= x + 1
      ensures ColumnSum(m, x, y, nx, y + 2)
           == CellWall(m, x, y, nx, y - 1) + CellWall(m, x, y, nx, y) + CellWall(m, x, y, nx, y + 1)
    {
      assert ColumnSum(m, x, y, nx, y - 1) == 0;
      assert ColumnSum(m, x, y, nx, y) == CellWall(m, x, y, nx, y - 1);
      assert ColumnSum(m, x, y, nx, y + 1) == ColumnSum(m, x, y, nx, y) + CellWall(m, x, y, nx, y);
    }
    assert WindowSum(m, x, y, x - 1) == 0;
    assert WindowSum(m, x, y, x) == ColumnSum(m, x, y, x - 1, y + 2);
    assert WindowSum(m, x, y, x + 1) == WindowSum(m, x, y, x) + ColumnSum(m, x, y, x, y + 2);
  }

  /** On a 0/1 grid the count for an in-range tile lies in 0..8: the centre is not counted. */
  lemma NeighbourWallCountBounds(m: Grid, x: int, y: int)
    requires IsGrid(m) && IsBinary(m) && InRange(m, x, y)
    ensures 0 <= NeighbourWallCount(m, x, y) <= 8
  {
    NeighbourWallCountExpanded(m, x, y);
  }

  /** A border tile of a grid whose border is all wall sees at least five
      walls: the three window cells beyond its side are out of range, and
      its two neighbours along that side are out of range or border tiles. */
  lemma BorderTileSeesFiveWalls(m: Grid, x: int, y: int)
    requires IsGrid(m) && IsBinary(m) && BorderIsWall(m)
    requires InRange(m, x, y) && IsBorder(m, x, y)
    ensures NeighbourWallCount(m, x, y) >= 5
  {
    NeighbourWallCountExpanded(m, x, y);
  }

  // ---------------------------------------------------------------------
  // smoothMap: cells are updated in place, x outer and y inner, so each
  // count reads the neighbours already updated earlier in the same pass.

  /** The update smoothMap makes at (x, y): wall above four walls, floor below four, unchanged at four. */
  function SmoothCell(m: Grid, x: int, y: int): (r: Grid)
    requires IsGrid(m) && InRange(m, x, y)
    ensures SameShape(m, r)
  {
    var walls := NeighbourWallCount(m, x, y);
    if walls > 4 then Set(m, x, y, 1)
    else if walls < 4 then Set(m, x, y, 0)
    else m
  }

  /** The grid after cells (x, 0) .. (x, y - 1) of column x were updated, in that order. */
  function SmoothColumn(m: Grid, x: int, y: nat): (r: Grid)
    requires IsGrid(m) && 0 <= x < |m| && y <= Height(m)
    ensures SameShape(m, r)
  {
    if y == 0 then m else SmoothCell(SmoothColumn(m, x, y - 1), x, y - 1)
  }

  /** The grid after columns 0 .. x - 1 were smoothed, in that order. */
  function SmoothColumns(m: Grid, x: nat): (r: Grid)
    requires IsGrid(m) && x <= |m|
    ensures SameShape(m, r)
  {
    if x == 0 then m else SmoothColumn(SmoothColumns(m, x - 1), x - 1, Height(m))
  }

  /** One full smoothMap pass. */
  function SmoothPass(m: Grid): (r: Grid)
    requires IsGrid(m)
    ensures SameShape(m, r)
  {
    SmoothColumns(m, |m|)
  }

  /** The grid after n passes (generateMap runs five). */
  function SmoothTimes(m: Grid, n: nat): (r: Grid)
    requires IsGrid(m)
    ensures SameShape(m, r)
  {
    if n == 0 then m else SmoothPass(SmoothTimes(m, n - 1))
  }

  lemma {:induction false} SmoothColumnKeepsBinary(m: Grid, x: int, y: nat)
    requires IsGrid(m) && IsBinary(m) && 0 <= x < |m| && y <= Height(m)
    ensures IsBinary(SmoothColumn(m, x, y))
  {
    if y > 0 {
      SmoothColumnKeepsBinary(m, x, y - 1);
    }
  }

  lemma {:induction false} SmoothColumnsKeepBinary(m: Grid, x: nat)
    requires IsGrid(m) && IsBinary(m) && x <= |m|
    ensures IsBinary(SmoothColumns(m, x))
  {
    if x > 0 {
      SmoothColumnsKeepBinary(m, x - 1);
      SmoothColumnKeepsBinary(SmoothColumns(m, x - 1), x - 1, Height(m));
    }
  }

  /** Smoothing keeps every tile in {0, 1}. */
  lemma {:induction false} SmoothTimesKeepsBinary(m: Grid, n: nat)
    requires IsGrid(m) && IsBinary(m)
    ensures IsBinary(SmoothTimes(m, n))
  {
    if n > 0 {
      SmoothTimesKeepsBinary(m, n - 1);
      SmoothColumnsKeepBinary(SmoothTimes(m, n - 1), |m|);
    }
  }

  lemma SmoothCellKeepsBorder(m: Grid, x: int, y: int)
    requires IsGrid(m) && IsBinary(m) && BorderIsWall(m) && InRange(m, x, y)
    ensures IsBinary(SmoothCell(m, x, y)) && BorderIsWall(SmoothCell(m, x, y))
  {
    if IsBorder(m, x, y) {
      BorderTileSeesFiveWalls(m, x, y);
    }
  }

  lemma {:induction false} SmoothColumnKeepsBorder(m: Grid, x: int, y: nat)
    requires IsGrid(m) && IsBinary(m) && BorderIsWall(m) && 0 <= x < |m| && y <= Height(m)
    ensures IsBinary(SmoothColumn(m, x, y)) && BorderIsWall(SmoothColumn(m, x, y))
  {
    if y > 0 {
      SmoothColumnKeepsBorder(m, x, y - 1);
      SmoothCellKeepsBorder(SmoothColumn(m, x, y - 1), x, y - 1);
    }
  }

  lemma {:induction false} SmoothColumnsKeepBorder(m: Grid, x: nat)
    requires IsGrid(m) && IsBinary(m) && BorderIsWall(m) && x <= |m|
    ensures IsBinary(SmoothColumns(m, x)) && BorderIsWall(SmoothColumns(m, x))
  {
    if x > 0 {
      SmoothColumnsKeepBorder(m, x - 1);
      SmoothColumnKeepsBorder(SmoothColumns(m, x - 1), x - 1, Height(m));
    }
  }

  /** Every border tile is still a wall after any number of passes. */
  lemma {:induction false} SmoothTimesKeepsBorder(m: Grid, n: nat)
    requires IsGrid(m) && IsBinary(m) && BorderIsWall(m)
    ensures IsBinary(SmoothTimes(m, n)) && BorderIsWall(SmoothTimes(m, n))
  {
    if n > 0 {
      SmoothTimesKeepsBorder(m, n - 1);
      SmoothColumnsKeepBorder(SmoothTimes(m, n - 1), |m|);
    }
  }

  // ---------------------------------------------------------------------
  // Regions: 4-adjacency, and the tile updates processMap makes.

  /** Up, down, left or right of each other. */
  predicate Adjacent(a: Coord, b: Coord)
  {
    (a.tileX == b.tileX && (a.tileY - b.tileY == 1 || b.tileY - a.tileY == 1)) ||
    (a.tileY == b.tileY && (a.tileX - b.tileX == 1 || b.tileX - a.tileX == 1))
  }

  /** The cells of the 3x3 window around c that satisfy `x === tileX || y === tileY`,
      in the x-outer, y-inner order the loops visit them. */
  function AxisWindow(c: Coord): (w: seq<Coord>)
    ensures |w| == 5
    ensures forall n :: n in w <==> n == c || Adjacent(c, n)
  {
    [Coord(c.tileX - 1, c.tileY), Coord(c.tileX, c.tileY - 1), c,
     Coord(c.tileX, c.tileY + 1), Coord(c.tileX + 1, c.tileY)]
  }

  predicate TileIs(m: Grid, c: Coord, t: int)
    requires IsGrid(m)
  {
    InRange(m, c.tileX, c.tileY) && m[c.tileX][c.tileY] == t
  }

  predicate Distinct(s: seq<Coord>)
  {
    forall i, j :: 0 <= i < j < |s| ==> s[i] != s[j]
  }

  /** The k-th tile is adjacent to an earlier one. */
  predicate JoinsEarlier(s: seq<Coord>, k: int)
    requires 0 <= k < |s|
  {
    exists j :: 0 <= j < k && Adjacent(s[j], s[k])
  }

  /** Every tile after the first is adjacent to an earlier one. */
  predicate GrowsByAdjacency(s: seq<Coord>)
  {
    forall k :: 0 < k < |s| ==> JoinsEarlier(s, k)
  }

  /** No tile of type t adjacent to a tile of s is missing from s. */
  ghost predicate ClosedUnder(m: Grid, s: seq<Coord>, t: int)
    requires IsGrid(m)
  {
    forall i, n :: 0 <= i < |s| && Adjacent(s[i], n) && TileIs(m, n, t) ==> n in s
  }

  /** If a sequence that grows by adjacency through tiles of type t meets a
      set closed under type-t adjacency, its first tile lies in that set. */
  lemma {:induction false} FirstTileInClosedSet(m: Grid, s: seq<Coord>, t: int, r: seq<Coord>, k: nat)
    requires IsGrid(m) && GrowsByAdjacency(s) && ClosedUnder(m, r, t)
    requires forall i :: 0 <= i < |s| ==> TileIs(m, s[i], t)
    requires k < |s| && s[k] in r
    ensures s[0] in r
  {
    if k > 0 {
      assert JoinsEarlier(s, k);
      var j :| 0 <= j < k && Adjacent(s[j], s[k]);
      var i :| 0 <= i < |r| && r[i] == s[k];
      assert Adjacent(r[i], s[j]);
      FirstTileInClosedSet(m, s, t, r, j);
    }
  }

  /** A region of type t (what getRegionTiles returns): distinct type-t
      tiles, each after the first adjacent to an earlier one, with no type-t
      neighbour left out. */
  ghost predicate IsRegion(m: Grid, t: int, r: seq<Coord>)
    requires IsGrid(m)
  {
    |r| > 0 && Distinct(r) && (forall i :: 0 <= i < |r| ==> TileIs(m, r[i], t)) &&
    GrowsByAdjacency(r) && ClosedUnder(m, r, t)
  }

  /** Pairwise disjoint regions of type t: what getRegions has found so far. */
  ghost predicate RegionList(m: Grid, t: int, regions: seq<seq<Coord>>)
    requires IsGrid(m)
  {
    (forall k :: 0 <= k < |regions| ==> IsRegion(m, t, regions[k])) &&
    (forall k, l, c :: 0 <= k < l < |regions| && c in regions[k] ==> c !in regions[l])
  }

  /** The regions of type t (what getRegions returns): pairwise disjoint
      regions that together hold every type-t tile. */
  ghost predicate RegionsOf(m: Grid, t: int, regions: seq<seq<Coord>>)
    requires IsGrid(m)
  {
    RegionList(m, t, regions) &&
    (forall x, y :: InRange(m, x, y) && m[x][y] == t ==> exists k :: 0 <= k < |regions| && Coord(x, y) in regions[k])
  }

  /** What a region is before its closure is complete: distinct type-t
      tiles, each after the first adjacent to an earlier one. */
  ghost predicate GrowingRegion(m: Grid, t: int, s: seq<Coord>)
    requires IsGrid(m)
  {
    Distinct(s) && GrowsByAdjacency(s) && forall i :: 0 <= i < |s| ==> TileIs(m, s[i], t)
  }

  /** A tile next to the p-th keeps a sequence growing by adjacency. */
  lemma AppendKeepsAdjacency(s: seq<Coord>, p: int, n: Coord)
    requires GrowsByAdjacency(s) && 0 <= p < |s| && Adjacent(s[p], n)
    ensures GrowsByAdjacency(s + [n])
  {
    forall k | 0 < k < |s + [n]|
      ensures JoinsEarlier(s + [n], k)
    {
      if k == |s| {
        assert (s + [n])[p] == s[p] && (s + [n])[k] == n;
        assert 0 <= p < k && Adjacent((s + [n])[p], (s + [n])[k]);
      } else {
        assert JoinsEarlier(s, k);
        var j :| 0 <= j < k && Adjacent(s[j], s[k]);
        assert (s + [n])[j] == s[j] && (s + [n])[k] == s[k];
        assert 0 <= j < k && Adjacent((s + [n])[j], (s + [n])[k]);
      }
    }
  }

  /** A new type-t tile next to one already listed extends a growing region. */
  lemma GrowingRegionAppend(m: Grid, t: int, s: seq<Coord>, p: int, n: Coord)
    requires IsGrid(m) && GrowingRegion(m, t, s)
    requires 0 <= p < |s| && Adjacent(s[p], n) && n !in s && TileIs(m, n, t)
    ensures GrowingRegion(m, t, s + [n])
  {
    var s' := s + [n];
    AppendKeepsAdjacency(s, p, n);
    forall i, j | 0 <= i < j < |s'|
      ensures s'[i] != s'[j]
    {
      if j == |s| {
        assert s'[i] == s[i] && s[i] in s;
      } else {
        assert s'[i] == s[i] && s'[j] == s[j];
      }
    }
    forall i | 0 <= i < |s'|
      ensures TileIs(m, s'[i], t)
    {
      if i < |s| {
        assert s'[i] == s[i];
      }
    }
  }

  /** Every tile of the regions listed. */
  ghost function Covered(regions: seq<seq<Coord>>): set<Coord>
  {
    if regions == [] then {}
    else
      var last := regions[|regions| - 1];
      Covered(regions[..|regions| - 1]) + set c | c in last
  }

  lemma {:induction false} CoveredMeans(regions: seq<seq<Coord>>, c: Coord)
    ensures c in Covered(regions) <==> exists k :: 0 <= k < |regions| && c in regions[k]
  {
    if regions != [] {
      var prefix := regions[..|regions| - 1];
      CoveredMeans(prefix, c);
      if c in Covered(regions) && c !in regions[|regions| - 1] {
        var k :| 0 <= k < |prefix| && c in prefix[k];
        assert regions[k] == prefix[k];
      }
    }
  }

  /** A region whose first tile no earlier region holds shares no tile with any of them. */
  lemma NewRegionIsDisjoint(m: Grid, t: int, regions: seq<seq<Coord>>, r: seq<Coord>)
    requires IsGrid(m) && IsRegion(m, t, r) && r[0] !in Covered(regions)
    requires forall k :: 0 <= k < |regions| ==> IsRegion(m, t, regions[k])
    ensures forall k, c :: 0 <= k < |regions| && c in r ==> c !in regions[k]
  {
    CoveredMeans(regions, r[0]);
    forall k, c | 0 <= k < |regions| && c in r
      ensures c !in regions[k]
    {
      if c in regions[k] {
        var idx :| 0 <= idx < |r| && r[idx] == c;
        FirstTileInClosedSet(m, r, t, regions[k], idx);
        assert false;
      }
    }
  }

  /** a comes before b in getRegions' scan: x outer, y inner. */
  predicate ScanBefore(a: Coord, b: Coord)
  {
    a.tileX < b.tileX || (a.tileX == b.tileX && a.tileY < b.tileY)
  }

  /** Each region starts at its first tile in scan order, and the regions
      come in the scan order of those first tiles: the order in which
      getRegions' scan meets them. */
  ghost predicate InScanOrder(regions: seq<seq<Coord>>)
  {
    (forall k :: 0 <= k < |regions| ==> |regions[k]| > 0) &&
    (forall k, c :: 0 <= k < |regions| && c in regions[k] ==> c == regions[k][0] || ScanBefore(regions[k][0], c)) &&
    (forall k, l :: 0 <= k < l < |regions| ==> ScanBefore(regions[k][0], regions[l][0]))
  }

  /** Every region listed starts before c in scan order. */
  ghost predicate SeedsBefore(regions: seq<seq<Coord>>, c: Coord)
  {
    forall k :: 0 <= k < |regions| ==> |regions[k]| > 0 && ScanBefore(regions[k][0], c)
  }

  /** Appending a region that starts at a keeps every start before b, for b after a. */
  lemma SeedsAppend(regions: seq<seq<Coord>>, r: seq<Coord>, a: Coord, b: Coord)
    requires SeedsBefore(regions, a) && |r| > 0 && r[0] == a && ScanBefore(a, b)
    ensures SeedsBefore(regions + [r], b)
  {
    forall k | 0 <= k < |regions + [r]|
      ensures |(regions + [r])[k]| > 0 && ScanBefore((regions + [r])[k][0], b)
    {
      if k < |regions| {
        assert (regions + [r])[k] == regions[k];
      }
    }
  }

  /** Every type-t tile the scan has passed before c is in a listed region. */
  ghost predicate CoveredBefore(m: Grid, t: int, regions: seq<seq<Coord>>, c: Coord)
    requires IsGrid(m)
  {
    forall i, j :: InRange(m, i, j) && ScanBefore(Coord(i, j), c) && m[i][j] == t ==> Coord(i, j) in Covered(regions)
  }

  /** One step of the scan: once c itself is covered (when it is of type t),
      every type-t tile before the next position is covered. */
  lemma CoveredAdvance(m: Grid, t: int, before: seq<seq<Coord>>, regions: seq<seq<Coord>>, c: Coord)
    requires IsGrid(m) && CoveredBefore(m, t, before, c) && Covered(before) <= Covered(regions)
    requires TileIs(m, c, t) ==> c in Covered(regions)
    ensures CoveredBefore(m, t, regions, Coord(c.tileX, c.tileY + 1))
  {
    forall i, j | InRange(m, i, j) && ScanBefore(Coord(i, j), Coord(c.tileX, c.tileY + 1)) && m[i][j] == t
      ensures Coord(i, j) in Covered(regions)
    {
      if ScanBefore(Coord(i, j), c) {
        assert Coord(i, j) in Covered(before);
      } else {
        assert Coord(i, j) == c;
      }
    }
  }

  /** The region the scan finds at its first tile, where every earlier
      type-t tile is already covered, extends the list found so far and
      keeps it in scan order. */
  lemma RegionListAppend(m: Grid, t: int, regions: seq<seq<Coord>>, r: seq<Coord>)
    requires IsGrid(m) && RegionList(m, t, regions) && InScanOrder(regions)
    requires IsRegion(m, t, r) && r[0] !in Covered(regions)
    requires SeedsBefore(regions, r[0]) && CoveredBefore(m, t, regions, r[0])
    ensures RegionList(m, t, regions + [r]) && InScanOrder(regions + [r])
    ensures Covered(regions + [r]) == Covered(regions) + set c | c in r
  {
    var rs := regions + [r];
    NewRegionIsDisjoint(m, t, regions, r);
    ScanOrderAppend(m, t, regions, r);
    assert rs[..|rs| - 1] == regions;
    forall k | 0 <= k < |rs|
      ensures IsRegion(m, t, rs[k])
    {
      if k < |regions| {
        assert rs[k] == regions[k];
      }
    }
    forall k, l, c | 0 <= k < l < |rs| && c in rs[k]
      ensures c !in rs[l]
    {
      assert rs[k] == regions[k];
      if l < |regions| {
        assert rs[l] == regions[l];
      }
    }
  }

  /** The end of a column of the scan is the start of the next. */
  lemma CoveredNextColumn(m: Grid, t: int, regions: seq<seq<Coord>>, x: int)
    requires IsGrid(m) && CoveredBefore(m, t, regions, Coord(x, Height(m)))
    ensures CoveredBefore(m, t, regions, Coord(x + 1, 0))
  {
    forall i, j | InRange(m, i, j) && ScanBefore(Coord(i, j), Coord(x + 1, 0)) && m[i][j] == t
      ensures Coord(i, j) in Covered(regions)
    {
      assert ScanBefore(Coord(i, j), Coord(x, Height(m)));
    }
  }

  /** The region the scan finds at c, where every earlier type-t tile is
      already covered, keeps the list in scan order. */
  lemma ScanOrderAppend(m: Grid, t: int, regions: seq<seq<Coord>>, r: seq<Coord>)
    requires IsGrid(m) && InScanOrder(regions) && IsRegion(m, t, r) && SeedsBefore(regions, r[0])
    requires forall k, c :: 0 <= k < |regions| && c in r ==> c !in regions[k]
    requires CoveredBefore(m, t, regions, r[0])
    ensures InScanOrder(regions + [r])
  {
    var rs := regions + [r];
    forall c | c in r
      ensures c == r[0] || ScanBefore(r[0], c)
    {
      var i :| 0 <= i < |r| && r[i] == c;
      assert TileIs(m, r[i], t);
      if c != r[0] && !ScanBefore(r[0], c) {
        assert ScanBefore(Coord(c.tileX, c.tileY), r[0]);
        CoveredMeans(regions, c);
        assert false;
      }
    }
    forall k, c | 0 <= k < |rs| && c in rs[k]
      ensures c == rs[k][0] || ScanBefore(rs[k][0], c)
    {
      if k < |regions| {
        assert rs[k] == regions[k];
      }
    }
    forall k, l | 0 <= k < l < |rs|
      ensures ScanBefore(rs[k][0], rs[l][0])
    {
      assert rs[k] == regions[k];
      if l < |regions| {
        assert rs[l] == regions[l];
      }
    }
  }

  ghost function AllTiles(m: Grid): (all: set<Coord>)
    ensures forall c :: c in all <==> InRange(m, c.tileX, c.tileY)
  {
    var all := set x, y | 0 <= x < |m| && 0 <= y < Height(m) :: Coord(x, y);
    assert forall c: Coord :: InRange(m, c.tileX, c.tileY) ==> Coord(c.tileX, c.tileY) in all;
    all
  }

  /** Every tile of ts set to v, in order. */
  function SetTiles(m: Grid, ts: seq<Coord>, v: int): (r: Grid)
    requires IsGrid(m)
    requires forall i :: 0 <= i < |ts| ==> InRange(m, ts[i].tileX, ts[i].tileY)
    ensures SameShape(m, r)
  {
    if ts == [] then m
    else
      var last := ts[|ts| - 1];
      var before := SetTiles(m, ts[..|ts| - 1], v);
      assert InRange(m, last.tileX, last.tileY);
      assert SameShape(m, before);
      assert InRange(before, last.tileX, last.tileY);
      Set(before, last.tileX, last.tileY, v)
  }

  /** A tile is v after SetTiles exactly when it is listed, and keeps its value otherwise. */
  lemma {:induction false} SetTilesAt(m: Grid, ts: seq<Coord>, v: int, x: int, y: int)
    requires IsGrid(m) && InRange(m, x, y)
    requires forall i :: 0 <= i < |ts| ==> InRange(m, ts[i].tileX, ts[i].tileY)
    ensures SetTiles(m, ts, v)[x][y] == if Coord(x, y) in ts then v else m[x][y]
  {
    if ts != [] {
      SetTilesAt(m, ts[..|ts| - 1], v, x, y);
      assert ts == ts[..|ts| - 1] + [ts[|ts| - 1]];
    }
  }

  /** Every tile of every region lies on the grid. */
  predicate RegionTilesInRange(m: Grid, regions: seq<seq<Coord>>)
  {
    forall k, i :: 0 <= k < |regions| && 0 <= i < |regions[k]| ==>
      InRange(m, regions[k][i].tileX, regions[k][i].tileY)
  }

  /** One threshold pass of processMap over m: `regions` are the type-t
      regions of m in scan order, and `after` is m with each of them below
      `threshold` overwritten with v. */
  ghost predicate ThresholdPass(m: Grid, t: int, regions: seq<seq<Coord>>, threshold: int, v: int, after: Grid)
  {
    IsGrid(m) && RegionsOf(m, t, regions) && InScanOrder(regions) && RegionTilesInRange(m, regions) &&
    after == ThresholdFill(m, regions, threshold, v)
  }

  /** The grid after processMap's threshold pass over `regions`: in scan
      order, every region of fewer than `threshold` tiles is overwritten
      with v. */
  function ThresholdFill(m: Grid, regions: seq<seq<Coord>>, threshold: int, v: int): (r: Grid)
    requires IsGrid(m) && RegionTilesInRange(m, regions)
    ensures SameShape(m, r)
  {
    if regions == [] then m
    else
      var last := regions[|regions| - 1];
      var before := ThresholdFill(m, regions[..|regions| - 1], threshold, v);
      assert forall i :: 0 <= i < |last| ==> InRange(before, last[i].tileX, last[i].tileY);
      if |last| < threshold then SetTiles(before, last, v) else before
  }

  /** A tile becomes v exactly when it belongs to a region below the
      threshold; every other tile keeps its value. */
  lemma {:induction false} ThresholdFillAt(m: Grid, regions: seq<seq<Coord>>, threshold: int, v: int, x: int, y: int)
    requires IsGrid(m) && RegionTilesInRange(m, regions) && InRange(m, x, y)
    ensures ThresholdFill(m, regions, threshold, v)[x][y] ==
      if exists k :: 0 <= k < |regions| && |regions[k]| < threshold && Coord(x, y) in regions[k] then v else m[x][y]
  {
    if regions != [] {
      var prefix, last := regions[..|regions| - 1], regions[|regions| - 1];
      ThresholdFillAt(m, prefix, threshold, v, x, y);
      var before := ThresholdFill(m, prefix, threshold, v);
      if |last| < threshold {
        SetTilesAt(before, last, v, x, y);
      }
      if exists k :: 0 <= k < |regions| && |regions[k]| < threshold && Coord(x, y) in regions[k] {
        var k :| 0 <= k < |regions| && |regions[k]| < threshold && Coord(x, y) in regions[k];
        if k < |prefix| {
          assert prefix[k] == regions[k];
        }
      } else {
        forall k | 0 <= k < |prefix| && |prefix[k]| < threshold
          ensures Coord(x, y) !in prefix[k]
        {
          assert prefix[k] == regions[k];
        }
      }
    }
  }

  /** The tiles of the regions of a grid lie on it. */
  lemma RegionsInRange(m: Grid, t: int, regions: seq<seq<Coord>>)
    requires IsGrid(m) && RegionsOf(m, t, regions)
    ensures RegionTilesInRange(m, regions)
  {
    forall k, i | 0 <= k < |regions| && 0 <= i < |regions[k]|
      ensures InRange(m, regions[k][i].tileX, regions[k][i].tileY)
    {
      assert IsRegion(m, t, regions[k]);
    }
  }

  /** Filling with 0 or 1 keeps a 0/1 grid 0/1. */
  lemma ThresholdFillKeepsBinary(m: Grid, regions: seq<seq<Coord>>, threshold: int, v: int)
    requires IsGrid(m) && IsBinary(m) && RegionTilesInRange(m, regions) && (v == 0 || v == 1)
    ensures IsBinary(ThresholdFill(m, regions, threshold, v))
  {
    var r := ThresholdFill(m, regions, threshold, v);
    forall x, y | InRange(r, x, y)
      ensures r[x][y] == 0 || r[x][y] == 1
    {
      ThresholdFillAt(m, regions, threshold, v, x, y);
    }
  }

  /** In a 0/1 grid, after the threshold pass over the regions of type t
      with the other type as fill, one tile is of type t exactly when it
      belongs to a region of at least `threshold` tiles. */
  lemma SurvivingTileAt(m: Grid, t: int, regions: seq<seq<Coord>>, threshold: int, fill: int, x: int, y: int)
    requires IsGrid(m) && (t == 0 || t == 1) && fill == 1 - t && RegionTilesInRange(m, regions) && InRange(m, x, y)
    requires m[x][y] == 0 || m[x][y] == 1
    requires forall k, i :: 0 <= k < |regions| && 0 <= i < |regions[k]| ==> TileIs(m, regions[k][i], t)
    requires forall k, l, c :: 0 <= k < l < |regions| && c in regions[k] ==> c !in regions[l]
    requires m[x][y] == t ==> exists k :: 0 <= k < |regions| && Coord(x, y) in regions[k]
    ensures var v := ThresholdFill(m, regions, threshold, fill)[x][y];
      (v == 0 || v == 1) &&
      (v == t <==> exists k :: 0 <= k < |regions| && |regions[k]| >= threshold && Coord(x, y) in regions[k])
  {
    ThresholdFillAt(m, regions, threshold, fill, x, y);
    var v := ThresholdFill(m, regions, threshold, fill)[x][y];
    var c := Coord(x, y);
    if k :| 0 <= k < |regions| && |regions[k]| >= threshold && c in regions[k] {
      assert forall l :: 0 <= l < |regions| && |regions[l]| < threshold ==> c !in regions[l];
      assert v == m[x][y];
      var i :| 0 <= i < |regions[k]| && regions[k][i] == c;
      assert TileIs(m, regions[k][i], t);
    } else if m[x][y] == t {
      var k :| 0 <= k < |regions| && c in regions[k];
      assert |regions[k]| < threshold;
      assert v == fill;
    } else {
      assert v == fill;
    }
  }

  /** The threshold pass over the regions of type t of a 0/1 grid,
      overwriting the small ones with the other type: the grid stays 0/1,
      and a tile is of type t afterwards exactly when it belongs to a
      region of at least `threshold` tiles. */
  lemma SurvivingTiles(m: Grid, t: int, regions: seq<seq<Coord>>, threshold: int, fill: int)
    requires IsGrid(m) && IsBinary(m) && (t == 0 || t == 1) && fill == 1 - t && RegionsOf(m, t, regions)
    ensures RegionTilesInRange(m, regions)
    ensures IsBinary(ThresholdFill(m, regions, threshold, fill))
    ensures forall x, y :: InRange(m, x, y) ==>
      (ThresholdFill(m, regions, threshold, fill)[x][y] == t <==>
       exists k :: 0 <= k < |regions| && |regions[k]| >= threshold && Coord(x, y) in regions[k])
  {
    forall k, i | 0 <= k < |regions| && 0 <= i < |regions[k]|
      ensures InRange(m, regions[k][i].tileX, regions[k][i].tileY)
    {
      assert IsRegion(m, t, regions[k]);
    }
    forall k, i | 0 <= k < |regions| && 0 <= i < |regions[k]|
      ensures TileIs(m, regions[k][i], t)
    {
      assert IsRegion(m, t, regions[k]);
    }
    var r := ThresholdFill(m, regions, threshold, fill);
    forall x, y | InRange(r, x, y)
      ensures r[x][y] == 0 || r[x][y] == 1
      ensures r[x][y] == t <==> exists k :: 0 <= k < |regions| && |regions[k]| >= threshold && Coord(x, y) in regions[k]
    {
      SurvivingTileAt(m, t, regions, threshold, fill, x, y);
    }
  }

  // ---------------------------------------------------------------------
  // drawCircle and getLine

  /** Offset (dx, dy) is visited by drawCircle's loops (-r..r) and passes x*x + y*y <= r*r. */
  predicate InDisk(dx: int, dy: int, r: int)
  {
    -r <= dx <= r && -r <= dy <= r && dx * dx + dy * dy <= r * r
  }

  /** The grid after drawCircle(c, r): in-range tiles of the disk become floor. */
  function Carve(m: Grid, c: Coord, r: int): (g: Grid)
    requires IsGrid(m)
    ensures SameShape(m, g)
  {
    seq(|m|, x requires 0 <= x < |m| =>
      seq(|m[x]|, y requires 0 <= y < |m[x]| =>
        if InDisk(x - c.tileX, y - c.tileY, r) then 0 else m[x][y]))
  }

  /** The grid after a disk was carved at every point of a line, in order. */
  function CarveAll(m: Grid, line: seq<Coord>, r: int): (g: Grid)
    requires IsGrid(m)
    ensures SameShape(m, g)
  {
    if line == [] then m else Carve(CarveAll(m, line[..|line| - 1], r), line[|line| - 1], r)
  }

  /** A carved tile is floor inside the disk and unchanged outside it. */
  lemma CarveAt(m: Grid, c: Coord, r: int, x: int, y: int)
    requires IsGrid(m) && InRange(m, x, y)
    ensures Carve(m, c, r)[x][y] == if InDisk(x - c.tileX, y - c.tileY, r) then 0 else m[x][y]
  {
  }

  /** Carving only ever turns tiles to floor: a 0/1 grid stays 0/1, and a tile
      that changes is within radius r of some point of the line. */
  lemma {:induction false} CarveAllOnlyClears(m: Grid, line: seq<Coord>, r: int, x: int, y: int)
    requires IsGrid(m) && InRange(m, x, y)
    ensures CarveAll(m, line, r)[x][y] == m[x][y] ||
            (CarveAll(m, line, r)[x][y] == 0 &&
             exists i :: 0 <= i < |line| && InDisk(x - line[i].tileX, y - line[i].tileY, r))
  {
    if line != [] {
      var prefix, c := line[..|line| - 1], line[|line| - 1];
      var g := CarveAll(m, prefix, r);
      CarveAllOnlyClears(m, prefix, r, x, y);
      assert CarveAll(m, line, r) == Carve(g, c, r);
      CarveAt(g, c, r, x, y);
      if InDisk(x - c.tileX, y - c.tileY, r) {
        assert line[|line| - 1] == c;
      } else if g[x][y] != m[x][y] {
        var i :| 0 <= i < |prefix| && InDisk(x - prefix[i].tileX, y - prefix[i].tileY, r);
        assert line[i] == prefix[i];
      }
    }
  }

  /** Carving keeps a 0/1 grid 0/1. */
  lemma CarveAllKeepsBinary(m: Grid, line: seq<Coord>, r: int)
    requires IsGrid(m) && IsBinary(m)
    ensures IsBinary(CarveAll(m, line, r))
  {
    forall x, y | InRange(m, x, y)
      ensures CarveAll(m, line, r)[x][y] == 0 || CarveAll(m, line, r)[x][y] == 1
    {
      CarveAllOnlyClears(m, line, r, x, y);
    }
  }

  /** b differs from a only by tiles that became floor. */
  ghost predicate OnlyCleared(a: Grid, b: Grid)
  {
    SameShape(a, b) && forall x, y :: InRange(a, x, y) ==> b[x][y] == a[x][y] || b[x][y] == 0
  }

  lemma CarveAllIsOnlyCleared(m: Grid, line: seq<Coord>, r: int)
    requires IsGrid(m)
    ensures OnlyCleared(m, CarveAll(m, line, r))
  {
    forall x, y | InRange(m, x, y)
      ensures CarveAll(m, line, r)[x][y] == m[x][y] || CarveAll(m, line, r)[x][y] == 0
    {
      CarveAllOnlyClears(m, line, r, x, y);
    }
  }

  lemma OnlyClearedTransitive(a: Grid, b: Grid, c: Grid)
    requires OnlyCleared(a, b) && OnlyCleared(b, c)
    ensures OnlyCleared(a, c)
  {
  }

  /** Two grids of one shape that agree on every tile are equal. */
  lemma GridsEqual(a: Grid, b: Grid)
    requires SameShape(a, b)
    requires forall x, y :: InRange(a, x, y) ==> a[x][y] == b[x][y]
    ensures a == b
  {
    forall x | 0 <= x < |a|
      ensures a[x] == b[x]
    {
      forall y | 0 <= y < |a[x]|
        ensures a[x][y] == b[x][y]
      {
        assert InRange(a, x, y);
      }
    }
  }

  function Abs(n: int): nat
  {
    if n < 0 then -n else n
  }

  /** `d >= 0 ? 1 : -1` */
  function Sign(d: int): int
  {
    if d >= 0 then 1 else -1
  }

  // getLine(a, b) in closed form. The main axis is the one with the larger
  // distance (x on a tie); the line takes `longest` unit steps along it,
  // starting at a and stopping one short of b, and after i steps it has
  // moved GradientSteps(longest, shortest, i) tiles along the other axis.

  /** The main axis is y: |dx| < |dy|. */
  predicate Inverted(a: Coord, b: Coord)
  {
    Abs(b.tileX - a.tileX) < Abs(b.tileY - a.tileY)
  }

  function Longest(a: Coord, b: Coord): nat
  {
    if Inverted(a, b) then Abs(b.tileY - a.tileY) else Abs(b.tileX - a.tileX)
  }

  function Shortest(a: Coord, b: Coord): nat
  {
    if Inverted(a, b) then Abs(b.tileX - a.tileX) else Abs(b.tileY - a.tileY)
  }

  /** Direction of travel along the main axis. */
  function MainStep(a: Coord, b: Coord): int
  {
    if Inverted(a, b) then Sign(b.tileY - a.tileY) else Sign(b.tileX - a.tileX)
  }

  /** Direction of travel along the other axis. */
  function GradientStep(a: Coord, b: Coord): int
  {
    if Inverted(a, b) then Sign(b.tileX - a.tileX) else Sign(b.tileY - a.tileY)
  }

  /** i * shortest / longest rounded to the nearest whole number, halves rounded down. */
  function GradientSteps(longest: nat, shortest: nat, i: nat): nat
    requires longest > 0
  {
    (2 * i * shortest + longest - 1) / (2 * longest)
  }

  /** k steps in direction `step` (1 or -1). */
  function Offset(k: int, step: int): int
  {
    if step >= 0 then k else -k
  }

  /** The main-axis and other-axis coordinates of a tile. */
  function Along(c: Coord, inverted: bool): int
  {
    if inverted then c.tileY else c.tileX
  }

  function Across(c: Coord, inverted: bool): int
  {
    if inverted then c.tileX else c.tileY
  }

  function LinePoint(a: Coord, b: Coord, i: nat): Coord
    requires i < Longest(a, b)
  {
    var along := Offset(i, MainStep(a, b));
    var across := Offset(GradientSteps(Longest(a, b), Shortest(a, b), i), GradientStep(a, b));
    if Inverted(a, b) then Coord(a.tileX + across, a.tileY + along)
    else Coord(a.tileX + along, a.tileY + across)
  }

  /** The tiles getLine(a, b) returns. */
  function LineTiles(a: Coord, b: Coord): (line: seq<Coord>)
    ensures |line| == Longest(a, b)
  {
    seq(Longest(a, b), i requires 0 <= i < Longest(a, b) => LinePoint(a, b, i))
  }

  lemma {:induction false} MulAtLeast(d: int, k: int)
    requires d > 0 && k >= 1
    ensures d * k >= d
    decreases k
  {
    if k > 1 {
      MulAtLeast(d, k - 1);
      assert d * k == d * (k - 1) + d;
    }
  }

  /** The quotient of a division is pinned down by its bounds. */
  lemma DivisionUnique(n: int, d: int, q: int)
    requires d > 0 && d * q <= n < d * q + d
    ensures n / d == q
  {
    var q', r := n / d, n % d;
    assert n == d * q' + r && 0 <= r < d;
    if q' < q {
      MulAtLeast(d, q - q');
    } else if q' > q {
      MulAtLeast(d, q' - q);
    }
  }

  /** After i main-axis steps the line is less than half a tile from the exact
      segment: 2 * longest * m - 2 * i * shortest lies in [-longest, longest). */
  lemma GradientStepsNearest(longest: nat, shortest: nat, i: nat)
    requires longest > 0
    ensures var l: int, m: int := longest, GradientSteps(longest, shortest, i);
            -l <= 2 * (m * l) - 2 * (i * shortest) < l
  {
    var l: int := longest;
    var n, d := 2 * i * shortest + l - 1, 2 * l;
    assert n == d * (n / d) + n % d && 0 <= n % d < d;
  }

  /** Consecutive gradient step counts differ by 0 or 1. */
  lemma GradientStepsGrow(longest: nat, shortest: nat, i: nat)
    requires longest > 0 && shortest <= longest && i > 0
    ensures var delta := GradientSteps(longest, shortest, i) - GradientSteps(longest, shortest, i - 1);
            delta == 0 || delta == 1
  {
    var l: int := longest;
    var m1: int, m2: int := GradientSteps(longest, shortest, i - 1), GradientSteps(longest, shortest, i);
    GradientStepsNearest(longest, shortest, i - 1);
    GradientStepsNearest(longest, shortest, i);
    MulSucc(i - 1, shortest);
    var p1, p2 := m1 * l, m2 * l;
    var delta := m2 - m1;
    assert delta * l == p2 - p1;
    assert -l < p2 - p1 < 2 * l;
    if delta < 0 {
      MulAtLeast(l, -delta);
    } else if delta > 1 {
      MulAtLeast(l, delta - 1);
    }
  }

  /** getLine's doubled accumulator pins down how many gradient steps were taken. */
  lemma AccumulatorGivesSteps(longest: nat, shortest: nat, i: nat, steps: nat, accumulation: int)
    requires longest > 0 && 0 < accumulation <= 2 * longest
    requires accumulation == longest + 2 * (i * shortest) - 2 * (steps * longest)
    ensures steps == GradientSteps(longest, shortest, i)
  {
    assert 2 * i * shortest == 2 * (i * shortest);
    assert 2 * longest * steps == 2 * (steps * longest);
    DivisionUnique(2 * i * shortest + longest - 1, 2 * longest, steps);
  }

  lemma MulSucc(a: int, b: int)
    ensures (a + 1) * b == a * b + b
  {
  }

  /** getLine's gradientAccumulation after i main-axis steps, doubled: it
      starts at longest and gains 2 * shortest a step, less 2 * longest for
      every gradient step taken. */
  function Accumulator(longest: nat, shortest: nat, i: nat): int
    requires longest > 0
  {
    longest + 2 * (i * shortest) - 2 * (GradientSteps(longest, shortest, i) * longest)
  }

  /** The accumulator starts at longest and stays in (0, 2 * longest]. */
  lemma AccumulatorBounds(longest: nat, shortest: nat, i: nat)
    requires longest > 0
    ensures GradientSteps(longest, shortest, 0) == 0 && Accumulator(longest, shortest, 0) == longest
    ensures 0 < Accumulator(longest, shortest, i) <= 2 * longest
  {
    assert GradientSteps(longest, shortest, 0) == 0;
    GradientStepsNearest(longest, shortest, i);
  }

  /** One step of getLine's loop: the accumulator gains 2 * shortest, and
      when that passes 2 * longest a gradient step is taken and 2 * longest
      is given back. */
  lemma {:induction false} AccumulatorStep(longest: nat, shortest: nat, i: nat)
    requires longest > 0 && shortest <= longest
    ensures var a, m := Accumulator(longest, shortest, i), GradientSteps(longest, shortest, i);
            if a + 2 * shortest > 2 * longest then
              GradientSteps(longest, shortest, i + 1) == m + 1 &&
              Accumulator(longest, shortest, i + 1) == a + 2 * shortest - 2 * longest
            else
              GradientSteps(longest, shortest, i + 1) == m &&
              Accumulator(longest, shortest, i + 1) == a + 2 * shortest
  {
    var a, m := Accumulator(longest, shortest, i), GradientSteps(longest, shortest, i);
    AccumulatorBounds(longest, shortest, i);
    MulSucc(i, shortest);
    MulSucc(m, longest);
    var p, q := i * shortest, m * longest;
    assert a == longest + 2 * p - 2 * q;
    if a + 2 * shortest > 2 * longest {
      AccumulatorGivesSteps(longest, shortest, i + 1, m + 1, a + 2 * shortest - 2 * longest);
    } else {
      AccumulatorGivesSteps(longest, shortest, i + 1, m, a + 2 * shortest);
    }
  }

  /** A tile reached by i main-axis steps and the right number of gradient steps is the line's i-th tile. */
  lemma LinePointFromSteps(a: Coord, b: Coord, i: nat, p: Coord)
    requires i < Longest(a, b)
    requires Along(p, Inverted(a, b)) == Along(a, Inverted(a, b)) + Offset(i, MainStep(a, b))
    requires Across(p, Inverted(a, b)) == Across(a, Inverted(a, b)) + Offset(GradientSteps(Longest(a, b), Shortest(a, b), i), GradientStep(a, b))
    ensures p == LinePoint(a, b, i)
  {
  }

  /** The line starts at a, never reaches b, and is empty exactly when a == b. */
  lemma LineEnds(a: Coord, b: Coord)
    ensures |LineTiles(a, b)| == 0 <==> a == b
    ensures |LineTiles(a, b)| > 0 ==> LineTiles(a, b)[0] == a
    ensures b !in LineTiles(a, b)
  {
    var line := LineTiles(a, b);
    var inv := Inverted(a, b);
    if |line| > 0 {
      assert GradientSteps(Longest(a, b), Shortest(a, b), 0) == 0;
    }
    forall i | 0 <= i < |line|
      ensures line[i] != b
    {
      assert Along(b, inv) - Along(a, inv) == Offset(Longest(a, b), MainStep(a, b));
      assert Along(line[i], inv) - Along(a, inv) == Offset(i, MainStep(a, b));
    }
  }

  /** Consecutive tiles of the line are one step apart along the main axis
      and zero or one step apart, towards b, along the other. */
  lemma LineSteps(a: Coord, b: Coord, i: nat)
    requires 0 < i < Longest(a, b)
    ensures Along(LineTiles(a, b)[i], Inverted(a, b)) - Along(LineTiles(a, b)[i - 1], Inverted(a, b)) == MainStep(a, b)
    ensures var d := Across(LineTiles(a, b)[i], Inverted(a, b)) - Across(LineTiles(a, b)[i - 1], Inverted(a, b));
            d == 0 || d == GradientStep(a, b)
  {
    GradientStepsGrow(Longest(a, b), Shortest(a, b), i);
  }

  /** The map generateMap hands to the mesh generator: m inside a frame of
      b wall tiles on every side. */
  function Bordered(m: Grid, b: nat): (r: Grid)
    requires IsGrid(m)
    ensures |r| == |m| + 2 * b
    ensures forall x :: 0 <= x < |r| ==> |r[x]| == Height(m) + 2 * b
  {
    seq(|m| + 2 * b, x =>
      seq(Height(m) + 2 * b, y =>
        if b <= x < |m| + b && b <= y < Height(m) + b then m[x - b][y - b] else 1))
  }

  /** The bordered map is rectangular, holds m shifted by b, is wall
      everywhere else, stays binary, and keeps a wall frame. */
  lemma BorderedFrame(m: Grid, b: nat)
    requires IsGrid(m) && |m| > 0
    ensures var r := Bordered(m, b);
      IsGrid(r) && Height(r) == Height(m) + 2 * b &&
      (forall x, y :: InRange(m, x, y) ==> r[x + b][y + b] == m[x][y]) &&
      (forall x, y :: InRange(r, x, y) && !InRange(m, x - b, y - b) ==> r[x][y] == 1) &&
      (IsBinary(m) ==> IsBinary(r)) &&
      (IsBinary(m) && BorderIsWall(m) ==> BorderIsWall(r))
  {
    var r := Bordered(m, b);
    assert Height(r) == Height(m) + 2 * b;
    if IsBinary(m) && BorderIsWall(m) {
      forall x, y | InRange(r, x, y) && IsBorder(r, x, y)
        ensures r[x][y] == 1
      {
        if InRange(m, x - b, y - b) {
          assert IsBorder(m, x - b, y - b);
        }
      }
    }
  }
}
