/** class MapGenerator: random fill, smoothing, region processing, room
    connection by carved passages, and the bordered map handed to the mesher. */
module MapGen {
  import opened Tiles
  import opened Rooms
  import Mesh

  /** Math.pow(dx, 2) + Math.pow(dy, 2) between two tiles. */
  function SquaredDistance(a: Coord, b: Coord): int
  {
    (a.tileX - b.tileX) * (a.tileX - b.tileX) + (a.tileY - b.tileY) * (a.tileY - b.tileY)
  }

  /** The closest pair connectClosestRooms has found so far (bestDistance,
      bestTileA, bestTileB, bestRoomA, bestRoomB, possibleConnectionFound);
      the placeholder rooms it starts from are null here. */
  datatype Best = Best(found: bool, distance: int, tileA: Coord, tileB: Coord, roomA: Room?, roomB: Room?)

  /** Edge-tile pair (i, j) of the two rooms is at the smallest distance of
      all pairs, strictly closer than every pair before it in scan order,
      and strictly closer than the pair found before the scan. */
  ghost predicate FirstClosestPair(roomA: Room, roomB: Room, best: Best, i: int, j: int)
  {
    var ea, eb := roomA.edgeTiles, roomB.edgeTiles;
    0 <= i < |ea| && 0 <= j < |eb| &&
    (best.found ==> SquaredDistance(ea[i], eb[j]) < best.distance) &&
    (forall i', j' :: 0 <= i' < |ea| && 0 <= j' < |eb| ==> SquaredDistance(ea[i], eb[j]) <= SquaredDistance(ea[i'], eb[j'])) &&
    (forall i', j' :: 0 <= i' < |ea| && 0 <= j' < |eb| && (i' < i || (i' == i && j' < j)) ==>
      SquaredDistance(ea[i], eb[j]) < SquaredDistance(ea[i'], eb[j']))
  }

  /** The tileIndexA / tileIndexB scan of connectClosestRooms over one pair
      of rooms: a pair replaces the best one when it is strictly closer, or
      when nothing was found yet. */
  method ScanRoomPair(roomA: Room, roomB: Room, best: Best) returns (result: Best)
    ensures result.found <==> best.found || (roomA.edgeTiles != [] && roomB.edgeTiles != [])
    ensures result.found ==> forall i, j :: 0 <= i < |roomA.edgeTiles| && 0 <= j < |roomB.edgeTiles| ==>
      result.distance <= SquaredDistance(roomA.edgeTiles[i], roomB.edgeTiles[j])
    ensures best.found ==> result.distance <= best.distance
    ensures result == best ||
      exists i, j :: FirstClosestPair(roomA, roomB, best, i, j) &&
        result == Best(true, SquaredDistance(roomA.edgeTiles[i], roomB.edgeTiles[j]),
                       roomA.edgeTiles[i], roomB.edgeTiles[j], roomA, roomB)
  {
    var ea, eb := roomA.edgeTiles, roomB.edgeTiles;
    result := best;
    ghost var ci, cj := -1, -1;
    for tileIndexA := 0 to |ea|
      invariant result.found <==> best.found || (tileIndexA > 0 && eb != [])
      invariant result.found ==> forall i, j :: 0 <= i < tileIndexA && 0 <= j < |eb| ==>
        result.distance <= SquaredDistance(ea[i], eb[j])
      invariant best.found ==> result.distance <= best.distance
      invariant ci == -1 ==> result == best
      invariant ci != -1 ==> (0 <= ci < tileIndexA && 0 <= cj < |eb| &&
        result == Best(true, SquaredDistance(ea[ci], eb[cj]), ea[ci], eb[cj], roomA, roomB) &&
        (best.found ==> result.distance < best.distance) &&
        forall i, j :: 0 <= i < |ea| && 0 <= j < |eb| && (i < ci || (i == ci && j < cj)) ==>
          result.distance < SquaredDistance(ea[i], eb[j]))
    {
      for tileIndexB := 0 to |eb|
        invariant result.found <==> best.found || ((tileIndexA > 0 || tileIndexB > 0) && eb != [])
        invariant result.found ==> forall i, j :: 0 <= i < |ea| && 0 <= j < |eb| && (i < tileIndexA || (i == tileIndexA && j < tileIndexB)) ==>
          result.distance <= SquaredDistance(ea[i], eb[j])
        invariant best.found ==> result.distance <= best.distance
        invariant ci == -1 ==> result == best
        invariant ci != -1 ==> (0 <= ci <= tileIndexA && 0 <= cj < |eb| && (ci == tileIndexA ==> cj < tileIndexB) &&
          result == Best(true, SquaredDistance(ea[ci], eb[cj]), ea[ci], eb[cj], roomA, roomB) &&
          (best.found ==> result.distance < best.distance) &&
          forall i, j :: 0 <= i < |ea| && 0 <= j < |eb| && (i < ci || (i == ci && j < cj)) ==>
            result.distance < SquaredDistance(ea[i], eb[j]))
      {
        var tileA, tileB := ea[tileIndexA], eb[tileIndexB];
        var distanceBetweenRooms := SquaredDistance(tileA, tileB);
        if distanceBetweenRooms < result.distance || !result.found {
          result := Best(true, distanceBetweenRooms, tileA, tileB, roomA, roomB);
          ci, cj := tileIndexA, tileIndexB;
        }
      }
    }
    if ci != -1 {
      assert FirstClosestPair(roomA, roomB, best, ci, cj);
    }
  }

  /** roomA and roomB are distinct, unconnected rooms whose edge tiles the search compares. */
  predicate Scanned(roomA: Room, roomB: Room)
    reads roomA
  {
    roomA.id != roomB.id && !roomA.IsConnectedTo(roomB)
  }

  /** The best pair after scanning roomA's edge tiles against those of
      room roomB: the pair (i, j). */
  function PairAt(roomA: Room, roomB: Room, i: int, j: int): Best
    requires 0 <= i < |roomA.edgeTiles| && 0 <= j < |roomB.edgeTiles|
  {
    Best(true, SquaredDistance(roomA.edgeTiles[i], roomB.edgeTiles[j]), roomA.edgeTiles[i], roomB.edgeTiles[j], roomA, roomB)
  }

  /** Edge-tile pair (i, j) between roomA and roomListB[k] is the one the
      roomListB loop keeps: roomListB[k] is scanned, (i, j) is the first
      closest pair of that room and beats the pair found before, and every
      pair of a scanned room earlier in roomListB is strictly farther. */
  ghost predicate ChosenAt(roomA: Room, roomListB: seq<Room>, best: Best, k: int, i: int, j: int)
    reads roomA
  {
    0 <= k < |roomListB| && Scanned(roomA, roomListB[k]) && FirstClosestPair(roomA, roomListB[k], best, i, j) &&
    forall k', i', j' ::
      (0 <= k' < k && Scanned(roomA, roomListB[k']) && 0 <= i' < |roomA.edgeTiles| && 0 <= j' < |roomListB[k'].edgeTiles|) ==>
      SquaredDistance(roomA.edgeTiles[i], roomListB[k].edgeTiles[j]) < SquaredDistance(roomA.edgeTiles[i'], roomListB[k'].edgeTiles[j'])
  }

  /** result is the pair the roomListB loop keeps when it starts from best. */
  ghost predicate ClosestFrom(roomA: Room, roomListB: seq<Room>, best: Best, result: Best)
    reads roomA
  {
    exists k, i, j :: ChosenAt(roomA, roomListB, best, k, i, j) && result == PairAt(roomA, roomListB[k], i, j)
  }

  /** result is found exactly when best was or a scanned room among the
      first n of roomListB gives a pair. */
  ghost predicate FoundSoFar(roomA: Room, roomListB: seq<Room>, best: Best, n: int, result: Best)
    reads roomA
    requires 0 <= n <= |roomListB|
  {
    result.found <==> (best.found ||
      exists b :: b in roomListB[..n] && Scanned(roomA, b) && roomA.edgeTiles != [] && b.edgeTiles != [])
  }

  /** result is best or the pair kept among the first n rooms of roomListB. */
  ghost predicate KeptSoFar(roomA: Room, roomListB: seq<Room>, best: Best, n: int, result: Best)
    reads roomA
  {
    result == best ||
    exists k, i, j :: k < n && ChosenAt(roomA, roomListB, best, k, i, j) && result == PairAt(roomA, roomListB[k], i, j)
  }

  /** No pair of a scanned room among the first n of roomListB is closer than result. */
  ghost predicate BoundSoFar(roomA: Room, roomListB: seq<Room>, n: int, result: Best)
    reads roomA
    requires 0 <= n <= |roomListB|
  {
    result.found ==> forall b, i, j ::
      (b in roomListB[..n] && Scanned(roomA, b) && 0 <= i < |roomA.edgeTiles| && 0 <= j < |b.edgeTiles|) ==>
      result.distance <= SquaredDistance(roomA.edgeTiles[i], b.edgeTiles[j])
  }

  /** What the roomListB loop knows after the first n rooms. */
  ghost predicate SearchState(roomA: Room, roomListB: seq<Room>, best: Best, n: int, result: Best)
    reads roomA
  {
    0 <= n <= |roomListB| &&
    FoundSoFar(roomA, roomListB, best, n, result) &&
    KeptSoFar(roomA, roomListB, best, n, result) &&
    (best.found ==> result.distance <= best.distance) &&
    BoundSoFar(roomA, roomListB, n, result)
  }

  /** The roomListB loop of connectClosestRooms for one roomA: rooms with
      roomA's id or already connected to it are skipped, the others scanned. */
  method SearchFrom(roomA: Room, roomListB: seq<Room>, best: Best) returns (result: Best)
    ensures result.found <==> (best.found ||
      exists b :: b in roomListB && Scanned(roomA, b) && roomA.edgeTiles != [] && b.edgeTiles != [])
    ensures result == best || ClosestFrom(roomA, roomListB, best, result)
    ensures best.found ==> result.distance <= best.distance
    ensures result.found ==> forall b, i, j ::
      (b in roomListB && Scanned(roomA, b) && 0 <= i < |roomA.edgeTiles| && 0 <= j < |b.edgeTiles|) ==>
      result.distance <= SquaredDistance(roomA.edgeTiles[i], b.edgeTiles[j])
  {
    result := best;
    assert roomListB[..0] == [];
    for ib := 0 to |roomListB|
      invariant SearchState(roomA, roomListB, best, ib, result)
    {
      result := SearchStep(roomA, roomListB, best, ib, result);
    }
    assert roomListB[..|roomListB|] == roomListB;
  }

  /** One round of the roomListB loop: roomListB[n] is skipped or scanned. */
  method SearchStep(roomA: Room, roomListB: seq<Room>, best: Best, n: int, result0: Best) returns (result: Best)
    requires SearchState(roomA, roomListB, best, n, result0) && n < |roomListB|
    ensures SearchState(roomA, roomListB, best, n + 1, result)
  {
    var roomB := roomListB[n];
    result := result0;
    if roomA.id == roomB.id || roomA.IsConnectedTo(roomB) {
      SkipKeeps(roomA, roomListB, best, n, result0);
      return;
    }
    result := ScanRoomPair(roomA, roomB, result0);
    ScanKeeps(roomA, roomListB, best, n, result0, result);
  }

  /** Skipping a room that is not scanned keeps the search state. */
  lemma SkipKeeps(roomA: Room, roomListB: seq<Room>, best: Best, n: int, result: Best)
    requires SearchState(roomA, roomListB, best, n, result) && n < |roomListB|
    requires !Scanned(roomA, roomListB[n])
    ensures SearchState(roomA, roomListB, best, n + 1, result)
  {
    assert roomListB[..n + 1] == roomListB[..n] + [roomListB[n]];
  }

  /** Scanning room roomListB[n] as ScanRoomPair does keeps the search state. */
  lemma ScanKeeps(roomA: Room, roomListB: seq<Room>, best: Best, n: int, result0: Best, result: Best)
    requires SearchState(roomA, roomListB, best, n, result0) && n < |roomListB|
    requires Scanned(roomA, roomListB[n])
    requires var roomB := roomListB[n];
      (result.found <==> result0.found || (roomA.edgeTiles != [] && roomB.edgeTiles != [])) &&
      (result.found ==> forall i, j :: 0 <= i < |roomA.edgeTiles| && 0 <= j < |roomB.edgeTiles| ==>
        result.distance <= SquaredDistance(roomA.edgeTiles[i], roomB.edgeTiles[j])) &&
      (result0.found ==> result.distance <= result0.distance) &&
      (result == result0 ||
        exists i, j :: FirstClosestPair(roomA, roomB, result0, i, j) && result == PairAt(roomA, roomB, i, j))
    ensures SearchState(roomA, roomListB, best, n + 1, result)
  {
    var roomB := roomListB[n];
    assert roomListB[..n + 1] == roomListB[..n] + [roomB];
    ScanFound(roomA, roomListB, best, n, result0, result);
    if result != result0 {
      var i, j :| FirstClosestPair(roomA, roomB, result0, i, j) && result == PairAt(roomA, roomB, i, j);
      ChosenHere(roomA, roomListB, best, result0, n, i, j);
    }
    ScanBound(roomA, roomListB, n, result0, result);
  }

  /** FoundSoFar after scanning roomListB[n]. */
  lemma ScanFound(roomA: Room, roomListB: seq<Room>, best: Best, n: int, result0: Best, result: Best)
    requires 0 <= n < |roomListB| && FoundSoFar(roomA, roomListB, best, n, result0)
    requires Scanned(roomA, roomListB[n])
    requires result.found <==> result0.found || (roomA.edgeTiles != [] && roomListB[n].edgeTiles != [])
    ensures FoundSoFar(roomA, roomListB, best, n + 1, result)
  {
    assert roomListB[..n + 1] == roomListB[..n] + [roomListB[n]];
  }

  /** BoundSoFar after scanning roomListB[n]. */
  lemma ScanBound(roomA: Room, roomListB: seq<Room>, n: int, result0: Best, result: Best)
    requires 0 <= n < |roomListB| && BoundSoFar(roomA, roomListB, n, result0)
    requires result0.found || !exists b :: b in roomListB[..n] && Scanned(roomA, b) && roomA.edgeTiles != [] && b.edgeTiles != []
    requires var roomB := roomListB[n];
      (result.found ==> forall i, j :: 0 <= i < |roomA.edgeTiles| && 0 <= j < |roomB.edgeTiles| ==>
        result.distance <= SquaredDistance(roomA.edgeTiles[i], roomB.edgeTiles[j])) &&
      (result0.found ==> result.distance <= result0.distance)
    ensures BoundSoFar(roomA, roomListB, n + 1, result)
  {
    var roomB := roomListB[n];
    var prefix, next := roomListB[..n], roomListB[..n + 1];
    assert next == prefix + [roomB];
    if result.found {
      forall b, i, j | b in next && Scanned(roomA, b) && 0 <= i < |roomA.edgeTiles| && 0 <= j < |b.edgeTiles|
        ensures result.distance <= SquaredDistance(roomA.edgeTiles[i], b.edgeTiles[j])
      {
        if b != roomB {
          assert b in prefix && result0.found;
        }
      }
    }
  }

  /** A pair of room roomListB[k] that beats the best so far is the one the
      loop keeps: it beats the pair the search started from, and every
      scanned room before k. */
  lemma ChosenHere(roomA: Room, roomListB: seq<Room>, best: Best, previous: Best, k: int, i: int, j: int)
    requires 0 <= k < |roomListB| && Scanned(roomA, roomListB[k])
    requires FirstClosestPair(roomA, roomListB[k], previous, i, j)
    requires best.found ==> previous.found && previous.distance <= best.distance
    requires FoundSoFar(roomA, roomListB, best, k, previous) && BoundSoFar(roomA, roomListB, k, previous)
    ensures ChosenAt(roomA, roomListB, best, k, i, j)
  {
    forall k', i', j' | 0 <= k' < k && Scanned(roomA, roomListB[k']) &&
      0 <= i' < |roomA.edgeTiles| && 0 <= j' < |roomListB[k'].edgeTiles|
      ensures SquaredDistance(roomA.edgeTiles[i], roomListB[k].edgeTiles[j]) < SquaredDistance(roomA.edgeTiles[i'], roomListB[k'].edgeTiles[j'])
    {
      assert roomListB[k'] in roomListB[..k];
    }
  }

  /** Growing the flood-fill queue by one tile after a run of tiles. */
  lemma AppendOne<T>(a: seq<T>, b: seq<T>, x: T)
    ensures a + (b + [x]) == (a + b) + [x]
  {
  }

  /** The rooms of rs whose accessibility flag is `accessible`, in the order of rs. */
  ghost function WithAccess(rs: seq<Room>, accessible: bool): seq<Room>
    reads RoomSet(rs)
  {
    if rs == [] then []
    else
      var last := rs[|rs| - 1];
      assert RoomSet(rs[..|rs| - 1]) <= RoomSet(rs);
      WithAccess(rs[..|rs| - 1], accessible) + (if last.isAccessibleFromMainRoom == accessible then [last] else [])
  }

  /** The forced pass's lists: the rooms outside the main room's reach, and
      the rooms inside it, each in the order of allRooms. */
  method SplitByAccess(allRooms: seq<Room>) returns (roomListA: seq<Room>, roomListB: seq<Room>)
    ensures roomListA == WithAccess(allRooms, false) && roomListB == WithAccess(allRooms, true)
    ensures forall r :: r in roomListA <==> r in allRooms && !r.isAccessibleFromMainRoom
    ensures forall r :: r in roomListB <==> r in allRooms && r.isAccessibleFromMainRoom
  {
    roomListA, roomListB := [], [];
    for k := 0 to |allRooms|
      invariant roomListA == WithAccess(allRooms[..k], false) && roomListB == WithAccess(allRooms[..k], true)
      invariant forall r :: r in roomListA <==> r in allRooms[..k] && !r.isAccessibleFromMainRoom
      invariant forall r :: r in roomListB <==> r in allRooms[..k] && r.isAccessibleFromMainRoom
    {
      var room := allRooms[k];
      if room.isAccessibleFromMainRoom {
        roomListB := roomListB + [room];
      } else {
        roomListA := roomListA + [room];
      }
      assert allRooms[..k + 1] == allRooms[..k] + [room];
      assert allRooms[..k + 1][..k] == allRooms[..k];
    }
    assert allRooms[..|allRooms|] == allRooms;
  }

  /** A room with edge tiles while some other room has edge tiles too: the
      greedy pass of connectClosestRooms gives it a connection. */
  ghost predicate Joinable(rooms: seq<Room>, a: Room)
  {
    a.edgeTiles != [] && exists b :: b in rooms && b != a && b.edgeTiles != []
  }

  /** Every room that could be joined has a connection. */
  ghost predicate EveryJoinableRoomLinked(rooms: seq<Room>)
    reads RoomSet(rooms)
  {
    forall a :: a in rooms && Joinable(rooms, a) ==> |a.connectedRooms| > 0
  }

  /** No room outside the main room's reach can be joined to one inside it:
      for every such pair one of the two has no edge tiles. */
  ghost predicate NoJoinablePair(rooms: seq<Room>)
    reads RoomSet(rooms)
  {
    forall a, b :: a in rooms && b in rooms && !a.isAccessibleFromMainRoom && b.isAccessibleFromMainRoom ==>
      a.edgeTiles == [] || b.edgeTiles == []
  }

  class MapGenerator {
    const mapWidth: nat
    const mapHeight: nat
    const fillPercent: int
    const borderSize: nat
    const wallHeight: int
    const wallThresholdSize: int
    const roomThresholdSize: int
    const passagewaySize: int
    var tileMap: Grid
    var borderedMap: Grid
    var meshGen: Mesh.MeshGenerator?

    /** The map is mapWidth x mapHeight (no columns at all when mapWidth
        is 0) and holds only walls and floor. */
    ghost predicate Valid()
      reads this
    {
      IsGrid(tileMap) && |tileMap| == mapWidth && (mapWidth > 0 ==> Height(tileMap) == mapHeight) && IsBinary(tileMap)
    }

    constructor (width: nat, height: nat, fill: int, border: nat, wallH: int,
                 wallThreshold: int, roomThreshold: int, passageway: int)
      ensures mapWidth == width && mapHeight == height && fillPercent == fill && borderSize == border
      ensures wallHeight == wallH && wallThresholdSize == wallThreshold
      ensures roomThresholdSize == roomThreshold && passagewaySize == passageway
      ensures tileMap == [] && borderedMap == [] && meshGen == null
    {
      mapWidth := width;
      mapHeight := height;
      fillPercent := fill;
      borderSize := border;
      wallHeight := wallH;
      wallThresholdSize := wallThreshold;
      roomThresholdSize := roomThreshold;
      passagewaySize := passageway;
      tileMap := [];
      borderedMap := [];
      meshGen := null;
    }

    /** The tile randomFillMap puts at (x, y) when random(100) yields roll(x, y) there. */
    function FillValue(roll: (int, int) -> real, x: int, y: int): int
    {
      if x == 0 || x > mapWidth - 2 || y == 0 || y > mapHeight - 2 then 1
      else if roll(x, y) < fillPercent as real then 1
      else 0
    }

    /** randomFillMap: the frame of the map is wall; an inner tile is wall
        exactly when its draw is below fillPercent. */
    method RandomFillMap(roll: (int, int) -> real)
      modifies this`tileMap
      ensures Valid() && BorderIsWall(tileMap)
      ensures forall x, y :: 0 <= x < mapWidth && 0 <= y < mapHeight ==> tileMap[x][y] == FillValue(roll, x, y)
    {
      tileMap := [];
      var x := 0;
      while x < mapWidth
        invariant 0 <= x <= mapWidth && |tileMap| == x
        invariant forall i :: 0 <= i < x ==> |tileMap[i]| == mapHeight
        invariant forall i, j :: 0 <= i < x && 0 <= j < mapHeight ==> tileMap[i][j] == FillValue(roll, i, j)
      {
        var column: seq<int> := [];
        var y := 0;
        while y < mapHeight
          invariant 0 <= y <= mapHeight && |column| == y
          invariant forall j :: 0 <= j < y ==> column[j] == FillValue(roll, x, j)
        {
          if x == 0 || x > mapWidth - 2 || y == 0 || y > mapHeight - 2 {
            column := column + [1];
          } else {
            column := column + [if roll(x, y) < fillPercent as real then 1 else 0];
          }
          y := y + 1;
        }
        tileMap := tileMap + [column];
        x := x + 1;
      }
    }

    /** isInMapRange */
    predicate IsInMapRange(x: int, y: int)
      reads this
    {
      InRange(tileMap, x, y)
    }

    /** The flood-fill state of getRegionTiles: `order` lists the tiles
        dequeued and queued so far, exactly their flags are set, and
        `unseen` holds the in-range tiles not listed. */
    ghost predicate FloodState(mapFlags: array2<bool>, tileType: int, order: seq<Coord>, unseen: set<Coord>)
      reads this, mapFlags
    {
      IsGrid(tileMap) && mapFlags.Length0 == |tileMap| && mapFlags.Length1 == Height(tileMap) &&
      GrowingRegion(tileMap, tileType, order) &&
      (forall i, j :: InRange(tileMap, i, j) ==> (mapFlags[i, j] <==> Coord(i, j) in order)) &&
      (forall c :: c in unseen <==> InRange(tileMap, c.tileX, c.tileY) && c !in order)
    }

    /** The body of getRegionTiles' neighbour loops for one neighbour `n`
        of a listed tile: an in-range, unflagged tile of the region's type
        is flagged and queued; anything else is skipped. */
    method VisitNeighbour(n: Coord, tileType: int, mapFlags: array2<bool>, queue0: seq<Coord>,
                          ghost unseen0: set<Coord>, ghost order0: seq<Coord>, ghost parent: int)
      returns (queue: seq<Coord>, ghost unseen: set<Coord>, ghost order: seq<Coord>)
      requires FloodState(mapFlags, tileType, order0, unseen0)
      requires 0 <= parent < |order0| && (n == order0[parent] || Adjacent(order0[parent], n))
      modifies mapFlags
      ensures FloodState(mapFlags, tileType, order, unseen)
      ensures (queue == queue0 && order == order0 && unseen == unseen0) ||
              (queue == queue0 + [n] && order == order0 + [n] && unseen < unseen0)
      ensures TileIs(tileMap, n, tileType) ==> n in order
    {
      queue, unseen, order := queue0, unseen0, order0;
      if IsInMapRange(n.tileX, n.tileY) {
        if !mapFlags[n.tileX, n.tileY] && tileMap[n.tileX][n.tileY] == tileType {
          assert n == Coord(n.tileX, n.tileY);
          assert n !in order0;
          GrowingRegionAppend(tileMap, tileType, order0, parent, n);
          mapFlags[n.tileX, n.tileY] := true;
          unseen := unseen0 - {n};
          order := order0 + [n];
          queue := queue0 + [n];
        }
      }
      assert TileIs(tileMap, n, tileType) ==> n in order by {
        assert n == Coord(n.tileX, n.tileY);
      }
    }

    /** The neighbour loops of getRegionTiles for one dequeued tile: every
        in-range, unflagged up/down/left/right neighbour of the region's
        type is flagged and queued, in x-outer, y-inner order. */
    method VisitNeighbours(tile: Coord, tileType: int, mapFlags: array2<bool>, queue0: seq<Coord>,
                           ghost unseen0: set<Coord>, ghost order0: seq<Coord>, ghost parent: int)
      returns (queue: seq<Coord>, ghost unseen: set<Coord>, ghost order: seq<Coord>, ghost added: seq<Coord>)
      requires FloodState(mapFlags, tileType, order0, unseen0)
      requires 0 <= parent < |order0| && order0[parent] == tile
      modifies mapFlags
      ensures FloodState(mapFlags, tileType, order, unseen)
      ensures queue == queue0 + added && order == order0 + added
      ensures unseen <= unseen0 && (unseen == unseen0 ==> queue == queue0)
      ensures forall n :: Adjacent(tile, n) && TileIs(tileMap, n, tileType) ==> n in order
    {
      queue, unseen, order, added := queue0, unseen0, order0, [];
      var window := AxisWindow(tile);
      for k := 0 to |window|
        invariant FloodState(mapFlags, tileType, order, unseen)
        invariant queue == queue0 + added && order == order0 + added
        invariant unseen <= unseen0 && (unseen == unseen0 ==> queue == queue0)
        invariant forall j :: 0 <= j < k && TileIs(tileMap, window[j], tileType) ==> window[j] in order
      {
        ghost var before, queueBefore, addedBefore := order, queue, added;
        assert order[parent] == tile;
        queue, unseen, order := VisitNeighbour(window[k], tileType, mapFlags, queue, unseen, order, parent);
        if queue != queueBefore {
          added := added + [window[k]];
          AppendOne(queue0, addedBefore, window[k]);
          AppendOne(order0, addedBefore, window[k]);
        }
        forall j | 0 <= j <= k && TileIs(tileMap, window[j], tileType)
          ensures window[j] in order
        {
          if j < k {
            assert window[j] in before;
          }
        }
      }
    }

    /** Every type-t neighbour of a dequeued tile has been listed. */
    ghost predicate NeighboursListed(tiles: seq<Coord>, tileType: int, order: seq<Coord>)
      reads this
      requires IsGrid(tileMap)
    {
      forall i, n :: 0 <= i < |tiles| && Adjacent(tiles[i], n) && TileIs(tileMap, n, tileType) ==> n in order
    }

    /** Moving the head of the queue to the tiles keeps their concatenation. */
    lemma QueueShift(tiles: seq<Coord>, queue: seq<Coord>, added: seq<Coord>)
      requires |queue| > 0
      ensures tiles + queue + added == (tiles + [queue[0]]) + (queue[1..] + added)
    {
      assert queue == [queue[0]] + queue[1..];
    }

    /** One round of getRegionTiles' loop: the head of the queue is moved
        to the region's tiles and its neighbours are visited. */
    method Dequeue(tileType: int, mapFlags: array2<bool>, queue0: seq<Coord>, tiles0: seq<Coord>,
                   ghost unseen0: set<Coord>, ghost order0: seq<Coord>)
      returns (queue: seq<Coord>, tiles: seq<Coord>, ghost unseen: set<Coord>, ghost order: seq<Coord>)
      requires FloodState(mapFlags, tileType, order0, unseen0)
      requires order0 == tiles0 + queue0 && |queue0| > 0 && NeighboursListed(tiles0, tileType, order0)
      modifies mapFlags
      ensures FloodState(mapFlags, tileType, order, unseen) && order == tiles + queue
      ensures NeighboursListed(tiles, tileType, order)
      ensures order0 <= order
      ensures unseen < unseen0 || (unseen == unseen0 && |queue| < |queue0|)
    {
      var tile := queue0[0];
      queue := queue0[1..];
      tiles := tiles0 + [tile];
      ghost var added;
      QueueShift(tiles0, queue0, []);
      queue, unseen, order, added := VisitNeighbours(tile, tileType, mapFlags, queue, unseen0, order0, |tiles0|);
      QueueShift(tiles0, queue0, added);
    }

    /** getRegionTiles: breadth-first flood fill over up/down/left/right
        neighbours of the start tile's type, in visiting order. */
    method GetRegionTiles(startX: int, startY: int) returns (tiles: seq<Coord>)
      requires IsGrid(tileMap) && InRange(tileMap, startX, startY)
      ensures IsRegion(tileMap, tileMap[startX][startY], tiles)
      ensures tiles[0] == Coord(startX, startY)
    {
      var mapFlags := new bool[|tileMap|, |tileMap[0]|]((i, j) => false);
      var tileType := tileMap[startX][startY];
      var start := Coord(startX, startY);
      var queue := [start];
      mapFlags[startX, startY] := true;
      tiles := [];
      ghost var unseen := AllTiles(tileMap) - {start};
      ghost var order := [start];
      while |queue| > 0
        invariant FloodState(mapFlags, tileType, order, unseen)
        invariant order == tiles + queue && |order| > 0 && order[0] == start
        invariant NeighboursListed(tiles, tileType, order)
        decreases unseen, |queue|
      {
        ghost var order0 := order;
        queue, tiles, unseen, order := Dequeue(tileType, mapFlags, queue, tiles, unseen, order);
        assert order[0] == order0[0];
      }
      assert tiles == order;
    }

    /** The loop of getRegions that sets the flag of every tile of a region
        just found. */
    method FlagRegion(mapFlags: array2<bool>, region: seq<Coord>, ghost flagged: set<Coord>)
      requires IsGrid(tileMap) && mapFlags.Length0 == |tileMap| && mapFlags.Length1 == Height(tileMap)
      requires forall i :: 0 <= i < |region| ==> InRange(tileMap, region[i].tileX, region[i].tileY)
      requires forall i, j :: InRange(tileMap, i, j) ==> (mapFlags[i, j] <==> Coord(i, j) in flagged)
      modifies mapFlags
      ensures forall i, j :: InRange(tileMap, i, j) ==> (mapFlags[i, j] <==> Coord(i, j) in flagged || Coord(i, j) in region)
    {
      for t := 0 to |region|
        invariant forall i, j :: InRange(tileMap, i, j) ==>
          (mapFlags[i, j] <==> Coord(i, j) in flagged || Coord(i, j) in region[..t])
      {
        mapFlags[region[t].tileX, region[t].tileY] := true;
        assert region[..t + 1] == region[..t] + [region[t]];
      }
      assert region[..|region|] == region;
    }

    /** getRegions: the regions of tileType, in the order the x-outer, y-inner
        scan meets their first tiles. */
    method GetRegions(tileType: int) returns (regions: seq<seq<Coord>>)
      requires IsGrid(tileMap) && |tileMap| > 0
      ensures RegionsOf(tileMap, tileType, regions) && InScanOrder(regions)
    {
      var mapFlags := new bool[|tileMap|, |tileMap[0]|]((i, j) => false);
      regions := [];
      var x := 0;
      while x < |tileMap|
        invariant 0 <= x <= |tileMap|
        invariant ScanState(mapFlags, tileType, regions) && InScanOrder(regions)
        invariant SeedsBefore(regions, Coord(x, 0)) && CoveredBefore(tileMap, tileType, regions, Coord(x, 0))
      {
        var y := 0;
        while y < |tileMap[0]|
          invariant 0 <= y <= Height(tileMap)
          invariant ScanState(mapFlags, tileType, regions) && InScanOrder(regions)
          invariant SeedsBefore(regions, Coord(x, y)) && CoveredBefore(tileMap, tileType, regions, Coord(x, y))
        {
          regions := ScanTile(x, y, tileType, mapFlags, regions);
          y := y + 1;
        }
        CoveredNextColumn(tileMap, tileType, regions, x);
        x := x + 1;
      }
      forall i, j | InRange(tileMap, i, j) && tileMap[i][j] == tileType
        ensures exists k :: 0 <= k < |regions| && Coord(i, j) in regions[k]
      {
        assert ScanBefore(Coord(i, j), Coord(x, 0));
        CoveredMeans(regions, Coord(i, j));
      }
    }

    /** What getRegions' scan keeps: the regions found are disjoint regions
        of the type, and a tile is flagged exactly when one of them holds it. */
    ghost predicate ScanState(mapFlags: array2<bool>, tileType: int, regions: seq<seq<Coord>>)
      reads this, mapFlags
    {
      IsGrid(tileMap) && mapFlags.Length0 == |tileMap| && mapFlags.Length1 == Height(tileMap) &&
      RegionList(tileMap, tileType, regions) &&
      (forall i, j :: InRange(tileMap, i, j) ==> (mapFlags[i, j] <==> Coord(i, j) in Covered(regions)))
    }

    /** One step of getRegions' scan, at (x, y): a new region is added when
        the tile is of the type and not yet flagged. */
    method ScanTile(x: int, y: int, tileType: int, mapFlags: array2<bool>, regions0: seq<seq<Coord>>)
      returns (regions: seq<seq<Coord>>)
      requires ScanState(mapFlags, tileType, regions0) && InScanOrder(regions0) && InRange(tileMap, x, y)
      requires SeedsBefore(regions0, Coord(x, y)) && CoveredBefore(tileMap, tileType, regions0, Coord(x, y))
      modifies mapFlags
      ensures ScanState(mapFlags, tileType, regions) && InScanOrder(regions)
      ensures SeedsBefore(regions, Coord(x, y + 1)) && CoveredBefore(tileMap, tileType, regions, Coord(x, y + 1))
    {
      regions := regions0;
      if !mapFlags[x, y] && tileMap[x][y] == tileType {
        regions := AddRegionAt(x, y, tileType, mapFlags, regions);
      }
      CoveredAdvance(tileMap, tileType, regions0, regions, Coord(x, y));
    }

    /** getRegions meeting an unflagged tile of the type: its region is
        flood-filled, added and flagged. */
    method AddRegionAt(x: int, y: int, tileType: int, mapFlags: array2<bool>, regions0: seq<seq<Coord>>)
      returns (regions: seq<seq<Coord>>)
      requires ScanState(mapFlags, tileType, regions0) && InRange(tileMap, x, y)
      requires InScanOrder(regions0) && SeedsBefore(regions0, Coord(x, y))
      requires CoveredBefore(tileMap, tileType, regions0, Coord(x, y))
      requires !mapFlags[x, y] && tileMap[x][y] == tileType
      modifies mapFlags
      ensures ScanState(mapFlags, tileType, regions) && InScanOrder(regions)
      ensures SeedsBefore(regions, Coord(x, y + 1))
      ensures Covered(regions0) <= Covered(regions) && Coord(x, y) in Covered(regions)
    {
      var newRegion := GetRegionTiles(x, y);
      RegionListAppend(tileMap, tileType, regions0, newRegion);
      SeedsAppend(regions0, newRegion, Coord(x, y), Coord(x, y + 1));
      regions := regions0 + [newRegion];
      FlagRegion(mapFlags, newRegion, Covered(regions0));
    }

    /** `for (const tile of region) map[tile.tileX][tile.tileY] = v` */
    method SetRegionTiles(region: seq<Coord>, v: int)
      requires IsGrid(tileMap) && forall i :: 0 <= i < |region| ==> InRange(tileMap, region[i].tileX, region[i].tileY)
      modifies this`tileMap
      ensures tileMap == SetTiles(old(tileMap), region, v)
    {
      for i := 0 to |region|
        invariant tileMap == SetTiles(old(tileMap), region[..i], v)
      {
        assert region[..i + 1][..i] == region[..i];
        var tile := region[i];
        tileMap := tileMap[tile.tileX := tileMap[tile.tileX][tile.tileY := v]];
      }
      assert region[..|region|] == region;
    }

    /** The first loop of processMap: every region below the threshold is
        overwritten with v. */
    method FillSmallRegions(regions: seq<seq<Coord>>, threshold: int, v: int)
      requires IsGrid(tileMap) && RegionTilesInRange(tileMap, regions)
      modifies this`tileMap
      ensures tileMap == ThresholdFill(old(tileMap), regions, threshold, v)
    {
      for k := 0 to |regions|
        invariant RegionTilesInRange(old(tileMap), regions[..k])
        invariant tileMap == ThresholdFill(old(tileMap), regions[..k], threshold, v)
      {
        assert regions[..k + 1][..k] == regions[..k];
        assert RegionTilesInRange(old(tileMap), regions[..k + 1]);
        if |regions[k]| < threshold {
          SetRegionTiles(regions[k], v);
        }
      }
      assert regions[..|regions|] == regions;
    }

    /** A room processMap made from region `roomRegions[r.id]`, before any
        connection: its edge tiles are those of the map as it stood when the
        room was made, after the smaller regions before it were filled. */
    ghost predicate MadeFrom(r: Room, m1: Grid, roomRegions: seq<seq<Coord>>)
      requires IsGrid(m1) && RegionTilesInRange(m1, roomRegions)
    {
      0 <= r.id < |roomRegions| && r.tiles == roomRegions[r.id] && r.roomSize == |r.tiles| &&
      r.roomSize >= roomThresholdSize &&
      r.edgeTiles == EdgeTileList(ThresholdFill(m1, roomRegions[..r.id], roomThresholdSize, 1), r.tiles)
    }

    /** The rooms made from the first i room regions, in region order. */
    ghost predicate RoomsSoFar(survivingRooms: seq<Room>, m1: Grid, roomRegions: seq<seq<Coord>>, i: int)
      requires IsGrid(m1) && RegionTilesInRange(m1, roomRegions)
    {
      (forall r :: r in survivingRooms ==> MadeFrom(r, m1, roomRegions) && r.id < i) &&
      (forall k, l :: 0 <= k < l < |survivingRooms| ==> survivingRooms[k].id < survivingRooms[l].id) &&
      (forall j :: 0 <= j < i && j < |roomRegions| && |roomRegions[j]| >= roomThresholdSize ==>
        exists r :: r in survivingRooms && r.id == j)
    }

    /** Rooms as new Room leaves them: no connections, flags down. */
    ghost predicate Unlinked(rooms: seq<Room>)
      reads RoomSet(rooms)
    {
      forall r :: r in rooms ==> r.connectedRooms == [] && !r.isAccessibleFromMainRoom && !r.isMainRoom
    }

    /** One round of processMap's room loop, for region i. */
    method KeepRoom(roomRegions: seq<seq<Coord>>, i: int, survivingRooms0: seq<Room>, ghost m1: Grid)
      returns (survivingRooms: seq<Room>)
      requires IsGrid(m1) && RegionTilesInRange(m1, roomRegions) && 0 <= i < |roomRegions|
      requires tileMap == ThresholdFill(m1, roomRegions[..i], roomThresholdSize, 1)
      requires RoomsSoFar(survivingRooms0, m1, roomRegions, i)
      modifies this`tileMap
      ensures tileMap == ThresholdFill(m1, roomRegions[..i + 1], roomThresholdSize, 1)
      ensures RoomsSoFar(survivingRooms, m1, roomRegions, i + 1)
      ensures Unlinked(survivingRooms0) ==> Unlinked(survivingRooms)
      ensures forall r :: r in survivingRooms ==> r in survivingRooms0 || fresh(r)
    {
      assert roomRegions[..i + 1][..i] == roomRegions[..i];
      assert roomRegions[..i + 1][i] == roomRegions[i];
      survivingRooms := survivingRooms0;
      var roomRegion := roomRegions[i];
      if |roomRegion| < roomThresholdSize {
        SetRegionTiles(roomRegion, 1);
        SkipRegion(survivingRooms0, m1, roomRegions, i);
      } else {
        var room := new Room(i, roomRegion, tileMap);
        AddRoom(survivingRooms0, room, m1, roomRegions, i);
        survivingRooms := survivingRooms + [room];
      }
    }

    /** A region below the room threshold adds no room. */
    lemma SkipRegion(survivingRooms: seq<Room>, m1: Grid, roomRegions: seq<seq<Coord>>, i: int)
      requires IsGrid(m1) && RegionTilesInRange(m1, roomRegions) && 0 <= i < |roomRegions|
      requires |roomRegions[i]| < roomThresholdSize
      requires RoomsSoFar(survivingRooms, m1, roomRegions, i)
      ensures RoomsSoFar(survivingRooms, m1, roomRegions, i + 1)
    {
    }

    /** A room made from region i extends the rooms made so far. */
    lemma AddRoom(survivingRooms: seq<Room>, room: Room, m1: Grid, roomRegions: seq<seq<Coord>>, i: int)
      requires IsGrid(m1) && RegionTilesInRange(m1, roomRegions) && 0 <= i < |roomRegions|
      requires RoomsSoFar(survivingRooms, m1, roomRegions, i)
      requires room.id == i && room.tiles == roomRegions[i] && room.roomSize == |room.tiles|
      requires room.roomSize >= roomThresholdSize
      requires room.edgeTiles == EdgeTileList(ThresholdFill(m1, roomRegions[..i], roomThresholdSize, 1), room.tiles)
      ensures RoomsSoFar(survivingRooms + [room], m1, roomRegions, i + 1)
    {
      assert MadeFrom(room, m1, roomRegions);
      AddMadeFrom(survivingRooms, room, m1, roomRegions, i);
      AddIncreasing(survivingRooms, room, i);
      AddCovering(survivingRooms, room, roomRegions, i);
    }

    lemma AddMadeFrom(survivingRooms: seq<Room>, room: Room, m1: Grid, roomRegions: seq<seq<Coord>>, i: int)
      requires IsGrid(m1) && RegionTilesInRange(m1, roomRegions)
      requires forall r :: r in survivingRooms ==> MadeFrom(r, m1, roomRegions) && r.id < i
      requires MadeFrom(room, m1, roomRegions) && room.id == i
      ensures forall r :: r in survivingRooms + [room] ==> MadeFrom(r, m1, roomRegions) && r.id < i + 1
    {
    }

    lemma AddIncreasing(survivingRooms: seq<Room>, room: Room, i: int)
      requires forall r :: r in survivingRooms ==> r.id < i
      requires forall k, l :: 0 <= k < l < |survivingRooms| ==> survivingRooms[k].id < survivingRooms[l].id
      requires room.id == i
      ensures var rooms := survivingRooms + [room];
        forall k, l :: 0 <= k < l < |rooms| ==> rooms[k].id < rooms[l].id
    {
      var rooms := survivingRooms + [room];
      forall k, l | 0 <= k < l < |rooms|
        ensures rooms[k].id < rooms[l].id
      {
        assert rooms[k] == survivingRooms[k];
        assert survivingRooms[k] in survivingRooms;
      }
    }

    lemma AddCovering(survivingRooms: seq<Room>, room: Room, roomRegions: seq<seq<Coord>>, i: int)
      requires forall j :: 0 <= j < i && j < |roomRegions| && |roomRegions[j]| >= roomThresholdSize ==>
        exists r :: r in survivingRooms && r.id == j
      requires room.id == i
      ensures forall j :: 0 <= j < i + 1 && j < |roomRegions| && |roomRegions[j]| >= roomThresholdSize ==>
        exists r :: r in survivingRooms + [room] && r.id == j
    {
      var rooms := survivingRooms + [room];
      forall j | 0 <= j < i + 1 && j < |roomRegions| && |roomRegions[j]| >= roomThresholdSize
        ensures exists r :: r in rooms && r.id == j
      {
        if j == i {
          assert rooms[|rooms| - 1] == room;
        } else {
          var r :| r in survivingRooms && r.id == j;
          assert r in rooms;
        }
      }
    }

    /** The second loop of processMap: a region below the room threshold is
        overwritten with wall; every other one becomes a Room numbered by its
        region index. */
    method KeepRooms(roomRegions: seq<seq<Coord>>) returns (survivingRooms: seq<Room>)
      requires IsGrid(tileMap) && RegionTilesInRange(tileMap, roomRegions)
      modifies this`tileMap
      ensures tileMap == ThresholdFill(old(tileMap), roomRegions, roomThresholdSize, 1)
      ensures forall r :: r in survivingRooms ==> fresh(r)
      ensures RoomsSoFar(survivingRooms, old(tileMap), roomRegions, |roomRegions|) && Unlinked(survivingRooms)
    {
      ghost var m1 := tileMap;
      survivingRooms := [];
      for i := 0 to |roomRegions|
        invariant tileMap == ThresholdFill(m1, roomRegions[..i], roomThresholdSize, 1)
        invariant forall r :: r in survivingRooms ==> fresh(r)
        invariant Unlinked(survivingRooms)
        invariant RoomsSoFar(survivingRooms, m1, roomRegions, i)
      {
        survivingRooms := KeepRoom(roomRegions, i, survivingRooms, m1);
      }
      assert roomRegions[..|roomRegions|] == roomRegions;
    }

    /** After the room pass, the floor is exactly the tiles of the rooms
        made, when the floor is exactly the large room regions and the rooms
        are the large room regions. */
    lemma SurvivingRooms(m1: Grid, m2: Grid, survivingRooms: seq<Room>, roomRegions: seq<seq<Coord>>, threshold: int)
      requires SameShape(m1, m2)
      requires forall x, y :: InRange(m1, x, y) ==>
        (m2[x][y] == 0 <==> exists k :: 0 <= k < |roomRegions| && |roomRegions[k]| >= threshold && Coord(x, y) in roomRegions[k])
      requires forall r :: r in survivingRooms ==>
        0 <= r.id < |roomRegions| && r.tiles == roomRegions[r.id] && |r.tiles| >= threshold
      requires forall j :: 0 <= j < |roomRegions| && |roomRegions[j]| >= threshold ==>
        exists r :: r in survivingRooms && r.id == j
      ensures forall x, y :: InRange(m2, x, y) ==>
        (m2[x][y] == 0 <==> exists r :: r in survivingRooms && Coord(x, y) in r.tiles)
    {
      forall x, y | InRange(m2, x, y)
        ensures m2[x][y] == 0 <==> exists r :: r in survivingRooms && Coord(x, y) in r.tiles
      {
        assert InRange(m1, x, y);
        if m2[x][y] == 0 {
          var k :| 0 <= k < |roomRegions| && |roomRegions[k]| >= threshold && Coord(x, y) in roomRegions[k];
          var r :| r in survivingRooms && r.id == k;
          assert Coord(x, y) in r.tiles;
        }
        if r :| r in survivingRooms && Coord(x, y) in r.tiles {
          assert Coord(x, y) in roomRegions[r.id];
        }
      }
    }

    /** Rooms made in increasing region order have distinct ids. */
    lemma IncreasingIdsAreDistinct(rooms: seq<Room>)
      requires forall k, l :: 0 <= k < l < |rooms| ==> rooms[k].id < rooms[l].id
      ensures DistinctIds(rooms)
    {
      forall r, s | r in rooms && s in rooms && r.id == s.id
        ensures r == s
      {
        var k :| 0 <= k < |rooms| && rooms[k] == r;
        var l :| 0 <= l < |rooms| && rooms[l] == s;
        assert rooms[k].id == rooms[l].id;
      }
    }

    /** After the room pass the floor is exactly the tiles of the rooms,
        when the rooms are the room regions of at least roomThresholdSize
        tiles. */
    lemma FloorIsRooms(m1: Grid, survivingRooms: seq<Room>, roomRegions: seq<seq<Coord>>)
      requires IsGrid(m1) && IsBinary(m1) && RegionsOf(m1, 0, roomRegions) && RegionTilesInRange(m1, roomRegions)
      requires forall r :: r in survivingRooms ==>
        0 <= r.id < |roomRegions| && r.tiles == roomRegions[r.id] && |r.tiles| >= roomThresholdSize
      requires forall j :: 0 <= j < |roomRegions| && |roomRegions[j]| >= roomThresholdSize ==>
        exists r :: r in survivingRooms && r.id == j
      ensures var m2 := ThresholdFill(m1, roomRegions, roomThresholdSize, 1);
        forall x, y :: InRange(m2, x, y) ==> (m2[x][y] == 0 <==> exists r :: r in survivingRooms && Coord(x, y) in r.tiles)
    {
      SurvivingTiles(m1, 0, roomRegions, roomThresholdSize, 1);
      SurvivingRooms(m1, ThresholdFill(m1, roomRegions, roomThresholdSize, 1), survivingRooms, roomRegions, roomThresholdSize);
    }

    /** The wall pass of processMap. */
    method RemoveSmallWalls() returns (ghost wallRegions: seq<seq<Coord>>)
      requires Valid() && mapWidth > 0
      modifies this`tileMap
      ensures Valid() && SameShape(old(tileMap), tileMap)
      ensures ThresholdPass(old(tileMap), 1, wallRegions, wallThresholdSize, 0, tileMap)
      ensures forall x, y :: InRange(tileMap, x, y) ==>
        (tileMap[x][y] == 1 <==>
         exists k :: 0 <= k < |wallRegions| && |wallRegions[k]| >= wallThresholdSize && Coord(x, y) in wallRegions[k])
    {
      var walls := GetRegions(1);
      SurvivingTiles(tileMap, 1, walls, wallThresholdSize, 0);

      FillSmallRegions(walls, wallThresholdSize, 0);
      wallRegions := walls;
    }

    /** The room pass of processMap, up to the rooms it keeps. */
    method RemoveSmallRooms() returns (survivingRooms: seq<Room>, ghost roomRegions: seq<seq<Coord>>)
      requires Valid() && mapWidth > 0
      modifies this`tileMap
      ensures Valid() && SameShape(old(tileMap), tileMap)
      ensures ThresholdPass(old(tileMap), 0, roomRegions, roomThresholdSize, 1, tileMap)
      ensures forall r :: r in survivingRooms ==> fresh(r)
      ensures RoomsSoFar(survivingRooms, old(tileMap), roomRegions, |roomRegions|) && Unlinked(survivingRooms)
      ensures forall x, y :: InRange(tileMap, x, y) ==>
        (tileMap[x][y] == 0 <==> exists r :: r in survivingRooms && Coord(x, y) in r.tiles)
      ensures DistinctIds(survivingRooms)
    {
      ghost var m1 := tileMap;
      var rooms := GetRegions(0);
      RegionsInRange(m1, 0, rooms);
      ThresholdFillKeepsBinary(m1, rooms, roomThresholdSize, 1);
      roomRegions := rooms;
      survivingRooms := KeepRooms(rooms);
      assert forall r :: r in survivingRooms ==> MadeFrom(r, m1, roomRegions);
      FloorIsRooms(m1, survivingRooms, roomRegions);
      IncreasingIdsAreDistinct(survivingRooms);
    }

    /** The end of processMap: when there are rooms, they are sorted largest
        first, the first becomes the main room, and all are connected. */
    method ConnectSurvivingRooms(survivingRooms0: seq<Room>) returns (survivingRooms: seq<Room>)
      requires Valid() && DistinctIds(survivingRooms0)
      requires Unlinked(survivingRooms0)
      modifies this`tileMap, RoomSet(survivingRooms0)
      ensures multiset(survivingRooms) == multiset(survivingRooms0) && SortedBySize(survivingRooms)
      ensures Valid() && OnlyCleared(old(tileMap), tileMap)
      ensures RoomGraph(RoomSet(survivingRooms)) && NoJoinablePair(survivingRooms) && EveryJoinableRoomLinked(survivingRooms)
      ensures |survivingRooms| > 0 ==>
        (survivingRooms[0].isAccessibleFromMainRoom &&
         forall r :: r in survivingRooms ==> (r.isMainRoom <==> r == survivingRooms[0]))
      ensures forall s :: OfSize(survivingRooms, s) == OfSize(survivingRooms0, s)
      ensures |survivingRooms| > 0 ==> exists k ::
        (0 <= k < |survivingRooms0| && survivingRooms0[k] == survivingRooms[0]) &&
        forall m :: 0 <= m < k ==> survivingRooms0[m].roomSize < survivingRooms0[k].roomSize
    {
      survivingRooms := survivingRooms0;
      if |survivingRooms| > 0 {
        survivingRooms := SortRooms(survivingRooms);
        SortedOrder(survivingRooms0);
        MainRoomAndConnect(survivingRooms);
      }
    }

    /** The main room is survivingRooms[0]; it is accessible from itself,
        and connectClosestRooms joins all rooms. */
    method MainRoomAndConnect(rooms: seq<Room>)
      requires Valid() && DistinctIds(rooms) && Unlinked(rooms) && rooms != []
      modifies this`tileMap, RoomSet(rooms)
      ensures Valid() && OnlyCleared(old(tileMap), tileMap)
      ensures RoomGraph(RoomSet(rooms)) && NoJoinablePair(rooms) && EveryJoinableRoomLinked(rooms)
      ensures rooms[0].isAccessibleFromMainRoom && forall r :: r in rooms ==> (r.isMainRoom <==> r == rooms[0])
    {
      rooms[0].isMainRoom := true;
      rooms[0].isAccessibleFromMainRoom := true;
      ConnectClosestRooms(rooms, false);
    }

    /** What ConnectSurvivingRooms needs of the sort: the same rooms, rooms
        of equal size in their old order, and the first of the largest first. */
    lemma SortedOrder(rs: seq<Room>)
      requires rs != []
      ensures (forall r :: r in SortRooms(rs) <==> r in rs) && RoomSet(SortRooms(rs)) == RoomSet(rs)
      ensures DistinctIds(rs) ==> DistinctIds(SortRooms(rs))
      ensures Unlinked(rs) ==> Unlinked(SortRooms(rs))
      ensures forall s :: OfSize(SortRooms(rs), s) == OfSize(rs, s)
      ensures exists k ::
        (0 <= k < |rs| && rs[k] == SortRooms(rs)[0]) && forall m :: 0 <= m < k ==> rs[m].roomSize < rs[k].roomSize
    {
      var sorted := SortRooms(rs);
      assert forall r :: r in sorted <==> r in rs by {
        assert forall r :: r in sorted <==> r in multiset(sorted);
      }
      assert RoomSet(sorted) == RoomSet(rs);
      forall s
        ensures OfSize(sorted, s) == OfSize(rs, s)
      {
        SortRoomsIsStable(rs, s);
      }
      SortedHeadIsFirstLargest(rs);
    }

    /** What processMap makes of the map `before`: wall regions below
        wallThresholdSize become floor (giving `m1`); room regions below
        roomThresholdSize become wall (giving `m2`) and every other room
        region becomes a Room, numbered by its region index; the rooms are
        sorted, the largest (the first of them in region order) is the main
        room, and every room that can be joined is joined; `after` differs
        from `m2` only by the passages carved. */
    ghost predicate Processed(before: Grid, wallRegions: seq<seq<Coord>>, roomRegions: seq<seq<Coord>>,
                              rooms: seq<Room>, m1: Grid, m2: Grid, after: Grid)
      reads RoomSet(rooms)
    {
      Passes(before, wallRegions, roomRegions, rooms, m1, m2, after) && RoomsJoined(rooms)
    }

    /** The two threshold passes of processMap and the rooms they leave. */
    ghost predicate Passes(before: Grid, wallRegions: seq<seq<Coord>>, roomRegions: seq<seq<Coord>>,
                           rooms: seq<Room>, m1: Grid, m2: Grid, after: Grid)
    {
      SameShape(before, m1) && SameShape(m1, m2) && IsBinary(m1) && IsBinary(m2) &&
      ThresholdPass(before, 1, wallRegions, wallThresholdSize, 0, m1) &&
      (forall x, y :: InRange(m1, x, y) ==>
        (m1[x][y] == 1 <==> exists k :: 0 <= k < |wallRegions| && |wallRegions[k]| >= wallThresholdSize && Coord(x, y) in wallRegions[k])) &&
      ThresholdPass(m1, 0, roomRegions, roomThresholdSize, 1, m2) &&
      (forall x, y :: InRange(m2, x, y) ==> (m2[x][y] == 0 <==> exists r :: r in rooms && Coord(x, y) in r.tiles)) &&
      OnlyCleared(m2, after) &&
      (forall r :: r in rooms ==> MadeFrom(r, m1, roomRegions)) &&
      (forall j :: 0 <= j < |roomRegions| && |roomRegions[j]| >= roomThresholdSize ==> exists r :: r in rooms && r.id == j) &&
      DistinctIds(rooms) && SortedBySize(rooms) &&
      (|rooms| > 0 ==> forall r :: r in rooms && r.roomSize == rooms[0].roomSize ==> rooms[0].id <= r.id)
    }

    /** The end of processMap: the first room is the main room and is
        accessible, and every room that can be joined is joined. */
    ghost predicate RoomsJoined(rooms: seq<Room>)
      reads RoomSet(rooms)
    {
      RoomGraph(RoomSet(rooms)) && NoJoinablePair(rooms) && EveryJoinableRoomLinked(rooms) &&
      (|rooms| > 0 ==> rooms[0].isAccessibleFromMainRoom && forall r :: r in rooms ==> (r.isMainRoom <==> r == rooms[0]))
    }

    /** processMap, on the map as it stands. `m1` is the map after the wall
        pass, `m2` after the room pass. */
    method ProcessMap()
      returns (ghost wallRegions: seq<seq<Coord>>, ghost roomRegions: seq<seq<Coord>>, ghost rooms: seq<Room>,
               ghost m1: Grid, ghost m2: Grid)
      requires Valid() && mapWidth > 0
      modifies this`tileMap
      ensures Valid() && forall r :: r in rooms ==> fresh(r)
      ensures Processed(old(tileMap), wallRegions, roomRegions, rooms, m1, m2, tileMap)
    {
      wallRegions := RemoveSmallWalls();
      m1 := tileMap;
      var survivingRooms;
      survivingRooms, roomRegions := RemoveSmallRooms();
      m2 := tileMap;
      rooms := ConnectSurvivingRooms(survivingRooms);
      assert forall r :: r in rooms <==> r in survivingRooms by {
        assert forall r :: r in rooms <==> r in multiset(rooms);
      }
      if |rooms| > 0 {
        ghost var k :| (0 <= k < |survivingRooms| && survivingRooms[k] == rooms[0]) &&
          forall m :: 0 <= m < k ==> survivingRooms[m].roomSize < survivingRooms[k].roomSize;
        FirstLargestHasLeastId(survivingRooms, k);
      }
    }

    /** Among rooms numbered in increasing order, the first room of the
        largest size has the least id of the rooms of that size. */
    lemma FirstLargestHasLeastId(rooms: seq<Room>, k: int)
      requires forall i, j :: 0 <= i < j < |rooms| ==> rooms[i].id < rooms[j].id
      requires 0 <= k < |rooms| && forall m :: 0 <= m < k ==> rooms[m].roomSize < rooms[k].roomSize
      ensures forall r :: r in rooms && r.roomSize == rooms[k].roomSize ==> rooms[k].id <= r.id
    {
      forall r | r in rooms && r.roomSize == rooms[k].roomSize
        ensures rooms[k].id <= r.id
      {
        var l :| 0 <= l < |rooms| && rooms[l] == r;
        assert k <= l;
      }
    }

    /** getNeighborWallCount: walls among the eight neighbours, where a
        neighbour off the tileMap counts as a wall. */
    method GetNeighborWallCount(x: int, y: int) returns (wallCount: int)
      requires IsGrid(tileMap)
      ensures wallCount == NeighbourWallCount(tileMap, x, y)
      ensures IsBinary(tileMap) && InRange(tileMap, x, y) ==> 0 <= wallCount <= 8
    {
      wallCount := 0;
      var neighbourX := x - 1;
      while neighbourX <= x + 1
        invariant x - 1 <= neighbourX <= x + 2
        invariant wallCount == WindowSum(tileMap, x, y, neighbourX)
      {
        var neighbourY := y - 1;
        while neighbourY <= y + 1
          invariant y - 1 <= neighbourY <= y + 2
          invariant wallCount == WindowSum(tileMap, x, y, neighbourX) + ColumnSum(tileMap, x, y, neighbourX, neighbourY)
        {
          if IsInMapRange(neighbourX, neighbourY) {
            if neighbourX != x || neighbourY != y {
              wallCount := wallCount + tileMap[neighbourX][neighbourY];
            }
          } else {
            wallCount := wallCount + 1;
          }
          neighbourY := neighbourY + 1;
        }
        neighbourX := neighbourX + 1;
      }
      if IsBinary(tileMap) && InRange(tileMap, x, y) {
        NeighbourWallCountBounds(tileMap, x, y);
      }
    }

    /** smoothMap: one in-place pass, column by column. */
    method SmoothMap()
      requires Valid()
      modifies this`tileMap
      ensures Valid()
      ensures tileMap == SmoothPass(old(tileMap))
    {
      ghost var m0 := tileMap;
      var x := 0;
      while x < |tileMap|
        invariant 0 <= x <= |m0| && tileMap == SmoothColumns(m0, x)
      {
        var y := 0;
        while y < |tileMap[0]|
          invariant 0 <= y <= Height(m0) && tileMap == SmoothColumn(SmoothColumns(m0, x), x, y)
        {
          var wallCount := GetNeighborWallCount(x, y);
          if wallCount > 4 {
            tileMap := tileMap[x := tileMap[x][y := 1]];
          } else if wallCount < 4 {
            tileMap := tileMap[x := tileMap[x][y := 0]];
          }
          y := y + 1;
        }
        x := x + 1;
      }
      SmoothColumnsKeepBinary(m0, |m0|);
    }

    /** The body of getLine's loop after the tile is pushed: one step along
        the main axis, and one along the other axis whenever the (doubled)
        accumulated gradient passes twice the longest extent. */
    method AdvanceLine(inverted: bool, step: int, gradientStep: int, longest: int, shortest: int,
                       x0: int, y0: int, accumulation0: int)
      returns (x: int, y: int, accumulation: int)
      ensures Along(Coord(x, y), inverted) == Along(Coord(x0, y0), inverted) + step
      ensures accumulation0 + 2 * shortest > 2 * longest ==>
        Across(Coord(x, y), inverted) == Across(Coord(x0, y0), inverted) + gradientStep &&
        accumulation == accumulation0 + 2 * shortest - 2 * longest
      ensures accumulation0 + 2 * shortest <= 2 * longest ==>
        Across(Coord(x, y), inverted) == Across(Coord(x0, y0), inverted) &&
        accumulation == accumulation0 + 2 * shortest
    {
      x, y := x0, y0;
      if inverted {
        y := y + step;
      } else {
        x := x + step;
      }
      accumulation := accumulation0 + 2 * shortest;
      if accumulation > 2 * longest {
        if inverted {
          x := x + gradientStep;
        } else {
          y := y + gradientStep;
        }
        accumulation := accumulation - 2 * longest;
      }
    }

    /** The opening of getLine: the main axis is the one with the larger
        distance, x on a tie, and each axis is walked towards toTile. */
    method LineDirection(fromTile: Coord, toTile: Coord)
      returns (inverted: bool, step: int, gradientStep: int, longest: nat, shortest: nat)
      ensures inverted == Inverted(fromTile, toTile) && step == MainStep(fromTile, toTile)
      ensures longest == Longest(fromTile, toTile) && shortest == Shortest(fromTile, toTile)
      ensures gradientStep == GradientStep(fromTile, toTile)
      ensures shortest <= longest
    {
      var dx, dy := toTile.tileX - fromTile.tileX, toTile.tileY - fromTile.tileY;
      inverted := false;
      step := if dx >= 0 then 1 else -1;
      gradientStep := if dy >= 0 then 1 else -1;
      longest := Abs(dx);
      shortest := Abs(dy);
      if longest < shortest {
        inverted := true;
        longest := Abs(dy);
        shortest := Abs(dx);
        step := if dy >= 0 then 1 else -1;
        gradientStep := if dx >= 0 then 1 else -1;
      }
    }

    /** getLine: the tiles from fromTile towards toTile, one per step along
        the main axis, with the error term kept doubled so it stays whole. */
    method GetLine(fromTile: Coord, toTile: Coord) returns (line: seq<Coord>)
      ensures line == LineTiles(fromTile, toTile)
    {
      var x, y := fromTile.tileX, fromTile.tileY;
      var inverted, step, gradientStep, longest, shortest := LineDirection(fromTile, toTile);
      if longest > 0 {
        AccumulatorBounds(longest, shortest, 0);
      }
      // twice gradientAccumulation, which starts at longest / 2
      var accumulation: int := longest;
      line := [];
      var i := 0;
      while i < longest
        invariant 0 <= i <= longest && |line| == i && shortest <= longest
        invariant forall k :: 0 <= k < i ==> line[k] == LinePoint(fromTile, toTile, k)
        invariant Along(Coord(x, y), inverted) == Along(fromTile, inverted) + Offset(i, step)
        invariant longest > 0 ==>
          Across(Coord(x, y), inverted) == Across(fromTile, inverted) + Offset(GradientSteps(longest, shortest, i), gradientStep) &&
          accumulation == Accumulator(longest, shortest, i)
      {
        AccumulatorBounds(longest, shortest, i);
        AccumulatorStep(longest, shortest, i);
        LinePointFromSteps(fromTile, toTile, i, Coord(x, y));
        line := line + [Coord(x, y)];
        x, y, accumulation := AdvanceLine(inverted, step, gradientStep, longest, shortest, x, y, accumulation);
        i := i + 1;
      }
    }

    /** drawCircle(c, r): every in-range tile of the disk of radius r around c becomes floor. */
    method DrawCircle(c: Coord, r: int)
      requires IsGrid(tileMap)
      modifies this`tileMap
      ensures tileMap == Carve(old(tileMap), c, r)
    {
      ghost var m0 := tileMap;
      var x := -r;
      while x <= r
        invariant r < 0 || -r <= x <= r + 1
        invariant SameShape(m0, tileMap)
        invariant forall i, j :: InRange(m0, i, j) ==>
          tileMap[i][j] == if InDisk(i - c.tileX, j - c.tileY, r) && i - c.tileX < x then 0 else m0[i][j]
      {
        var y := -r;
        while y <= r
          invariant -r <= y <= r + 1
          invariant SameShape(m0, tileMap)
          invariant forall i, j :: InRange(m0, i, j) ==>
            tileMap[i][j] == if InDisk(i - c.tileX, j - c.tileY, r) && (i - c.tileX < x || (i - c.tileX == x && j - c.tileY < y)) then 0 else m0[i][j]
        {
          if x * x + y * y <= r * r {
            var drawX, drawY := c.tileX + x, c.tileY + y;
            if IsInMapRange(drawX, drawY) {
              tileMap := tileMap[drawX := tileMap[drawX][drawY := 0]];
            }
          }
          y := y + 1;
        }
        x := x + 1;
      }
      GridsEqual(tileMap, Carve(m0, c, r));
    }

    /** createPassage: connects the two rooms, then carves a disk of radius
        passagewaySize at every tile of the line from tileA towards tileB. */
    method CreatePassage(roomA: Room, roomB: Room, tileA: Coord, tileB: Coord, ghost rooms: set<Room>)
      requires Valid() && roomA in rooms && roomB in rooms && RoomGraph(rooms)
      modifies this`tileMap, rooms
      ensures Valid() && tileMap == CarveAll(old(tileMap), LineTiles(tileA, tileB), passagewaySize)
      ensures OnlyCleared(old(tileMap), tileMap)
      ensures RoomGraph(rooms) && LinkedBy(rooms, roomA, roomB) && OnlyLinksAdded(rooms)
    {
      Room.ConnectRooms(roomA, roomB, rooms);
      CarveLine(tileA, tileB);
    }

    /** The carving half of createPassage: a circle of passagewaySize is
        cleared around every tile of the line from tileA to tileB. */
    method CarveLine(tileA: Coord, tileB: Coord)
      requires Valid()
      modifies this`tileMap
      ensures Valid() && tileMap == CarveAll(old(tileMap), LineTiles(tileA, tileB), passagewaySize)
      ensures OnlyCleared(old(tileMap), tileMap)
    {
      ghost var m0 := tileMap;
      var line := GetLine(tileA, tileB);
      for k := 0 to |line|
        modifies this`tileMap
        invariant IsGrid(tileMap) && tileMap == CarveAll(m0, line[..k], passagewaySize)
      {
        DrawCircle(line[k], passagewaySize);
        assert line[..k + 1][..k] == line[..k];
      }
      assert line[..|line|] == line;
      CarveAllKeepsBinary(m0, line, passagewaySize);
      CarveAllIsOnlyCleared(m0, line, passagewaySize);
    }

    /** connectClosestRooms. Unforced, every room without connections is
        joined to its closest other room; then the forced pass repeatedly
        joins the closest pair made of a room outside the main room's reach
        and one inside it, until no such pair is left. */
    method ConnectClosestRooms(allRooms: seq<Room>, forceAccessibilityFromMainRoom: bool)
      requires Valid()
      requires RoomGraph(RoomSet(allRooms)) && DistinctIds(allRooms)
      modifies this`tileMap, RoomSet(allRooms)
      decreases if forceAccessibilityFromMainRoom then 0 else 1, Inaccessible(RoomSet(allRooms)), 1
      ensures Valid() && OnlyCleared(old(tileMap), tileMap)
      ensures RoomGraph(RoomSet(allRooms)) && OnlyLinksAdded(RoomSet(allRooms))
      ensures NoJoinablePair(allRooms)
      ensures !forceAccessibilityFromMainRoom ==> EveryJoinableRoomLinked(allRooms)
    {
      var roomListA, roomListB := allRooms, allRooms;
      if forceAccessibilityFromMainRoom {
        roomListA, roomListB := SplitByAccess(allRooms);
      }
      var best := ConnectFromRoomListA(allRooms, roomListA, roomListB, forceAccessibilityFromMainRoom);
      if best.found && forceAccessibilityFromMainRoom {
        JoinAndForceAgain(allRooms, best);
      }
      if !forceAccessibilityFromMainRoom {
        ghost var before := tileMap;
        ConnectClosestRooms(allRooms, true);
        OnlyClearedTransitive(old(tileMap), before, tileMap);
      }
    }

    /** The tail of a forced pass of connectClosestRooms that found a pair:
        the inaccessible room is joined to the accessible one, which makes it
        accessible, and the forced pass runs again. */
    method JoinAndForceAgain(allRooms: seq<Room>, best: Best)
      requires Valid()
      requires RoomGraph(RoomSet(allRooms)) && DistinctIds(allRooms)
      requires best.found && best.roomA in allRooms && best.roomB in allRooms
      requires !best.roomA.isAccessibleFromMainRoom && best.roomB.isAccessibleFromMainRoom
      modifies this`tileMap, RoomSet(allRooms)
      decreases 0, Inaccessible(RoomSet(allRooms)), 0
      ensures Valid() && OnlyCleared(old(tileMap), tileMap)
      ensures RoomGraph(RoomSet(allRooms)) && OnlyLinksAdded(RoomSet(allRooms))
      ensures NoJoinablePair(allRooms)
    {
      ghost var rooms := RoomSet(allRooms);
      CreatePassage(best.roomA, best.roomB, best.tileA, best.tileB, rooms);
      assert best.roomA in old(Inaccessible(rooms)) && best.roomA !in Inaccessible(rooms);
      ghost var between := tileMap;
      ConnectClosestRooms(allRooms, true);
      OnlyClearedTransitive(old(tileMap), between, tileMap);
    }

    /** The roomListA loop of connectClosestRooms. Unforced, each room
        without connections is joined to its closest other room as soon as
        it is visited. Forced, nothing changes and the closest pair between
        the two lists is returned. */
    method ConnectFromRoomListA(allRooms: seq<Room>, roomListA: seq<Room>, roomListB: seq<Room>, force: bool)
      returns (best: Best)
      requires Valid()
      requires RoomGraph(RoomSet(allRooms)) && DistinctIds(allRooms)
      requires !force ==> roomListA == allRooms && roomListB == allRooms
      requires force ==>
        (forall r :: r in roomListA <==> r in allRooms && !r.isAccessibleFromMainRoom) &&
        (forall r :: r in roomListB <==> r in allRooms && r.isAccessibleFromMainRoom)
      modifies this`tileMap, RoomSet(allRooms)
      ensures Valid() && OnlyCleared(old(tileMap), tileMap)
      ensures RoomGraph(RoomSet(allRooms)) && OnlyLinksAdded(RoomSet(allRooms))
      ensures force ==> (tileMap == old(tileMap) &&
        forall r :: r in RoomSet(allRooms) ==> r.isAccessibleFromMainRoom == old(r.isAccessibleFromMainRoom))
      ensures force && best.found ==> best.roomA in roomListA && best.roomB in roomListB
      ensures force && !best.found ==>
        forall a, b :: a in roomListA && b in roomListB ==> a.edgeTiles == [] || b.edgeTiles == []
      ensures !force ==> EveryJoinableRoomLinked(allRooms)
    {
      ghost var rooms := RoomSet(allRooms);
      best := Best(false, 0, Coord(0, 0), Coord(0, 0), null, null);
      for ia := 0 to |roomListA|
        invariant Valid() && OnlyCleared(old(tileMap), tileMap)
        invariant RoomGraph(rooms) && OnlyLinksAdded(rooms)
        invariant force ==> (tileMap == old(tileMap) &&
          forall r :: r in rooms ==> r.isAccessibleFromMainRoom == old(r.isAccessibleFromMainRoom))
        invariant force && best.found ==> best.roomA in roomListA && best.roomB in roomListB
        invariant force && !best.found ==>
          forall k, b :: 0 <= k < ia && b in roomListB ==> roomListA[k].edgeTiles == [] || b.edgeTiles == []
        invariant !force ==>
          forall k :: 0 <= k < ia && Joinable(allRooms, allRooms[k]) ==> |allRooms[k].connectedRooms| > 0
      {
        ghost var before := tileMap;
        best := ConnectRoomAInLoop(allRooms, roomListA, roomListB, force, ia, best);
        OnlyClearedTransitive(old(tileMap), before, tileMap);
      }
    }

    /** ConnectRoomA as the roomListA loop sees it: what the loop knows of
        the first ia rooms of roomListA extends to the first ia + 1. */
    method ConnectRoomAInLoop(allRooms: seq<Room>, roomListA: seq<Room>, roomListB: seq<Room>, force: bool, ia: int, best0: Best)
      returns (best: Best)
      requires Valid()
      requires RoomGraph(RoomSet(allRooms)) && DistinctIds(allRooms)
      requires !force ==> roomListA == allRooms && roomListB == allRooms
      requires force ==>
        (forall r :: r in roomListA <==> r in allRooms && !r.isAccessibleFromMainRoom) &&
        (forall r :: r in roomListB <==> r in allRooms && r.isAccessibleFromMainRoom)
      requires 0 <= ia < |roomListA|
      requires force && best0.found ==> best0.roomA in roomListA && best0.roomB in roomListB
      requires force && !best0.found ==>
        forall k, b :: 0 <= k < ia && b in roomListB ==> roomListA[k].edgeTiles == [] || b.edgeTiles == []
      requires !force ==>
        forall k :: 0 <= k < ia && Joinable(allRooms, allRooms[k]) ==> |allRooms[k].connectedRooms| > 0
      modifies this`tileMap, RoomSet(allRooms)
      ensures Valid() && OnlyCleared(old(tileMap), tileMap)
      ensures RoomGraph(RoomSet(allRooms)) && OnlyLinksAdded(RoomSet(allRooms))
      ensures force ==> (tileMap == old(tileMap) &&
        forall r :: r in RoomSet(allRooms) ==> r.isAccessibleFromMainRoom == old(r.isAccessibleFromMainRoom))
      ensures force && best.found ==> best.roomA in roomListA && best.roomB in roomListB
      ensures force && !best.found ==>
        forall k, b :: 0 <= k <= ia && b in roomListB ==> roomListA[k].edgeTiles == [] || b.edgeTiles == []
      ensures !force ==>
        forall k :: 0 <= k <= ia && Joinable(allRooms, allRooms[k]) ==> |allRooms[k].connectedRooms| > 0
    {
      ghost var rooms := RoomSet(allRooms);
      best := ConnectRoomA(allRooms, roomListA, roomListB, force, ia, best0);
      if !force {
        forall k | 0 <= k <= ia && Joinable(allRooms, allRooms[k])
          ensures |allRooms[k].connectedRooms| > 0
        {
          if k < ia {
            assert allRooms[k] in rooms;
            assert old(allRooms[k].connectedRooms) <= allRooms[k].connectedRooms;
          }
        }
      }
    }

    /** One round of the roomListA loop of connectClosestRooms, for roomA =
        roomListA[ia]. Unforced, the search restarts, a room that already
        has a connection is skipped, and a room with a closest partner is
        joined to it. Forced, roomA's closest pair is kept if it beats the
        best so far. */
    method ConnectRoomA(allRooms: seq<Room>, roomListA: seq<Room>, roomListB: seq<Room>, force: bool, ia: int, best0: Best)
      returns (best: Best)
      requires Valid()
      requires RoomGraph(RoomSet(allRooms)) && DistinctIds(allRooms)
      requires !force ==> roomListA == allRooms && roomListB == allRooms
      requires force ==>
        (forall r :: r in roomListA <==> r in allRooms && !r.isAccessibleFromMainRoom) &&
        (forall r :: r in roomListB <==> r in allRooms && r.isAccessibleFromMainRoom)
      requires 0 <= ia < |roomListA|
      requires force && best0.found ==> best0.roomA in roomListA && best0.roomB in roomListB
      modifies this`tileMap, RoomSet(allRooms)
      ensures Valid() && OnlyCleared(old(tileMap), tileMap)
      ensures RoomGraph(RoomSet(allRooms)) && OnlyLinksAdded(RoomSet(allRooms))
      ensures force ==> (tileMap == old(tileMap) &&
        forall r :: r in RoomSet(allRooms) ==> r.isAccessibleFromMainRoom == old(r.isAccessibleFromMainRoom))
      ensures force && best.found ==> best.roomA in roomListA && best.roomB in roomListB
      ensures force && !best.found ==> (!best0.found &&
        forall b :: b in roomListB ==> roomListA[ia].edgeTiles == [] || b.edgeTiles == [])
      ensures !force && Joinable(allRooms, allRooms[ia]) ==> |allRooms[ia].connectedRooms| > 0
      ensures old(allocated(best))
      ensures force ==> best == best0 || old(ClosestFrom(roomListA[ia], roomListB, best0, best))
      ensures !force && old(|roomListA[ia].connectedRooms|) > 0 ==>
        !best.found && tileMap == old(tileMap) && unchanged(RoomSet(allRooms))
      ensures !force && !best.found ==> tileMap == old(tileMap) && unchanged(RoomSet(allRooms))
      ensures !force && best.found ==>
        old(|roomListA[ia].connectedRooms|) == 0 && best.roomA == roomListA[ia] && best.roomB in allRooms &&
        old(ClosestFrom(roomListA[ia], allRooms, best0.(found := false), best)) &&
        LinkedBy(RoomSet(allRooms), best.roomA, best.roomB) &&
        tileMap == CarveAll(old(tileMap), LineTiles(best.tileA, best.tileB), passagewaySize)
    {
      var roomA := roomListA[ia];
      if force {
        forall b | b in roomListB
          ensures Scanned(roomA, b)
        {
          NotConnectedAcrossAccess(allRooms, roomA, b);
        }
        best := SearchFrom(roomA, roomListB, best0);
      } else {
        best := JoinClosest(allRooms, ia, best0.(found := false));
      }
    }

    /** An unforced round of the roomListA loop for roomA = allRooms[ia]: a
        room that already has a connection is skipped; otherwise the closest
        pair from roomA to the other rooms, if any, is joined by a passage. */
    method JoinClosest(allRooms: seq<Room>, ia: int, start: Best) returns (best: Best)
      requires Valid()
      requires RoomGraph(RoomSet(allRooms)) && DistinctIds(allRooms)
      requires 0 <= ia < |allRooms| && !start.found
      modifies this`tileMap, RoomSet(allRooms)
      ensures Valid() && OnlyCleared(old(tileMap), tileMap)
      ensures RoomGraph(RoomSet(allRooms)) && OnlyLinksAdded(RoomSet(allRooms))
      ensures Joinable(allRooms, allRooms[ia]) ==> |allRooms[ia].connectedRooms| > 0
      ensures old(allocated(best))
      ensures old(|allRooms[ia].connectedRooms|) > 0 ==>
        !best.found && tileMap == old(tileMap) && unchanged(RoomSet(allRooms))
      ensures !best.found ==> tileMap == old(tileMap) && unchanged(RoomSet(allRooms))
      ensures best.found ==>
        old(|allRooms[ia].connectedRooms|) == 0 && best.roomA == allRooms[ia] && best.roomB in allRooms &&
        old(ClosestFrom(allRooms[ia], allRooms, start, best)) &&
        LinkedBy(RoomSet(allRooms), best.roomA, best.roomB) &&
        tileMap == CarveAll(old(tileMap), LineTiles(best.tileA, best.tileB), passagewaySize)
    {
      best := start;
      var roomA := allRooms[ia];
      if |roomA.connectedRooms| > 0 {
        return;
      }
      best := SearchFrom(roomA, allRooms, best);
      if best.found {
        ghost var k, i, j :| ChosenAt(roomA, allRooms, start, k, i, j) && best == PairAt(roomA, allRooms[k], i, j);
        assert best.roomB == allRooms[k] && allRooms[k] in allRooms;
        CreatePassage(best.roomA, best.roomB, best.tileA, best.tileB, RoomSet(allRooms));
      }
    }

    /** The bordered-map loops of generateMap: a tile inside the
        mapWidth x mapHeight window shifted by borderSize copies the map,
        every other tile is wall. */
    method BuildBorderedMap()
      requires Valid() && mapWidth > 0
      modifies this`borderedMap
      ensures borderedMap == Bordered(tileMap, borderSize)
    {
      ghost var target := Bordered(tileMap, borderSize);
      borderedMap := [];
      var x := 0;
      while x < |tileMap| + borderSize * 2
        invariant 0 <= x <= |tileMap| + borderSize * 2 && |borderedMap| == x
        invariant forall i :: 0 <= i < x ==> borderedMap[i] == target[i]
      {
        var column: seq<int> := [];
        var y := 0;
        while y < |tileMap[0]| + borderSize * 2
          invariant 0 <= y <= |tileMap[0]| + borderSize * 2 && |column| == y
          invariant forall j :: 0 <= j < y ==> column[j] == target[x][j]
        {
          if x >= borderSize && x < mapWidth + borderSize && y >= borderSize && y < mapHeight + borderSize {
            column := column + [tileMap[x - borderSize][y - borderSize]];
          } else {
            column := column + [1];
          }
          y := y + 1;
        }
        assert column == target[x];
        borderedMap := borderedMap + [column];
        x := x + 1;
      }
    }

    /** generateMap: fill, five smoothing passes, processMap, the bordered
        map, and a fresh mesh generator run over the bordered map. */
    method GenerateMap(roll: (int, int) -> real, is2d: bool)
      returns (ghost filled: Grid, ghost smoothed: Grid, ghost wallRegions: seq<seq<Coord>>,
               ghost roomRegions: seq<seq<Coord>>, ghost rooms: seq<Room>, ghost m1: Grid, ghost m2: Grid)
      requires mapWidth > 0
      modifies this`tileMap, this`borderedMap, this`meshGen
      ensures Valid() && IsGrid(filled) && IsBinary(filled) && BorderIsWall(filled)
      ensures forall x, y :: InRange(filled, x, y) ==> filled[x][y] == FillValue(roll, x, y)
      ensures smoothed == SmoothTimes(filled, 5) && IsBinary(smoothed) && BorderIsWall(smoothed)
      ensures Processed(smoothed, wallRegions, roomRegions, rooms, m1, m2, tileMap)
      ensures borderedMap == Bordered(tileMap, borderSize)
      ensures meshGen != null && fresh(meshGen) && meshGen.wallHeight == wallHeight && meshGen.Valid()
      ensures Mesh.SquaresOf(borderedMap, meshGen.squareGrid.squares) && Mesh.NonDegenerate(meshGen.created)
      ensures |meshGen.triangles| == 3 * Mesh.GridTriangles(meshGen.squareGrid.squares)
      ensures !is2d ==>
        Mesh.OutlinesTraced(meshGen.triangleDictionary, meshGen.outlines, meshGen.checkedVerticies, |meshGen.verticies|) &&
        Mesh.WallsOf(meshGen.verticies, meshGen.outlines, meshGen.wallVerticies, meshGen.wallTriangles)
    {
      filled := FillAndSmooth(roll);
      smoothed := tileMap;
      wallRegions, roomRegions, rooms, m1, m2 := ProcessMap();
      BorderAndMesh(is2d);
    }

    /** The end of generateMap: the bordered map, then a fresh mesh
        generator run over it. */
    method BorderAndMesh(is2d: bool)
      requires Valid() && mapWidth > 0
      modifies this`borderedMap, this`meshGen
      ensures borderedMap == Bordered(tileMap, borderSize)
      ensures meshGen != null && fresh(meshGen) && meshGen.wallHeight == wallHeight && meshGen.Valid()
      ensures Mesh.SquaresOf(borderedMap, meshGen.squareGrid.squares) && Mesh.NonDegenerate(meshGen.created)
      ensures |meshGen.triangles| == 3 * Mesh.GridTriangles(meshGen.squareGrid.squares)
      ensures !is2d ==>
        Mesh.OutlinesTraced(meshGen.triangleDictionary, meshGen.outlines, meshGen.checkedVerticies, |meshGen.verticies|) &&
        Mesh.WallsOf(meshGen.verticies, meshGen.outlines, meshGen.wallVerticies, meshGen.wallTriangles)
    {
      BuildBorderedMap();
      BorderedFrame(tileMap, borderSize);
      BuildMesh(is2d);
    }

    /** The start of generateMap: randomFillMap, then five smoothMap passes. */
    method FillAndSmooth(roll: (int, int) -> real) returns (ghost filled: Grid)
      modifies this`tileMap
      ensures Valid() && IsGrid(filled) && IsBinary(filled) && BorderIsWall(filled)
      ensures forall x, y :: InRange(filled, x, y) ==> filled[x][y] == FillValue(roll, x, y)
      ensures tileMap == SmoothTimes(filled, 5) && IsBinary(tileMap) && BorderIsWall(tileMap)
    {
      RandomFillMap(roll);
      filled := tileMap;
      for i := 0 to 5
        invariant Valid() && BorderIsWall(tileMap) && tileMap == SmoothTimes(filled, i)
      {
        SmoothColumnsKeepBorder(tileMap, |tileMap|);
        SmoothMap();
      }
    }

    /** The end of generateMap: a fresh mesh generator, run over the
        bordered map. */
    method BuildMesh(is2d: bool)
      requires IsGrid(borderedMap) && |borderedMap| > 0
      modifies this`meshGen
      ensures meshGen != null && fresh(meshGen) && meshGen.wallHeight == wallHeight && meshGen.Valid()
      ensures Mesh.SquaresOf(borderedMap, meshGen.squareGrid.squares) && Mesh.NonDegenerate(meshGen.created)
      ensures |meshGen.triangles| == 3 * Mesh.GridTriangles(meshGen.squareGrid.squares)
      ensures !is2d ==>
        Mesh.OutlinesTraced(meshGen.triangleDictionary, meshGen.outlines, meshGen.checkedVerticies, |meshGen.verticies|) &&
        Mesh.WallsOf(meshGen.verticies, meshGen.outlines, meshGen.wallVerticies, meshGen.wallTriangles)
    {
      var mesh := new Mesh.MeshGenerator(wallHeight);
      mesh.GenerateMesh(borderedMap, is2d);
      meshGen := mesh;
    }
  }
}
