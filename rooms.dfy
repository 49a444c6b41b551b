/** Rooms (class Room): a surviving floor region with its edge tiles, the
    rooms it is connected to and its main-room accessibility flags, plus the
    size ordering processMap sorts rooms by. */
module Rooms {
  import opened Tiles

  // ---------------------------------------------------------------------
  // Edge tiles

  predicate IsWallAt(m: Grid, c: Coord)
    requires IsGrid(m)
  {
    TileIs(m, c, 1)
  }

  /** t once for every wall among the window cells w, in order. */
  function WallMarks(m: Grid, t: Coord, w: seq<Coord>): (r: seq<Coord>)
    requires IsGrid(m)
  {
    if w == [] then []
    else WallMarks(m, t, w[..|w| - 1]) + (if IsWallAt(m, w[|w| - 1]) then [t] else [])
  }

  /** The edgeTiles the Room constructor builds: each tile, in order, once per
      wall among the cells of its axis window, so a tile touching several
      walls is listed several times. */
  function EdgeTileList(m: Grid, tiles: seq<Coord>): (r: seq<Coord>)
    requires IsGrid(m)
  {
    if tiles == [] then []
    else
      var last := tiles[|tiles| - 1];
      EdgeTileList(m, tiles[..|tiles| - 1]) + WallMarks(m, last, AxisWindow(last))
  }

  /** A tile with a wall among the cells of its axis window (for a floor tile: an axis-aligned wall neighbour). */
  ghost predicate TouchesWall(m: Grid, c: Coord)
    requires IsGrid(m)
  {
    exists n :: n in AxisWindow(c) && IsWallAt(m, n)
  }

  lemma {:induction false} WallMarksMembership(m: Grid, t: Coord, w: seq<Coord>, e: Coord)
    requires IsGrid(m)
    ensures e in WallMarks(m, t, w) <==> e == t && exists n :: n in w && IsWallAt(m, n)
  {
    if w != [] {
      var prefix := w[..|w| - 1];
      WallMarksMembership(m, t, prefix, e);
      assert w == prefix + [w[|w| - 1]];
      if e == t && exists n :: n in w && IsWallAt(m, n) {
        var n :| n in w && IsWallAt(m, n);
        if n != w[|w| - 1] {
          assert n in prefix;
        }
      }
    }
  }

  /** A coordinate is an edge tile exactly when it is a room tile touching a wall. */
  lemma {:induction false} EdgeTileListMembership(m: Grid, tiles: seq<Coord>, e: Coord)
    requires IsGrid(m)
    ensures e in EdgeTileList(m, tiles) <==> e in tiles && TouchesWall(m, e)
  {
    if tiles != [] {
      var prefix := tiles[..|tiles| - 1];
      var last := tiles[|tiles| - 1];
      EdgeTileListMembership(m, prefix, e);
      WallMarksMembership(m, last, AxisWindow(last), e);
      assert tiles == prefix + [last];
    }
  }

  // ---------------------------------------------------------------------
  // The room graph

  /** Every connection of a room of the set leads to a room of the set. */
  ghost predicate GraphClosed(rooms: set<Room>)
    reads rooms
  {
    forall r, i :: r in rooms && 0 <= i < |r.connectedRooms| ==> r.connectedRooms[i] in rooms
  }

  /** Connections are recorded in both directions. */
  ghost predicate Symmetric(rooms: set<Room>)
    reads rooms
  {
    forall r, s :: r in rooms && s in rooms && s in r.connectedRooms ==> r in s.connectedRooms
  }

  /** No accessible room outside `pending` is connected to an inaccessible room. */
  ghost predicate AccessClosedExcept(rooms: set<Room>, pending: set<Room>)
    reads rooms
    requires GraphClosed(rooms)
  {
    forall r, i :: r in rooms && r !in pending && r.isAccessibleFromMainRoom && 0 <= i < |r.connectedRooms|
      ==> r.connectedRooms[i].isAccessibleFromMainRoom
  }

  /** The invariant the connection phase keeps: a well-formed symmetric graph
      in which no connection joins an accessible room to an inaccessible one. */
  ghost predicate RoomGraph(rooms: set<Room>)
    reads rooms
  {
    GraphClosed(rooms) && Symmetric(rooms) && AccessClosedExcept(rooms, {})
  }

  ghost function Inaccessible(rooms: set<Room>): set<Room>
    reads rooms
  {
    set r | r in rooms && !r.isAccessibleFromMainRoom
  }

  /** Flags are only ever raised. */
  twostate predicate FlagsOnlyRaised(rooms: set<Room>)
    reads rooms
  {
    forall r :: r in rooms && old(r.isAccessibleFromMainRoom) ==> r.isAccessibleFromMainRoom
  }

  /** What Room.connectRooms(roomA, roomB) does to the rooms of the set:
      each of the two gains the other at the end of its connections, and
      when one of them was accessible both are. */
  twostate predicate LinkedBy(rooms: set<Room>, roomA: Room, roomB: Room)
    reads rooms, roomA, roomB
  {
    (roomA != roomB ==> roomA.connectedRooms == old(roomA.connectedRooms) + [roomB]) &&
    (roomA != roomB ==> roomB.connectedRooms == old(roomB.connectedRooms) + [roomA]) &&
    (roomA == roomB ==> roomA.connectedRooms == old(roomA.connectedRooms) + [roomA, roomA]) &&
    (forall r :: r in rooms && r != roomA && r != roomB ==> r.connectedRooms == old(r.connectedRooms)) &&
    ((old(roomA.isAccessibleFromMainRoom) || old(roomB.isAccessibleFromMainRoom)) ==>
      roomA.isAccessibleFromMainRoom && roomB.isAccessibleFromMainRoom) &&
    ((!old(roomA.isAccessibleFromMainRoom) && !old(roomB.isAccessibleFromMainRoom)) ==>
      forall r :: r in rooms ==> r.isAccessibleFromMainRoom == old(r.isAccessibleFromMainRoom)) &&
    (forall r :: r in rooms ==> r.isMainRoom == old(r.isMainRoom))
  }

  /** Connections are only appended, flags only raised, and the main room stays the main room. */
  twostate predicate OnlyLinksAdded(rooms: set<Room>)
    reads rooms
  {
    forall r :: r in rooms ==>
      old(r.connectedRooms) <= r.connectedRooms &&
      (old(r.isAccessibleFromMainRoom) ==> r.isAccessibleFromMainRoom) &&
      r.isMainRoom == old(r.isMainRoom)
  }

  ghost function RoomSet(rs: seq<Room>): set<Room>
  {
    set r | r in rs
  }

  /** No two rooms share an id (processMap numbers rooms by region index). */
  ghost predicate DistinctIds(rs: seq<Room>)
  {
    forall r, s :: r in rs && s in rs && r.id == s.id ==> r == s
  }

  /** connectedRooms.filter(r => r.id === id).length */
  function CountWithId(rs: seq<Room>, id: int): (n: nat)
    ensures n <= |rs|
    ensures n > 0 <==> exists i :: 0 <= i < |rs| && rs[i].id == id
  {
    if rs == [] then 0
    else CountWithId(rs[..|rs| - 1], id) + (if rs[|rs| - 1].id == id then 1 else 0)
  }

  /** In a room graph, an inaccessible room is never connected to an accessible one. */
  lemma NotConnectedAcrossAccess(rs: seq<Room>, a: Room, b: Room)
    requires RoomGraph(RoomSet(rs)) && DistinctIds(rs)
    requires a in rs && b in rs && !a.isAccessibleFromMainRoom && b.isAccessibleFromMainRoom
    ensures !a.IsConnectedTo(b)
  {
  }

  class Room {
    const id: int
    const tiles: seq<Coord>
    const roomSize: nat
    const edgeTiles: seq<Coord>
    var connectedRooms: seq<Room>
    var isAccessibleFromMainRoom: bool
    var isMainRoom: bool

    /** new Room(id, roomTiles, map): edge tiles are scanned tile by tile over
        the axis cells of each tile's 3x3 window. */
    constructor (roomId: int, roomTiles: seq<Coord>, m: Grid)
      requires IsGrid(m)
      ensures id == roomId && tiles == roomTiles && roomSize == |roomTiles|
      ensures edgeTiles == EdgeTileList(m, roomTiles)
      ensures connectedRooms == [] && !isAccessibleFromMainRoom && !isMainRoom
    {
      var edges: seq<Coord> := [];
      for i := 0 to |roomTiles|
        invariant edges == EdgeTileList(m, roomTiles[..i])
      {
        var tile := roomTiles[i];
        var window := AxisWindow(tile);
        for k := 0 to |window|
          invariant edges == EdgeTileList(m, roomTiles[..i]) + WallMarks(m, tile, window[..k])
        {
          if IsWallAt(m, window[k]) {
            edges := edges + [tile];
          }
          assert window[..k + 1] == window[..k] + [window[k]];
        }
        assert window[..|window|] == window;
        assert roomTiles[..i + 1][..i] == roomTiles[..i];
      }
      assert roomTiles[..|roomTiles|] == roomTiles;
      id := roomId;
      tiles := roomTiles;
      roomSize := |roomTiles|;
      edgeTiles := edges;
      connectedRooms := [];
      isAccessibleFromMainRoom := false;
      isMainRoom := false;
    }

    /** isConnectedTo: some connected room has the other room's id. */
    predicate IsConnectedTo(otherRoom: Room)
      reads this
    {
      CountWithId(connectedRooms, otherRoom.id) > 0
    }

    /** compareTo: negative when this room is larger, so sorting puts larger rooms first. */
    function CompareTo(otherRoom: Room): int
    {
      otherRoom.roomSize - roomSize
    }

    /** Raises this room's flag and, the first time, every connected room's,
        recursively. `pending` holds the callers whose own connections are
        still being visited. Terminates because each call that recurses has
        just raised a flag that was down. */
    method SetAccessibleFromMainRoom(ghost rooms: set<Room>, ghost pending: set<Room>)
      requires this in rooms && GraphClosed(rooms) && AccessClosedExcept(rooms, pending)
      modifies rooms`isAccessibleFromMainRoom
      decreases Inaccessible(rooms)
      ensures isAccessibleFromMainRoom
      ensures FlagsOnlyRaised(rooms)
      ensures old(isAccessibleFromMainRoom) ==> forall r :: r in rooms ==> r.isAccessibleFromMainRoom == old(r.isAccessibleFromMainRoom)
      ensures GraphClosed(rooms) && AccessClosedExcept(rooms, pending)
    {
      if !isAccessibleFromMainRoom {
        assert this in old(Inaccessible(rooms));
        isAccessibleFromMainRoom := true;
        assert this !in Inaccessible(rooms);
        for i := 0 to |connectedRooms|
          invariant isAccessibleFromMainRoom && FlagsOnlyRaised(rooms)
          invariant Inaccessible(rooms) < old(Inaccessible(rooms))
          invariant GraphClosed(rooms) && AccessClosedExcept(rooms, pending + {this})
          invariant forall j :: 0 <= j < i ==> connectedRooms[j].isAccessibleFromMainRoom
        {
          connectedRooms[i].SetAccessibleFromMainRoom(rooms, pending + {this});
        }
      }
    }

    /** Room.connectRooms: records the connection on both rooms and, when one
        of them was accessible, makes the other accessible too. */
    static method ConnectRooms(roomA: Room, roomB: Room, ghost rooms: set<Room>)
      requires roomA in rooms && roomB in rooms && RoomGraph(rooms)
      modifies rooms
      ensures RoomGraph(rooms) && FlagsOnlyRaised(rooms) && LinkedBy(rooms, roomA, roomB)
    {
      ShareAccess(roomA, roomB, rooms);
      AppendLinks(roomA, roomB, rooms);
    }

    /** The first half of connectRooms: when one room is accessible, the
        other is made accessible too (with everything connected to it). */
    static method ShareAccess(roomA: Room, roomB: Room, ghost rooms: set<Room>)
      requires roomA in rooms && roomB in rooms && RoomGraph(rooms)
      modifies rooms`isAccessibleFromMainRoom
      ensures RoomGraph(rooms) && FlagsOnlyRaised(rooms)
      ensures roomA.isAccessibleFromMainRoom == roomB.isAccessibleFromMainRoom
      ensures old(roomA.isAccessibleFromMainRoom) || old(roomB.isAccessibleFromMainRoom)
        ==> roomA.isAccessibleFromMainRoom
      ensures !old(roomA.isAccessibleFromMainRoom) && !old(roomB.isAccessibleFromMainRoom)
        ==> forall r :: r in rooms ==> r.isAccessibleFromMainRoom == old(r.isAccessibleFromMainRoom)
    {
      if roomA.isAccessibleFromMainRoom {
        roomB.SetAccessibleFromMainRoom(rooms, {});
      } else if roomB.isAccessibleFromMainRoom {
        roomA.SetAccessibleFromMainRoom(rooms, {});
      }
    }

    /** The second half of connectRooms: each room is appended to the
        other's connections, which keeps the graph symmetric and, the two
        flags being equal, keeps accessibility closed. */
    static method AppendLinks(roomA: Room, roomB: Room, ghost rooms: set<Room>)
      requires roomA in rooms && roomB in rooms && RoomGraph(rooms)
      requires roomA.isAccessibleFromMainRoom == roomB.isAccessibleFromMainRoom
      modifies rooms`connectedRooms
      ensures RoomGraph(rooms)
      ensures roomA != roomB ==> roomA.connectedRooms == old(roomA.connectedRooms) + [roomB]
      ensures roomA != roomB ==> roomB.connectedRooms == old(roomB.connectedRooms) + [roomA]
      ensures roomA == roomB ==> roomA.connectedRooms == old(roomA.connectedRooms) + [roomA, roomA]
      ensures forall r :: r in rooms && r != roomA && r != roomB ==> r.connectedRooms == old(r.connectedRooms)
    {
      roomA.connectedRooms := roomA.connectedRooms + [roomB];
      roomB.connectedRooms := roomB.connectedRooms + [roomA];
      assert forall r, c :: r in rooms && c in r.connectedRooms ==>
        (c in old(r.connectedRooms) || (r == roomA && c == roomB) || (r == roomB && c == roomA));
    }
  }

  // ---------------------------------------------------------------------
  // survivingRooms.sort((a, b) => a.compareTo(b)): a stable sort, larger rooms first.

  ghost predicate SortedBySize(rs: seq<Room>)
  {
    forall i, j :: 0 <= i < j < |rs| ==> rs[i].roomSize >= rs[j].roomSize
  }

  /** Places x before the first room it compares strictly before, so after every room of equal size. */
  function Insert(x: Room, rs: seq<Room>): (r: seq<Room>)
    ensures multiset(r) == multiset(rs) + multiset{x}
  {
    if rs == [] then [x]
    else if x.CompareTo(rs[0]) < 0 then [x] + rs
    else
      assert rs == [rs[0]] + rs[1..];
      [rs[0]] + Insert(x, rs[1..])
  }

  lemma {:induction false} InsertKeepsSorted(x: Room, rs: seq<Room>)
    requires SortedBySize(rs)
    ensures SortedBySize(Insert(x, rs))
  {
    if rs != [] && x.CompareTo(rs[0]) >= 0 {
      InsertKeepsSorted(x, rs[1..]);
      var tail := Insert(x, rs[1..]);
      forall k | 0 <= k < |tail|
        ensures rs[0].roomSize >= tail[k].roomSize
      {
        assert tail[k] in multiset(rs[1..]) + multiset{x} by {
          assert tail[k] in multiset(tail);
        }
      }
    }
  }

  /** The order Array.prototype.sort gives with compareTo: a permutation,
      sizes non-increasing; SortRoomsIsStable adds that rooms of equal size
      keep their order. */
  function SortRooms(rs: seq<Room>): (r: seq<Room>)
    ensures multiset(r) == multiset(rs)
    ensures SortedBySize(r)
  {
    if rs == [] then []
    else
      var sorted := SortRooms(rs[..|rs| - 1]);
      InsertKeepsSorted(rs[|rs| - 1], sorted);
      assert rs == rs[..|rs| - 1] + [rs[|rs| - 1]];
      Insert(rs[|rs| - 1], sorted)
  }

  /** The rooms of rs whose size is s, in the order of rs. */
  function OfSize(rs: seq<Room>, s: int): seq<Room>
  {
    if rs == [] then []
    else (if rs[0].roomSize == s then [rs[0]] else []) + OfSize(rs[1..], s)
  }

  lemma {:induction false} OfSizeAppend(a: seq<Room>, b: seq<Room>, s: int)
    ensures OfSize(a + b, s) == OfSize(a, s) + OfSize(b, s)
  {
    if a == [] {
      assert a + b == b;
    } else {
      var head := if a[0].roomSize == s then [a[0]] else [];
      assert (a + b)[0] == a[0] && (a + b)[1..] == a[1..] + b;
      OfSizeAppend(a[1..], b, s);
      calc {
        OfSize(a + b, s);
        head + OfSize(a[1..] + b, s);
        head + (OfSize(a[1..], s) + OfSize(b, s));
        (head + OfSize(a[1..], s)) + OfSize(b, s);
        OfSize(a, s) + OfSize(b, s);
      }
    }
  }

  lemma {:induction false} NoneOfSize(rs: seq<Room>, s: int)
    requires forall k :: 0 <= k < |rs| ==> rs[k].roomSize != s
    ensures OfSize(rs, s) == []
  {
    if rs != [] {
      NoneOfSize(rs[1..], s);
    }
  }

  /** Insert puts x after every room of its own size. */
  lemma {:induction false} InsertIsStable(x: Room, rs: seq<Room>, s: int)
    requires SortedBySize(rs)
    ensures OfSize(Insert(x, rs), s) == OfSize(rs, s) + (if x.roomSize == s then [x] else [])
  {
    if rs == [] {
    } else if x.CompareTo(rs[0]) < 0 {
      if x.roomSize == s {
        NoneOfSize(rs, s);
      }
    } else {
      InsertIsStable(x, rs[1..], s);
    }
  }

  /** Rooms of equal size keep their input order. */
  lemma {:induction false} SortRoomsIsStable(rs: seq<Room>, s: int)
    ensures OfSize(SortRooms(rs), s) == OfSize(rs, s)
  {
    if rs != [] {
      var init, last := rs[..|rs| - 1], rs[|rs| - 1];
      assert rs == init + [last];
      var sorted := SortRooms(init);
      SortRoomsIsStable(init, s);
      InsertIsStable(last, sorted, s);
      OfSizeAppend(init, [last], s);
      calc {
        OfSize(SortRooms(rs), s);
        OfSize(Insert(last, sorted), s);
        OfSize(sorted, s) + (if last.roomSize == s then [last] else []);
        OfSize(init, s) + OfSize([last], s);
        OfSize(rs, s);
      }
    }
  }

  /** The first room of size s in rs, if any, is the head of OfSize(rs, s). */
  lemma {:induction false} OfSizeHead(rs: seq<Room>, s: int, i: int)
    requires 0 <= i < |rs| && rs[i].roomSize == s
    ensures OfSize(rs, s) != []
    ensures exists k ::
      (0 <= k <= i && rs[k] == OfSize(rs, s)[0]) && forall m :: 0 <= m < k ==> rs[m].roomSize != s
  {
    if rs[0].roomSize != s {
      OfSizeHead(rs[1..], s, i - 1);
      var k :| 0 <= k <= i - 1 && rs[1..][k] == OfSize(rs[1..], s)[0] &&
        forall m :: 0 <= m < k ==> rs[1..][m].roomSize != s;
      assert rs[k + 1] == OfSize(rs, s)[0];
      forall m | 0 <= m < k + 1
        ensures rs[m].roomSize != s
      {
        if m > 0 {
          assert rs[m] == rs[1..][m - 1];
        }
      }
    }
  }

  /** No room of rs is larger than the head of the sorted rooms. */
  lemma SortedHeadIsLargest(rs: seq<Room>)
    requires rs != []
    ensures SortRooms(rs) != [] && SortRooms(rs)[0] in rs
    ensures forall i :: 0 <= i < |rs| ==> rs[i].roomSize <= SortRooms(rs)[0].roomSize
  {
    var r := SortRooms(rs);
    assert |r| == |multiset(r)| == |multiset(rs)| == |rs|;
    assert r[0] in multiset(r);
    forall i | 0 <= i < |rs|
      ensures rs[i].roomSize <= r[0].roomSize
    {
      assert rs[i] in multiset(r);
    }
  }

  /** The head of the sorted rooms is the first room of rs of the largest
      size: no room is larger, and every room before it is smaller. */
  lemma SortedHeadIsFirstLargest(rs: seq<Room>)
    requires rs != []
    ensures SortRooms(rs) != [] && SortRooms(rs)[0] in rs
    ensures forall i :: 0 <= i < |rs| ==> rs[i].roomSize <= SortRooms(rs)[0].roomSize
    ensures exists k ::
      (0 <= k < |rs| && rs[k] == SortRooms(rs)[0]) && forall m :: 0 <= m < k ==> rs[m].roomSize < rs[k].roomSize
  {
    SortedHeadIsLargest(rs);
    var r := SortRooms(rs);
    var s := r[0].roomSize;
    var i :| 0 <= i < |rs| && rs[i] == r[0];
    OfSizeHead(rs, s, i);
    SortRoomsIsStable(rs, s);
    assert OfSize(r, s)[0] == r[0];
  }
}
