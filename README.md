# 3D cave generator: map and mesh model

This project is a Dafny model of the cave generator in `MapGenerator.js`
and `MeshGenerator.js`, with proofs about it.

`MapGenerator` works in these steps:

1. It fills a `mapWidth x mapHeight` tile map with random walls (1) and floor (0).
2. It smooths the map five times with the 4-5 cellular-automaton rule.
3. It removes wall regions smaller than `wallThresholdSize` and floor regions smaller than `roomThresholdSize`.
4. It turns the floor regions that remain into `Room`s.
5. It connects rooms by carving passages, first greedily, then until every room can reach the main room.
6. It surrounds the map with a frame of walls and hands the result to `MeshGenerator`.

`MeshGenerator` then works in these steps:

1. It builds a marching-squares grid over the bordered map.
2. It triangulates each square with a fan over the polygon its 4-bit configuration selects.
3. It indexes triangles by vertex.
4. It traces the outline edges: edges that belong to exactly one triangle.
5. It extrudes the outlines into wall quads.

The files follow the program's structure:

- `tiles.dfy` (module `Tiles`): the tile grid (`seq<seq<int>>`, indexed `[x][y]`).
  - the neighbour count and the smoothing pass;
  - regions and the threshold fill;
  - circles and passages carved into the map;
  - `getLine` in closed form;
  - the bordered map.
- `rooms.dfy` (module `Rooms`): class `Room`.
  - Its connection list and flags change in place.
  - The room graph and its invariants.
  - The size ordering.
- `squares.dfy` (module `Squares`): nodes, control nodes, squares and the square grid.
  - the configuration code;
  - the polygon table of `triangulateSquare`.
- `mesh_generator.dfy` (module `Mesh`): `Triangle` and class `MeshGenerator`.
  - vertex and triangle buffers, the triangle dictionary, outlines and wall buffers.
- `map_generator.dfy` (module `MapGen`): class `MapGenerator`, with its map and the operations above.

### How the model represents the source

- Loops in the source are methods with loop invariants.
  - Each method is proved against a specification function or predicate: `SmoothPass`, `ThresholdFill`, `RegionsOf`, `LineTiles`, `Carve`, `CarveAll`, `Bordered`, `Fan`, `WallPoints`, `WallIndices`.
  - Lemmas prove what the source promises about those functions.
- A node's `vertexIndex` field becomes the map `vertexIndex` of the generator.
  - A node that is not a key still holds -1.
- `checkedVerticies` (an object of `true` entries) is the set of its keys.
- `survivingRooms.sort` with `compareTo` is the insertion-sort function `Rooms.SortRooms`. It is stable, like JavaScript's sort, so of several rooms of the largest size the first in region order becomes the main room.
- `triangleDictionary` is a `map<int, seq<Triangle>>`.
- The ghost sequence `created` lists the triangles made since the dictionary was last cleared.
  - It states what the dictionary indexes.

## Model

| member | source | states |
|---|---|---|
| Tiles.NeighbourWallCountExpanded | MapGenerator.js:457-471 | The wall count at (x, y) is the sum over the 3x3 window: each off-map cell counts as a wall, each other cell as its tile, and the centre not at all. |
| Tiles.NeighbourWallCountBounds | MapGenerator.js:457-471 | On a map of walls and floor, an in-range tile has between 0 and 8 walls around it. |
| Tiles.BorderTileSeesFiveWalls | MapGenerator.js:445-471 | A tile on the frame of a map whose frame is wall sees at least 5 walls, so smoothing keeps it a wall. |
| Tiles.SmoothTimesKeepsBinary | MapGenerator.js:113-115 | Any number of in-place smoothing passes leaves a map of walls and floor only. |
| Tiles.SmoothTimesKeepsBorder | MapGenerator.js:113-115 | Smoothing any number of times keeps the map's frame all wall, given that randomFillMap made it so. |
| Tiles.AxisWindow | MapGenerator.js:394-399 | The cells that pass the `x === tileX \|\| y === tileY` test are five: the tile itself and exactly its four axis neighbours. |
| Tiles.GrowingRegionAppend | MapGenerator.js:397-404 | Queueing a new same-type neighbour of a listed tile keeps the list distinct, all of one type, and growing by adjacency. |
| Tiles.AppendKeepsAdjacency | MapGenerator.js:397-404 | A tile next to any listed tile may be queued after it: each tile still joins an earlier one. |
| Tiles.SeedsAppend | MapGenerator.js:360-368 | A region seeded at the current tile keeps every region's seed before the next tile of the scan. |
| Tiles.CoveredAdvance | MapGenerator.js:362-368 | Once the scan has visited a tile, every tile of the type up to and including it is in some region. |
| Tiles.CoveredNextColumn | MapGenerator.js:360-362 | Finishing column x (y running to mapHeight) leaves every tile of the type in columns up to x covered. |
| Tiles.RegionListAppend | MapGenerator.js:363-368 | Adding the region of an uncovered tile, found in scan order, keeps the regions disjoint regions of the type, in scan order, and covers exactly its tiles in addition. |
| Tiles.ScanOrderAppend | MapGenerator.js:360-368 | The region found at the first uncovered tile of the x-outer, y-inner scan starts at its earliest tile, and its seed comes after every earlier region's seed. |
| Tiles.NewRegionIsDisjoint | MapGenerator.js:361-368 | A region grown from a tile that no earlier region covers shares no tile with any earlier region. |
| Tiles.SetTilesAt | MapGenerator.js:147-149 | Setting a list of tiles to v changes exactly the listed tiles, to v. |
| Tiles.ThresholdFillAt | MapGenerator.js:145-152 | After small regions are filled, a tile holds v exactly when it lies in a region shorter than the threshold; otherwise it keeps its value. |
| Tiles.ThresholdFillKeepsBinary | MapGenerator.js:145-167 | Filling small regions with wall or floor keeps the map binary. |
| Tiles.SurvivingTiles | MapGenerator.js:145-167 | After the regions of type t are found and the small ones are flipped, a tile is of type t exactly when it lies in a region at least as large as the threshold. |
| Tiles.CarveAt | MapGenerator.js:282-294 | drawCircle clears exactly the in-map tiles within radius r (x² + y² ≤ r²) and leaves every other tile as it was. |
| Tiles.CarveAllOnlyClears | MapGenerator.js:276-279 | A carved passage changes a tile only by setting it to floor, and only within radius r of some point of the line. |
| Tiles.CarveAllKeepsBinary | MapGenerator.js:276-279 | Carving a passage keeps the map binary. |
| Tiles.CarveAllIsOnlyCleared | MapGenerator.js:270-280 | A passage only turns walls into floor: no floor tile becomes a wall. |
| Tiles.GradientStepsNearest | MapGenerator.js:322-335 | After i steps, the sideways offset is the nearest whole number to i·shortest/longest, with halves rounded down. |
| Tiles.GradientStepsGrow | MapGenerator.js:322-335 | Each step along the main axis moves the line 0 or 1 tiles sideways. |
| Tiles.AccumulatorStep | MapGenerator.js:321-335 | The source's running gradientAccumulation (kept doubled, so `longest / 2` stays exact) produces exactly the closed-form sideways offset, step after step. |
| Tiles.LineEnds | MapGenerator.js:296-338 | The line is empty exactly when both ends coincide; otherwise it starts at fromTile; it never contains toTile. |
| Tiles.LineSteps | MapGenerator.js:296-338 | Consecutive line tiles move one unit in the step direction along the main axis, and either stay put or move one unit in the gradient direction on the other axis. |
| Tiles.BorderedFrame | MapGenerator.js:119-136 | The bordered map is rectangular and b tiles larger on every side. It holds the map shifted by b and is wall everywhere else. It stays binary and keeps a wall frame. |
| Rooms.EdgeTileListMembership | MapGenerator.js:32-40 | A tile is among a room's edge tiles exactly when it is a room tile with a wall on itself or among its four axis neighbours. |
| Rooms.Room.constructor | MapGenerator.js:9-45 | A new room has the id, tiles and size given, the edge tiles of the map it is built on, no connections, and both flags down. |
| Rooms.Room.SetAccessibleFromMainRoom | MapGenerator.js:47-54 | Sets this room's flag and spreads it along connections. Flags are only raised. A room already accessible changes nothing. Every room connected to an accessible one stays accessible. |
| Rooms.Room.ConnectRooms | MapGenerator.js:60-66 | Links the two rooms both ways. Flags are only raised. The room graph stays symmetric and closed under accessibility. |
| Rooms.Room.ShareAccess | MapGenerator.js:61-62 | Afterwards both rooms are accessible exactly when one of them was. When neither was, no flag changes. |
| Rooms.Room.AppendLinks | MapGenerator.js:64-65 | Each room is appended to the other's list; a room joined to itself gets itself twice; every other room keeps its list. |
| Rooms.CountWithId | MapGenerator.js:71-73 | isConnectedTo's filter count is positive exactly when some connected room has the other room's id. |
| Rooms.NotConnectedAcrossAccess | MapGenerator.js:47-66 | In a room graph with distinct ids, an inaccessible room is never connected to an accessible one. |
| Rooms.Insert | MapGenerator.js:170 | Inserting a room adds exactly that room to the list's contents. |
| Rooms.InsertKeepsSorted | MapGenerator.js:75-77 | Inserting into a list sorted by compareTo (largest room first) keeps it sorted. |
| Rooms.SortRooms | MapGenerator.js:170-171 | The sorted rooms are a permutation of the input, ordered largest first. |
| Rooms.InsertIsStable | MapGenerator.js:75-77 | Inserting into a sorted list places the room after every room of its own size, so the rooms of each size keep their order. |
| Rooms.SortRoomsIsStable | MapGenerator.js:170 | Rooms of equal size appear in the sorted list in their input order, as JavaScript's stable sort leaves them. |
| Rooms.OfSizeAppend | MapGenerator.js:170 | The rooms of one size in a concatenation are those of the first part followed by those of the second. |
| Rooms.NoneOfSize | MapGenerator.js:170 | A list with no room of a size has no rooms of that size to keep in order. |
| Rooms.OfSizeHead | MapGenerator.js:170 | The first room of a size in a list comes no later than any room of that size, and every room before it has another size. |
| Rooms.SortedHeadIsLargest | MapGenerator.js:170-171 | The first sorted room is one of the input rooms and no input room is larger. |
| Rooms.SortedHeadIsFirstLargest | MapGenerator.js:170-171 | The first sorted room is the first input room of the largest size: every room before it in the input is strictly smaller. |
| Squares.Configuration | MeshGenerator.js:33-38 | The configuration is a 4-bit number whose bits give back exactly which corners are active. |
| Squares.BuildControlNodes | MeshGenerator.js:52-66 | One control node per tile, active exactly on a wall. |
| Squares.BuildSquares | MeshGenerator.js:70-80 | One square per 2x2 block of control nodes, with corners taken clockwise from the top left. |
| Squares.BuildSquareGrid | MeshGenerator.js:42-82 | The grid's nodes and squares match the map: square (x, y) has its corners at tiles (x, y) to (x + 1, y + 1), each active on a wall. |
| Squares.SharedMidpoints | MeshGenerator.js:29-32 | Neighbouring squares share midpoint nodes: a square's right midpoint is the left one of the square beside it, and its top is the bottom of the square above. |
| Squares.FullSquarePoints | MeshGenerator.js:317-322 | A full square's polygon is its four corners. |
| Squares.PolygonCorners | MeshGenerator.js:184-325 | Across all 16 cases, a square's polygon holds a corner exactly when that corner is a wall. |
| Squares.PolygonMidpoints | MeshGenerator.js:184-325 | Across all 16 cases, a square's polygon holds an edge midpoint exactly when the edge's two corners differ. |
| Squares.PointsAreDistinct | MeshGenerator.js:184-325 | No polygon repeats a node. |
| Squares.FanSizeMatchesTable | MeshGenerator.js:327-340 | The fan over each configuration's polygon has the marching-squares triangle count: 1 for one corner, 2 for two adjacent corners or a full square, 3 for three corners, 4 for two opposite corners. |
| Mesh.Triangle.Contains | MeshGenerator.js:100-106 | True exactly when the index is one of the triangle's three corners. |
| Mesh.EntriesAreCreated | MeshGenerator.js:443-450 | The dictionary list of a vertex holds only created triangles that contain it, and is non-empty exactly when some created triangle contains it. |
| Mesh.IndexedAfterAdding | MeshGenerator.js:356-360 | Filing a new triangle under its three corners keeps the dictionary indexing exactly the created triangles. |
| Mesh.CountIsShared | MeshGenerator.js:430-441 | For triangles with three distinct corners, the count isOutlineEdge takes of b in a's list is the number of created triangles having both a and b. |
| Mesh.OutlineEdgeIsUnshared | MeshGenerator.js:430-441 | An edge is an outline edge exactly when one created triangle has both its ends. |
| Mesh.FanOfDistinct | MeshGenerator.js:327-340 | A fan over distinct vertex indices makes only triangles with three distinct corners. |
| Mesh.IndicesOfDistinct | MeshGenerator.js:342-348 | Distinct nodes get distinct vertex indices. |
| Mesh.ClosedFromPath | MeshGenerator.js:373-381 | The seed, a path that leaves it along outline edges, and the seed again form a closed outline. |
| Mesh.WallPointsAppend | MeshGenerator.js:158-172 | Each outline edge adds its two top points and then its two bottom points to the wall vertices. |
| Mesh.WallIndicesStep | MeshGenerator.js:174-180 | Each edge adds the two triangles (0, 2, 3) and (3, 1, 0) of its quad, offset by the quad's first vertex. |
| Mesh.WallIndicesInRange | MeshGenerator.js:174-180 | Every wall triangle index names one of the four vertices of its own quad, so all of them are in range. |
| Mesh.MeshGenerator.constructor | MeshGenerator.js:110-123 | A new generator has the wall height given and empty buffers, dictionary, outlines and checked set. |
| Mesh.MeshGenerator.AssignVerticies | MeshGenerator.js:342-348 | Every point gets an index. An index once given never changes. New indices point past the old vertices. A position is pushed for every point. |
| Mesh.MeshGenerator.AddTriangleToDictionary | MeshGenerator.js:443-450 | The triangle is appended to the key's list, which is created when missing; every other key keeps its list. |
| Mesh.MeshGenerator.CreateTriangle | MeshGenerator.js:350-361 | Pushes the three vertex indices and files the triangle under each corner, keeping the dictionary an index of the created triangles. |
| Mesh.MeshGenerator.MeshFromPoints | MeshGenerator.js:327-340 | Numbers the points, then draws the fan over them: 3 to 6 points give n - 2 triangles sharing the first point. |
| Mesh.MeshGenerator.DrawFan | MeshGenerator.js:333-339 | The four guarded createTriangle calls make exactly the fan over the indexed points. |
| Mesh.MeshGenerator.TriangulateSquare | MeshGenerator.js:184-325 | Fills the square's polygon with its fan, drawing the table's triangle count. A full square also marks its four corner vertices checked. |
| Mesh.MeshGenerator.MarkCorners | MeshGenerator.js:319-322 | The checked set grows by exactly the four corner vertex indices. |
| Mesh.MeshGenerator.IsOutlineEdge | MeshGenerator.js:430-441 | The early-exit count returns true exactly when one triangle in vertexA's list has vertexB. |
| Mesh.FirstCandidateSelfChecked | MeshGenerator.js:411-419 | Marking the vertex itself checked leaves its first candidate unchanged, as the vertex is never a candidate of itself. |
| Mesh.FirstCandidateIsUnique | MeshGenerator.js:411-419 | A vertex has at most one first candidate: the loops stop at the first corner, in triangle-then-corner order, that qualifies. |
| Mesh.FirstCandidateExists | MeshGenerator.js:407-423 | A vertex has a first candidate exactly when it has a candidate at all. |
| Mesh.FirstCornerFrom | MeshGenerator.js:411-419 | Any qualifying corner has a first one at or before it in triangle-then-corner order. |
| Mesh.FollowsCons | MeshGenerator.js:392-401 | A step to the vertex's first candidate before a path that followed first candidates is again such a path. |
| Mesh.OutlineFromWalk | MeshGenerator.js:373-381 | Closing a first-candidate walk from the seed gives an outline whose open part follows first candidates from the seed. |
| Mesh.AllTracedAppend | MeshGenerator.js:366-384 | One more outline traced in order from the vertices checked by the earlier ones keeps all outlines traced in order. |
| Mesh.AllTracedMeans | MeshGenerator.js:366-384 | In outlines traced in order, outline k follows first candidates from the vertices checked before it plus those of outlines 0 to k - 1. |
| Mesh.OutlineAddedKeeps | MeshGenerator.js:373-384 | A new outline over unchecked vertices, traced from first candidates, keeps every outline closed, the checked set their vertices plus the ones before, and all traced in order. |
| Mesh.TracedFromAdd | MeshGenerator.js:373-384 | The same, stated for all outlines traced since a given start. |
| Mesh.MeshGenerator.GetConnectedOutlineVertex | MeshGenerator.js:407-423 | Returns -1 exactly when no unchecked other corner of a triangle at the vertex makes an outline edge with it. Any other result is the FIRST such corner, scanning the vertex's triangles in list order and each triangle's corners a, b, c in order. |
| Mesh.MeshGenerator.CheckVertex | MeshGenerator.js:393-394 | Appends the vertex to the outline and marks it checked. |
| Mesh.MeshGenerator.FollowOutline | MeshGenerator.js:392-401 | Appends a path of fresh, distinct vertices joined by outline edges and marks exactly them checked. Each step goes to the first candidate of the vertex before it, given what was checked by then. The path's last vertex has no candidate left. |
| Mesh.MeshGenerator.TraceOutline | MeshGenerator.js:373-381 | Adds one outline that starts and ends at the seed and is closed (distinct, joined by outline edges, all checked), over vertices not checked before. When the first step is the seed's first candidate, every step is a first candidate. |
| Mesh.MeshGenerator.CalculateMeshOutlines | MeshGenerator.js:366-384 | Every new outline is closed, and afterwards no unchecked vertex has a candidate outline edge left. The vertices newly checked are exactly those of the new outlines, and each new outline was traced, in order, from first candidates. |
| Mesh.MeshGenerator.VisitVertex | MeshGenerator.js:367-383 | One vertex of the loop: what has been traced so far stays closed and traced from first candidates, and this vertex too is left with no candidate unless checked. |
| Mesh.MeshGenerator.AddOutline | MeshGenerator.js:373-381 | Tracing from a seed's first candidate adds one outline to those traced from first candidates, checking the seed. |
| Mesh.MeshGenerator.PushEdgeWall | MeshGenerator.js:158-180 | Adds one edge's quad: wall vertices and triangles become those of the edges so far plus this edge. |
| Mesh.MeshGenerator.PushOutlineWall | MeshGenerator.js:156-181 | Adds the quads of every consecutive vertex pair of one outline. |
| Mesh.MeshGenerator.PushWalls | MeshGenerator.js:155-181 | The wall buffers are exactly the quads of all outline edges, and every wall triangle index is in range. |
| Mesh.MeshGenerator.CreateWallMesh | MeshGenerator.js:147-182 | After tracing, the outlines are closed, exhaustive and traced in order from first candidates, and the wall buffers are the quads of their edges with every index in range. |
| Mesh.MeshGenerator.FreshWallMesh | MeshGenerator.js:141-142 | createWallMesh from no outlines: the outlines are traced in order from first candidates over the vertices the triangulation left unchecked, and the walls are built from them. |
| Mesh.MeshGenerator.StartMesh | MeshGenerator.js:125-132 | Clears the dictionary, outlines and checked set, and builds the square grid of the map. |
| Mesh.MeshGenerator.TriangulateColumn | MeshGenerator.js:135-137 | One column of squares adds the table's triangle count for each of its squares. |
| Mesh.MeshGenerator.TriangulateGrid | MeshGenerator.js:134-138 | The whole grid adds the table's triangle count for each of its squares. |
| Mesh.MeshGenerator.GenerateMesh | MeshGenerator.js:125-142 | The squares match the map. The triangle count follows the table. In 3D mode the outlines are closed, exhaustive and traced in order from first candidates, and the walls are built from them; in 2D mode no walls are made. |
| MapGen.ScanRoomPair | MapGenerator.js:225-252 | Keeps the best pair unless an edge-tile pair is strictly closer (or nothing was found yet). The result is then the first pair in scan order at the smallest distance. |
| MapGen.SearchFrom | MapGenerator.js:218-254 | Over the rooms not skipped (same id or already connected), the result is found exactly when the pair passed in was or some edge-tile pair exists, and is no farther than any such pair or the pair passed in. If it changes, it is the first closest pair of some room of roomListB that is strictly closer than every pair of the scanned rooms before it, so ties keep the pair found first. |
| MapGen.SearchStep | MapGenerator.js:218-253 | One roomB round: a skipped room leaves the search as it was; a scanned one extends what is known of the rooms so far by that room. |
| MapGen.SkipKeeps | MapGenerator.js:219 | Skipping a room with roomA's id or already connected to it changes nothing the search knows. |
| MapGen.ScanKeeps | MapGenerator.js:220-252 | Scanning one more room extends what is known: found, kept pair, bound. |
| MapGen.ScanFound | MapGenerator.js:225-252 | After one more scanned room, a pair is found exactly when one was before or both rooms have edge tiles. |
| MapGen.ScanBound | MapGenerator.js:225-252 | After one more scanned room, no pair of the scanned rooms so far is closer than the result. |
| MapGen.ChosenHere | MapGenerator.js:240-250 | A room's first closest pair that replaces the earlier best is strictly closer than every pair of the scanned rooms before it. |
| MapGen.SplitByAccess | MapGenerator.js:187-191 | List A holds exactly the inaccessible rooms and list B exactly the accessible ones, each in the order of allRooms. |
| MapGen.MapGenerator.constructor | MapGenerator.js:81-105 | Stores the map dimensions, fill percentage, border, wall height, thresholds and passage size. |
| MapGen.MapGenerator.RandomFillMap | MapGenerator.js:423-443 | The map is mapWidth x mapHeight with a wall frame. An inner tile is a wall exactly when its draw is below fillPercent. |
| MapGen.MapGenerator.VisitNeighbour | MapGenerator.js:399-403 | An unflagged tile of the region's type is flagged and queued; otherwise nothing changes. |
| MapGen.MapGenerator.VisitNeighbours | MapGenerator.js:394-406 | Every axis neighbour of the region's type ends up listed, and only new tiles are queued. |
| MapGen.MapGenerator.Dequeue | MapGenerator.js:389-406 | Moving the queue's head to the tiles lists all its same-type neighbours. The search makes progress. |
| MapGen.MapGenerator.GetRegionTiles | MapGenerator.js:382-410 | Returns the seed's region: distinct tiles of its type, each next to an earlier one, with no same-type neighbour missing, starting at the seed. |
| MapGen.MapGenerator.FlagRegion | MapGenerator.js:366-368 | Exactly the region's tiles are flagged in addition. |
| MapGen.MapGenerator.GetRegions | MapGenerator.js:354-375 | The regions are pairwise disjoint, connected, maximal, and together cover every tile of the type. They come in the order of the x-outer, y-inner scan: each starts at its earliest tile in that order, and their first tiles increase. |
| MapGen.MapGenerator.ScanTile | MapGenerator.js:362-369 | Visiting one tile of the scan keeps the regions disjoint, in scan order and matching the flags, with every tile of the type up to this one covered and every seed before the next tile. |
| MapGen.MapGenerator.AddRegionAt | MapGenerator.js:363-368 | A region found at an unflagged tile keeps the scan state and scan order and covers that tile. |
| MapGen.MapGenerator.SetRegionTiles | MapGenerator.js:148-150 | Sets exactly the region's tiles. |
| MapGen.MapGenerator.FillSmallRegions | MapGenerator.js:145-152 | Fills exactly the regions below the threshold. |
| MapGen.MapGenerator.KeepRoom | MapGenerator.js:158-166 | Region i is either filled (too small) or becomes a room built on the current map, with ids increasing. |
| MapGen.MapGenerator.KeepRooms | MapGenerator.js:156-167 | Small floor regions are filled with wall. Every other region becomes one room, in region order, built on the map as it stood then. |
| MapGen.MapGenerator.SurvivingRooms | MapGenerator.js:156-167 | If the floor is exactly the large regions and each large region has its room, then the floor is exactly the tiles of the surviving rooms. |
| MapGen.MapGenerator.FloorIsRooms | MapGenerator.js:156-167 | After small rooms are filled, a tile is floor exactly when it belongs to a surviving room. |
| MapGen.MapGenerator.RemoveSmallWalls | MapGenerator.js:143-152 | The wall regions are found in scan order, and exactly those smaller than wallThresholdSize are filled with floor. |
| MapGen.MapGenerator.RemoveSmallRooms | MapGenerator.js:155-167 | The floor regions are found in scan order and those smaller than roomThresholdSize become wall. Floor remains exactly on the tiles of the surviving rooms, one per large region, with distinct ids. |
| MapGen.MapGenerator.ConnectSurvivingRooms | MapGenerator.js:170-176 | The rooms are a permutation sorted largest first, rooms of equal size in their input order. The first is the first input room of the largest size, the only main room, and accessible. Every room that could be joined is linked. No inaccessible room could still be joined to an accessible one. |
| MapGen.MapGenerator.SortedOrder | MapGenerator.js:170 | The sort keeps the same rooms (so distinct ids and fresh, unlinked rooms stay so), keeps equal-size rooms in order, and puts first the first room of the largest size. |
| MapGen.MapGenerator.MainRoomAndConnect | MapGenerator.js:171-175 | The first room becomes the only main room and is accessible; after connecting, every joinable room is linked and no pair across the access boundary is left. |
| MapGen.MapGenerator.FirstLargestHasLeastId | MapGenerator.js:156-171 | With ids increasing along the list, the first room of the largest size has the least id among the rooms of that size. |
| MapGen.MapGenerator.Processed | MapGenerator.js:142-177 | Names what processMap leaves: both threshold passes, the rooms with their regions, sorting, the main room and the joins. |
| MapGen.MapGenerator.ProcessMap | MapGenerator.js:142-177 | After wall and room filtering and room connection, walls and floor are as the thresholds dictate, every large room is kept, and connection only clears tiles. The main room is the largest, and among the largest the one of the lowest region index. |
| MapGen.MapGenerator.GetNeighborWallCount | MapGenerator.js:457-471 | Returns the neighbour wall count, off-map cells counting as walls, between 0 and 8 on a binary map. |
| MapGen.MapGenerator.SmoothMap | MapGenerator.js:445-455 | One in-place pass of the 4-5 rule, each tile seeing the tiles already updated before it. |
| MapGen.MapGenerator.AdvanceLine | MapGenerator.js:323-334 | One step moves one unit along the main axis, and one unit sideways exactly when the accumulation overflows. |
| MapGen.MapGenerator.LineDirection | MapGenerator.js:302-319 | Chooses the main axis (y only when it is strictly longer), the two step directions, and longest ≥ shortest. |
| MapGen.MapGenerator.GetLine | MapGenerator.js:296-338 | Returns exactly the closed-form line (see Tiles.LineEnds, Tiles.LineSteps). |
| MapGen.MapGenerator.DrawCircle | MapGenerator.js:282-294 | Clears exactly the disk of radius r around c, clipped to the map. |
| MapGen.MapGenerator.CarveLine | MapGenerator.js:272-279 | Clears a disk of passagewaySize around every tile of the line, in order, and only clears. |
| MapGen.MapGenerator.CreatePassage | MapGenerator.js:270-280 | Links the rooms, then clears disks along the line between the tiles; tiles are only cleared and only links are added. |
| MapGen.MapGenerator.ConnectClosestRooms | MapGenerator.js:182-268 | The unforced pass links every room that could be joined. When the forced passes end, no inaccessible room with edge tiles is left while an accessible one has them. |
| MapGen.MapGenerator.JoinAndForceAgain | MapGenerator.js:260-263 | Joining the closest pair across the access boundary and recursing ends with no joinable pair across it. |
| MapGen.MapGenerator.ConnectFromRoomListA | MapGenerator.js:211-258 | The forced search changes nothing, and it finds a pair across the access boundary whenever rooms on both sides have edge tiles. The unforced pass links every joinable room. |
| MapGen.MapGenerator.ConnectRoomAInLoop | MapGenerator.js:211-258 | One round of the roomListA loop carries what is known of the rooms before roomA over to roomA too. |
| MapGen.MapGenerator.ConnectRoomA | MapGenerator.js:212-257 | One roomA round. Forced: nothing changes and the best pair is kept or replaced by roomA's closest pair across the boundary. Unforced: a room already connected changes nothing; otherwise, if a pair is found, it is roomA's closest pair (first found among ties), the two rooms are linked and exactly that passage is carved; if none is found, nothing changes. A joinable room ends linked. |
| MapGen.MapGenerator.JoinClosest | MapGenerator.js:212-257 | The unforced round for one roomA, with the same outcomes as ConnectRoomA's unforced case. |
| MapGen.MapGenerator.BuildBorderedMap | MapGenerator.js:119-136 | The bordered map is the map in a frame of borderSize walls. |
| MapGen.MapGenerator.BuildMesh | MapGenerator.js:138-139 | A new mesh generator with the wall height is run on the bordered map. |
| MapGen.MapGenerator.FillAndSmooth | MapGenerator.js:108-115 | The map is the random fill with a wall frame, smoothed five times; it stays binary and its frame stays wall. |
| MapGen.MapGenerator.BorderAndMesh | MapGenerator.js:119-139 | The bordered map is the map in a wall frame, and a new mesh generator is run over it. |
| MapGen.MapGenerator.GenerateMap | MapGenerator.js:107-140 | The map is the random fill with a wall frame, smoothed five times (still binary, frame still wall); processMap's whole contract then holds of the smoothed map (see ProcessMap); the result is bordered and meshed. |

## Left out

- Drawing and display (`displayMesh`, `display`, `coordToWorldPoint`, `debugLines`, `console.log`) are left out, along with `sketch.js` and `Player.js`, which only drive and render the generator.
- Node positions are p5 vectors of floats; they are left out. A node is its identity (`Control`, `Above` or `Right` at a tile), which determines its position. `cellSize` and `squareSize` only scale positions and are dropped.
- The wall-height offset of a bottom wall vertex is left out for the same reason: such a vertex is recorded as `Bottom(node)`.
- Randomness and the clock are left out: `Date.now`, `randomSeed` and `random(100)` become the parameter `roll(x, y)`, the draw at tile (x, y). Each inner tile draws exactly once, in loop order.
- The global `is2d` is a parameter of `GenerateMesh`, `BuildMesh` and `GenerateMap`.
- Node field updates are left out: a node's `vertexIndex` field is a map in the generator. A node shared by two squares keeps one index because the map is keyed by node identity.
- Mesh.MeshGenerator.AssignVerticies: modelled as written. It pushes a position for every point, including points that already have an index, so vertices shared by squares appear again in `verticies` with no triangle naming the copy.
- Rooms.Room.constructor: does not model the TypeError the source raises for a floor tile in the map's first or last column, where it reads `map[-1][y]` or `map[mapWidth][y]`; the model reads such cells as non-wall and carries on. An off-map `y` only reads `undefined`, which is not 1, and the model agrees there. Smoothing keeps the frame wall, but the wall pass turns the frame's region into floor when that region has fewer than `wallThresholdSize` tiles (a 20 x 20 map has a 76-tile frame, below the default threshold of 100), and then this case does arise.
- Rooms.Room.SetAccessibleFromMainRoom: the recursion through `connectedRooms` is proved terminating by the number of inaccessible rooms. The contract states which flags are raised relative to the graph invariant, not the exact set of rooms reached.
- MapGen.MapGenerator.GenerateMap: requires `mapWidth > 0`. With no columns the source reads `this.map[0].length` of an empty map and fails.
- MapGen.MapGenerator.GetRegionTiles: states the region as a set grown by adjacency, not the exact breadth-first order of the queue.
- MapGen.MapGenerator.ConnectClosestRooms: does not state the sequence of passages over a whole call, only that rounds end with no joinable pair across the access boundary. ConnectRoomA states the pair each round picks and the passage it carves.
- MapGen.MapGenerator.ConnectFromRoomListA: does not state the sequence of passages the unforced pass carves, nor which roomA gives the forced pair; both are stated per round by ConnectRoomA.
- Mesh.MeshGenerator.TriangulateGrid: states the triangle count, the index invariants and that triangles have distinct corners, not the exact vertex and index sequences.
- Mesh.MeshGenerator.TriangulateColumn: same as TriangulateGrid, for one column.
- Mesh.MeshGenerator.GenerateMesh: inherits the TriangulateGrid contract, so it too does not state the exact vertex and index sequences.
