/** class MeshGenerator: marching-squares triangulation of a tile map with
    lazily numbered vertices, the vertex-to-triangles dictionary, outline
    tracing over the edges that belong to a single triangle, and the wall
    strip extruded from the outlines. A vertex position is represented by
    the node that produced it. */
module Mesh {
  import opened Tiles
  import opened Squares

  /** class Triangle: three vertex indices. */
  datatype Triangle = Triangle(vertexIndexA: int, vertexIndexB: int, vertexIndexC: int)
  {
    /** triangle.verticies */
    function Verticies(): seq<int>
    {
      [vertexIndexA, vertexIndexB, vertexIndexC]
    }

    /** contains */
    predicate Contains(vertexIndex: int)
      ensures Contains(vertexIndex) <==> vertexIndex in Verticies()
    {
      vertexIndex == vertexIndexA || vertexIndex == vertexIndexB || vertexIndex == vertexIndexC
    }
  }

  /** A wall vertex: a mesh vertex at the top of the wall, or the same
      vertex lowered by wallHeight. */
  datatype WallPoint = Top(node: NodeId) | Bottom(node: NodeId)

  /** The copies of t that addTriangleToDictionary files under key k for
      the first n corners of t. */
  function Partial(t: Triangle, k: int, n: nat): seq<Triangle>
    requires n <= 3
  {
    if n == 0 then [] else Partial(t, k, n - 1) + (if t.Verticies()[n - 1] == k then [t] else [])
  }

  /** The list the dictionary holds for key k after addTriangleToDictionary
      was called for each corner of each triangle in turn. */
  function Entries(created: seq<Triangle>, k: int): seq<Triangle>
  {
    if created == [] then [] else Entries(created[..|created| - 1], k) + Partial(created[|created| - 1], k, 3)
  }

  /** The dictionary indexes `created`: a key is present exactly when some
      triangle has that vertex, with that vertex's list of triangles. */
  ghost predicate Indexed(dictionary: map<int, seq<Triangle>>, created: seq<Triangle>)
  {
    forall k {:trigger Entries(created, k)} ::
      (k in dictionary <==> Entries(created, k) != []) && (k in dictionary ==> dictionary[k] == Entries(created, k))
  }

  /** The dictionary part-way through filing t: its first n corners are in. */
  ghost predicate IndexedUpTo(dictionary: map<int, seq<Triangle>>, created: seq<Triangle>, t: Triangle, n: nat)
    requires n <= 3
  {
    forall k {:trigger Entries(created, k)} :: (k in dictionary <==> Entries(created, k) + Partial(t, k, n) != []) &&
      (k in dictionary ==> dictionary[k] == Entries(created, k) + Partial(t, k, n))
  }

  /** The dictionary after addTriangleToDictionary(key, t). */
  function AddEntry(dictionary: map<int, seq<Triangle>>, key: int, t: Triangle): map<int, seq<Triangle>>
  {
    dictionary[key := (if key in dictionary then dictionary[key] else []) + [t]]
  }

  lemma PartialExpanded(t: Triangle, k: int)
    ensures Partial(t, k, 3) ==
      (if t.vertexIndexA == k then [t] else []) + (if t.vertexIndexB == k then [t] else []) + (if t.vertexIndexC == k then [t] else [])
  {
    assert Partial(t, k, 1) == (if t.vertexIndexA == k then [t] else []);
    assert Partial(t, k, 2) == Partial(t, k, 1) + (if t.vertexIndexB == k then [t] else []);
  }

  /** Filing one triangle lists only that triangle, and lists it exactly
      when it has k as a vertex. */
  lemma PartialMembers(t: Triangle, k: int)
    ensures forall u :: u in Partial(t, k, 3) ==> u == t
    ensures Partial(t, k, 3) != [] <==> t.Contains(k)
  {
    PartialExpanded(t, k);
  }

  /** Every triangle listed under k has k as a vertex and was created. */
  lemma {:induction false} EntriesAreCreated(created: seq<Triangle>, k: int)
    ensures forall t :: t in Entries(created, k) ==> t in created && t.Contains(k)
    ensures Entries(created, k) != [] <==> exists t :: t in created && t.Contains(k)
  {
    if created != [] {
      var prefix, t := created[..|created| - 1], created[|created| - 1];
      EntriesAreCreated(prefix, k);
      PartialMembers(t, k);
      var e, p := Entries(prefix, k), Partial(t, k, 3);
      assert Entries(created, k) == e + p;
      assert created == prefix + [t];
      forall u | u in e + p
        ensures u in created && u.Contains(k)
      {
        if u !in e {
          assert u in p;
        }
      }
      if e + p == [] {
        forall u | u in created
          ensures !u.Contains(k)
        {
          if u != t {
            assert u in prefix;
          }
        }
      } else {
        assert (e + p)[0] in e + p;
      }
    }
  }

  /** Filing corner n of t under its key. */
  lemma AddCorner(dictionary: map<int, seq<Triangle>>, created: seq<Triangle>, t: Triangle, n: nat)
    requires n < 3 && IndexedUpTo(dictionary, created, t, n)
    ensures IndexedUpTo(AddEntry(dictionary, t.Verticies()[n], t), created, t, n + 1)
  {
    var d := AddEntry(dictionary, t.Verticies()[n], t);
    forall k
      ensures (k in d <==> Entries(created, k) + Partial(t, k, n + 1) != []) &&
        (k in d ==> d[k] == Entries(created, k) + Partial(t, k, n + 1))
    {
      assert Partial(t, k, n + 1) == Partial(t, k, n) + (if t.Verticies()[n] == k then [t] else []);
    }
  }

  lemma StartFiling(dictionary: map<int, seq<Triangle>>, created: seq<Triangle>, t: Triangle)
    requires Indexed(dictionary, created)
    ensures IndexedUpTo(dictionary, created, t, 0)
  {
    forall k
      ensures Entries(created, k) + Partial(t, k, 0) == Entries(created, k)
    {
    }
  }

  lemma FinishFiling(dictionary: map<int, seq<Triangle>>, created: seq<Triangle>, t: Triangle)
    requires IndexedUpTo(dictionary, created, t, 3)
    ensures Indexed(dictionary, created + [t])
  {
    assert (created + [t])[..|created|] == created;
    forall k
      ensures Entries(created + [t], k) == Entries(created, k) + Partial(t, k, 3)
    {
    }
  }

  /** Adding a triangle's three corners to the dictionary keeps it an
      index of the triangles made. */
  lemma IndexedAfterAdding(dictionary: map<int, seq<Triangle>>, created: seq<Triangle>, t: Triangle)
    requires Indexed(dictionary, created)
    ensures Indexed(AddEntry(AddEntry(AddEntry(dictionary, t.vertexIndexA, t), t.vertexIndexB, t), t.vertexIndexC, t), created + [t])
  {
    var d1 := AddEntry(dictionary, t.vertexIndexA, t);
    var d2 := AddEntry(d1, t.vertexIndexB, t);
    StartFiling(dictionary, created, t);
    AddCorner(dictionary, created, t, 0);
    AddCorner(d1, created, t, 1);
    AddCorner(d2, created, t, 2);
    FinishFiling(AddEntry(d2, t.vertexIndexC, t), created, t);
  }

  /** How many triangles of a list contain vertex b. */
  function Count(ts: seq<Triangle>, b: int): (n: nat)
    ensures n <= |ts|
  {
    if ts == [] then 0 else Count(ts[..|ts| - 1], b) + (if ts[|ts| - 1].Contains(b) then 1 else 0)
  }

  lemma {:induction false} CountGrows(ts: seq<Triangle>, b: int, i: nat)
    requires i <= |ts|
    ensures Count(ts[..i], b) <= Count(ts, b)
    decreases |ts| - i
  {
    if i < |ts| {
      CountGrows(ts, b, i + 1);
      assert ts[..i + 1][..i] == ts[..i];
    } else {
      assert ts[..i] == ts;
    }
  }

  /** How many triangles of a list have both a and b as vertices. */
  function SharedBy(ts: seq<Triangle>, a: int, b: int): nat
  {
    if ts == [] then 0 else SharedBy(ts[..|ts| - 1], a, b) + (if ts[|ts| - 1].Contains(a) && ts[|ts| - 1].Contains(b) then 1 else 0)
  }

  predicate NonDegenerate(ts: seq<Triangle>)
  {
    forall t :: t in ts ==> t.vertexIndexA != t.vertexIndexB && t.vertexIndexB != t.vertexIndexC && t.vertexIndexA != t.vertexIndexC
  }

  /** A triangle with three distinct corners is filed once under each. */
  lemma PartialOfNonDegenerate(t: Triangle, k: int)
    requires NonDegenerate([t])
    ensures Partial(t, k, 3) == if t.Contains(k) then [t] else []
  {
    assert t in [t];
    PartialExpanded(t, k);
  }

  /** Over triangles with three distinct corners, counting the triangles in
      a's list that contain b counts the triangles that have the edge a-b. */
  lemma {:induction false} CountIsShared(created: seq<Triangle>, a: int, b: int)
    requires NonDegenerate(created)
    ensures Count(Entries(created, a), b) == SharedBy(created, a, b)
  {
    if created != [] {
      var prefix, t := created[..|created| - 1], created[|created| - 1];
      assert NonDegenerate(prefix) && NonDegenerate([t]) by {
        assert forall u :: u in prefix ==> u in created;
        assert t in created;
      }
      CountIsShared(prefix, a, b);
      PartialOfNonDegenerate(t, a);
      CountAppend(Entries(prefix, a), Partial(t, a, 3), b);
      assert [t][..0] == [];
    }
  }

  lemma {:induction false} CountAppend(s: seq<Triangle>, u: seq<Triangle>, b: int)
    ensures Count(s + u, b) == Count(s, b) + Count(u, b)
    decreases |u|
  {
    if u != [] {
      assert (s + u)[..|s + u| - 1] == s + u[..|u| - 1];
      CountAppend(s, u[..|u| - 1], b);
    } else {
      assert s + u == s;
    }
  }

  /** The fan meshFromPoints draws over the vertex indices of its points. */
  function Fan(ids: seq<int>): (fan: seq<Triangle>)
    ensures |fan| == FanSize(|ids|)
  {
    (if |ids| >= 3 then [Triangle(ids[0], ids[1], ids[2])] else []) +
    (if |ids| >= 4 then [Triangle(ids[0], ids[2], ids[3])] else []) +
    (if |ids| >= 5 then [Triangle(ids[0], ids[3], ids[4])] else []) +
    (if |ids| >= 6 then [Triangle(ids[0], ids[4], ids[5])] else [])
  }

  predicate DistinctInts(s: seq<int>)
  {
    forall i, j :: 0 <= i < j < |s| ==> s[i] != s[j]
  }

  /** A fan over distinct vertices has no degenerate triangle. */
  lemma FanOfDistinct(ids: seq<int>)
    requires DistinctInts(ids)
    ensures NonDegenerate(Fan(ids))
  {
  }

  /** The consecutive pairs of an outline: the edges of its wall strip. */
  function OutlineEdges(outline: seq<int>): (edges: seq<(int, int)>)
    ensures |edges| == if |outline| == 0 then 0 else |outline| - 1
    ensures forall i :: 0 <= i < |edges| ==> edges[i] == (outline[i], outline[i + 1])
  {
    if |outline| <= 1 then [] else OutlineEdges(outline[..|outline| - 1]) + [(outline[|outline| - 2], outline[|outline| - 1])]
  }

  function AllEdges(outlines: seq<seq<int>>): seq<(int, int)>
  {
    if outlines == [] then [] else AllEdges(outlines[..|outlines| - 1]) + OutlineEdges(outlines[|outlines| - 1])
  }

  /** Every edge joins two vertices below n. */
  ghost predicate EdgesIn(edges: seq<(int, int)>, n: int)
  {
    forall k :: 0 <= k < |edges| ==> 0 <= edges[k].0 < n && 0 <= edges[k].1 < n
  }

  lemma EdgesInConcat(a: seq<(int, int)>, b: seq<(int, int)>, n: int)
    ensures EdgesIn(a + b, n) <==> EdgesIn(a, n) && EdgesIn(b, n)
  {
    if EdgesIn(a + b, n) {
      forall k | 0 <= k < |a|
        ensures 0 <= a[k].0 < n && 0 <= a[k].1 < n
      {
        assert a[k] == (a + b)[k];
      }
      forall k | 0 <= k < |b|
        ensures 0 <= b[k].0 < n && 0 <= b[k].1 < n
      {
        assert b[k] == (a + b)[|a| + k];
      }
    }
  }

  /** The edges of outlines over vertices below n join vertices below n. */
  lemma {:induction false} AllEdgesIn(outlines: seq<seq<int>>, n: int)
    requires OutlinesIn(outlines, n)
    ensures EdgesIn(AllEdges(outlines), n)
  {
    if outlines != [] {
      var last := outlines[|outlines| - 1];
      AllEdgesIn(outlines[..|outlines| - 1], n);
      assert last in outlines;
      forall i | 0 <= i < |OutlineEdges(last)|
        ensures 0 <= OutlineEdges(last)[i].0 < n && 0 <= OutlineEdges(last)[i].1 < n
      {
        assert last[i] in last && last[i + 1] in last;
      }
    }
  }

  /** The four wall vertices createWallMesh pushes per edge: both ends at
      the top, then both ends lowered by the wall height. */
  function WallPoints(verticies: seq<NodeId>, edges: seq<(int, int)>): (points: seq<WallPoint>)
    requires EdgesIn(edges, |verticies|)
    ensures |points| == 4 * |edges|
  {
    if edges == [] then []
    else
      var e := edges[|edges| - 1];
      WallPoints(verticies, edges[..|edges| - 1]) +
      [Top(verticies[e.0]), Top(verticies[e.1]), Bottom(verticies[e.0]), Bottom(verticies[e.1])]
  }

  /** One more edge adds its four wall vertices to those of the edges
      before it. */
  lemma WallPointsAppend(verticies: seq<NodeId>, edges: seq<(int, int)>, e: (int, int))
    requires EdgesIn(edges, |verticies|)
    requires 0 <= e.0 < |verticies| && 0 <= e.1 < |verticies|
    ensures EdgesIn(edges + [e], |verticies|)
    ensures WallPoints(verticies, edges + [e]) ==
      WallPoints(verticies, edges) + [Top(verticies[e.0]), Top(verticies[e.1]), Bottom(verticies[e.0]), Bottom(verticies[e.1])]
  {
    assert EdgesIn([e], |verticies|);
    EdgesInConcat(edges, [e], |verticies|);
    assert (edges + [e])[..|edges|] == edges;
  }

  lemma TakeOneMore<T>(prefix: seq<T>, s: seq<T>, i: nat)
    requires i < |s|
    ensures prefix + s[..i + 1] == (prefix + s[..i]) + [s[i]]
  {
    assert s[..i + 1] == s[..i] + [s[i]];
  }

  /** The six indices createWallMesh pushes for the quad starting at
      wall vertex startIndex. */
  function QuadIndices(startIndex: int): seq<int>
  {
    [startIndex + 0, startIndex + 2, startIndex + 3, startIndex + 3, startIndex + 1, startIndex + 0]
  }

  /** The wall index buffer for n quads. */
  function WallIndices(n: nat): (indices: seq<int>)
    ensures |indices| == 6 * n
  {
    if n == 0 then [] else WallIndices(n - 1) + QuadIndices(4 * (n - 1))
  }

  lemma WallIndicesStep(n: nat, startIndex: int)
    requires startIndex == 4 * n
    ensures WallIndices(n + 1) == WallIndices(n) +
      [startIndex + 0, startIndex + 2, startIndex + 3, startIndex + 3, startIndex + 1, startIndex + 0]
  {
  }

  /** Quad q of the wall buffer uses exactly wall vertices 4q .. 4q + 3, so
      every index lies below the 4n wall vertices pushed. */
  lemma {:induction false} WallIndicesInRange(n: nat)
    ensures forall k :: 0 <= k < 6 * n ==> 4 * (k / 6) <= WallIndices(n)[k] < 4 * (k / 6) + 4
    ensures forall k :: 0 <= k < 6 * n ==> 0 <= WallIndices(n)[k] < 4 * n
  {
    if n > 0 {
      WallIndicesInRange(n - 1);
      var w := WallIndices(n);
      forall k | 0 <= k < 6 * n
        ensures 4 * (k / 6) <= w[k] < 4 * (k / 6) + 4
      {
        if k < 6 * (n - 1) {
          assert w[k] == WallIndices(n - 1)[k];
        } else {
          assert k / 6 == n - 1;
          assert w[k] == QuadIndices(4 * (n - 1))[k - 6 * (n - 1)];
        }
      }
    }
  }

  /** The vertex indices of the points, once each point has one. */
  function IndicesOf(points: seq<NodeId>, vertexIndex: map<NodeId, int>): (ids: seq<int>)
    requires forall p :: p in points ==> p in vertexIndex
    ensures |ids| == |points| && forall i :: 0 <= i < |points| ==> ids[i] == vertexIndex[points[i]]
  {
    if points == [] then [] else IndicesOf(points[..|points| - 1], vertexIndex) + [vertexIndex[points[|points| - 1]]]
  }

  predicate TriangleIn(t: Triangle, n: int)
  {
    0 <= t.vertexIndexA < n && 0 <= t.vertexIndexB < n && 0 <= t.vertexIndexC < n
  }

  /** Every index a node holds names a vertex pushed for that node. */
  ghost predicate NodesNumbered(vertexIndex: map<NodeId, int>, verticies: seq<NodeId>)
  {
    forall n :: n in vertexIndex ==> 0 <= vertexIndex[n] < |verticies| && verticies[vertexIndex[n]] == n
  }

  ghost predicate TrianglesIn(created: seq<Triangle>, n: int)
  {
    forall t :: t in created ==> TriangleIn(t, n)
  }

  ghost predicate OutlinesIn(outlines: seq<seq<int>>, n: int)
  {
    forall o, v :: o in outlines && v in o ==> 0 <= v < n
  }

  lemma OutlinesInAppend(outlines: seq<seq<int>>, o: seq<int>, n: int)
    requires OutlinesIn(outlines, n) && forall v :: v in o ==> 0 <= v < n
    ensures OutlinesIn(outlines + [o], n)
  {
  }

  lemma TrianglesInAppend(created: seq<Triangle>, t: Triangle, n: int)
    requires TrianglesIn(created, n) && TriangleIn(t, n)
    ensures TrianglesIn(created + [t], n)
  {
  }

  /** isOutlineEdge: exactly one triangle in vertexA's list has vertexB. */
  ghost predicate OutlineEdge(dictionary: map<int, seq<Triangle>>, vertexA: int, vertexB: int)
  {
    vertexA in dictionary && Count(dictionary[vertexA], vertexB) == 1
  }

  /** No corner of a triangle in v's list is another, unchecked vertex
      that makes an outline edge with v: getConnectedOutlineVertex(v) has
      nothing to return. */
  ghost predicate NoCandidate(dictionary: map<int, seq<Triangle>>, v: int, checked: set<int>)
  {
    v in dictionary ==>
      forall i, j :: 0 <= i < |dictionary[v]| && 0 <= j < 3 ==>
        var w := dictionary[v][i].Verticies()[j];
        w == v || w in checked || !OutlineEdge(dictionary, v, w)
  }

  /** w, a corner of a triangle in v's list, is what getConnectedOutlineVertex(v)
      may return: another vertex, unchecked, that makes an outline edge with v. */
  ghost predicate Candidate(dictionary: map<int, seq<Triangle>>, v: int, checked: set<int>, w: int)
  {
    w != v && w !in checked && OutlineEdge(dictionary, v, w)
  }

  /** w is corner j of triangle i in v's list. */
  ghost predicate CornerIs(dictionary: map<int, seq<Triangle>>, v: int, i: int, j: int, w: int)
  {
    v in dictionary && 0 <= i < |dictionary[v]| && 0 <= j < 3 && dictionary[v][i].Verticies()[j] == w
  }

  /** No corner before corner j of triangle i, in v's list, is a candidate. */
  ghost predicate NoneBefore(dictionary: map<int, seq<Triangle>>, v: int, checked: set<int>, i: int, j: int)
    requires v in dictionary
  {
    forall i', j' :: 0 <= i' < |dictionary[v]| && 0 <= j' < 3 && (i' < i || (i' == i && j' < j)) ==>
      !Candidate(dictionary, v, checked, dictionary[v][i'].Verticies()[j'])
  }

  /** w is the first candidate met scanning v's triangles in order, and the
      corners of each triangle in order: the vertex getConnectedOutlineVertex(v)
      returns. */
  ghost predicate FirstCandidate(dictionary: map<int, seq<Triangle>>, v: int, checked: set<int>, w: int)
  {
    v in dictionary && Candidate(dictionary, v, checked, w) &&
    exists i, j :: CornerIs(dictionary, v, i, j, w) && NoneBefore(dictionary, v, checked, i, j)
  }

  /** Whether a vertex counts as checked makes no difference to its own candidates. */
  lemma FirstCandidateSelfChecked(dictionary: map<int, seq<Triangle>>, v: int, checked: set<int>, w: int)
    requires FirstCandidate(dictionary, v, checked, w)
    ensures FirstCandidate(dictionary, v, checked + {v}, w)
  {
    var i, j :| CornerIs(dictionary, v, i, j, w) && NoneBefore(dictionary, v, checked, i, j);
    assert NoneBefore(dictionary, v, checked + {v}, i, j);
  }

  /** getConnectedOutlineVertex has one answer: at most one vertex is the first candidate. */
  lemma FirstCandidateIsUnique(dictionary: map<int, seq<Triangle>>, v: int, checked: set<int>, w1: int, w2: int)
    requires FirstCandidate(dictionary, v, checked, w1) && FirstCandidate(dictionary, v, checked, w2)
    ensures w1 == w2
  {
    var i1, j1 :| CornerIs(dictionary, v, i1, j1, w1) && NoneBefore(dictionary, v, checked, i1, j1);
    var i2, j2 :| CornerIs(dictionary, v, i2, j2, w2) && NoneBefore(dictionary, v, checked, i2, j2);
    assert i1 == i2 && j1 == j2;
  }

  /** Some vertex is the first candidate exactly when there is a candidate at all. */
  lemma FirstCandidateExists(dictionary: map<int, seq<Triangle>>, v: int, checked: set<int>)
    ensures (exists w :: FirstCandidate(dictionary, v, checked, w)) <==> !NoCandidate(dictionary, v, checked)
  {
    if !NoCandidate(dictionary, v, checked) {
      var i, j :| 0 <= i < |dictionary[v]| && 0 <= j < 3 &&
        Candidate(dictionary, v, checked, dictionary[v][i].Verticies()[j]);
      FirstCornerFrom(dictionary, v, checked, i, j);
    }
  }

  /** Below a candidate corner (i, j) lies a first one. */
  lemma {:induction false} FirstCornerFrom(dictionary: map<int, seq<Triangle>>, v: int, checked: set<int>, i: int, j: int)
    requires v in dictionary && 0 <= i < |dictionary[v]| && 0 <= j < 3
    requires Candidate(dictionary, v, checked, dictionary[v][i].Verticies()[j])
    ensures exists w :: FirstCandidate(dictionary, v, checked, w)
    decreases 3 * i + j
  {
    if NoneBefore(dictionary, v, checked, i, j) {
      assert CornerIs(dictionary, v, i, j, dictionary[v][i].Verticies()[j]);
      assert FirstCandidate(dictionary, v, checked, dictionary[v][i].Verticies()[j]);
    } else {
      var i', j' :| 0 <= i' < |dictionary[v]| && 0 <= j' < 3 && (i' < i || (i' == i && j' < j)) &&
        Candidate(dictionary, v, checked, dictionary[v][i'].Verticies()[j']);
      FirstCornerFrom(dictionary, v, checked, i', j');
    }
  }

  /** The vertices of s, as a set. */
  ghost function Elems(s: seq<int>): set<int>
  {
    set v | v in s
  }

  /** path is the walk followOutline makes from path[0], `checked` being the
      vertices checked before it starts: every next vertex is the first
      candidate of the one before, given the vertices checked by then. */
  ghost predicate FollowsFirstCandidates(dictionary: map<int, seq<Triangle>>, path: seq<int>, checked: set<int>)
  {
    forall i, j {:trigger path[i], path[j]} :: 0 <= i && j == i + 1 && j < |path| ==>
      FirstCandidate(dictionary, path[i], checked + Elems(path[..j]), path[j])
  }

  /** Checking v and then walking on from its first candidate is a walk from v. */
  lemma FollowsCons(dictionary: map<int, seq<Triangle>>, v: int, path: seq<int>, checked: set<int>)
    requires |path| > 0 && FirstCandidate(dictionary, v, checked + {v}, path[0])
    requires FollowsFirstCandidates(dictionary, path, checked + {v})
    ensures FollowsFirstCandidates(dictionary, [v] + path, checked)
  {
    var p := [v] + path;
    forall i | 0 <= i < |p| - 1
      ensures FirstCandidate(dictionary, p[i], checked + Elems(p[..i + 1]), p[i + 1])
    {
      if i == 0 {
        assert Elems(p[..1]) == {v};
      } else {
        assert p[..i + 1] == [v] + path[..i];
        assert checked + Elems(p[..i + 1]) == (checked + {v}) + Elems(path[..i]);
      }
    }
  }

  /** The outline traceOutline closes from seed and the walk from its first
      candidate: its vertices are the seed and the walk's, and it follows
      first candidates from the vertices checked before. */
  lemma OutlineFromWalk(dictionary: map<int, seq<Triangle>>, seed: int, path: seq<int>, checked: set<int>)
    requires |path| > 0 && FollowsFirstCandidates(dictionary, path, checked + {seed})
    ensures ([seed] + path + [seed])[..|path| + 1] == [seed] + path
    ensures Elems([seed] + path + [seed]) == {seed} + Elems(path)
    ensures FirstCandidate(dictionary, seed, checked, path[0]) ==>
      FollowsFirstCandidates(dictionary, [seed] + path, checked)
  {
    var o := [seed] + path + [seed];
    assert o[..|o| - 1] == [seed] + path;
    if FirstCandidate(dictionary, seed, checked, path[0]) {
      FirstCandidateSelfChecked(dictionary, seed, checked, path[0]);
      FollowsCons(dictionary, seed, path, checked);
    }
  }

  /** Every vertex of the outlines listed. */
  ghost function VerticesOf(outlines: seq<seq<int>>): set<int>
  {
    if outlines == [] then {}
    else VerticesOf(outlines[..|outlines| - 1]) + Elems(outlines[|outlines| - 1])
  }

  /** calculateMeshOutlines traced outline k from the first candidates of its
      vertices, `checked` and the vertices of the outlines before it being
      checked when it started. */
  ghost predicate TracedInOrder(dictionary: map<int, seq<Triangle>>, outlines: seq<seq<int>>, checked: set<int>, k: int)
    requires 0 <= k < |outlines|
  {
    |outlines[k]| > 0 &&
    FollowsFirstCandidates(dictionary, outlines[k][..|outlines[k]| - 1], checked + VerticesOf(outlines[..k]))
  }

  /** Every outline listed was traced in order: the last from the vertices
      checked after the ones before it, and the ones before likewise. */
  ghost predicate AllTraced(dictionary: map<int, seq<Triangle>>, outlines: seq<seq<int>>, checked: set<int>)
    decreases |outlines|
  {
    outlines != [] ==>
      var last := outlines[|outlines| - 1];
      AllTraced(dictionary, outlines[..|outlines| - 1], checked) && |last| > 0 &&
      FollowsFirstCandidates(dictionary, last[..|last| - 1], checked + VerticesOf(outlines[..|outlines| - 1]))
  }

  /** One more outline traced from the vertices checked after the ones
      before it keeps every outline traced in order. */
  lemma AllTracedAppend(dictionary: map<int, seq<Triangle>>, outlines: seq<seq<int>>, o: seq<int>, checked: set<int>)
    requires AllTraced(dictionary, outlines, checked)
    requires |o| > 0 && FollowsFirstCandidates(dictionary, o[..|o| - 1], checked + VerticesOf(outlines))
    ensures AllTraced(dictionary, outlines + [o], checked)
  {
    AppendParts(outlines, o);
  }

  /** AllTraced says of each outline that it was traced in order. */
  lemma {:induction false} AllTracedMeans(dictionary: map<int, seq<Triangle>>, outlines: seq<seq<int>>, checked: set<int>, k: int)
    requires AllTraced(dictionary, outlines, checked) && 0 <= k < |outlines|
    ensures TracedInOrder(dictionary, outlines, checked, k)
    decreases |outlines|
  {
    var prefix := outlines[..|outlines| - 1];
    if k < |prefix| {
      AllTracedMeans(dictionary, prefix, checked, k);
      TracedPrefix(dictionary, prefix, outlines, checked, k);
    }
  }

  /** The vertices of one more outline. */
  lemma VerticesOfAppend(outlines: seq<seq<int>>, o: seq<int>)
    ensures VerticesOf(outlines + [o]) == VerticesOf(outlines) + Elems(o)
  {
    assert (outlines + [o])[..|outlines|] == outlines;
  }

  /** What calculateMeshOutlines keeps when traceOutline adds the outline
      of seed and path to the outlines from `start` on: each is closed, the
      vertices checked are the ones before and theirs, and each was traced
      in order. */
  lemma OutlineAddedKeeps(dictionary: map<int, seq<Triangle>>, before: seq<seq<int>>, seed: int, path: seq<int>,
                          start: int, checked0: set<int>, checkedBefore: set<int>, checkedAfter: set<int>)
    requires 0 <= start <= |before| && |path| > 0
    requires forall k :: start <= k < |before| ==> ClosedOutline(dictionary, before[k], checkedBefore)
    requires checkedBefore == checked0 + VerticesOf(before[start..])
    requires AllTraced(dictionary, before[start..], checked0)
    requires ClosedOutline(dictionary, [seed] + path + [seed], checkedAfter)
    requires checkedAfter == checkedBefore + Elems([seed] + path + [seed])
    requires checkedBefore !! Elems([seed] + path + [seed]) && checked0 !! VerticesOf(before[start..])
    requires FollowsFirstCandidates(dictionary, [seed] + path, checkedBefore)
    ensures (before + [[seed] + path + [seed]])[..start] == before[..start]
    ensures forall k :: start <= k < |before| + 1 ==>
      ClosedOutline(dictionary, (before + [[seed] + path + [seed]])[k], checkedAfter)
    ensures checkedAfter == checked0 + VerticesOf((before + [[seed] + path + [seed]])[start..])
    ensures checked0 !! VerticesOf((before + [[seed] + path + [seed]])[start..])
    ensures AllTraced(dictionary, (before + [[seed] + path + [seed]])[start..], checked0)
  {
    var o := [seed] + path + [seed];
    var after := before + [o];
    assert after[..start] == before[..start];
    forall k | start <= k < |after|
      ensures ClosedOutline(dictionary, after[k], checkedAfter)
    {
      if k < |before| {
        assert after[k] == before[k];
      }
    }
    OutlineMinusClose(seed, path);
    AppendSlice(before, o, start);
    AllTracedAppend(dictionary, before[start..], o, checked0);
    VerticesOfAppend(before[start..], o);
  }

  /** The outlines after `outlines0` are closed and were traced in order
      from the first candidates, starting from `checked0`; the vertices
      checked are `checked0` and theirs, and none of theirs was in it. */
  ghost predicate TracedFrom(dictionary: map<int, seq<Triangle>>, outlines: seq<seq<int>>, outlines0: seq<seq<int>>,
                             checked: set<int>, checked0: set<int>)
  {
    |outlines| >= |outlines0| && outlines[..|outlines0|] == outlines0 &&
    (forall k :: |outlines0| <= k < |outlines| ==> ClosedOutline(dictionary, outlines[k], checked)) &&
    checked == checked0 + VerticesOf(outlines[|outlines0|..]) &&
    checked0 !! VerticesOf(outlines[|outlines0|..]) &&
    AllTraced(dictionary, outlines[|outlines0|..], checked0)
  }

  /** TracedFrom survives one more outline traced from the first
      candidates over vertices not yet checked. */
  lemma TracedFromAdd(dictionary: map<int, seq<Triangle>>, before: seq<seq<int>>, outlines0: seq<seq<int>>,
                      seed: int, path: seq<int>, checked0: set<int>, checkedBefore: set<int>, checkedAfter: set<int>)
    requires TracedFrom(dictionary, before, outlines0, checkedBefore, checked0) && |path| > 0
    requires ClosedOutline(dictionary, [seed] + path + [seed], checkedAfter)
    requires checkedAfter == checkedBefore + Elems([seed] + path + [seed])
    requires checkedBefore !! Elems([seed] + path + [seed])
    requires FollowsFirstCandidates(dictionary, [seed] + path, checkedBefore)
    ensures TracedFrom(dictionary, before + [[seed] + path + [seed]], outlines0, checkedAfter, checked0)
  {
    OutlineAddedKeeps(dictionary, before, seed, path, |outlines0|, checked0, checkedBefore, checkedAfter);
  }

  lemma OutlineMinusClose(seed: int, path: seq<int>)
    ensures ([seed] + path + [seed])[..|path| + 1] == [seed] + path
  {
  }

  lemma AppendSlice(before: seq<seq<int>>, o: seq<int>, start: int)
    requires 0 <= start <= |before|
    ensures (before + [o])[start..] == before[start..] + [o]
  {
  }

  /** Extending outline idx by x and then by y extends it by x + y. */
  lemma AppendTwice(outlines: seq<seq<int>>, idx: int, x: seq<int>, y: seq<int>)
    requires 0 <= idx < |outlines|
    ensures var once := outlines[idx := outlines[idx] + x];
      once[idx := once[idx] + y] == outlines[idx := outlines[idx] + (x + y)]
  {
    assert outlines[idx] + x + y == outlines[idx] + (x + y);
  }

  /** Replacing the outline just added. */
  lemma SetLast(outlines: seq<seq<int>>, a: seq<int>, c: seq<int>)
    ensures (outlines + [a])[|outlines| := c] == outlines + [c]
  {
  }

  lemma ElemsCons(v: int, rest: seq<int>)
    ensures Elems([v] + rest) == {v} + Elems(rest)
  {
  }

  /** The two parts of a list with one more outline. */
  lemma AppendParts(outlines: seq<seq<int>>, o: seq<int>)
    ensures (outlines + [o])[|outlines|] == o && (outlines + [o])[..|outlines|] == outlines
  {
    assert (outlines + [o])[..|outlines|] == outlines;
  }

  /** Whether outline k was traced in order depends only on the outlines up to k. */
  lemma TracedPrefix(dictionary: map<int, seq<Triangle>>, outlines: seq<seq<int>>, os: seq<seq<int>>, checked: set<int>, k: int)
    requires 0 <= k < |outlines| <= |os| && os[..|outlines|] == outlines
    requires TracedInOrder(dictionary, outlines, checked, k)
    ensures TracedInOrder(dictionary, os, checked, k)
  {
    assert os[k] == outlines[k];
    assert os[..k] == outlines[..k];
  }

  /** Checking more vertices leaves fewer candidates. */
  lemma NoCandidateGrows(dictionary: map<int, seq<Triangle>>, v: int, checked: set<int>, more: set<int>)
    requires NoCandidate(dictionary, v, checked) && checked <= more
    ensures NoCandidate(dictionary, v, more)
  {
  }

  /** An outline as calculateMeshOutlines leaves it: it starts and ends
      with its seed vertex, has at least one vertex between, repeats no
      vertex but the seed, follows outline edges up to the closing one, and
      all its vertices are checked. */
  ghost predicate ClosedOutline(dictionary: map<int, seq<Triangle>>, o: seq<int>, checked: set<int>)
  {
    |o| >= 3 && o[0] == o[|o| - 1] && DistinctInts(o[..|o| - 1]) &&
    (forall i :: 0 <= i < |o| - 2 ==> OutlineEdge(dictionary, o[i], o[i + 1])) &&
    (forall v :: v in o ==> v in checked)
  }

  /** A seed, a path that leaves it along an outline edge, and the seed
      again make a closed outline. */
  lemma ClosedFromPath(dictionary: map<int, seq<Triangle>>, seed: int, path: seq<int>, checked: set<int>)
    requires |path| > 0 && DistinctInts(path) && seed !in path
    requires OutlineEdge(dictionary, seed, path[0])
    requires forall i :: 0 <= i < |path| - 1 ==> OutlineEdge(dictionary, path[i], path[i + 1])
    requires seed in checked && forall v :: v in path ==> v in checked
    ensures ClosedOutline(dictionary, [seed] + path + [seed], checked)
  {
    var outline := [seed] + path + [seed];
    assert outline[..|outline| - 1] == [seed] + path;
    assert forall i :: 1 <= i < |outline| - 2 ==> outline[i] == path[i - 1] && outline[i + 1] == path[i];
  }

  /** Over triangles with three distinct corners, isOutlineEdge holds of
      a-b exactly when a single triangle made so far has both a and b as
      corners: the edge borders the mesh on one side only. */
  lemma OutlineEdgeIsUnshared(dictionary: map<int, seq<Triangle>>, created: seq<Triangle>, a: int, b: int)
    requires Indexed(dictionary, created) && NonDegenerate(created)
    ensures OutlineEdge(dictionary, a, b) <==> SharedBy(created, a, b) == 1
  {
    CountIsShared(created, a, b);
    assert (a in dictionary <==> Entries(created, a) != []) && (a in dictionary ==> dictionary[a] == Entries(created, a));
  }

  /** Distinct nodes get distinct vertex indices. */
  lemma IndicesOfDistinct(points: seq<NodeId>, vertexIndex: map<NodeId, int>, verticies: seq<NodeId>)
    requires NodesNumbered(vertexIndex, verticies) && DistinctNodes(points)
    requires forall p :: p in points ==> p in vertexIndex
    ensures DistinctInts(IndicesOf(points, vertexIndex))
  {
    var ids := IndicesOf(points, vertexIndex);
    forall i, j | 0 <= i < j < |ids|
      ensures ids[i] != ids[j]
    {
      assert points[i] in points && points[j] in points;
      assert verticies[ids[i]] == points[i] && verticies[ids[j]] == points[j];
    }
  }

  /** The triangles a column of squares draws, by the marching-squares table. */
  function ColumnTriangles(column: seq<Square>): nat
  {
    if column == [] then 0 else ColumnTriangles(column[..|column| - 1]) + TriangleCount(column[|column| - 1].configuration)
  }

  /** The triangles a grid of squares draws. */
  function GridTriangles(squares: seq<seq<Square>>): nat
  {
    if squares == [] then 0 else GridTriangles(squares[..|squares| - 1]) + ColumnTriangles(squares[|squares| - 1])
  }

  lemma ColumnStep(column: seq<Square>, y: nat)
    requires y < |column|
    ensures ColumnTriangles(column[..y + 1]) == ColumnTriangles(column[..y]) + TriangleCount(column[y].configuration)
  {
    assert column[..y + 1][..y] == column[..y];
  }

  lemma GridStep(squares: seq<seq<Square>>, x: nat)
    requires x < |squares|
    ensures GridTriangles(squares[..x + 1]) == GridTriangles(squares[..x]) + ColumnTriangles(squares[x])
  {
    assert squares[..x + 1][..x] == squares[..x];
  }

  /** Every square's polygon has distinct points. */
  ghost predicate SquaresDistinct(squares: seq<seq<Square>>)
  {
    forall x, y :: 0 <= x < |squares| && 0 <= y < |squares[x]| ==> DistinctNodes(PointsFor(squares[x][y]))
  }

  /** The squares of the square grid built over map m: square (x, y) has
      its corners at control nodes (x, y) to (x + 1, y + 1), each active
      where the map holds a wall. */
  ghost predicate SquaresOf(m: Grid, squares: seq<seq<Square>>)
    requires IsGrid(m)
  {
    |squares| == |m| - 1 &&
    (forall x :: 0 <= x < |m| - 1 ==> |squares[x]| == if Height(m) == 0 then 0 else Height(m) - 1) &&
    (forall x, y {:trigger squares[x][y]} :: 0 <= x < |m| - 1 && 0 <= y < Height(m) - 1 ==>
      squares[x][y] == SquareAt(x, y, m[x][y + 1] == 1, m[x + 1][y + 1] == 1, m[x + 1][y] == 1, m[x][y] == 1))
  }

  /** calculateMeshOutlines has run from no outlines: every outline is
      closed, no unchecked vertex has a candidate left, the vertices checked
      are those of the outlines, and each outline was traced in order from
      the first candidates, the vertices checked before it began being
      the ones checked that no outline holds. */
  ghost predicate OutlinesTraced(dictionary: map<int, seq<Triangle>>, outlines: seq<seq<int>>, checked: set<int>, vertexCount: int)
  {
    (forall k :: 0 <= k < |outlines| ==> ClosedOutline(dictionary, outlines[k], checked)) &&
    (forall v :: 0 <= v < vertexCount && v !in checked ==> NoCandidate(dictionary, v, checked)) &&
    VerticesOf(outlines) <= checked && AllTraced(dictionary, outlines, checked - VerticesOf(outlines))
  }

  /** The wall buffers createWallMesh builds from the outlines. */
  ghost predicate WallsOf(verticies: seq<NodeId>, outlines: seq<seq<int>>, wallVerticies: seq<WallPoint>, wallTriangles: seq<int>)
  {
    EdgesIn(AllEdges(outlines), |verticies|) &&
    wallVerticies == WallPoints(verticies, AllEdges(outlines)) &&
    wallTriangles == WallIndices(|AllEdges(outlines)|)
  }

  class MeshGenerator {
    const wallHeight: int
    /** Vertex positions, each the node it was pushed for. */
    var verticies: seq<NodeId>
    var triangles: seq<int>
    var triangleDictionary: map<int, seq<Triangle>>
    var outlines: seq<seq<int>>
    /** The keys set to true in checkedVerticies. */
    var checkedVerticies: set<int>
    /** node.vertexIndex of the nodes of the current square grid; a node
        that is not a key still holds -1. */
    var vertexIndex: map<NodeId, int>
    var wallVerticies: seq<WallPoint>
    var wallTriangles: seq<int>
    var squareGrid: SquareGrid
    /** The triangles made since the dictionary was last cleared. */
    ghost var created: seq<Triangle>

    /** Every assigned index names a vertex pushed for that node, every
        index in the index buffer, a triangle or an outline names a vertex,
        and the dictionary indexes the triangles made since it was cleared. */
    ghost predicate Valid()
      reads this
    {
      NodesNumbered(vertexIndex, verticies) &&
      (forall i :: 0 <= i < |triangles| ==> 0 <= triangles[i] < |verticies|) &&
      TrianglesIn(created, |verticies|) &&
      Indexed(triangleDictionary, created) &&
      OutlinesIn(outlines, |verticies|)
    }

    constructor (height: int)
      ensures Valid() && wallHeight == height
      ensures verticies == [] && triangles == [] && triangleDictionary == map[] && outlines == [] && checkedVerticies == {}
      ensures vertexIndex == map[] && wallVerticies == [] && wallTriangles == []
    {
      wallHeight := height;
      verticies := [];
      triangles := [];
      triangleDictionary := map[];
      outlines := [];
      checkedVerticies := {};
      vertexIndex := map[];
      wallVerticies := [];
      wallTriangles := [];
      squareGrid := SquareGrid([], []);
      created := [];
    }

    /** assignVerticies: every point gets an index, an index once given
        never changes, and a position is pushed on every call, including
        for points that already had an index. */
    method AssignVerticies(points: seq<NodeId>)
      requires Valid()
      modifies this`verticies, this`vertexIndex
      ensures Valid()
      ensures verticies == old(verticies) + points
      ensures forall p :: p in points ==> p in vertexIndex
      ensures forall n :: n in old(vertexIndex) ==> n in vertexIndex && vertexIndex[n] == old(vertexIndex)[n]
      ensures forall n :: n in vertexIndex && n !in old(vertexIndex) ==> n in points && vertexIndex[n] >= |old(verticies)|
    {
      for i := 0 to |points|
        invariant Valid()
        invariant verticies == old(verticies) + points[..i]
        invariant forall p :: p in points[..i] ==> p in vertexIndex
        invariant forall n :: n in old(vertexIndex) ==> n in vertexIndex && vertexIndex[n] == old(vertexIndex)[n]
        invariant forall n :: n in vertexIndex && n !in old(vertexIndex) ==> n in points[..i] && vertexIndex[n] >= |old(verticies)|
      {
        if points[i] !in vertexIndex {
          vertexIndex := vertexIndex[points[i] := |verticies|];
        }
        verticies := verticies + [points[i]];
        assert points[..i + 1] == points[..i] + [points[i]];
      }
      assert points[..|points|] == points;
    }

    /** addTriangleToDictionary: appends the triangle to the key's list,
        starting the list when the key is new. */
    method AddTriangleToDictionary(vertexIndexKey: int, triangle: Triangle)
      modifies this`triangleDictionary
      ensures triangleDictionary == AddEntry(old(triangleDictionary), vertexIndexKey, triangle)
      ensures vertexIndexKey in triangleDictionary && triangleDictionary[vertexIndexKey][|triangleDictionary[vertexIndexKey]| - 1] == triangle
    {
      if vertexIndexKey in triangleDictionary {
        triangleDictionary := triangleDictionary[vertexIndexKey := triangleDictionary[vertexIndexKey] + [triangle]];
      } else {
        assert [] + [triangle] == [triangle];
        triangleDictionary := triangleDictionary[vertexIndexKey := [triangle]];
      }
    }

    /** createTriangle: the three indices go to the index buffer and the
        triangle is filed under each of its corners. */
    method CreateTriangle(a: NodeId, b: NodeId, c: NodeId)
      requires Valid() && a in vertexIndex && b in vertexIndex && c in vertexIndex
      modifies this`triangles, this`triangleDictionary, this`created
      ensures Valid()
      ensures triangles == old(triangles) + [vertexIndex[a], vertexIndex[b], vertexIndex[c]]
      ensures created == old(created) + [Triangle(vertexIndex[a], vertexIndex[b], vertexIndex[c])]
    {
      var triangle := Triangle(vertexIndex[a], vertexIndex[b], vertexIndex[c]);
      IndexedAfterAdding(triangleDictionary, created, triangle);
      TrianglesInAppend(created, triangle, |verticies|);
      triangles := triangles + triangle.Verticies();
      AddTriangleToDictionary(triangle.vertexIndexA, triangle);
      AddTriangleToDictionary(triangle.vertexIndexB, triangle);
      AddTriangleToDictionary(triangle.vertexIndexC, triangle);
      created := created + [triangle];
    }

    /** meshFromPoints: numbers the points, then draws the fan from the
        first point over the rest. */
    method MeshFromPoints(points: seq<NodeId>)
      requires Valid()
      modifies this`verticies, this`vertexIndex, this`triangles, this`triangleDictionary, this`created
      ensures Valid()
      ensures verticies == old(verticies) + points
      ensures forall p :: p in points ==> p in vertexIndex
      ensures forall n :: n in old(vertexIndex) ==> n in vertexIndex && vertexIndex[n] == old(vertexIndex)[n]
      ensures forall n :: n in vertexIndex && n !in old(vertexIndex) ==> n in points && vertexIndex[n] >= |old(verticies)|
      ensures created == old(created) + Fan(IndicesOf(points, vertexIndex))
      ensures |triangles| == |old(triangles)| + 3 * FanSize(|points|)
    {
      AssignVerticies(points);
      DrawFan(points);
    }

    /** The createTriangle calls of meshFromPoints, once every point has an
        index. */
    method DrawFan(points: seq<NodeId>)
      requires Valid() && forall p :: p in points ==> p in vertexIndex
      modifies this`triangles, this`triangleDictionary, this`created
      ensures Valid()
      ensures created == old(created) + Fan(IndicesOf(points, vertexIndex))
      ensures |triangles| == |old(triangles)| + 3 * FanSize(|points|)
    {
      ghost var ids := IndicesOf(points, vertexIndex);
      ghost var fan: seq<Triangle> := [];
      if |points| >= 3 {
        CreateTriangle(points[0], points[1], points[2]);
        fan := fan + [Triangle(ids[0], ids[1], ids[2])];
      }
      assert created == old(created) + fan && |triangles| == |old(triangles)| + 3 * |fan|;
      if |points| >= 4 {
        CreateTriangle(points[0], points[2], points[3]);
        fan := fan + [Triangle(ids[0], ids[2], ids[3])];
      }
      assert created == old(created) + fan && |triangles| == |old(triangles)| + 3 * |fan|;
      if |points| >= 5 {
        CreateTriangle(points[0], points[3], points[4]);
        fan := fan + [Triangle(ids[0], ids[3], ids[4])];
      }
      assert created == old(created) + fan && |triangles| == |old(triangles)| + 3 * |fan|;
      if |points| >= 6 {
        CreateTriangle(points[0], points[4], points[5]);
        fan := fan + [Triangle(ids[0], ids[4], ids[5])];
      }
      assert fan == Fan(ids);
    }

    /** triangulateSquare: fills the square's polygon with a fan, and marks
        the four corners of a full square checked, since no outline can
        pass through them. */
    method TriangulateSquare(square: Square)
      requires Valid()
      modifies this`verticies, this`vertexIndex, this`triangles, this`triangleDictionary, this`created, this`checkedVerticies
      ensures Valid()
      ensures verticies == old(verticies) + PointsFor(square)
      ensures forall p :: p in PointsFor(square) ==> p in vertexIndex
      ensures forall n :: n in old(vertexIndex) ==> n in vertexIndex && vertexIndex[n] == old(vertexIndex)[n]
      ensures forall n :: n in vertexIndex && n !in old(vertexIndex) ==> n in PointsFor(square)
      ensures created == old(created) + Fan(IndicesOf(PointsFor(square), vertexIndex))
      ensures |triangles| == |old(triangles)| + 3 * TriangleCount(square.configuration)
      ensures checkedVerticies == old(checkedVerticies) +
        if square.configuration == 15 then
          {vertexIndex[square.topLeft.node], vertexIndex[square.topRight.node],
           vertexIndex[square.bottomRight.node], vertexIndex[square.bottomLeft.node]}
        else {}
    {
      var points := PointsFor(square);
      FanSizeMatchesTable(square);
      if square.configuration == 15 {
        FullSquarePoints(square);
      }
      MeshFromPoints(points);
      if square.configuration == 15 {
        assert points[0] in points && points[1] in points && points[2] in points && points[3] in points;
        MarkCorners(square);
      }
    }

    /** The four checkedVerticies entries a full square sets to true. */
    method MarkCorners(square: Square)
      requires square.topLeft.node in vertexIndex && square.topRight.node in vertexIndex
      requires square.bottomRight.node in vertexIndex && square.bottomLeft.node in vertexIndex
      modifies this`checkedVerticies
      ensures checkedVerticies == old(checkedVerticies) +
        {vertexIndex[square.topLeft.node], vertexIndex[square.topRight.node],
         vertexIndex[square.bottomRight.node], vertexIndex[square.bottomLeft.node]}
    {
      checkedVerticies := checkedVerticies + {vertexIndex[square.topLeft.node]};
      checkedVerticies := checkedVerticies + {vertexIndex[square.topRight.node]};
      checkedVerticies := checkedVerticies + {vertexIndex[square.bottomRight.node]};
      checkedVerticies := checkedVerticies + {vertexIndex[square.bottomLeft.node]};
    }

    /** isOutlineEdge: counts the triangles in vertexA's list that contain
        vertexB, stopping once the count passes 1. */
    method IsOutlineEdge(vertexA: int, vertexB: int) returns (isOutline: bool)
      requires vertexA in triangleDictionary
      ensures isOutline <==> OutlineEdge(triangleDictionary, vertexA, vertexB)
    {
      var trianglesContainingVertexA := triangleDictionary[vertexA];
      var sharedTriangleCount := 0;
      var i := 0;
      while i < |trianglesContainingVertexA| && sharedTriangleCount <= 1
        invariant 0 <= i <= |trianglesContainingVertexA|
        invariant sharedTriangleCount == Count(trianglesContainingVertexA[..i], vertexB)
      {
        assert trianglesContainingVertexA[..i + 1][..i] == trianglesContainingVertexA[..i];
        if trianglesContainingVertexA[i].Contains(vertexB) {
          sharedTriangleCount := sharedTriangleCount + 1;
        }
        i := i + 1;
      }
      CountGrows(trianglesContainingVertexA, vertexB, i);
      if i == |trianglesContainingVertexA| {
        assert trianglesContainingVertexA[..i] == trianglesContainingVertexA;
      }
      isOutline := sharedTriangleCount == 1;
    }

    /** getConnectedOutlineVertex: the first corner, in list order, of a
        triangle in vertexIndex's list that is another unchecked vertex and
        makes an outline edge with it; -1 when there is none, which includes
        a vertex with no triangles. */
    method GetConnectedOutlineVertex(vertexIndex: int) returns (next: int)
      requires Valid()
      ensures next == -1 <==> NoCandidate(triangleDictionary, vertexIndex, checkedVerticies)
      ensures next != -1 ==>
        next != vertexIndex && next !in checkedVerticies && 0 <= next < |verticies| &&
        OutlineEdge(triangleDictionary, vertexIndex, next)
      ensures next != -1 ==> FirstCandidate(triangleDictionary, vertexIndex, checkedVerticies, next)
    {
      if vertexIndex !in triangleDictionary {
        return -1;
      }
      var trianglesContainingVertex := triangleDictionary[vertexIndex];
      EntriesAreCreated(created, vertexIndex);
      for i := 0 to |trianglesContainingVertex|
        invariant NoneBefore(triangleDictionary, vertexIndex, checkedVerticies, i, 0)
      {
        var triangle := trianglesContainingVertex[i];
        assert triangle in created;
        for j := 0 to 3
          invariant NoneBefore(triangleDictionary, vertexIndex, checkedVerticies, i, j)
        {
          var vertexB := triangle.Verticies()[j];
          if vertexB != vertexIndex && vertexB !in checkedVerticies {
            var isOutline := IsOutlineEdge(vertexIndex, vertexB);
            if isOutline {
              assert TriangleIn(triangle, |verticies|);
              assert CornerIs(triangleDictionary, vertexIndex, i, j, vertexB);
              return vertexB;
            }
          }
        }
      }
      return -1;
    }

    /** The vertices not yet checked. */
    ghost function Unchecked(): set<int>
      reads this
    {
      set v | 0 <= v < |verticies| && v !in checkedVerticies
    }

    /** The first two steps of followOutline: append vertexIndex to the
        outline and mark it checked. */
    method CheckVertex(vertexIndex: int, outlineIndex: int)
      requires Valid() && 0 <= outlineIndex < |outlines|
      requires 0 <= vertexIndex < |verticies| && vertexIndex !in checkedVerticies
      modifies this`outlines, this`checkedVerticies
      ensures Valid()
      ensures outlines == old(outlines)[outlineIndex := old(outlines)[outlineIndex] + [vertexIndex]]
      ensures checkedVerticies == old(checkedVerticies) + {vertexIndex}
      ensures |Unchecked()| < |old(Unchecked())|
    {
      ghost var before := Unchecked();
      outlines := outlines[outlineIndex := outlines[outlineIndex] + [vertexIndex]];
      checkedVerticies := checkedVerticies + {vertexIndex};
      assert Unchecked() == before - {vertexIndex};
    }

    /** followOutline: appends vertexIndex to the outline, checks it, and
        carries on from the vertex getConnectedOutlineVertex finds. The
        vertices it appends (`path`) were unchecked, are distinct, and
        follow outline edges; the last one has no candidate left. */
    method FollowOutline(vertexIndex: int, outlineIndex: int) returns (ghost path: seq<int>)
      requires Valid() && 0 <= outlineIndex < |outlines|
      requires 0 <= vertexIndex < |verticies| && vertexIndex !in checkedVerticies
      modifies this`outlines, this`checkedVerticies
      decreases |Unchecked()|
      ensures Valid()
      ensures outlines == old(outlines)[outlineIndex := old(outlines)[outlineIndex] + path]
      ensures |path| > 0 && path[0] == vertexIndex && DistinctInts(path)
      ensures forall v :: v in path ==> v !in old(checkedVerticies) && 0 <= v < |verticies|
      ensures checkedVerticies == old(checkedVerticies) + Elems(path)
      ensures forall i :: 0 <= i < |path| - 1 ==> OutlineEdge(triangleDictionary, path[i], path[i + 1])
      ensures NoCandidate(triangleDictionary, path[|path| - 1], checkedVerticies)
      ensures FollowsFirstCandidates(triangleDictionary, path, old(checkedVerticies))
    {
      CheckVertex(vertexIndex, outlineIndex);
      var nextVertexIndex := GetConnectedOutlineVertex(vertexIndex);
      if nextVertexIndex != -1 {
        var rest := FollowOutline(nextVertexIndex, outlineIndex);
        path := [vertexIndex] + rest;
        FollowsCons(triangleDictionary, vertexIndex, rest, old(checkedVerticies));
        AppendTwice(old(outlines), outlineIndex, [vertexIndex], rest);
        ElemsCons(vertexIndex, rest);
      } else {
        path := [vertexIndex];
      }
    }

    /** The body of calculateMeshOutlines for a seed vertex that has a
        connected outline vertex: check the seed, open a new outline with
        it, follow the outline from `first`, and close it with the seed. */
    method TraceOutline(seed: int, first: int) returns (ghost path: seq<int>)
      requires Valid()
      requires 0 <= seed < |verticies| && seed !in checkedVerticies
      requires 0 <= first < |verticies| && first !in checkedVerticies && first != seed
      requires OutlineEdge(triangleDictionary, seed, first)
      modifies this`outlines, this`checkedVerticies
      ensures Valid()
      ensures |path| > 0 && path[0] == first && outlines == old(outlines) + [[seed] + path + [seed]]
      ensures ClosedOutline(triangleDictionary, [seed] + path + [seed], checkedVerticies)
      ensures checkedVerticies == old(checkedVerticies) + Elems([seed] + path + [seed])
      ensures old(checkedVerticies) !! Elems([seed] + path + [seed])
      ensures FirstCandidate(triangleDictionary, seed, old(checkedVerticies), first) ==>
        FollowsFirstCandidates(triangleDictionary, [seed] + path, old(checkedVerticies))
    {
      checkedVerticies := checkedVerticies + {seed};
      OutlinesInAppend(outlines, [seed], |verticies|);
      outlines := outlines + [[seed]];
      path := FollowOutline(first, |outlines| - 1);
      SetLast(old(outlines), [seed], [seed] + path);
      OutlinesInAppend(old(outlines), [seed] + path + [seed], |verticies|);
      outlines := outlines[|outlines| - 1 := outlines[|outlines| - 1] + [seed]];
      SetLast(old(outlines), [seed] + path, [seed] + path + [seed]);
      ClosedFromPath(triangleDictionary, seed, path, checkedVerticies);
      OutlineFromWalk(triangleDictionary, seed, path, old(checkedVerticies));
    }

    /** calculateMeshOutlines: every vertex, in index order, that is not
        yet checked and has a connected outline vertex seeds a new closed
        outline. Afterwards no unchecked vertex has a candidate left. */
    method CalculateMeshOutlines()
      requires Valid()
      modifies this`outlines, this`checkedVerticies
      ensures Valid()
      ensures |outlines| >= |old(outlines)| && outlines[..|old(outlines)|] == old(outlines)
      ensures forall k :: |old(outlines)| <= k < |outlines| ==>
        ClosedOutline(triangleDictionary, outlines[k], checkedVerticies)
      ensures old(checkedVerticies) <= checkedVerticies
      ensures forall v :: 0 <= v < |verticies| && v !in checkedVerticies ==>
        NoCandidate(triangleDictionary, v, checkedVerticies)
      ensures checkedVerticies == old(checkedVerticies) + VerticesOf(outlines[|old(outlines)|..])
      ensures old(checkedVerticies) !! VerticesOf(outlines[|old(outlines)|..])
      ensures AllTraced(triangleDictionary, outlines[|old(outlines)|..], old(checkedVerticies))
    {
      for vertexIndex := 0 to |verticies|
        invariant Valid() && TracedFrom(triangleDictionary, outlines, old(outlines), checkedVerticies, old(checkedVerticies))
        invariant forall v :: 0 <= v < vertexIndex && v !in checkedVerticies ==>
          NoCandidate(triangleDictionary, v, checkedVerticies)
      {
        VisitVertex(vertexIndex, old(outlines), old(checkedVerticies));
      }
    }

    /** One round of calculateMeshOutlines' loop: an unchecked vertex with
        a connected outline vertex seeds a new outline. */
    method VisitVertex(vertexIndex: int, ghost outlines0: seq<seq<int>>, ghost checked0: set<int>)
      requires Valid() && 0 <= vertexIndex < |verticies|
      requires TracedFrom(triangleDictionary, outlines, outlines0, checkedVerticies, checked0)
      requires forall v :: 0 <= v < vertexIndex && v !in checkedVerticies ==>
        NoCandidate(triangleDictionary, v, checkedVerticies)
      modifies this`outlines, this`checkedVerticies
      ensures Valid()
      ensures TracedFrom(triangleDictionary, outlines, outlines0, checkedVerticies, checked0)
      ensures forall v :: 0 <= v <= vertexIndex && v !in checkedVerticies ==>
        NoCandidate(triangleDictionary, v, checkedVerticies)
    {
      if vertexIndex !in checkedVerticies {
        var newOutlineVertex := GetConnectedOutlineVertex(vertexIndex);
        if newOutlineVertex != -1 {
          ghost var checkedBefore := checkedVerticies;
          AddOutline(vertexIndex, newOutlineVertex, outlines0, checked0);
          forall v | 0 <= v < vertexIndex && v !in checkedVerticies
            ensures NoCandidate(triangleDictionary, v, checkedVerticies)
          {
            NoCandidateGrows(triangleDictionary, v, checkedBefore, checkedVerticies);
          }
        }
      }
    }

    /** The outline that traceOutline closes from `seed` and its first
        candidate `first`, added to those traced since `outlines0`. */
    method AddOutline(seed: int, first: int, ghost outlines0: seq<seq<int>>, ghost checked0: set<int>)
      requires Valid()
      requires TracedFrom(triangleDictionary, outlines, outlines0, checkedVerticies, checked0)
      requires 0 <= seed < |verticies| && seed !in checkedVerticies
      requires 0 <= first < |verticies| && first !in checkedVerticies && first != seed
      requires FirstCandidate(triangleDictionary, seed, checkedVerticies, first)
      modifies this`outlines, this`checkedVerticies
      ensures Valid()
      ensures TracedFrom(triangleDictionary, outlines, outlines0, checkedVerticies, checked0)
      ensures old(checkedVerticies) + {seed} <= checkedVerticies
    {
      ghost var checkedBefore := checkedVerticies;
      ghost var outlinesBefore := outlines;
      ghost var path := TraceOutline(seed, first);
      TracedFromAdd(triangleDictionary, outlinesBefore, outlines0, seed, path,
                    checked0, checkedBefore, checkedVerticies);
    }

    /** One edge of createWallMesh's inner loop: the top and bottom copies of
        both ends, and the quad's two triangles over them, pushed after the
        walls of the edges `sofar`. */
    method PushEdgeWall(e: (int, int), ghost sofar: seq<(int, int)>)
      requires EdgesIn(sofar, |verticies|) && 0 <= e.0 < |verticies| && 0 <= e.1 < |verticies|
      requires wallVerticies == WallPoints(verticies, sofar)
      requires wallTriangles == WallIndices(|sofar|)
      modifies this`wallVerticies, this`wallTriangles
      ensures EdgesIn(sofar + [e], |verticies|)
      ensures wallVerticies == WallPoints(verticies, sofar + [e])
      ensures wallTriangles == WallIndices(|sofar + [e]|)
    {
      var startIndex := |wallVerticies|;
      WallPointsAppend(verticies, sofar, e);
      WallIndicesStep(|sofar|, startIndex);
      wallVerticies := wallVerticies + [Top(verticies[e.0]), Top(verticies[e.1]), Bottom(verticies[e.0]), Bottom(verticies[e.1])];
      wallTriangles := wallTriangles + [startIndex + 0, startIndex + 2, startIndex + 3,
                                        startIndex + 3, startIndex + 1, startIndex + 0];
    }

    /** The inner loop of createWallMesh: the wall quads of one outline,
        pushed after those of the edges `done`. */
    method PushOutlineWall(outline: seq<int>, ghost done: seq<(int, int)>)
      requires EdgesIn(done, |verticies|)
      requires forall k :: 0 <= k < |outline| ==> 0 <= outline[k] < |verticies|
      requires wallVerticies == WallPoints(verticies, done)
      requires wallTriangles == WallIndices(|done|)
      modifies this`wallVerticies, this`wallTriangles
      ensures EdgesIn(done + OutlineEdges(outline), |verticies|)
      ensures wallVerticies == WallPoints(verticies, done + OutlineEdges(outline))
      ensures wallTriangles == WallIndices(|done + OutlineEdges(outline)|)
    {
      ghost var edges := OutlineEdges(outline);
      ghost var sofar := done;
      assert done + edges[..0] == done;
      var i := 0;
      while i < |outline| - 1
        invariant 0 <= i <= |edges| && sofar == done + edges[..i]
        invariant EdgesIn(sofar, |verticies|)
        invariant wallVerticies == WallPoints(verticies, sofar)
        invariant wallTriangles == WallIndices(|sofar|)
      {
        var e := (outline[i], outline[i + 1]);
        PushEdgeWall(e, sofar);
        TakeOneMore(done, edges, i);
        sofar := sofar + [e];
        i := i + 1;
      }
      assert edges[..i] == edges;
    }

    /** createWallMesh: traces the outlines, then for every edge of every
        outline pushes its four wall vertices and the two triangles of its
        quad. Every wall index names a wall vertex. */
    method CreateWallMesh()
      requires Valid()
      modifies this`outlines, this`checkedVerticies, this`wallVerticies, this`wallTriangles
      ensures Valid()
      ensures |outlines| >= |old(outlines)| && outlines[..|old(outlines)|] == old(outlines)
      ensures forall k :: |old(outlines)| <= k < |outlines| ==>
        ClosedOutline(triangleDictionary, outlines[k], checkedVerticies)
      ensures forall v :: 0 <= v < |verticies| && v !in checkedVerticies ==>
        NoCandidate(triangleDictionary, v, checkedVerticies)
      ensures checkedVerticies == old(checkedVerticies) + VerticesOf(outlines[|old(outlines)|..])
      ensures old(checkedVerticies) !! VerticesOf(outlines[|old(outlines)|..])
      ensures AllTraced(triangleDictionary, outlines[|old(outlines)|..], old(checkedVerticies))
      ensures EdgesIn(AllEdges(outlines), |verticies|)
      ensures wallVerticies == WallPoints(verticies, AllEdges(outlines))
      ensures wallTriangles == WallIndices(|AllEdges(outlines)|)
      ensures forall k :: 0 <= k < |wallTriangles| ==> 0 <= wallTriangles[k] < |wallVerticies|
    {
      CalculateMeshOutlines();
      PushWalls();
    }

    /** createWallMesh as generateMesh calls it: with no outlines yet. */
    method FreshWallMesh()
      requires Valid() && outlines == []
      modifies this`outlines, this`checkedVerticies, this`wallVerticies, this`wallTriangles
      ensures Valid()
      ensures OutlinesTraced(triangleDictionary, outlines, checkedVerticies, |verticies|)
      ensures WallsOf(verticies, outlines, wallVerticies, wallTriangles)
    {
      CreateWallMesh();
      assert outlines[0..] == outlines;
    }

    /** The wall loop of createWallMesh, over the outlines as traced. */
    method PushWalls()
      requires OutlinesIn(outlines, |verticies|)
      modifies this`wallVerticies, this`wallTriangles
      ensures EdgesIn(AllEdges(outlines), |verticies|)
      ensures wallVerticies == WallPoints(verticies, AllEdges(outlines))
      ensures wallTriangles == WallIndices(|AllEdges(outlines)|)
      ensures forall k :: 0 <= k < |wallTriangles| ==> 0 <= wallTriangles[k] < |wallVerticies|
    {
      wallVerticies := [];
      wallTriangles := [];
      for o := 0 to |outlines|
        invariant EdgesIn(AllEdges(outlines[..o]), |verticies|)
        invariant wallVerticies == WallPoints(verticies, AllEdges(outlines[..o]))
        invariant wallTriangles == WallIndices(|AllEdges(outlines[..o])|)
      {
        var outline := outlines[o];
        AllEdgesIn(outlines[..o + 1], |verticies|);
        assert outlines[..o + 1][..o] == outlines[..o];
        assert AllEdges(outlines[..o + 1]) == AllEdges(outlines[..o]) + OutlineEdges(outline);
        assert forall k :: 0 <= k < |outline| ==> outline[k] in outline;
        PushOutlineWall(outline, AllEdges(outlines[..o]));
      }
      assert outlines[..|outlines|] == outlines;
      WallIndicesInRange(|AllEdges(outlines)|);
    }

    /** The inner loop of generateMesh: triangulates the squares of column
        x in order, up to the height of the first column. */
    method TriangulateColumn(x: int, height: int)
      requires Valid() && NonDegenerate(created) && SquaresDistinct(squareGrid.squares)
      requires 0 <= x < |squareGrid.squares| && height == |squareGrid.squares[x]|
      modifies this`verticies, this`vertexIndex, this`triangles, this`triangleDictionary, this`created, this`checkedVerticies
      ensures Valid() && NonDegenerate(created)
      ensures |triangles| == |old(triangles)| + 3 * ColumnTriangles(squareGrid.squares[x])
    {
      ghost var column := squareGrid.squares[x];
      for y := 0 to height
        invariant Valid() && NonDegenerate(created)
        invariant |triangles| == |old(triangles)| + 3 * ColumnTriangles(column[..y])
      {
        ghost var createdBefore := created;
        TriangulateSquare(squareGrid.squares[x][y]);
        IndicesOfDistinct(PointsFor(column[y]), vertexIndex, verticies);
        FanOfDistinct(IndicesOf(PointsFor(column[y]), vertexIndex));
        assert forall t :: t in created ==> t in createdBefore || t in Fan(IndicesOf(PointsFor(column[y]), vertexIndex));
        ColumnStep(column, y);
      }
      assert column[..height] == column;
    }

    /** The outer loop of generateMesh: triangulates the columns in order. */
    method TriangulateGrid()
      requires Valid() && NonDegenerate(created) && SquaresDistinct(squareGrid.squares)
      requires forall x :: 0 <= x < |squareGrid.squares| ==> |squareGrid.squares[x]| == |squareGrid.squares[0]|
      modifies this`verticies, this`vertexIndex, this`triangles, this`triangleDictionary, this`created, this`checkedVerticies
      ensures Valid() && NonDegenerate(created)
      ensures |triangles| == |old(triangles)| + 3 * GridTriangles(squareGrid.squares)
    {
      for x := 0 to |squareGrid.squares|
        invariant Valid() && NonDegenerate(created)
        invariant |triangles| == |old(triangles)| + 3 * GridTriangles(squareGrid.squares[..x])
      {
        TriangulateColumn(x, |squareGrid.squares[0]|);
        GridStep(squareGrid.squares, x);
      }
      assert squareGrid.squares[..|squareGrid.squares|] == squareGrid.squares;
    }

    /** The first steps of generateMesh: clear the dictionary, the outlines
        and the checked vertices, and build a fresh square grid, whose nodes
        have no vertex index yet. */
    method StartMesh(m: Grid)
      requires Valid() && IsGrid(m) && |m| > 0
      modifies this`vertexIndex, this`triangleDictionary, this`created, this`checkedVerticies, this`outlines, this`squareGrid
      ensures Valid() && created == [] && outlines == [] && checkedVerticies == {}
      ensures SquaresOf(m, squareGrid.squares) && SquaresDistinct(squareGrid.squares)
      ensures forall x :: 0 <= x < |squareGrid.squares| ==> |squareGrid.squares[x]| == |squareGrid.squares[0]|
    {
      triangleDictionary := map[];
      outlines := [];
      checkedVerticies := {};
      vertexIndex := map[];
      created := [];
      squareGrid := BuildSquareGrid(m);
      forall x, y | 0 <= x < |squareGrid.squares| && 0 <= y < |squareGrid.squares[x]|
        ensures DistinctNodes(PointsFor(squareGrid.squares[x][y]))
      {
        PointsAreDistinct(x, y, m[x][y + 1] == 1, m[x + 1][y + 1] == 1, m[x + 1][y] == 1, m[x][y] == 1);
      }
    }

    /** generateMesh: clears the dictionary, the outlines and the checked
        vertices, builds a fresh square grid (whose nodes have no vertex
        index yet), triangulates every square column by column, and, unless
        the mesh is flat, builds the walls. The vertex and index buffers are
        not cleared. Every outline edge is then an edge of exactly one
        triangle drawn (OutlineEdgeIsUnshared). */
    method GenerateMesh(m: Grid, is2d: bool)
      requires Valid() && IsGrid(m) && |m| > 0
      modifies this`verticies, this`vertexIndex, this`triangles, this`triangleDictionary, this`created,
        this`checkedVerticies, this`outlines, this`squareGrid, this`wallVerticies, this`wallTriangles
      ensures Valid() && NonDegenerate(created)
      ensures SquaresOf(m, squareGrid.squares)
      ensures |triangles| == |old(triangles)| + 3 * GridTriangles(squareGrid.squares)
      ensures is2d ==> outlines == [] && wallVerticies == old(wallVerticies) && wallTriangles == old(wallTriangles)
      ensures !is2d ==> OutlinesTraced(triangleDictionary, outlines, checkedVerticies, |verticies|)
      ensures !is2d ==> WallsOf(verticies, outlines, wallVerticies, wallTriangles)
    {
      StartMesh(m);
      TriangulateGrid();
      if !is2d {
        FreshWallMesh();
      }
    }
  }
}
