// Bookkeeping of the table-based clip filter: chunked, growable lists of new
// points, centroid points and output shapes; the edge hash table that gives
// each clipped edge a single new point; and the point-id remapping performed
// when the output unstructured grid is assembled.
module ClipBookkeeping {
  import opened Common

  /** Entries per chunk (pointsPerList / shapesPerList). */
  const EntriesPerList: int := 1024
  /** Initial number of chunk slots (listSize). */
  const InitialListSize: int := 4096

  // ---- chunked lists --------------------------------------------------------

  /** The entries of consecutive chunks, in order. */
  function Flatten<T>(chunks: seq<seq<T>>): seq<T>
  {
    if |chunks| == 0 then [] else Flatten(chunks[..|chunks| - 1]) + chunks[|chunks| - 1]
  }

  /** n full chunks hold n * EntriesPerList entries. */
  lemma {:induction false} FlattenFullLength<T>(chunks: seq<seq<T>>, n: nat)
    requires n <= |chunks|
    requires forall j :: 0 <= j < n ==> |chunks[j]| == EntriesPerList
    ensures |Flatten(chunks[..n])| == n * EntriesPerList
  {
    if n > 0 {
      assert chunks[..n][..n - 1] == chunks[..n - 1];
      FlattenFullLength(chunks, n - 1);
    }
  }

  /** When the chunks before j are full, chunk j starts at j * EntriesPerList. */
  lemma {:induction false} FlattenChunkAt<T>(chunks: seq<seq<T>>, j: nat)
    requires j < |chunks|
    requires forall i :: 0 <= i < j ==> |chunks[i]| == EntriesPerList
    ensures j * EntriesPerList + |chunks[j]| <= |Flatten(chunks)|
    ensures Flatten(chunks)[j * EntriesPerList .. j * EntriesPerList + |chunks[j]|] == chunks[j]
    decreases |chunks|
  {
    var n := |chunks|;
    var front := chunks[..n - 1];
    if j == n - 1 {
      FlattenFullLength(chunks, j);
    } else {
      assert forall i :: 0 <= i < j ==> front[i] == chunks[i];
      FlattenChunkAt(front, j);
      assert Flatten(chunks) == Flatten(front) + chunks[n - 1];
    }
  }

  lemma FlattenAppendToLast<T>(chunks: seq<seq<T>>, e: T)
    requires |chunks| > 0
    ensures Flatten(chunks[|chunks| - 1 := chunks[|chunks| - 1] + [e]]) == Flatten(chunks) + [e]
  {
    var n := |chunks|;
    var c := chunks[n - 1 := chunks[n - 1] + [e]];
    assert c[..n - 1] == chunks[..n - 1];
  }

  lemma FlattenAppendEmpty<T>(chunks: seq<seq<T>>)
    ensures Flatten(chunks + [[]]) == Flatten(chunks)
  {
    assert (chunks + [[]])[..|chunks|] == chunks;
  }

  /**
   * A growable list made of fixed-size chunks.  The point list, the centroid
   * point list and every shape list of the clip filter share this layout:
   * chunk slots `listSize`, the index of the chunk being filled `currentList`
   * and the number of entries already in it `currentPoint`.  `chunks[j]` holds
   * the filled entries of chunk j.
   */
  class ChunkedList<T> {
    var listSize: int
    var currentList: int
    var currentPoint: int
    var chunks: seq<seq<T>>

    ghost predicate Valid()
      reads this
    {
      InitialListSize <= listSize && 0 <= currentList < listSize
      && |chunks| == currentList + 1
      && (forall j :: 0 <= j < currentList ==> |chunks[j]| == EntriesPerList)
      && 0 <= currentPoint <= EntriesPerList && |chunks[currentList]| == currentPoint
    }

    /** All entries, in the order they were added. */
    function Contents(): seq<T>
      reads this
    {
      Flatten(chunks)
    }

    constructor ()
      ensures Valid() && Contents() == []
      ensures listSize == InitialListSize && currentList == 0 && currentPoint == 0
    {
      listSize := InitialListSize;
      currentList := 0;
      currentPoint := 0;
      chunks := [[]];
    }

    function GetNumberOfLists(): (n: int)
      reads this
      requires Valid()
      ensures n == |chunks| && n >= 1
    {
      currentList + 1
    }

    /** Every full chunk counts EntriesPerList, the last one currentPoint. */
    function GetTotalNumberOfPoints(): (n: int)
      reads this
      requires Valid()
      ensures n == |Contents()|
    {
      FlattenFullLength(chunks, currentList);
      assert chunks[..|chunks| - 1] == chunks[..currentList];
      currentList * EntriesPerList + currentPoint
    }

    /**
     * The entries of chunk listId and their count; (0, None) for an id that
     * names no allocated chunk.
     */
    function GetList(listId: int): (r: (int, Option<seq<T>>))
      reads this
      requires Valid()
      ensures listId < 0 || listId > currentList ==> r == (0, None)
      ensures 0 <= listId < currentList ==> r.0 == EntriesPerList
      ensures listId == currentList ==> r.0 == currentPoint
      ensures 0 <= listId <= currentList ==>
        r.1.Some? && |r.1.value| == r.0
        && listId * EntriesPerList + r.0 <= |Contents()|
        && r.1.value == Contents()[listId * EntriesPerList .. listId * EntriesPerList + r.0]
    {
      if listId < 0 || listId > currentList then (0, None)
      else
        FlattenChunkAt(chunks, listId);
        (if listId == currentList then currentPoint else EntriesPerList, Some(chunks[listId]))
    }

    /**
     * Appends e and returns its index.  A full last chunk makes a new chunk;
     * when the chunk slots are used up, their number doubles and every
     * existing chunk is kept.
     */
    method AddPoint(e: T) returns (id: int)
      requires Valid()
      modifies this
      ensures Valid()
      ensures Contents() == old(Contents()) + [e]
      ensures id == |old(Contents())| && id == GetTotalNumberOfPoints() - 1
      ensures listSize == if old(currentPoint) >= EntriesPerList && old(currentList) + 1 >= old(listSize)
                          then 2 * old(listSize) else old(listSize)
      ensures currentList == old(currentList) + (if old(currentPoint) >= EntriesPerList then 1 else 0)
      ensures forall j :: 0 <= j < old(currentList) ==> chunks[j] == old(chunks[j])
    {
      var size, list, point, cs := listSize, currentList, currentPoint, chunks;
      if point >= EntriesPerList {
        if list + 1 >= size {
          size := 2 * size;
        }
        FlattenAppendEmpty(cs);
        cs := cs + [[]];
        list := list + 1;
        point := 0;
      }
      FlattenAppendToLast(cs, e);
      cs := cs[list := cs[list] + [e]];
      listSize, currentList, currentPoint, chunks := size, list, point + 1, cs;
      id := GetTotalNumberOfPoints() - 1;
    }
  }

  // ---- entries ----------------------------------------------------------------

  /** A new point on the edge (pt0, pt1), at fraction percent from pt0. */
  datatype PointEntry = PointEntry(pt0: int, pt1: int, percent: real)

  /** A new point at the centroid of nPts existing points. */
  datatype CentroidEntry = CentroidEntry(nPts: int, ptIds: seq<int>)

  /** One output shape: the input cell it came from and its vertex ids. */
  datatype ShapeRecord = ShapeRecord(cellId: int, verts: seq<int>)

  datatype ShapeKind = Tet | Pyramid | Wedge | Hex | Quad | Tri | Line | Vertex
  {
    /** Number of vertices (GetShapeSize). */
    function Size(): nat
    {
      match this
      case Tet => 4 case Pyramid => 5 case Wedge => 6 case Hex => 8
      case Quad => 4 case Tri => 3 case Line => 2 case Vertex => 1
    }
    /** The VTK cell type number (GetVTKType). */
    function VtkType(): int
    {
      match this
      case Tet => 10 case Pyramid => 14 case Wedge => 13 case Hex => 12
      case Quad => 9 case Tri => 5 case Line => 3 case Vertex => 1
    }
  }

  /** The order of the shape lists when the output is assembled. */
  const ShapeOrder: seq<ShapeKind> := [Tet, Pyramid, Wedge, Hex, Quad, Tri, Line, Vertex]

  // ---- edge hash table ----------------------------------------------------------

  /** The hash of an edge, computed in 32-bit unsigned arithmetic and cast back to int. */
  function GetKey(p1: int, p2: int, nHashes: int): (key: int)
    requires nHashes > 0
    ensures 0 <= key < nHashes
  {
    var rv := CRem(Int32(U32(U32(p1) * 18457 + U32(p2) * 234749)), nHashes);
    if rv < 0 then rv + nHashes else rv
  }

  /** The correction of a negative remainder makes GetKey the Euclidean remainder. */
  lemma GetKeyIsEuclidean(p1: int, p2: int, nHashes: int)
    requires nHashes > 0
    ensures GetKey(p1, p2, nHashes) == Int32(U32(U32(p1) * 18457 + U32(p2) * 234749)) % nHashes
  {
    CRemAdjusted(Int32(U32(U32(p1) * 18457 + U32(p2) * 234749)), nHashes);
  }

  /** The edge with its smaller end first; the fraction is flipped when the ends swap. */
  function Orient(ap1: int, ap2: int, apercent: real): (r: (int, int, real))
    ensures r.0 <= r.1
    ensures (r.0, r.1) == (ap1, ap2) || (r.0, r.1) == (ap2, ap1)
    ensures r.2 == if ap2 < ap1 then 1.0 - apercent else apercent
  {
    if ap2 < ap1 then (ap2, ap1, 1.0 - apercent) else (ap1, ap2, apercent)
  }

  /** Both orientations of an edge name the same stored edge and the same point. */
  lemma OrientSymmetric(a: int, b: int, percent: real)
    requires a != b
    ensures Orient(b, a, 1.0 - percent) == Orient(a, b, percent)
  {
  }

  /** One element of a bucket chain: the edge ends and the point id, as C++ int. */
  datatype HashEntry = HashEntry(id1: int, id2: int, ptId: int)

  /** The point id of the first entry in a chain that matches (i1, i2). */
  function Find(chain: seq<HashEntry>, i1: int, i2: int): (r: Option<int>)
    ensures r.Some? <==> exists j :: 0 <= j < |chain| && chain[j].id1 == i1 && chain[j].id2 == i2
    ensures r.Some? ==> exists j :: 0 <= j < |chain| && chain[j] == HashEntry(i1, i2, r.value)
  {
    if |chain| == 0 then None
    else if chain[0].id1 == i1 && chain[0].id2 == i2 then Some(chain[0].ptId)
    else
      var r := Find(chain[1..], i1, i2);
      assert forall j :: 0 < j < |chain| ==> chain[j] == chain[1..][j - 1];
      r
  }

  /**
   * What the edge hash table keeps true of its buckets h, the point list c it
   * fills and the ghost map po from stored edge to point index.
   */
  ghost predicate TableInv(h: seq<seq<HashEntry>>, c: seq<PointEntry>, po: map<(int, int), int>)
  {
    // every point made by the table lies on an edge stored smaller end first
    (forall i :: 0 <= i < |c| ==> c[i].pt0 <= c[i].pt1)
    // every entry sits in the bucket of its key and names the point of its edge
    && (forall k, j :: 0 <= k < |h| && 0 <= j < |h[k]| ==>
          GetKey(h[k][j].id1, h[k][j].id2, |h|) == k
          && (h[k][j].id1, h[k][j].id2) in po
          && h[k][j].ptId == Int32(po[(h[k][j].id1, h[k][j].id2)]))
    && (forall e :: e in po ==>
          0 <= po[e] < |c| && Int32(c[po[e]].pt0) == e.0 && Int32(c[po[e]].pt1) == e.1)
    // an edge is stored at most once in its chain
    && (forall k, j1, j2 :: 0 <= k < |h| && 0 <= j1 < j2 < |h[k]| ==>
          (h[k][j1].id1, h[k][j1].id2) != (h[k][j2].id1, h[k][j2].id2))
  }

  /** Recording a new edge at the head of its bucket keeps the table invariant. */
  lemma TableInvInsert(h: seq<seq<HashEntry>>, c: seq<PointEntry>, po: map<(int, int), int>,
                       p1: int, p2: int, percent: real)
    requires |h| > 0 && TableInv(h, c, po) && p1 <= p2
    requires Find(h[GetKey(Int32(p1), Int32(p2), |h|)], Int32(p1), Int32(p2)) == None
    ensures var key := GetKey(Int32(p1), Int32(p2), |h|);
            TableInv(h[key := [HashEntry(Int32(p1), Int32(p2), Int32(|c|))] + h[key]],
                     c + [PointEntry(p1, p2, percent)], po[(Int32(p1), Int32(p2)) := |c|])
  {
    var i1, i2 := Int32(p1), Int32(p2);
    var key := GetKey(i1, i2, |h|);
    var h': seq<seq<HashEntry>> := h[key := [HashEntry(i1, i2, Int32(|c|))] + h[key]];
    var c': seq<PointEntry> := c + [PointEntry(p1, p2, percent)];
    var po': map<(int, int), int> := po[(i1, i2) := |c|];
    forall k: int, j: int | 0 <= k < |h'| && 0 <= j < |h'[k]|
      ensures GetKey(h'[k][j].id1, h'[k][j].id2, |h'|) == k
      ensures (h'[k][j].id1, h'[k][j].id2) in po'
      ensures h'[k][j].ptId == Int32(po'[(h'[k][j].id1, h'[k][j].id2)])
    {
      if k == key && j > 0 {
        assert h'[k][j] == h[k][j - 1];
        assert (h[k][j - 1].id1, h[k][j - 1].id2) != (i1, i2);
      }
    }
    forall e: (int, int) | e in po' ensures 0 <= po'[e] < |c'| && Int32(c'[po'[e]].pt0) == e.0 && Int32(c'[po'[e]].pt1) == e.1
    {
      if e != (i1, i2) { assert c'[po[e]] == c[po[e]]; }
    }
    forall k: int, j1: int, j2: int | 0 <= k < |h'| && 0 <= j1 < j2 < |h'[k]|
      ensures (h'[k][j1].id1, h'[k][j1].id2) != (h'[k][j2].id1, h'[k][j2].id2)
    {
      if k == key {
        assert h'[k][j2] == h[k][j2 - 1];
        if j1 > 0 { assert h'[k][j1] == h[k][j1 - 1]; }
      }
    }
  }

  /**
   * Maps each clipped edge to the single new point made for it.  hashes[k] is
   * the chain of bucket k, newest entry first; pointOf records, for every
   * stored edge, the index of its point in the point list.
   */
  class EdgeHashTable {
    const nHashes: int
    const hashes: array<seq<HashEntry>>
    const pointlist: ChunkedList<PointEntry>
    ghost var pointOf: map<(int, int), int>

    ghost predicate Valid()
      reads this, hashes, pointlist
    {
      0 < nHashes == hashes.Length && pointlist.Valid()
      && TableInv(hashes[..], pointlist.Contents(), pointOf)
    }

    constructor (nh: int, p: ChunkedList<PointEntry>)
      requires nh > 0 && p.Valid() && p.Contents() == []
      ensures Valid() && fresh(hashes) && pointlist == p && nHashes == nh
      ensures forall k :: 0 <= k < nh ==> hashes[k] == []
    {
      nHashes := nh;
      pointlist := p;
      hashes := new seq<HashEntry>[nh](_ => []);
      pointOf := map[];
    }

    /**
     * The id of the point on edge (ap1, ap2): the one made by an earlier call
     * for the same edge in either order, or else a new point appended to the
     * point list and recorded at the head of the edge's bucket.
     */
    method AddPoint(ap1: int, ap2: int, apercent: real) returns (id: int)
      requires Valid()
      modifies this, hashes, pointlist
      ensures Valid()
      ensures var (p1, p2, percent) := Orient(ap1, ap2, apercent);
              var key := GetKey(Int32(p1), Int32(p2), nHashes);
              match old(Find(hashes[key], Int32(p1), Int32(p2)))
              case Some(pid) =>
                id == pid && pointlist.Contents() == old(pointlist.Contents())
                && hashes[..] == old(hashes[..])
              case None =>
                id == |old(pointlist.Contents())|
                && pointlist.Contents() == old(pointlist.Contents()) + [PointEntry(p1, p2, percent)]
                && hashes[..] == old(hashes[..])[key := [HashEntry(Int32(p1), Int32(p2), Int32(id))] + old(hashes[key])]
      ensures var (p1, p2, _) := Orient(ap1, ap2, apercent);
              Find(hashes[GetKey(Int32(p1), Int32(p2), nHashes)], Int32(p1), Int32(p2)) == Some(Int32(id))
      ensures |old(pointlist.Contents())| <= |pointlist.Contents()| <= |old(pointlist.Contents())| + 1
    {
      var p1, p2, percent := Orient(ap1, ap2, apercent).0, Orient(ap1, ap2, apercent).1, Orient(ap1, ap2, apercent).2;
      var i1, i2 := Int32(p1), Int32(p2);
      var key := GetKey(i1, i2, nHashes);
      var chain := hashes[key];
      var j := 0;
      while j < |chain|
        invariant 0 <= j <= |chain|
        invariant forall m :: 0 <= m < j ==> !(chain[m].id1 == i1 && chain[m].id2 == i2)
      {
        if chain[j].id1 == i1 && chain[j].id2 == i2 {
          FindFirst(chain, j, i1, i2);
          id := chain[j].ptId;
          assert id == Int32(pointOf[(i1, i2)]);
          return;
        }
        j := j + 1;
      }
      ghost var before := pointlist.Contents();
      ghost var h0 := hashes[..];
      TableInvInsert(h0, before, pointOf, p1, p2, percent);
      id := pointlist.AddPoint(PointEntry(p1, p2, percent));
      pointOf := pointOf[(i1, i2) := id];
      hashes[key] := [HashEntry(i1, i2, Int32(id))] + chain;
      assert hashes[..] == h0[key := [HashEntry(i1, i2, Int32(id))] + chain];
    }
  }

  /** The first match at position j is what Find returns. */
  lemma {:induction false} FindFirst(chain: seq<HashEntry>, j: nat, i1: int, i2: int)
    requires j < |chain| && chain[j].id1 == i1 && chain[j].id2 == i2
    requires forall m :: 0 <= m < j ==> !(chain[m].id1 == i1 && chain[m].id2 == i2)
    ensures Find(chain, i1, i2) == Some(chain[j].ptId)
  {
    if j > 0 {
      FindFirst(chain[1..], j - 1, i1, i2);
    }
  }

  // ---- the clipped volume -------------------------------------------------------

  /** The index of a shape kind in ShapeOrder. */
  function KindIndex(kind: ShapeKind): (i: nat)
    ensures i < |ShapeOrder| && ShapeOrder[i] == kind
  {
    match kind
    case Tet => 0 case Pyramid => 1 case Wedge => 2 case Hex => 3
    case Quad => 4 case Tri => 5 case Line => 6 case Vertex => 7
  }

  /** Every shape of group i has the vertex count of ShapeOrder[i]. */
  ghost predicate WellSized(groups: seq<seq<ShapeRecord>>)
  {
    |groups| <= |ShapeOrder|
    && forall i, k :: 0 <= i < |groups| && 0 <= k < |groups[i]| ==>
         |groups[i][k].verts| == ShapeOrder[i].Size()
  }

  /** One fresh, empty shape list per kind. */
  method NewShapeLists() returns (lists: seq<ChunkedList<ShapeRecord>>)
    ensures |lists| == |ShapeOrder|
    ensures forall i :: 0 <= i < |lists| ==> fresh(lists[i]) && lists[i].Valid() && lists[i].Contents() == []
    ensures forall i, j :: 0 <= i < j < |lists| ==> lists[i] != lists[j]
  {
    lists := [];
    while |lists| < |ShapeOrder|
      invariant |lists| <= |ShapeOrder|
      invariant forall i :: 0 <= i < |lists| ==> fresh(lists[i]) && lists[i].Valid() && lists[i].Contents() == []
      invariant forall i, j :: 0 <= i < j < |lists| ==> lists[i] != lists[j]
    {
      var l := new ChunkedList<ShapeRecord>();
      assert forall i :: 0 <= i < |lists| ==> lists[i] != l;
      ghost var prev := lists;
      lists := lists + [l];
      assert forall i :: 0 <= i < |prev| ==> lists[i] == prev[i];
    }
  }

  /**
   * The output of one clipped volume: numPrevPts input points, the edge
   * points made through the edge hash table, the centroid points and one
   * shape list per kind, in ShapeOrder.
   */
  class VolumeFromVolume {
    const numPrevPts: nat
    const ptList: ChunkedList<PointEntry>
    const edges: EdgeHashTable
    const centroids: ChunkedList<CentroidEntry>
    const shapes: seq<ChunkedList<ShapeRecord>>

    ghost predicate Valid()
      reads this, edges, edges.hashes, ptList, centroids, shapes
    {
      edges.pointlist == ptList && edges.Valid() && centroids.Valid() && ShapesValid()
    }

    /** Eight distinct shape lists, each holding shapes of its own kind. */
    ghost predicate ShapesValid()
      reads this, shapes
    {
      |shapes| == |ShapeOrder|
      && (forall i, j :: 0 <= i < j < |shapes| ==> shapes[i] != shapes[j])
      && (forall i :: 0 <= i < |shapes| ==> shapes[i].Valid())
      && (forall i, k :: 0 <= i < |shapes| && 0 <= k < |shapes[i].Contents()| ==>
            |shapes[i].Contents()[k].verts| == ShapeOrder[i].Size())
    }

    /** The shapes of every list, in ShapeOrder. */
    function ShapeContents(): (g: seq<seq<ShapeRecord>>)
      reads this, shapes
      requires ShapesValid()
      ensures |g| == |shapes| && WellSized(g)
      ensures forall i :: 0 <= i < |shapes| ==> g[i] == shapes[i].Contents()
    {
      seq(|shapes|, i reads shapes requires 0 <= i < |shapes| => shapes[i].Contents())
    }

    constructor (nPts: nat, ptSizeGuess: int)
      requires ptSizeGuess > 0
      ensures Valid() && numPrevPts == nPts
      ensures ptList.Contents() == [] && centroids.Contents() == []
      ensures forall i :: 0 <= i < |shapes| ==> shapes[i].Contents() == []
    {
      numPrevPts := nPts;
      var pl := new ChunkedList<PointEntry>();
      ptList := pl;
      edges := new EdgeHashTable(ptSizeGuess, pl);
      centroids := new ChunkedList<CentroidEntry>();
      var lists := NewShapeLists();
      shapes := lists;
      new;
      assert ShapesValid();
    }

    /**
     * The output id of the point on edge (p1, p2): edge points are numbered
     * after the numPrevPts input points.
     */
    method AddPoint(p1: int, p2: int, percent: real) returns (id: int)
      requires Valid()
      modifies edges, edges.hashes, ptList
      ensures Valid()
      ensures var (q1, q2, _) := Orient(p1, p2, percent);
              Find(edges.hashes[GetKey(Int32(q1), Int32(q2), edges.nHashes)], Int32(q1), Int32(q2))
                == Some(Int32(id - numPrevPts))
      ensures var (q1, q2, q) := Orient(p1, p2, percent);
              var key := GetKey(Int32(q1), Int32(q2), edges.nHashes);
              match old(Find(edges.hashes[key], Int32(q1), Int32(q2)))
              case Some(pid) =>
                id == numPrevPts + pid && ptList.Contents() == old(ptList.Contents())
              case None =>
                id == numPrevPts + |old(ptList.Contents())|
                && ptList.Contents() == old(ptList.Contents()) + [PointEntry(q1, q2, q)]
      ensures |ptList.Contents()| <= |old(ptList.Contents())| + 1
    {
      var e := edges.AddPoint(p1, p2, percent);
      id := numPrevPts + e;
    }

    /**
     * Records a centroid point of the first n ids of p; centroid points are
     * numbered -1, -2, -3, ... so that they never clash with other ids.
     */
    method AddCentroidPoint(n: int, p: seq<int>) returns (id: int)
      requires Valid() && 0 <= n <= 8 && n <= |p|
      modifies centroids
      ensures Valid()
      ensures id < 0 && id == -1 - |old(centroids.Contents())|
      ensures centroids.Contents() == old(centroids.Contents()) + [CentroidEntry(n, p[..n])]
    {
      var c := centroids.AddPoint(CentroidEntry(n, p[..n]));
      id := -1 - c;
    }

    /**
     * AddTet, AddPyramid, AddWedge, AddHex, AddQuad, AddTri, AddLine and
     * AddVertex: appends a shape of the given kind made from input cell
     * cellId to the list of that kind.
     */
    method AddShape(kind: ShapeKind, cellId: int, verts: seq<int>)
      requires Valid() && |verts| == kind.Size()
      modifies shapes[KindIndex(kind)]
      ensures Valid()
      ensures shapes[KindIndex(kind)].Contents() == old(shapes[KindIndex(kind)].Contents()) + [ShapeRecord(cellId, verts)]
      ensures forall i :: 0 <= i < |shapes| && i != KindIndex(kind) ==> shapes[i].Contents() == old(shapes[i].Contents())
    {
      var list := shapes[KindIndex(kind)];
      ghost var before := list.Contents();
      var _ := list.AddPoint(ShapeRecord(cellId, verts));
      assert forall i :: 0 <= i < |shapes| && i != KindIndex(kind) ==> shapes[i] != list;
      assert forall k :: 0 <= k < |before| ==> list.Contents()[k] == before[k];
    }

    /**
     * Assembles the output grid: the used input points are renumbered in
     * order of first use, the edge points follow them and the centroid points
     * come last; every shape becomes one cell whose vertices are remapped
     * accordingly.  When every stored id names an existing point, every
     * connectivity entry is a valid output point id.
     */
    method ConstructDataSet()
      returns (ptLookup: seq<int>, numUsed: int, nOutPts: int, cellTypes: seq<int>, cellSources: seq<int>,
               offsets: seq<int>, connectivity: seq<int>)
      requires Valid()
      ensures var u := FirstUse(AllVerts(ShapeContents()), numPrevPts);
              |ptLookup| == numPrevPts && numUsed == |u|
              && (forall k :: 0 <= k < numUsed ==> ptLookup[u[k]] == k)
              && (forall pt :: 0 <= pt < numPrevPts ==> (ptLookup[pt] == -1 <==> pt !in AllVerts(ShapeContents())))
      ensures nOutPts == numUsed + |ptList.Contents()| + |centroids.Contents()|
      ensures cellTypes == TypesOf(ShapeContents())
      ensures |cellSources| == |CellsOf(ShapeContents())|
      ensures forall c :: 0 <= c < |cellSources| ==> cellSources[c] == CellsOf(ShapeContents())[c].cellId
      ensures offsets == Offsets(Sizes(CellsOf(ShapeContents())))
      ensures connectivity == IdMap(numPrevPts, numUsed, numUsed + |ptList.Contents()|, ptLookup).RemapAll(AllVerts(ShapeContents()))
      ensures (forall id :: id in AllVerts(ShapeContents()) ==> -1 - |centroids.Contents()| < id < numPrevPts + |ptList.Contents()|)
              ==> forall j :: 0 <= j < |connectivity| ==> 0 <= connectivity[j] < nOutPts
    {
      var groups := ShapeContents();
      var ptTotal := ptList.GetTotalNumberOfPoints();
      var centroidTotal := centroids.GetTotalNumberOfPoints();
      ptLookup, numUsed, nOutPts, cellTypes, cellSources, offsets, connectivity :=
        AssembleGrid(numPrevPts, groups, ptTotal, centroidTotal);
      assert IdMap(numPrevPts, numUsed, numUsed + ptTotal, ptLookup) == IdMap(numPrevPts, numUsed, numUsed + |ptList.Contents()|, ptLookup);
    }
  }

  // ---- assembling the output ------------------------------------------------------

  /**
   * The two passes of ConstructDataSet over the shape lists, given the
   * number of edge points and centroid points made.
   */
  method AssembleGrid(numPrevPts: nat, groups: seq<seq<ShapeRecord>>, ptTotal: nat, centroidTotal: nat)
    returns (ptLookup: seq<int>, numUsed: int, nOutPts: int, cellTypes: seq<int>, cellSources: seq<int>,
             offsets: seq<int>, connectivity: seq<int>)
    requires WellSized(groups)
    ensures var u := FirstUse(AllVerts(groups), numPrevPts);
            |ptLookup| == numPrevPts && numUsed == |u|
            && (forall k :: 0 <= k < numUsed ==> ptLookup[u[k]] == k)
            && (forall pt :: 0 <= pt < numPrevPts ==> (ptLookup[pt] == -1 <==> pt !in AllVerts(groups)))
    ensures nOutPts == numUsed + ptTotal + centroidTotal
    ensures cellTypes == TypesOf(groups)
    ensures |cellSources| == |CellsOf(groups)|
    ensures forall c :: 0 <= c < |cellSources| ==> cellSources[c] == CellsOf(groups)[c].cellId
    ensures offsets == Offsets(Sizes(CellsOf(groups)))
    ensures connectivity == IdMap(numPrevPts, numUsed, numUsed + ptTotal, ptLookup).RemapAll(AllVerts(groups))
    ensures (forall id :: id in AllVerts(groups) ==> -1 - centroidTotal < id < numPrevPts + ptTotal)
            ==> forall j :: 0 <= j < |connectivity| ==> 0 <= connectivity[j] < nOutPts
  {
    ptLookup, numUsed := BuildPointLookup(numPrevPts, groups);
    nOutPts := numUsed + ptTotal + centroidTotal;
    var m := IdMap(numPrevPts, numUsed, numUsed + ptTotal, ptLookup);
    cellTypes, cellSources, offsets, connectivity := BuildCells(groups, m);
    RemapInRange(m, AllVerts(groups), ptTotal, centroidTotal);
  }

  /** The vertex ids of a list of shapes, in order. */
  function VertsOf(recs: seq<ShapeRecord>): seq<int>
  {
    if |recs| == 0 then [] else VertsOf(recs[..|recs| - 1]) + recs[|recs| - 1].verts
  }

  /** The vertex ids of all shape lists, in the order the output visits them. */
  function AllVerts(groups: seq<seq<ShapeRecord>>): seq<int>
  {
    if |groups| == 0 then [] else AllVerts(groups[..|groups| - 1]) + VertsOf(groups[|groups| - 1])
  }

  /** All shapes, list after list. */
  function CellsOf(groups: seq<seq<ShapeRecord>>): seq<ShapeRecord>
  {
    if |groups| == 0 then [] else CellsOf(groups[..|groups| - 1]) + groups[|groups| - 1]
  }

  /** The VTK cell type of every output cell, list after list. */
  function TypesOf(groups: seq<seq<ShapeRecord>>): (t: seq<int>)
    requires |groups| <= |ShapeOrder|
    ensures |t| == |CellsOf(groups)|
  {
    if |groups| == 0 then []
    else TypesOf(groups[..|groups| - 1]) + Repeat(ShapeOrder[|groups| - 1].VtkType(), |groups[|groups| - 1]|)
  }

  /** n copies of x. */
  function Repeat(x: int, n: nat): (r: seq<int>)
    ensures |r| == n && forall j :: 0 <= j < n ==> r[j] == x
  {
    if n == 0 then [] else Repeat(x, n - 1) + [x]
  }

  /** The vertex count of every cell. */
  function Sizes(cells: seq<ShapeRecord>): (r: seq<int>)
    ensures |r| == |cells| && forall c :: 0 <= c < |cells| ==> r[c] == |cells[c].verts|
  {
    seq(|cells|, c requires 0 <= c < |cells| => |cells[c].verts|)
  }

  /** connectivitySize: for each list, its shape size times its shape count. */
  function ConnectivitySize(groups: seq<seq<ShapeRecord>>): int
    requires |groups| <= |ShapeOrder|
  {
    if |groups| == 0 then 0
    else ConnectivitySize(groups[..|groups| - 1]) + ShapeOrder[|groups| - 1].Size() * |groups[|groups| - 1]|
  }

  lemma {:induction false} VertsOfLength(recs: seq<ShapeRecord>, size: nat)
    requires forall k :: 0 <= k < |recs| ==> |recs[k].verts| == size
    ensures |VertsOf(recs)| == size * |recs|
  {
    if |recs| > 0 { VertsOfLength(recs[..|recs| - 1], size); }
  }

  lemma {:induction false} VertsOfIsSumOfSizes(recs: seq<ShapeRecord>)
    ensures |VertsOf(recs)| == Sum(Sizes(recs))
  {
    if |recs| > 0 {
      var front := recs[..|recs| - 1];
      VertsOfIsSumOfSizes(front);
      assert Sizes(recs) == Sizes(front) + [|recs[|recs| - 1].verts|];
      SumAppend(Sizes(front), |recs[|recs| - 1].verts|);
    }
  }

  lemma {:induction false} AllVertsIsSumOfSizes(groups: seq<seq<ShapeRecord>>)
    ensures |AllVerts(groups)| == Sum(Sizes(CellsOf(groups)))
  {
    if |groups| > 0 {
      var front, last := groups[..|groups| - 1], groups[|groups| - 1];
      AllVertsIsSumOfSizes(front);
      VertsOfIsSumOfSizes(last);
      assert Sizes(CellsOf(groups)) == Sizes(CellsOf(front)) + Sizes(last);
      SumConcat(Sizes(CellsOf(front)), Sizes(last));
    }
  }

  /**
   * The connectivity size computed from the shape counts is the number of
   * vertex ids of all shapes, so the last offset fills the connectivity
   * array exactly.
   */
  lemma {:induction false} ConnectivitySizeIsTotal(groups: seq<seq<ShapeRecord>>)
    requires WellSized(groups)
    ensures ConnectivitySize(groups) == |AllVerts(groups)| == Sum(Sizes(CellsOf(groups)))
  {
    AllVertsIsSumOfSizes(groups);
    if |groups| > 0 {
      var front, last := groups[..|groups| - 1], groups[|groups| - 1];
      assert WellSized(front);
      ConnectivitySizeIsTotal(front);
      VertsOfLength(last, ShapeOrder[|groups| - 1].Size());
    }
  }

  /** The distinct input points (ids in [0, numPrevPts)) of ids, in order of first use. */
  function FirstUse(ids: seq<int>, numPrevPts: int): (u: seq<int>)
    ensures forall x :: x in u <==> x in ids && 0 <= x < numPrevPts
    ensures forall k :: 0 <= k < |u| ==> 0 <= u[k] < numPrevPts
    ensures forall a, b :: 0 <= a < b < |u| ==> u[a] != u[b]
  {
    if |ids| == 0 then []
    else
      var u := FirstUse(ids[..|ids| - 1], numPrevPts);
      var x := ids[|ids| - 1];
      assert ids == ids[..|ids| - 1] + [x];
      if 0 <= x < numPrevPts && x !in u then u + [x] else u
  }

  lemma FirstUseAppend(ids: seq<int>, x: int, numPrevPts: int)
    ensures FirstUse(ids + [x], numPrevPts) ==
      if 0 <= x < numPrevPts && x !in FirstUse(ids, numPrevPts)
      then FirstUse(ids, numPrevPts) + [x] else FirstUse(ids, numPrevPts)
  {
    assert (ids + [x])[..|ids|] == ids;
  }

  /**
   * ptLookup: the output id of every input point, -1 for a point no shape
   * uses; used points are numbered 0, 1, 2, ... in order of first use.
   */
  method BuildPointLookup(numPrevPts: nat, groups: seq<seq<ShapeRecord>>)
    returns (ptLookup: seq<int>, numUsed: int)
    ensures |ptLookup| == numPrevPts
    ensures numUsed == |FirstUse(AllVerts(groups), numPrevPts)|
    ensures forall k :: 0 <= k < numUsed ==> ptLookup[FirstUse(AllVerts(groups), numPrevPts)[k]] == k
    ensures forall pt :: 0 <= pt < numPrevPts ==> (ptLookup[pt] == -1 <==> pt !in AllVerts(groups))
    ensures forall pt :: 0 <= pt < numPrevPts ==> -1 <= ptLookup[pt] < numUsed
  {
    var lookup := new int[numPrevPts](_ => -1);
    numUsed := 0;
    ghost var seen: seq<int> := [];
    var i := 0;
    while i < |groups|
      invariant 0 <= i <= |groups|
      invariant seen == AllVerts(groups[..i])
      invariant LookupInv(lookup[..], seen, numUsed)
    {
      var recs := groups[i];
      var k := 0;
      while k < |recs|
        invariant 0 <= k <= |recs|
        invariant seen == AllVerts(groups[..i]) + VertsOf(recs[..k])
        invariant LookupInv(lookup[..], seen, numUsed)
      {
        numUsed := MarkUsed(lookup, recs[k].verts, numUsed, seen);
        seen := seen + recs[k].verts;
        VertsOfStep(recs, k);
        k := k + 1;
      }
      assert recs[..k] == recs;
      AllVertsStep(groups, i);
      i := i + 1;
    }
    assert groups[..i] == groups;
    ptLookup := lookup[..];
  }

  /** The innermost loop of the first pass: numbers the unseen input points of one shape. */
  method MarkUsed(lookup: array<int>, verts: seq<int>, numUsed: int, ghost seen: seq<int>) returns (n: int)
    requires LookupInv(lookup[..], seen, numUsed)
    modifies lookup
    ensures LookupInv(lookup[..], seen + verts, n)
  {
    n := numUsed;
    var l := 0;
    assert seen + verts[..0] == seen;
    while l < |verts|
      invariant 0 <= l <= |verts|
      invariant LookupInv(lookup[..], seen + verts[..l], n)
    {
      var pt := verts[l];
      ghost var before, n0 := lookup[..], n;
      if 0 <= pt < lookup.Length && lookup[pt] == -1 {
        lookup[pt] := n;
        assert lookup[..] == before[pt := n];
        n := n + 1;
      }
      LookupInvNext(before, lookup[..], seen, verts, l, n0, n);
      l := l + 1;
    }
    assert verts[..l] == verts;
  }

  /** One loop step of MarkUsed keeps LookupInv for the next prefix of verts. */
  lemma LookupInvNext(before: seq<int>, after: seq<int>, seen: seq<int>, verts: seq<int>, l: nat, n: int, n': int)
    requires l < |verts| && LookupInv(before, seen + verts[..l], n)
    requires var pt := verts[l]; var add := 0 <= pt < |before| && before[pt] == -1;
             after == (if add then before[pt := n] else before) && n' == (if add then n + 1 else n)
    ensures LookupInv(after, seen + verts[..l + 1], n')
  {
    LookupInvStep(before, seen + verts[..l], n, verts[l]);
    PrefixStep(seen, verts, l);
  }

  lemma PrefixStep<T>(base: seq<T>, s: seq<T>, l: nat)
    requires l < |s|
    ensures base + s[..l + 1] == (base + s[..l]) + [s[l]]
  {
    assert s[..l + 1] == s[..l] + [s[l]];
  }

  lemma VertsOfStep(recs: seq<ShapeRecord>, k: nat)
    requires k < |recs|
    ensures VertsOf(recs[..k + 1]) == VertsOf(recs[..k]) + recs[k].verts
  {
    assert recs[..k + 1][..k] == recs[..k];
  }

  lemma AllVertsStep(groups: seq<seq<ShapeRecord>>, i: nat)
    requires i < |groups|
    ensures AllVerts(groups[..i + 1]) == AllVerts(groups[..i]) + VertsOf(groups[i])
  {
    assert groups[..i + 1][..i] == groups[..i];
  }

  /** Visiting one more vertex id keeps LookupInv. */
  lemma LookupInvStep(lookup: seq<int>, seen: seq<int>, numUsed: int, pt: int)
    requires LookupInv(lookup, seen, numUsed)
    ensures var add := 0 <= pt < |lookup| && lookup[pt] == -1;
            LookupInv(if add then lookup[pt := numUsed] else lookup, seen + [pt],
                      if add then numUsed + 1 else numUsed)
  {
    FirstUseAppend(seen, pt, |lookup|);
  }

  /** lookup numbers the points of FirstUse(seen) by position and has -1 elsewhere. */
  ghost predicate LookupInv(lookup: seq<int>, seen: seq<int>, numUsed: int)
  {
    var u := FirstUse(seen, |lookup|);
    numUsed == |u|
    && (forall k :: 0 <= k < |u| ==> lookup[u[k]] == k)
    && (forall pt :: 0 <= pt < |lookup| ==> (lookup[pt] == -1 <==> pt !in u))
    && (forall pt :: 0 <= pt < |lookup| ==> -1 <= lookup[pt] < numUsed)
  }

  /**
   * The numbering of output points: used input points first (by ptLookup),
   * then the edge points, then the centroid points from centroidStart on.
   */
  datatype IdMap = IdMap(numPrevPts: nat, numUsed: int, centroidStart: int, ptLookup: seq<int>)
  {
    ghost predicate Ok() { |ptLookup| == numPrevPts }

    /** The output id of a vertex id stored in a shape. */
    function Remap(id: int): int
      requires Ok()
    {
      if id < 0 then centroidStart - 1 - id
      else if id >= numPrevPts then numUsed + (id - numPrevPts)
      else ptLookup[id]
    }

    function RemapAll(ids: seq<int>): (r: seq<int>)
      requires Ok()
      ensures |r| == |ids| && forall j :: 0 <= j < |ids| ==> r[j] == Remap(ids[j])
    {
      seq(|ids|, j requires 0 <= j < |ids| => Remap(ids[j]))
    }
  }

  /**
   * The three kinds of stored ids land in three disjoint output ranges: a used
   * input point in [0, numUsed), edge point e (stored as numPrevPts + e) at
   * numUsed + e, centroid point c (stored as -1 - c) at centroidStart + c,
   * where centroidStart = numUsed + the number of edge points.  So distinct
   * stored ids get distinct output ids.
   */
  lemma RemapSeparates(m: IdMap, ptTotal: nat, centroidTotal: nat, a: int, b: int)
    requires m.Ok() && m.numUsed >= 0 && m.centroidStart == m.numUsed + ptTotal
    requires forall p :: 0 <= p < m.numPrevPts ==> -1 <= m.ptLookup[p] < m.numUsed
    requires forall p, q :: 0 <= p < q < m.numPrevPts && m.ptLookup[p] != -1 ==> m.ptLookup[p] != m.ptLookup[q]
    requires ValidStoredId(m, ptTotal, centroidTotal, a) && ValidStoredId(m, ptTotal, centroidTotal, b)
    ensures 0 <= m.Remap(a) < m.centroidStart + centroidTotal
    ensures a != b ==> m.Remap(a) != m.Remap(b)
  {
    if a != b && 0 <= a < m.numPrevPts && 0 <= b < m.numPrevPts {
      if a < b { assert m.ptLookup[a] != m.ptLookup[b]; }
      else { assert m.ptLookup[b] != m.ptLookup[a]; }
    }
  }

  /** A lookup that numbers the points of u by position gives distinct ids to distinct used points. */
  lemma LookupInjective(u: seq<int>, ptLookup: seq<int>)
    requires forall k :: 0 <= k < |u| ==> 0 <= u[k] < |ptLookup| && ptLookup[u[k]] == k
    requires forall pt :: 0 <= pt < |ptLookup| ==> (ptLookup[pt] == -1 <==> pt !in u)
    ensures forall p, q :: 0 <= p < q < |ptLookup| && ptLookup[p] != -1 ==> ptLookup[p] != ptLookup[q]
  {
    forall p, q | 0 <= p < q < |ptLookup| && ptLookup[p] != -1 ensures ptLookup[p] != ptLookup[q] {
      var kp :| 0 <= kp < |u| && u[kp] == p;
      if ptLookup[q] != -1 {
        var kq :| 0 <= kq < |u| && u[kq] == q;
      }
    }
  }

  /** With a lookup built by the first pass, ids naming existing points remap into [0, nOutPts). */
  lemma RemapInRange(m: IdMap, all: seq<int>, ptTotal: nat, centroidTotal: nat)
    requires m.Ok() && m.centroidStart == m.numUsed + ptTotal
    requires var u := FirstUse(all, m.numPrevPts);
             m.numUsed == |u|
             && (forall k :: 0 <= k < m.numUsed ==> m.ptLookup[u[k]] == k)
             && (forall pt :: 0 <= pt < m.numPrevPts ==> (m.ptLookup[pt] == -1 <==> pt !in all))
    ensures (forall id :: id in all ==> -1 - centroidTotal < id < m.numPrevPts + ptTotal)
            ==> forall j :: 0 <= j < |all| ==> 0 <= m.RemapAll(all)[j] < m.centroidStart + centroidTotal
  {
    var u := FirstUse(all, m.numPrevPts);
    if forall id :: id in all ==> -1 - centroidTotal < id < m.numPrevPts + ptTotal {
      LookupInjective(u, m.ptLookup);
      forall pt | 0 <= pt < m.numPrevPts ensures -1 <= m.ptLookup[pt] < m.numUsed {
        if m.ptLookup[pt] != -1 {
          var k :| 0 <= k < |u| && u[k] == pt;
        }
      }
      forall j | 0 <= j < |all| ensures 0 <= m.RemapAll(all)[j] < m.centroidStart + centroidTotal {
        assert all[j] in all;
        RemapSeparates(m, ptTotal, centroidTotal, all[j], all[j]);
      }
    }
  }

  /** An id a shape may hold: a used input point, an edge point or a centroid point. */
  ghost predicate ValidStoredId(m: IdMap, ptTotal: nat, centroidTotal: nat, id: int)
    requires m.Ok()
  {
    (0 <= id < m.numPrevPts && m.ptLookup[id] != -1)
    || (m.numPrevPts <= id < m.numPrevPts + ptTotal)
    || (-1 - centroidTotal < id < 0)
  }

  lemma {:induction false} CellsOfPrefix(groups: seq<seq<ShapeRecord>>, i: nat)
    requires i <= |groups|
    ensures |CellsOf(groups[..i])| <= |CellsOf(groups)|
    ensures |AllVerts(groups[..i])| <= |AllVerts(groups)|
    decreases |groups|
  {
    if i < |groups| {
      var front := groups[..|groups| - 1];
      assert front[..i] == groups[..i];
      CellsOfPrefix(front, i);
    } else {
      assert groups[..i] == groups;
    }
  }

  lemma {:induction false} VertsOfPrefix(recs: seq<ShapeRecord>, k: nat)
    requires k <= |recs|
    ensures |VertsOf(recs[..k])| <= |VertsOf(recs)|
    decreases |recs|
  {
    if k < |recs| {
      var front := recs[..|recs| - 1];
      assert front[..k] == recs[..k];
      VertsOfPrefix(front, k);
    } else {
      assert recs[..k] == recs;
    }
  }

  lemma CellsOfStep(groups: seq<seq<ShapeRecord>>, i: nat)
    requires i < |groups|
    ensures CellsOf(groups[..i + 1]) == CellsOf(groups[..i]) + groups[i]
    ensures AllVerts(groups[..i + 1]) == AllVerts(groups[..i]) + VertsOf(groups[i])
    ensures i < |ShapeOrder| ==>
      TypesOf(groups[..i + 1]) == TypesOf(groups[..i]) + Repeat(ShapeOrder[i].VtkType(), |groups[i]|)
  {
    assert groups[..i + 1][..i] == groups[..i];
  }

  /** Writes the remapped vertex ids of one shape at position at. */
  method WriteCell(conn: array<int>, at: nat, verts: seq<int>, m: IdMap)
    requires m.Ok() && at + |verts| <= conn.Length
    modifies conn
    ensures conn[..at] == old(conn[..at])
    ensures conn[at..at + |verts|] == m.RemapAll(verts)
  {
    var l := 0;
    while l < |verts|
      invariant 0 <= l <= |verts|
      invariant conn[..at] == old(conn[..at])
      invariant forall j :: 0 <= j < l ==> conn[at + j] == m.Remap(verts[j])
    {
      conn[at + l] := m.Remap(verts[l]);
      l := l + 1;
    }
  }

  /**
   * The second pass of ConstructDataSet: one output cell per shape, list
   * after list, with its VTK type, the input cell it came from, its offset
   * and its remapped vertices.  The offsets are the running sums of the
   * shape sizes, so the last one equals the connectivity size.
   */
  method BuildCells(groups: seq<seq<ShapeRecord>>, m: IdMap)
    returns (cellTypes: seq<int>, cellSources: seq<int>, offsets: seq<int>, connectivity: seq<int>)
    requires WellSized(groups) && m.Ok()
    ensures cellTypes == TypesOf(groups)
    ensures |cellSources| == |CellsOf(groups)|
    ensures forall c :: 0 <= c < |cellSources| ==> cellSources[c] == CellsOf(groups)[c].cellId
    ensures offsets == Offsets(Sizes(CellsOf(groups)))
    ensures connectivity == m.RemapAll(AllVerts(groups))
    ensures |connectivity| == ConnectivitySize(groups) == offsets[|CellsOf(groups)|]
  {
    var ncells, connectivitySize := CountCells(groups);
    var types := new int[ncells];
    var sources := new int[ncells];
    var offs := new int[ncells + 1];
    var conn := new int[connectivitySize];
    var cellId, offsetValue := 0, 0;
    ghost var done: seq<ShapeRecord> := [];
    ghost var doneVerts: seq<int> := [];
    ghost var doneOffs: seq<int> := [0];
    ghost var doneTypes: seq<int> := [];
    var i := 0;
    while i < |groups|
      invariant 0 <= i <= |groups|
      invariant done == CellsOf(groups[..i]) && doneVerts == AllVerts(groups[..i])
      invariant doneTypes == TypesOf(groups[..i])
      invariant OffsetsTrack(done, doneOffs)
      invariant CellsInv(types[..], sources[..], offs[..], conn[..], m, done, doneVerts, cellId, offsetValue,
                         doneTypes, doneOffs)
    {
      var recs := groups[i];
      var vtkType := ShapeOrder[i].VtkType();
      CellsOfStep(groups, i);
      CellsOfPrefix(groups, i + 1);
      cellId, offsetValue, doneOffs := WriteGroup(types, sources, offs, conn, m, recs, vtkType, cellId, offsetValue,
                                                  done, doneVerts, doneTypes, doneOffs);
      done := done + recs;
      doneVerts := doneVerts + VertsOf(recs);
      doneTypes := doneTypes + Repeat(vtkType, |recs|);
      i := i + 1;
    }
    assert groups[..i] == groups;
    ghost var offsBefore := offs[..];
    offs[cellId] := offsetValue;
    assert offs[..] == offsBefore[cellId := offsetValue];
    FinishCells(types[..], sources[..], offsBefore, conn[..], m, groups, cellId, offsetValue, doneOffs);
    cellTypes, cellSources, offsets := types[..], sources[..], offs[..];
    connectivity := conn[..];
  }

  /** Once every list is written, the arrays are the whole output, with the last offset filled in. */
  lemma FinishCells(types: seq<int>, sources: seq<int>, offs: seq<int>, conn: seq<int>, m: IdMap,
                    groups: seq<seq<ShapeRecord>>, cellId: int, offsetValue: int, doneOffs: seq<int>)
    requires m.Ok() && WellSized(groups)
    requires |types| == |CellsOf(groups)| && |conn| == ConnectivitySize(groups)
    requires OffsetsTrack(CellsOf(groups), doneOffs)
    requires CellsInv(types, sources, offs, conn, m, CellsOf(groups), AllVerts(groups), cellId, offsetValue,
                      TypesOf(groups), doneOffs)
    ensures var offs' := offs[cellId := offsetValue];
      types == TypesOf(groups)
      && |sources| == |CellsOf(groups)|
      && (forall c :: 0 <= c < |sources| ==> sources[c] == CellsOf(groups)[c].cellId)
      && offs' == Offsets(Sizes(CellsOf(groups)))
      && conn == m.RemapAll(AllVerts(groups))
      && |conn| == ConnectivitySize(groups) == offs'[|CellsOf(groups)|]
  {
    ConnectivitySizeIsTotal(groups);
    OffsetsTrackIsOffsets(CellsOf(groups), doneOffs);
    OffsetsAt(Sizes(CellsOf(groups)), |CellsOf(groups)|);
    assert offs[cellId := offsetValue] == offs[..cellId] + [offsetValue];
    assert conn[..offsetValue] == conn;
    assert types[..cellId] == types;
  }

  /** ncells and connectivitySize: the number of shapes and of their vertex ids, over all lists. */
  method CountCells(groups: seq<seq<ShapeRecord>>) returns (ncells: int, connectivitySize: int)
    requires WellSized(groups)
    ensures ncells == |CellsOf(groups)|
    ensures connectivitySize == ConnectivitySize(groups) == |AllVerts(groups)|
  {
    ncells, connectivitySize := 0, 0;
    var i := 0;
    while i < |groups|
      invariant 0 <= i <= |groups|
      invariant ncells == |CellsOf(groups[..i])|
      invariant connectivitySize == ConnectivitySize(groups[..i])
    {
      CellsOfStep(groups, i);
      assert groups[..i + 1][..i] == groups[..i];
      ncells := ncells + |groups[i]|;
      connectivitySize := connectivitySize + ShapeOrder[i].Size() * |groups[i]|;
      i := i + 1;
    }
    assert groups[..i] == groups;
    ConnectivitySizeIsTotal(groups);
  }

  /** The loop of the second pass over one shape list. */
  method WriteGroup(types: array<int>, sources: array<int>, offs: array<int>, conn: array<int>, m: IdMap,
                    recs: seq<ShapeRecord>, vtkType: int, cellId0: int, offsetValue0: int,
                    ghost done0: seq<ShapeRecord>, ghost doneVerts0: seq<int>, ghost doneTypes0: seq<int>,
                    ghost doneOffs0: seq<int>)
    returns (cellId: int, offsetValue: int, ghost doneOffs: seq<int>)
    requires m.Ok() && Distinct4(types, sources, offs, conn) && OffsetsTrack(done0, doneOffs0)
    requires CellsInv(types[..], sources[..], offs[..], conn[..], m, done0, doneVerts0, cellId0, offsetValue0, doneTypes0, doneOffs0)
    requires cellId0 + |recs| <= types.Length && offsetValue0 + |VertsOf(recs)| <= conn.Length
    modifies types, sources, offs, conn
    ensures cellId == cellId0 + |recs| && offsetValue == offsetValue0 + |VertsOf(recs)|
    ensures OffsetsTrack(done0 + recs, doneOffs)
    ensures CellsInv(types[..], sources[..], offs[..], conn[..], m, done0 + recs, doneVerts0 + VertsOf(recs),
                     cellId, offsetValue, doneTypes0 + Repeat(vtkType, |recs|), doneOffs)
  {
    cellId, offsetValue, doneOffs := cellId0, offsetValue0, doneOffs0;
    ghost var done, doneVerts, doneTypes := done0, doneVerts0, doneTypes0;
    var k := 0;
    assert recs[..0] == [] && done0 + [] == done0 && doneTypes0 + [] == doneTypes0 && doneVerts0 + [] == doneVerts0;
    while k < |recs|
      invariant 0 <= k <= |recs| && cellId == cellId0 + k
      invariant Progress(recs, vtkType, done0, doneVerts0, doneTypes0, k, done, doneVerts, doneTypes)
      invariant OffsetsTrack(done, doneOffs)
      invariant cellId == |done| <= types.Length == sources.Length && offs.Length == types.Length + 1
      invariant offsetValue == |doneVerts| <= conn.Length
      invariant types[..cellId] == doneTypes
      invariant forall c :: 0 <= c < cellId ==> sources[c] == done[c].cellId
      invariant offs[..cellId] + [offsetValue] == doneOffs
      invariant conn[..offsetValue] == m.RemapAll(doneVerts)
    {
      cellId, offsetValue, done, doneVerts, doneTypes, doneOffs :=
        WriteNext(types, sources, offs, conn, m, recs, vtkType, cellId0, done0, doneVerts0, doneTypes0, k,
                  cellId, offsetValue, done, doneVerts, doneTypes, doneOffs);
      k := k + 1;
    }
    ProgressEnd(recs, vtkType, done0, doneVerts0, doneTypes0, done, doneVerts, doneTypes);
  }

  /** One pass of WriteGroup's loop: shape k of the list goes to the next cell. */
  method WriteNext(types: array<int>, sources: array<int>, offs: array<int>, conn: array<int>, m: IdMap,
                   recs: seq<ShapeRecord>, vtkType: int, cellId0: int,
                   ghost done0: seq<ShapeRecord>, ghost doneVerts0: seq<int>, ghost doneTypes0: seq<int>, k: int,
                   cellId: int, offsetValue: int, ghost done: seq<ShapeRecord>, ghost doneVerts: seq<int>,
                   ghost doneTypes: seq<int>, ghost doneOffs: seq<int>)
    returns (cellId': int, offsetValue': int, ghost done': seq<ShapeRecord>, ghost doneVerts': seq<int>,
             ghost doneTypes': seq<int>, ghost doneOffs': seq<int>)
    requires m.Ok() && Distinct4(types, sources, offs, conn)
    requires cellId0 + |recs| <= types.Length && |doneVerts0| + |VertsOf(recs)| <= conn.Length
    requires 0 <= k < |recs| && cellId == cellId0 + k
    requires Progress(recs, vtkType, done0, doneVerts0, doneTypes0, k, done, doneVerts, doneTypes)
    requires OffsetsTrack(done, doneOffs)
    requires cellId == |done| <= types.Length == sources.Length && offs.Length == types.Length + 1
    requires offsetValue == |doneVerts| <= conn.Length
    requires types[..cellId] == doneTypes
    requires forall c :: 0 <= c < cellId ==> sources[c] == done[c].cellId
    requires offs[..cellId] + [offsetValue] == doneOffs
    requires conn[..offsetValue] == m.RemapAll(doneVerts)
    modifies types, sources, offs, conn
    ensures cellId' == cellId0 + k + 1
    ensures Progress(recs, vtkType, done0, doneVerts0, doneTypes0, k + 1, done', doneVerts', doneTypes')
    ensures OffsetsTrack(done', doneOffs')
    ensures cellId' == |done'| <= types.Length == sources.Length && offs.Length == types.Length + 1
    ensures offsetValue' == |doneVerts'| <= conn.Length
    ensures types[..cellId'] == doneTypes'
    ensures forall c :: 0 <= c < cellId' ==> sources[c] == done'[c].cellId
    ensures offs[..cellId'] + [offsetValue'] == doneOffs'
    ensures conn[..offsetValue'] == m.RemapAll(doneVerts')
  {
    var rec := recs[k];
    var next := offsetValue + |rec.verts|;
    ProgressStep(recs, vtkType, done0, doneVerts0, doneTypes0, k, done, doneVerts, doneTypes);
    OffsetsTrackStep(done, doneOffs, rec, offs[..cellId], offsetValue);
    WriteShape(types, sources, offs, conn, m, rec, vtkType, cellId, offsetValue, done, doneVerts, doneTypes, doneOffs);
    doneOffs' := doneOffs + [next];
    doneTypes' := doneTypes + [vtkType];
    done' := done + [rec];
    doneVerts' := doneVerts + rec.verts;
    cellId', offsetValue' := cellId + 1, next;
  }

  /**
   * doneOffs are the offsets of the cells done: they start at 0 and each
   * cell's size is the step to the next one.
   */
  ghost predicate OffsetsTrack(done: seq<ShapeRecord>, doneOffs: seq<int>)
    decreases |done|
  {
    if |done| == 0 then doneOffs == [0]
    else
      |doneOffs| == |done| + 1 && OffsetsTrack(done[..|done| - 1], doneOffs[..|done|])
      && doneOffs[|done|] == doneOffs[|done| - 1] + |done[|done| - 1].verts|
  }

  lemma OffsetsTrackStep(done: seq<ShapeRecord>, doneOffs: seq<int>, rec: ShapeRecord, front: seq<int>, ov: int)
    requires OffsetsTrack(done, doneOffs) && front + [ov] == doneOffs
    ensures OffsetsTrack(done + [rec], doneOffs + [ov + |rec.verts|])
  {
    var d, o := done + [rec], doneOffs + [ov + |rec.verts|];
    assert |doneOffs| == |done| + 1;
    assert d[..|d| - 1] == done && o[..|d|] == doneOffs;
  }

  /** The tracked offsets are the exclusive scan of the cell sizes. */
  lemma {:induction false} OffsetsTrackIsOffsets(done: seq<ShapeRecord>, doneOffs: seq<int>)
    requires OffsetsTrack(done, doneOffs)
    ensures doneOffs == Offsets(Sizes(done))
    decreases |done|
  {
    if |done| > 0 {
      var front, last, o := done[..|done| - 1], done[|done| - 1], doneOffs[..|done|];
      var sz := Sizes(front);
      OffsetsTrackIsOffsets(front, o);
      assert Sizes(done) == sz + [|last.verts|] by {
        assert done == front + [last];
      }
      assert Offsets(sz)[|front|] == Sum(sz) by {
        OffsetsAt(sz, |front|);
        assert sz[..|front|] == sz;
      }
      OffsetsAppend(sz, |last.verts|);
      assert doneOffs == o + [doneOffs[|done|]];
    }
  }

  /** WriteGroup has written the first k shapes of recs. */
  ghost predicate Progress(recs: seq<ShapeRecord>, vtkType: int,
                           done0: seq<ShapeRecord>, doneVerts0: seq<int>, doneTypes0: seq<int>,
                           k: nat, done: seq<ShapeRecord>, doneVerts: seq<int>, doneTypes: seq<int>)
  {
    k <= |recs| && done == done0 + recs[..k] && doneVerts == doneVerts0 + VertsOf(recs[..k])
    && doneTypes == doneTypes0 + Repeat(vtkType, k)
  }

  lemma ProgressStep(recs: seq<ShapeRecord>, vtkType: int,
                     done0: seq<ShapeRecord>, doneVerts0: seq<int>, doneTypes0: seq<int>,
                     k: nat, done: seq<ShapeRecord>, doneVerts: seq<int>, doneTypes: seq<int>)
    requires k < |recs| && Progress(recs, vtkType, done0, doneVerts0, doneTypes0, k, done, doneVerts, doneTypes)
    ensures Progress(recs, vtkType, done0, doneVerts0, doneTypes0, k + 1,
                     done + [recs[k]], doneVerts + recs[k].verts, doneTypes + [vtkType])
    ensures |done| == |done0| + k
    ensures |doneVerts| + |recs[k].verts| <= |doneVerts0| + |VertsOf(recs)|
  {
    PrefixStep(done0, recs, k);
    AppendVertsOf(doneVerts0, recs, k);
    AppendRepeat(doneTypes0, vtkType, k);
    VertsOfPrefix(recs, k + 1);
  }

  lemma ProgressEnd(recs: seq<ShapeRecord>, vtkType: int,
                    done0: seq<ShapeRecord>, doneVerts0: seq<int>, doneTypes0: seq<int>,
                    done: seq<ShapeRecord>, doneVerts: seq<int>, doneTypes: seq<int>)
    requires Progress(recs, vtkType, done0, doneVerts0, doneTypes0, |recs|, done, doneVerts, doneTypes)
    ensures done == done0 + recs && doneVerts == doneVerts0 + VertsOf(recs)
    ensures doneTypes == doneTypes0 + Repeat(vtkType, |recs|)
  {
    assert recs[..|recs|] == recs;
  }

  lemma AppendVertsOf(front: seq<int>, recs: seq<ShapeRecord>, k: nat)
    requires k < |recs|
    ensures front + VertsOf(recs[..k + 1]) == (front + VertsOf(recs[..k])) + recs[k].verts
    ensures |VertsOf(recs[..k + 1])| == |VertsOf(recs[..k])| + |recs[k].verts|
  {
    VertsOfStep(recs, k);
  }

  lemma AppendRepeat(front: seq<int>, x: int, k: nat)
    ensures front + Repeat(x, k + 1) == (front + Repeat(x, k)) + [x]
  {
    assert Repeat(x, k + 1) == Repeat(x, k) + [x];
  }

  predicate Distinct4(a: array<int>, b: array<int>, c: array<int>, d: array<int>)
  {
    a != b && a != c && a != d && b != c && b != d && c != d
  }

  /** The body of the second pass for one shape: its type, source cell, offset and vertices. */
  method WriteShape(types: array<int>, sources: array<int>, offs: array<int>, conn: array<int>, m: IdMap,
                    rec: ShapeRecord, vtkType: int, cellId: int, offsetValue: int,
                    ghost done: seq<ShapeRecord>, ghost doneVerts: seq<int>, ghost doneTypes: seq<int>,
                    ghost doneOffs: seq<int>)
    requires m.Ok() && Distinct4(types, sources, offs, conn)
    requires CellsInv(types[..], sources[..], offs[..], conn[..], m, done, doneVerts, cellId, offsetValue, doneTypes, doneOffs)
    requires cellId < types.Length && offsetValue + |rec.verts| <= conn.Length
    modifies types, sources, offs, conn
    ensures |types[..]| == old(|types[..]|) && |sources[..]| == old(|sources[..]|)
    ensures |offs[..]| == old(|offs[..]|) && |conn[..]| == old(|conn[..]|)
    ensures types[..cellId + 1] == doneTypes + [vtkType]
    ensures forall c :: 0 <= c < cellId + 1 ==> sources[c] == (done + [rec])[c].cellId
    ensures offs[..cellId + 1] + [offsetValue + |rec.verts|] == doneOffs + [offsetValue + |rec.verts|]
    ensures conn[..offsetValue + |rec.verts|] == m.RemapAll(doneVerts + rec.verts)
  {
    types[cellId] := vtkType;
    sources[cellId] := rec.cellId;
    offs[cellId] := offsetValue;
    assert offs[..cellId + 1] == offs[..cellId] + [offsetValue];
    WriteCell(conn, offsetValue, rec.verts, m);
    assert conn[..offsetValue + |rec.verts|] == conn[..offsetValue] + conn[offsetValue..offsetValue + |rec.verts|];
    RemapAllConcat(m, doneVerts, rec.verts);
    assert types[..cellId + 1] == types[..cellId] + [vtkType];
  }

  lemma RemapAllConcat(m: IdMap, a: seq<int>, b: seq<int>)
    requires m.Ok()
    ensures m.RemapAll(a + b) == m.RemapAll(a) + m.RemapAll(b)
  {
    assert forall j :: 0 <= j < |a| + |b| ==> (a + b)[j] == if j < |a| then a[j] else b[j - |a|];
  }

  /** What the second pass has written after the shapes done, whose vertices are doneVerts. */
  ghost predicate CellsInv(types: seq<int>, sources: seq<int>, offs: seq<int>,
                           conn: seq<int>, m: IdMap, done: seq<ShapeRecord>, doneVerts: seq<int>,
                           cellId: int, offsetValue: int, doneTypes: seq<int>, doneOffs: seq<int>)
    requires m.Ok()
  {
    cellId == |done| <= |types| == |sources| && |offs| == |types| + 1
    && offsetValue == |doneVerts| <= |conn|
    && types[..cellId] == doneTypes
    && (forall c :: 0 <= c < cellId ==> sources[c] == done[c].cellId)
    && offs[..cellId] + [offsetValue] == doneOffs
    && conn[..offsetValue] == m.RemapAll(doneVerts)
  }
}
