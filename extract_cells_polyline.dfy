// vtkExtractCellsAlongPolyLine: the cells of a data set that a set of lines
// and polylines pass through, extracted into an unstructured grid.  Each
// thread collects the hit cells and their points in hash sets together with
// the connectivity size they need; the sets are merged, sorted, the points
// renumbered by rank, and the output cell array is filled from the input
// cells.  The cell locator that finds the cells along a segment is a
// parameter: every line carries the hit lists of its segments.
module ExtractCellsAlongPolyLine {
  import opened Common

  /** The VTK cell types a source line may have. */
  const VtkLine := 3
  const VtkPolyLine := 4

  /** A cell of the source: its type, and for each of its segments the cells the locator finds along it. */
  datatype Line = Line(cellType: int, segmentHits: seq<seq<int>>)

  /** The elements of a sequence. */
  function Elems(s: seq<int>): set<int>
  {
    set x | x in s
  }

  lemma ElemsAppend(s: seq<int>, x: int)
    ensures Elems(s + [x]) == Elems(s) + {x}
  {
  }

  lemma ElemsConcat(s: seq<int>, t: seq<int>)
    ensures Elems(s + t) == Elems(s) + Elems(t)
  {
  }

  lemma FlattenStep(ss: seq<seq<int>>, k: nat)
    requires k < |ss|
    ensures Flatten(ss[..k + 1]) == Flatten(ss[..k]) + ss[k]
    ensures Elems(Flatten(ss[..k + 1])) == Elems(Flatten(ss[..k])) + Elems(ss[k])
  {
    assert ss[..k + 1][..k] == ss[..k];
    ElemsConcat(Flatten(ss[..k]), ss[k]);
  }

  ghost predicate Distinct(s: seq<int>)
  {
    forall i, j :: 0 <= i < j < |s| ==> s[i] != s[j]
  }

  ghost predicate StrictlyIncreasing(s: seq<int>)
  {
    forall i, j :: 0 <= i < j < |s| ==> s[i] < s[j]
  }

  /** Every listed id names a cell. */
  ghost predicate ValidIds(cells: seq<seq<int>>, ids: seq<int>)
  {
    forall i :: 0 <= i < |ids| ==> 0 <= ids[i] < |cells|
  }

  /** The sizes of the listed cells. */
  function Sizes(cells: seq<seq<int>>, ids: seq<int>): (r: seq<int>)
    requires ValidIds(cells, ids)
    ensures |r| == |ids|
  {
    if |ids| == 0 then [] else Sizes(cells, ids[..|ids| - 1]) + [|cells[ids[|ids| - 1]]|]
  }

  /** The points of the listed cells. */
  function PointsOf(cells: seq<seq<int>>, ids: seq<int>): set<int>
    requires ValidIds(cells, ids)
  {
    if |ids| == 0 then {} else PointsOf(cells, ids[..|ids| - 1]) + Elems(cells[ids[|ids| - 1]])
  }

  lemma SizesAppend(cells: seq<seq<int>>, ids: seq<int>, c: int)
    requires ValidIds(cells, ids) && 0 <= c < |cells|
    ensures ValidIds(cells, ids + [c])
    ensures Sizes(cells, ids + [c]) == Sizes(cells, ids) + [|cells[c]|]
    ensures PointsOf(cells, ids + [c]) == PointsOf(cells, ids) + Elems(cells[c])
  {
    assert (ids + [c])[..|ids|] == ids;
  }

  /** A point lies on one of the listed cells exactly when it is in PointsOf. */
  lemma {:induction false} PointsOfMeaning(cells: seq<seq<int>>, ids: seq<int>, p: int)
    requires ValidIds(cells, ids)
    ensures p in PointsOf(cells, ids) <==> exists i :: 0 <= i < |ids| && p in cells[ids[i]]
  {
    if |ids| > 0 {
      var front := ids[..|ids| - 1];
      PointsOfMeaning(cells, front, p);
      if p in PointsOf(cells, ids) && p !in PointsOf(cells, front) {
        assert p in cells[ids[|ids| - 1]];
      }
      if exists i :: 0 <= i < |ids| && p in cells[ids[i]] {
        var i :| 0 <= i < |ids| && p in cells[ids[i]];
        if i < |ids| - 1 {
          assert p in cells[front[i]];
        }
      }
    }
  }

  /** The cell ids in the hit lists, in order. */
  function Flatten(ss: seq<seq<int>>): seq<int>
  {
    if |ss| == 0 then [] else Flatten(ss[..|ss| - 1]) + ss[|ss| - 1]
  }

  /**
   * The cells a source cell hits: those along each of its segments, or
   * none when the source has cell types and this one is neither a line nor
   * a polyline.
   */
  function LineHits(line: Line, hasTypes: bool): seq<int>
  {
    if hasTypes && line.cellType != VtkLine && line.cellType != VtkPolyLine then []
    else Flatten(line.segmentHits)
  }

  /** The cells the source cells a .. c-1 hit, in order. */
  function HitSeq(lines: seq<Line>, hasTypes: bool, a: nat, c: nat): seq<int>
    requires a <= c <= |lines|
    decreases c - a
  {
    if c == a then [] else HitSeq(lines, hasTypes, a, c - 1) + LineHits(lines[c - 1], hasTypes)
  }

  /** The locator only reports cells of the input. */
  ghost predicate HitsValid(cells: seq<seq<int>>, lines: seq<Line>)
  {
    forall l, k :: 0 <= l < |lines| && 0 <= k < |lines[l].segmentHits| ==> ValidIds(cells, lines[l].segmentHits[k])
  }

  /**
   * A hit cell inserted into the hash set of cell ids; the connectivity size
   * grows by its size only when it was not there yet.
   */
  method InsertCell(cells: seq<seq<int>>, ids: seq<int>, size: int, cellId: int) returns (ids': seq<int>, size': int)
    requires ValidIds(cells, ids) && Distinct(ids) && size == Sum(Sizes(cells, ids)) && 0 <= cellId < |cells|
    ensures ValidIds(cells, ids') && Distinct(ids') && size' == Sum(Sizes(cells, ids'))
    ensures PointsOf(cells, ids') == PointsOf(cells, ids) + Elems(cells[cellId])
    ensures Elems(ids') == Elems(ids) + {cellId}
    ensures size' == size + (if cellId in ids then 0 else |cells[cellId]|)
  {
    if cellId !in ids {
      SizesAppend(cells, ids, cellId);
      SumAppend(Sizes(cells, ids), |cells[cellId]|);
      ElemsAppend(ids, cellId);
      ids', size' := ids + [cellId], size + |cells[cellId]|;
    } else {
      PointsOfContains(cells, ids, cellId);
      ids', size' := ids, size;
    }
  }

  /** Point ids inserted one by one into a hash set: each new one once, in order of first insertion. */
  method InsertAll(set0: seq<int>, ids: seq<int>) returns (r: seq<int>)
    requires Distinct(set0)
    ensures Distinct(r) && Elems(r) == Elems(set0) + Elems(ids)
    ensures set0 <= r
  {
    r := set0;
    var k := 0;
    while k < |ids|
      invariant 0 <= k <= |ids| && Distinct(r) && set0 <= r
      invariant Elems(r) == Elems(set0) + Elems(ids[..k])
    {
      if ids[k] !in r {
        ElemsAppend(r, ids[k]);
        r := r + [ids[k]];
      }
      assert ids[..k + 1] == ids[..k] + [ids[k]];
      ElemsAppend(ids[..k], ids[k]);
      k := k + 1;
    }
    assert ids[..k] == ids;
  }

  /** The hits of consecutive ranges of source cells follow one another. */
  lemma {:induction false} HitSeqSplit(lines: seq<Line>, hasTypes: bool, a: nat, b: nat, c: nat)
    requires a <= b <= c <= |lines|
    ensures HitSeq(lines, hasTypes, a, c) == HitSeq(lines, hasTypes, a, b) + HitSeq(lines, hasTypes, b, c)
    decreases c - b
  {
    if c > b {
      HitSeqSplit(lines, hasTypes, a, b, c - 1);
    }
  }

  // ---- Collecting the hit cells ----------------------------------------------------

  /**
   * The state a thread of IntersectLinesWorker collects into: the hash set
   * of hit cell ids, the hash set of their point ids (each modelled as a
   * sequence without repeats, in insertion order), and the connectivity size.
   */
  class HitCollector {
    var cellIds: seq<int>
    var pointIds: seq<int>
    var connectivitySize: int

    /** A thread's state after Initialize: nothing hit yet. */
    constructor()
      ensures cellIds == [] && pointIds == [] && connectivitySize == 0
    {
      cellIds := [];
      pointIds := [];
      connectivitySize := 0;
    }

    /**
     * The connectivity size is that of the distinct hit cells, and the
     * point set holds exactly their points.
     */
    ghost predicate Valid(cells: seq<seq<int>>)
      reads this
    {
      ValidIds(cells, cellIds) && Distinct(cellIds) && Distinct(pointIds) &&
      connectivitySize == Sum(Sizes(cells, cellIds)) &&
      Elems(pointIds) == PointsOf(cells, cellIds)
    }

    /**
     * AddHitCellIdsAndPointIds: records a hit cell and its points; the
     * connectivity size grows by the cell's size only the first time the
     * cell is hit.
     */
    method AddHitCellIdsAndPointIds(cells: seq<seq<int>>, cellId: int)
      requires Valid(cells) && 0 <= cellId < |cells|
      modifies this
      ensures Valid(cells)
      ensures Elems(cellIds) == old(Elems(cellIds)) + {cellId}
      ensures Elems(pointIds) == old(Elems(pointIds)) + Elems(cells[cellId])
      ensures connectivitySize == old(connectivitySize) + (if cellId in old(cellIds) then 0 else |cells[cellId]|)
    {
      var cellPoints := cells[cellId];
      var ids, size := InsertCell(cells, cellIds, connectivitySize, cellId);
      var pts := InsertAll(pointIds, cellPoints);
      cellIds, pointIds, connectivitySize := ids, pts, size;
    }

    /** The innermost loop of IntersectLinesWorker: records each cell the locator found along a segment. */
    method AddHits(cells: seq<seq<int>>, hits: seq<int>)
      requires Valid(cells) && ValidIds(cells, hits)
      modifies this
      ensures Valid(cells)
      ensures Elems(cellIds) == old(Elems(cellIds)) + Elems(hits)
    {
      var id := 0;
      while id < |hits|
        invariant 0 <= id <= |hits| && Valid(cells)
        invariant Elems(cellIds) == old(Elems(cellIds)) + Elems(hits[..id])
      {
        AddHitCellIdsAndPointIds(cells, hits[id]);
        assert hits[..id + 1] == hits[..id] + [hits[id]];
        ElemsAppend(hits[..id], hits[id]);
        id := id + 1;
      }
      assert hits[..id] == hits;
    }

    /**
     * The body of IntersectLinesWorker for one source cell: skipped when it
     * is neither a line nor a polyline, otherwise every segment's hits are
     * recorded.
     */
    method IntersectLine(cells: seq<seq<int>>, line: Line, hasTypes: bool)
      requires Valid(cells)
      requires forall k :: 0 <= k < |line.segmentHits| ==> ValidIds(cells, line.segmentHits[k])
      modifies this
      ensures Valid(cells)
      ensures Elems(cellIds) == old(Elems(cellIds)) + Elems(LineHits(line, hasTypes))
    {
      if hasTypes && line.cellType != VtkLine && line.cellType != VtkPolyLine {
        return;
      }
      var pointId := 0;
      while pointId < |line.segmentHits|
        invariant 0 <= pointId <= |line.segmentHits| && Valid(cells)
        invariant Elems(cellIds) == old(Elems(cellIds)) + Elems(Flatten(line.segmentHits[..pointId]))
      {
        AddHits(cells, line.segmentHits[pointId]);
        FlattenStep(line.segmentHits, pointId);
        pointId := pointId + 1;
      }
      assert line.segmentHits[..pointId] == line.segmentHits;
    }

    /** IntersectLinesWorker::operator(): the source cells startId .. endId-1 in order. */
    method IntersectRange(cells: seq<seq<int>>, lines: seq<Line>, hasTypes: bool, startId: nat, endId: nat)
      requires Valid(cells) && HitsValid(cells, lines) && startId <= endId <= |lines|
      modifies this
      ensures Valid(cells)
      ensures Elems(cellIds) == old(Elems(cellIds)) + Elems(HitSeq(lines, hasTypes, startId, endId))
    {
      var lineId := startId;
      while lineId < endId
        invariant startId <= lineId <= endId && Valid(cells)
        invariant Elems(cellIds) == old(Elems(cellIds)) + Elems(HitSeq(lines, hasTypes, startId, lineId))
      {
        IntersectLine(cells, lines[lineId], hasTypes);
        ElemsConcat(HitSeq(lines, hasTypes, startId, lineId), LineHits(lines[lineId], hasTypes));
        lineId := lineId + 1;
      }
    }

    /**
     * The thread merge of IntersectLinesWorker::Reduce, corrected: every
     * cell of the thread's set is added as a hit, so the connectivity size
     * grows only for cells the merged set does not hold yet.
     */
    method Merge(cells: seq<seq<int>>, other: HitCollector)
      requires Valid(cells) && other.Valid(cells) && other != this
      modifies this
      ensures Valid(cells)
      ensures Elems(cellIds) == old(Elems(cellIds)) + Elems(other.cellIds)
    {
      AddHits(cells, other.cellIds);
    }

    /**
     * IntersectLinesWorker::Reduce as written: the thread's sets are merged
     * but its connectivity size is added whole, even for cells another
     * thread has already counted.
     */
    method MergeAsWritten(other: HitCollector)
      requires other != this
      modifies this
      ensures Elems(cellIds) == old(Elems(cellIds)) + Elems(other.cellIds)
      ensures Elems(pointIds) == old(Elems(pointIds)) + Elems(other.pointIds)
      ensures connectivitySize == old(connectivitySize) + other.connectivitySize
    {
      var k := 0;
      while k < |other.cellIds|
        invariant 0 <= k <= |other.cellIds| && pointIds == old(pointIds) && connectivitySize == old(connectivitySize)
        invariant Elems(cellIds) == old(Elems(cellIds)) + Elems(other.cellIds[..k])
      {
        var id := other.cellIds[k];
        if id !in cellIds {
          ElemsAppend(cellIds, id);
          cellIds := cellIds + [id];
        }
        assert other.cellIds[..k + 1] == other.cellIds[..k] + [id];
        ElemsAppend(other.cellIds[..k], id);
        k := k + 1;
      }
      assert other.cellIds[..k] == other.cellIds;
      k := 0;
      while k < |other.pointIds|
        invariant 0 <= k <= |other.pointIds| && connectivitySize == old(connectivitySize)
        invariant Elems(cellIds) == old(Elems(cellIds)) + Elems(other.cellIds)
        invariant Elems(pointIds) == old(Elems(pointIds)) + Elems(other.pointIds[..k])
      {
        var id := other.pointIds[k];
        if id !in pointIds {
          ElemsAppend(pointIds, id);
          pointIds := pointIds + [id];
        }
        assert other.pointIds[..k + 1] == other.pointIds[..k] + [id];
        ElemsAppend(other.pointIds[..k], id);
        k := k + 1;
      }
      assert other.pointIds[..k] == other.pointIds;
      connectivitySize := connectivitySize + other.connectivitySize;
    }
  }

  /** The points of a listed cell are among the points of the list. */
  lemma {:induction false} PointsOfContains(cells: seq<seq<int>>, ids: seq<int>, c: int)
    requires ValidIds(cells, ids) && c in ids
    ensures Elems(cells[c]) <= PointsOf(cells, ids)
  {
    var i :| 0 <= i < |ids| && ids[i] == c;
    forall p | p in Elems(cells[c])
      ensures p in PointsOf(cells, ids)
    {
      PointsOfMeaning(cells, ids, p);
    }
  }

  /** A sequence without repeats holding exactly one value is that value alone. */
  lemma SingletonSeq(s: seq<int>, x: int)
    requires Distinct(s) && Elems(s) == {x}
    ensures s == [x]
  {
    DistinctCard(s);
    assert s[0] in Elems(s);
  }

  /**
   * Two threads that each hit the same 4-point cell: the merge as written
   * reports a connectivity size of 8, although the merged set holds one
   * cell of 4 points.
   */
  method MergeOvercounts() returns (size: int)
    ensures size == 8
  {
    var cells := [[0, 1, 2, 3]];
    var a := new HitCollector();
    a.AddHitCellIdsAndPointIds(cells, 0);
    var b := new HitCollector();
    b.AddHitCellIdsAndPointIds(cells, 0);
    a.MergeAsWritten(b);
    size := a.connectivitySize;
  }

  /** The same two threads merged by the corrected merge: a size of 4. */
  method MergeCountsOnce() returns (size: int)
    ensures size == 4
  {
    var cells := [[0, 1, 2, 3]];
    var c := new HitCollector();
    c.AddHitCellIdsAndPointIds(cells, 0);
    var d := new HitCollector();
    d.AddHitCellIdsAndPointIds(cells, 0);
    c.Merge(cells, d);
    size := c.connectivitySize;
    SingletonSeq(c.cellIds, 0);
    assert Sizes(cells, [0]) == [4];
    assert Sum([4]) == 4;
  }

  /**
   * IntersectLines: the source cells split into consecutive ranges, one per
   * thread (bounds lists the range ends); each thread collects its range
   * into a fresh state and the states are merged.  The result holds every
   * cell any line hits, with the matching points and connectivity size.
   */
  method IntersectLines(cells: seq<seq<int>>, lines: seq<Line>, hasTypes: bool, bounds: seq<nat>)
      returns (global: HitCollector)
    requires HitsValid(cells, lines)
    requires |bounds| > 0 && bounds[0] == 0 && bounds[|bounds| - 1] == |lines|
    requires forall i, j :: 0 <= i <= j < |bounds| ==> bounds[i] <= bounds[j]
    ensures global.Valid(cells)
    ensures Elems(global.cellIds) == Elems(HitSeq(lines, hasTypes, 0, |lines|))
  {
    global := new HitCollector();
    var t := 0;
    while t < |bounds| - 1
      invariant 0 <= t <= |bounds| - 1 && global.Valid(cells)
      invariant Elems(global.cellIds) == Elems(HitSeq(lines, hasTypes, 0, bounds[t]))
    {
      var local := new HitCollector();
      local.IntersectRange(cells, lines, hasTypes, bounds[t], bounds[t + 1]);
      global.Merge(cells, local);
      HitSeqSplit(lines, hasTypes, 0, bounds[t], bounds[t + 1]);
      ElemsConcat(HitSeq(lines, hasTypes, 0, bounds[t]), HitSeq(lines, hasTypes, bounds[t], bounds[t + 1]));
      t := t + 1;
    }
  }

  // ---- Sorting and renumbering -----------------------------------------------------

  /** Inserts x at its place in a strictly increasing sequence. */
  method InsertSorted(r: seq<int>, x: int) returns (r': seq<int>)
    requires StrictlyIncreasing(r) && x !in r
    ensures StrictlyIncreasing(r') && Elems(r') == Elems(r) + {x} && |r'| == |r| + 1
  {
    var k := 0;
    while k < |r| && r[k] < x
      invariant 0 <= k <= |r| && forall i :: 0 <= i < k ==> r[i] < x
    {
      k := k + 1;
    }
    r' := r[..k] + [x] + r[k..];
    assert forall i :: k <= i < |r| ==> x < r[i] by {
      forall i | k <= i < |r|
        ensures x < r[i]
      {
        assert r[k] != x && !(r[k] < x);
      }
    }
    assert r == r[..k] + r[k..];
    ElemsConcat(r[..k] + [x], r[k..]);
    ElemsConcat(r[..k], [x]);
    ElemsConcat(r[..k], r[k..]);
  }

  /**
   * The std::sort of a copied hash set: the same ids in strictly
   * increasing order.
   */
  method SortIds(ids: seq<int>) returns (sorted: seq<int>)
    requires Distinct(ids)
    ensures StrictlyIncreasing(sorted) && Elems(sorted) == Elems(ids) && |sorted| == |ids|
  {
    sorted := [];
    var i := 0;
    while i < |ids|
      invariant 0 <= i <= |ids| && StrictlyIncreasing(sorted)
      invariant Elems(sorted) == Elems(ids[..i]) && |sorted| == i
    {
      assert ids[i] !in Elems(ids[..i]);
      sorted := InsertSorted(sorted, ids[i]);
      assert ids[..i + 1] == ids[..i] + [ids[i]];
      ElemsAppend(ids[..i], ids[i]);
      i := i + 1;
    }
    assert ids[..i] == ids;
  }

  /** There is only one strictly increasing order of a set of ids. */
  lemma {:induction false} SortedUnique(a: seq<int>, b: seq<int>)
    requires StrictlyIncreasing(a) && StrictlyIncreasing(b) && Elems(a) == Elems(b)
    ensures a == b
    decreases |a|
  {
    if |a| > 0 {
      assert a[0] in Elems(b);
    }
    if |b| > 0 {
      assert b[0] in Elems(a);
    }
    if |a| > 0 && |b| > 0 {
      assert a[0] == b[0];
      forall x
        ensures x in Elems(a[1..]) <==> x in Elems(b[1..])
      {
        if x in Elems(a[1..]) {
          assert x in Elems(b) && x != b[0];
        }
        if x in Elems(b[1..]) {
          assert x in Elems(a) && x != a[0];
        }
      }
      SortedUnique(a[1..], b[1..]);
      assert a == [a[0]] + a[1..] && b == [b[0]] + b[1..];
    }
  }

  /**
   * The map from input point ids to output point ids: the i-th smallest
   * hit point becomes output point i.
   */
  method BuildPointMap(sorted: seq<int>) returns (m: map<int, int>)
    requires Distinct(sorted)
    ensures m.Keys == Elems(sorted)
    ensures forall k :: 0 <= k < |sorted| ==> m[sorted[k]] == k
  {
    m := map[];
    var pointId := 0;
    while pointId < |sorted|
      invariant 0 <= pointId <= |sorted| && m.Keys == Elems(sorted[..pointId])
      invariant forall k :: 0 <= k < pointId ==> m[sorted[k]] == k
    {
      m := m[sorted[pointId] := pointId];
      assert sorted[..pointId + 1] == sorted[..pointId] + [sorted[pointId]];
      ElemsAppend(sorted[..pointId], sorted[pointId]);
      pointId := pointId + 1;
    }
    assert sorted[..pointId] == sorted;
  }

  /** A sequence without repeats has as many elements as its length. */
  lemma {:induction false} DistinctCard(s: seq<int>)
    requires Distinct(s)
    ensures |Elems(s)| == |s|
  {
    if |s| > 0 {
      var front := s[..|s| - 1];
      DistinctCard(front);
      assert s == front + [s[|s| - 1]];
      ElemsAppend(front, s[|s| - 1]);
      assert s[|s| - 1] !in Elems(front);
    }
  }

  /** The output id of a point is its rank: the number of hit points with smaller ids. */
  lemma RankIsCount(sorted: seq<int>, k: nat)
    requires StrictlyIncreasing(sorted) && k < |sorted|
    ensures k == |set y | y in sorted && y < sorted[k]|
  {
    var below := set y | y in sorted && y < sorted[k];
    forall y
      ensures y in below <==> y in Elems(sorted[..k])
    {
      if y in below {
        var i :| 0 <= i < |sorted| && sorted[i] == y;
        assert i < k;
        assert sorted[..k][i] == y;
      }
    }
    assert below == Elems(sorted[..k]);
    DistinctCard(sorted[..k]);
  }

  // ---- Output cells ----------------------------------------------------------------

  /** Entry i of Sizes is the size of the i-th listed cell. */
  lemma {:induction false} SizesAt(cells: seq<seq<int>>, ids: seq<int>, i: nat)
    requires ValidIds(cells, ids) && i < |ids|
    ensures Sizes(cells, ids)[i] == |cells[ids[i]]|
  {
    if i < |ids| - 1 {
      SizesAt(cells, ids[..|ids| - 1], i);
    }
  }

  lemma {:induction false} SizesConcat(cells: seq<seq<int>>, a: seq<int>, b: seq<int>)
    requires ValidIds(cells, a) && ValidIds(cells, b)
    ensures ValidIds(cells, a + b)
    ensures Sizes(cells, a + b) == Sizes(cells, a) + Sizes(cells, b)
    decreases |b|
  {
    if |b| == 0 {
      assert a + b == a;
    } else {
      var last := b[|b| - 1];
      var front := b[..|b| - 1];
      SizesConcat(cells, a, front);
      assert a + b == (a + front) + [last];
      SizesAppend(cells, a + front, last);
      assert b == front + [last];
      SizesAppend(cells, front, last);
    }
  }

  /** The total size of the listed cells is never negative. */
  lemma SumSizesNonNegative(cells: seq<seq<int>>, ids: seq<int>)
    requires ValidIds(cells, ids)
    ensures Sum(Sizes(cells, ids)) >= 0
  {
    forall i | 0 <= i < |ids|
      ensures Sizes(cells, ids)[i] >= 0
    {
      SizesAt(cells, ids, i);
    }
    SumNonNegative(Sizes(cells, ids));
  }

  /** Taking entry j out of a sequence without repeats removes exactly that value. */
  lemma ElemsRemove(b: seq<int>, j: nat)
    requires Distinct(b) && j < |b|
    ensures Distinct(b[..j] + b[j + 1..])
    ensures Elems(b[..j] + b[j + 1..]) == Elems(b) - {b[j]}
  {
    var rest := b[..j] + b[j + 1..];
    assert b == b[..j] + [b[j]] + b[j + 1..];
    ElemsConcat(b[..j] + [b[j]], b[j + 1..]);
    ElemsConcat(b[..j], [b[j]]);
    ElemsConcat(b[..j], b[j + 1..]);
    assert forall i :: 0 <= i < |rest| ==> rest[i] == (if i < j then b[i] else b[i + 1]);
  }

  /** Taking entry j out of the listed cells takes its size off the total. */
  lemma SumSizesRemove(cells: seq<seq<int>>, b: seq<int>, j: nat)
    requires ValidIds(cells, b) && j < |b|
    ensures ValidIds(cells, b[..j] + b[j + 1..])
    ensures Sum(Sizes(cells, b)) == Sum(Sizes(cells, b[..j] + b[j + 1..])) + |cells[b[j]]|
  {
    var x := b[j];
    assert b == (b[..j] + [x]) + b[j + 1..];
    SizesConcat(cells, b[..j], b[j + 1..]);
    SizesConcat(cells, b[..j], [x]);
    SizesConcat(cells, b[..j] + [x], b[j + 1..]);
    assert Sizes(cells, [x]) == [|cells[x]|];
    SumConcat(Sizes(cells, b[..j]), Sizes(cells, b[j + 1..]));
    SumConcat(Sizes(cells, b[..j]), [|cells[x]|]);
    SumConcat(Sizes(cells, b[..j]) + [|cells[x]|], Sizes(cells, b[j + 1..]));
  }

  /**
   * The connectivity size does not depend on the order of the hit cells:
   * any two orders of the same distinct cells have the same total size.
   */
  lemma {:induction false} SumSizesPermutation(cells: seq<seq<int>>, a: seq<int>, b: seq<int>)
    requires ValidIds(cells, a) && ValidIds(cells, b) && Distinct(a) && Distinct(b)
    requires Elems(a) == Elems(b)
    ensures Sum(Sizes(cells, a)) == Sum(Sizes(cells, b))
    decreases |a|
  {
    if |b| > 0 {
      assert b[0] in Elems(a);
    }
    if |a| > 0 {
      var x := a[|a| - 1];
      var front := a[..|a| - 1];
      assert x in Elems(b);
      var j :| 0 <= j < |b| && b[j] == x;
      ElemsRemove(b, j);
      ElemsRemove(a, |a| - 1);
      assert a[..|a| - 1] + a[|a|..] == front;
      SumSizesRemove(cells, b, j);
      SumSizesPermutation(cells, front, b[..j] + b[j + 1..]);
      SizesAppend(cells, front, x);
      assert a == front + [x];
      SumAppend(Sizes(cells, front), |cells[x]|);
    }
  }

  /** Entry k of the output offsets plus the size of cell k is entry k + 1. */
  lemma OffsetsOfSizes(cells: seq<seq<int>>, ids: seq<int>, k: nat, l: nat)
    requires ValidIds(cells, ids) && k < l <= |ids|
    ensures Offsets(Sizes(cells, ids))[k] + |cells[ids[k]]| <= Offsets(Sizes(cells, ids))[l]
    ensures 0 <= Offsets(Sizes(cells, ids))[k] && Offsets(Sizes(cells, ids))[l] <= Sum(Sizes(cells, ids))
  {
    var sizes := Sizes(cells, ids);
    forall i | 0 <= i < |sizes|
      ensures sizes[i] >= 0
    {
      SizesAt(cells, ids, i);
    }
    OffsetsRecoverCounts(sizes);
    SizesAt(cells, ids, k);
    OffsetsMonotone(sizes, 0, k);
    OffsetsMonotone(sizes, k + 1, l);
    OffsetsMonotone(sizes, l, |sizes|);
  }

  /** The points of a cell, written through the point map at an offset. */
  ghost predicate CellCopied(conn: seq<int>, offset: int, cellPoints: seq<int>, pointMap: map<int, int>)
  {
    0 <= offset && offset + |cellPoints| <= |conn| &&
    forall j :: 0 <= j < |cellPoints| ==> cellPoints[j] in pointMap && conn[offset..][j] == pointMap[cellPoints[j]]
  }

  /** A copied cell stays copied when only entries past it change. */
  lemma CopiedKept(a: seq<int>, b: seq<int>, offset: int, cellPoints: seq<int>, pointMap: map<int, int>, lo: int)
    requires CellCopied(a, offset, cellPoints, pointMap) && offset + |cellPoints| <= lo
    requires |a| == |b| && forall i :: 0 <= i < lo && i < |a| ==> a[i] == b[i]
    ensures CellCopied(b, offset, cellPoints, pointMap)
  {
    forall j | 0 <= j < |cellPoints|
      ensures b[offset..][j] == pointMap[cellPoints[j]]
    {
      assert a[offset..][j] == pointMap[cellPoints[j]];
    }
  }

  /**
   * CopyCell: writes the output ids of a cell's points at the given offset.
   * The map lookup throws for a point that is not mapped, so every point
   * must be.
   */
  method CopyCell(conn: array<int>, cellPoints: seq<int>, pointMap: map<int, int>, currentOffset: nat)
    requires currentOffset + |cellPoints| <= conn.Length
    requires Elems(cellPoints) <= pointMap.Keys
    modifies conn
    ensures CellCopied(conn[..], currentOffset, cellPoints, pointMap)
    ensures forall i :: 0 <= i < conn.Length && !(currentOffset <= i < currentOffset + |cellPoints|) ==> conn[i] == old(conn[i])
  {
    var pointId := 0;
    while pointId < |cellPoints|
      invariant 0 <= pointId <= |cellPoints|
      invariant forall j :: 0 <= j < pointId ==> conn[currentOffset + j] == pointMap[cellPoints[j]]
      invariant forall i :: 0 <= i < conn.Length && !(currentOffset <= i < currentOffset + pointId) ==> conn[i] == old(conn[i])
    {
      assert cellPoints[pointId] in Elems(cellPoints);
      conn[currentOffset + pointId] := pointMap[cellPoints[pointId]];
      pointId := pointId + 1;
    }
  }

  /**
   * The output offsets: the running sums of the sizes of the listed cells,
   * starting at 0.
   */
  method OutputOffsets(cells: seq<seq<int>>, cellIds: seq<int>) returns (offsets: seq<int>)
    requires ValidIds(cells, cellIds)
    ensures offsets == Offsets(Sizes(cells, cellIds))
  {
    offsets := [0];
    var currentOffset := 0;
    var k := 0;
    while k < |cellIds|
      invariant 0 <= k <= |cellIds| && ValidIds(cells, cellIds[..k])
      invariant offsets == Offsets(Sizes(cells, cellIds[..k]))
      invariant currentOffset == Sum(Sizes(cells, cellIds[..k]))
    {
      currentOffset := currentOffset + |cells[cellIds[k]]|;
      assert cellIds[..k + 1] == cellIds[..k] + [cellIds[k]];
      SizesAppend(cells, cellIds[..k], cellIds[k]);
      OffsetsAppend(Sizes(cells, cellIds[..k]), |cells[cellIds[k]]|);
      SumAppend(Sizes(cells, cellIds[..k]), |cells[cellIds[k]]|);
      offsets := offsets + [currentOffset];
      k := k + 1;
    }
    assert cellIds[..k] == cellIds;
  }

  /**
   * GenerateOutputCellsWorker: for each output cell in [startId, endId),
   * copies its input cell's points through the point map at the cell's
   * offset and records its input cell type.  Cells before startId stay as
   * they were.
   */
  method CopyCells(conn: array<int>, types: array<int>, cells: seq<seq<int>>, cellTypes: seq<int>,
                   cellIds: seq<int>, pointMap: map<int, int>, offsets: seq<int>, startId: nat, endId: nat)
    requires ValidIds(cells, cellIds) && |cellTypes| == |cells| && conn != types
    requires offsets == Offsets(Sizes(cells, cellIds)) && Sum(Sizes(cells, cellIds)) <= conn.Length
    requires types.Length == |cellIds| && startId <= endId <= |cellIds|
    requires forall k :: 0 <= k < |cellIds| ==> Elems(cells[cellIds[k]]) <= pointMap.Keys
    requires forall k :: 0 <= k < startId ==> CellCopied(conn[..], offsets[k], cells[cellIds[k]], pointMap)
    requires forall k :: 0 <= k < startId ==> types[k] == cellTypes[cellIds[k]]
    modifies conn, types
    ensures forall k :: 0 <= k < endId ==> CellCopied(conn[..], offsets[k], cells[cellIds[k]], pointMap)
    ensures forall k :: 0 <= k < endId ==> types[k] == cellTypes[cellIds[k]]
  {
    var outputCellId := startId;
    while outputCellId < endId
      invariant startId <= outputCellId <= endId
      invariant forall k :: 0 <= k < outputCellId ==> CellCopied(conn[..], offsets[k], cells[cellIds[k]], pointMap)
      invariant forall k :: 0 <= k < outputCellId ==> types[k] == cellTypes[cellIds[k]]
    {
      var inputCellId := cellIds[outputCellId];
      OffsetsOfSizes(cells, cellIds, outputCellId, outputCellId + 1);
      ghost var before := conn[..];
      CopyCell(conn, cells[inputCellId], pointMap, offsets[outputCellId]);
      forall k | 0 <= k < outputCellId
        ensures CellCopied(conn[..], offsets[k], cells[cellIds[k]], pointMap)
      {
        OffsetsOfSizes(cells, cellIds, k, outputCellId);
        CopiedKept(before, conn[..], offsets[k], cells[cellIds[k]], pointMap, offsets[outputCellId]);
      }
      types[outputCellId] := cellTypes[inputCellId];
      outputCellId := outputCellId + 1;
    }
  }

  /**
   * GenerateOutputCells: the offsets are the running sums of the sizes of
   * the listed cells, each cell's points are copied through the point map
   * at its offset, and each output cell keeps its input cell type.  The
   * connectivity has the length it is given.
   */
  method GenerateOutputCells(cells: seq<seq<int>>, cellTypes: seq<int>, cellIds: seq<int>,
                             pointMap: map<int, int>, connectivitySize: nat)
      returns (offsets: seq<int>, conn: seq<int>, types: seq<int>)
    requires ValidIds(cells, cellIds) && |cellTypes| == |cells|
    requires Sum(Sizes(cells, cellIds)) <= connectivitySize
    requires forall k :: 0 <= k < |cellIds| ==> Elems(cells[cellIds[k]]) <= pointMap.Keys
    ensures offsets == Offsets(Sizes(cells, cellIds))
    ensures |conn| == connectivitySize && |types| == |cellIds|
    ensures forall k :: 0 <= k < |cellIds| ==> CellCopied(conn, offsets[k], cells[cellIds[k]], pointMap)
    ensures forall k :: 0 <= k < |cellIds| ==> types[k] == cellTypes[cellIds[k]]
  {
    offsets := OutputOffsets(cells, cellIds);
    // The output arrays are allocated without initial values; 0 stands for those.
    var c := new int[connectivitySize](_ => 0);
    var t := new int[|cellIds|](_ => 0);
    CopyCells(c, t, cells, cellTypes, cellIds, pointMap, offsets, 0, |cellIds|);
    conn := c[..];
    types := t[..];
  }

  // ---- The whole extraction --------------------------------------------------------

  /** An output cell whose connectivity leads back to the input points. */
  ghost predicate CellRenumbered(conn: seq<int>, offset: int, cellPoints: seq<int>, points: seq<int>)
  {
    0 <= offset && offset + |cellPoints| <= |conn| &&
    forall j :: 0 <= j < |cellPoints| ==> 0 <= conn[offset..][j] < |points| && points[conn[offset..][j]] == cellPoints[j]
  }

  /** Copying through the rank map of the sorted points is undone by indexing them. */
  lemma CopiedRenumbered(conn: seq<int>, offset: int, cellPoints: seq<int>, pointMap: map<int, int>, points: seq<int>)
    requires CellCopied(conn, offset, cellPoints, pointMap)
    requires pointMap.Keys == Elems(points)
    requires forall k :: 0 <= k < |points| ==> pointMap[points[k]] == k
    ensures CellRenumbered(conn, offset, cellPoints, points)
  {
    forall j | 0 <= j < |cellPoints|
      ensures 0 <= conn[offset..][j] < |points| && points[conn[offset..][j]] == cellPoints[j]
    {
      var p := cellPoints[j];
      assert p in Elems(points);
      var i :| 0 <= i < |points| && points[i] == p;
      assert conn[offset..][j] == i;
    }
  }

  /** The ids of a sequence that holds no other ids than a valid one are valid. */
  lemma ValidIdsOfElems(cells: seq<seq<int>>, a: seq<int>, b: seq<int>)
    requires ValidIds(cells, a) && Elems(b) <= Elems(a)
    ensures ValidIds(cells, b)
  {
    forall i | 0 <= i < |b|
      ensures 0 <= b[i] < |cells|
    {
      assert b[i] in Elems(a);
    }
  }

  /** The points of the listed cells depend only on which cells are listed. */
  lemma PointsOfElems(cells: seq<seq<int>>, a: seq<int>, b: seq<int>)
    requires ValidIds(cells, a) && ValidIds(cells, b) && Elems(a) == Elems(b)
    ensures PointsOf(cells, a) == PointsOf(cells, b)
  {
    forall p
      ensures p in PointsOf(cells, a) <==> p in PointsOf(cells, b)
    {
      PointsOfMeaning(cells, a, p);
      PointsOfMeaning(cells, b, p);
      if i :| 0 <= i < |a| && p in cells[a[i]] {
        assert a[i] in Elems(b);
        var j :| 0 <= j < |b| && b[j] == a[i];
      }
      if j :| 0 <= j < |b| && p in cells[b[j]] {
        assert b[j] in Elems(a);
        var i :| 0 <= i < |a| && a[i] == b[j];
      }
    }
  }

  /** Every point of a listed cell is in PointsOf. */
  lemma CellPointsIn(cells: seq<seq<int>>, ids: seq<int>, k: nat)
    requires ValidIds(cells, ids) && k < |ids|
    ensures Elems(cells[ids[k]]) <= PointsOf(cells, ids)
  {
    forall p | p in Elems(cells[ids[k]])
      ensures p in PointsOf(cells, ids)
    {
      PointsOfMeaning(cells, ids, p);
    }
  }

  /**
   * ExtractCells: the output cells are the cells any line hits, in
   * increasing id order; the output points are the points of those cells,
   * in increasing id order; the connectivity is exactly as long as the
   * last offset, and following an output cell's connectivity into the
   * output points gives back the input cell's points, in order.
   */
  method ExtractCells(cells: seq<seq<int>>, cellTypes: seq<int>, lines: seq<Line>, hasTypes: bool, bounds: seq<nat>)
      returns (sortedCells: seq<int>, sortedPoints: seq<int>, offsets: seq<int>, conn: seq<int>, types: seq<int>)
    requires HitsValid(cells, lines) && |cellTypes| == |cells|
    requires |bounds| > 0 && bounds[0] == 0 && bounds[|bounds| - 1] == |lines|
    requires forall i, j :: 0 <= i <= j < |bounds| ==> bounds[i] <= bounds[j]
    ensures StrictlyIncreasing(sortedCells) && Elems(sortedCells) == Elems(HitSeq(lines, hasTypes, 0, |lines|))
    ensures ValidIds(cells, sortedCells)
    ensures StrictlyIncreasing(sortedPoints) && Elems(sortedPoints) == PointsOf(cells, sortedCells)
    ensures offsets == Offsets(Sizes(cells, sortedCells)) && |conn| == offsets[|sortedCells|]
    ensures |types| == |sortedCells|
    ensures forall k :: 0 <= k < |sortedCells| ==> CellRenumbered(conn, offsets[k], cells[sortedCells[k]], sortedPoints)
    ensures forall k :: 0 <= k < |sortedCells| ==> types[k] == cellTypes[sortedCells[k]]
  {
    var global := IntersectLines(cells, lines, hasTypes, bounds);
    sortedCells := SortIds(global.cellIds);
    sortedPoints := SortIds(global.pointIds);
    ValidIdsOfElems(cells, global.cellIds, sortedCells);
    SumSizesPermutation(cells, global.cellIds, sortedCells);
    PointsOfElems(cells, global.cellIds, sortedCells);
    SumSizesNonNegative(cells, sortedCells);
    var pointMap := BuildPointMap(sortedPoints);
    forall k | 0 <= k < |sortedCells|
      ensures Elems(cells[sortedCells[k]]) <= pointMap.Keys
    {
      CellPointsIn(cells, sortedCells, k);
    }
    offsets, conn, types := GenerateOutputCells(cells, cellTypes, sortedCells, pointMap, global.connectivitySize);
    OffsetsRecoverCounts(Sizes(cells, sortedCells));
    forall k | 0 <= k < |sortedCells|
      ensures CellRenumbered(conn, offsets[k], cells[sortedCells[k]], sortedPoints)
    {
      CopiedRenumbered(conn, offsets[k], cells[sortedCells[k]], pointMap, sortedPoints);
    }
  }
}
