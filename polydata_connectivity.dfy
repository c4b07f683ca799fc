// The region labelling of vtkPolyDataConnectivityFilter.  It walks the same
// cell/point incidence as vtkConnectivityFilter with the same criterion and
// bookkeeping, with two differences: the cells around a point are pushed
// onto the next wave only when the point is reached for the first time, and
// there is no per-cell region array.  The criterion, the closure and the
// counting lemmas are those of module Connectivity.
module PolyConnectivity {
  import opened Common
  import opened Connectivity

  /**
   * VisitedPointIds->InsertUniqueId: the id is appended unless it is
   * already present, so the list never holds an id twice.
   */
  method InsertUnique(ids: seq<nat>, id: nat) returns (r: seq<nat>)
    requires Distinct(ids)
    ensures Distinct(r) && forall x :: x in r <==> x in ids || x == id
    ensures id in ids ==> r == ids
    ensures id !in ids ==> r == ids + [id]
  {
    var i := 0;
    while i < |ids|
      invariant 0 <= i <= |ids| && id !in ids[..i]
    {
      if ids[i] == id {
        return ids;
      }
      assert ids[..i + 1] == ids[..i] + [ids[i]];
      i := i + 1;
    }
    assert ids[..i] == ids;
    r := ids + [id];
  }

  ghost predicate Distinct(s: seq<nat>)
  {
    forall i, j :: 0 <= i < j < |s| ==> s[i] != s[j]
  }

  /**
   * MarkVisitedPointIds: the points of the output cells, in order of first
   * appearance, each once.
   */
  method CollectVisitedPoints(mesh: Mesh, cells: seq<nat>) returns (ids: seq<nat>)
    requires forall i :: 0 <= i < |cells| ==> cells[i] < |mesh.cellPoints|
    ensures Distinct(ids)
    ensures forall p :: p in ids <==> exists i :: 0 <= i < |cells| && p in mesh.cellPoints[cells[i]]
  {
    ids := [];
    var i := 0;
    while i < |cells|
      invariant 0 <= i <= |cells| && Distinct(ids)
      invariant forall p :: p in ids <==> exists i' :: 0 <= i' < i && p in mesh.cellPoints[cells[i']]
    {
      var pts := mesh.cellPoints[cells[i]];
      var j := 0;
      while j < |pts|
        invariant 0 <= j <= |pts| && Distinct(ids)
        invariant forall p :: p in ids <==> (exists i' :: 0 <= i' < i && p in mesh.cellPoints[cells[i']]) || p in pts[..j]
      {
        assert pts[..j + 1] == pts[..j] + [pts[j]];
        ids := InsertUnique(ids, pts[j]);
        j := j + 1;
      }
      assert pts[..j] == pts;
      i := i + 1;
    }
  }

  /** The labelling state of vtkPolyDataConnectivityFilter while RequestData runs. */
  class PolyConnectivityFilter {
    /** Visited: the region of each cell, -1 while unvisited. */
    var visited: array<int>
    /** PointMap: the output id of each point, -1 while unreached. */
    var pointMap: array<int>
    /** NewScalars: the region of each output point. */
    var newScalars: array<int>
    var wave: seq<nat>
    var wave2: seq<nat>
    var regionNumber: nat
    var pointNumber: nat
    var numCellsInRegion: nat
    var regionSizes: seq<int>
    /** The points in the order they received output ids. */
    ghost var order: seq<nat>

    ghost predicate Valid(mesh: Mesh, crit: Criterion)
      reads this, visited, pointMap, newScalars
    {
      mesh.Valid() && CriterionFits(mesh, crit)
      && visited.Length == mesh.NumCells()
      && pointMap.Length == mesh.NumPoints() && newScalars.Length == mesh.NumPoints()
      && visited != pointMap && visited != newScalars && pointMap != newScalars
      && PointMapInv(pointMap[..], order) && pointNumber == |order| && pointNumber <= newScalars.Length
      && (forall c :: 0 <= c < visited.Length ==> -1 <= visited[c] <= regionNumber)
      && (forall i :: 0 <= i < pointNumber ==> 0 <= newScalars[i] <= regionNumber)
      && (forall k :: 0 <= k < |wave| ==> wave[k] < mesh.NumCells())
      && (forall k :: 0 <= k < |wave2| ==> wave2[k] < mesh.NumCells())
    }

    /** The inner loop over the cells using point p: the accepted ones are pushed onto Wave2. */
    method EnqueueNeighbors(mesh: Mesh, crit: Criterion, p: nat)
      requires mesh.Valid() && CriterionFits(mesh, crit) && p < mesh.NumPoints()
      modifies this`wave2
      ensures wave2 == old(wave2) + AcceptedOf(mesh, crit, mesh.pointCells[p])
    {
      var accepted := AcceptedCells(mesh, crit, mesh.pointCells[p]);
      wave2 := wave2 + accepted;
    }

    ghost function Snap(): Snapshot
      reads this, visited, pointMap, newScalars
    {
      Snapshot(visited[..], pointMap[..], newScalars[..], order, numCellsInRegion)
    }

    /**
     * The body of the wave loop for an unvisited cell: it takes the current
     * region number, every point gets an output id if it has none, and the
     * accepted cells around every one of its points join the next wave.
     */
    method MarkCell(mesh: Mesh, crit: Criterion, c: nat, ghost rest: seq<nat>)
      requires Valid(mesh, crit) && CellsMapped(mesh, visited[..], pointMap[..])
      requires c < mesh.NumCells() && visited[c] < 0
      requires Closed(mesh, crit, visited[..], pointMap[..], [c] + rest + wave2)
      modifies this`numCellsInRegion, this`pointNumber, this`order, this`wave2, visited, pointMap, newScalars
      ensures Valid(mesh, crit) && CellsMapped(mesh, visited[..], pointMap[..])
      ensures visited[..] == old(visited[..])[c := regionNumber]
      ensures numCellsInRegion == old(numCellsInRegion) + 1
      ensures Closed(mesh, crit, visited[..], pointMap[..], rest + wave2)
      ensures forall q :: 0 <= q < pointMap.Length && old(pointMap[q]) >= 0 ==> pointMap[q] == old(pointMap[q])
      ensures old(order) <= order
      ensures forall i :: 0 <= i < old(pointNumber) ==> newScalars[i] == old(newScalars[i])
      ensures forall i :: old(pointNumber) <= i < pointNumber ==> newScalars[i] == regionNumber
    {
      Label(mesh, crit, c, rest);
      var pts := mesh.cellPoints[c];
      var j := 0;
      while j < |pts|
        invariant 0 <= j <= |pts|
        invariant Valid(mesh, crit)
        invariant visited[..] == old(visited[..])[c := regionNumber]
        invariant numCellsInRegion == old(numCellsInRegion) + 1
        invariant forall j' :: 0 <= j' < j ==> pointMap[pts[j']] >= 0
        invariant forall q :: 0 <= q < pointMap.Length && old(pointMap[q]) >= 0 ==> pointMap[q] == old(pointMap[q])
        invariant Closed(mesh, crit, visited[..], pointMap[..], rest + wave2)
        invariant old(order) <= order
        invariant forall i :: 0 <= i < old(pointNumber) ==> newScalars[i] == old(newScalars[i])
        invariant forall i :: old(pointNumber) <= i < pointNumber ==> newScalars[i] == regionNumber
      {
        ReachPoint(mesh, crit, pts[j], rest);
        j := j + 1;
      }
      forall c', j' | 0 <= c' < visited.Length && 0 <= j' < |mesh.cellPoints[c']| && visited[c'] >= 0
        ensures pointMap[mesh.cellPoints[c'][j']] >= 0
      {
        if c' != c {
          assert old(visited[c']) >= 0;
          assert old(pointMap[mesh.cellPoints[c'][j']]) >= 0;
        }
      }
    }

    /** MarkCell as a step of the traversal. */
    method MarkStep(mesh: Mesh, crit: Criterion, c: nat, ghost rest: seq<nat>)
      requires Valid(mesh, crit) && CellsMapped(mesh, visited[..], pointMap[..])
      requires c < mesh.NumCells() && visited[c] < 0
      requires Closed(mesh, crit, visited[..], pointMap[..], [c] + rest + wave2)
      modifies this`numCellsInRegion, this`pointNumber, this`order, this`wave2, visited, pointMap, newScalars
      ensures Valid(mesh, crit) && CellsMapped(mesh, visited[..], pointMap[..])
      ensures visited[c] >= 0 && numCellsInRegion > old(numCellsInRegion)
      ensures forall c' :: 0 <= c' < visited.Length && old(visited[c']) >= 0 ==> visited[c'] >= 0
      ensures Closed(mesh, crit, visited[..], pointMap[..], rest + wave2)
      ensures Grew(old(Snap()), Snap(), regionNumber)
    {
      ghost var v0 := visited[..];
      MarkCell(mesh, crit, c, rest);
      CountUpdate(v0, c, regionNumber, regionNumber);
      CountUpdate(v0, c, regionNumber, -1);
    }

    /** One entry of the wave: an unvisited cell is marked, a visited one skipped. */
    method Consider(mesh: Mesh, crit: Criterion, cellId: nat, ghost rest: seq<nat>)
      requires Valid(mesh, crit) && CellsMapped(mesh, visited[..], pointMap[..])
      requires cellId < mesh.NumCells()
      requires Closed(mesh, crit, visited[..], pointMap[..], [cellId] + rest + wave2)
      modifies this`numCellsInRegion, this`pointNumber, this`order, this`wave2, visited, pointMap, newScalars
      ensures Valid(mesh, crit) && CellsMapped(mesh, visited[..], pointMap[..])
      ensures visited[cellId] >= 0
      ensures forall c :: 0 <= c < visited.Length && old(visited[c]) >= 0 ==> visited[c] >= 0
      ensures Closed(mesh, crit, visited[..], pointMap[..], rest + wave2)
      ensures Grew(old(Snap()), Snap(), regionNumber)
      ensures numCellsInRegion == old(numCellsInRegion) ==> wave2 == old(wave2)
    {
      if visited[cellId] < 0 {
        MarkStep(mesh, crit, cellId, rest);
      } else {
        assert [cellId] + rest + wave2 == [cellId] + (rest + wave2);
        ClosedDrop(mesh, crit, visited[..], pointMap[..], cellId, rest + wave2);
        GrewRefl(Snap(), regionNumber);
      }
    }

    /**
     * TraverseAndMark: waves are processed until one is empty; each
     * unvisited cell of a wave is marked with the current region, visited
     * cells are skipped.  Afterwards every seed of the first wave is
     * visited, only unvisited cells changed (to the current region),
     * NumCellsInRegion grew by the number of them, and the visited cells are
     * closed under the connectivity criterion.
     */
    method TraverseAndMark(mesh: Mesh, crit: Criterion)
      requires Valid(mesh, crit) && CellsMapped(mesh, visited[..], pointMap[..]) && wave2 == []
      requires Closed(mesh, crit, visited[..], pointMap[..], wave)
      modifies this`wave, this`numCellsInRegion, this`pointNumber, this`order, this`wave2, visited, pointMap, newScalars
      ensures Valid(mesh, crit) && CellsMapped(mesh, visited[..], pointMap[..])
      ensures wave == [] && wave2 == []
      ensures Closed(mesh, crit, visited[..], pointMap[..], [])
      ensures AllVisited(visited[..], old(wave))
      ensures Grew(old(Snap()), Snap(), regionNumber)
    {
      ghost var seeds := wave;
      GrewRefl(Snap(), regionNumber);
      while |wave| > 0
        invariant Valid(mesh, crit) && CellsMapped(mesh, visited[..], pointMap[..]) && wave2 == []
        invariant Closed(mesh, crit, visited[..], pointMap[..], wave)
        invariant wave == seeds || AllVisited(visited[..], seeds)
        invariant Grew(old(Snap()), Snap(), regionNumber)
        decreases Count(visited[..], -1), |wave|
      {
        ghost var before := Snap();
        ghost var w0 := wave;
        ProcessWave(mesh, crit);
        GrewTrans(old(Snap()), before, Snap(), regionNumber);
        if w0 != seeds {
          AllVisitedGrew(before, Snap(), regionNumber, seeds);
        }
      }
    }

    /**
     * One pass of the wave loop: every cell of Wave is considered in turn,
     * then Wave2 becomes the next wave.  Either some cell was marked (fewer
     * unvisited cells remain) or the next wave is empty.
     */
    method ProcessWave(mesh: Mesh, crit: Criterion)
      requires Valid(mesh, crit) && CellsMapped(mesh, visited[..], pointMap[..]) && wave2 == [] && |wave| > 0
      requires Closed(mesh, crit, visited[..], pointMap[..], wave)
      modifies this`wave, this`numCellsInRegion, this`pointNumber, this`order, this`wave2, visited, pointMap, newScalars
      ensures Valid(mesh, crit) && CellsMapped(mesh, visited[..], pointMap[..]) && wave2 == []
      ensures Closed(mesh, crit, visited[..], pointMap[..], wave)
      ensures AllVisited(visited[..], old(wave))
      ensures Grew(old(Snap()), Snap(), regionNumber)
      ensures numCellsInRegion > old(numCellsInRegion) || wave == []
    {
      ConsiderAll(mesh, crit);
      wave := wave2;
      wave2 := [];
    }

    /** The loop over the cells of Wave; the cells they lead to gather in Wave2. */
    method ConsiderAll(mesh: Mesh, crit: Criterion)
      requires Valid(mesh, crit) && CellsMapped(mesh, visited[..], pointMap[..]) && wave2 == [] && |wave| > 0
      requires Closed(mesh, crit, visited[..], pointMap[..], wave)
      modifies this`numCellsInRegion, this`pointNumber, this`order, this`wave2, visited, pointMap, newScalars
      ensures Valid(mesh, crit) && CellsMapped(mesh, visited[..], pointMap[..])
      ensures Closed(mesh, crit, visited[..], pointMap[..], wave2)
      ensures AllVisited(visited[..], wave)
      ensures Grew(old(Snap()), Snap(), regionNumber)
      ensures numCellsInRegion > old(numCellsInRegion) || wave2 == []
    {
      var numIds := |wave|;
      var i := 0;
      ghost var s0 := Snap();
      ghost var todo, done := wave, [];
      GrewRefl(s0, regionNumber);
      assert todo + wave2 == wave;
      while i < numIds
        invariant 0 <= i <= numIds && todo == wave[i..] && done == wave[..i]
        invariant Valid(mesh, crit) && CellsMapped(mesh, visited[..], pointMap[..])
        invariant Closed(mesh, crit, visited[..], pointMap[..], todo + wave2)
        invariant AllVisited(visited[..], done)
        invariant Grew(s0, Snap(), regionNumber)
        invariant numCellsInRegion == s0.numCellsInRegion ==> wave2 == []
      {
        assert wave[i..][1..] == wave[i + 1..] && wave[..i + 1] == wave[..i] + [wave[i]];
        done := Visit(mesh, crit, wave[i], todo, done, s0);
        todo := todo[1..];
        i := i + 1;
      }
      assert todo + wave2 == wave2;
      assert done == wave;
    }

    /** Entry i of wave w is considered, keeping the facts the wave loop needs. */
    method Visit(mesh: Mesh, crit: Criterion, c: nat, ghost todo: seq<nat>, ghost done: seq<nat>, ghost s0: Snapshot)
      returns (ghost done': seq<nat>)
      requires Valid(mesh, crit) && CellsMapped(mesh, visited[..], pointMap[..])
      requires |todo| > 0 && todo[0] == c && c < mesh.NumCells()
      requires Closed(mesh, crit, visited[..], pointMap[..], todo + wave2)
      requires AllVisited(visited[..], done)
      requires Grew(s0, Snap(), regionNumber)
      requires numCellsInRegion == s0.numCellsInRegion ==> wave2 == []
      modifies this`numCellsInRegion, this`pointNumber, this`order, this`wave2, visited, pointMap, newScalars
      ensures done' == done + [c]
      ensures Valid(mesh, crit) && CellsMapped(mesh, visited[..], pointMap[..])
      ensures Closed(mesh, crit, visited[..], pointMap[..], todo[1..] + wave2)
      ensures AllVisited(visited[..], done')
      ensures Grew(s0, Snap(), regionNumber)
      ensures numCellsInRegion == s0.numCellsInRegion ==> wave2 == []
    {
      ghost var before := Snap();
      assert todo + wave2 == [c] + todo[1..] + wave2;
      Consider(mesh, crit, c, todo[1..]);
      GrewTrans(s0, before, Snap(), regionNumber);
      done' := done + [c];
    }

    /** The cell itself takes the region number, and NumCellsInRegion grows. */
    method Label(mesh: Mesh, crit: Criterion, c: nat, ghost rest: seq<nat>)
      requires Valid(mesh, crit) && c < mesh.NumCells() && visited[c] < 0
      requires Closed(mesh, crit, visited[..], pointMap[..], [c] + rest + wave2)
      modifies this`numCellsInRegion, visited
      ensures Valid(mesh, crit)
      ensures visited[..] == old(visited[..])[c := regionNumber]
      ensures numCellsInRegion == old(numCellsInRegion) + 1
      ensures Closed(mesh, crit, visited[..], pointMap[..], rest + wave2)
    {
      ClosedAfterMark(mesh, crit, visited[..], pointMap[..], c, regionNumber, rest + wave2);
      assert [c] + rest + wave2 == [c] + (rest + wave2);
      visited[c] := regionNumber;
      numCellsInRegion := numCellsInRegion + 1;
      assert visited[..] == old(visited[..])[c := regionNumber];
    }

    /**
     * One point of a newly marked cell: only a point reached for the first
     * time takes the next output id, records the region and pushes the
     * accepted cells around it onto Wave2; a point already mapped changes
     * nothing.
     */
    method ReachPoint(mesh: Mesh, crit: Criterion, p: nat, ghost rest: seq<nat>)
      requires Valid(mesh, crit) && p < mesh.NumPoints()
      requires Closed(mesh, crit, visited[..], pointMap[..], rest + wave2)
      modifies this`wave2, this`pointNumber, this`order, pointMap, newScalars
      ensures Valid(mesh, crit)
      ensures pointMap[p] >= 0
      ensures forall q :: 0 <= q < pointMap.Length && old(pointMap[q]) >= 0 ==> pointMap[q] == old(pointMap[q])
      ensures Closed(mesh, crit, visited[..], pointMap[..], rest + wave2)
      ensures old(order) <= order
      ensures forall i :: 0 <= i < old(pointNumber) ==> newScalars[i] == old(newScalars[i])
      ensures forall i :: old(pointNumber) <= i < pointNumber ==> newScalars[i] == regionNumber
      ensures old(pointMap[p]) >= 0 ==> wave2 == old(wave2) && pointNumber == old(pointNumber)
      ensures old(pointMap[p]) < 0 ==> wave2 == old(wave2) + AcceptedOf(mesh, crit, mesh.pointCells[p])
    {
      if pointMap[p] < 0 {
        ghost var pm0 := pointMap[..];
        ghost var pending0 := rest + wave2;
        NumberPoint(mesh, crit, p);
        EnqueueNeighbors(mesh, crit, p);
        ClosedAfterReach(mesh, crit, visited[..], pm0, pointMap[..], pending0, rest + wave2, p);
      }
    }

    /** A point reached for the first time takes the next output id and records the current region. */
    method NumberPoint(mesh: Mesh, crit: Criterion, p: nat)
      requires Valid(mesh, crit) && p < mesh.NumPoints() && pointMap[p] < 0
      modifies this`pointNumber, this`order, pointMap, newScalars
      ensures Valid(mesh, crit)
      ensures pointMap[p] == old(pointNumber) && pointNumber == old(pointNumber) + 1
      ensures forall q :: 0 <= q < pointMap.Length && old(pointMap[q]) >= 0 ==> pointMap[q] == old(pointMap[q])
      ensures forall q :: 0 <= q < pointMap.Length && pointMap[q] >= 0 ==> old(pointMap[q]) >= 0 || q == p
      ensures order == old(order) + [p]
      ensures forall i :: 0 <= i < old(pointNumber) ==> newScalars[i] == old(newScalars[i])
      ensures newScalars[old(pointNumber)] == regionNumber
    {
      PointMapRoom(pointMap[..], order, p);
      PointMapExtend(pointMap[..], order, p);
      pointMap[p] := pointNumber;
      order := order + [p];
      newScalars[pointNumber] := regionNumber;
      pointNumber := pointNumber + 1;
    }


    /**
     * The initialisation of RequestData: Visited and PointMap start at -1,
     * no region and no output point exist yet, and both waves are empty.
     */
    constructor(mesh: Mesh, crit: Criterion)
      requires mesh.Valid() && CriterionFits(mesh, crit)
      ensures Valid(mesh, crit) && Fresh()
      ensures fresh(visited) && fresh(pointMap) && fresh(newScalars)
    {
      visited := new int[mesh.NumCells()](_ => -1);
      pointMap := new int[mesh.NumPoints()](_ => -1);
      newScalars := new int[mesh.NumPoints()](_ => 0);
      wave, wave2 := [], [];
      regionNumber, pointNumber, numCellsInRegion := 0, 0, 0;
      regionSizes := [];
      order := [];
    }

    /** Nothing labelled yet. */
    ghost predicate Fresh()
      reads this, visited, pointMap
    {
      (forall c :: 0 <= c < visited.Length ==> visited[c] == -1)
      && (forall p :: 0 <= p < pointMap.Length ==> pointMap[p] == -1)
      && order == [] && regionNumber == 0 && regionSizes == [] && wave == [] && wave2 == []
    }

    /** The labelling before and between regions, with the region bookkeeping. */
    ghost predicate Labelled(mesh: Mesh, crit: Criterion)
      reads this, visited, pointMap, newScalars
    {
      Valid(mesh, crit) && CellsMapped(mesh, visited[..], pointMap[..])
      && Closed(mesh, crit, visited[..], pointMap[..], [])
      && wave == [] && wave2 == [] && |regionSizes| == regionNumber
      && SizesMatch(visited[..], regionSizes) && Separated(mesh, crit, visited[..])
    }

    lemma FreshLabelled(mesh: Mesh, crit: Criterion)
      requires Valid(mesh, crit) && Fresh()
      ensures Labelled(mesh, crit)
    {
      CountVisitedZero(visited[..]);
    }

    /**
     * One iteration of the region loop of RequestData for an unvisited cell:
     * NumCellsInRegion restarts at 0, the cell seeds a traversal, and its
     * count is recorded as the size of the new region.
     */
    method LabelRegion(mesh: Mesh, crit: Criterion, cellId: nat)
      requires Labelled(mesh, crit) && cellId < mesh.NumCells() && visited[cellId] < 0
      modifies this`wave, this`numCellsInRegion, this`pointNumber, this`order, this`wave2
      modifies this`regionNumber, this`regionSizes, visited, pointMap, newScalars
      ensures Labelled(mesh, crit) && visited[cellId] >= 0
      ensures regionNumber == old(regionNumber) + 1
      ensures regionSizes == old(regionSizes) + [numCellsInRegion]
      ensures forall c :: 0 <= c < visited.Length && old(visited[c]) >= 0 ==> visited[c] == old(visited[c])
    {
      StartRegion(mesh, crit, cellId);
      GrowRegion(mesh, crit, cellId);
      FinishRegion(mesh, crit);
    }

    /** The traversal from the seed cell, with what it means for the region bookkeeping. */
    method GrowRegion(mesh: Mesh, crit: Criterion, cellId: nat)
      requires Valid(mesh, crit) && CellsMapped(mesh, visited[..], pointMap[..]) && wave2 == []
      requires Closed(mesh, crit, visited[..], pointMap[..], wave) && wave == [cellId] && numCellsInRegion == 0
      requires |regionSizes| == regionNumber && SizesMatch(visited[..], regionSizes) && Separated(mesh, crit, visited[..])
      requires cellId < mesh.NumCells() && visited[cellId] < 0
      modifies this`wave, this`numCellsInRegion, this`pointNumber, this`order, this`wave2, visited, pointMap, newScalars
      ensures Valid(mesh, crit) && CellsMapped(mesh, visited[..], pointMap[..])
      ensures Closed(mesh, crit, visited[..], pointMap[..], []) && wave == [] && wave2 == []
      ensures |regionSizes| == regionNumber && Separated(mesh, crit, visited[..])
      ensures SizesMatch(visited[..], regionSizes + [numCellsInRegion])
      ensures visited[cellId] >= 0
      ensures forall c :: 0 <= c < visited.Length && old(visited[c]) >= 0 ==> visited[c] == old(visited[c])
    {
      ghost var a := Snap();
      TraverseAndMark(mesh, crit);
      assert AllVisited(visited[..], [cellId]);
      assert [cellId][0] == cellId;
      ghost var b := Snap();
      assert b.visited[cellId] >= 0;
      forall c | 0 <= c < visited.Length && a.visited[c] >= 0 ensures visited[c] == a.visited[c] {
        assert b.visited[c] == a.visited[c];
      }
      SizesAfterRegion(a, b, regionSizes, cellId);
      SeparatedAfterRegion(mesh, crit, a, b, regionNumber);
    }

    /** The start of a region: NumCellsInRegion restarts at 0 and the seed cell forms the wave. */
    method StartRegion(mesh: Mesh, crit: Criterion, cellId: nat)
      requires Labelled(mesh, crit) && cellId < mesh.NumCells()
      modifies this`numCellsInRegion, this`wave
      ensures Valid(mesh, crit) && CellsMapped(mesh, visited[..], pointMap[..]) && wave2 == []
      ensures Closed(mesh, crit, visited[..], pointMap[..], wave) && wave == [cellId] && numCellsInRegion == 0
      ensures |regionSizes| == regionNumber && SizesMatch(visited[..], regionSizes) && Separated(mesh, crit, visited[..])
    {
      numCellsInRegion := 0;
      wave := [cellId];
    }

    /** The end of a region: its count is appended to RegionSizes and the region number advances. */
    method FinishRegion(mesh: Mesh, crit: Criterion)
      requires Valid(mesh, crit) && CellsMapped(mesh, visited[..], pointMap[..])
      requires Closed(mesh, crit, visited[..], pointMap[..], []) && wave == [] && wave2 == []
      requires |regionSizes| == regionNumber && Separated(mesh, crit, visited[..])
      requires SizesMatch(visited[..], regionSizes + [numCellsInRegion])
      modifies this`regionNumber, this`regionSizes
      ensures Labelled(mesh, crit)
      ensures regionNumber == old(regionNumber) + 1
      ensures regionSizes == old(regionSizes) + [numCellsInRegion]
    {
      regionSizes := regionSizes + [numCellsInRegion];
      regionNumber := regionNumber + 1;
    }

    /**
     * The region loop of RequestData (all modes but the seeded ones): every
     * unvisited cell, in id order, starts a new region.  Afterwards every
     * cell is visited, RegionSizes holds each region's cell count and sums
     * to the number of cells, and the largest region is the first one with
     * the maximal count.
     */
    method LabelAllRegions(mesh: Mesh, crit: Criterion) returns (largestRegionId: nat)
      requires Valid(mesh, crit) && Fresh()
      modifies this`wave, this`numCellsInRegion, this`pointNumber, this`order, this`wave2
      modifies this`regionNumber, this`regionSizes, visited, pointMap, newScalars
      ensures Labelled(mesh, crit)
      ensures forall c :: 0 <= c < visited.Length ==> 0 <= visited[c] < regionNumber
      ensures Sum(regionSizes) == mesh.NumCells()
      ensures regionNumber == 0 ==> largestRegionId == 0
      ensures regionNumber > 0 ==> largestRegionId < regionNumber
      ensures forall r :: 0 <= r < regionNumber ==> regionSizes[r] <= regionSizes[largestRegionId]
      ensures forall r :: 0 <= r < largestRegionId ==> regionSizes[r] < regionSizes[largestRegionId]
    {
      FreshLabelled(mesh, crit);
      var maxCellsInRegion := 0;
      largestRegionId := 0;
      var cellId := 0;
      while cellId < mesh.NumCells()
        invariant 0 <= cellId <= mesh.NumCells() && Labelled(mesh, crit)
        invariant forall c :: 0 <= c < cellId ==> visited[c] >= 0
        invariant regionNumber == 0 ==> largestRegionId == 0 && maxCellsInRegion == 0
        invariant regionNumber > 0 ==> largestRegionId < regionNumber && maxCellsInRegion == regionSizes[largestRegionId]
        invariant forall r :: 0 <= r < regionNumber ==> regionSizes[r] <= maxCellsInRegion
        invariant forall r :: 0 <= r < largestRegionId ==> regionSizes[r] < maxCellsInRegion
      {
        if visited[cellId] < 0 {
          maxCellsInRegion, largestRegionId := LabelAndCompare(mesh, crit, cellId, maxCellsInRegion, largestRegionId);
        }
        cellId := cellId + 1;
      }
      CountVisitedAll(visited[..]);
    }

    /**
     * One new region of the region loop, followed by the comparison of its
     * size with the largest one so far (the first maximum wins).
     */
    method LabelAndCompare(mesh: Mesh, crit: Criterion, cellId: nat, maxCells: int, largest: nat)
      returns (maxCells': int, largest': nat)
      requires Labelled(mesh, crit) && cellId < mesh.NumCells() && visited[cellId] < 0
      requires regionNumber == 0 ==> largest == 0 && maxCells == 0
      requires regionNumber > 0 ==> largest < regionNumber && maxCells == regionSizes[largest]
      requires forall r :: 0 <= r < regionNumber ==> regionSizes[r] <= maxCells
      requires forall r :: 0 <= r < largest ==> regionSizes[r] < maxCells
      modifies this`wave, this`numCellsInRegion, this`pointNumber, this`order, this`wave2
      modifies this`regionNumber, this`regionSizes, visited, pointMap, newScalars
      ensures Labelled(mesh, crit) && visited[cellId] >= 0
      ensures forall c :: 0 <= c < visited.Length && old(visited[c]) >= 0 ==> visited[c] == old(visited[c])
      ensures regionNumber > 0 && largest' < regionNumber && maxCells' == regionSizes[largest']
      ensures forall r :: 0 <= r < regionNumber ==> regionSizes[r] <= maxCells'
      ensures forall r :: 0 <= r < largest' ==> regionSizes[r] < maxCells'
    {
      ghost var sizes0 := regionSizes;
      LabelRegion(mesh, crit, cellId);
      var region := regionNumber - 1;
      assert regionSizes == sizes0 + [numCellsInRegion] && |sizes0| == region;
      maxCells', largest' := maxCells, largest;
      if numCellsInRegion > maxCells {
        maxCells' := numCellsInRegion;
        largest' := region;
      }
    }

    /**
     * The seeded branch of RequestData: all seeds form one wave, the
     * traversal marks everything reachable from them as region 0, and
     * RegionSizes receives that one count.
     */
    method LabelSeeded(mesh: Mesh, crit: Criterion, seedWave: seq<nat>)
      requires Valid(mesh, crit) && Fresh()
      requires forall k :: 0 <= k < |seedWave| ==> seedWave[k] < mesh.NumCells()
      modifies this`wave, this`numCellsInRegion, this`pointNumber, this`order, this`wave2
      modifies this`regionSizes, visited, pointMap, newScalars
      ensures Valid(mesh, crit) && CellsMapped(mesh, visited[..], pointMap[..])
      ensures Closed(mesh, crit, visited[..], pointMap[..], [])
      ensures AllVisited(visited[..], seedWave)
      ensures forall c :: 0 <= c < visited.Length ==> visited[c] == -1 || visited[c] == 0
      ensures regionNumber == 0 && regionSizes == [CountVisited(visited[..])]
      ensures SizesMatch(visited[..], regionSizes) || seedWave == []
    {
      StartSeeded(mesh, crit, seedWave);
      GrowSeeded(mesh, crit, seedWave);
      regionSizes := [numCellsInRegion];
    }

    /** The traversal from all seeds at once, which marks region 0 only. */
    method GrowSeeded(mesh: Mesh, crit: Criterion, seedWave: seq<nat>)
      requires Valid(mesh, crit) && CellsMapped(mesh, visited[..], pointMap[..]) && wave2 == []
      requires Closed(mesh, crit, visited[..], pointMap[..], wave) && wave == seedWave && numCellsInRegion == 0
      requires forall c :: 0 <= c < visited.Length ==> visited[c] == -1
      requires regionNumber == 0
      modifies this`wave, this`numCellsInRegion, this`pointNumber, this`order, this`wave2, visited, pointMap, newScalars
      ensures Valid(mesh, crit) && CellsMapped(mesh, visited[..], pointMap[..])
      ensures Closed(mesh, crit, visited[..], pointMap[..], [])
      ensures AllVisited(visited[..], seedWave)
      ensures forall c :: 0 <= c < visited.Length ==> visited[c] == -1 || visited[c] == 0
      ensures regionNumber == 0 && numCellsInRegion == CountVisited(visited[..])
      ensures SizesMatch(visited[..], [numCellsInRegion]) || seedWave == []
    {
      ghost var a := Snap();
      TraverseAndMark(mesh, crit);
      SeededFacts(a, Snap(), seedWave);
    }

    /** The seeded wave replaces the empty one, and NumCellsInRegion restarts at 0. */
    method StartSeeded(mesh: Mesh, crit: Criterion, seedWave: seq<nat>)
      requires Valid(mesh, crit) && Fresh()
      requires forall k :: 0 <= k < |seedWave| ==> seedWave[k] < mesh.NumCells()
      modifies this`wave, this`numCellsInRegion
      ensures Valid(mesh, crit) && CellsMapped(mesh, visited[..], pointMap[..]) && wave2 == []
      ensures Closed(mesh, crit, visited[..], pointMap[..], wave) && wave == seedWave && numCellsInRegion == 0
      ensures forall c :: 0 <= c < visited.Length ==> visited[c] == -1
      ensures CountVisited(visited[..]) == 0 && SizesMatch(visited[..], []) && regionNumber == 0
    {
      CountVisitedZero(visited[..]);
      numCellsInRegion := 0;
      wave := seedWave;
    }

    /** GetNumberOfExtractedRegions: one more than the last RegionSizes index. */
    function NumberOfExtractedRegions(): (n: int)
      reads this
      ensures n == |regionSizes|
    {
      |regionSizes|
    }

    /**
     * While the region sizes match the visit marks, the number of extracted
     * regions is the number of region labels in use: every label below it
     * marks some cell, and every mark is below it.
     */
    lemma ExtractedRegionsAreLabels()
      requires SizesMatch(visited[..], regionSizes)
      ensures forall r :: 0 <= r < NumberOfExtractedRegions() ==> r in visited[..]
      ensures forall c :: 0 <= c < visited.Length && visited[c] >= 0 ==> visited[c] < NumberOfExtractedRegions()
    {
      RegionLabelsInUse(visited[..], regionSizes);
    }

  }
}
