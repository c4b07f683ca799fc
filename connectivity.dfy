// The region labelling of vtkConnectivityFilter: cells are visited in waves
// across shared points; every cell reached from a seed gets the current
// region number, every point of a reached cell gets the next output point id,
// and an optional scalar criterion decides which neighbouring cells a wave may
// enter.  The dataset is abstracted to its two incidence lists: the points of
// each cell and the cells using each point (the "links").
module Connectivity {
  import opened Common

  /** VTK_DOUBLE_MAX, the start of every (min, max) scan. */
  const DoubleMax: real := 1.0e299

  /** The topology the filter walks: point ids of each cell and cell ids using each point. */
  datatype Mesh = Mesh(cellPoints: seq<seq<nat>>, pointCells: seq<seq<nat>>)
  {
    function NumCells(): nat { |cellPoints| }
    function NumPoints(): nat { |pointCells| }

    /** Every id stored in either list names an existing cell or point. */
    ghost predicate Valid()
    {
      (forall c, j :: 0 <= c < |cellPoints| && 0 <= j < |cellPoints[c]| ==> cellPoints[c][j] < |pointCells|)
      && (forall p, k :: 0 <= p < |pointCells| && 0 <= k < |pointCells[p]| ==> pointCells[p][k] < |cellPoints|)
    }

    /** The links are those of the cells: cell c uses point p iff c is listed at p. */
    ghost predicate LinksConsistent()
    {
      forall c, p :: 0 <= c < |cellPoints| && 0 <= p < |pointCells| ==> (p in cellPoints[c] <==> c in pointCells[p])
    }
  }

  // ---- The scalar connectivity criterion ----------------------------------

  /**
   * Which neighbouring cells a wave may enter: all of them, or those whose
   * point-scalar range (first component) overlaps [lo, hi], or, with
   * `full` (vtkPolyDataConnectivityFilter's FullScalarConnectivity), lies
   * inside it.
   */
  datatype Criterion = Geometric | Scalar(scalars: seq<real>, lo: real, hi: real, full: bool)

  ghost predicate CriterionFits(mesh: Mesh, crit: Criterion)
  {
    crit.Scalar? ==> |crit.scalars| == mesh.NumPoints()
  }

  /**
   * The scalar setup of RequestData: scalars take part only when scalar
   * connectivity is on and the input has point scalars; a reversed range is
   * first collapsed onto its lower end.
   */
  function SetupCriterion(scalarConnectivity: bool, inScalars: Option<seq<real>>, lo: real, hi: real, full: bool): (crit: Criterion)
    ensures crit.Geometric? <==> !scalarConnectivity || inScalars.None?
    ensures crit.Scalar? ==> crit.scalars == inScalars.value && crit.full == full && crit.lo == lo
    ensures crit.Scalar? ==> crit.lo <= crit.hi && (lo <= hi ==> crit.hi == hi) && (hi < lo ==> crit.hi == lo)
  {
    if !scalarConnectivity || inScalars.None? then Geometric
    else Scalar(inScalars.value, lo, if hi < lo then lo else hi, full)
  }

  /** The values at a list of point ids: a cell's scalars, or its point ids under PointMap. */
  function Gather<T>(values: seq<T>, ids: seq<nat>): (vals: seq<T>)
    requires forall j :: 0 <= j < |ids| ==> ids[j] < |values|
    ensures |vals| == |ids| && forall j :: 0 <= j < |ids| ==> vals[j] == values[ids[j]]
  {
    seq(|ids|, j requires 0 <= j < |ids| => values[ids[j]])
  }

  /** The (min, max) scan over a cell's scalars, started from (VTK_DOUBLE_MAX, -VTK_DOUBLE_MAX). */
  function RangeOf(vals: seq<real>): (r: (real, real))
  {
    if |vals| == 0 then (DoubleMax, -DoubleMax)
    else
      var prev := RangeOf(vals[..|vals| - 1]);
      var s := vals[|vals| - 1];
      (if s < prev.0 then s else prev.0, if s > prev.1 then s else prev.1)
  }

  /** The scan bounds every value, and attains its bounds unless they are still the start values. */
  lemma {:induction false} RangeOfBounds(vals: seq<real>)
    ensures forall i :: 0 <= i < |vals| ==> RangeOf(vals).0 <= vals[i] <= RangeOf(vals).1
    ensures RangeOf(vals).0 <= DoubleMax && RangeOf(vals).1 >= -DoubleMax
    ensures RangeOf(vals).0 == DoubleMax || exists i :: 0 <= i < |vals| && vals[i] == RangeOf(vals).0
    ensures RangeOf(vals).1 == -DoubleMax || exists i :: 0 <= i < |vals| && vals[i] == RangeOf(vals).1
  {
    if |vals| > 0 {
      var front := vals[..|vals| - 1];
      RangeOfBounds(front);
      assert forall i :: 0 <= i < |front| ==> vals[i] == front[i];
    }
  }

  /** The criterion on a cell's range. */
  predicate RangeAccepted(r: (real, real), lo: real, hi: real, full: bool)
  {
    if full then r.0 >= lo && r.1 <= hi else r.1 >= lo && r.0 <= hi
  }

  /** Whether a wave may enter cell c. */
  predicate Accepts(mesh: Mesh, crit: Criterion, c: nat)
    requires mesh.Valid() && CriterionFits(mesh, crit) && c < mesh.NumCells()
  {
    crit.Geometric? || RangeAccepted(RangeOf(Gather(crit.scalars, mesh.cellPoints[c])), crit.lo, crit.hi, crit.full)
  }

  /**
   * For a cell with points whose scalars are within the VTK double range,
   * the overlap test holds iff some scalar reaches lo and some scalar is at
   * most hi, and the full test iff every scalar lies in [lo, hi].
   */
  lemma RangeAcceptedMeaning(vals: seq<real>, lo: real, hi: real)
    requires |vals| > 0
    requires forall i :: 0 <= i < |vals| ==> -DoubleMax <= vals[i] <= DoubleMax
    ensures RangeAccepted(RangeOf(vals), lo, hi, false) <==>
              (exists i :: 0 <= i < |vals| && vals[i] >= lo) && (exists i :: 0 <= i < |vals| && vals[i] <= hi)
    ensures RangeAccepted(RangeOf(vals), lo, hi, true) <==> forall i :: 0 <= i < |vals| ==> lo <= vals[i] <= hi
  {
    RangeOfBounds(vals);
    var r := RangeOf(vals);
    var lastIdx := |vals| - 1;
    assert r.0 <= vals[lastIdx] <= r.1;
    if r.0 == DoubleMax { assert vals[lastIdx] == DoubleMax; }
    if r.1 == -DoubleMax { assert vals[lastIdx] == -DoubleMax; }
  }

  /** The scalar range loop of TraverseAndMark / IsScalarConnected, over the cell's point ids. */
  method CellScalarRange(scalars: seq<real>, ids: seq<nat>) returns (lo: real, hi: real)
    requires forall j :: 0 <= j < |ids| ==> ids[j] < |scalars|
    ensures (lo, hi) == RangeOf(Gather(scalars, ids))
  {
    ghost var vals := Gather(scalars, ids);
    lo, hi := DoubleMax, -DoubleMax;
    var ii := 0;
    while ii < |ids|
      invariant 0 <= ii <= |ids|
      invariant (lo, hi) == RangeOf(vals[..ii])
    {
      var s := scalars[ids[ii]];
      assert vals[..ii + 1][..ii] == vals[..ii];
      if s < lo { lo := s; }
      if s > hi { hi := s; }
      ii := ii + 1;
    }
    assert vals[..|ids|] == vals;
  }

  /** The connectivity test for one neighbouring cell. */
  method IsConnected(mesh: Mesh, crit: Criterion, c: nat) returns (ok: bool)
    requires mesh.Valid() && CriterionFits(mesh, crit) && c < mesh.NumCells()
    ensures ok == Accepts(mesh, crit, c)
  {
    if crit.Geometric? {
      return true;
    }
    var lo, hi := CellScalarRange(crit.scalars, mesh.cellPoints[c]);
    ok := if crit.full then lo >= crit.lo && hi <= crit.hi else hi >= crit.lo && lo <= crit.hi;
  }

  /** The cells of a list that the criterion accepts, in list order (what one point pushes onto Wave2). */
  function AcceptedOf(mesh: Mesh, crit: Criterion, cells: seq<nat>): (r: seq<nat>)
    requires mesh.Valid() && CriterionFits(mesh, crit)
    requires forall k :: 0 <= k < |cells| ==> cells[k] < mesh.NumCells()
    ensures forall x :: x in r <==> x in cells && Accepts(mesh, crit, x)
    ensures forall k :: 0 <= k < |r| ==> r[k] < mesh.NumCells()
  {
    if |cells| == 0 then []
    else
      var prev := AcceptedOf(mesh, crit, cells[..|cells| - 1]);
      var x := cells[|cells| - 1];
      assert forall y :: y in cells <==> y in cells[..|cells| - 1] || y == x;
      if Accepts(mesh, crit, x) then prev + [x] else prev
  }

  /** One more cell of the list extends the accepted cells by that cell exactly when it is accepted. */
  lemma AcceptedOfNext(mesh: Mesh, crit: Criterion, cells: seq<nat>, k: nat)
    requires mesh.Valid() && CriterionFits(mesh, crit)
    requires forall j :: 0 <= j < |cells| ==> cells[j] < mesh.NumCells()
    requires k < |cells|
    ensures Accepts(mesh, crit, cells[k]) ==> AcceptedOf(mesh, crit, cells[..k + 1]) == AcceptedOf(mesh, crit, cells[..k]) + [cells[k]]
    ensures !Accepts(mesh, crit, cells[k]) ==> AcceptedOf(mesh, crit, cells[..k + 1]) == AcceptedOf(mesh, crit, cells[..k])
  {
    assert cells[..k + 1][..k] == cells[..k];
  }

  /** The loop over a cell list that keeps, in order, the cells the criterion accepts. */
  method AcceptedCells(mesh: Mesh, crit: Criterion, cells: seq<nat>) returns (r: seq<nat>)
    requires mesh.Valid() && CriterionFits(mesh, crit)
    requires forall j :: 0 <= j < |cells| ==> cells[j] < mesh.NumCells()
    ensures r == AcceptedOf(mesh, crit, cells)
  {
    r := [];
    var k := 0;
    while k < |cells|
      invariant 0 <= k <= |cells|
      invariant r == AcceptedOf(mesh, crit, cells[..k])
    {
      var ok := IsConnected(mesh, crit, cells[k]);
      AcceptedOfNext(mesh, crit, cells, k);
      if ok {
        r := r + [cells[k]];
      }
      k := k + 1;
    }
    assert cells[..|cells|] == cells;
  }

  // ---- Counting cells and the point map -----------------------------------

  /** How many entries of s equal v. */
  function Count(s: seq<int>, v: int): nat
  {
    if |s| == 0 then 0 else Count(s[..|s| - 1], v) + (if s[|s| - 1] == v then 1 else 0)
  }

  /** How many entries of s are visited (non-negative). */
  function CountVisited(s: seq<int>): nat
  {
    if |s| == 0 then 0 else CountVisited(s[..|s| - 1]) + (if s[|s| - 1] >= 0 then 1 else 0)
  }

  /** Overwriting one entry changes each count by the entry's contribution alone. */
  lemma {:induction false} CountUpdate(s: seq<int>, i: nat, x: int, v: int)
    requires i < |s|
    ensures Count(s[i := x], v) == Count(s, v) - (if s[i] == v then 1 else 0) + (if x == v then 1 else 0)
    ensures CountVisited(s[i := x]) == CountVisited(s) - (if s[i] >= 0 then 1 else 0) + (if x >= 0 then 1 else 0)
    decreases |s|
  {
    var t := s[i := x];
    if i < |s| - 1 {
      assert t[..|t| - 1] == s[..|s| - 1][i := x];
      CountUpdate(s[..|s| - 1], i, x, v);
    } else {
      assert t[..|t| - 1] == s[..|s| - 1];
    }
  }

  /** When no entry is visited, none is counted. */
  lemma {:induction false} CountVisitedZero(s: seq<int>)
    requires forall i :: 0 <= i < |s| ==> s[i] < 0
    ensures CountVisited(s) == 0
  {
    if |s| > 0 { CountVisitedZero(s[..|s| - 1]); }
  }

  /** When every entry is visited, all of them are counted. */
  lemma {:induction false} CountVisitedAll(s: seq<int>)
    requires forall i :: 0 <= i < |s| ==> s[i] >= 0
    ensures CountVisited(s) == |s|
  {
    if |s| > 0 { CountVisitedAll(s[..|s| - 1]); }
  }

  /** A value no entry holds is counted zero times. */
  lemma {:induction false} CountAbsent(s: seq<int>, v: int)
    requires forall i :: 0 <= i < |s| ==> s[i] != v
    ensures Count(s, v) == 0
  {
    if |s| > 0 { CountAbsent(s[..|s| - 1], v); }
  }

  /**
   * The point map as a bijection: order lists the points in the order they
   * were reached, each mapped point p has pointMap[p] == its position in
   * order, and every other point holds -1.
   */
  ghost predicate PointMapInv(pointMap: seq<int>, order: seq<nat>)
  {
    (forall i :: 0 <= i < |order| ==> order[i] < |pointMap| && pointMap[order[i]] == i)
    && (forall p :: 0 <= p < |pointMap| ==> -1 <= pointMap[p] < |order|)
    && (forall p :: 0 <= p < |pointMap| && pointMap[p] >= 0 ==> order[pointMap[p]] == p)
  }

  /** Mapping an unmapped point to the next id keeps the bijection. */
  lemma PointMapExtend(pointMap: seq<int>, order: seq<nat>, p: nat)
    requires PointMapInv(pointMap, order) && p < |pointMap| && pointMap[p] < 0
    ensures PointMapInv(pointMap[p := |order|], order + [p])
  {
    var pm, o := pointMap[p := |order|], order + [p];
    forall i | 0 <= i < |o| ensures o[i] < |pm| && pm[o[i]] == i {
      if i < |order| { assert o[i] != p; }
    }
  }

  /** While some point is unmapped, fewer than all points have ids, so the next id is in range. */
  lemma PointMapRoom(pointMap: seq<int>, order: seq<nat>, p: nat)
    requires PointMapInv(pointMap, order) && p < |pointMap| && pointMap[p] < 0
    ensures |order| < |pointMap|
  {
    var s := order + [p];
    forall i, j | 0 <= i < j < |s| ensures s[i] != s[j] {
      if j == |order| { assert pointMap[s[i]] == i; }
    }
    DistinctBound(s, |pointMap|);
  }

  /** Pigeonhole: distinct values below m are at most m. */
  lemma {:induction false} DistinctBound(s: seq<nat>, m: nat)
    requires forall i :: 0 <= i < |s| ==> s[i] < m
    requires forall i, j :: 0 <= i < j < |s| ==> s[i] != s[j]
    ensures |s| <= m
    decreases m
  {
    if |s| > 0 {
      assert 0 <= s[0] < m;
      if m - 1 in s {
        var i :| 0 <= i < |s| && s[i] == m - 1;
        var t := s[..i] + s[i + 1..];
        DropDistinct(s, i, m);
        DistinctBound(t, m - 1);
        assert |t| == |s| - 1;
      } else {
        assert forall k :: 0 <= k < |s| ==> s[k] < m - 1;
        DistinctBound(s, m - 1);
      }
    }
  }

  /** Dropping the entry m - 1 from distinct values below m leaves distinct values below m - 1. */
  lemma DropDistinct(s: seq<nat>, i: nat, m: nat)
    requires forall k :: 0 <= k < |s| ==> s[k] < m
    requires forall a, b :: 0 <= a < b < |s| ==> s[a] != s[b]
    requires i < |s| && s[i] == m - 1
    ensures var t := s[..i] + s[i + 1..];
      |t| == |s| - 1 && (forall k :: 0 <= k < |t| ==> t[k] < m - 1)
      && forall a, b :: 0 <= a < b < |t| ==> t[a] != t[b]
  {
    var t := s[..i] + s[i + 1..];
    forall k | 0 <= k < |t| ensures t[k] == (if k < i then s[k] else s[k + 1]) {
    }
    forall k | 0 <= k < |t| ensures t[k] < m - 1 {
      if k < i { assert s[k] != s[i]; } else { assert s[k + 1] != s[i]; }
    }
    forall a, b | 0 <= a < b < |t| ensures t[a] != t[b] {
      if b < i {
      } else if a < i {
        assert s[a] != s[b + 1];
      } else {
        assert s[a + 1] != s[b + 1];
      }
    }
  }

  lemma PointMapInjective(pointMap: seq<int>, order: seq<nat>)
    requires PointMapInv(pointMap, order)
    ensures forall i, j :: 0 <= i < j < |order| ==> order[i] != order[j]
  {
  }

  // ---- The traversal invariant --------------------------------------------

  /**
   * Closure of the traversal: every cell that uses a mapped point and that
   * the criterion accepts is visited or still waiting in `pending`.
   */
  ghost predicate Closed(mesh: Mesh, crit: Criterion, visited: seq<int>, pointMap: seq<int>, pending: seq<nat>)
    requires mesh.Valid() && CriterionFits(mesh, crit)
    requires |visited| == mesh.NumCells() && |pointMap| == mesh.NumPoints()
  {
    forall p, k :: 0 <= p < |pointMap| && 0 <= k < |mesh.pointCells[p]| && pointMap[p] >= 0
      && Accepts(mesh, crit, mesh.pointCells[p][k])
      ==> visited[mesh.pointCells[p][k]] >= 0 || mesh.pointCells[p][k] in pending
  }

  /** Every point of a visited cell has an output id. */
  ghost predicate CellsMapped(mesh: Mesh, visited: seq<int>, pointMap: seq<int>)
    requires mesh.Valid() && |visited| == mesh.NumCells() && |pointMap| == mesh.NumPoints()
  {
    forall c, j :: 0 <= c < |visited| && 0 <= j < |mesh.cellPoints[c]| && visited[c] >= 0
      ==> pointMap[mesh.cellPoints[c][j]] >= 0
  }

  /**
   * At the end of a labelling, regions are closed: a visited cell's
   * accepted neighbours (the cells sharing one of its points) are visited.
   */
  lemma ClosedRegions(mesh: Mesh, crit: Criterion, visited: seq<int>, pointMap: seq<int>, c: nat, n: nat)
    requires mesh.Valid() && mesh.LinksConsistent() && CriterionFits(mesh, crit)
    requires |visited| == mesh.NumCells() && |pointMap| == mesh.NumPoints()
    requires Closed(mesh, crit, visited, pointMap, []) && CellsMapped(mesh, visited, pointMap)
    requires c < mesh.NumCells() && visited[c] >= 0
    requires n < mesh.NumCells() && Accepts(mesh, crit, n)
    requires exists p :: p in mesh.cellPoints[c] && p in mesh.cellPoints[n]
    ensures visited[n] >= 0
  {
    var p :| p in mesh.cellPoints[c] && p in mesh.cellPoints[n];
    var j :| 0 <= j < |mesh.cellPoints[c]| && mesh.cellPoints[c][j] == p;
    assert pointMap[p] >= 0;
    assert n in mesh.pointCells[p];
    var k :| 0 <= k < |mesh.pointCells[p]| && mesh.pointCells[p][k] == n;
  }

  /** Marking a pending cell visited takes it off the pending list. */
  lemma ClosedAfterMark(mesh: Mesh, crit: Criterion, visited: seq<int>, pointMap: seq<int>, c: nat, r: int, rest: seq<nat>)
    requires mesh.Valid() && CriterionFits(mesh, crit)
    requires |visited| == mesh.NumCells() && |pointMap| == mesh.NumPoints() && c < |visited| && r >= 0
    requires Closed(mesh, crit, visited, pointMap, [c] + rest)
    ensures Closed(mesh, crit, visited[c := r], pointMap, rest)
  {
  }

  /** A pending cell that is already visited can be dropped from the pending list. */
  lemma ClosedDrop(mesh: Mesh, crit: Criterion, visited: seq<int>, pointMap: seq<int>, c: nat, rest: seq<nat>)
    requires mesh.Valid() && CriterionFits(mesh, crit)
    requires |visited| == mesh.NumCells() && |pointMap| == mesh.NumPoints() && c < |visited| && visited[c] >= 0
    requires Closed(mesh, crit, visited, pointMap, [c] + rest)
    ensures Closed(mesh, crit, visited, pointMap, rest)
  {
  }

  /**
   * Reaching point p (mapping it, or finding it mapped) and pushing its
   * accepted cells keeps the traversal closed, whatever else is pending.
   */
  lemma ClosedAfterReach(mesh: Mesh, crit: Criterion, visited: seq<int>, pm: seq<int>, pm': seq<int>,
                         pending: seq<nat>, pending': seq<nat>, p: nat)
    requires mesh.Valid() && CriterionFits(mesh, crit)
    requires |visited| == mesh.NumCells() && |pm| == |pm'| == mesh.NumPoints() && p < |pm|
    requires Closed(mesh, crit, visited, pm, pending)
    requires forall q :: 0 <= q < |pm'| && pm'[q] >= 0 ==> pm[q] >= 0 || q == p
    requires forall x :: x in pending ==> x in pending'
    requires forall x :: x in AcceptedOf(mesh, crit, mesh.pointCells[p]) ==> x in pending'
    ensures Closed(mesh, crit, visited, pm', pending')
  {
    forall q, k | 0 <= q < |pm'| && 0 <= k < |mesh.pointCells[q]| && pm'[q] >= 0
      && Accepts(mesh, crit, mesh.pointCells[q][k])
      ensures visited[mesh.pointCells[q][k]] >= 0 || mesh.pointCells[q][k] in pending'
    {
      if q == p {
        assert mesh.pointCells[q][k] in mesh.pointCells[p];
      }
    }
  }

  /** Every cell of w is visited. */
  ghost predicate AllVisited(visited: seq<int>, w: seq<nat>)
  {
    forall k :: 0 <= k < |w| ==> w[k] < |visited| && visited[w[k]] >= 0
  }

  lemma AllVisitedGrew(a: Snapshot, b: Snapshot, r: int, w: seq<nat>)
    requires Grew(a, b, r) && AllVisited(a.visited, w)
    ensures AllVisited(b.visited, w)
  {
  }

  // ---- Regions ------------------------------------------------------------

  /** Counts agree when the two sequences agree on which entries equal v. */
  lemma {:induction false} CountSame(a: seq<int>, b: seq<int>, v: int)
    requires |a| == |b| && forall i :: 0 <= i < |a| ==> (a[i] == v <==> b[i] == v)
    ensures Count(a, v) == Count(b, v)
  {
    if |a| > 0 { CountSame(a[..|a| - 1], b[..|b| - 1], v); }
  }

  /** A value held somewhere is counted at least once. */
  lemma {:induction false} CountPositive(s: seq<int>, i: nat, v: int)
    requires i < |s| && s[i] == v
    ensures Count(s, v) >= 1
  {
    if i < |s| - 1 { CountPositive(s[..|s| - 1], i, v); }
  }

  /**
   * The region bookkeeping of the labelling loop: RegionSizes has one entry
   * per finished region, each the (positive) number of cells carrying that
   * region id, and together they count the visited cells.
   */
  ghost predicate SizesMatch(visited: seq<int>, sizes: seq<int>)
  {
    (forall c :: 0 <= c < |visited| ==> -1 <= visited[c] < |sizes|)
    && (forall r :: 0 <= r < |sizes| ==> sizes[r] == Count(visited, r) && sizes[r] >= 1)
    && Sum(sizes) == CountVisited(visited)
  }

  /**
   * A traversal for region r == |sizes| that visited the seed c leaves
   * the bookkeeping right once its cell count is appended.
   */
  lemma SizesAfterRegion(a: Snapshot, b: Snapshot, sizes: seq<int>, c: nat)
    requires SizesMatch(a.visited, sizes) && Grew(a, b, |sizes|)
    requires c < |a.visited| && a.visited[c] < 0 && b.visited[c] >= 0
    requires forall i :: 0 <= i < |b.visited| ==> b.visited[i] >= -1
    ensures SizesMatch(b.visited, sizes + [b.numCellsInRegion - a.numCellsInRegion])
  {
    var r, n := |sizes|, b.numCellsInRegion - a.numCellsInRegion;
    var sizes' := sizes + [n];
    CountAbsent(a.visited, r);
    assert b.visited[c] == r;
    CountPositive(b.visited, c, r);
    assert sizes'[r] == Count(b.visited, r) >= 1;
    forall i | 0 <= i < |b.visited| ensures -1 <= b.visited[i] < |sizes'| {
      if a.visited[i] >= 0 { assert b.visited[i] == a.visited[i]; }
    }
    forall r' | 0 <= r' < r ensures sizes'[r'] == Count(b.visited, r') && sizes'[r'] >= 1 {
      CountSame(a.visited, b.visited, r');
      assert sizes'[r'] == sizes[r'];
    }
    SumAppend(sizes, n);
    assert Sum(sizes') == CountVisited(b.visited);
  }

  /** What a traversal from the seeds of the seeded modes leaves behind, from a fresh labelling. */
  lemma SeededFacts(a: Snapshot, b: Snapshot, seedWave: seq<nat>)
    requires Grew(a, b, 0) && AllVisited(b.visited, seedWave) && a.numCellsInRegion == 0
    requires forall c :: 0 <= c < |a.visited| ==> a.visited[c] == -1
    requires forall c :: 0 <= c < |b.visited| ==> b.visited[c] >= -1
    ensures forall c :: 0 <= c < |b.visited| ==> b.visited[c] == -1 || b.visited[c] == 0
    ensures b.numCellsInRegion == CountVisited(b.visited)
    ensures seedWave != [] ==> SizesMatch(b.visited, [b.numCellsInRegion])
  {
    CountVisitedZero(a.visited);
    SeededSizes(a, b, seedWave);
    forall c | 0 <= c < |b.visited| ensures b.visited[c] == -1 || b.visited[c] == 0 {
      assert a.visited[c] < 0;
    }
  }

  lemma SeededSizes(a: Snapshot, b: Snapshot, seedWave: seq<nat>)
    requires Grew(a, b, 0) && AllVisited(b.visited, seedWave) && a.numCellsInRegion == 0
    requires forall c :: 0 <= c < |a.visited| ==> a.visited[c] == -1
    requires CountVisited(a.visited) == 0
    requires forall c :: 0 <= c < |b.visited| ==> b.visited[c] >= -1
    ensures seedWave != [] ==> SizesMatch(b.visited, [b.numCellsInRegion])
  {
    if seedWave != [] {
      assert b.visited[seedWave[0]] >= 0;
      assert SizesMatch(a.visited, []);
      SizesAfterRegion(a, b, [], seedWave[0]);
    }
  }

  /**
   * Regions are separated: an accepted cell that shares a point with a
   * visited cell c is visited, in c's region or an earlier one.
   */
  ghost predicate Separated(mesh: Mesh, crit: Criterion, visited: seq<int>)
    requires mesh.Valid() && CriterionFits(mesh, crit) && |visited| == mesh.NumCells()
  {
    forall c, j, k :: 0 <= c < |visited| && 0 <= j < |mesh.cellPoints[c]| && visited[c] >= 0
      && 0 <= k < |mesh.pointCells[mesh.cellPoints[c][j]]|
      && Accepts(mesh, crit, mesh.pointCells[mesh.cellPoints[c][j]][k])
      ==> 0 <= visited[mesh.pointCells[mesh.cellPoints[c][j]][k]] <= visited[c]
  }

  lemma SeparatedAfterRegion(mesh: Mesh, crit: Criterion, a: Snapshot, b: Snapshot, r: nat)
    requires mesh.Valid() && CriterionFits(mesh, crit)
    requires |a.visited| == mesh.NumCells() && |b.pointMap| == mesh.NumPoints()
    requires Grew(a, b, r) && Separated(mesh, crit, a.visited)
    requires Closed(mesh, crit, b.visited, b.pointMap, []) && CellsMapped(mesh, b.visited, b.pointMap)
    requires forall c :: 0 <= c < |b.visited| ==> b.visited[c] <= r
    ensures Separated(mesh, crit, b.visited)
  {
    forall c, j, k | 0 <= c < |b.visited| && 0 <= j < |mesh.cellPoints[c]| && b.visited[c] >= 0
      && 0 <= k < |mesh.pointCells[mesh.cellPoints[c][j]]|
      && Accepts(mesh, crit, mesh.pointCells[mesh.cellPoints[c][j]][k])
      ensures 0 <= b.visited[mesh.pointCells[mesh.cellPoints[c][j]][k]] <= b.visited[c]
    {
      var p := mesh.cellPoints[c][j];
      var n := mesh.pointCells[p][k];
      if a.visited[c] < 0 {
        assert b.pointMap[p] >= 0;
      } else {
        assert 0 <= a.visited[n] <= a.visited[c];
      }
    }
  }

  /**
   * Two accepted cells that share a point end up in the same region: a
   * region is a connected component of the accepted cells.
   */
  lemma SameRegion(mesh: Mesh, crit: Criterion, visited: seq<int>, c: nat, n: nat, p: nat)
    requires mesh.Valid() && mesh.LinksConsistent() && CriterionFits(mesh, crit) && |visited| == mesh.NumCells()
    requires Separated(mesh, crit, visited)
    requires c < mesh.NumCells() && n < mesh.NumCells() && visited[c] >= 0 && visited[n] >= 0
    requires Accepts(mesh, crit, c) && Accepts(mesh, crit, n)
    requires p in mesh.cellPoints[c] && p in mesh.cellPoints[n]
    ensures visited[c] == visited[n]
  {
    var j :| 0 <= j < |mesh.cellPoints[c]| && mesh.cellPoints[c][j] == p;
    var j' :| 0 <= j' < |mesh.cellPoints[n]| && mesh.cellPoints[n][j'] == p;
    assert n in mesh.pointCells[p] && c in mesh.pointCells[p];
    var k :| 0 <= k < |mesh.pointCells[p]| && mesh.pointCells[p][k] == n;
    var k' :| 0 <= k' < |mesh.pointCells[p]| && mesh.pointCells[p][k'] == c;
    assert visited[n] <= visited[c];
    assert visited[c] <= visited[n];
  }

  /** The labelling arrays and counters at one moment, for stating what a step changed. */
  datatype Snapshot = Snapshot(visited: seq<int>, pointMap: seq<int>, newScalars: seq<int>, order: seq<nat>, numCellsInRegion: int)

  /**
   * What any part of a traversal for region r does: visited cells keep
   * their region, newly visited cells get r, NumCellsInRegion counts them,
   * mapped points keep their ids, and new output points record r.
   */
  ghost predicate Grew(a: Snapshot, b: Snapshot, r: int)
  {
    |a.visited| == |b.visited| && |a.pointMap| == |b.pointMap| && |a.newScalars| == |b.newScalars|
    && |b.order| <= |b.newScalars|
    && (forall c :: 0 <= c < |a.visited| && a.visited[c] >= 0 ==> b.visited[c] == a.visited[c])
    && (forall c :: 0 <= c < |a.visited| && a.visited[c] < 0 && b.visited[c] >= 0 ==> b.visited[c] == r)
    && b.numCellsInRegion >= a.numCellsInRegion
    && b.numCellsInRegion - a.numCellsInRegion == CountVisited(b.visited) - CountVisited(a.visited)
    && b.numCellsInRegion - a.numCellsInRegion == Count(b.visited, r) - Count(a.visited, r)
    && b.numCellsInRegion - a.numCellsInRegion == Count(a.visited, -1) - Count(b.visited, -1)
    && (forall q :: 0 <= q < |a.pointMap| && a.pointMap[q] >= 0 ==> b.pointMap[q] == a.pointMap[q])
    && a.order <= b.order
    && (forall i :: 0 <= i < |a.order| ==> b.newScalars[i] == a.newScalars[i])
    && (forall i :: |a.order| <= i < |b.order| ==> b.newScalars[i] == r)
  }

  lemma GrewRefl(a: Snapshot, r: int)
    requires |a.order| <= |a.newScalars|
    ensures Grew(a, a, r)
  {
  }

  lemma GrewTrans(a: Snapshot, b: Snapshot, c: Snapshot, r: int)
    requires Grew(a, b, r) && Grew(b, c, r)
    ensures Grew(a, c, r)
  {
    forall i | |a.order| <= i < |c.order| ensures c.newScalars[i] == r {
      if i < |b.order| { assert b.newScalars[i] == r; }
    }
  }

  /** Labels in use are exactly 0 .. |sizes|-1, so GetNumberOfExtractedRegions counts the regions found. */
  lemma RegionLabelsInUse(visited: seq<int>, sizes: seq<int>)
    requires SizesMatch(visited, sizes)
    ensures forall r :: 0 <= r < |sizes| ==> r in visited
    ensures forall c :: 0 <= c < |visited| && visited[c] >= 0 ==> visited[c] < |sizes|
  {
    forall r | 0 <= r < |sizes| ensures r in visited {
      CountWitness(visited, r);
    }
  }

  lemma {:induction false} CountWitness(s: seq<int>, v: int)
    requires Count(s, v) >= 1
    ensures v in s
  {
    if s[|s| - 1] != v {
      CountWitness(s[..|s| - 1], v);
    }
  }

  // ---- Seeds ----------------------------------------------------------------

  /** The first wave of VTK_EXTRACT_POINT_SEEDED_REGIONS: the cells using each non-negative seed point, in order. */
  function PointSeededWave(mesh: Mesh, seeds: seq<int>): (w: seq<nat>)
    requires mesh.Valid() && forall i :: 0 <= i < |seeds| ==> seeds[i] < |mesh.pointCells|
    ensures forall k :: 0 <= k < |w| ==> w[k] < mesh.NumCells()
    ensures forall c :: c in w <==> exists i :: 0 <= i < |seeds| && seeds[i] >= 0 && c in mesh.pointCells[seeds[i]]
  {
    if |seeds| == 0 then []
    else
      var front := seeds[..|seeds| - 1];
      var pt := seeds[|seeds| - 1];
      var prev := PointSeededWave(mesh, front);
      assert forall i :: 0 <= i < |front| ==> front[i] == seeds[i];
      if pt >= 0 then prev + mesh.pointCells[pt] else prev
  }

  /** The first wave of VTK_EXTRACT_CELL_SEEDED_REGIONS: the non-negative seed cell ids, in order. */
  function CellSeededWave(mesh: Mesh, seeds: seq<int>): (w: seq<nat>)
    requires forall i :: 0 <= i < |seeds| ==> seeds[i] < mesh.NumCells()
    ensures forall k :: 0 <= k < |w| ==> w[k] < mesh.NumCells()
    ensures forall c: nat :: c in w <==> c in seeds
  {
    if |seeds| == 0 then []
    else
      var front := seeds[..|seeds| - 1];
      var id := seeds[|seeds| - 1];
      assert forall c: int :: c in seeds <==> c in front || c == id;
      if id >= 0 then CellSeededWave(mesh, front) + [id] else CellSeededWave(mesh, front)
  }

  /** The seed loop of point-seeded mode. */
  method PointSeeds(mesh: Mesh, seeds: seq<int>) returns (w: seq<nat>)
    requires mesh.Valid() && forall i :: 0 <= i < |seeds| ==> seeds[i] < |mesh.pointCells|
    ensures w == PointSeededWave(mesh, seeds)
  {
    w := [];
    var i := 0;
    while i < |seeds|
      invariant 0 <= i <= |seeds| && w == PointSeededWave(mesh, seeds[..i])
    {
      assert seeds[..i + 1][..i] == seeds[..i];
      var pt := seeds[i];
      if pt >= 0 {
        var cells := mesh.pointCells[pt];
        var j := 0;
        ghost var w0 := w;
        while j < |cells|
          invariant 0 <= j <= |cells| && w == w0 + cells[..j]
        {
          assert cells[..j + 1] == cells[..j] + [cells[j]];
          w := w + [cells[j]];
          j := j + 1;
        }
        assert cells[..|cells|] == cells;
      }
      i := i + 1;
    }
    assert seeds[..|seeds|] == seeds;
  }

  /** The seed loop of cell-seeded mode. */
  method CellSeeds(mesh: Mesh, seeds: seq<int>) returns (w: seq<nat>)
    requires forall i :: 0 <= i < |seeds| ==> seeds[i] < mesh.NumCells()
    ensures w == CellSeededWave(mesh, seeds)
  {
    w := [];
    var i := 0;
    while i < |seeds|
      invariant 0 <= i <= |seeds| && w == CellSeededWave(mesh, seeds[..i])
    {
      assert seeds[..i + 1][..i] == seeds[..i];
      if seeds[i] >= 0 {
        w := w + [seeds[i]];
      }
      i := i + 1;
    }
    assert seeds[..|seeds|] == seeds;
  }

  /**
   * The closest-point search of VTK_EXTRACT_CLOSEST_POINT_REGION over the
   * squared distances of the points to ClosestPoint: the first point with
   * the smallest distance, or point 0 when no distance is below
   * VTK_DOUBLE_MAX.
   */
  method ClosestPointId(dist2: seq<real>) returns (minId: nat)
    ensures (forall i :: 0 <= i < |dist2| ==> dist2[i] >= DoubleMax) ==> minId == 0
    ensures (exists i :: 0 <= i < |dist2| && dist2[i] < DoubleMax) ==>
              minId < |dist2| && (forall i :: 0 <= i < |dist2| ==> dist2[minId] <= dist2[i])
              && (forall i :: 0 <= i < minId ==> dist2[minId] < dist2[i])
  {
    minId := 0;
    var minDist2 := DoubleMax;
    var i := 0;
    while i < |dist2|
      invariant 0 <= i <= |dist2|
      invariant (forall k :: 0 <= k < i ==> dist2[k] >= DoubleMax) ==> minId == 0 && minDist2 == DoubleMax
      invariant (exists k :: 0 <= k < i && dist2[k] < DoubleMax) ==> minId < i && minDist2 == dist2[minId]
      invariant forall k :: 0 <= k < i ==> minDist2 <= dist2[k]
      invariant forall k :: 0 <= k < minId ==> minDist2 < dist2[k]
      invariant minDist2 <= DoubleMax
    {
      if dist2[i] < minDist2 {
        minId := i;
        minDist2 := dist2[i];
      }
      i := i + 1;
    }
  }

  // ---- OrderRegionIds ---------------------------------------------------------

  /** An entry (cell count, region id) of the multimap cellCountToRegionId. */
  datatype Entry = Entry(count: int, region: nat)

  /** The iteration order of the multimap: by count, and equal counts in insertion (region id) order. */
  predicate Before(a: Entry, b: Entry)
  {
    a.count < b.count || (a.count == b.count && a.region < b.region)
  }

  ghost predicate StrictlyOrdered(s: seq<Entry>)
  {
    forall i, j :: 0 <= i < j < |s| ==> Before(s[i], s[j])
  }

  /**
   * std::multimap::insert: the new entry goes after every entry with a
   * count not above its own.  Entries inserted with increasing region ids
   * therefore stay ordered by (count, region).
   */
  method MultimapInsert(entries: seq<Entry>, e: Entry) returns (r: seq<Entry>)
    requires StrictlyOrdered(entries) && forall k :: 0 <= k < |entries| ==> entries[k].region < e.region
    ensures StrictlyOrdered(r) && |r| == |entries| + 1
    ensures forall x :: x in r <==> x in entries || x == e
  {
    var i := 0;
    while i < |entries| && entries[i].count <= e.count
      invariant 0 <= i <= |entries| && forall k :: 0 <= k < i ==> entries[k].count <= e.count
    {
      i := i + 1;
    }
    r := entries[..i] + [e] + entries[i..];
    assert forall k :: 0 <= k < |r| ==> r[k] == (if k < i then entries[k] else if k == i then e else entries[k - 1]);
    assert forall x :: x in entries <==> x in entries[..i] || x in entries[i..] by {
      assert entries == entries[..i] + entries[i..];
    }
  }

  /** The multimap filled with (RegionSizes[r], r) for r = 0, 1, ...; as a sequence in iteration order. */
  method RegionsByCount(sizes: seq<int>) returns (entries: seq<Entry>)
    ensures |entries| == |sizes| && StrictlyOrdered(entries)
    ensures forall k :: 0 <= k < |entries| ==> entries[k].region < |sizes| && entries[k].count == sizes[entries[k].region]
    ensures forall r :: 0 <= r < |sizes| ==> Entry(sizes[r], r) in entries
  {
    entries := [];
    var regionId := 0;
    while regionId < |sizes|
      invariant 0 <= regionId <= |sizes| && |entries| == regionId && StrictlyOrdered(entries)
      invariant forall k :: 0 <= k < |entries| ==> entries[k].region < regionId && entries[k].count == sizes[entries[k].region]
      invariant forall r :: 0 <= r < regionId ==> Entry(sizes[r], r) in entries
    {
      var e := Entry(sizes[regionId], regionId);
      var next := MultimapInsert(entries, e);
      forall k | 0 <= k < |next| ensures next[k].region < regionId + 1 && next[k].count == sizes[next[k].region] {
        assert next[k] in next;
        if next[k] != e {
          assert next[k] in entries;
          var k' :| 0 <= k' < |entries| && entries[k'] == next[k];
        }
      }
      entries := next;
      regionId := regionId + 1;
    }
  }

  /** The values of RegionIdAssignmentMode. */
  datatype RegionIdAssignment = Unspecified | CellCountDescending | CellCountAscending

  /** What RankRegions establishes between the old sizes, the new sizes and the id map. */
  ghost predicate RankedBy(sizes: seq<int>, newSizes: seq<int>, oldToNew: map<int, int>, descending: bool)
  {
    |newSizes| == |sizes|
    && (forall r :: r in oldToNew <==> 0 <= r < |sizes|)
    && (forall r :: 0 <= r < |sizes| ==> 0 <= oldToNew[r] < |sizes| && newSizes[oldToNew[r]] == sizes[r])
    && (forall r1, r2 :: 0 <= r1 < |sizes| && 0 <= r2 < |sizes| && r1 != r2 ==> oldToNew[r1] != oldToNew[r2])
    && (!descending ==> forall i, j :: 0 <= i < j < |newSizes| ==> newSizes[i] <= newSizes[j])
    && (descending ==> forall i, j :: 0 <= i < j < |newSizes| ==> newSizes[i] >= newSizes[j])
  }

  /** The position the counter gives to multimap entry k: forward, or from the back for CELL_COUNT_DESCENDING. */
  function Rank(n: nat, k: nat, descending: bool): nat
    requires k < n
  {
    if descending then n - 1 - k else k
  }

  /** std::map::operator[]: a missing key reads (and inserts) 0. */
  function Remap(oldToNew: map<int, int>, v: int): (r: int)
    ensures v in oldToNew ==> r == oldToNew[v]
    ensures v !in oldToNew ==> r == 0
  {
    if v in oldToNew then oldToNew[v] else 0
  }

  /**
   * The counter loop of OrderRegionIds: walking the multimap forwards
   * (ascending) or backwards (descending), the counter-th entry gives the
   * new size at counter and maps its region to counter.  The result is a
   * permutation of the region ids under which the sizes are sorted; equal
   * sizes keep their region order ascending and reverse it descending.
   */
  method RankRegions(sizes: seq<int>, descending: bool) returns (newSizes: seq<int>, oldToNew: map<int, int>)
    ensures RankedBy(sizes, newSizes, oldToNew, descending)
    ensures forall r1, r2 :: 0 <= r1 < r2 < |sizes| && sizes[r1] == sizes[r2] ==>
              (if descending then oldToNew[r1] > oldToNew[r2] else oldToNew[r1] < oldToNew[r2])
  {
    var entries := RegionsByCount(sizes);
    var n := |sizes|;
    newSizes := sizes;
    oldToNew := map[];
    var counter := 0;
    while counter < n
      invariant 0 <= counter <= n && |newSizes| == n
      invariant forall k :: 0 <= k < counter ==> newSizes[k] == entries[Rank(n, k, descending)].count
      invariant forall k :: 0 <= k < counter ==>
                  entries[Rank(n, k, descending)].region in oldToNew && oldToNew[entries[Rank(n, k, descending)].region] == k
      invariant forall r :: r in oldToNew ==> exists k :: 0 <= k < counter && entries[Rank(n, k, descending)].region == r
    {
      var e := entries[Rank(n, counter, descending)];
      newSizes := newSizes[counter := e.count];
      forall k | 0 <= k < counter ensures entries[Rank(n, k, descending)].region != e.region {
        assert Rank(n, k, descending) != Rank(n, counter, descending);
      }
      oldToNew := oldToNew[e.region := counter];
      counter := counter + 1;
    }
    RankFacts(sizes, descending, entries, newSizes, oldToNew);
  }

  /** The properties of RankRegions, from the ordered multimap and the counter loop's result. */
  lemma RankFacts(sizes: seq<int>, descending: bool, entries: seq<Entry>, newSizes: seq<int>, oldToNew: map<int, int>)
    requires |entries| == |sizes| == |newSizes| && StrictlyOrdered(entries)
    requires forall k :: 0 <= k < |entries| ==> entries[k].region < |sizes| && entries[k].count == sizes[entries[k].region]
    requires forall r :: 0 <= r < |sizes| ==> Entry(sizes[r], r) in entries
    requires forall k :: 0 <= k < |sizes| ==> newSizes[k] == entries[Rank(|sizes|, k, descending)].count
    requires forall k :: 0 <= k < |sizes| ==>
               entries[Rank(|sizes|, k, descending)].region in oldToNew && oldToNew[entries[Rank(|sizes|, k, descending)].region] == k
    requires forall r :: r in oldToNew ==> exists k :: 0 <= k < |sizes| && entries[Rank(|sizes|, k, descending)].region == r
    ensures RankedBy(sizes, newSizes, oldToNew, descending)
    ensures forall r1, r2 :: 0 <= r1 < r2 < |sizes| && sizes[r1] == sizes[r2] ==>
              (if descending then oldToNew[r1] > oldToNew[r2] else oldToNew[r1] < oldToNew[r2])
  {
    var n := |sizes|;
    forall r | 0 <= r < n ensures r in oldToNew && 0 <= oldToNew[r] < n && newSizes[oldToNew[r]] == sizes[r]
      && entries[Rank(n, oldToNew[r], descending)] == Entry(sizes[r], r)
    {
      var i :| 0 <= i < n && entries[i] == Entry(sizes[r], r);
      var k := Rank(n, i, descending);
      assert Rank(n, k, descending) == i;
    }
    forall i, j | 0 <= i < j < n
      ensures if descending then newSizes[i] >= newSizes[j] else newSizes[i] <= newSizes[j]
    {
      assert if descending then Rank(n, j, descending) < Rank(n, i, descending) else Rank(n, i, descending) < Rank(n, j, descending);
    }
    forall r1, r2 | 0 <= r1 < r2 < n && sizes[r1] == sizes[r2]
      ensures if descending then oldToNew[r1] > oldToNew[r2] else oldToNew[r1] < oldToNew[r2]
    {
      var k1, k2 := oldToNew[r1], oldToNew[r2];
      var i1, i2 := Rank(n, k1, descending), Rank(n, k2, descending);
      assert Before(entries[i1], entries[i2]);
    }
  }

  /** The two relabelling loops of OrderRegionIds. */
  method RemapIds(a: array<int>, oldToNew: map<int, int>)
    modifies a
    ensures forall i :: 0 <= i < a.Length ==> a[i] == Remap(oldToNew, old(a[i]))
  {
    var i := 0;
    while i < a.Length
      invariant 0 <= i <= a.Length
      invariant forall k :: 0 <= k < i ==> a[k] == Remap(oldToNew, old(a[k]))
      invariant forall k :: i <= k < a.Length ==> a[k] == old(a[k])
    {
      a[i] := Remap(oldToNew, a[i]);
      i := i + 1;
    }
  }

  // ---- Output cells -----------------------------------------------------------

  /** The values of ExtractionMode. */
  datatype ExtractionMode = PointSeededRegions | CellSeededRegions | SpecifiedRegions | LargestRegion | AllRegions | ClosestPointRegion

  /** Whether a cell with region v goes to the output in the given mode. */
  predicate Selected(mode: ExtractionMode, v: int, specified: seq<int>, largestRegionId: int)
  {
    match mode
    case SpecifiedRegions => v >= 0 && v in specified
    case LargestRegion => v == largestRegionId
    case _ => v >= 0
  }

  /** The search of SpecifiedRegionIds for a region id. */
  method InRegionList(regionId: int, specified: seq<int>) returns (inReg: bool)
    ensures inReg <==> regionId in specified
  {
    inReg := false;
    var i := 0;
    while i < |specified|
      invariant 0 <= i <= |specified| && !inReg && regionId !in specified[..i]
    {
      if regionId == specified[i] {
        return true;
      }
      assert specified[..i + 1] == specified[..i] + [specified[i]];
      i := i + 1;
    }
    assert specified[..i] == specified;
  }

  /** Output ids naming, through the order of first reach, exactly the input points pts. */
  ghost predicate StandFor(out: seq<int>, order: seq<nat>, pts: seq<nat>)
  {
    |out| == |pts| && forall j :: 0 <= j < |pts| ==> 0 <= out[j] < |order| && order[out[j]] == pts[j]
  }

  /** A visited cell's points, renumbered by PointMap, are the output points copied from them. */
  lemma MappedCellStandsFor(mesh: Mesh, visited: seq<int>, pointMap: seq<int>, order: seq<nat>, c: nat)
    requires mesh.Valid() && |visited| == mesh.NumCells() && |pointMap| == mesh.NumPoints()
    requires CellsMapped(mesh, visited, pointMap) && PointMapInv(pointMap, order)
    requires c < |visited| && visited[c] >= 0
    ensures StandFor(Gather(pointMap, mesh.cellPoints[c]), order, mesh.cellPoints[c])
  {
  }

  /**
   * The output loops of RequestData: cells are taken in id order when
   * selected, and each is written with its point ids renumbered by
   * PointMap.  With a labelling whose visited cells have mapped points,
   * every written id is an output point standing for the original point.
   */
  method ExtractCells(mesh: Mesh, visited: seq<int>, pointMap: seq<int>, ghost order: seq<nat>,
                      mode: ExtractionMode, specified: seq<int>, largestRegionId: int)
    returns (cells: seq<nat>, conn: seq<seq<int>>)
    requires mesh.Valid() && |visited| == mesh.NumCells() && |pointMap| == mesh.NumPoints()
    requires CellsMapped(mesh, visited, pointMap) && PointMapInv(pointMap, order)
    requires mode == LargestRegion ==> largestRegionId >= 0
    ensures forall i, j :: 0 <= i < j < |cells| ==> cells[i] < cells[j]
    ensures forall c: nat :: c in cells <==> c < |visited| && Selected(mode, visited[c], specified, largestRegionId)
    ensures |conn| == |cells|
    ensures forall i :: 0 <= i < |cells| ==> cells[i] < |visited| && conn[i] == Gather(pointMap, mesh.cellPoints[cells[i]])
    ensures forall i :: 0 <= i < |cells| ==> StandFor(conn[i], order, mesh.cellPoints[cells[i]])
  {
    cells, conn := [], [];
    var cellId := 0;
    while cellId < |visited|
      invariant 0 <= cellId <= |visited| && |conn| == |cells|
      invariant forall i, j :: 0 <= i < j < |cells| ==> cells[i] < cells[j]
      invariant forall i :: 0 <= i < |cells| ==> cells[i] < cellId
      invariant forall c: nat :: c in cells <==> c < cellId && Selected(mode, visited[c], specified, largestRegionId)
      invariant forall i :: 0 <= i < |cells| ==> conn[i] == Gather(pointMap, mesh.cellPoints[cells[i]])
      invariant forall i :: 0 <= i < |cells| ==> StandFor(conn[i], order, mesh.cellPoints[cells[i]])
    {
      var regionId := visited[cellId];
      var take := false;
      match mode {
        case SpecifiedRegions =>
          if regionId >= 0 {
            take := InRegionList(regionId, specified);
          }
        case LargestRegion =>
          take := regionId == largestRegionId;
        case _ =>
          take := regionId >= 0;
      }
      if take {
        MappedCellStandsFor(mesh, visited, pointMap, order, cellId);
        cells := cells + [cellId];
        conn := conn + [Gather(pointMap, mesh.cellPoints[cellId])];
      }
      cellId := cellId + 1;
    }
  }

  /** The labelling state of vtkConnectivityFilter while RequestData runs. */
  class ConnectivityFilter {
    /** Visited: the region of each cell, -1 while unvisited. */
    var visited: array<int>
    /** PointMap: the output id of each point, -1 while unreached. */
    var pointMap: array<int>
    /** NewScalars: the region of each output point. */
    var newScalars: array<int>
    /** NewCellScalars: the region of each cell. */
    var newCellScalars: array<int>
    var wave: seq<nat>
    var wave2: seq<nat>
    var regionNumber: nat
    var pointNumber: nat
    var numCellsInRegion: nat
    var regionSizes: seq<int>
    /** The points in the order they received output ids. */
    ghost var order: seq<nat>

    ghost function Arrays(): (array<int>, array<int>, array<int>, array<int>)
      reads this
    {
      (visited, pointMap, newScalars, newCellScalars)
    }

    ghost predicate Valid(mesh: Mesh, crit: Criterion)
      reads this, visited, pointMap, newScalars, newCellScalars
    {
      mesh.Valid() && CriterionFits(mesh, crit)
      && visited.Length == mesh.NumCells() && newCellScalars.Length == mesh.NumCells()
      && pointMap.Length == mesh.NumPoints() && newScalars.Length == mesh.NumPoints()
      && visited != pointMap && visited != newScalars && visited != newCellScalars
      && pointMap != newScalars && pointMap != newCellScalars && newScalars != newCellScalars
      && PointMapInv(pointMap[..], order) && pointNumber == |order| && pointNumber <= newScalars.Length
      && (forall c :: 0 <= c < visited.Length ==> -1 <= visited[c] <= regionNumber)
      && (forall c :: 0 <= c < visited.Length && visited[c] >= 0 ==> newCellScalars[c] == visited[c])
      && (forall i :: 0 <= i < pointNumber ==> 0 <= newScalars[i] <= regionNumber)
      && (forall k :: 0 <= k < |wave| ==> wave[k] < mesh.NumCells())
      && (forall k :: 0 <= k < |wave2| ==> wave2[k] < mesh.NumCells())
    }

    /** The inner loop over the cells using point p: the accepted ones are pushed onto Wave2. */
    method EnqueueNeighbors(mesh: Mesh, crit: Criterion, p: nat)
      requires mesh.Valid() && CriterionFits(mesh, crit) && p < mesh.NumPoints()
      modifies this`wave2
      ensures wave2 == old(wave2) + AcceptedOf(mesh, crit, mesh.pointCells[p])
    {
      var accepted := AcceptedCells(mesh, crit, mesh.pointCells[p]);
      wave2 := wave2 + accepted;
    }

    ghost function Snap(): Snapshot
      reads this, visited, pointMap, newScalars
    {
      Snapshot(visited[..], pointMap[..], newScalars[..], order, numCellsInRegion)
    }

    /**
     * The body of the wave loop for an unvisited cell: it takes the current
     * region number, every point gets an output id if it has none, and the
     * accepted cells around every one of its points join the next wave.
     */
    method MarkCell(mesh: Mesh, crit: Criterion, c: nat, ghost rest: seq<nat>)
      requires Valid(mesh, crit) && CellsMapped(mesh, visited[..], pointMap[..])
      requires c < mesh.NumCells() && visited[c] < 0
      requires Closed(mesh, crit, visited[..], pointMap[..], [c] + rest + wave2)
      modifies this`numCellsInRegion, this`pointNumber, this`order, this`wave2, visited, pointMap, newScalars, newCellScalars
      ensures Valid(mesh, crit) && CellsMapped(mesh, visited[..], pointMap[..])
      ensures visited[..] == old(visited[..])[c := regionNumber]
      ensures numCellsInRegion == old(numCellsInRegion) + 1
      ensures Closed(mesh, crit, visited[..], pointMap[..], rest + wave2)
      ensures forall q :: 0 <= q < pointMap.Length && old(pointMap[q]) >= 0 ==> pointMap[q] == old(pointMap[q])
      ensures old(order) <= order
      ensures forall i :: 0 <= i < old(pointNumber) ==> newScalars[i] == old(newScalars[i])
      ensures forall i :: old(pointNumber) <= i < pointNumber ==> newScalars[i] == regionNumber
    {
      Label(mesh, crit, c, rest);
      var pts := mesh.cellPoints[c];
      var j := 0;
      while j < |pts|
        invariant 0 <= j <= |pts|
        invariant Valid(mesh, crit)
        invariant visited[..] == old(visited[..])[c := regionNumber]
        invariant numCellsInRegion == old(numCellsInRegion) + 1
        invariant forall j' :: 0 <= j' < j ==> pointMap[pts[j']] >= 0
        invariant forall q :: 0 <= q < pointMap.Length && old(pointMap[q]) >= 0 ==> pointMap[q] == old(pointMap[q])
        invariant Closed(mesh, crit, visited[..], pointMap[..], rest + wave2)
        invariant old(order) <= order
        invariant forall i :: 0 <= i < old(pointNumber) ==> newScalars[i] == old(newScalars[i])
        invariant forall i :: old(pointNumber) <= i < pointNumber ==> newScalars[i] == regionNumber
      {
        ReachPoint(mesh, crit, pts[j], rest);
        j := j + 1;
      }
      forall c', j' | 0 <= c' < visited.Length && 0 <= j' < |mesh.cellPoints[c']| && visited[c'] >= 0
        ensures pointMap[mesh.cellPoints[c'][j']] >= 0
      {
        if c' != c {
          assert old(visited[c']) >= 0;
          assert old(pointMap[mesh.cellPoints[c'][j']]) >= 0;
        }
      }
    }

    /** MarkCell as a step of the traversal. */
    method MarkStep(mesh: Mesh, crit: Criterion, c: nat, ghost rest: seq<nat>)
      requires Valid(mesh, crit) && CellsMapped(mesh, visited[..], pointMap[..])
      requires c < mesh.NumCells() && visited[c] < 0
      requires Closed(mesh, crit, visited[..], pointMap[..], [c] + rest + wave2)
      modifies this`numCellsInRegion, this`pointNumber, this`order, this`wave2, visited, pointMap, newScalars, newCellScalars
      ensures Valid(mesh, crit) && CellsMapped(mesh, visited[..], pointMap[..])
      ensures visited[c] >= 0 && numCellsInRegion > old(numCellsInRegion)
      ensures forall c' :: 0 <= c' < visited.Length && old(visited[c']) >= 0 ==> visited[c'] >= 0
      ensures Closed(mesh, crit, visited[..], pointMap[..], rest + wave2)
      ensures Grew(old(Snap()), Snap(), regionNumber)
    {
      ghost var v0 := visited[..];
      MarkCell(mesh, crit, c, rest);
      CountUpdate(v0, c, regionNumber, regionNumber);
      CountUpdate(v0, c, regionNumber, -1);
    }

    /** One entry of the wave: an unvisited cell is marked, a visited one skipped. */
    method Consider(mesh: Mesh, crit: Criterion, cellId: nat, ghost rest: seq<nat>)
      requires Valid(mesh, crit) && CellsMapped(mesh, visited[..], pointMap[..])
      requires cellId < mesh.NumCells()
      requires Closed(mesh, crit, visited[..], pointMap[..], [cellId] + rest + wave2)
      modifies this`numCellsInRegion, this`pointNumber, this`order, this`wave2, visited, pointMap, newScalars, newCellScalars
      ensures Valid(mesh, crit) && CellsMapped(mesh, visited[..], pointMap[..])
      ensures visited[cellId] >= 0
      ensures forall c :: 0 <= c < visited.Length && old(visited[c]) >= 0 ==> visited[c] >= 0
      ensures Closed(mesh, crit, visited[..], pointMap[..], rest + wave2)
      ensures Grew(old(Snap()), Snap(), regionNumber)
      ensures numCellsInRegion == old(numCellsInRegion) ==> wave2 == old(wave2)
    {
      if visited[cellId] < 0 {
        MarkStep(mesh, crit, cellId, rest);
      } else {
        assert [cellId] + rest + wave2 == [cellId] + (rest + wave2);
        ClosedDrop(mesh, crit, visited[..], pointMap[..], cellId, rest + wave2);
        GrewRefl(Snap(), regionNumber);
      }
    }

    /**
     * TraverseAndMark: waves are processed until one is empty; each
     * unvisited cell of a wave is marked with the current region, visited
     * cells are skipped.  Afterwards every seed of the first wave is
     * visited, only unvisited cells changed (to the current region),
     * NumCellsInRegion grew by the number of them, and the visited cells are
     * closed under the connectivity criterion.
     */
    method TraverseAndMark(mesh: Mesh, crit: Criterion)
      requires Valid(mesh, crit) && CellsMapped(mesh, visited[..], pointMap[..]) && wave2 == []
      requires Closed(mesh, crit, visited[..], pointMap[..], wave)
      modifies this`wave, this`numCellsInRegion, this`pointNumber, this`order, this`wave2, visited, pointMap, newScalars, newCellScalars
      ensures Valid(mesh, crit) && CellsMapped(mesh, visited[..], pointMap[..])
      ensures wave == [] && wave2 == []
      ensures Closed(mesh, crit, visited[..], pointMap[..], [])
      ensures AllVisited(visited[..], old(wave))
      ensures Grew(old(Snap()), Snap(), regionNumber)
    {
      ghost var seeds := wave;
      GrewRefl(Snap(), regionNumber);
      while |wave| > 0
        invariant Valid(mesh, crit) && CellsMapped(mesh, visited[..], pointMap[..]) && wave2 == []
        invariant Closed(mesh, crit, visited[..], pointMap[..], wave)
        invariant wave == seeds || AllVisited(visited[..], seeds)
        invariant Grew(old(Snap()), Snap(), regionNumber)
        decreases Count(visited[..], -1), |wave|
      {
        ghost var before := Snap();
        ghost var w0 := wave;
        ProcessWave(mesh, crit);
        GrewTrans(old(Snap()), before, Snap(), regionNumber);
        if w0 != seeds {
          AllVisitedGrew(before, Snap(), regionNumber, seeds);
        }
      }
    }

    /**
     * One pass of the wave loop: every cell of Wave is considered in turn,
     * then Wave2 becomes the next wave.  Either some cell was marked (fewer
     * unvisited cells remain) or the next wave is empty.
     */
    method ProcessWave(mesh: Mesh, crit: Criterion)
      requires Valid(mesh, crit) && CellsMapped(mesh, visited[..], pointMap[..]) && wave2 == [] && |wave| > 0
      requires Closed(mesh, crit, visited[..], pointMap[..], wave)
      modifies this`wave, this`numCellsInRegion, this`pointNumber, this`order, this`wave2, visited, pointMap, newScalars, newCellScalars
      ensures Valid(mesh, crit) && CellsMapped(mesh, visited[..], pointMap[..]) && wave2 == []
      ensures Closed(mesh, crit, visited[..], pointMap[..], wave)
      ensures AllVisited(visited[..], old(wave))
      ensures Grew(old(Snap()), Snap(), regionNumber)
      ensures numCellsInRegion > old(numCellsInRegion) || wave == []
    {
      ConsiderAll(mesh, crit);
      wave := wave2;
      wave2 := [];
    }

    /** The loop over the cells of Wave; the cells they lead to gather in Wave2. */
    method ConsiderAll(mesh: Mesh, crit: Criterion)
      requires Valid(mesh, crit) && CellsMapped(mesh, visited[..], pointMap[..]) && wave2 == [] && |wave| > 0
      requires Closed(mesh, crit, visited[..], pointMap[..], wave)
      modifies this`numCellsInRegion, this`pointNumber, this`order, this`wave2, visited, pointMap, newScalars, newCellScalars
      ensures Valid(mesh, crit) && CellsMapped(mesh, visited[..], pointMap[..])
      ensures Closed(mesh, crit, visited[..], pointMap[..], wave2)
      ensures AllVisited(visited[..], wave)
      ensures Grew(old(Snap()), Snap(), regionNumber)
      ensures numCellsInRegion > old(numCellsInRegion) || wave2 == []
    {
      var numIds := |wave|;
      var i := 0;
      ghost var s0 := Snap();
      ghost var todo, done := wave, [];
      GrewRefl(s0, regionNumber);
      assert todo + wave2 == wave;
      while i < numIds
        invariant 0 <= i <= numIds && todo == wave[i..] && done == wave[..i]
        invariant Valid(mesh, crit) && CellsMapped(mesh, visited[..], pointMap[..])
        invariant Closed(mesh, crit, visited[..], pointMap[..], todo + wave2)
        invariant AllVisited(visited[..], done)
        invariant Grew(s0, Snap(), regionNumber)
        invariant numCellsInRegion == s0.numCellsInRegion ==> wave2 == []
      {
        assert wave[i..][1..] == wave[i + 1..] && wave[..i + 1] == wave[..i] + [wave[i]];
        done := Visit(mesh, crit, wave[i], todo, done, s0);
        todo := todo[1..];
        i := i + 1;
      }
      assert todo + wave2 == wave2;
      assert done == wave;
    }

    /** Entry i of wave w is considered, keeping the facts the wave loop needs. */
    method Visit(mesh: Mesh, crit: Criterion, c: nat, ghost todo: seq<nat>, ghost done: seq<nat>, ghost s0: Snapshot)
      returns (ghost done': seq<nat>)
      requires Valid(mesh, crit) && CellsMapped(mesh, visited[..], pointMap[..])
      requires |todo| > 0 && todo[0] == c && c < mesh.NumCells()
      requires Closed(mesh, crit, visited[..], pointMap[..], todo + wave2)
      requires AllVisited(visited[..], done)
      requires Grew(s0, Snap(), regionNumber)
      requires numCellsInRegion == s0.numCellsInRegion ==> wave2 == []
      modifies this`numCellsInRegion, this`pointNumber, this`order, this`wave2, visited, pointMap, newScalars, newCellScalars
      ensures done' == done + [c]
      ensures Valid(mesh, crit) && CellsMapped(mesh, visited[..], pointMap[..])
      ensures Closed(mesh, crit, visited[..], pointMap[..], todo[1..] + wave2)
      ensures AllVisited(visited[..], done')
      ensures Grew(s0, Snap(), regionNumber)
      ensures numCellsInRegion == s0.numCellsInRegion ==> wave2 == []
    {
      ghost var before := Snap();
      assert todo + wave2 == [c] + todo[1..] + wave2;
      Consider(mesh, crit, c, todo[1..]);
      GrewTrans(s0, before, Snap(), regionNumber);
      done' := done + [c];
    }

    /** The cell itself takes the region number (Visited and NewCellScalars), and NumCellsInRegion grows. */
    method Label(mesh: Mesh, crit: Criterion, c: nat, ghost rest: seq<nat>)
      requires Valid(mesh, crit) && c < mesh.NumCells() && visited[c] < 0
      requires Closed(mesh, crit, visited[..], pointMap[..], [c] + rest + wave2)
      modifies this`numCellsInRegion, visited, newCellScalars
      ensures Valid(mesh, crit)
      ensures visited[..] == old(visited[..])[c := regionNumber]
      ensures numCellsInRegion == old(numCellsInRegion) + 1
      ensures Closed(mesh, crit, visited[..], pointMap[..], rest + wave2)
    {
      ClosedAfterMark(mesh, crit, visited[..], pointMap[..], c, regionNumber, rest + wave2);
      assert [c] + rest + wave2 == [c] + (rest + wave2);
      visited[c] := regionNumber;
      newCellScalars[c] := regionNumber;
      numCellsInRegion := numCellsInRegion + 1;
      assert visited[..] == old(visited[..])[c := regionNumber];
    }

    /**
     * One point of a newly marked cell: an unreached point takes the next
     * output id and records the region; then the accepted cells around it
     * are pushed onto Wave2.
     */
    method ReachPoint(mesh: Mesh, crit: Criterion, p: nat, ghost rest: seq<nat>)
      requires Valid(mesh, crit) && p < mesh.NumPoints()
      requires Closed(mesh, crit, visited[..], pointMap[..], rest + wave2)
      modifies this`wave2, this`pointNumber, this`order, pointMap, newScalars
      ensures Valid(mesh, crit)
      ensures pointMap[p] >= 0
      ensures forall q :: 0 <= q < pointMap.Length && old(pointMap[q]) >= 0 ==> pointMap[q] == old(pointMap[q])
      ensures Closed(mesh, crit, visited[..], pointMap[..], rest + wave2)
      ensures old(order) <= order
      ensures forall i :: 0 <= i < old(pointNumber) ==> newScalars[i] == old(newScalars[i])
      ensures forall i :: old(pointNumber) <= i < pointNumber ==> newScalars[i] == regionNumber
    {
      ghost var pm0 := pointMap[..];
      ghost var pending0 := rest + wave2;
      NumberPoint(mesh, crit, p);
      EnqueueNeighbors(mesh, crit, p);
      ClosedAfterReach(mesh, crit, visited[..], pm0, pointMap[..], pending0, rest + wave2, p);
    }

    /** An unreached point takes the next output id and records the current region. */
    method NumberPoint(mesh: Mesh, crit: Criterion, p: nat)
      requires Valid(mesh, crit) && p < mesh.NumPoints()
      modifies this`pointNumber, this`order, pointMap, newScalars
      ensures Valid(mesh, crit)
      ensures pointMap[p] >= 0
      ensures forall q :: 0 <= q < pointMap.Length && old(pointMap[q]) >= 0 ==> pointMap[q] == old(pointMap[q])
      ensures forall q :: 0 <= q < pointMap.Length && pointMap[q] >= 0 ==> old(pointMap[q]) >= 0 || q == p
      ensures old(order) <= order
      ensures forall i :: 0 <= i < old(pointNumber) ==> newScalars[i] == old(newScalars[i])
      ensures forall i :: old(pointNumber) <= i < pointNumber ==> newScalars[i] == regionNumber
    {
      if pointMap[p] < 0 {
        PointMapRoom(pointMap[..], order, p);
        PointMapExtend(pointMap[..], order, p);
        pointMap[p] := pointNumber;
        order := order + [p];
        newScalars[pointNumber] := regionNumber;
        pointNumber := pointNumber + 1;
      }
    }


    /**
     * The initialisation of RequestData: Visited and PointMap start at -1,
     * no region and no output point exist yet, and both waves are empty.
     */
    constructor(mesh: Mesh, crit: Criterion)
      requires mesh.Valid() && CriterionFits(mesh, crit)
      ensures Valid(mesh, crit) && Fresh()
      ensures fresh(visited) && fresh(pointMap) && fresh(newScalars) && fresh(newCellScalars)
    {
      visited := new int[mesh.NumCells()](_ => -1);
      pointMap := new int[mesh.NumPoints()](_ => -1);
      newScalars := new int[mesh.NumPoints()](_ => 0);
      newCellScalars := new int[mesh.NumCells()](_ => 0);
      wave, wave2 := [], [];
      regionNumber, pointNumber, numCellsInRegion := 0, 0, 0;
      regionSizes := [];
      order := [];
    }

    /** Nothing labelled yet. */
    ghost predicate Fresh()
      reads this, visited, pointMap
    {
      (forall c :: 0 <= c < visited.Length ==> visited[c] == -1)
      && (forall p :: 0 <= p < pointMap.Length ==> pointMap[p] == -1)
      && order == [] && regionNumber == 0 && regionSizes == [] && wave == [] && wave2 == []
    }

    /** The labelling before and between regions, with the region bookkeeping. */
    ghost predicate Labelled(mesh: Mesh, crit: Criterion)
      reads this, visited, pointMap, newScalars, newCellScalars
    {
      Valid(mesh, crit) && CellsMapped(mesh, visited[..], pointMap[..])
      && Closed(mesh, crit, visited[..], pointMap[..], [])
      && wave == [] && wave2 == [] && |regionSizes| == regionNumber
      && SizesMatch(visited[..], regionSizes) && Separated(mesh, crit, visited[..])
    }

    lemma FreshLabelled(mesh: Mesh, crit: Criterion)
      requires Valid(mesh, crit) && Fresh()
      ensures Labelled(mesh, crit)
    {
      CountVisitedZero(visited[..]);
    }

    /**
     * One iteration of the region loop of RequestData for an unvisited cell:
     * NumCellsInRegion restarts at 0, the cell seeds a traversal, and its
     * count is recorded as the size of the new region.
     */
    method LabelRegion(mesh: Mesh, crit: Criterion, cellId: nat)
      requires Labelled(mesh, crit) && cellId < mesh.NumCells() && visited[cellId] < 0
      modifies this`wave, this`numCellsInRegion, this`pointNumber, this`order, this`wave2
      modifies this`regionNumber, this`regionSizes, visited, pointMap, newScalars, newCellScalars
      ensures Labelled(mesh, crit) && visited[cellId] >= 0
      ensures regionNumber == old(regionNumber) + 1
      ensures regionSizes == old(regionSizes) + [numCellsInRegion]
      ensures forall c :: 0 <= c < visited.Length && old(visited[c]) >= 0 ==> visited[c] == old(visited[c])
    {
      StartRegion(mesh, crit, cellId);
      GrowRegion(mesh, crit, cellId);
      FinishRegion(mesh, crit);
    }

    /** The traversal from the seed cell, with what it means for the region bookkeeping. */
    method GrowRegion(mesh: Mesh, crit: Criterion, cellId: nat)
      requires Valid(mesh, crit) && CellsMapped(mesh, visited[..], pointMap[..]) && wave2 == []
      requires Closed(mesh, crit, visited[..], pointMap[..], wave) && wave == [cellId] && numCellsInRegion == 0
      requires |regionSizes| == regionNumber && SizesMatch(visited[..], regionSizes) && Separated(mesh, crit, visited[..])
      requires cellId < mesh.NumCells() && visited[cellId] < 0
      modifies this`wave, this`numCellsInRegion, this`pointNumber, this`order, this`wave2, visited, pointMap, newScalars, newCellScalars
      ensures Valid(mesh, crit) && CellsMapped(mesh, visited[..], pointMap[..])
      ensures Closed(mesh, crit, visited[..], pointMap[..], []) && wave == [] && wave2 == []
      ensures |regionSizes| == regionNumber && Separated(mesh, crit, visited[..])
      ensures SizesMatch(visited[..], regionSizes + [numCellsInRegion])
      ensures visited[cellId] >= 0
      ensures forall c :: 0 <= c < visited.Length && old(visited[c]) >= 0 ==> visited[c] == old(visited[c])
    {
      ghost var a := Snap();
      TraverseAndMark(mesh, crit);
      assert AllVisited(visited[..], [cellId]);
      assert [cellId][0] == cellId;
      ghost var b := Snap();
      assert b.visited[cellId] >= 0;
      forall c | 0 <= c < visited.Length && a.visited[c] >= 0 ensures visited[c] == a.visited[c] {
        assert b.visited[c] == a.visited[c];
      }
      SizesAfterRegion(a, b, regionSizes, cellId);
      SeparatedAfterRegion(mesh, crit, a, b, regionNumber);
    }

    /** The start of a region: NumCellsInRegion restarts at 0 and the seed cell forms the wave. */
    method StartRegion(mesh: Mesh, crit: Criterion, cellId: nat)
      requires Labelled(mesh, crit) && cellId < mesh.NumCells()
      modifies this`numCellsInRegion, this`wave
      ensures Valid(mesh, crit) && CellsMapped(mesh, visited[..], pointMap[..]) && wave2 == []
      ensures Closed(mesh, crit, visited[..], pointMap[..], wave) && wave == [cellId] && numCellsInRegion == 0
      ensures |regionSizes| == regionNumber && SizesMatch(visited[..], regionSizes) && Separated(mesh, crit, visited[..])
    {
      numCellsInRegion := 0;
      wave := [cellId];
    }

    /** The end of a region: its count is appended to RegionSizes and the region number advances. */
    method FinishRegion(mesh: Mesh, crit: Criterion)
      requires Valid(mesh, crit) && CellsMapped(mesh, visited[..], pointMap[..])
      requires Closed(mesh, crit, visited[..], pointMap[..], []) && wave == [] && wave2 == []
      requires |regionSizes| == regionNumber && Separated(mesh, crit, visited[..])
      requires SizesMatch(visited[..], regionSizes + [numCellsInRegion])
      modifies this`regionNumber, this`regionSizes
      ensures Labelled(mesh, crit)
      ensures regionNumber == old(regionNumber) + 1
      ensures regionSizes == old(regionSizes) + [numCellsInRegion]
    {
      regionSizes := regionSizes + [numCellsInRegion];
      regionNumber := regionNumber + 1;
    }

    /**
     * The region loop of RequestData (all modes but the seeded ones): every
     * unvisited cell, in id order, starts a new region.  Afterwards every
     * cell is visited, RegionSizes holds each region's cell count and sums
     * to the number of cells, and the largest region is the first one with
     * the maximal count.
     */
    method LabelAllRegions(mesh: Mesh, crit: Criterion) returns (largestRegionId: nat)
      requires Valid(mesh, crit) && Fresh()
      modifies this`wave, this`numCellsInRegion, this`pointNumber, this`order, this`wave2
      modifies this`regionNumber, this`regionSizes, visited, pointMap, newScalars, newCellScalars
      ensures Labelled(mesh, crit)
      ensures forall c :: 0 <= c < visited.Length ==> 0 <= visited[c] < regionNumber
      ensures Sum(regionSizes) == mesh.NumCells()
      ensures regionNumber == 0 ==> largestRegionId == 0
      ensures regionNumber > 0 ==> largestRegionId < regionNumber
      ensures forall r :: 0 <= r < regionNumber ==> regionSizes[r] <= regionSizes[largestRegionId]
      ensures forall r :: 0 <= r < largestRegionId ==> regionSizes[r] < regionSizes[largestRegionId]
    {
      FreshLabelled(mesh, crit);
      var maxCellsInRegion := 0;
      largestRegionId := 0;
      var cellId := 0;
      while cellId < mesh.NumCells()
        invariant 0 <= cellId <= mesh.NumCells() && Labelled(mesh, crit)
        invariant forall c :: 0 <= c < cellId ==> visited[c] >= 0
        invariant regionNumber == 0 ==> largestRegionId == 0 && maxCellsInRegion == 0
        invariant regionNumber > 0 ==> largestRegionId < regionNumber && maxCellsInRegion == regionSizes[largestRegionId]
        invariant forall r :: 0 <= r < regionNumber ==> regionSizes[r] <= maxCellsInRegion
        invariant forall r :: 0 <= r < largestRegionId ==> regionSizes[r] < maxCellsInRegion
      {
        if visited[cellId] < 0 {
          maxCellsInRegion, largestRegionId := LabelAndCompare(mesh, crit, cellId, maxCellsInRegion, largestRegionId);
        }
        cellId := cellId + 1;
      }
      CountVisitedAll(visited[..]);
    }

    /**
     * One new region of the region loop, followed by the comparison of its
     * size with the largest one so far (the first maximum wins).
     */
    method LabelAndCompare(mesh: Mesh, crit: Criterion, cellId: nat, maxCells: int, largest: nat)
      returns (maxCells': int, largest': nat)
      requires Labelled(mesh, crit) && cellId < mesh.NumCells() && visited[cellId] < 0
      requires regionNumber == 0 ==> largest == 0 && maxCells == 0
      requires regionNumber > 0 ==> largest < regionNumber && maxCells == regionSizes[largest]
      requires forall r :: 0 <= r < regionNumber ==> regionSizes[r] <= maxCells
      requires forall r :: 0 <= r < largest ==> regionSizes[r] < maxCells
      modifies this`wave, this`numCellsInRegion, this`pointNumber, this`order, this`wave2
      modifies this`regionNumber, this`regionSizes, visited, pointMap, newScalars, newCellScalars
      ensures Labelled(mesh, crit) && visited[cellId] >= 0
      ensures forall c :: 0 <= c < visited.Length && old(visited[c]) >= 0 ==> visited[c] == old(visited[c])
      ensures regionNumber > 0 && largest' < regionNumber && maxCells' == regionSizes[largest']
      ensures forall r :: 0 <= r < regionNumber ==> regionSizes[r] <= maxCells'
      ensures forall r :: 0 <= r < largest' ==> regionSizes[r] < maxCells'
    {
      ghost var sizes0 := regionSizes;
      LabelRegion(mesh, crit, cellId);
      var region := regionNumber - 1;
      assert regionSizes == sizes0 + [numCellsInRegion] && |sizes0| == region;
      maxCells', largest' := maxCells, largest;
      if numCellsInRegion > maxCells {
        maxCells' := numCellsInRegion;
        largest' := region;
      }
    }

    /**
     * The seeded branch of RequestData: all seeds form one wave, the
     * traversal marks everything reachable from them as region 0, and
     * RegionSizes receives that one count.
     */
    method LabelSeeded(mesh: Mesh, crit: Criterion, seedWave: seq<nat>)
      requires Valid(mesh, crit) && Fresh()
      requires forall k :: 0 <= k < |seedWave| ==> seedWave[k] < mesh.NumCells()
      modifies this`wave, this`numCellsInRegion, this`pointNumber, this`order, this`wave2
      modifies this`regionSizes, visited, pointMap, newScalars, newCellScalars
      ensures Valid(mesh, crit) && CellsMapped(mesh, visited[..], pointMap[..])
      ensures Closed(mesh, crit, visited[..], pointMap[..], [])
      ensures AllVisited(visited[..], seedWave)
      ensures forall c :: 0 <= c < visited.Length ==> visited[c] == -1 || visited[c] == 0
      ensures regionNumber == 0 && regionSizes == [CountVisited(visited[..])]
      ensures SizesMatch(visited[..], regionSizes) || seedWave == []
    {
      StartSeeded(mesh, crit, seedWave);
      GrowSeeded(mesh, crit, seedWave);
      regionSizes := [numCellsInRegion];
    }

    /** The traversal from all seeds at once, which marks region 0 only. */
    method GrowSeeded(mesh: Mesh, crit: Criterion, seedWave: seq<nat>)
      requires Valid(mesh, crit) && CellsMapped(mesh, visited[..], pointMap[..]) && wave2 == []
      requires Closed(mesh, crit, visited[..], pointMap[..], wave) && wave == seedWave && numCellsInRegion == 0
      requires forall c :: 0 <= c < visited.Length ==> visited[c] == -1
      requires regionNumber == 0
      modifies this`wave, this`numCellsInRegion, this`pointNumber, this`order, this`wave2, visited, pointMap, newScalars, newCellScalars
      ensures Valid(mesh, crit) && CellsMapped(mesh, visited[..], pointMap[..])
      ensures Closed(mesh, crit, visited[..], pointMap[..], [])
      ensures AllVisited(visited[..], seedWave)
      ensures forall c :: 0 <= c < visited.Length ==> visited[c] == -1 || visited[c] == 0
      ensures regionNumber == 0 && numCellsInRegion == CountVisited(visited[..])
      ensures SizesMatch(visited[..], [numCellsInRegion]) || seedWave == []
    {
      ghost var a := Snap();
      TraverseAndMark(mesh, crit);
      SeededFacts(a, Snap(), seedWave);
    }

    /** The seeded wave replaces the empty one, and NumCellsInRegion restarts at 0. */
    method StartSeeded(mesh: Mesh, crit: Criterion, seedWave: seq<nat>)
      requires Valid(mesh, crit) && Fresh()
      requires forall k :: 0 <= k < |seedWave| ==> seedWave[k] < mesh.NumCells()
      modifies this`wave, this`numCellsInRegion
      ensures Valid(mesh, crit) && CellsMapped(mesh, visited[..], pointMap[..]) && wave2 == []
      ensures Closed(mesh, crit, visited[..], pointMap[..], wave) && wave == seedWave && numCellsInRegion == 0
      ensures forall c :: 0 <= c < visited.Length ==> visited[c] == -1
      ensures CountVisited(visited[..]) == 0 && SizesMatch(visited[..], []) && regionNumber == 0
    {
      CountVisitedZero(visited[..]);
      numCellsInRegion := 0;
      wave := seedWave;
    }

    /** GetNumberOfExtractedRegions: one more than the last RegionSizes index. */
    function NumberOfExtractedRegions(): (n: int)
      reads this
      ensures n == |regionSizes|
    {
      |regionSizes|
    }

    /**
     * While the region sizes match the visit marks, the number of extracted
     * regions is the number of region labels in use: every label below it
     * marks some cell, and every mark is below it.
     */
    lemma ExtractedRegionsAreLabels()
      requires SizesMatch(visited[..], regionSizes)
      ensures forall r :: 0 <= r < NumberOfExtractedRegions() ==> r in visited[..]
      ensures forall c :: 0 <= c < visited.Length && visited[c] >= 0 ==> visited[c] < NumberOfExtractedRegions()
    {
      RegionLabelsInUse(visited[..], regionSizes);
    }

    /**
     * OrderRegionIds: with ColorRegions on and a cell-count assignment
     * mode, RegionSizes is sorted and every region id in the point and cell
     * region arrays is replaced by its rank; otherwise nothing changes.
     */
    method OrderRegionIds(colorRegions: bool, assignment: RegionIdAssignment) returns (oldToNew: map<int, int>)
      requires newScalars != newCellScalars
      modifies this`regionSizes, newScalars, newCellScalars
      ensures !colorRegions || assignment == Unspecified ==>
                regionSizes == old(regionSizes) && newScalars[..] == old(newScalars[..]) && newCellScalars[..] == old(newCellScalars[..])
      ensures colorRegions && assignment != Unspecified ==>
                RankedBy(old(regionSizes), regionSizes, oldToNew, assignment == CellCountDescending)
                && (forall i :: 0 <= i < newScalars.Length ==> newScalars[i] == Remap(oldToNew, old(newScalars[i])))
                && (forall i :: 0 <= i < newCellScalars.Length ==> newCellScalars[i] == Remap(oldToNew, old(newCellScalars[i])))
    {
      oldToNew := map[];
      if colorRegions && assignment != Unspecified {
        var newSizes;
        newSizes, oldToNew := RankRegions(regionSizes, assignment == CellCountDescending);
        regionSizes := newSizes;
        RemapIds(newScalars, oldToNew);
        RemapIds(newCellScalars, oldToNew);
      }
    }
  }
}
