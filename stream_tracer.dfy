// vtkStreamTracer: the settings that pick the integrator and the step
// unit, the conversion of an interval to a length, the seed list built for
// the integration directions, and the prefix sum that turns the per-seed
// point counts into output offsets (TracerIntegrator::Reduce) together with
// the compositing pass that writes the polyline cell array from them.
module StreamTracer {
  import opened Common

  // ---- Constants of the filter -----------------------------------------------------

  /** The step units. */
  const LengthUnit := 1
  const CellLengthUnit := 2

  /** The integration directions. */
  const Forward := 0
  const Backward := 1
  const Both := 2

  /** The integrator types SetIntegratorType recognises. */
  const RungeKutta2 := 0
  const RungeKutta4 := 1
  const RungeKutta45 := 2

  /** The unit SetIntegrationStepUnit stores: anything but the two units becomes cell length. */
  function NormalizedUnit(unit: int): (r: int)
    ensures r == LengthUnit || r == CellLengthUnit
    ensures r == unit || (unit != LengthUnit && unit != CellLengthUnit)
    ensures unit != LengthUnit && unit != CellLengthUnit ==> r == CellLengthUnit
  {
    if unit != LengthUnit && unit != CellLengthUnit then CellLengthUnit else unit
  }

  /** Normalising a unit twice is normalising it once. */
  lemma NormalizedUnitIdempotent(unit: int)
    ensures NormalizedUnit(NormalizedUnit(unit)) == NormalizedUnit(unit)
  {
  }

  /** The integrator a type selects, or None for an unrecognised type. */
  function IntegratorFor(kind: int): (r: Option<int>)
    ensures r.Some? <==> kind == RungeKutta2 || kind == RungeKutta4 || kind == RungeKutta45
    ensures r.Some? ==> r.value == kind
  {
    if kind == RungeKutta2 || kind == RungeKutta4 || kind == RungeKutta45 then Some(kind) else None
  }

  /** The settings of the filter that these operations touch, with its modification time. */
  class Tracer {
    var integrator: int
    var integrationStepUnit: int
    var integrationDirection: int
    var mtime: nat

    /** The defaults: second-order Runge-Kutta, cell-length steps, forward integration. */
    constructor()
      ensures integrator == RungeKutta2 && integrationStepUnit == CellLengthUnit
      ensures integrationDirection == Forward && mtime == 0
    {
      integrator := RungeKutta2;
      integrationStepUnit := CellLengthUnit;
      integrationDirection := Forward;
      mtime := 0;
    }

    /**
     * SetIntegratorType: installs a new integrator of a recognised type
     * (which marks the filter modified) and keeps the old one otherwise.
     */
    method SetIntegratorType(kind: int)
      modifies this`integrator, this`mtime
      ensures IntegratorFor(kind).Some? ==> integrator == kind && mtime == old(mtime) + 1
      ensures IntegratorFor(kind).None? ==> integrator == old(integrator) && mtime == old(mtime)
    {
      var ivp := IntegratorFor(kind);
      if ivp.Some? {
        integrator := ivp.value;
        mtime := mtime + 1;
      }
    }

    /**
     * SetIntegrationStepUnit: stores the normalised unit, and marks the
     * filter modified only when the stored unit changes.
     */
    method SetIntegrationStepUnit(unit: int)
      modifies this`integrationStepUnit, this`mtime
      ensures integrationStepUnit == NormalizedUnit(unit)
      ensures mtime == if NormalizedUnit(unit) == old(integrationStepUnit) then old(mtime) else old(mtime) + 1
    {
      var u := unit;
      if u != LengthUnit && u != CellLengthUnit {
        u := CellLengthUnit;
      }
      if u == integrationStepUnit {
        return;
      }
      integrationStepUnit := u;
      mtime := mtime + 1;
    }
  }

  /** Setting the same unit twice modifies the filter at most once. */
  method SetUnitTwice(t: Tracer, unit: int)
    modifies t
    ensures t.integrationStepUnit == NormalizedUnit(unit)
    ensures t.mtime <= old(t.mtime) + 1
  {
    t.SetIntegrationStepUnit(unit);
    ghost var m := t.mtime;
    t.SetIntegrationStepUnit(unit);
    NormalizedUnitIdempotent(unit);
    assert t.mtime == m;
  }

  // ---- ConvertToLength -------------------------------------------------------------

  /** An interval in the given unit as a length, for cells of the given length. */
  function ConvertToLength(interval: real, unit: int, cellLength: real): real
  {
    if unit == LengthUnit then interval
    else if unit == CellLengthUnit then interval * cellLength
    else 0.0
  }

  /**
   * An interval measured in cells is the same length as that many cell
   * lengths measured as a length, and an unknown unit gives 0.
   */
  lemma ConvertCellLengths(interval: real, unit: int, cellLength: real)
    ensures ConvertToLength(interval, CellLengthUnit, cellLength)
         == ConvertToLength(interval * cellLength, LengthUnit, cellLength)
    ensures unit != LengthUnit && unit != CellLengthUnit ==> ConvertToLength(interval, unit, cellLength) == 0.0
  {
  }

  // ---- InitializeSeeds -------------------------------------------------------------

  /**
   * InitializeSeeds: the seed ids and the direction of each integration.
   * source is the number of points of the seed source, or None when there
   * is no source and the start position is the one seed.  With a source of
   * no points there are no seeds at all.  For BOTH, every seed is listed
   * twice: all of them forward, then all of them backward.
   */
  method InitializeSeeds(direction: int, source: Option<nat>) returns (seedIds: seq<int>, directions: seq<int>)
    ensures var n := if source.Some? then source.value else 1;
      |seedIds| == |directions| == (if direction == Both then 2 * n else n) &&
      (forall i :: 0 <= i < |seedIds| ==> seedIds[i] == if i < n then i else i - n) &&
      forall i :: 0 <= i < |directions| ==>
        directions[i] == if direction != Both then direction else if i < n then Forward else Backward
  {
    var numSeeds := 0;
    seedIds := [];
    if source.Some? {
      numSeeds := source.value;
      if numSeeds > 0 {
        seedIds := SeedIdList(numSeeds, direction == Both);
      }
    } else {
      numSeeds := 1;
      seedIds := [0];
      if direction == Both {
        seedIds := seedIds + [0];
      }
    }
    directions := [];
    if numSeeds > 0 {
      directions := DirectionList(direction, numSeeds);
    }
  }

  /** The seed ids of a source of n points: 0 .. n-1, listed twice for BOTH. */
  method SeedIdList(n: nat, both: bool) returns (seedIds: seq<int>)
    requires n > 0
    ensures |seedIds| == if both then 2 * n else n
    ensures forall i :: 0 <= i < |seedIds| ==> seedIds[i] == if i < n then i else i - n
  {
    var ids := new int[if both then 2 * n else n];
    var i := 0;
    while i < n
      invariant 0 <= i <= n
      invariant forall j :: 0 <= j < i ==> ids[j] == j
      invariant both ==> forall j :: n <= j < n + i ==> ids[j] == j - n
    {
      ids[i] := i;
      if both {
        ids[n + i] := i;
      }
      i := i + 1;
    }
    seedIds := ids[..];
  }

  /** The direction of each of the seeds: n forward then n backward for BOTH, else the one direction. */
  method DirectionList(direction: int, n: nat) returns (directions: seq<int>)
    ensures |directions| == if direction == Both then 2 * n else n
    ensures forall i :: 0 <= i < |directions| ==>
      directions[i] == if direction != Both then direction else if i < n then Forward else Backward
  {
    directions := [];
    if direction == Both {
      var i := 0;
      while i < n
        invariant 0 <= i <= n && |directions| == i
        invariant forall j :: 0 <= j < i ==> directions[j] == Forward
      {
        directions := directions + [Forward];
        i := i + 1;
      }
      i := 0;
      while i < n
        invariant 0 <= i <= n && |directions| == n + i
        invariant forall j :: 0 <= j < n ==> directions[j] == Forward
        invariant forall j :: n <= j < n + i ==> directions[j] == Backward
      {
        directions := directions + [Backward];
        i := i + 1;
      }
    } else {
      var i := 0;
      while i < n
        invariant 0 <= i <= n && |directions| == i
        invariant forall j :: 0 <= j < i ==> directions[j] == direction
      {
        directions := directions + [direction];
        i := i + 1;
      }
    }
  }

  /**
   * For BOTH, every seed of the source is integrated once forward and once
   * backward: its forward entry is at its own index and its backward entry
   * n places later.
   */
  lemma BothDirectionsPerSeed(seedIds: seq<int>, directions: seq<int>, n: nat, s: int)
    requires |seedIds| == |directions| == 2 * n && 0 <= s < n
    requires forall i :: 0 <= i < |seedIds| ==> seedIds[i] == if i < n then i else i - n
    requires forall i :: 0 <= i < |directions| ==> directions[i] == if i < n then Forward else Backward
    ensures seedIds[s] == s && directions[s] == Forward
    ensures seedIds[n + s] == s && directions[n + s] == Backward
    ensures forall i :: 0 <= i < |seedIds| && seedIds[i] == s ==> i == s || i == n + s
  {
  }

  // ---- TracerIntegrator::Reduce ----------------------------------------------------

  /** What Reduce and the compositing pass use of a seed's TracerOffset. */
  datatype TracerOffset = TracerOffset(numPts: int, retVal: int, ptOffset: int, cellId: int)

  /** The points of the streamlines of the first k seeds (seeds without points add none). */
  function PointsBefore(s: seq<TracerOffset>, k: nat): (r: int)
    requires k <= |s|
    ensures r >= 0
  {
    if k == 0 then 0 else PointsBefore(s, k - 1) + (if s[k - 1].numPts > 0 then s[k - 1].numPts else 0)
  }

  /** The streamlines of the first k seeds, one per seed with points. */
  function CellsBefore(s: seq<TracerOffset>, k: nat): (r: int)
    requires k <= |s|
    ensures 0 <= r <= k
  {
    if k == 0 then 0 else CellsBefore(s, k - 1) + (if s[k - 1].numPts > 0 then 1 else 0)
  }

  /** The offsets after Reduce: each seed with points gets its point offset and its cell id. */
  function Scanned(s: seq<TracerOffset>): (r: seq<TracerOffset>)
    ensures |r| == |s|
  {
    seq(|s|, i requires 0 <= i < |s| =>
      if s[i].numPts > 0 then s[i].(ptOffset := PointsBefore(s, i), cellId := CellsBefore(s, i)) else s[i])
  }

  /**
   * The prefix sum Reduce starts with: an exclusive prefix sum over the
   * point counts of the seeds with points, numbering their streamlines
   * consecutively; returns the number of output points and of output cells.
   */
  method ScanOffsets(offsets: array<TracerOffset>) returns (numPts: int, numCells: int)
    modifies offsets
    ensures offsets[..] == Scanned(old(offsets[..]))
    ensures numPts == PointsBefore(old(offsets[..]), offsets.Length)
    ensures numCells == CellsBefore(old(offsets[..]), offsets.Length)
  {
    ghost var s := offsets[..];
    var ptOffset := 0;
    numCells := 0;
    var k := 0;
    while k < offsets.Length
      invariant 0 <= k <= offsets.Length
      invariant ptOffset == PointsBefore(s, k) && numCells == CellsBefore(s, k)
      invariant offsets[..k] == Scanned(s)[..k]
      invariant offsets[k..] == s[k..]
    {
      var npts := offsets[k].numPts;
      if npts > 0 {
        offsets[k] := offsets[k].(ptOffset := ptOffset, cellId := numCells);
        ptOffset := ptOffset + npts;
        numCells := numCells + 1;
      }
      assert offsets[..k + 1] == offsets[..k] + [offsets[k]];
      assert Scanned(s)[..k + 1] == Scanned(s)[..k] + [Scanned(s)[k]];
      assert offsets[k + 1..] == s[k + 1..] by {
        assert offsets[k + 1..] == offsets[k..][1..];
      }
      k := k + 1;
    }
    numPts := ptOffset;
    assert offsets[..] == offsets[..offsets.Length];
  }

  /** The counts of the first k seeds never exceed those of the first m, for k <= m. */
  lemma {:induction false} BeforeMonotone(s: seq<TracerOffset>, k: nat, m: nat)
    requires k <= m <= |s|
    ensures PointsBefore(s, k) <= PointsBefore(s, m) && CellsBefore(s, k) <= CellsBefore(s, m)
    decreases m - k
  {
    if k < m {
      BeforeMonotone(s, k, m - 1);
    }
  }

  /**
   * The streamlines Reduce lays out do not overlap: a seed with points
   * owns the output points [ptOffset, ptOffset + numPts), which lie within
   * the output and end before any later seed's begin, and later seeds get
   * higher cell ids below the number of cells.
   */
  lemma {:induction false} ScannedTiles(s: seq<TracerOffset>, i: nat, j: nat)
    requires i < j < |s| && s[i].numPts > 0 && s[j].numPts > 0
    ensures Scanned(s)[i].ptOffset + s[i].numPts <= Scanned(s)[j].ptOffset
    ensures Scanned(s)[i].cellId < Scanned(s)[j].cellId
  {
    BeforeMonotone(s, i + 1, j);
  }

  /** A seed with points gets a cell id below the number of cells and a point range inside the output. */
  lemma {:induction false} ScannedInRange(s: seq<TracerOffset>, i: nat)
    requires i < |s| && s[i].numPts > 0
    ensures 0 <= Scanned(s)[i].cellId < CellsBefore(s, |s|)
    ensures 0 <= Scanned(s)[i].ptOffset && Scanned(s)[i].ptOffset + s[i].numPts <= PointsBefore(s, |s|)
  {
    BeforeMonotone(s, i + 1, |s|);
  }

  /** Every cell id below the number of cells belongs to exactly one seed with points. */
  lemma {:induction false} CellIdsConsecutive(s: seq<TracerOffset>, k: nat, c: int) returns (i: nat)
    requires k <= |s| && 0 <= c < CellsBefore(s, k)
    ensures i < k && s[i].numPts > 0 && CellsBefore(s, i) == c
    decreases k
  {
    if c < CellsBefore(s, k - 1) {
      i := CellIdsConsecutive(s, k - 1, c);
    } else {
      i := k - 1;
    }
  }

  /** Every output point belongs to the streamline of some seed. */
  lemma {:induction false} PointsCovered(s: seq<TracerOffset>, k: nat, p: int) returns (i: nat)
    requires k <= |s| && 0 <= p < PointsBefore(s, k)
    ensures i < k && s[i].numPts > 0 && PointsBefore(s, i) <= p < PointsBefore(s, i) + s[i].numPts
    decreases k
  {
    if p < PointsBefore(s, k - 1) {
      i := PointsCovered(s, k - 1, p);
    } else {
      i := k - 1;
    }
  }

  // ---- CompositeOverSeeds ----------------------------------------------------------

  /**
   * The layout CompositeOverSeeds relies on: each seed with points has a
   * cell id below numCells and a point range inside numPts, in increasing
   * and non-overlapping order.
   */
  ghost predicate Laid(offsets: seq<TracerOffset>, numPts: int, numCells: int)
  {
    (forall i :: 0 <= i < |offsets| && offsets[i].numPts > 0 ==>
      0 <= offsets[i].cellId < numCells && 0 <= offsets[i].ptOffset &&
      offsets[i].ptOffset + offsets[i].numPts <= numPts) &&
    forall i, j :: 0 <= i < j < |offsets| && offsets[i].numPts > 0 && offsets[j].numPts > 0 ==>
      offsets[i].cellId < offsets[j].cellId && offsets[i].ptOffset + offsets[i].numPts <= offsets[j].ptOffset
  }

  /** The offsets Reduce produces are laid out as CompositeOverSeeds needs. */
  lemma ReduceLays(s: seq<TracerOffset>)
    ensures Laid(Scanned(s), PointsBefore(s, |s|), CellsBefore(s, |s|))
  {
    forall i | 0 <= i < |s| && Scanned(s)[i].numPts > 0
      ensures 0 <= Scanned(s)[i].cellId < CellsBefore(s, |s|) && 0 <= Scanned(s)[i].ptOffset
      ensures Scanned(s)[i].ptOffset + Scanned(s)[i].numPts <= PointsBefore(s, |s|)
    {
      ScannedInRange(s, i);
    }
    forall i, j | 0 <= i < j < |s| && Scanned(s)[i].numPts > 0 && Scanned(s)[j].numPts > 0
      ensures Scanned(s)[i].cellId < Scanned(s)[j].cellId
      ensures Scanned(s)[i].ptOffset + Scanned(s)[i].numPts <= Scanned(s)[j].ptOffset
    {
      ScannedTiles(s, i, j);
    }
  }

  /** Whether output point p lies on the streamline of one of the first k seeds. */
  ghost predicate Covered(offsets: seq<TracerOffset>, k: nat, p: int)
    requires k <= |offsets|
  {
    exists i :: 0 <= i < k && offsets[i].numPts > 0 && offsets[i].ptOffset <= p < offsets[i].ptOffset + offsets[i].numPts
  }

  /**
   * CompositeOverSeeds, the part that builds the cell array and the two
   * cell data arrays: each streamline's cell starts at its point offset,
   * its points are connected in output order, the last offset is the
   * number of points, and each cell records the seed it came from (SeedIds)
   * and why that seed's integration stopped (ReasonForTermination).
   * Entries no seed writes stay 0.
   */
  method CompositeOverSeeds(offsets: seq<TracerOffset>, numPts: nat, numCells: nat)
      returns (caOffsets: seq<int>, caConn: seq<int>, seedIds: seq<int>, retVals: seq<int>)
    requires Laid(offsets, numPts, numCells)
    ensures |caOffsets| == numCells + 1 && |caConn| == numPts && |seedIds| == numCells && |retVals| == numCells
    ensures caOffsets[numCells] == numPts
    ensures forall i :: 0 <= i < |offsets| && offsets[i].numPts > 0 ==>
      caOffsets[offsets[i].cellId] == offsets[i].ptOffset && seedIds[offsets[i].cellId] == i
      && retVals[offsets[i].cellId] == offsets[i].retVal
    ensures forall p :: 0 <= p < numPts && Covered(offsets, |offsets|, p) ==> caConn[p] == p
  {
    var offs := new int[numCells + 1](_ => 0);
    var conn := new int[numPts](_ => 0);
    var ids := new int[numCells](_ => 0);
    var rets := new int[numCells](_ => 0);
    offs[numCells] := numPts;
    var seedId := 0;
    while seedId < |offsets|
      invariant 0 <= seedId <= |offsets|
      invariant offs[numCells] == numPts
      invariant forall i :: 0 <= i < seedId && offsets[i].numPts > 0 ==>
        offs[offsets[i].cellId] == offsets[i].ptOffset && ids[offsets[i].cellId] == i
        && rets[offsets[i].cellId] == offsets[i].retVal
      invariant forall p :: 0 <= p < numPts && Covered(offsets, seedId, p) ==> conn[p] == p
    {
      var offset := offsets[seedId];
      CopyStreamline(conn, offsets, numPts, numCells, seedId);
      if offset.numPts > 0 {
        WriteCellData(offs, ids, rets, offset.cellId, offset.ptOffset, seedId, offset.retVal);
        CellIdsApart(offsets, numPts, numCells, seedId);
      }
      seedId := seedId + 1;
    }
    caOffsets, caConn, seedIds, retVals := offs[..], conn[..], ids[..], rets[..];
  }

  /**
   * The point copy of seed seedId, when it has a streamline: afterwards the
   * output points of the first seedId + 1 seeds are connected in order.
   */
  method CopyStreamline(conn: array<int>, offsets: seq<TracerOffset>, numPts: nat, numCells: nat, seedId: nat)
    requires Laid(offsets, numPts, numCells) && seedId < |offsets| && conn.Length == numPts
    requires forall p :: 0 <= p < numPts && Covered(offsets, seedId, p) ==> conn[p] == p
    modifies conn
    ensures forall p :: 0 <= p < numPts && Covered(offsets, seedId + 1, p) ==> conn[p] == p
  {
    var offset := offsets[seedId];
    if offset.numPts > 0 {
      CopyPoints(conn, offset.ptOffset, offset.numPts);
    }
    forall p | 0 <= p < numPts && Covered(offsets, seedId + 1, p)
      ensures conn[p] == p
    {
      var i :| 0 <= i < seedId + 1 && offsets[i].numPts > 0 && offsets[i].ptOffset <= p < offsets[i].ptOffset + offsets[i].numPts;
      if i < seedId {
        assert Covered(offsets, seedId, p);
      }
    }
  }

  /** The cell entries of one streamline: its cell offset, seed id and reason for termination. */
  method WriteCellData(offs: array<int>, ids: array<int>, rets: array<int>,
                       cellId: int, ptOffset: int, seedId: int, retVal: int)
    requires 0 <= cellId < offs.Length && cellId < ids.Length && cellId < rets.Length
    requires offs != ids && offs != rets && ids != rets
    modifies offs, ids, rets
    ensures forall c :: 0 <= c < offs.Length ==> offs[c] == if c == cellId then ptOffset else old(offs[c])
    ensures forall c :: 0 <= c < ids.Length ==> ids[c] == if c == cellId then seedId else old(ids[c])
    ensures forall c :: 0 <= c < rets.Length ==> rets[c] == if c == cellId then retVal else old(rets[c])
  {
    offs[cellId] := ptOffset;
    ids[cellId] := seedId;
    rets[cellId] := retVal;
  }

  /** The point copy of one streamline: its output points are connected in output order. */
  method CopyPoints(conn: array<int>, outPtId: int, n: int)
    requires 0 <= outPtId && outPtId + n <= conn.Length
    modifies conn
    ensures forall p :: outPtId <= p < outPtId + n ==> conn[p] == p
    ensures forall p :: 0 <= p < conn.Length && !(outPtId <= p < outPtId + n) ==> conn[p] == old(conn[p])
  {
    var i := 0;
    while i < n
      invariant 0 <= i <= if n < 0 then 0 else n
      invariant forall p :: outPtId <= p < outPtId + i ==> conn[p] == p
      invariant forall p :: 0 <= p < conn.Length && !(outPtId <= p < outPtId + i) ==> conn[p] == old(conn[p])
    {
      conn[outPtId + i] := outPtId + i;
      i := i + 1;
    }
  }

  /** A later seed's cell id differs from those of the seeds before it. */
  lemma CellIdsApart(offsets: seq<TracerOffset>, numPts: int, numCells: int, k: nat)
    requires Laid(offsets, numPts, numCells) && k < |offsets| && offsets[k].numPts > 0
    ensures forall i :: 0 <= i < k && offsets[i].numPts > 0 ==> offsets[i].cellId != offsets[k].cellId
  {
  }

  /**
   * Cell c of the output is the streamline of seed seedIds[c], the c-th
   * seed with points, and starts at that seed's point offset.
   */
  ghost predicate CellStarts(s: seq<TracerOffset>, caOffsets: seq<int>, seedIds: seq<int>)
    requires |caOffsets| == |seedIds| + 1
  {
    forall c :: 0 <= c < |seedIds| ==>
      0 <= seedIds[c] < |s| && s[seedIds[c]].numPts > 0 &&
      CellsBefore(s, seedIds[c]) == c && caOffsets[c] == PointsBefore(s, seedIds[c])
  }

  /**
   * After the prefix sum the compositing pass leaves a valid polyline cell
   * array: every output point is connected to itself, and every cell is the
   * streamline of the seed it records.
   */
  lemma ComposedCellArray(s: seq<TracerOffset>, caOffsets: seq<int>, caConn: seq<int>, seedIds: seq<int>)
    requires |caOffsets| == CellsBefore(s, |s|) + 1 && |caConn| == PointsBefore(s, |s|)
    requires |seedIds| == CellsBefore(s, |s|)
    requires forall i :: 0 <= i < |s| && s[i].numPts > 0 ==>
      CellsBefore(s, i) < |seedIds| && caOffsets[CellsBefore(s, i)] == PointsBefore(s, i) &&
      seedIds[CellsBefore(s, i)] == i
    requires forall p :: 0 <= p < |caConn| && Covered(Scanned(s), |s|, p) ==> caConn[p] == p
    ensures forall p :: 0 <= p < |caConn| ==> caConn[p] == p
    ensures CellStarts(s, caOffsets, seedIds)
  {
    forall p | 0 <= p < |caConn|
      ensures caConn[p] == p
    {
      ConnectedPoint(s, caConn, p);
    }
    forall c | 0 <= c < |seedIds|
      ensures 0 <= seedIds[c] < |s| && s[seedIds[c]].numPts > 0
      ensures CellsBefore(s, seedIds[c]) == c && caOffsets[c] == PointsBefore(s, seedIds[c])
    {
      var i := CellIdsConsecutive(s, |s|, c);
    }
  }

  /** Output point p lies on a streamline, so the compositing pass connected it. */
  lemma ConnectedPoint(s: seq<TracerOffset>, caConn: seq<int>, p: int)
    requires |caConn| == PointsBefore(s, |s|) && 0 <= p < |caConn|
    requires forall p :: 0 <= p < |caConn| && Covered(Scanned(s), |s|, p) ==> caConn[p] == p
    ensures caConn[p] == p
  {
    var i := PointsCovered(s, |s|, p);
    assert Scanned(s)[i].ptOffset == PointsBefore(s, i);
    assert Covered(Scanned(s), |s|, p);
  }

  /**
   * Reduce: the prefix sum, then the compositing pass over all seeds.  The
   * result is a polyline cell array whose connectivity lists the output
   * points in order, whose cell c is the streamline of the c-th seed with
   * points, records that seed and its reason for termination and starts
   * at its offset, and whose last offset is the number of output points.
   */
  method Reduce(offsets: array<TracerOffset>)
      returns (caOffsets: seq<int>, caConn: seq<int>, seedIds: seq<int>, retVals: seq<int>)
    modifies offsets
    ensures offsets[..] == Scanned(old(offsets[..]))
    ensures |caConn| == PointsBefore(old(offsets[..]), offsets.Length)
    ensures forall p :: 0 <= p < |caConn| ==> caConn[p] == p
    ensures |seedIds| == CellsBefore(old(offsets[..]), offsets.Length) && |caOffsets| == |seedIds| + 1
    ensures caOffsets[|seedIds|] == |caConn|
    ensures CellStarts(old(offsets[..]), caOffsets, seedIds)
    ensures |retVals| == |seedIds| && forall c :: 0 <= c < |seedIds| ==> retVals[c] == old(offsets[..])[seedIds[c]].retVal
  {
    ghost var s := offsets[..];
    var numPts, numCells := ScanOffsets(offsets);
    ReduceLays(s);
    caOffsets, caConn, seedIds, retVals := CompositeOverSeeds(offsets[..], numPts, numCells);
    forall i | 0 <= i < |s| && s[i].numPts > 0
      ensures CellsBefore(s, i) < |seedIds| && caOffsets[CellsBefore(s, i)] == PointsBefore(s, i)
      ensures seedIds[CellsBefore(s, i)] == i && retVals[CellsBefore(s, i)] == s[i].retVal
    {
      assert Scanned(s)[i].numPts > 0;
    }
    ComposedCellArray(s, caOffsets, caConn, seedIds);
    forall c | 0 <= c < |seedIds|
      ensures retVals[c] == s[seedIds[c]].retVal
    {
      assert CellsBefore(s, seedIds[c]) == c;
    }
  }
}
