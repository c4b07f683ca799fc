// The integer bookkeeping of vtkVoronoi2D: batching of the input points, the
// wheel offsets (an exclusive scan of spokes per point), cyclic navigation
// around a wheel, spoke validity and the triangle counting that precedes the
// Delaunay output.  Tile clipping (floating point) is not part of this model.
module VoronoiWheels {
  import opened Common

  // ---- Batches ---------------------------------------------------------------

  /** ceil(a / b) for a non-negative a and a positive b. */
  function CeilDiv(a: int, b: int): (r: int)
    requires a >= 0 && b >= 1
    ensures r >= 0
    ensures (r - 1) * b < a <= r * b
  {
    var q := (a + b - 1) / b;
    var m := (a + b - 1) % b;
    assert a + b - 1 == q * b + m;
    assert (q - 1) * b == q * b - b;
    q
  }

  /** Splits Num items into batches of BatchSize items, or one batch holding a sub-range. */
  class BatchManager {
    var num: int
    var batchSize: int
    var numBatches: int
    var subRange0: int
    var subRange1: int

    constructor (num: int, batchSize: int)
      requires num >= 0 && batchSize >= 1
      ensures this.num == num && this.batchSize == batchSize
      ensures numBatches == CeilDiv(num, batchSize)
      ensures subRange0 == -1 && subRange1 == -1
    {
      this.num := num;
      this.batchSize := batchSize;
      numBatches := CeilDiv(num, batchSize);
      subRange0, subRange1 := -1, -1;
    }

    method SetSubRange(minRange: int, maxRange: int)
      modifies this
      ensures subRange0 == minRange && subRange1 == maxRange
      ensures num == old(num) && batchSize == old(batchSize) && numBatches == old(numBatches)
    {
      subRange0, subRange1 := minRange, maxRange;
    }

    function GetNumberOfBatches(): (r: int)
      reads this
      ensures subRange0 >= 0 ==> r == 1
      ensures subRange0 < 0 ==> r == numBatches
    {
      if subRange0 < 0 then numBatches else 1
    }

    /** The items [startId, endId) of a batch, with endId clamped to Num, and their count. */
    function GetBatchItemRange(batchNum: int): (r: (int, int, int))
      reads this
      ensures r.2 == r.1 - r.0
      ensures r.1 <= num
      ensures subRange0 < 0 ==> r.0 == batchNum * batchSize && r.1 == Min(r.0 + batchSize, num)
      ensures subRange0 >= 0 ==> r.0 == subRange0 && r.1 == Min(subRange1, num)
    {
      var startId := if subRange0 < 0 then batchNum * batchSize else subRange0;
      var endId := if subRange0 < 0 then startId + batchSize else subRange1;
      var endId' := if endId > num then num else endId;
      (startId, endId', endId' - startId)
    }
  }

  function Min(a: int, b: int): int { if a <= b then a else b }

  /**
   * Without a sub-range, every item lies in the range of exactly one batch,
   * batch id / BatchSize, and that batch is one of the NumBatches batches.
   */
  lemma BatchesPartitionItems(bm: BatchManager, id: int)
    requires bm.num >= 0 && bm.batchSize >= 1 && bm.numBatches == CeilDiv(bm.num, bm.batchSize)
    requires bm.subRange0 < 0
    requires 0 <= id < bm.num
    ensures 0 <= id / bm.batchSize < bm.GetNumberOfBatches()
    ensures bm.GetBatchItemRange(id / bm.batchSize).0 <= id < bm.GetBatchItemRange(id / bm.batchSize).1
    ensures forall b :: 0 <= b < bm.GetNumberOfBatches() && bm.GetBatchItemRange(b).0 <= id < bm.GetBatchItemRange(b).1
                        ==> b == id / bm.batchSize
  {
    BatchOfItem(bm.num, bm.batchSize, bm.numBatches, id);
  }

  /** The arithmetic of BatchesPartitionItems. */
  lemma BatchOfItem(num: int, bs: int, nb: int, id: int)
    requires num >= 0 && bs >= 1 && nb == CeilDiv(num, bs) && 0 <= id < num
    ensures 0 <= id / bs < nb
    ensures (id / bs) * bs <= id < (id / bs) * bs + bs
    ensures forall b :: 0 <= b < nb && b * bs <= id < Min(b * bs + bs, num) ==> b == id / bs
  {
    var q := id / bs;
    QuotientBrackets(id, bs);
    QuotientBelow(q, nb, bs, id, num);
    forall b | 0 <= b < nb && b * bs <= id < Min(b * bs + bs, num)
      ensures b == q
    {
      SameBracket(b, q, bs, id);
    }
  }

  /** The quotient of a division brackets the dividend between two multiples. */
  lemma QuotientBrackets(id: int, bs: int)
    requires id >= 0 && bs >= 1
    ensures 0 <= id / bs && (id / bs) * bs <= id < (id / bs) * bs + bs
  {
    assert id == (id / bs) * bs + id % bs;
  }

  /** An item below num lies in a batch below ceil(num / bs). */
  lemma QuotientBelow(q: int, nb: int, bs: int, id: int, num: int)
    requires bs >= 1 && q * bs <= id < num && num <= nb * bs
    ensures q < nb
  {
    if q >= nb {
      MulMonotone(nb, q, bs);
    }
  }

  /** Two batches of bs items holding the same item are the same batch. */
  lemma SameBracket(b: int, q: int, bs: int, id: int)
    requires bs >= 1 && b * bs <= id < b * bs + bs && q * bs <= id < q * bs + bs
    ensures b == q
  {
    if b < q { assert (b + 1) * bs == b * bs + bs; MulMonotone(b + 1, q, bs); }
    if b > q { assert (q + 1) * bs == q * bs + bs; MulMonotone(q + 1, b, bs); }
  }

  lemma MulMonotone(a: int, b: int, c: int)
    requires a <= b && c >= 0
    ensures a * c <= b * c
  {
    var d := b - a;
    assert b * c == a * c + d * c;
    assert d * c >= 0;
  }

  /** A point of interest p is processed as the single batch [p, p+1) of one item. */
  lemma PointOfInterestBatch(bm: BatchManager, p: int)
    requires 0 <= p < bm.num && bm.subRange0 == p && bm.subRange1 == p + 1
    ensures bm.GetNumberOfBatches() == 1
    ensures bm.GetBatchItemRange(0) == (p, p + 1, 1)
  {
  }

  // ---- Wheels and spokes -----------------------------------------------------

  datatype SpokeClass = Valid | Boundary | Degenerate | Intersecting | Singleton

  /** A spoke is the edge from its wheel to wheel `id`. */
  datatype Spoke = Spoke(id: int, classification: SpokeClass)

  /** Wheel `id` with its circumferentially ordered spokes. */
  datatype Wheel = Wheel(id: int, spokes: seq<Spoke>)

  /**
   * The wheel/spoke structure: wheels is the offsets array (one entry per
   * point plus the total), and the spokes of wheel i are spokes[wheels[i]..wheels[i+1]].
   */
  datatype WheelGraph = WheelGraph(wheels: seq<int>, spokes: seq<Spoke>)
  {
    function NumWheels(): int { |wheels| - 1 }

    ghost predicate WellFormed()
    {
      |wheels| >= 1
      && (forall i :: 0 <= i < |wheels| ==> 0 <= wheels[i] <= |spokes|)
      && (forall i :: 0 <= i < |wheels| - 1 ==> wheels[i] <= wheels[i + 1])
      && (forall k :: 0 <= k < |spokes| ==> 0 <= spokes[k].id < |wheels| - 1)
    }

    /** Wheel(vt, id): the spokes of wheel id, GetNumberOfSpokes of them. */
    function WheelAt(id: int): (r: Wheel)
      requires WellFormed() && 0 <= id < NumWheels()
      ensures r.id == id && |r.spokes| == wheels[id + 1] - wheels[id]
      ensures forall k :: 0 <= k < |r.spokes| ==> r.spokes[k] == spokes[wheels[id] + k]
      ensures forall k :: 0 <= k < |r.spokes| ==> 0 <= r.spokes[k].id < NumWheels()
    {
      Wheel(id, spokes[wheels[id]..wheels[id + 1]])
    }
  }

  /** The wheel offsets built from per-point spoke counts form a well-formed graph with those counts. */
  lemma OffsetsFormWheels(counts: seq<int>, spokes: seq<Spoke>, id: int)
    requires forall i :: 0 <= i < |counts| ==> counts[i] >= 0
    requires Sum(counts) == |spokes|
    requires forall k :: 0 <= k < |spokes| ==> 0 <= spokes[k].id < |counts|
    requires 0 <= id < |counts|
    ensures WheelGraph(Offsets(counts), spokes).WellFormed()
    ensures |WheelGraph(Offsets(counts), spokes).WheelAt(id).spokes| == counts[id]
  {
    var o := Offsets(counts);
    OffsetsRecoverCounts(counts);
    forall i | 0 <= i < |o| ensures 0 <= o[i] <= |spokes| {
      OffsetsMonotone(counts, 0, i);
      OffsetsMonotone(counts, i, |counts|);
    }
  }

  /** _Previous: the spoke before spokeNum (clockwise), wrapping from 0 to the last. */
  function Previous(w: Wheel, spokeNum: int): (r: int)
    requires 0 <= spokeNum < |w.spokes|
    ensures 0 <= r < |w.spokes|
    ensures r == (spokeNum - 1) % |w.spokes|
  {
    var n := |w.spokes|;
    if spokeNum == 0 then
      assert n - 1 == -1 + n * 1;
      ModUnique(-1, n, -1, n - 1);
      n - 1
    else
      ModUnique(spokeNum - 1, n, 0, spokeNum - 1);
      spokeNum - 1
  }

  /** _Next: the spoke after spokeNum (counterclockwise), wrapping from the last to 0. */
  function Next(w: Wheel, spokeNum: int): (r: int)
    requires 0 <= spokeNum < |w.spokes|
    ensures 0 <= r < |w.spokes|
    ensures r == (spokeNum + 1) % |w.spokes|
  {
    var n := |w.spokes|;
    if spokeNum == n - 1 then
      ModUnique(spokeNum + 1, n, 1, 0);
      0
    else
      ModUnique(spokeNum + 1, n, 0, spokeNum + 1);
      spokeNum + 1
  }

  lemma NextPreviousInverse(w: Wheel, i: int)
    requires 0 <= i < |w.spokes|
    ensures Next(w, Previous(w, i)) == i
    ensures Previous(w, Next(w, i)) == i
  {
  }

  /** k steps of _Next. */
  function NextIterate(w: Wheel, i: int, k: nat): (r: int)
    requires 0 <= i < |w.spokes|
    ensures 0 <= r < |w.spokes|
  {
    if k == 0 then i else Next(w, NextIterate(w, i, k - 1))
  }

  /** Walking k spokes counterclockwise lands on spoke (i + k) mod NumSpokes; NumSpokes steps return to i. */
  lemma {:induction false} NextIterateIsModular(w: Wheel, i: int, k: nat)
    requires 0 <= i < |w.spokes|
    ensures NextIterate(w, i, k) == (i + k) % |w.spokes|
    ensures NextIterate(w, i, |w.spokes|) == i
  {
    var n := |w.spokes|;
    NextIterateMod(w, i, k);
    NextIterateMod(w, i, n);
    ModUnique(i + n, n, 1, i);
  }

  lemma {:induction false} NextIterateMod(w: Wheel, i: int, k: nat)
    requires 0 <= i < |w.spokes|
    ensures NextIterate(w, i, k) == (i + k) % |w.spokes|
  {
    var n := |w.spokes|;
    if k == 0 {
      ModUnique(i, n, 0, i);
    } else {
      NextIterateMod(w, i, k - 1);
      ModStep(i + k - 1, n);
    }
  }

  /** One more step of a count modulo n is one more step of its remainder, modulo n. */
  lemma ModStep(a: int, n: int)
    requires n >= 1 && a >= 0
    ensures (a + 1) % n == (a % n + 1) % n
  {
    var q, p := a / n, a % n;
    assert a == n * q + p;
    if p == n - 1 {
      assert n * (q + 1) == n * q + n;
      ModUnique(a + 1, n, q + 1, 0);
      ModUnique(p + 1, n, 1, 0);
    } else {
      ModUnique(a + 1, n, q, p + 1);
      ModUnique(p + 1, n, 0, p + 1);
    }
  }

  /** The position of the first spoke to wheel id, or NumSpokes when there is none. */
  function FindSpoke(spokes: seq<Spoke>, id: int): (r: nat)
    ensures r <= |spokes|
    ensures r < |spokes| ==> spokes[r].id == id
    ensures forall j :: 0 <= j < r ==> spokes[j].id != id
  {
    if |spokes| == 0 then 0
    else if spokes[0].id == id then 0
    else 1 + FindSpoke(spokes[1..], id)
  }

  /**
   * GetPreviousValidEdge with the "not found" test it evidently intends:
   * the spoke clockwise before the spoke to wInId, when that spoke is
   * VALID; -1 when there is no spoke to wInId or the previous one is not VALID.
   */
  function PreviousValidEdge(w: Wheel, wInId: int): (r: int)
    ensures FindSpoke(w.spokes, wInId) == |w.spokes| ==> r == -1
    ensures r != -1 ==> exists j :: 0 <= j < |w.spokes| && w.spokes[j].id == wInId
                         && w.spokes[Previous(w, j)].classification == Valid
                         && r == w.spokes[Previous(w, j)].id
  {
    var i := FindSpoke(w.spokes, wInId);
    if i >= |w.spokes| then -1
    else
      var spoke := w.spokes[Previous(w, i)];
      if spoke.classification != Valid then -1 else spoke.id
  }

  /**
   * GetPreviousValidEdge as written: the search leaves i == NumSpokes when
   * wInId is not on the wheel, and the test `i > NumSpokes` never fires, so
   * the last spoke is examined instead.  (With no spokes at all the source
   * reads before the spokes; that case is excluded here.)
   */
  function PreviousValidEdgeAsWritten(w: Wheel, wInId: int): (r: int)
    requires |w.spokes| >= 1
    ensures FindSpoke(w.spokes, wInId) < |w.spokes| ==> r == PreviousValidEdge(w, wInId)
  {
    var n := |w.spokes|;
    var i := FindSpoke(w.spokes, wInId);
    if i > n then -1
    else
      var prev := if i == 0 then n - 1 else i - 1;
      var spoke := w.spokes[prev];
      if spoke.classification != Valid then -1 else spoke.id
  }

  /** A wheel whose last spoke is VALID answers for a wheel it is not connected to. */
  lemma {:induction false} PreviousValidEdgeAsWrittenMissesAbsence(w: Wheel, wInId: int)
    requires |w.spokes| >= 1 && forall k :: 0 <= k < |w.spokes| ==> w.spokes[k].id != wInId
    requires w.spokes[|w.spokes| - 1].classification == Valid
    ensures PreviousValidEdge(w, wInId) == -1
    ensures PreviousValidEdgeAsWritten(w, wInId) == w.spokes[|w.spokes| - 1].id
  {
    FindSpokeAbsent(w.spokes, wInId);
  }

  lemma {:induction false} FindSpokeAbsent(spokes: seq<Spoke>, id: int)
    requires forall k :: 0 <= k < |spokes| ==> spokes[k].id != id
    ensures FindSpoke(spokes, id) == |spokes|
  {
    if |spokes| > 0 {
      FindSpokeAbsent(spokes[1..], id);
    }
  }

  /** Concretely: wheel 0 with one VALID spoke to wheel 5, asked for wheel 7. */
  lemma PreviousValidEdgeCounterexample()
    ensures PreviousValidEdge(Wheel(0, [Spoke(5, Valid)]), 7) == -1
    ensures PreviousValidEdgeAsWritten(Wheel(0, [Spoke(5, Valid)]), 7) == 5
  {
    PreviousValidEdgeAsWrittenMissesAbsence(Wheel(0, [Spoke(5, Valid)]), 7);
  }

  /** The search loop of GetPreviousValidEdge (with the intended not-found test). */
  method GetPreviousValidEdge(w: Wheel, wInId: int) returns (r: int)
    ensures r == PreviousValidEdge(w, wInId)
  {
    var i := 0;
    while i < |w.spokes|
      invariant 0 <= i <= |w.spokes|
      invariant forall j :: 0 <= j < i ==> w.spokes[j].id != wInId
    {
      if w.spokes[i].id == wInId {
        break;
      }
      i := i + 1;
    }
    FindSpokeIsFirst(w.spokes, wInId, i);
    if i >= |w.spokes| {
      return -1;
    }
    var spoke := w.spokes[Previous(w, i)];
    if spoke.classification != Valid {
      return -1;
    }
    return spoke.id;
  }

  /** A position before which no spoke matches, and which matches or is the end, is FindSpoke's. */
  lemma FindSpokeIsFirst(spokes: seq<Spoke>, id: int, i: nat)
    requires i <= |spokes|
    requires forall j :: 0 <= j < i ==> spokes[j].id != id
    requires i < |spokes| ==> spokes[i].id == id
    ensures FindSpoke(spokes, id) == i
  {
  }

  /** The wheel has a VALID spoke to wheel id. */
  predicate HasValidSpoke(w: Wheel, id: int)
  {
    exists k :: 0 <= k < |w.spokes| && w.spokes[k].id == id && w.spokes[k].classification == Valid
  }

  // ---- Triangle formation ------------------------------------------------

  /**
   * The traversal of FormsTriangles from edge (v0, v1): follow previous
   * valid edges while they lead to wheels above inId, until loopEnd is
   * reached (the number of triangles of the closed loop) or the walk stops (0).
   * The walk takes at most fuel steps.
   */
  function TraceLoop(g: WheelGraph, inId: int, loopEnd: int, v0: int, v1: int, loop: seq<int>, fuel: nat): (r: (int, seq<int>))
    requires g.WellFormed() && 0 <= v1 < g.NumWheels()
    decreases fuel
  {
    if fuel == 0 then (0, loop)
    else
      var nextV := PreviousValidEdge(g.WheelAt(v1), v0);
      if !(nextV >= 0 && nextV > inId) then (0, loop)
      else if nextV == loopEnd then (|loop| + 1 - 2, loop + [nextV])
      else TraceLoop(g, inId, loopEnd, v1, nextV, loop + [nextV], fuel - 1)
  }

  /** Wheel c is the previous valid edge of wheel b entered from wheel a. */
  ghost predicate Links(g: WheelGraph, a: int, b: int, c: int)
  {
    g.WellFormed() && 0 <= b < g.NumWheels() && c == PreviousValidEdge(g.WheelAt(b), a)
  }

  /** Entry k + 2 of the loop is the previous valid edge of wheel loop[k + 1] entered from loop[k]. */
  ghost predicate Linked(g: WheelGraph, loop: seq<int>, k: int)
  {
    0 <= k && k + 2 < |loop| && Links(g, loop[k], loop[k + 1], loop[k + 2])
  }

  /** A loop that closes links each wheel to the next by a previous valid edge, all above inId, ending at loopEnd. */
  ghost predicate ClosedLoop(g: WheelGraph, inId: int, loopEnd: int, loop: seq<int>)
    requires g.WellFormed()
  {
    |loop| >= 3 && loop[|loop| - 1] == loopEnd
    && (forall k :: 1 <= k < |loop| ==> 0 <= loop[k] < g.NumWheels())
    && (forall k :: 2 <= k < |loop| ==> loop[k] > inId)
    && (forall k :: 0 <= k < |loop| - 2 ==> Linked(g, loop, k))
  }

  /** Partial loop: the same links so far, ending in the edge (v0, v1). */
  ghost predicate OpenLoop(g: WheelGraph, inId: int, v0: int, v1: int, loop: seq<int>)
    requires g.WellFormed()
  {
    |loop| >= 2 && loop[|loop| - 2] == v0 && loop[|loop| - 1] == v1
    && (forall k :: 1 <= k < |loop| ==> 0 <= loop[k] < g.NumWheels())
    && (forall k :: 2 <= k < |loop| ==> loop[k] > inId)
    && (forall k :: 0 <= k < |loop| - 2 ==> Linked(g, loop, k))
  }

  /** A traversal either fails with 0 or closes a loop and counts its |loop| - 2 triangles. */
  lemma {:induction false} TraceLoopCloses(g: WheelGraph, inId: int, loopEnd: int, v0: int, v1: int, loop: seq<int>, fuel: nat)
    requires g.WellFormed() && 0 <= v1 < g.NumWheels()
    requires OpenLoop(g, inId, v0, v1, loop)
    ensures var r := TraceLoop(g, inId, loopEnd, v0, v1, loop, fuel);
            r.0 == 0 || (r.0 == |r.1| - 2 >= 1 && ClosedLoop(g, inId, loopEnd, r.1))
    decreases fuel
  {
    if fuel > 0 {
      var nextV := PreviousValidEdge(g.WheelAt(v1), v0);
      if nextV >= 0 && nextV > inId {
        PreviousValidEdgeInGraph(g, v1, v0);
        OpenLoopExtend(g, inId, v0, v1, loop, nextV);
        if nextV != loopEnd {
          TraceLoopCloses(g, inId, loopEnd, v1, nextV, loop + [nextV], fuel - 1);
        }
      }
    }
  }

  /** The previous valid edge of a wheel is -1 or names a wheel of the graph. */
  lemma PreviousValidEdgeInGraph(g: WheelGraph, v1: int, v0: int)
    requires g.WellFormed() && 0 <= v1 < g.NumWheels()
    ensures PreviousValidEdge(g.WheelAt(v1), v0) == -1 || 0 <= PreviousValidEdge(g.WheelAt(v1), v0) < g.NumWheels()
  {
  }

  lemma {:induction false} OpenLoopExtend(g: WheelGraph, inId: int, v0: int, v1: int, loop: seq<int>, nextV: int)
    requires g.WellFormed() && 0 <= v1 < g.NumWheels() && OpenLoop(g, inId, v0, v1, loop)
    requires nextV == PreviousValidEdge(g.WheelAt(v1), v0) && 0 <= nextV < g.NumWheels() && inId < nextV
    ensures OpenLoop(g, inId, v1, nextV, loop + [nextV])
    ensures ClosedLoop(g, inId, nextV, loop + [nextV])
  {
    var loop' := loop + [nextV];
    assert Links(g, v0, v1, nextV);
    OpenLoopAppend(g, inId, v0, v1, loop, nextV);
    OpenLoopCloses(g, inId, v1, nextV, loop');
  }

  /** Appending a wheel above inId whose link to the last two holds keeps the loop open-linked. */
  lemma {:induction false} OpenLoopAppend(g: WheelGraph, inId: int, v0: int, v1: int, loop: seq<int>, nextV: int)
    requires g.WellFormed() && OpenLoop(g, inId, v0, v1, loop)
    requires 0 <= nextV < g.NumWheels() && inId < nextV && Links(g, v0, v1, nextV)
    ensures OpenLoop(g, inId, v1, nextV, loop + [nextV])
  {
    var loop' := loop + [nextV];
    forall k | 1 <= k < |loop'| ensures 0 <= loop'[k] < g.NumWheels() && (k >= 2 ==> loop'[k] > inId) {
      if k < |loop| { assert loop'[k] == loop[k]; }
    }
    forall k | 0 <= k < |loop'| - 2 ensures Linked(g, loop', k) {
      if k < |loop| - 2 {
        assert Linked(g, loop, k);
        assert loop'[k] == loop[k] && loop'[k + 1] == loop[k + 1] && loop'[k + 2] == loop[k + 2];
      } else {
        assert loop'[k] == v0 && loop'[k + 1] == v1 && loop'[k + 2] == nextV;
      }
    }
  }

  /** An open loop of at least three wheels is a closed loop ending at its last wheel. */
  lemma {:induction false} OpenLoopCloses(g: WheelGraph, inId: int, v0: int, v1: int, loop: seq<int>)
    requires g.WellFormed() && OpenLoop(g, inId, v0, v1, loop) && |loop| >= 3
    ensures ClosedLoop(g, inId, v1, loop)
  {
  }

  /**
   * FormsTriangles: no triangle when the wheel id exceeds either spoke id or
   * either spoke is not VALID; one when the two spoke ends are joined by a
   * valid spoke; otherwise the triangles of the loop found by TraceLoop.
   * The loop holder is left as it was in the first two cases.
   */
  function FormsTrianglesSpec(g: WheelGraph, inId: int, current: Spoke, next: Spoke, loopIn: seq<int>, fuel: nat): (r: (int, seq<int>))
    requires g.WellFormed() && 0 <= current.id < g.NumWheels() && 0 <= next.id < g.NumWheels()
  {
    if inId > current.id || inId > next.id || current.classification != Valid || next.classification != Valid then
      (0, loopIn)
    else if HasValidSpoke(g.WheelAt(current.id), next.id) then
      (1, loopIn)
    else
      TraceLoop(g, inId, next.id, inId, current.id, [inId, current.id], fuel)
  }

  /** The count of FormsTriangles is 0 for culled spokes, at least 0 always, and a count above 1 comes with a closed loop. */
  lemma FormsTrianglesCount(g: WheelGraph, inId: int, current: Spoke, next: Spoke, loopIn: seq<int>, fuel: nat)
    requires g.WellFormed() && 0 <= current.id < g.NumWheels() && 0 <= next.id < g.NumWheels()
    ensures inId > current.id || inId > next.id || current.classification != Valid || next.classification != Valid
            ==> FormsTrianglesSpec(g, inId, current, next, loopIn, fuel).0 == 0
    ensures FormsTrianglesSpec(g, inId, current, next, loopIn, fuel).0 >= 0
    ensures FormsTrianglesSpec(g, inId, current, next, loopIn, fuel).0 >= 2
            ==> var loop := FormsTrianglesSpec(g, inId, current, next, loopIn, fuel).1;
                ClosedLoop(g, inId, next.id, loop) && loop[0] == inId && loop[1] == current.id
                && |loop| - 2 == FormsTrianglesSpec(g, inId, current, next, loopIn, fuel).0
  {
    if !(inId > current.id || inId > next.id || current.classification != Valid || next.classification != Valid)
       && !HasValidSpoke(g.WheelAt(current.id), next.id) {
      TraceLoopCloses(g, inId, next.id, inId, current.id, [inId, current.id], fuel);
      TraceLoopPrefix(g, inId, next.id, inId, current.id, [inId, current.id], fuel);
    }
  }

  /** A traversal only appends to the loop it starts from. */
  lemma {:induction false} TraceLoopPrefix(g: WheelGraph, inId: int, loopEnd: int, v0: int, v1: int, loop: seq<int>, fuel: nat)
    requires g.WellFormed() && 0 <= v1 < g.NumWheels()
    ensures loop <= TraceLoop(g, inId, loopEnd, v0, v1, loop, fuel).1
    decreases fuel
  {
    if fuel > 0 {
      var nextV := PreviousValidEdge(g.WheelAt(v1), v0);
      if nextV >= 0 && nextV > inId {
        PreviousValidEdgeInGraph(g, v1, v0);
        var loop' := loop + [nextV];
        if nextV != loopEnd {
          TraceLoopPrefix(g, inId, loopEnd, v1, nextV, loop', fuel - 1);
          PrefixTransitive(loop, loop', TraceLoop(g, inId, loopEnd, v1, nextV, loop', fuel - 1).1);
        }
      }
    }
  }

  lemma PrefixTransitive(a: seq<int>, b: seq<int>, c: seq<int>)
    requires a <= b && b <= c
    ensures a <= c
  {
    assert forall i :: 0 <= i < |a| ==> a[i] == b[i] == c[i];
  }

  /** The triangles counted around one wheel: FormsTriangles over each spoke and its successor. */
  function WheelTriangles(g: WheelGraph, w: Wheel, k: nat, fuel: nat): int
    requires g.WellFormed() && k <= |w.spokes|
    requires forall j :: 0 <= j < |w.spokes| ==> 0 <= w.spokes[j].id < g.NumWheels()
  {
    if k == 0 then 0
    else WheelTriangles(g, w, k - 1, fuel)
         + FormsTrianglesSpec(g, w.id, w.spokes[k - 1], w.spokes[Next(w, k - 1)], [], fuel).0
  }

  lemma {:induction false} WheelTrianglesNonNegative(g: WheelGraph, w: Wheel, k: nat, fuel: nat)
    requires g.WellFormed() && k <= |w.spokes|
    requires forall j :: 0 <= j < |w.spokes| ==> 0 <= w.spokes[j].id < g.NumWheels()
    ensures WheelTriangles(g, w, k, fuel) >= 0
  {
    if k > 0 {
      WheelTrianglesNonNegative(g, w, k - 1, fuel);
      FormsTrianglesCount(g, w.id, w.spokes[k - 1], w.spokes[Next(w, k - 1)], [], fuel);
    }
  }

  // ---- The tiles object ---------------------------------------------------

  /** The wheel/spoke state of VoronoiTiles. */
  class VoronoiTiles {
    var nPts: nat
    var wheels: array<int>
    var spokes: seq<Spoke>

    /** The wheels array starts as NPts + 1 zero counts, with no spokes. */
    constructor (nPts: nat)
      ensures this.nPts == nPts && fresh(wheels) && wheels.Length == nPts + 1
      ensures forall i :: 0 <= i < wheels.Length ==> wheels[i] == 0
      ensures spokes == []
    {
      this.nPts := nPts;
      wheels := new int[nPts + 1](_ => 0);
      spokes := [];
    }

    function Graph(): WheelGraph
      reads this, wheels
    {
      WheelGraph(wheels[..], spokes)
    }

    ghost predicate Valid()
      reads this, wheels
    {
      wheels.Length == nPts + 1 && Graph().WellFormed()
    }

    /** The prefix sum of Reduce: spoke counts per point become wheel offsets capped by the total. */
    method Reduce() returns (totalPoints: int)
      requires wheels.Length == nPts + 1
      modifies wheels
      ensures wheels[..] == Offsets(old(wheels[..nPts]))
      ensures totalPoints == Sum(old(wheels[..nPts]))
    {
      totalPoints := ExclusiveScan(wheels, nPts);
    }

    /** IsValidSpoke: wheel w0Id has a VALID spoke to wheel w1Id. */
    method IsValidSpoke(w0Id: int, w1Id: int) returns (r: bool)
      requires Valid() && 0 <= w0Id < nPts
      ensures r <==> HasValidSpoke(Graph().WheelAt(w0Id), w1Id)
    {
      var numSpokes := wheels[w0Id + 1] - wheels[w0Id];
      ghost var w := Graph().WheelAt(w0Id);
      var i := 0;
      while i < numSpokes
        invariant 0 <= i <= numSpokes
        invariant forall k :: 0 <= k < i ==> !(w.spokes[k].id == w1Id && w.spokes[k].classification == SpokeClass.Valid)
      {
        var spoke := spokes[wheels[w0Id] + i];
        if spoke.id == w1Id && spoke.classification == SpokeClass.Valid {
          return true;
        }
        i := i + 1;
      }
      return false;
    }

    /** FormsTriangles, with the loop walk bounded by fuel steps. */
    method FormsTriangles(inId: int, current: Spoke, next: Spoke, loopIn: seq<int>, fuel: nat)
      returns (numTris: int, loop: seq<int>)
      requires Valid() && 0 <= current.id < nPts && 0 <= next.id < nPts
      ensures (numTris, loop) == FormsTrianglesSpec(Graph(), inId, current, next, loopIn, fuel)
    {
      loop := loopIn;
      if inId > current.id || inId > next.id || current.classification != SpokeClass.Valid || next.classification != SpokeClass.Valid {
        return 0, loop;
      }
      var tri := IsValidSpoke(current.id, next.id);
      if tri {
        return 1, loop;
      }
      numTris, loop := WalkLoop(Graph(), inId, next.id, inId, current.id, [inId, current.id], fuel);
    }
  }

  /** The while loop of FormsTriangles: the walk TraceLoop describes. */
  method WalkLoop(g: WheelGraph, inId: int, loopEnd: int, v0: int, v1: int, loop0: seq<int>, fuel: nat)
    returns (numTris: int, loop: seq<int>)
    requires g.WellFormed() && 0 <= v1 < g.NumWheels()
    ensures (numTris, loop) == TraceLoop(g, inId, loopEnd, v0, v1, loop0, fuel)
  {
    var a, b := v0, v1;
    loop := loop0;
    var steps := fuel;
    while steps > 0
      invariant 0 <= b < g.NumWheels()
      invariant TraceLoop(g, inId, loopEnd, a, b, loop, steps) == TraceLoop(g, inId, loopEnd, v0, v1, loop0, fuel)
      decreases steps
    {
      var nextV := GetPreviousValidEdge(g.WheelAt(b), a);
      if !(nextV >= 0 && nextV > inId) {
        return 0, loop;
      }
      PreviousValidEdgeInGraph(g, b, a);
      loop := loop + [nextV];
      if nextV == loopEnd {
        return |loop| - 2, loop;
      }
      a, b := b, nextV;
      steps := steps - 1;
    }
    return 0, loop;
  }

  /** CountTriangles: triangles per wheel, then the offsets they are written at. */
  class CountTriangles {
    var vt: VoronoiTiles
    var widx: array<int>
    var numTriangles: int

    constructor (vt: VoronoiTiles, widx: array<int>)
      ensures this.vt == vt && this.widx == widx && numTriangles == 0
    {
      this.vt, this.widx, numTriangles := vt, widx, 0;
    }

    /** The count loop for wheels [wheelId, endWheelId); wheels with at most one spoke keep their 0 entry. */
    method Count(wheelId: int, endWheelId: int)
      requires vt.Valid() && widx.Length == vt.nPts + 1 && widx != vt.wheels
      requires 0 <= wheelId <= endWheelId <= vt.nPts
      modifies widx
      ensures forall w :: wheelId <= w < endWheelId ==>
        widx[w] == (if |vt.Graph().WheelAt(w).spokes| <= 1 then old(widx[w])
                    else WheelTriangles(vt.Graph(), vt.Graph().WheelAt(w), |vt.Graph().WheelAt(w).spokes|, vt.nPts))
      ensures forall w :: 0 <= w < widx.Length && !(wheelId <= w < endWheelId) ==> widx[w] == old(widx[w])
    {
      var id := wheelId;
      while id < endWheelId
        invariant wheelId <= id <= endWheelId
        invariant forall w :: wheelId <= w < id ==>
          widx[w] == (if |vt.Graph().WheelAt(w).spokes| <= 1 then old(widx[w])
                      else WheelTriangles(vt.Graph(), vt.Graph().WheelAt(w), |vt.Graph().WheelAt(w).spokes|, vt.nPts))
        invariant forall w :: 0 <= w < widx.Length && !(wheelId <= w < id) ==> widx[w] == old(widx[w])
      {
        var wheel := vt.Graph().WheelAt(id);
        if |wheel.spokes| > 1 {
          var numTris := CountWheel(wheel);
          widx[id] := numTris;
        }
        id := id + 1;
      }
    }

    /** The spoke loop for one wheel. */
    method CountWheel(wheel: Wheel) returns (numTris: int)
      requires vt.Valid() && 0 <= wheel.id < vt.nPts && wheel == vt.Graph().WheelAt(wheel.id)
      ensures numTris == WheelTriangles(vt.Graph(), wheel, |wheel.spokes|, vt.nPts)
      ensures numTris >= 0
    {
      numTris := 0;
      var spokeNum := 0;
      var loop: seq<int> := [];
      while spokeNum < |wheel.spokes|
        invariant 0 <= spokeNum <= |wheel.spokes|
        invariant numTris == WheelTriangles(vt.Graph(), wheel, spokeNum, vt.nPts)
      {
        var t;
        t, loop := vt.FormsTriangles(wheel.id, wheel.spokes[spokeNum], wheel.spokes[Next(wheel, spokeNum)], loop, vt.nPts);
        numTris := numTris + t;
        spokeNum := spokeNum + 1;
      }
      WheelTrianglesNonNegative(vt.Graph(), wheel, |wheel.spokes|, vt.nPts);
    }

    /** Reduce: the per-wheel triangle counts become offsets, and the total is recorded. */
    method Reduce()
      requires widx.Length == vt.nPts + 1
      modifies this, widx
      ensures vt == old(vt) && widx == old(widx)
      ensures widx[..] == Offsets(old(widx[..vt.nPts]))
      ensures numTriangles == Sum(old(widx[..vt.nPts]))
    {
      numTriangles := ExclusiveScan(widx, vt.nPts);
    }
  }
}
