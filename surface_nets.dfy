// The integer case logic of the surface-nets boundary extractor: the triad
// classification bits, the 12-bit voxel edge case, the 6-bit face case, the
// smoothing stencil table, the ordering of the label pair written per quad,
// and the prefix sums over the per-row edge metadata.
module SurfaceNets {
  import opened Common

  /** TriadType (unsigned char): five classification bits of a triad. */
  type Triad = bv8
  /** EdgeCaseType (unsigned short): one bit per voxel edge, 12 used. */
  type EdgeCase = bv16
  /** FaceCaseType (unsigned char): one bit per voxel face, 6 used. */
  type FaceCase = bv8

  const Outside: Triad := 0
  const Inside: Triad := 1
  const XIntersection: Triad := 2
  const YIntersection: Triad := 4
  const ZIntersection: Triad := 8
  const ProducePoint: Triad := 16

  // ---- voxel geometry: the reference the case tables are checked against ----

  /**
   * Edge e of a voxel, numbered as vtkVoxel numbers them: first the four
   * x-edges, then the four y-edges, then the four z-edges.  Within an axis
   * the edge's position is (lo, hi) on the two other axes, lo varying fastest.
   */
  function EdgeAxis(e: int): int requires 0 <= e < 12 { e / 4 }
  function EdgeLo(e: int): int requires 0 <= e < 12 { e % 4 % 2 }
  function EdgeHi(e: int): int requires 0 <= e < 12 { e % 4 / 2 }

  /**
   * The voxel point (x + 2y + 4z) where edge e starts: the triad whose axis
   * bit tells whether e is intersected.
   */
  function EdgeTriad(e: int): (t: int)
    requires 0 <= e < 12
    ensures 0 <= t < 7
  {
    match EdgeAxis(e)
    case 0 => 2 * EdgeLo(e) + 4 * EdgeHi(e)
    case 1 => EdgeLo(e) + 4 * EdgeHi(e)
    case _ => EdgeLo(e) + 2 * EdgeHi(e)
  }

  /** The triad bit of edge e's axis: XIntersection, YIntersection or ZIntersection. */
  function AxisBit(e: int): Triad
    requires 0 <= e < 12
  {
    match EdgeAxis(e)
    case 0 => XIntersection
    case 1 => YIntersection
    case _ => ZIntersection
  }

  /**
   * Whether edge e lies on face f; faces are numbered -x, +x, -y, +y, -z, +z.
   * An x-edge at (y, z) lies on faces 2 + y and 4 + z, a y-edge at (x, z) on
   * 0 + x and 4 + z, a z-edge at (x, y) on 0 + x and 2 + y.
   */
  predicate OnFace(e: int, f: int)
    requires 0 <= e < 12
  {
    match EdgeAxis(e)
    case 0 => f == 2 + EdgeLo(e) || f == 4 + EdgeHi(e)
    case 1 => f == EdgeLo(e) || f == 4 + EdgeHi(e)
    case _ => f == EdgeLo(e) || f == 2 + EdgeHi(e)
  }

  predicate EdgeBit(c: EdgeCase, e: int)
    requires 0 <= e < 16
  {
    c & (1 << e) != 0
  }

  predicate FaceBit(c: FaceCase, f: int)
    requires 0 <= f < 8
  {
    c & (1 << f) != 0
  }

  // ---- GetEdgeCase -----------------------------------------------------------

  /**
   * The edge case of a voxel from its seven triads t[0..7) (voxel points 0..6;
   * point 7 carries no edge of its own): bit e is set iff edge e is intersected.
   */
  function GetEdgeCase(t: seq<Triad>): (eCase: EdgeCase)
    requires |t| == 7
    ensures eCase < 4096
    ensures forall e :: 0 <= e < 12 ==> (EdgeBit(eCase, e) <==> t[EdgeTriad(e)] & AxisBit(e) != 0)
    ensures (forall i :: 0 <= i < 7 ==> t[i] & 14 == 0) ==> eCase == 0
  {
    var x0 := (t[0] & 2) as EdgeCase >> 1;
    var x1 := (t[2] & 2) as EdgeCase;
    var x2 := (t[4] & 2) as EdgeCase << 1;
    var x3 := (t[6] & 2) as EdgeCase << 2;
    var y0 := (t[0] & 4) as EdgeCase << 2;
    var y1 := (t[1] & 4) as EdgeCase << 3;
    var y2 := (t[4] & 4) as EdgeCase << 4;
    var y3 := (t[5] & 4) as EdgeCase << 5;
    var z0 := (t[0] & 8) as EdgeCase << 5;
    var z1 := (t[1] & 8) as EdgeCase << 6;
    var z2 := (t[2] & 8) as EdgeCase << 7;
    var z3 := (t[3] & 8) as EdgeCase << 8;
    var r := x0 | x1 | x2 | x3 | y0 | y1 | y2 | y3 | z0 | z1 | z2 | z3;
    EdgeCaseBits(t, r);
    r
  }

  lemma EdgeCaseBits(t: seq<Triad>, r: EdgeCase)
    requires |t| == 7
    requires r == ((t[0] & 2) as EdgeCase >> 1) | (t[2] & 2) as EdgeCase | ((t[4] & 2) as EdgeCase << 1)
              | ((t[6] & 2) as EdgeCase << 2) | ((t[0] & 4) as EdgeCase << 2) | ((t[1] & 4) as EdgeCase << 3)
              | ((t[4] & 4) as EdgeCase << 4) | ((t[5] & 4) as EdgeCase << 5) | ((t[0] & 8) as EdgeCase << 5)
              | ((t[1] & 8) as EdgeCase << 6) | ((t[2] & 8) as EdgeCase << 7) | ((t[3] & 8) as EdgeCase << 8)
    ensures r < 4096
    ensures forall e :: 0 <= e < 12 ==> (EdgeBit(r, e) <==> t[EdgeTriad(e)] & AxisBit(e) != 0)
  {
    forall e | 0 <= e < 12 ensures EdgeBit(r, e) <==> t[EdgeTriad(e)] & AxisBit(e) != 0 {
      if e == 0 {} else if e == 1 {} else if e == 2 {} else if e == 3 {}
      else if e == 4 {} else if e == 5 {} else if e == 6 {} else if e == 7 {}
      else if e == 8 {} else if e == 9 {} else if e == 10 {}
    }
  }

  // ---- GetFaceCase -----------------------------------------------------------

  /** The two faces each edge activates, as the face-case bits it ORs in. */
  function FaceMask(e: int): FaceCase
    requires 0 <= e < 12
  {
    [20, 24, 36, 40, 17, 18, 33, 34, 5, 6, 9, 10][e]
  }

  /** The face case of an edge case: each set edge bit sets the bits of its two faces. */
  function GetFaceCase(edgeCase: EdgeCase): (fCase: FaceCase)
    ensures fCase < 64
    ensures forall f :: 0 <= f < 6 ==>
              (FaceBit(fCase, f) <==> exists e :: 0 <= e < 12 && EdgeBit(edgeCase, e) && OnFace(e, f))
  {
    var r := FaceCaseLoop(edgeCase, 12);
    FaceCaseFaces(edgeCase);
    r
  }

  /** The twelve tests of the source, edge by edge: edges [0, n) processed. */
  function FaceCaseLoop(edgeCase: EdgeCase, n: nat): (fCase: FaceCase)
    requires n <= 12
    decreases n
  {
    if n == 0 then 0
    else FaceCaseLoop(edgeCase, n - 1) | (if EdgeBit(edgeCase, n - 1) then FaceMask(n - 1) else 0)
  }

  /** Each face mask holds exactly the two faces its edge lies on. */
  lemma FaceMaskIsGeometry(e: int)
    requires 0 <= e < 12
    ensures FaceMask(e) < 64
    ensures forall f :: 0 <= f < 6 ==> (FaceBit(FaceMask(e), f) <==> OnFace(e, f))
  {
    if e == 0 {} else if e == 1 {} else if e == 2 {} else if e == 3 {}
    else if e == 4 {} else if e == 5 {} else if e == 6 {} else if e == 7 {}
    else if e == 8 {} else if e == 9 {} else if e == 10 {} else {}
  }

  /** Some edge below n that is set in edgeCase lies on face f. */
  predicate SomeEdgeOnFace(edgeCase: EdgeCase, n: int, f: int)
    requires 0 <= n <= 12
  {
    exists e :: 0 <= e < n && EdgeBit(edgeCase, e) && OnFace(e, f)
  }

  lemma FaceBitOr(a: FaceCase, b: FaceCase, f: int)
    requires 0 <= f < 8
    ensures FaceBit(a | b, f) <==> FaceBit(a, f) || FaceBit(b, f)
  {
  }

  /** Bit f of the partial face case is set iff an edge below n on face f is set. */
  lemma {:induction false} FaceCaseLoopFaces(edgeCase: EdgeCase, n: nat)
    requires n <= 12
    ensures FaceCaseLoop(edgeCase, n) < 64
    ensures forall f :: 0 <= f < 6 ==> (FaceBit(FaceCaseLoop(edgeCase, n), f) <==> SomeEdgeOnFace(edgeCase, n, f))
    decreases n
  {
    if n > 0 {
      FaceCaseLoopFaces(edgeCase, n - 1);
      FaceMaskIsGeometry(n - 1);
      var prev := FaceCaseLoop(edgeCase, n - 1);
      var add: FaceCase := if EdgeBit(edgeCase, n - 1) then FaceMask(n - 1) else 0;
      var comb := prev | add;
      assert comb == FaceCaseLoop(edgeCase, n);
      assert comb < 64 by { assert prev < 64 && add < 64; }
      forall f | 0 <= f < 6
        ensures FaceBit(comb, f) <==> SomeEdgeOnFace(edgeCase, n, f)
      {
        FaceBitOr(prev, add, f);
        if SomeEdgeOnFace(edgeCase, n, f) {
          var e :| 0 <= e < n && EdgeBit(edgeCase, e) && OnFace(e, f);
          if e < n - 1 { assert SomeEdgeOnFace(edgeCase, n - 1, f); }
        }
        if EdgeBit(edgeCase, n - 1) && OnFace(n - 1, f) {
          assert SomeEdgeOnFace(edgeCase, n, f);
        }
        if SomeEdgeOnFace(edgeCase, n - 1, f) {
          var e :| 0 <= e < n - 1 && EdgeBit(edgeCase, e) && OnFace(e, f);
          assert SomeEdgeOnFace(edgeCase, n, f);
        }
      }
    }
  }

  lemma FaceCaseFaces(edgeCase: EdgeCase)
    ensures FaceCaseLoop(edgeCase, 12) < 64
    ensures forall f :: 0 <= f < 6 ==>
              (FaceBit(FaceCaseLoop(edgeCase, 12), f) <==> exists e :: 0 <= e < 12 && EdgeBit(edgeCase, e) && OnFace(e, f))
  {
    FaceCaseLoopFaces(edgeCase, 12);
  }

  /** Every edge lies on exactly two faces, so a set edge bit sets exactly two face bits. */
  lemma EdgeOnTwoFaces(e: int)
    requires 0 <= e < 12
    ensures exists f, g :: 0 <= f < g < 6 && OnFace(e, f) && OnFace(e, g)
              && forall h :: 0 <= h < 6 && OnFace(e, h) ==> h == f || h == g
  {
    var a, b := EdgeAxis(e), (if EdgeAxis(e) == 0 then 2 + EdgeLo(e) else EdgeLo(e));
    var c := if EdgeAxis(e) == 2 then 2 + EdgeHi(e) else 4 + EdgeHi(e);
    assert OnFace(e, b) && OnFace(e, c) && b < c;
  }

  // ---- quads -----------------------------------------------------------------

  /** A triad whose z-edge is intersected makes the x-y quad of its voxel corner (bit 3). */
  predicate GenerateXYQuad(triad: Triad): (r: bool)
    ensures r <==> (triad >> 3) & 1 == 1
  {
    triad & ZIntersection > 0
  }

  /** A triad whose y-edge is intersected makes the x-z quad (bit 2). */
  predicate GenerateXZQuad(triad: Triad): (r: bool)
    ensures r <==> (triad >> 2) & 1 == 1
  {
    triad & YIntersection > 0
  }

  /** A triad whose x-edge is intersected makes the y-z quad (bit 1). */
  predicate GenerateYZQuad(triad: Triad): (r: bool)
    ensures r <==> (triad >> 1) & 1 == 1
  {
    triad & XIntersection > 0
  }

  /** The mask 14 is the three intersection bits: a triad makes a quad iff it makes one of the three. */
  predicate ProducesQuad(triad: Triad): (r: bool)
    ensures r <==> GenerateXYQuad(triad) || GenerateXZQuad(triad) || GenerateYZQuad(triad)
  {
    triad & 14 > 0
  }

  /** A triad whose voxel needs an output point carries bit 4. */
  predicate ProducesPoint(triad: Triad): (r: bool)
    ensures r <==> (triad >> 4) & 1 == 1
  {
    triad & ProducePoint > 0
  }

  function GetNumberOfQuads(triad: Triad): (numQuads: int)
    ensures numQuads == (if triad & 2 != 0 then 1 else 0) + (if triad & 4 != 0 then 1 else 0)
                        + (if triad & 8 != 0 then 1 else 0)
    ensures 0 <= numQuads <= 3
    ensures numQuads > 0 <==> ProducesQuad(triad)
  {
    (if GenerateXYQuad(triad) then 1 else 0) + (if GenerateXZQuad(triad) then 1 else 0)
    + (if GenerateYZQuad(triad) then 1 else 0)
  }

  // ---- smoothing stencils ----------------------------------------------------

  /**
   * A row of StencilCases: the number of stencil edges, then one 0/1 entry
   * per face neighbour in the order -x, +x, -y, +y, -z, +z.
   */
  datatype Stencil = Stencil(numEdges: int, mx: int, px: int, my: int, py: int, mz: int, pz: int)

  /** The literal table StencilCases[64][7]. */
  function StencilCases(faceCase: FaceCase): Stencil
    requires faceCase < 64
  {
    match faceCase
      case 0 => Stencil(0, 0, 0, 0, 0, 0, 0)
      case 1 => Stencil(1, 1, 0, 0, 0, 0, 0)
      case 2 => Stencil(1, 0, 1, 0, 0, 0, 0)
      case 3 => Stencil(2, 1, 1, 0, 0, 0, 0)
      case 4 => Stencil(1, 0, 0, 1, 0, 0, 0)
      case 5 => Stencil(2, 1, 0, 1, 0, 0, 0)
      case 6 => Stencil(2, 0, 1, 1, 0, 0, 0)
      case 7 => Stencil(3, 1, 1, 1, 0, 0, 0)
      case 8 => Stencil(1, 0, 0, 0, 1, 0, 0)
      case 9 => Stencil(2, 1, 0, 0, 1, 0, 0)
      case 10 => Stencil(2, 0, 1, 0, 1, 0, 0)
      case 11 => Stencil(3, 1, 1, 0, 1, 0, 0)
      case 12 => Stencil(2, 0, 0, 1, 1, 0, 0)
      case 13 => Stencil(3, 1, 0, 1, 1, 0, 0)
      case 14 => Stencil(3, 0, 1, 1, 1, 0, 0)
      case 15 => Stencil(4, 1, 1, 1, 1, 0, 0)
      case 16 => Stencil(1, 0, 0, 0, 0, 1, 0)
      case 17 => Stencil(2, 1, 0, 0, 0, 1, 0)
      case 18 => Stencil(2, 0, 1, 0, 0, 1, 0)
      case 19 => Stencil(3, 1, 1, 0, 0, 1, 0)
      case 20 => Stencil(2, 0, 0, 1, 0, 1, 0)
      case 21 => Stencil(3, 1, 0, 1, 0, 1, 0)
      case 22 => Stencil(3, 0, 1, 1, 0, 1, 0)
      case 23 => Stencil(4, 1, 1, 1, 0, 1, 0)
      case 24 => Stencil(2, 0, 0, 0, 1, 1, 0)
      case 25 => Stencil(3, 1, 0, 0, 1, 1, 0)
      case 26 => Stencil(3, 0, 1, 0, 1, 1, 0)
      case 27 => Stencil(4, 1, 1, 0, 1, 1, 0)
      case 28 => Stencil(3, 0, 0, 1, 1, 1, 0)
      case 29 => Stencil(4, 1, 0, 1, 1, 1, 0)
      case 30 => Stencil(4, 0, 1, 1, 1, 1, 0)
      case 31 => Stencil(5, 1, 1, 1, 1, 1, 0)
      case 32 => Stencil(1, 0, 0, 0, 0, 0, 1)
      case 33 => Stencil(2, 1, 0, 0, 0, 0, 1)
      case 34 => Stencil(2, 0, 1, 0, 0, 0, 1)
      case 35 => Stencil(3, 1, 1, 0, 0, 0, 1)
      case 36 => Stencil(2, 0, 0, 1, 0, 0, 1)
      case 37 => Stencil(3, 1, 0, 1, 0, 0, 1)
      case 38 => Stencil(3, 0, 1, 1, 0, 0, 1)
      case 39 => Stencil(4, 1, 1, 1, 0, 0, 1)
      case 40 => Stencil(2, 0, 0, 0, 1, 0, 1)
      case 41 => Stencil(3, 1, 0, 0, 1, 0, 1)
      case 42 => Stencil(3, 0, 1, 0, 1, 0, 1)
      case 43 => Stencil(4, 1, 1, 0, 1, 0, 1)
      case 44 => Stencil(3, 0, 0, 1, 1, 0, 1)
      case 45 => Stencil(4, 1, 0, 1, 1, 0, 1)
      case 46 => Stencil(4, 0, 1, 1, 1, 0, 1)
      case 47 => Stencil(5, 1, 1, 1, 1, 0, 1)
      case 48 => Stencil(2, 0, 0, 0, 0, 1, 1)
      case 49 => Stencil(3, 1, 0, 0, 0, 1, 1)
      case 50 => Stencil(3, 0, 1, 0, 0, 1, 1)
      case 51 => Stencil(4, 1, 1, 0, 0, 1, 1)
      case 52 => Stencil(3, 0, 0, 1, 0, 1, 1)
      case 53 => Stencil(4, 1, 0, 1, 0, 1, 1)
      case 54 => Stencil(4, 0, 1, 1, 0, 1, 1)
      case 55 => Stencil(5, 1, 1, 1, 0, 1, 1)
      case 56 => Stencil(3, 0, 0, 0, 1, 1, 1)
      case 57 => Stencil(4, 1, 0, 0, 1, 1, 1)
      case 58 => Stencil(4, 0, 1, 0, 1, 1, 1)
      case 59 => Stencil(5, 1, 1, 0, 1, 1, 1)
      case 60 => Stencil(4, 0, 0, 1, 1, 1, 1)
      case 61 => Stencil(5, 1, 0, 1, 1, 1, 1)
      case 62 => Stencil(5, 0, 1, 1, 1, 1, 1)
      case _ => Stencil(6, 1, 1, 1, 1, 1, 1)
  }

  function FaceFlag(c: FaceCase, mask: FaceCase): int { if c & mask != 0 then 1 else 0 }

  /** The row the stencil generator prints for faceCase: popcount, then the six face bits. */
  function GeneratedStencil(faceCase: FaceCase): Stencil
  {
    var f0, f1, f2 := FaceFlag(faceCase, 1), FaceFlag(faceCase, 2), FaceFlag(faceCase, 4);
    var f3, f4, f5 := FaceFlag(faceCase, 8), FaceFlag(faceCase, 16), FaceFlag(faceCase, 32);
    Stencil(f0 + f1 + f2 + f3 + f4 + f5, f0, f1, f2, f3, f4, f5)
  }

  /** The literal table is the generator's output, row for row. */
  lemma StencilCasesGenerated(faceCase: FaceCase)
    requires faceCase < 64
    ensures StencilCases(faceCase) == GeneratedStencil(faceCase)
    ensures 0 <= StencilCases(faceCase).numEdges <= 6
  {
    if faceCase < 32 { StencilCasesLow(faceCase); } else { StencilCasesHigh(faceCase); }
  }

  lemma StencilCasesLow(faceCase: FaceCase)
    requires faceCase < 32
    ensures StencilCases(faceCase) == GeneratedStencil(faceCase)
  {
  }

  lemma StencilCasesHigh(faceCase: FaceCase)
    requires 32 <= faceCase < 64
    ensures StencilCases(faceCase) == GeneratedStencil(faceCase)
  {
    if faceCase < 48 { StencilCasesFrom32(faceCase); } else { StencilCasesFrom48(faceCase); }
  }

  lemma StencilCasesFrom32(faceCase: FaceCase)
    requires 32 <= faceCase < 48
    ensures StencilCases(faceCase) == GeneratedStencil(faceCase)
  {
  }

  lemma StencilCasesFrom48(faceCase: FaceCase)
    requires 48 <= faceCase < 64
    ensures StencilCases(faceCase) == GeneratedStencil(faceCase)
  {
  }

  function GetNumberOfStencilEdges(faceCase: FaceCase): (n: int)
    requires faceCase < 64
    ensures n == FaceFlag(faceCase, 1) + FaceFlag(faceCase, 2) + FaceFlag(faceCase, 4)
                 + FaceFlag(faceCase, 8) + FaceFlag(faceCase, 16) + FaceFlag(faceCase, 32)
  {
    StencilCasesGenerated(faceCase);
    StencilCases(faceCase).numEdges
  }

  // ---- edge classification ---------------------------------------------------

  /**
   * ClassifyYEdge / ClassifyZEdge: case0 and case1 are the triads at the two
   * ends of the edge, s0 and s1 the voxel values there; axisBit is
   * YIntersection or ZIntersection.
   */
  function ClassifyEdge(case0: Triad, case1: Triad, s0: int, s1: int, axisBit: Triad): (r: Triad)
    requires axisBit == YIntersection || axisBit == ZIntersection
    ensures r == 0 || r == axisBit
    ensures r == axisBit <==>
              (case0 & 1 != case1 & 1) || (case0 & 1 == Inside && case1 & 1 == Inside && s0 != s1)
  {
    var inout0, inout1 := case0 & 1, case1 & 1;
    if inout0 == inout1 then
      if inout0 == Outside then 0
      else if s0 == s1 then 0 else axisBit
    else axisBit
  }

  function ClassifyYEdge(case0: Triad, case1: Triad, s0: int, s1: int): (r: Triad)
    ensures r == 0 || r == YIntersection
    ensures r == 0 <== case0 & 1 == Outside && case1 & 1 == Outside
    ensures (case0 & 1 != case1 & 1) ==> r == YIntersection
    ensures case0 & 1 == Inside && case1 & 1 == Inside ==> (r == YIntersection <==> s0 != s1)
  {
    ClassifyEdge(case0, case1, s0, s1, YIntersection)
  }

  function ClassifyZEdge(case0: Triad, case1: Triad, s0: int, s1: int): (r: Triad)
    ensures r == 0 || r == ZIntersection
    ensures r == 0 <== case0 & 1 == Outside && case1 & 1 == Outside
    ensures (case0 & 1 != case1 & 1) ==> r == ZIntersection
    ensures case0 & 1 == Inside && case1 & 1 == Inside ==> (r == ZIntersection <==> s0 != s1)
  {
    ClassifyEdge(case0, case1, s0, s1, ZIntersection)
  }

  /**
   * The x-edge class of triad i of an image row vox (triad i sits on voxel
   * i - 1; the padded first triad reads voxel 0 twice and the last one
   * repeats the last voxel): Inside if its origin carries a label value, and
   * XIntersection if the values at the two ends differ and one is a label.
   */
  function XClass(vox: seq<int>, labels: set<int>, i: int): (tCase: Triad)
    requires 1 <= |vox| && 0 <= i <= |vox|
    ensures tCase < 4
  {
    var s0 := vox[if i == 0 then 0 else i - 1];
    var s1 := vox[if i == |vox| then i - 1 else i];
    var lv0, lv1 := s0 in labels, s1 in labels;
    (if lv0 then Inside else Outside) | (if (lv0 || lv1) && s0 != s1 then XIntersection else 0)
  }

  /**
   * ClassifyXEdges for one row: triads is the row of numTriads == |vox| + 2
   * triads.  Triads whose class is not Outside are written; the others keep
   * their value.  Returns the trim range [xL, xR): the first and one past the
   * last written triad, or [numTriads, 0) when none is written.
   */
  method ClassifyXEdges(vox: seq<int>, labels: set<int>, triads: array<Triad>) returns (xL: int, xR: int)
    requires 1 <= |vox| && triads.Length == |vox| + 2
    modifies triads
    ensures forall i :: 0 <= i <= |vox| ==>
              triads[i] == if XClass(vox, labels, i) != Outside then XClass(vox, labels, i) else old(triads[i])
    ensures triads[|vox| + 1] == old(triads[|vox| + 1])
    ensures 0 <= xL <= triads.Length && 0 <= xR <= triads.Length
    ensures forall i :: 0 <= i < xL && i <= |vox| ==> XClass(vox, labels, i) == Outside
    ensures forall i :: xR <= i <= |vox| ==> XClass(vox, labels, i) == Outside
    ensures xL == triads.Length || (xL <= |vox| && XClass(vox, labels, xL) != Outside)
    ensures xR == 0 || (xR <= |vox| + 1 && XClass(vox, labels, xR - 1) != Outside)
    ensures xL == triads.Length <==> xR == 0
  {
    var numTriads := triads.Length;
    var s0: int;
    var s1 := vox[0];
    var isLV0: bool;
    var isLV1 := s1 in labels;
    var minInt, maxInt := numTriads, 0;
    var i := 0;
    while i < numTriads - 1
      invariant 0 <= i <= numTriads - 1
      invariant isLV1 == (s1 in labels)
      invariant i < numTriads - 1 ==> s1 == vox[if i == 0 then 0 else i - 1]
      invariant forall j :: 0 <= j < i ==>
                  triads[j] == if XClass(vox, labels, j) != Outside then XClass(vox, labels, j) else old(triads[j])
      invariant forall j :: i <= j < numTriads ==> triads[j] == old(triads[j])
      invariant minInt == numTriads || (0 <= minInt < i && XClass(vox, labels, minInt) != Outside)
      invariant forall j :: 0 <= j < i && j < minInt ==> XClass(vox, labels, j) == Outside
      invariant maxInt == 0 <==> minInt == numTriads
      invariant 0 <= maxInt <= i
      invariant maxInt > 0 ==> maxInt - 1 <= |vox| && XClass(vox, labels, maxInt - 1) != Outside
      invariant forall j :: maxInt <= j < i ==> XClass(vox, labels, j) == Outside
    {
      s0 := s1;
      isLV0 := isLV1;
      if i == numTriads - 2 {
        s1 := s0;
        isLV1 := isLV0;
      } else {
        s1 := vox[i];
        isLV1 := if s0 == s1 then isLV0 else s1 in labels;
      }
      var tCase := if isLV0 then Inside else Outside;
      if (isLV0 || isLV1) && s0 != s1 {
        tCase := tCase | XIntersection;
      }
      assert tCase == XClass(vox, labels, i);
      if isLV0 || tCase > Outside {
        triads[i] := tCase;
        minInt := if i < minInt then i else minInt;
        maxInt := i + 1;
      }
      i := i + 1;
    }
    xL := minInt;
    xR := if maxInt < numTriads then maxInt else numTriads;
  }

  // ---- the label pair of a quad ----------------------------------------------

  /**
   * WriteScalarTuple: the two region labels on either side of a quad, with
   * the background label last, and in increasing order when both are inside.
   */
  function WriteScalarTuple(s0: int, s1: int, backgroundLabel: int): (pair: (int, int))
    ensures multiset{pair.0, pair.1} == multiset{s0, s1}
    ensures (s0 == backgroundLabel || s1 == backgroundLabel) ==> pair.1 == backgroundLabel
    ensures s0 != backgroundLabel && s1 != backgroundLabel ==> pair.0 <= pair.1
  {
    if s0 == backgroundLabel || (s1 != backgroundLabel && s0 > s1) then (s1, s0) else (s0, s1)
  }

  // ---- ConfigureOutput: the prefix sum over the edge metadata -----------------

  /**
   * The metadata of one volume x-edge (row): the numbers of points, quads and
   * stencil edges it generates (replaced by their starting offsets), and its
   * trim range [xL, xR).
   */
  datatype EdgeMeta = EdgeMeta(numPts: int, numQuads: int, numSEdges: int, xL: int, xR: int)

  function PtsColumn(m: seq<EdgeMeta>): (r: seq<int>)
    ensures |r| == |m| && forall k :: 0 <= k < |m| ==> r[k] == m[k].numPts
  {
    seq(|m|, k requires 0 <= k < |m| => m[k].numPts)
  }

  function QuadsColumn(m: seq<EdgeMeta>): (r: seq<int>)
    ensures |r| == |m| && forall k :: 0 <= k < |m| ==> r[k] == m[k].numQuads
  {
    seq(|m|, k requires 0 <= k < |m| => m[k].numQuads)
  }

  function SEdgesColumn(m: seq<EdgeMeta>): (r: seq<int>)
    ensures |r| == |m| && forall k :: 0 <= k < |m| ==> r[k] == m[k].numSEdges
  {
    seq(|m|, k requires 0 <= k < |m| => m[k].numSEdges)
  }

  /** Entry m with its three counts replaced by the offsets of entry r. */
  function Offset(m: EdgeMeta, orig: seq<EdgeMeta>, r: int): EdgeMeta
    requires 0 <= r <= |orig|
  {
    EdgeMeta(Offsets(PtsColumn(orig))[r], Offsets(QuadsColumn(orig))[r], Offsets(SEdgesColumn(orig))[r], m.xL, m.xR)
  }

  function TrimColumn(m: seq<EdgeMeta>): (r: seq<(int, int)>)
    ensures |r| == |m| && forall k :: 0 <= k < |m| ==> r[k] == (m[k].xL, m[k].xR)
  {
    seq(|m|, k requires 0 <= k < |m| => (m[k].xL, m[k].xR))
  }

  /** Entries before k hold their offsets (the sums of the counts before them); the rest are unchanged. */
  ghost predicate PrefixDone(cur: seq<EdgeMeta>, orig: seq<EdgeMeta>, k: int)
    requires |cur| == |orig| && 0 <= k <= |orig|
  {
    (forall r {:trigger cur[r]} :: 0 <= r < k ==> cur[r] == Offset(orig[r], orig, r))
    && (forall r {:trigger cur[r]} :: k <= r < |orig| ==> cur[r] == orig[r])
  }

  /**
   * The prefix-sum pass of ConfigureOutput, over numSlices slices of numRows
   * rows (row r of slice s is entry s * numRows + r): every count is
   * replaced by the sum of the counts before it, and the totals are returned.
   */
  method ConfigureOutput(eMD: array<EdgeMeta>, numRows: nat, numSlices: nat)
    returns (numOutPts: int, numOutQuads: int, numOutSEdges: int)
    requires eMD.Length == numRows * numSlices
    modifies eMD
    ensures PtsColumn(eMD[..]) == Offsets(PtsColumn(old(eMD[..])))[..eMD.Length]
    ensures QuadsColumn(eMD[..]) == Offsets(QuadsColumn(old(eMD[..])))[..eMD.Length]
    ensures SEdgesColumn(eMD[..]) == Offsets(SEdgesColumn(old(eMD[..])))[..eMD.Length]
    ensures TrimColumn(eMD[..]) == TrimColumn(old(eMD[..]))
    ensures numOutPts == Sum(PtsColumn(old(eMD[..])))
    ensures numOutQuads == Sum(QuadsColumn(old(eMD[..])))
    ensures numOutSEdges == Sum(SEdgesColumn(old(eMD[..])))
  {
    ghost var orig := eMD[..];
    numOutPts, numOutQuads, numOutSEdges := ConfigureSlices(eMD, orig, numRows, numSlices);
    PrefixDoneIsOffsets(eMD[..], orig);
  }

  /** The slice loop of ConfigureOutput. */
  method ConfigureSlices(eMD: array<EdgeMeta>, ghost orig: seq<EdgeMeta>, numRows: nat, numSlices: nat)
    returns (numOutPts: int, numOutQuads: int, numOutSEdges: int)
    requires eMD.Length == numRows * numSlices && eMD[..] == orig
    modifies eMD
    ensures PrefixDone(eMD[..], orig, |orig|)
    ensures numOutPts == Offsets(PtsColumn(orig))[|orig|]
    ensures numOutQuads == Offsets(QuadsColumn(orig))[|orig|]
    ensures numOutSEdges == Offsets(SEdgesColumn(orig))[|orig|]
  {
    assert |orig| == eMD.Length;
    OffsetsAt(PtsColumn(orig), 0);
    OffsetsAt(QuadsColumn(orig), 0);
    OffsetsAt(SEdgesColumn(orig), 0);
    numOutPts, numOutQuads, numOutSEdges := 0, 0, 0;
    var slice, start := 0, 0;
    while slice < numSlices
      invariant 0 <= slice <= numSlices
      invariant start == slice * numRows <= eMD.Length
      invariant PrefixDone(eMD[..], orig, start)
      invariant numOutPts == Offsets(PtsColumn(orig))[start]
      invariant numOutQuads == Offsets(QuadsColumn(orig))[start]
      invariant numOutSEdges == Offsets(SEdgesColumn(orig))[start]
    {
      SliceFits(slice, numRows, numSlices);
      numOutPts, numOutQuads, numOutSEdges :=
        ConfigureSlice(eMD, orig, start, numRows, numOutPts, numOutQuads, numOutSEdges);
      slice, start := slice + 1, start + numRows;
    }
    assert start == |orig|;
  }

  /** The row loop of ConfigureOutput over the numRows entries from start. */
  method ConfigureSlice(eMD: array<EdgeMeta>, ghost orig: seq<EdgeMeta>, start: nat, numRows: nat,
                        pts0: int, quads0: int, sEdges0: int)
    returns (numOutPts: int, numOutQuads: int, numOutSEdges: int)
    requires |orig| == eMD.Length && start + numRows <= eMD.Length
    requires PrefixDone(eMD[..], orig, start)
    requires pts0 == Offsets(PtsColumn(orig))[start] && quads0 == Offsets(QuadsColumn(orig))[start]
    requires sEdges0 == Offsets(SEdgesColumn(orig))[start]
    modifies eMD
    ensures PrefixDone(eMD[..], orig, start + numRows)
    ensures numOutPts == Offsets(PtsColumn(orig))[start + numRows]
    ensures numOutQuads == Offsets(QuadsColumn(orig))[start + numRows]
    ensures numOutSEdges == Offsets(SEdgesColumn(orig))[start + numRows]
  {
    numOutPts, numOutQuads, numOutSEdges := pts0, quads0, sEdges0;
    var row := 0;
    while row < numRows
      invariant 0 <= row <= numRows
      invariant PrefixDone(eMD[..], orig, start + row)
      invariant numOutPts == Offsets(PtsColumn(orig))[start + row]
      invariant numOutQuads == Offsets(QuadsColumn(orig))[start + row]
      invariant numOutSEdges == Offsets(SEdgesColumn(orig))[start + row]
    {
      var k := start + row;
      var m := eMD[k];
      ghost var before := eMD[..];
      PrefixDoneStep(before, orig, k);
      eMD[k] := EdgeMeta(numOutPts, numOutQuads, numOutSEdges, m.xL, m.xR);
      assert eMD[..] == before[k := Offset(orig[k], orig, k)];
      numOutPts := numOutPts + m.numPts;
      numOutQuads := numOutQuads + m.numQuads;
      numOutSEdges := numOutSEdges + m.numSEdges;
      row := row + 1;
    }
  }

  /** Replacing entry k by its offsets extends PrefixDone by one entry; the next offsets add entry k's counts. */
  lemma PrefixDoneStep(cur: seq<EdgeMeta>, orig: seq<EdgeMeta>, k: nat)
    requires |cur| == |orig| && k < |orig| && PrefixDone(cur, orig, k)
    ensures cur[k] == orig[k]
    ensures PrefixDone(cur[k := Offset(orig[k], orig, k)], orig, k + 1)
    ensures Offsets(PtsColumn(orig))[k + 1] == Offsets(PtsColumn(orig))[k] + orig[k].numPts
    ensures Offsets(QuadsColumn(orig))[k + 1] == Offsets(QuadsColumn(orig))[k] + orig[k].numQuads
    ensures Offsets(SEdgesColumn(orig))[k + 1] == Offsets(SEdgesColumn(orig))[k] + orig[k].numSEdges
  {
    OffsetsRecoverCounts(PtsColumn(orig));
    OffsetsRecoverCounts(QuadsColumn(orig));
    OffsetsRecoverCounts(SEdgesColumn(orig));
  }

  lemma SliceFits(slice: nat, numRows: nat, numSlices: nat)
    requires slice < numSlices
    ensures slice * numRows + numRows == (slice + 1) * numRows <= numRows * numSlices
  {
    var d := numSlices - (slice + 1);
    assert numSlices * numRows == (slice + 1) * numRows + d * numRows;
    assert d * numRows >= 0;
  }

  /** After the whole pass each count column is the prefix of its offsets, and the trims are kept. */
  lemma PrefixDoneIsOffsets(cur: seq<EdgeMeta>, orig: seq<EdgeMeta>)
    requires |cur| == |orig| && PrefixDone(cur, orig, |orig|)
    ensures PtsColumn(cur) == Offsets(PtsColumn(orig))[..|orig|]
    ensures QuadsColumn(cur) == Offsets(QuadsColumn(orig))[..|orig|]
    ensures SEdgesColumn(cur) == Offsets(SEdgesColumn(orig))[..|orig|]
    ensures TrimColumn(cur) == TrimColumn(orig)
    ensures Offsets(PtsColumn(orig))[|orig|] == Sum(PtsColumn(orig))
    ensures Offsets(QuadsColumn(orig))[|orig|] == Sum(QuadsColumn(orig))
    ensures Offsets(SEdgesColumn(orig))[|orig|] == Sum(SEdgesColumn(orig))
  {
    OffsetsRecoverCounts(PtsColumn(orig));
    OffsetsRecoverCounts(QuadsColumn(orig));
    OffsetsRecoverCounts(SEdgesColumn(orig));
  }
}
