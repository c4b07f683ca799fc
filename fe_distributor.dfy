// The integer and string bookkeeping of vtkFiniteElementFieldDistributor:
// splitting information records at a delimiter, parsing the records into
// per-basis finite element specifications, the IOSS node orderings of the
// supported cell shapes, scattering a discontinuous HGRAD field from a cell
// onto the cell's exploded points, and finding the cell that uses a given
// set of points.
module FeDistributor {
  import opened Common

  // ---- Split -------------------------------------------------------------------

  /** d occurs in s at k. */
  predicate OccursAt(s: string, d: string, k: int)
  {
    0 <= k && k + |d| <= |s| && s[k..k + |d|] == d
  }

  /** std::string::find: the first occurrence of d at or after from. */
  function Find(s: string, d: string, from: nat): (k: Option<nat>)
    requires |d| > 0
    ensures k.Some? ==> from <= k.value && OccursAt(s, d, k.value)
    ensures forall j :: from <= j && (k.None? || j < k.value) ==> !OccursAt(s, d, j)
    decreases |s| - from
  {
    if from + |d| > |s| then None
    else if s[from..from + |d|] == d then Some(from)
    else Find(s, d, from + 1)
  }

  /** The pieces Split produces from position start on. */
  function SplitFrom(s: string, d: string, start: nat): seq<string>
    requires |d| > 0 && start <= |s|
    decreases |s| - start
  {
    match Find(s, d, start)
    case Some(e) => [s[start..e]] + SplitFrom(s, d, e + |d|)
    case None => if start < |s| then [s[start..]] else []
  }

  /**
   * Split: the substrings between occurrences of the delimiter, found left
   * to right; a piece after the last delimiter is kept only when it is not
   * empty.  The delimiter must not be empty (with an empty one the source
   * loops for ever).
   */
  method Split(s: string, d: string) returns (pieces: seq<string>)
    requires |d| > 0
    ensures pieces == SplitFrom(s, d, 0)
  {
    pieces := [];
    var sIdx := 0;
    var eIdx := Find(s, d, sIdx);
    while eIdx.Some?
      invariant sIdx <= |s| && eIdx == Find(s, d, sIdx)
      invariant pieces + SplitFrom(s, d, sIdx) == SplitFrom(s, d, 0)
      decreases |s| - sIdx
    {
      SplitStep(pieces, s, d, sIdx, eIdx.value);
      pieces := pieces + [s[sIdx..eIdx.value]];
      sIdx := eIdx.value + |d|;
      eIdx := Find(s, d, sIdx);
    }
    SplitLast(pieces, s, d, sIdx);
    if sIdx < |s| {
      pieces := pieces + [s[sIdx..]];
    }
  }

  /** One loop step of Split: the piece up to the next delimiter joins the pieces. */
  lemma SplitStep(pieces: seq<string>, s: string, d: string, start: nat, e: nat)
    requires |d| > 0 && start <= |s| && Find(s, d, start) == Some(e)
    ensures e + |d| <= |s|
    ensures (pieces + [s[start..e]]) + SplitFrom(s, d, e + |d|) == pieces + SplitFrom(s, d, start)
  {
    assert SplitFrom(s, d, start) == [s[start..e]] + SplitFrom(s, d, e + |d|);
  }

  /** After the last delimiter: what remains is one piece, or nothing when it is empty. */
  lemma SplitLast(pieces: seq<string>, s: string, d: string, start: nat)
    requires |d| > 0 && start <= |s| && Find(s, d, start).None?
    ensures pieces + SplitFrom(s, d, start) == if start < |s| then pieces + [s[start..]] else pieces
  {
  }

  /** The pieces put back together with the delimiter between them. */
  function Join(pieces: seq<string>, d: string): string
  {
    if |pieces| == 0 then ""
    else if |pieces| == 1 then pieces[0]
    else pieces[0] + d + Join(pieces[1..], d)
  }

  /** No piece holds the delimiter. */
  lemma {:induction false} SplitPiecesHaveNoDelimiter(s: string, d: string, start: nat)
    requires |d| > 0 && start <= |s|
    ensures forall p, j :: p in SplitFrom(s, d, start) && 0 <= j ==> !OccursAt(p, d, j)
    decreases |s| - start
  {
    var k := Find(s, d, start);
    var piece := if k.Some? then s[start..k.value] else s[start..];
    forall j | 0 <= j && OccursAt(piece, d, j)
      ensures false
    {
      assert piece[j..j + |d|] == s[start + j..start + j + |d|];
      assert OccursAt(s, d, start + j);
    }
    if k.Some? {
      SplitPiecesHaveNoDelimiter(s, d, k.value + |d|);
    }
  }

  /**
   * Joining the pieces gives back the string, except that a delimiter that
   * ends the string is lost with the empty piece after it.
   */
  lemma {:induction false} JoinSplit(s: string, d: string, start: nat)
    requires |d| > 0 && start <= |s|
    ensures JoinsBack(Join(SplitFrom(s, d, start), d), s[start..], d)
    decreases |s| - start
  {
    match Find(s, d, start)
    case None =>
    case Some(e) =>
      JoinSplit(s, d, e + |d|);
      JoinSplitStep(s, d, start, e);
  }

  /** j is t, or t with its final delimiter dropped. */
  predicate JoinsBack(j: string, t: string, d: string)
  {
    j == t || j + d == t
  }

  lemma JoinSplitStep(s: string, d: string, start: nat, e: nat)
    requires |d| > 0 && start <= |s| && Find(s, d, start) == Some(e)
    requires JoinsBack(Join(SplitFrom(s, d, e + |d|), d), s[e + |d|..], d)
    ensures JoinsBack(Join(SplitFrom(s, d, start), d), s[start..], d)
  {
    var piece, rest, tail := s[start..e], SplitFrom(s, d, e + |d|), s[e + |d|..];
    assert SplitFrom(s, d, start) == [piece] + rest;
    assert OccursAt(s, d, e);
    SliceAround(s, start, e, e + |d|);
    assert s[start..] == piece + d + tail;
    if |rest| == 0 {
      assert Find(s, d, e + |d|).None?;
    }
    JoinCase(piece, rest, d, tail);
    assert JoinsBack(Join([piece] + rest, d), piece + d + tail, d);
  }

  /** A suffix of s cut in three at i and j. */
  lemma SliceAround(s: string, start: nat, i: nat, j: nat)
    requires start <= i <= j <= |s|
    ensures s[start..] == s[start..i] + s[i..j] + s[j..]
  {
  }

  lemma JoinCase(piece: string, rest: seq<string>, d: string, tail: string)
    requires JoinsBack(Join(rest, d), tail, d)
    requires |rest| == 0 ==> tail == []
    ensures JoinsBack(Join([piece] + rest, d), piece + d + tail, d)
  {
    JoinCons(piece, rest, d);
    var jr := Join(rest, d);
    if |rest| > 0 && jr != tail {
      assert (piece + d + jr) + d == piece + d + (jr + d);
    }
  }

  lemma JoinCons(p: string, rest: seq<string>, d: string)
    ensures Join([p] + rest, d) == if |rest| == 0 then p else p + d + Join(rest, d)
  {
    assert ([p] + rest)[1..] == rest;
  }

  /** A string that does not end with the delimiter is exactly the join of its pieces. */
  lemma JoinSplitExact(s: string, d: string)
    requires |d| > 0
    requires !(|d| <= |s| && s[|s| - |d|..] == d)
    ensures Join(SplitFrom(s, d, 0), d) == s
  {
    JoinSplit(s, d, 0);
    assert s[0..] == s;
  }

  // ---- Finding the cell that uses given points -------------------------------

  /** How often c occurs in l. */
  function Occ(c: nat, l: seq<nat>): nat
  {
    if |l| == 0 then 0 else Occ(c, l[..|l| - 1]) + (if l[|l| - 1] == c then 1 else 0)
  }

  lemma {:induction false} OccDistinct(c: nat, l: seq<nat>)
    requires forall i, j :: 0 <= i < j < |l| ==> l[i] != l[j]
    ensures Occ(c, l) == if c in l then 1 else 0
  {
    if |l| > 0 {
      var f := l[..|l| - 1];
      OccDistinct(c, f);
      assert forall x :: x in l <==> x in f || x == l[|l| - 1];
    }
  }

  /**
   * The count FindCellWithPoints keeps for cell c: how many of the given
   * point ids list c among their incident cells.
   */
  function Incidences(c: nat, pointCells: seq<seq<nat>>, ptIds: seq<nat>): nat
    requires forall i :: 0 <= i < |ptIds| ==> ptIds[i] < |pointCells|
  {
    if |ptIds| == 0 then 0
    else Incidences(c, pointCells, ptIds[..|ptIds| - 1]) + Occ(c, pointCells[ptIds[|ptIds| - 1]])
  }

  /** Each point lists an incident cell once. */
  ghost predicate LinksDistinct(pointCells: seq<seq<nat>>)
  {
    forall p, i, j :: 0 <= p < |pointCells| && 0 <= i < j < |pointCells[p]| ==> pointCells[p][i] != pointCells[p][j]
  }

  /** With duplicate-free links, the count reaches the number of ids exactly for the cells incident to all of them. */
  lemma {:induction false} IncidentToAll(c: nat, pointCells: seq<seq<nat>>, ptIds: seq<nat>)
    requires forall i :: 0 <= i < |ptIds| ==> ptIds[i] < |pointCells|
    requires LinksDistinct(pointCells)
    ensures Incidences(c, pointCells, ptIds) <= |ptIds|
    ensures Incidences(c, pointCells, ptIds) == |ptIds| <==> forall i :: 0 <= i < |ptIds| ==> c in pointCells[ptIds[i]]
  {
    if |ptIds| > 0 {
      var f := ptIds[..|ptIds| - 1];
      var last := ptIds[|ptIds| - 1];
      IncidentToAll(c, pointCells, f);
      OccDistinct(c, pointCells[last]);
      assert forall i :: 0 <= i < |f| ==> f[i] == ptIds[i];
    }
  }

  /** std::unordered_map operator[]: a missing cell counts 0. */
  function Get(counts: map<nat, nat>, c: nat): nat
  {
    if c in counts then counts[c] else 0
  }

  /**
   * FindCellWithPoints: a cell whose count equals the number of point ids,
   * or -1 when no counted cell reaches it.  The source scans its hash map in
   * an unspecified order; the model scans the cells in the order they were
   * first counted, so only the property of the answer is promised.
   */
  method FindCellWithPoints(pointCells: seq<seq<nat>>, ptIds: seq<nat>) returns (result: int)
    requires forall i :: 0 <= i < |ptIds| ==> ptIds[i] < |pointCells|
    ensures result >= 0 ==> Incidences(result as nat, pointCells, ptIds) == |ptIds|
    ensures result == -1 ==> forall c: nat :: Incidences(c, pointCells, ptIds) > 0 ==> Incidences(c, pointCells, ptIds) != |ptIds|
    ensures result >= -1
  {
    var counts: map<nat, nat> := map[];
    var keys: seq<nat> := [];
    var a := 0;
    while a < |ptIds|
      invariant 0 <= a <= |ptIds|
      invariant forall c :: c in counts <==> c in keys
      invariant forall c: nat :: Get(counts, c) == Incidences(c, pointCells, ptIds[..a])
      invariant forall c :: c in counts ==> counts[c] > 0
    {
      var cells := pointCells[ptIds[a]];
      var i := 0;
      while i < |cells|
        invariant 0 <= i <= |cells|
        invariant forall c :: c in counts <==> c in keys
        invariant forall c: nat :: Get(counts, c) == Incidences(c, pointCells, ptIds[..a]) + Occ(c, cells[..i])
        invariant forall c :: c in counts ==> counts[c] > 0
      {
        var cell := cells[i];
        if cell !in counts {
          keys := keys + [cell];
        }
        counts := counts[cell := Get(counts, cell) + 1];
        assert cells[..i + 1][..i] == cells[..i];
        i := i + 1;
      }
      assert cells[..i] == cells;
      assert ptIds[..a + 1][..a] == ptIds[..a];
      a := a + 1;
    }
    assert ptIds[..a] == ptIds;
    result := -1;
    var k := 0;
    while k < |keys|
      invariant 0 <= k <= |keys|
      invariant forall j :: 0 <= j < k ==> counts[keys[j]] != |ptIds|
    {
      if counts[keys[k]] == |ptIds| {
        return keys[k];
      }
      k := k + 1;
    }
  }

  // ---- IOSS orderings ------------------------------------------------------------

  /** The VTK cell types the IOSS table distinguishes. */
  datatype CellType = Line | Triangle | Quad | Tetra | Pyramid | Wedge | Hexahedron | OtherCell

  /** The 1-based node numbers 1..n in order. */
  function Iota(n: nat): (r: seq<int>)
    ensures |r| == n && forall i :: 0 <= i < n ==> r[i] == i + 1
  {
    seq(n, i => i + 1)
  }

  /**
   * s lists each of the node numbers from..from+n-1 once: it has n entries,
   * all in range, and every number in range occurs (so none repeats).
   */
  ghost predicate Numbers(s: seq<int>, from: int, n: nat)
  {
    |s| == n && (forall i :: 0 <= i < n ==> from <= s[i] < from + n) &&
    forall v :: from <= v < from + n ==> v in s
  }

  const Wedge15: seq<int> := [4, 5, 6, 1, 2, 3, 13, 14, 15, 7, 8, 9, 10, 11, 12]
  const Wedge18: seq<int> := Wedge15 + [16, 17, 18]
  const Hex20: seq<int> := [1, 2, 3, 4, 5, 6, 7, 8, 9, 10, 11, 12, 17, 18, 19, 20, 13, 14, 15, 16]
  const Hex27: seq<int> := Hex20 + [24, 25, 26, 27, 22, 23, 21]

  /** Whether the IOSS table has an ordering for this shape and node count. */
  predicate Supported(cellType: CellType, npts: int)
  {
    match cellType
    case Line => npts in {2, 3, 4}
    case Triangle => npts in {3, 6, 10}
    case Quad => npts in {4, 9, 16}
    case Tetra => npts in {4, 10, 11, 15}
    case Pyramid => false
    case Wedge => npts in {6, 15, 18, 21}
    case Hexahedron => npts in {8, 20, 27}
    case OtherCell => false
  }

  /**
   * GetIOSSTransformation: for each VTK node, the 1-based IOSS node it takes
   * its value from; empty for unsupported shapes and counts.
   */
  function IossTransformation(cellType: CellType, npts: int): (r: seq<int>)
    ensures |r| > 0 <==> Supported(cellType, npts)
  {
    match cellType
    case Line => if npts in {2, 3, 4} then Iota(npts) else []
    case Triangle => if npts in {3, 6, 10} then Iota(npts) else []
    case Quad => if npts in {4, 9, 16} then Iota(npts) else []
    case Tetra => if npts in {4, 10, 11, 15} then Iota(npts) else []
    case Pyramid => []
    case Wedge =>
      if npts == 6 then [4, 5, 6, 1, 2, 3]
      else if npts == 15 then Wedge15
      else if npts == 18 then Wedge18
      else if npts == 21 then Iota(21)
      else []
    case Hexahedron =>
      if npts == 8 then Iota(8)
      else if npts == 20 then Hex20
      else if npts == 27 then Hex27
      else []
    case OtherCell => []
  }

  /** Every ordering the table gives is a permutation of the node numbers 1..npts. */
  lemma IossTransformationIsPermutation(cellType: CellType, npts: int)
    requires Supported(cellType, npts)
    ensures Numbers(IossTransformation(cellType, npts), 1, npts)
  {
    var r := IossTransformation(cellType, npts);
    if cellType == Wedge && npts != 21 {
      WedgeNumbers();
    } else if cellType == Hexahedron && npts != 8 {
      HexNumbers();
    } else {
      IotaNumbers(npts);
    }
  }

  lemma IotaNumbers(n: nat)
    ensures Numbers(Iota(n), 1, n)
  {
    forall v | 1 <= v < 1 + n ensures v in Iota(n) {
      assert Iota(n)[v - 1] == v;
    }
  }

  lemma WedgeNumbers()
    ensures Numbers([4, 5, 6, 1, 2, 3], 1, 6)
    ensures Numbers(Wedge15, 1, 15)
    ensures Numbers(Wedge18, 1, 18)
  {
    assert forall v :: v in Wedge15 ==> v in Wedge18;
    assert forall v :: v in [4, 5, 6, 1, 2, 3] ==> v in Wedge15;
  }

  lemma HexNumbers()
    ensures Numbers(Hex20, 1, 20)
    ensures Numbers(Hex27, 1, 27)
  {
    forall v | 1 <= v < 28 ensures v in Hex27 && (v < 21 ==> v in Hex20) {
      if v <= 12 {
        assert Hex20[v - 1] == v;
      } else if v <= 16 {
        assert Hex20[v + 3] == v;
      } else if v <= 20 {
        assert Hex20[v - 5] == v;
      } else if v == 21 {
        assert Hex27[26] == v;
      } else if v <= 23 {
        assert Hex27[v + 2] == v;
      } else {
        assert Hex27[v - 4] == v;
      }
    }
  }

  /** ExplodeCell: the 1-based ordering turned 0-based. */
  function ZeroBased(ordering: seq<int>): (r: seq<int>)
    ensures |r| == |ordering|
    ensures forall i :: 0 <= i < |r| ==> r[i] == ordering[i] - 1
    ensures forall n: nat :: Numbers(ordering, 1, n) ==> Numbers(r, 0, n)
  {
    var r := seq(|ordering|, i requires 0 <= i < |ordering| => ordering[i] - 1);
    assert forall n: nat, v :: Numbers(ordering, 1, n) && 0 <= v < n ==> v in r by {
      forall n: nat, v | Numbers(ordering, 1, n) && 0 <= v < n ensures v in r {
        assert v + 1 in ordering;
        var i :| 0 <= i < |ordering| && ordering[i] == v + 1;
        assert r[i] == v;
      }
    }
    r
  }

  // ---- Exploding a discontinuous HGRAD field ---------------------------------------

  /**
   * The value each point of the exploded cell receives: the component the
   * ordering names when the ordering has one entry per point, else the
   * component with the point's own index.
   */
  function CellValues(comps: seq<real>, ordering: seq<int>): (vals: seq<real>)
    requires |ordering| == |comps| ==> forall i :: 0 <= i < |ordering| ==> 0 <= ordering[i] < |comps|
    ensures |vals| == |comps|
    ensures |ordering| == |comps| ==> forall i :: 0 <= i < |vals| ==> vals[i] == comps[ordering[i]]
    ensures |ordering| != |comps| ==> vals == comps
  {
    if |ordering| == |comps| then seq(|comps|, i requires 0 <= i < |comps| => comps[ordering[i]]) else comps
  }

  /** Writing vals[i] at pts[i], one after the other. */
  function Scatter(a: seq<real>, pts: seq<nat>, vals: seq<real>): (r: seq<real>)
    requires |pts| == |vals| && forall i :: 0 <= i < |pts| ==> pts[i] < |a|
    ensures |r| == |a|
  {
    if |pts| == 0 then a
    else Scatter(a, pts[..|pts| - 1], vals[..|vals| - 1])[pts[|pts| - 1] := vals[|vals| - 1]]
  }

  /** With distinct points every point gets its own value and every other entry is kept. */
  lemma {:induction false} ScatterDistinct(a: seq<real>, pts: seq<nat>, vals: seq<real>)
    requires |pts| == |vals| && forall i :: 0 <= i < |pts| ==> pts[i] < |a|
    requires forall i, j :: 0 <= i < j < |pts| ==> pts[i] != pts[j]
    ensures forall i :: 0 <= i < |pts| ==> Scatter(a, pts, vals)[pts[i]] == vals[i]
    ensures forall q :: 0 <= q < |a| && q !in pts ==> Scatter(a, pts, vals)[q] == a[q]
  {
    if |pts| > 0 {
      var n := |pts| - 1;
      ScatterDistinct(a, pts[..n], vals[..n]);
      assert forall q :: q in pts[..n] ==> q in pts;
    }
  }

  /**
   * ExplodeDGHGradCellCenteredField: when the input array exists and has one
   * component per point of the exploded cell, the values of CellValues are
   * written at the cell's new points; otherwise nothing is written.
   */
  method ExplodeDgHGradField(comps: Option<seq<real>>, pts: seq<nat>, ordering: seq<int>, outArr: array<real>)
    requires forall i :: 0 <= i < |pts| ==> pts[i] < outArr.Length
    requires |ordering| == |pts| ==> forall i :: 0 <= i < |ordering| ==> 0 <= ordering[i] < |pts|
    modifies outArr
    ensures comps.None? || |comps.value| != |pts| ==> outArr[..] == old(outArr[..])
    ensures comps.Some? && |comps.value| == |pts| ==>
              outArr[..] == Scatter(old(outArr[..]), pts, CellValues(comps.value, ordering))
  {
    if comps.None? || |comps.value| != |pts| {
      return;
    }
    var inArr := comps.value;
    var npts := |pts|;
    ghost var vals := CellValues(inArr, ordering);
    var i := 0;
    while i < npts
      invariant 0 <= i <= npts
      invariant outArr[..] == Scatter(old(outArr[..]), pts[..i], vals[..i])
    {
      var value := if |ordering| == npts then inArr[ordering[i]] else inArr[i];
      outArr[pts[i]] := value;
      assert pts[..i + 1][..i] == pts[..i];
      assert vals[..i + 1][..i] == vals[..i];
      i := i + 1;
    }
    assert pts[..i] == pts && vals[..i] == vals;
  }

  // ---- Information records -----------------------------------------------------------

  datatype Basis = HCurl | HDiv | HGrad

  /** One vtkFiniteElementSpec; an order or element type the records never set is None. */
  datatype FemSpec = FemSpec(cgFields: set<string>, dgFields: set<string>,
                             cgOrder: Option<int>, dgOrder: Option<int>, refType: Option<CellType>)

  const EmptySpec := FemSpec({}, {}, None, None, None)

  /** The three specifications, and the bases each block name is used with. */
  datatype RecordState = RecordState(hcurl: FemSpec, hdiv: FemSpec, hgrad: FemSpec, blocks: map<string, set<Basis>>)

  /** ResetFemSpecs and the empty block table. */
  const InitialState := RecordState(EmptySpec, EmptySpec, EmptySpec, map[])

  function SpecOf(st: RecordState, b: Basis): FemSpec
  {
    match b
    case HCurl => st.hcurl
    case HDiv => st.hdiv
    case HGrad => st.hgrad
  }

  function WithSpec(st: RecordState, b: Basis, spec: FemSpec): (r: RecordState)
    ensures SpecOf(r, b) == spec && r.blocks == st.blocks
    ensures forall b' :: b' != b ==> SpecOf(r, b') == SpecOf(st, b')
  {
    match b
    case HCurl => st.(hcurl := spec)
    case HDiv => st.(hdiv := spec)
    case HGrad => st.(hgrad := spec)
  }

  function BasisNamed(name: string): Option<Basis>
  {
    if name == "HCURL" then Some(HCurl)
    else if name == "HDIV" then Some(HDiv)
    else if name == "HGRAD" then Some(HGrad)
    else None
  }

  /** The reference element an Intrepid2 element name stands for. */
  function ElementNamed(name: string): Option<CellType>
  {
    if name == "HEX" then Some(Hexahedron)
    else if name == "LINE" then Some(Line)
    else if name == "PYR" then Some(Pyramid)
    else if name == "QUAD" then Some(Quad)
    else if name == "TET" then Some(Tetra)
    else if name == "TRI" then Some(Triangle)
    else if name == "WEDGE" then Some(Wedge)
    else None
  }

  /**
   * The order digit of the fourth part of an Intrepid2 name: its second
   * character less '0'.  Of a one-character part the source reads the
   * terminating NUL, which gives -48.
   */
  function OrderDigit(part: string): (order: int)
    requires |part| > 0
    ensures |part| >= 2 && '0' <= part[1] <= '9' ==> 0 <= order <= 9 && part[1] == ('0' as int + order) as char
    ensures |part| == 1 ==> order == -48
  {
    (if |part| >= 2 then part[1] as int else 0) - '0' as int
  }

  /**
   * A "basis" record: the element name (third part of the Intrepid2 name)
   * sets the reference element type, and the order digit of the fourth part
   * the CG or DG order.  Names with fewer than three parts, or an empty or
   * missing fourth part, are read past their end in the source; the model
   * leaves the parts it cannot read unset.
   */
  function ApplyBasis(spec: FemSpec, galerkin: string, intrepidName: string): FemSpec
  {
    var nameParts := SplitFrom(intrepidName, "_", 0);
    if |nameParts| < 3 then spec
    else
      var typed := match ElementNamed(nameParts[2])
        case Some(t) => spec.(refType := Some(t))
        case None => spec;
      if |nameParts| < 4 || |nameParts[3]| == 0 then typed
      else
        var order := OrderDigit(nameParts[3]);
        if galerkin == "CG" then typed.(cgOrder := Some(order))
        else if galerkin == "DG" then typed.(dgOrder := Some(order))
        else typed
  }

  /** A "field" record adds the field to the CG or DG field set of its basis. */
  function ApplyField(spec: FemSpec, galerkin: string, name: string): FemSpec
  {
    if galerkin == "CG" then spec.(cgFields := spec.cgFields + {name})
    else if galerkin == "DG" then spec.(dgFields := spec.dgFields + {name})
    else spec
  }

  /**
   * One information record "basis::block::galerkin::entity::name": records
   * with fewer than five parts or another basis are skipped; otherwise the
   * block is noted with its basis and a basis or field entity is applied to
   * the basis's specification.
   */
  function ApplyRecord(st: RecordState, record: string): RecordState
  {
    var data := SplitFrom(record, "::", 0);
    if |data| < 5 || BasisNamed(data[0]).None? then st
    else
      var b := BasisNamed(data[0]).value;
      var used := if data[1] in st.blocks then st.blocks[data[1]] else {};
      var st1 := st.(blocks := st.blocks[data[1] := used + {b}]);
      if data[3] == "basis" then WithSpec(st1, b, ApplyBasis(SpecOf(st1, b), data[2], data[4]))
      else if data[3] == "field" then WithSpec(st1, b, ApplyField(SpecOf(st1, b), data[2], data[4]))
      else st1
  }

  /** The records applied in order from the initial state. */
  function ParseRecords(records: seq<string>): RecordState
  {
    if |records| == 0 then InitialState
    else ApplyRecord(ParseRecords(records[..|records| - 1]), records[|records| - 1])
  }

  /** Records with fewer than five parts or an unknown basis change nothing. */
  lemma SkippedRecord(st: RecordState, record: string)
    requires var data := SplitFrom(record, "::", 0);
      |data| < 5 || !(data[0] == "HCURL" || data[0] == "HDIV" || data[0] == "HGRAD")
    ensures ApplyRecord(st, record) == st
  {
  }

  /**
   * A field record changes only its own basis: its block is noted with the
   * basis, the field joins the CG or DG set of that basis, and the orders,
   * the element type and the other two bases stay as they were.
   */
  lemma FieldRecord(st: RecordState, record: string)
    requires var data := SplitFrom(record, "::", 0);
      |data| >= 5 && BasisNamed(data[0]).Some? && data[3] == "field"
    ensures var data := SplitFrom(record, "::", 0);
      var b := BasisNamed(data[0]).value;
      var r := ApplyRecord(st, record);
      && data[1] in r.blocks && b in r.blocks[data[1]]
      && SpecOf(r, b).cgFields == (if data[2] == "CG" then SpecOf(st, b).cgFields + {data[4]} else SpecOf(st, b).cgFields)
      && SpecOf(r, b).dgFields == (if data[2] == "DG" then SpecOf(st, b).dgFields + {data[4]} else SpecOf(st, b).dgFields)
      && SpecOf(r, b).cgOrder == SpecOf(st, b).cgOrder && SpecOf(r, b).dgOrder == SpecOf(st, b).dgOrder
      && SpecOf(r, b).refType == SpecOf(st, b).refType
      && forall b' :: b' != b ==> SpecOf(r, b') == SpecOf(st, b')
  {
  }

  /**
   * A basis record changes only its own basis: its block is noted with the
   * basis, the element named by the third part of the Intrepid2 name becomes
   * the reference type, the fourth part's digit becomes the CG or DG order
   * as the Galerkin type says, and the field sets and the other two bases
   * stay as they were.
   */
  lemma BasisRecord(st: RecordState, record: string)
    requires var data := SplitFrom(record, "::", 0);
      |data| >= 5 && BasisNamed(data[0]).Some? && data[3] == "basis"
    ensures var data := SplitFrom(record, "::", 0);
      var b := BasisNamed(data[0]).value;
      var parts := SplitFrom(data[4], "_", 0);
      var r := ApplyRecord(st, record);
      var ordered := |parts| >= 4 && |parts[3]| > 0;
      && data[1] in r.blocks && b in r.blocks[data[1]]
      && SpecOf(r, b).cgFields == SpecOf(st, b).cgFields && SpecOf(r, b).dgFields == SpecOf(st, b).dgFields
      && SpecOf(r, b).refType == (if |parts| >= 3 && ElementNamed(parts[2]).Some? then ElementNamed(parts[2]) else SpecOf(st, b).refType)
      && SpecOf(r, b).cgOrder == (if ordered && data[2] == "CG" then Some(OrderDigit(parts[3])) else SpecOf(st, b).cgOrder)
      && SpecOf(r, b).dgOrder == (if ordered && data[2] == "DG" then Some(OrderDigit(parts[3])) else SpecOf(st, b).dgOrder)
      && forall b' :: b' != b ==> SpecOf(r, b') == SpecOf(st, b')
  {
  }

  /** The parse loop over the string array of information records. */
  method ParseInfoRecords(records: seq<string>) returns (st: RecordState)
    ensures st == ParseRecords(records)
  {
    st := InitialState;
    var i := 0;
    while i < |records|
      invariant 0 <= i <= |records|
      invariant st == ParseRecords(records[..i])
    {
      assert records[..i + 1][..i] == records[..i];
      st := ApplyRecord(st, records[i]);
      i := i + 1;
    }
    assert records[..i] == records;
  }

  /** Blocks are only ever added to: a block noted once stays noted with the same bases or more. */
  lemma {:induction false} BlocksGrow(records: seq<string>, k: nat)
    requires k <= |records|
    ensures forall name :: name in ParseRecords(records[..k]).blocks ==>
              name in ParseRecords(records).blocks &&
              ParseRecords(records[..k]).blocks[name] <= ParseRecords(records).blocks[name]
    decreases |records| - k
  {
    if k < |records| {
      BlocksGrow(records, k + 1);
      assert records[..k + 1][..k] == records[..k];
    } else {
      assert records[..k] == records;
    }
  }
}
