// The selection bookkeeping of vtkExtractSelection: which selection nodes a
// process keeps, whether the nodes agree on the kind of element they select,
// the inversion of an insidedness array (a signed char per element, 1 inside
// and 0 outside), the classification of an evaluated selection, the ghost
// array that hides unselected elements, and the list of inside cell ids
// handed to the cell extractor.
module ExtractSelection {
  import opened Common

  // ---- Selection nodes -----------------------------------------------------

  /** vtkSelectionNode::SelectionField. */
  datatype Field = CellField | PointField | FieldField | VertexField | EdgeField | RowField

  /** vtkDataObject::AttributeTypes as GetAttributeTypeOfSelection returns them. */
  datatype AttributeType = Attribute(field: Field) | NumberOfAttributeTypes

  /**
   * The properties of a selection node that this part of the filter reads:
   * its field type, whether CONTAINING_CELLS is set to a non-zero value, and
   * its PROCESS_ID property when it has one.
   */
  datatype Node = Node(fieldType: Field, containingCells: bool, processId: Option<int>)

  /** A point selection with CONTAINING_CELLS really selects cells. */
  function EffectiveField(n: Node): (f: Field)
    ensures n.fieldType != PointField ==> f == n.fieldType
    ensures n.fieldType == PointField ==> (f == CellField <==> n.containingCells)
    ensures f == PointField || f == n.fieldType || f == CellField
  {
    if n.fieldType == PointField && n.containingCells then CellField else n.fieldType
  }

  /** All nodes select the same kind of element. */
  ghost predicate Consistent(nodes: seq<Node>)
  {
    forall i :: 0 <= i < |nodes| ==> EffectiveField(nodes[i]) == EffectiveField(nodes[0])
  }

  /**
   * GetAttributeTypeOfSelection: the node loop stops at the first node whose
   * field type differs from the previous one (sane = false); otherwise the
   * common field type is returned, and NUMBER_OF_ATTRIBUTE_TYPES for a
   * selection without nodes.
   */
  method AttributeTypeOfSelection(nodes: seq<Node>) returns (attr: AttributeType, sane: bool)
    ensures sane <==> Consistent(nodes)
    ensures !sane || |nodes| == 0 ==> attr == NumberOfAttributeTypes
    ensures sane && |nodes| > 0 ==> attr == Attribute(EffectiveField(nodes[0]))
  {
    sane := true;
    var fieldType: Option<Field> := None;
    var n := 0;
    while n < |nodes|
      invariant 0 <= n <= |nodes|
      invariant forall i :: 0 <= i < n ==> EffectiveField(nodes[i]) == EffectiveField(nodes[0])
      invariant n == 0 <==> fieldType.None?
      invariant n > 0 ==> fieldType == Some(EffectiveField(nodes[0]))
    {
      var nodeFieldType := nodes[n].fieldType;
      if nodeFieldType == PointField && nodes[n].containingCells {
        nodeFieldType := CellField;
      }
      if n != 0 && fieldType != Some(nodeFieldType) {
        sane := false;
        return NumberOfAttributeTypes, false;
      }
      fieldType := Some(nodeFieldType);
      n := n + 1;
    }
    attr := if fieldType.None? then NumberOfAttributeTypes else Attribute(fieldType.value);
  }

  /** The node's PROCESS_ID property, -1 when it has none. */
  function PropId(n: Node): int
  {
    if n.processId.Some? then n.processId.value else -1
  }

  /** Whether vtkTrimSelection removes a node: both ids are set and they differ. */
  predicate Foreign(n: Node, processId: int)
  {
    PropId(n) != -1 && processId != -1 && PropId(n) != processId
  }

  /** The evidently intended result of vtkTrimSelection: the nodes that are not foreign, in order. */
  function Trimmed(nodes: seq<Node>, processId: int): (r: seq<Node>)
    ensures |r| <= |nodes|
  {
    if |nodes| == 0 then []
    else
      var front := nodes[..|nodes| - 1];
      var x := nodes[|nodes| - 1];
      if Foreign(x, processId) then Trimmed(front, processId) else Trimmed(front, processId) + [x]
  }

  /** The trimmed selection keeps exactly the nodes that are not foreign. */
  lemma {:induction false} TrimmedMembers(nodes: seq<Node>, processId: int)
    ensures forall x :: x in Trimmed(nodes, processId) <==> x in nodes && !Foreign(x, processId)
  {
    if |nodes| > 0 {
      var front := nodes[..|nodes| - 1];
      var x := nodes[|nodes| - 1];
      assert nodes == front + [x];
      assert forall y :: y in nodes <==> y in front || y == x;
      TrimmedMembers(front, processId);
    }
  }

  /** With no piece number set (-1) or only local nodes, trimming keeps everything. */
  lemma {:induction false} TrimmedKeepsLocal(nodes: seq<Node>, processId: int)
    requires processId == -1 || forall i :: 0 <= i < |nodes| ==> PropId(nodes[i]) == -1 || PropId(nodes[i]) == processId
    ensures Trimmed(nodes, processId) == nodes
  {
    if |nodes| > 0 {
      TrimmedKeepsLocal(nodes[..|nodes| - 1], processId);
    }
  }

  /**
   * vtkTrimSelection as written: the loop runs over the node count taken
   * before any removal, and keeps advancing the index after removing the
   * node at that index.  The node that slides into the freed position is
   * never examined, and once a node was removed the last iterations ask for
   * a node past the end, which GetNode answers with no node; the loop then
   * dereferences it.  None stands for that dereference.
   */
  function TrimAsWritten(nodes: seq<Node>, processId: int, cc: nat, numNodes: nat): (r: Option<seq<Node>>)
    decreases numNodes - cc
  {
    if cc >= numNodes then Some(nodes)
    else if cc >= |nodes| then None
    else if Foreign(nodes[cc], processId) then TrimAsWritten(nodes[..cc] + nodes[cc + 1..], processId, cc + 1, numNodes)
    else TrimAsWritten(nodes, processId, cc + 1, numNodes)
  }

  /** Two foreign nodes: the second slides into slot 0 after the first is removed, and slot 1 is then past the end. */
  lemma TrimAsWrittenFails()
    ensures var n := Node(CellField, false, Some(1));
      TrimAsWritten([n, n], 0, 0, 2) == None && Trimmed([n, n], 0) == []
  {
    var n := Node(CellField, false, Some(1));
    assert [n, n][..0] + [n, n][1..] == [n];
    assert Trimmed([n, n][..1], 0) == [];
  }

  /** Trimming one more node of a prefix either drops it or appends it. */
  lemma TrimmedStep(nodes: seq<Node>, done: nat, processId: int)
    requires done < |nodes|
    ensures Trimmed(nodes[..done + 1], processId)
      == if Foreign(nodes[done], processId) then Trimmed(nodes[..done], processId)
         else Trimmed(nodes[..done], processId) + [nodes[done]]
  {
    assert nodes[..done + 1][..done] == nodes[..done];
  }

  /**
   * vtkTrimSelection corrected: the index advances only past kept nodes, so
   * every node is examined once and exactly the foreign ones are removed.
   */
  method TrimSelection(nodes: seq<Node>, processId: int) returns (r: seq<Node>)
    ensures r == Trimmed(nodes, processId)
  {
    r := nodes;
    var cc := 0;
    ghost var done := 0;
    assert nodes[..0] == [];
    while cc < |r|
      invariant 0 <= done <= |nodes|
      invariant cc == |Trimmed(nodes[..done], processId)|
      invariant r == Trimmed(nodes[..done], processId) + nodes[done..]
      decreases |r| - cc
    {
      ghost var kept := Trimmed(nodes[..done], processId);
      TrimmedStep(nodes, done, processId);
      CutAfter(kept, nodes, done);
      if Foreign(r[cc], processId) {
        r := r[..cc] + r[cc + 1..];
      } else {
        cc := cc + 1;
      }
      done := done + 1;
    }
    assert nodes[..done] == nodes;
  }

  /** Around the node at done, the partial result falls apart into its kept part, that node and the rest. */
  lemma CutAfter(kept: seq<Node>, nodes: seq<Node>, done: nat)
    requires done < |nodes|
    ensures var r := kept + nodes[done..];
      r[..|kept|] == kept && r[|kept|] == nodes[done] && r[|kept| + 1..] == nodes[done + 1..]
      && r == (kept + [nodes[done]]) + nodes[done + 1..]
  {
  }

  // ---- Insidedness arrays ----------------------------------------------------

  /** InvertSelection on one value: v * -1 + 1 stored back into a signed char. */
  function Invert(v: int): (r: int)
    ensures -128 <= r < 128
    ensures v == 0 ==> r == 1
    ensures v == 1 ==> r == 0
  {
    Int8(v * -1 + 1)
  }

  /** A value congruent to a signed char modulo 256 casts back to it. */
  lemma Int8Congruent(x: int, v: int)
    requires -128 <= v < 128 && (x - v) % 256 == 0
    ensures Int8(x) == v
  {
    var r := Int8(x);
    var k1, k2 := (r - x) / 256, (x - v) / 256;
    assert r - x == 256 * k1;
    assert x - v == 256 * k2;
    assert r - v == 256 * (k1 + k2);
  }

  /** Inverting twice gives back every signed char value. */
  lemma InvertTwice(v: int)
    requires -128 <= v < 128
    ensures Invert(Invert(v)) == v
  {
    var r := Invert(v);
    var k := (r - (1 - v)) / 256;
    assert r - (1 - v) == 256 * k;
    assert (1 - r) - v == 256 * (-k);
    Int8Congruent(1 - r, v);
  }

  /** InvertSelection: every value of the array is inverted in place. */
  method InvertSelection(a: array<int>)
    modifies a
    ensures forall i :: 0 <= i < a.Length ==> a[i] == Invert(old(a[i]))
  {
    var i := 0;
    while i < a.Length
      invariant 0 <= i <= a.Length
      invariant forall k :: 0 <= k < i ==> a[k] == Invert(old(a[k]))
      invariant forall k :: i <= k < a.Length ==> a[k] == old(a[k])
    {
      a[i] := Int8(a[i] * -1 + 1);
      i := i + 1;
    }
  }

  // ---- Evaluation result -----------------------------------------------------

  datatype EvaluationResult = InvalidResult | NoneInside | AllInside | MixedInside

  /**
   * The classification at the end of EvaluateSelection, from the range of
   * the evaluated insidedness array (no array: INVALID).
   */
  function Classify(range: Option<(int, int)>): (r: EvaluationResult)
    ensures r == InvalidResult <==> range.None?
    ensures range.Some? ==> (r == NoneInside <==> range.value == (0, 0))
    ensures range.Some? ==> (r == AllInside <==> range.value == (1, 1))
  {
    match range
    case None => InvalidResult
    case Some(rg) =>
      if rg.0 == 0 && rg.1 == 0 then NoneInside
      else if rg.0 == 1 && rg.1 == 1 then AllInside
      else MixedInside
  }

  /** The smallest and largest entries of a non-empty array. */
  function MinMax(s: seq<int>): (r: (int, int))
    requires |s| > 0
    ensures forall i :: 0 <= i < |s| ==> r.0 <= s[i] <= r.1
    ensures r.0 in s && r.1 in s
  {
    if |s| == 1 then (s[0], s[0])
    else
      var p := MinMax(s[..|s| - 1]);
      var x := s[|s| - 1];
      assert forall i :: 0 <= i < |s| - 1 ==> s[..|s| - 1][i] == s[i];
      assert p.0 in s && p.1 in s by {
        assert forall y :: y in s[..|s| - 1] ==> y in s;
      }
      (if x < p.0 then x else p.0, if x > p.1 then x else p.1)
  }

  /**
   * For a 0/1 insidedness array the classification means what it says:
   * NONE iff nothing is inside, ALL iff everything is, MIXED otherwise.
   */
  lemma ClassifyMeaning(s: seq<int>)
    requires |s| > 0 && forall i :: 0 <= i < |s| ==> s[i] == 0 || s[i] == 1
    ensures Classify(Some(MinMax(s))) == NoneInside <==> forall i :: 0 <= i < |s| ==> s[i] == 0
    ensures Classify(Some(MinMax(s))) == AllInside <==> forall i :: 0 <= i < |s| ==> s[i] == 1
    ensures Classify(Some(MinMax(s))) == MixedInside <==> 0 in s && 1 in s
  {
    var r := MinMax(s);
    assert s[0] in s;
  }

  // ---- Ghost arrays ------------------------------------------------------------

  /** Whether entry i is hidden by ExtractElementGhosts. */
  predicate HiddenAt(ghosts: Option<seq<bv8>>, inside: Option<seq<int>>, hiddenMask: bv8, size: nat, i: nat)
    requires inside.Some? ==> |inside.value| == size
    requires i < size
  {
    (ghosts.Some? && |ghosts.value| == size && ghosts.value[i] & hiddenMask != 0)
    || (inside.Some? && inside.value[i] == 0)
  }

  /** The size ExtractElementGhosts uses: the longer of the two arrays, 0 without either. */
  function GhostSize(ghosts: Option<seq<bv8>>, inside: Option<seq<int>>): (size: nat)
    ensures ghosts.Some? ==> |ghosts.value| <= size
    ensures inside.Some? ==> |inside.value| <= size
    ensures size == 0 || (ghosts.Some? && size == |ghosts.value|) || (inside.Some? && size == |inside.value|)
  {
    var g := if ghosts.Some? then |ghosts.value| else 0;
    var s := if inside.Some? then |inside.value| else 0;
    if g < s then s else g
  }

  /**
   * ExtractElementGhosts: an output ghost array as long as the longer input,
   * with hiddenValue exactly where the input ghost flags match the mask (when
   * the input ghost array has that size) or the element is not inside, and 0
   * elsewhere; nothing when both inputs are missing or empty.  The loops read
   * the insidedness array at every index up to that size, so the source
   * relies on it being at least as long as the ghost array.
   */
  method ExtractElementGhosts(hiddenMask: bv8, hiddenValue: bv8, ghosts: Option<seq<bv8>>, inside: Option<seq<int>>)
    returns (out: Option<seq<bv8>>)
    requires ghosts.Some? && inside.Some? ==> |ghosts.value| <= |inside.value|
    ensures out.None? <==> GhostSize(ghosts, inside) == 0
    ensures out.Some? ==> |out.value| == GhostSize(ghosts, inside)
    ensures out.Some? ==> forall i :: 0 <= i < |out.value| ==>
              out.value[i] == if HiddenAt(ghosts, inside, hiddenMask, GhostSize(ghosts, inside), i) then hiddenValue else 0
  {
    var size := GhostSize(ghosts, inside);
    if size <= 0 {
      return None;
    }
    var a := new bv8[size](_ => 0);
    if ghosts.Some? && |ghosts.value| == size {
      var i := 0;
      while i < size
        invariant 0 <= i <= size
        invariant forall k :: 0 <= k < i ==> a[k] == if HiddenAt(ghosts, inside, hiddenMask, size, k) then hiddenValue else 0
        invariant forall k :: i <= k < size ==> a[k] == 0
      {
        if ghosts.value[i] & hiddenMask != 0 || (inside.Some? && inside.value[i] == 0) {
          a[i] := hiddenValue;
        }
        i := i + 1;
      }
    } else if inside.Some? {
      var i := 0;
      while i < size
        invariant 0 <= i <= size
        invariant forall k :: 0 <= k < i ==> a[k] == if HiddenAt(ghosts, inside, hiddenMask, size, k) then hiddenValue else 0
        invariant forall k :: i <= k < size ==> a[k] == 0
      {
        if inside.value[i] == 0 {
          a[i] := hiddenValue;
        }
        i := i + 1;
      }
    }
    out := Some(a[..]);
  }

  /** ExtractElementHideGhostsInInsidedness on values: masked entries within both arrays become 0. */
  function HideGhosts(ghosts: seq<bv8>, inside: seq<int>, hiddenMask: bv8): (r: seq<int>)
    ensures |r| == |inside|
    ensures forall i :: 0 <= i < |inside| ==>
              r[i] == if i < |ghosts| && ghosts[i] & hiddenMask != 0 then 0 else inside[i]
  {
    seq(|inside|, i requires 0 <= i < |inside| => if i < |ghosts| && ghosts[i] & hiddenMask != 0 then 0 else inside[i])
  }

  /** ExtractElementHideGhostsInInsidedness: the loop over the shorter length. */
  method HideGhostsInInsidedness(hiddenMask: bv8, ghosts: seq<bv8>, inside: array<int>)
    modifies inside
    ensures inside[..] == HideGhosts(ghosts, old(inside[..]), hiddenMask)
  {
    var numValues := if |ghosts| < inside.Length then |ghosts| else inside.Length;
    var i := 0;
    while i < numValues
      invariant 0 <= i <= numValues
      invariant forall k :: 0 <= k < i ==> inside[k] == if ghosts[k] & hiddenMask != 0 then 0 else old(inside[k])
      invariant forall k :: i <= k < inside.Length ==> inside[k] == old(inside[k])
    {
      if ghosts[i] & hiddenMask != 0 {
        inside[i] := 0;
      }
      i := i + 1;
    }
    ghost var want := HideGhosts(ghosts, old(inside[..]), hiddenMask);
    assert forall k :: 0 <= k < inside.Length ==> inside[k] == want[k];
  }

  /** Hiding twice hides nothing more. */
  lemma HideGhostsIdempotent(ghosts: seq<bv8>, inside: seq<int>, hiddenMask: bv8)
    ensures HideGhosts(ghosts, HideGhosts(ghosts, inside, hiddenMask), hiddenMask) == HideGhosts(ghosts, inside, hiddenMask)
  {
  }

  /**
   * Hiding masked ghosts in the insidedness array first does not change the
   * output ghost array: those entries were hidden by the mask already.
   */
  lemma HideThenGhosts(hiddenMask: bv8, ghosts: seq<bv8>, inside: seq<int>, i: nat)
    requires |ghosts| == |inside| && i < |inside|
    ensures HiddenAt(Some(ghosts), Some(HideGhosts(ghosts, inside, hiddenMask)), hiddenMask, |inside|, i)
        <==> HiddenAt(Some(ghosts), Some(inside), hiddenMask, |inside|, i)
  {
  }

  // ---- Inside cell ids ---------------------------------------------------------

  /** The cell ids handed to vtkExtractCells: those with non-zero insidedness, ascending. */
  method InsideCellIds(cellInside: seq<int>) returns (ids: seq<nat>)
    ensures forall i, j :: 0 <= i < j < |ids| ==> ids[i] < ids[j]
    ensures forall c: nat :: c in ids <==> c < |cellInside| && cellInside[c] != 0
  {
    ids := [];
    var cc := 0;
    while cc < |cellInside|
      invariant 0 <= cc <= |cellInside|
      invariant forall i, j :: 0 <= i < j < |ids| ==> ids[i] < ids[j]
      invariant forall i :: 0 <= i < |ids| ==> ids[i] < cc
      invariant forall c: nat :: c in ids <==> c < cc && cellInside[c] != 0
    {
      if cellInside[cc] != 0 {
        ids := ids + [cc];
      }
      cc := cc + 1;
    }
  }
}
