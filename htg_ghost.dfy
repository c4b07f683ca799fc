// The hyper tree interface exchanged by vtkHyperTreeGridGhostCellsGenerator:
// a process writes, for each hyper tree on its boundary, the preorder
// sequence of "is parent" bits of the part of the tree facing a neighbour
// (ExtractInterface), and the neighbour rebuilds a ghost tree of the same
// shape from those bits (CreateGhostTree).  Also the number of values a
// cell carries and the ghost-cell flags of the output.
module HtgGhost {
  import opened Common

  /** A node of an input hyper tree with its global index; it is a leaf when it has no children. */
  datatype HTree = HNode(id: nat, children: seq<HTree>)

  /** Every refined node has the grid's number of children. */
  ghost predicate WellFormed(t: HTree, f: nat)
    decreases t
  {
    (|t.children| == 0 || |t.children| == f) &&
    forall i :: 0 <= i < |t.children| ==> WellFormed(t.children[i], f)
  }

  /** The shape of a tree: which nodes are refined. */
  datatype Shape = Leaf | Parent(children: seq<Shape>)

  ghost predicate ShapeWellFormed(s: Shape, f: nat)
    decreases s
  {
    s.Parent? ==> |s.children| == f && forall i :: 0 <= i < |s.children| ==> ShapeWellFormed(s.children[i], f)
  }

  // ---- ExtractInterface ------------------------------------------------------------

  /**
   * What ExtractInterface emits for a node, as (isParent, global index)
   * pairs in preorder: the node itself, then for each child in order either
   * the child's own interface, when the child's mask (the node's mask and
   * the grid's mask for that child) is not zero, or the child alone as a
   * leaf.
   */
  function Emit(t: HTree, mask: bv32, childMask: seq<bv32>): seq<(bool, nat)>
    requires WellFormed(t, |childMask|)
    decreases t, |t.children| + 1
  {
    [(|t.children| > 0, t.id)] + EmitChildren(t, mask, childMask, |t.children|)
  }

  /** The emission of the first k children of t. */
  function EmitChildren(t: HTree, mask: bv32, childMask: seq<bv32>, k: nat): seq<(bool, nat)>
    requires WellFormed(t, |childMask|) && k <= |t.children|
    decreases t, k
  {
    if k == 0 then []
    else
      var child := t.children[k - 1];
      var newMask := mask & childMask[k - 1];
      EmitChildren(t, mask, childMask, k - 1) + (if newMask != 0 then Emit(child, newMask, childMask) else [(false, child.id)])
  }

  /** The part of the tree ExtractInterface describes. */
  function Prune(t: HTree, mask: bv32, childMask: seq<bv32>): Shape
    requires WellFormed(t, |childMask|)
    decreases t, |t.children| + 1
  {
    if |t.children| == 0 then Leaf else Parent(PruneChildren(t, mask, childMask, |t.children|))
  }

  function PruneChildren(t: HTree, mask: bv32, childMask: seq<bv32>, k: nat): (r: seq<Shape>)
    requires WellFormed(t, |childMask|) && k <= |t.children|
    ensures |r| == k
    decreases t, k
  {
    if k == 0 then []
    else
      var newMask := mask & childMask[k - 1];
      PruneChildren(t, mask, childMask, k - 1) + [if newMask != 0 then Prune(t.children[k - 1], newMask, childMask) else Leaf]
  }

  function Bits(e: seq<(bool, nat)>): (r: seq<bool>)
    ensures |r| == |e|
  {
    seq(|e|, i requires 0 <= i < |e| => e[i].0)
  }

  function Ids(e: seq<(bool, nat)>): (r: seq<nat>)
    ensures |r| == |e|
  {
    seq(|e|, i requires 0 <= i < |e| => e[i].1)
  }

  /** The preorder bits of a shape: true for a refined node, followed by its children's bits. */
  function Encode(s: Shape): seq<bool>
    decreases s, if s.Parent? then |s.children| + 1 else 0
  {
    match s
    case Leaf => [false]
    case Parent(cs) => [true] + EncodeChildren(s, |cs|)
  }

  function EncodeChildren(s: Shape, k: nat): seq<bool>
    requires s.Parent? && k <= |s.children|
    decreases s, k
  {
    if k == 0 then [] else EncodeChildren(s, k - 1) + Encode(s.children[k - 1])
  }

  /** The bits ExtractInterface emits are the preorder encoding of the pruned shape. */
  lemma {:induction false} EmitEncodesPrune(t: HTree, mask: bv32, childMask: seq<bv32>)
    requires WellFormed(t, |childMask|)
    ensures Bits(Emit(t, mask, childMask)) == Encode(Prune(t, mask, childMask))
    ensures ShapeWellFormed(Prune(t, mask, childMask), |childMask|)
    decreases t, |t.children| + 1
  {
    if |t.children| > 0 {
      EmitChildrenEncode(t, mask, childMask, |t.children|);
      var s := Prune(t, mask, childMask);
      assert Bits([(true, t.id)] + EmitChildren(t, mask, childMask, |t.children|))
          == [true] + Bits(EmitChildren(t, mask, childMask, |t.children|));
    }
  }

  lemma {:induction false} EmitChildrenEncode(t: HTree, mask: bv32, childMask: seq<bv32>, k: nat)
    requires WellFormed(t, |childMask|) && 0 < |t.children| && k <= |t.children|
    ensures Bits(EmitChildren(t, mask, childMask, k)) ==
            EncodeChildren(Parent(PruneChildren(t, mask, childMask, |t.children|)), k)
    ensures forall i :: 0 <= i < k ==>
              ShapeWellFormed(PruneChildren(t, mask, childMask, |t.children|)[i], |childMask|)
    decreases t, k
  {
    if k > 0 {
      var all := PruneChildren(t, mask, childMask, |t.children|);
      EmitChildrenEncode(t, mask, childMask, k - 1);
      var child := t.children[k - 1];
      var newMask := mask & childMask[k - 1];
      var piece := if newMask != 0 then Emit(child, newMask, childMask) else [(false, child.id)];
      PruneChildrenLast(t, mask, childMask, k);
      assert all[k - 1] == if newMask != 0 then Prune(child, newMask, childMask) else Leaf;
      if newMask != 0 {
        EmitEncodesPrune(child, newMask, childMask);
      }
      assert Bits(piece) == Encode(all[k - 1]);
      var front := EmitChildren(t, mask, childMask, k - 1);
      assert EmitChildren(t, mask, childMask, k) == front + piece;
      assert Bits(front + piece) == Bits(front) + Bits(piece);
      assert EncodeChildren(Parent(all), k) == EncodeChildren(Parent(all), k - 1) + Encode(all[k - 1]);
    }
  }

  /** Child k-1 of the full pruned list is the one the first k children end with. */
  lemma PruneChildrenLast(t: HTree, mask: bv32, childMask: seq<bv32>, k: nat)
    requires WellFormed(t, |childMask|) && 0 < k <= |t.children|
    ensures var newMask := mask & childMask[k - 1];
      PruneChildren(t, mask, childMask, |t.children|)[k - 1] ==
      if newMask != 0 then Prune(t.children[k - 1], newMask, childMask) else Leaf
  {
    PruneChildrenPrefix(t, mask, childMask, k, |t.children|);
    assert PruneChildren(t, mask, childMask, |t.children|)[k - 1] == PruneChildren(t, mask, childMask, |t.children|)[..k][k - 1];
  }

  /** The first k pruned children do not depend on how many are pruned after them. */
  lemma {:induction false} PruneChildrenPrefix(t: HTree, mask: bv32, childMask: seq<bv32>, k: nat, n: nat)
    requires WellFormed(t, |childMask|) && k <= n <= |t.children|
    ensures PruneChildren(t, mask, childMask, n)[..k] == PruneChildren(t, mask, childMask, k)
    decreases n - k
  {
    if k < n {
      PruneChildrenPrefix(t, mask, childMask, k, n - 1);
      assert PruneChildren(t, mask, childMask, n)[..n - 1] == PruneChildren(t, mask, childMask, n - 1);
    } else {
      assert PruneChildren(t, mask, childMask, n)[..k] == PruneChildren(t, mask, childMask, n);
    }
  }

  /** w written over s from position at on. */
  function Overwrite<T>(s: seq<T>, at: nat, w: seq<T>): (r: seq<T>)
    requires at + |w| <= |s|
    ensures |r| == |s|
  {
    s[..at] + w + s[at + |w|..]
  }

  /** Writing w1 and then w2 right after it is writing w1 + w2. */
  lemma OverwriteTwice<T>(s: seq<T>, at: nat, w1: seq<T>, w2: seq<T>)
    requires at + |w1| + |w2| <= |s|
    ensures Overwrite(Overwrite(s, at, w1), at + |w1|, w2) == Overwrite(s, at, w1 + w2)
  {
    var m := Overwrite(s, at, w1);
    assert m[..at + |w1|] == s[..at] + w1;
    assert m[at + |w1| + |w2|..] == s[at + |w1| + |w2|..];
  }

  lemma Associative<T>(a: seq<T>, b: seq<T>, c: seq<T>)
    ensures (a + b) + c == a + (b + c)
  {
  }

  /** Setting one slot is writing a one-element sequence. */
  lemma OverwriteOne<T>(s: seq<T>, at: nat, r: seq<T>, x: T)
    requires at < |s| && r == s[at := x]
    ensures r == Overwrite(s, at, [x])
  {
  }

  /**
   * The state ExtractInterface writes through: the isParent bit array, the
   * pre-sized vector of global indices and the position counter.
   */
  class InterfaceBuffer {
    var isParent: seq<bool>
    var indices: seq<nat>
    var pos: nat

    /** A buffer of size entries, all index slots 0, nothing written yet. */
    constructor(size: nat)
      ensures isParent == [] && indices == seq(size, _ => 0) && pos == 0
    {
      isParent := [];
      indices := seq(size, _ => 0);
      pos := 0;
    }

    /**
     * ExtractInterface: appends the node's emission to the bit array,
     * writes the global indices at the same positions of indices, and
     * advances pos past them.
     */
    method ExtractInterface(t: HTree, childMask: seq<bv32>, mask: bv32)
      requires WellFormed(t, |childMask|) && pos == |isParent|
      requires pos + |Emit(t, mask, childMask)| <= |indices|
      modifies this
      ensures isParent == old(isParent) + Bits(Emit(t, mask, childMask))
      ensures indices == Overwrite(old(indices), old(pos), Ids(Emit(t, mask, childMask)))
      ensures pos == old(pos) + |Emit(t, mask, childMask)|
      decreases t, 1
    {
      ghost var start := pos;
      ghost var emitted := [(|t.children| > 0, t.id)];
      isParent := isParent + [|t.children| > 0];
      indices := indices[pos := t.id];
      pos := pos + 1;
      OverwriteOne(old(indices), start, indices, t.id);
      var ichild := 0;
      EmitRestStep(t, mask, childMask, 0);
      while ichild < |t.children|
        invariant 0 <= ichild <= |t.children| && pos == |isParent|
        invariant emitted == [(|t.children| > 0, t.id)] + EmitChildren(t, mask, childMask, ichild)
        invariant start + |emitted| + |EmitRest(t, mask, childMask, ichild)| <= |old(indices)|
        invariant isParent == old(isParent) + Bits(emitted)
        invariant pos == start + |emitted|
        invariant indices == Overwrite(old(indices), start, Ids(emitted))
      {
        ghost var piece := Piece(t, mask, childMask, ichild);
        EmitNext(t, mask, childMask, ichild);
        ExtractChild(t, ichild, childMask, mask);
        ConcatPieces(emitted, piece);
        Associative(old(isParent), Bits(emitted), Bits(piece));
        OverwriteTwice(old(indices), start, Ids(emitted), Ids(piece));
        Associative([(|t.children| > 0, t.id)], EmitChildren(t, mask, childMask, ichild), piece);
        emitted := emitted + piece;
        ichild := ichild + 1;
      }
      EmitRestStep(t, mask, childMask, |t.children|);
    }

    /**
     * One turn of ExtractInterface's loop: child k's own interface when its
     * mask is not zero, otherwise the child alone as a leaf.
     */
    method ExtractChild(t: HTree, k: nat, childMask: seq<bv32>, mask: bv32)
      requires WellFormed(t, |childMask|) && k < |t.children| && pos == |isParent|
      requires pos + |Piece(t, mask, childMask, k)| <= |indices|
      modifies this
      ensures isParent == old(isParent) + Bits(Piece(t, mask, childMask, k))
      ensures indices == Overwrite(old(indices), old(pos), Ids(Piece(t, mask, childMask, k)))
      ensures pos == old(pos) + |Piece(t, mask, childMask, k)|
      decreases t, 0
    {
      var child := t.children[k];
      var newMask := mask & childMask[k];
      if newMask != 0 {
        ExtractInterface(child, childMask, newMask);
      } else {
        isParent := isParent + [false];
        indices := indices[pos := child.id];
        pos := pos + 1;
        OverwriteOne(old(indices), old(pos), indices, child.id);
        assert Ids([(false, child.id)]) == [child.id] && Bits([(false, child.id)]) == [false];
      }
    }
  }

  /** What child k of t contributes to the emission. */
  function Piece(t: HTree, mask: bv32, childMask: seq<bv32>, k: nat): seq<(bool, nat)>
    requires WellFormed(t, |childMask|) && k < |t.children|
    decreases t, 0
  {
    var child := t.children[k];
    var newMask := mask & childMask[k];
    if newMask != 0 then Emit(child, newMask, childMask) else [(false, child.id)]
  }

  lemma EmitNext(t: HTree, mask: bv32, childMask: seq<bv32>, k: nat)
    requires WellFormed(t, |childMask|) && k < |t.children|
    ensures EmitChildren(t, mask, childMask, k + 1) == EmitChildren(t, mask, childMask, k) + Piece(t, mask, childMask, k)
    ensures EmitRest(t, mask, childMask, k) == Piece(t, mask, childMask, k) + EmitRest(t, mask, childMask, k + 1)
  {
  }

  /** Bits and Ids distribute over concatenation. */
  lemma ConcatPieces(a: seq<(bool, nat)>, b: seq<(bool, nat)>)
    ensures Bits(a + b) == Bits(a) + Bits(b) && Ids(a + b) == Ids(a) + Ids(b)
  {
  }

  /** The emission of the children from k on. */
  function EmitRest(t: HTree, mask: bv32, childMask: seq<bv32>, k: nat): seq<(bool, nat)>
    requires WellFormed(t, |childMask|) && k <= |t.children|
    decreases |t.children| - k
  {
    if k == |t.children| then []
    else
      var child := t.children[k];
      var newMask := mask & childMask[k];
      (if newMask != 0 then Emit(child, newMask, childMask) else [(false, child.id)]) + EmitRest(t, mask, childMask, k + 1)
  }

  lemma {:induction false} EmitRestStep(t: HTree, mask: bv32, childMask: seq<bv32>, k: nat)
    requires WellFormed(t, |childMask|) && k <= |t.children|
    ensures EmitChildren(t, mask, childMask, |t.children|) == EmitChildren(t, mask, childMask, k) + EmitRest(t, mask, childMask, k)
    decreases |t.children| - k
  {
    if k < |t.children| {
      EmitRestStep(t, mask, childMask, k + 1);
      EmitNext(t, mask, childMask, k);
      Associative(EmitChildren(t, mask, childMask, k), Piece(t, mask, childMask, k), EmitRest(t, mask, childMask, k + 1));
    } else {
      assert EmitRest(t, mask, childMask, k) == [];
    }
  }

  // ---- CreateGhostTree -------------------------------------------------------------

  /**
   * What CreateGhostTree builds from the bits from pos on, for a grid whose
   * nodes have f children: a set bit on an unmasked output node refines it
   * and its f children follow; otherwise the node stays a leaf.  masked
   * holds the bit positions whose output node is masked.  The new position
   * comes with the shape; None when the bits run out.
   */
  function Decode(bits: seq<bool>, pos: nat, f: nat, masked: set<nat>): (r: Option<(Shape, nat)>)
    requires pos <= |bits|
    ensures r.Some? ==> pos < r.value.1 <= |bits|
    ensures r.Some? && (!bits[pos] || pos in masked) ==> r.value == (Leaf, pos + 1)
    decreases |bits| - pos, 0
  {
    if pos == |bits| then None
    else if bits[pos] && pos !in masked then
      match DecodeChildren(bits, pos + 1, f, masked, f)
      case None => None
      case Some((cs, p)) => Some((Parent(cs), p))
    else Some((Leaf, pos + 1))
  }

  /** The first k children, decoded one after the other. */
  function DecodeChildren(bits: seq<bool>, pos: nat, f: nat, masked: set<nat>, k: nat): (r: Option<(seq<Shape>, nat)>)
    requires pos <= |bits|
    ensures r.Some? ==> pos <= r.value.1 <= |bits| && |r.value.0| == k
    decreases |bits| - pos, k
  {
    if k == 0 then Some(([], pos))
    else
      match DecodeChildren(bits, pos, f, masked, k - 1)
      case None => None
      case Some((cs, p)) =>
        match Decode(bits, p, f, masked)
        case None => None
        case Some((c, q)) => Some((cs + [c], q))
  }

  /** Decoding an encoded well-formed shape, with nothing masked, gives it back and stops right after it. */
  lemma {:induction false} DecodeEncode(bits: seq<bool>, p: nat, s: Shape, f: nat)
    requires ShapeWellFormed(s, f)
    requires p + |Encode(s)| <= |bits| && bits[p..p + |Encode(s)|] == Encode(s)
    ensures Decode(bits, p, f, {}) == Some((s, p + |Encode(s)|))
    decreases s, if s.Parent? then |s.children| + 1 else 0
  {
    assert bits[p] == bits[p..p + |Encode(s)|][0] == Encode(s)[0];
    if s.Parent? {
      var e := EncodeChildren(s, f);
      assert Encode(s) == [true] + e;
      assert bits[p + 1..p + 1 + |e|] == bits[p..p + |Encode(s)|][1..] == e;
      DecodeEncodeChildren(bits, p + 1, s, f, f);
      assert s.children[..f] == s.children;
    }
  }

  lemma {:induction false} DecodeEncodeChildren(bits: seq<bool>, p: nat, s: Shape, f: nat, k: nat)
    requires ShapeWellFormed(s, f) && s.Parent? && k <= f
    requires p + |EncodeChildren(s, k)| <= |bits| && bits[p..p + |EncodeChildren(s, k)|] == EncodeChildren(s, k)
    ensures DecodeChildren(bits, p, f, {}, k) == Some((s.children[..k], p + |EncodeChildren(s, k)|))
    decreases s, k, 1
  {
    if k > 0 {
      var child := s.children[k - 1];
      var q := p + |EncodeChildren(s, k - 1)|;
      DecodeChild(bits, p, s, f, k);
      DecodeEncodeChildren(bits, p, s, f, k - 1);
      DecodeChildrenNext(bits, p, f, {}, k, s.children[..k - 1], q, child, p + |EncodeChildren(s, k)|);
      assert s.children[..k - 1] + [child] == s.children[..k];
    }
  }

  /** The k-th child decodes from where the first k - 1 end to where the first k end. */
  lemma {:induction false} DecodeChild(bits: seq<bool>, p: nat, s: Shape, f: nat, k: nat)
    requires ShapeWellFormed(s, f) && s.Parent? && 0 < k <= f
    requires p + |EncodeChildren(s, k)| <= |bits| && bits[p..p + |EncodeChildren(s, k)|] == EncodeChildren(s, k)
    ensures p + |EncodeChildren(s, k - 1)| <= |bits|
    ensures bits[p..p + |EncodeChildren(s, k - 1)|] == EncodeChildren(s, k - 1)
    ensures Decode(bits, p + |EncodeChildren(s, k - 1)|, f, {}) == Some((s.children[k - 1], (p + |EncodeChildren(s, k)|) as nat))
    decreases s, k, 0
  {
    var child := s.children[k - 1];
    ChildBits(bits, p, s, k);
    assert ShapeWellFormed(child, f);
    DecodeEncode(bits, p + |EncodeChildren(s, k - 1)|, child, f);
  }

  /** The bits of k children split into those of the first k - 1 and those of the last. */
  lemma ChildBits(bits: seq<bool>, p: nat, s: Shape, k: nat)
    requires s.Parent? && 0 < k <= |s.children|
    requires p + |EncodeChildren(s, k)| <= |bits| && bits[p..p + |EncodeChildren(s, k)|] == EncodeChildren(s, k)
    ensures var q := p + |EncodeChildren(s, k - 1)|;
      var last := Encode(s.children[k - 1]);
      q + |last| == p + |EncodeChildren(s, k)|
      && bits[p..q] == EncodeChildren(s, k - 1) && bits[q..q + |last|] == last
  {
    var front := EncodeChildren(s, k - 1);
    var last := Encode(s.children[k - 1]);
    var whole := EncodeChildren(s, k);
    assert whole == front + last;
    var q := p + |front|;
    assert bits[p..q] == bits[p..p + |whole|][..|front|];
    assert bits[q..q + |last|] == bits[p..p + |whole|][|front|..];
  }

  /** DecodeChildren for k children: the first k - 1, then one more shape where they stop. */
  lemma DecodeChildrenNext(bits: seq<bool>, pos: nat, f: nat, masked: set<nat>, k: nat,
                           cs: seq<Shape>, p: nat, c: Shape, q: nat)
    requires pos <= |bits| && k > 0
    requires DecodeChildren(bits, pos, f, masked, k - 1) == Some((cs, p))
    requires p <= |bits| && Decode(bits, p, f, masked) == Some((c, q))
    ensures DecodeChildren(bits, pos, f, masked, k) == Some((cs + [c], q))
  {
  }

  /**
   * The round trip of the exchange: CreateGhostTree on the bits
   * ExtractInterface wrote rebuilds the pruned shape and returns the number
   * of nodes ExtractInterface emitted.
   */
  lemma InterfaceRoundTrip(t: HTree, mask: bv32, childMask: seq<bv32>)
    requires WellFormed(t, |childMask|)
    ensures var bits := Bits(Emit(t, mask, childMask));
      Decode(bits, 0, |childMask|, {}) == Some((Prune(t, mask, childMask), |bits|))
  {
    var bits := Bits(Emit(t, mask, childMask));
    EmitEncodesPrune(t, mask, childMask);
    assert bits[0..|bits|] == bits;
    DecodeEncode(bits, 0, Prune(t, mask, childMask), |childMask|);
  }

  /** Decoding k children succeeds only if decoding fewer does. */
  lemma {:induction false} DecodeChildrenPrefix(bits: seq<bool>, pos: nat, f: nat, masked: set<nat>, j: nat, k: nat)
    requires pos <= |bits| && j <= k && DecodeChildren(bits, pos, f, masked, k).Some?
    ensures DecodeChildren(bits, pos, f, masked, j).Some?
    decreases k - j
  {
    if j < k {
      DecodeChildrenPrefix(bits, pos, f, masked, j, k - 1);
    }
  }

  /**
   * CreateGhostTree: reads the bit at pos and, on a set bit of an unmasked
   * node, subdivides it and builds its f children from the following bits;
   * returns the shape built and the position after it.  The bits must hold a
   * whole tree (the source reads past the end otherwise).
   */
  method CreateGhostTree(isParent: seq<bool>, f: nat, masked: set<nat>, pos: nat) returns (shape: Shape, next: nat)
    requires pos <= |isParent| && Decode(isParent, pos, f, masked).Some?
    ensures Decode(isParent, pos, f, masked) == Some((shape, next))
    decreases |isParent| - pos
  {
    next := pos + 1;
    if isParent[pos] && pos !in masked {
      var children: seq<Shape> := [];
      var ichild := 0;
      while ichild < f
        invariant 0 <= ichild <= f
        invariant DecodeChildren(isParent, pos + 1, f, masked, ichild) == Some((children, next))
      {
        DecodeChildrenPrefix(isParent, pos + 1, f, masked, ichild + 1, f);
        var child, q := CreateGhostTree(isParent, f, masked, next);
        children := children + [child];
        next := q;
        ichild := ichild + 1;
      }
      shape := Parent(children);
    } else {
      shape := Leaf;
    }
  }

  // ---- Cell values and ghost flags ---------------------------------------------------

  /** GetNumberOfCellValues: the component counts of the cell arrays added up. */
  method NumberOfCellValues(components: seq<int>) returns (totalCellSize: int)
    ensures totalCellSize == Sum(components)
  {
    totalCellSize := 0;
    var arrayId := 0;
    while arrayId < |components|
      invariant 0 <= arrayId <= |components|
      invariant totalCellSize == Sum(components[..arrayId])
    {
      SumPrefixStep(components, arrayId);
      totalCellSize := totalCellSize + components[arrayId];
      arrayId := arrayId + 1;
    }
    assert components[..arrayId] == components;
  }

  /** InsertValue: overwrite inside the array, append at its end. */
  function InsertValue(s: seq<int>, i: nat, v: int): (r: seq<int>)
    requires i <= |s|
    ensures |r| == if i < |s| then |s| else |s| + 1
    ensures r[i] == v && forall j :: 0 <= j < |s| && j != i ==> r[j] == s[j]
  {
    if i < |s| then s[i := v] else s + [v]
  }

  /**
   * AppendGhostArray: an array of NumberOfVertices flags, 0 for the cells of
   * the input and 1 for the ghost cells after them; the first loop extends
   * the array if there are more input cells than vertices.
   */
  method AppendGhostArray(numberOfCells: nat, numberOfVertices: nat) returns (scalars: seq<int>)
    ensures |scalars| == if numberOfCells < numberOfVertices then numberOfVertices else numberOfCells
    ensures forall i :: 0 <= i < |scalars| ==> scalars[i] == if i < numberOfCells then 0 else 1
  {
    scalars := seq(numberOfVertices, _ => 0);
    var ii := 0;
    while ii < numberOfCells
      invariant 0 <= ii <= numberOfCells
      invariant |scalars| == if ii < numberOfVertices then numberOfVertices else ii
      invariant forall j :: 0 <= j < ii ==> scalars[j] == 0
    {
      scalars := InsertValue(scalars, ii, 0);
      ii := ii + 1;
    }
    ii := numberOfCells;
    while ii < numberOfVertices
      invariant numberOfCells <= ii <= numberOfVertices || (ii == numberOfCells && numberOfVertices <= numberOfCells)
      invariant |scalars| == if numberOfCells < numberOfVertices then numberOfVertices else numberOfCells
      invariant forall j :: 0 <= j < numberOfCells ==> scalars[j] == 0
      invariant forall j :: numberOfCells <= j < ii ==> scalars[j] == 1
    {
      scalars := InsertValue(scalars, ii, 1);
      ii := ii + 1;
    }
  }

  /** How many entries are ghost flags. */
  function CountGhosts(s: seq<int>): nat
  {
    if |s| == 0 then 0 else CountGhosts(s[..|s| - 1]) + (if s[|s| - 1] == 1 then 1 else 0)
  }

  /** The ghost array flags exactly the cells beyond the input's. */
  lemma {:induction false} GhostFlagCount(s: seq<int>, numberOfCells: nat)
    requires numberOfCells <= |s|
    requires forall i :: 0 <= i < |s| ==> s[i] == if i < numberOfCells then 0 else 1
    ensures CountGhosts(s) == |s| - numberOfCells
  {
    if |s| > 0 {
      if |s| - 1 >= numberOfCells {
        GhostFlagCount(s[..|s| - 1], numberOfCells);
      } else {
        NoGhosts(s);
      }
    }
  }

  lemma {:induction false} NoGhosts(s: seq<int>)
    requires forall i :: 0 <= i < |s| ==> s[i] == 0
    ensures CountGhosts(s) == 0
  {
    if |s| > 0 {
      NoGhosts(s[..|s| - 1]);
    }
  }
}
