// Shared vocabulary for the VTK kernels: optional values, sums and exclusive
// prefix sums (the "offsets" that several filters build from per-item counts),
// and the fixed-width integer conversions of C++.
module Common {

  datatype Option<T> = None | Some(value: T)

  /** Sum of a sequence of counts. */
  function Sum(s: seq<int>): int
  {
    if |s| == 0 then 0 else Sum(s[..|s| - 1]) + s[|s| - 1]
  }

  lemma {:induction false} SumAppend(s: seq<int>, x: int)
    ensures Sum(s + [x]) == Sum(s) + x
  {
    assert (s + [x])[..|s|] == s;
  }

  lemma {:induction false} SumConcat(s: seq<int>, t: seq<int>)
    ensures Sum(s + t) == Sum(s) + Sum(t)
    decreases |t|
  {
    if |t| == 0 {
      assert s + t == s;
    } else {
      var t' := t[..|t| - 1];
      assert s + t == (s + t') + [t[|t| - 1]];
      SumAppend(s + t', t[|t| - 1]);
      SumConcat(s, t');
      SumAppend(t', t[|t| - 1]);
      assert t == t' + [t[|t| - 1]];
    }
  }

  lemma {:induction false} SumNonNegative(s: seq<int>)
    requires forall i :: 0 <= i < |s| ==> s[i] >= 0
    ensures Sum(s) >= 0
  {
    if |s| > 0 { SumNonNegative(s[..|s| - 1]); }
  }

  /** Sum of a prefix grows by the next element. */
  lemma SumPrefixStep(s: seq<int>, i: nat)
    requires i < |s|
    ensures Sum(s[..i + 1]) == Sum(s[..i]) + s[i]
  {
    assert s[..i + 1] == s[..i] + [s[i]];
    SumAppend(s[..i], s[i]);
  }

  /**
   * The exclusive scan of counts: entry i is the sum of the counts before i,
   * and one more entry holds the total.  This is the "offsets" layout used by
   * VTK cell arrays and by every Reduce step modelled here.
   */
  function Offsets(counts: seq<int>): (r: seq<int>)
    ensures |r| == |counts| + 1
  {
    if |counts| == 0 then [0] else Offsets(counts[..|counts| - 1]) + [Sum(counts)]
  }

  /** Entry i of the offsets is the sum of the counts before i. */
  lemma {:induction false} OffsetsAt(counts: seq<int>, i: nat)
    requires i <= |counts|
    ensures Offsets(counts)[i] == Sum(counts[..i])
    decreases |counts|
  {
    if i == |counts| {
      assert counts[..i] == counts;
    } else {
      var front := counts[..|counts| - 1];
      assert front[..i] == counts[..i];
      OffsetsAt(front, i);
    }
  }

  lemma OffsetsAppend(counts: seq<int>, x: int)
    ensures Offsets(counts + [x]) == Offsets(counts) + [Sum(counts) + x]
  {
    var c := counts + [x];
    assert c[..|c| - 1] == counts;
    SumAppend(counts, x);
  }

  /** Offsets starts at 0, ends at the total, and each count is a difference. */
  lemma OffsetsRecoverCounts(counts: seq<int>)
    ensures Offsets(counts)[0] == 0
    ensures Offsets(counts)[|counts|] == Sum(counts)
    ensures forall i :: 0 <= i < |counts| ==> Offsets(counts)[i + 1] - Offsets(counts)[i] == counts[i]
  {
    var r := Offsets(counts);
    OffsetsAt(counts, 0);
    OffsetsAt(counts, |counts|);
    assert counts[..|counts|] == counts;
    forall i | 0 <= i < |counts| ensures r[i + 1] - r[i] == counts[i] {
      OffsetsAt(counts, i);
      OffsetsAt(counts, i + 1);
      SumPrefixStep(counts, i);
    }
  }

  /** Offsets of non-negative counts never decrease. */
  lemma OffsetsMonotone(counts: seq<int>, i: nat, j: nat)
    requires forall k :: 0 <= k < |counts| ==> counts[k] >= 0
    requires i <= j <= |counts|
    ensures Offsets(counts)[i] <= Offsets(counts)[j]
  {
    OffsetsAt(counts, i);
    OffsetsAt(counts, j);
    SumPrefixMonotone(counts, i, j);
  }

  lemma SumPrefixMonotone(counts: seq<int>, i: nat, j: nat)
    requires forall k :: 0 <= k < |counts| ==> counts[k] >= 0
    requires i <= j <= |counts|
    ensures Sum(counts[..i]) <= Sum(counts[..j])
  {
    var a, b := counts[..i], counts[i..j];
    assert counts[..j] == a + b;
    SumConcat(a, b);
    assert forall k :: 0 <= k < |b| ==> b[k] == counts[i + k];
    SumNonNegative(b);
  }

  /**
   * The in-place exclusive scan shared by several Reduce steps: the first n
   * entries of a hold counts; afterwards a holds their offsets (the count
   * slot n receives the total), and the total is returned.
   */
  method ExclusiveScan(a: array<int>, n: nat) returns (total: int)
    requires a.Length == n + 1
    modifies a
    ensures a[..] == Offsets(old(a[..n]))
    ensures total == Sum(old(a[..n]))
  {
    ghost var counts := a[..n];
    total := 0;
    var id := 0;
    while id < n
      invariant 0 <= id <= n
      invariant total == Sum(counts[..id])
      invariant forall j :: 0 <= j < id ==> a[j] == Sum(counts[..j])
      invariant forall j :: id <= j < n ==> a[j] == counts[j]
    {
      var count := a[id];
      a[id] := total;
      SumPrefixStep(counts, id);
      total := total + count;
      id := id + 1;
    }
    a[n] := total;
    assert counts[..n] == counts;
    forall j | 0 <= j <= n ensures a[j] == Offsets(counts)[j] {
      OffsetsAt(counts, j);
    }
  }

  // ---- C++ fixed-width integers -------------------------------------------

  const TwoTo32: int := 0x1_0000_0000
  const TwoTo31: int := 0x8000_0000

  /** (unsigned int)x: the value modulo 2^32. */
  function U32(x: int): (r: int)
    ensures 0 <= r < TwoTo32
    ensures (r - x) % TwoTo32 == 0
  {
    x % TwoTo32
  }

  /** (int)x on a two's complement machine: the signed 32-bit value congruent to x. */
  function Int32(x: int): (r: int)
    ensures -TwoTo31 <= r < TwoTo31
    ensures (r - x) % TwoTo32 == 0
    ensures -TwoTo31 <= x < TwoTo31 ==> r == x
  {
    var m := x % TwoTo32;
    if m >= TwoTo31 then m - TwoTo32 else m
  }

  /** C++ integer `%` on int: truncates toward zero, so it takes the sign of a. */
  function CRem(a: int, b: int): (r: int)
    requires b > 0
    ensures a >= 0 ==> 0 <= r < b
    ensures a < 0 ==> -b < r <= 0
  {
    if a >= 0 then a % b else -((-a) % b)
  }

  /** Adding b to a negative C++ remainder gives the Euclidean remainder. */
  lemma CRemAdjusted(a: int, b: int)
    requires b > 0
    ensures (if CRem(a, b) < 0 then CRem(a, b) + b else CRem(a, b)) == a % b
  {
    if a < 0 {
      var q := (-a) % b;
      var k := (-a) / b;
      assert -a == b * k + q;
      if q == 0 {
        assert a == b * (-k) + 0;
        ModUnique(a, b, -k, 0);
      } else {
        assert a == b * (-k - 1) + (b - q);
        ModUnique(a, b, -k - 1, b - q);
      }
    }
  }

  lemma MulAtLeast(b: int, d: int)
    requires b > 0 && d >= 1
    ensures b * d >= b
  {
    var e := d - 1;
    assert b * d == b * e + b;
    assert b * e >= 0;
  }

  /** The Euclidean remainder is the only r in [0, b) with a == b * q + r. */
  lemma ModUnique(a: int, b: int, q: int, r: int)
    requires b > 0 && 0 <= r < b && a == b * q + r
    ensures a % b == r
  {
    var q2, r2 := a / b, a % b;
    assert a == b * q2 + r2;
    var d := q - q2;
    assert b * q - b * q2 == b * d;
    assert b * d == r2 - r;
    if d >= 1 { MulAtLeast(b, d); }
    if d <= -1 { assert b * (-d) == -(b * d); MulAtLeast(b, -d); }
  }

  /** (signed char)x: the signed 8-bit value congruent to x. */
  function Int8(x: int): (r: int)
    ensures -128 <= r < 128
    ensures (r - x) % 256 == 0
    ensures -128 <= x < 128 ==> r == x
  {
    var m := x % 256;
    if m >= 128 then m - 256 else m
  }
}
