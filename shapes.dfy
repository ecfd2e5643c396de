/** Shape algebra of the tensor library: element counts, the two count loops the
    source writes out, and right-aligned (NumPy-style) broadcasting of two shapes. */
module Shapes {
  import opened Arith

  /** `ndim` is a uint8_t, each extent a uint16_t and `nelem` a uint32_t. */
  const MaxRank: nat := 255
  const MaxExtent: nat := 65535
  const CountLimit: nat := 0x1_0000_0000

  predicate Positive(s: seq<int>) {
    forall i :: 0 <= i < |s| ==> 1 <= s[i]
  }

  /** Every extent is a positive uint16_t. */
  predicate Extents(s: seq<int>) {
    forall i :: 0 <= i < |s| ==> 1 <= s[i] <= MaxExtent
  }

  /** The number of elements of a tensor of shape `s` (the empty product is 1). */
  function Product(s: seq<int>): int {
    if |s| == 0 then 1 else Product(s[..|s| - 1]) * s[|s| - 1]
  }

  /** One step of the count loop of `tensor_alloc` and `reshape`: a zero running
      value is treated as "not started yet" and restarts from 1. */
  function CountStep(acc: int, x: int): int {
    (if acc > 0 then acc else 1) * x
  }

  /** The element count `tensor_alloc` computes, starting from 0. */
  function AllocCount(s: seq<int>): int {
    if |s| == 0 then 0 else CountStep(AllocCount(s[..|s| - 1]), s[|s| - 1])
  }

  /** The element count `reshape` computes: the same loop, but the running value
      is a uint8_t, so every step is truncated modulo 256. */
  function ByteCount(s: seq<int>): (r: int)
    ensures 0 <= r < 256
  {
    if |s| == 0 then 0 else CountStep(ByteCount(s[..|s| - 1]), s[|s| - 1]) % 256
  }

  lemma {:induction false} ProductPositive(s: seq<int>)
    requires Positive(s)
    ensures Product(s) >= 1
  {
    if |s| > 0 {
      ProductPositive(s[..|s| - 1]);
      MulMono(1, Product(s[..|s| - 1]), s[|s| - 1]);
    }
  }

  lemma {:induction false} ProductAppend(a: seq<int>, b: seq<int>)
    ensures Product(a + b) == Product(a) * Product(b)
  {
    if |b| == 0 {
      assert a + b == a;
    } else {
      var b' := b[..|b| - 1];
      assert (a + b)[..|a + b| - 1] == a + b';
      ProductAppend(a, b');
    }
  }

  /** The count loop of `tensor_alloc` computes the product of the extents
      whenever there is at least one extent and all are positive. */
  lemma {:induction false} AllocCountIsProduct(s: seq<int>)
    requires |s| >= 1 && Positive(s)
    ensures AllocCount(s) == Product(s)
  {
    var init := s[..|s| - 1];
    if |init| == 0 {
      assert AllocCount(init) == 0 && Product(init) == 1;
    } else {
      AllocCountIsProduct(init);
      ProductPositive(init);
    }
  }

  /** With no extents, the count loop yields 0 (the product would be 1). */
  lemma AllocCountEmpty()
    ensures AllocCount([]) == 0
  {
  }

  /** A zero extent makes the count loops of `tensor_alloc` and `reshape`
      restart from 1: [0, 6] counts as 6 although it has no elements. */
  lemma AllocCountZeroRestart()
    ensures AllocCount([0, 6]) == 6 && Product([0, 6]) == 0
    ensures ByteCount([0, 6]) == 6
  {
    assert [0, 6][..1] == [0] && [0][..0] == [];
  }

  /** The uint8_t count of `reshape` agrees with the product of the extents as
      long as that product stays below 256 ... */
  lemma {:induction false} ByteCountSmall(s: seq<int>)
    requires |s| >= 1 && Positive(s) && Product(s) < 256
    ensures ByteCount(s) == Product(s)
  {
    var init, x := s[..|s| - 1], s[|s| - 1];
    ProductPositive(init);
    MulMono(1, x, Product(init));
    if |init| > 0 {
      ByteCountSmall(init);
    }
  }

  /** ... and misjudges larger counts in both directions: 16 x 16 = 256 elements
      count as 0, and a single axis of 262 counts as 6. */
  lemma ByteCountMisjudges()
    ensures Product([16, 16]) == 256 && ByteCount([16, 16]) == 0
    ensures Product([262]) == 262 && ByteCount([262]) == 6
  {
    assert [16, 16][..1] == [16];
    assert [262][..0] == [];
  }

  /** The product of the shape splits around any axis `d`. */
  lemma ProductSplit(s: seq<int>, d: nat)
    requires d < |s|
    ensures Product(s) == Product(s[..d]) * s[d] * Product(s[d + 1..])
  {
    assert s == s[..d] + [s[d]] + s[d + 1..];
    ProductAppend(s[..d] + [s[d]], s[d + 1..]);
    ProductAppend(s[..d], [s[d]]);
    assert [s[d]][..0] == [];
  }

  /** Removing a unit axis or inserting one leaves the element count unchanged. */
  lemma ProductRemoveUnit(s: seq<int>, d: nat)
    requires d < |s| && s[d] == 1
    ensures Product(s[..d] + s[d + 1..]) == Product(s)
  {
    ProductSplit(s, d);
    ProductAppend(s[..d], s[d + 1..]);
  }

  lemma ProductInsertUnit(s: seq<int>, d: nat)
    requires d <= |s|
    ensures Product(s[..d] + [1] + s[d..]) == Product(s)
  {
    ProductAppend(s[..d] + [1], s[d..]);
    ProductAppend(s[..d], [1]);
    assert [1][..0] == [];
    assert s == s[..d] + s[d..];
    ProductAppend(s[..d], s[d..]);
  }

  /** Setting the extent at `d` to 1 divides the count by that extent. */
  lemma ProductUnitAt(s: seq<int>, d: nat)
    requires d < |s| && Positive(s)
    ensures Product(s[d := 1]) == Product(s[..d]) * Product(s[d + 1..])
    ensures Product(s[d := 1]) <= Product(s)
  {
    var t := s[d := 1];
    assert t[..d] == s[..d] && t[d + 1..] == s[d + 1..];
    ProductSplit(t, d);
    ProductSplit(s, d);
    var a, b := Product(s[..d]), Product(s[d + 1..]);
    ProductPositive(s[..d]);
    ProductPositive(s[d + 1..]);
    Rotate(a, s[d], b);
    MulMono(1, s[d], a * b);
  }

  // ---------------------------------------------------------------- broadcasting

  function Max(x: int, y: int): int {
    if x > y then x else y
  }

  function Ones(n: nat): (r: seq<int>)
    ensures |r| == n && forall i :: 0 <= i < n ==> r[i] == 1
  {
    seq(n, _ => 1)
  }

  /** Right alignment: the shape preceded by as many 1s as make it `n` long. */
  function Pad(s: seq<int>, n: nat): (r: seq<int>)
    requires |s| <= n
    ensures |r| == n
  {
    Ones(n - |s|) + s
  }

  lemma PadAt(s: seq<int>, n: nat, i: nat)
    requires |s| <= n && i < n
    ensures Pad(s, n)[i] == if i < n - |s| then 1 else s[i - (n - |s|)]
  {
  }

  /** Two aligned extents broadcast when they are equal or one of them is 1. */
  predicate Compatible(x: int, y: int) {
    x == y || x == 1 || y == 1
  }

  /** Two shapes broadcast when every right-aligned pair of extents does. */
  predicate Broadcastable(s: seq<int>, t: seq<int>) {
    var n := Max(|s|, |t|);
    forall i :: 0 <= i < n ==> Compatible(Pad(s, n)[i], Pad(t, n)[i])
  }

  /** `xs` reaches `cs` by broadcasting: same rank, and every extent is the
      target's or 1. */
  predicate BroadcastsTo(xs: seq<int>, cs: seq<int>) {
    |xs| == |cs| && forall i :: 0 <= i < |xs| ==> xs[i] == cs[i] || xs[i] == 1
  }

  /** The shape of the result of an element-wise operation: the element-wise
      maximum of the two aligned shapes. */
  function BroadcastShape(s: seq<int>, t: seq<int>): (r: seq<int>)
    ensures |r| == Max(|s|, |t|)
  {
    var n := Max(|s|, |t|);
    var ps, pt := Pad(s, n), Pad(t, n);
    seq(n, i requires 0 <= i < n => Max(ps[i], pt[i]))
  }

  lemma {:induction false} ProductOnes(n: nat)
    ensures Product(Ones(n)) == 1
  {
    if n > 0 {
      assert Ones(n)[..n - 1] == Ones(n - 1);
      ProductOnes(n - 1);
    }
  }

  /** Padding on the left with 1s does not change the element count. */
  lemma ProductPad(s: seq<int>, n: nat)
    requires |s| <= n
    ensures Product(Pad(s, n)) == Product(s)
  {
    ProductAppend(Ones(n - |s|), s);
    ProductOnes(n - |s|);
  }

  /** For broadcastable shapes, each aligned operand shape broadcasts to the
      result shape, and the result shape keeps positive uint16_t extents. */
  lemma BroadcastShapeCovers(s: seq<int>, t: seq<int>)
    requires Extents(s) && Extents(t) && Broadcastable(s, t)
    ensures var n := Max(|s|, |t|);
      && BroadcastsTo(Pad(s, n), BroadcastShape(s, t))
      && BroadcastsTo(Pad(t, n), BroadcastShape(s, t))
      && Extents(BroadcastShape(s, t))
  {
    var n := Max(|s|, |t|);
    var ps, pt := Pad(s, n), Pad(t, n);
    forall i | 0 <= i < n
      ensures 1 <= ps[i] <= MaxExtent && 1 <= pt[i] <= MaxExtent
    {
      if i >= n - |s| { assert ps[i] == s[i - (n - |s|)]; }
      if i >= n - |t| { assert pt[i] == t[i - (n - |t|)]; }
    }
  }

  /** Broadcasting is symmetric, and a shape always broadcasts with itself to itself. */
  lemma BroadcastSymmetric(s: seq<int>, t: seq<int>)
    ensures Broadcastable(s, t) <==> Broadcastable(t, s)
    ensures Broadcastable(s, t) ==> BroadcastShape(s, t) == BroadcastShape(t, s)
  {
  }

  lemma BroadcastSelf(s: seq<int>)
    ensures Broadcastable(s, s) && BroadcastShape(s, s) == s
  {
    assert Pad(s, |s|) == s;
  }
}
