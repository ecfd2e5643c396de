/** Row-major ("C-order") layout of a flat buffer: multi-indices, the outer/inner
    decomposition used by the axis reduction, and where a broadcast operand's
    element lives for a given output position. */
module Layout {
  import opened Arith
  import opened Shapes

  // ------------------------------------------------------------- multi-indices

  /** The multi-index of flat position `k` in shape `s`, last axis fastest. */
  function Unravel(s: seq<int>, k: nat): (idx: seq<int>)
    requires Positive(s)
    ensures |idx| == |s|
    ensures forall i :: 0 <= i < |s| ==> 0 <= idx[i] < s[i]
  {
    if |s| == 0 then [] else Unravel(s[..|s| - 1], k / s[|s| - 1]) + [k % s[|s| - 1]]
  }

  /** The flat position of multi-index `idx` in shape `s`. */
  function Ravel(s: seq<int>, idx: seq<int>): int
    requires |idx| == |s|
  {
    if |s| == 0 then 0 else Ravel(s[..|s| - 1], idx[..|idx| - 1]) * s[|s| - 1] + idx[|idx| - 1]
  }

  predicate InRange(s: seq<int>, idx: seq<int>) {
    |idx| == |s| && forall i :: 0 <= i < |s| ==> 0 <= idx[i] < s[i]
  }

  /** Flat positions below the element count and in-range multi-indices are in
      one-to-one correspondence: ravelling undoes unravelling ... */
  lemma {:induction false} RavelUnravel(s: seq<int>, k: nat)
    requires Positive(s) && k < Product(s)
    ensures Ravel(s, Unravel(s, k)) == k
  {
    if |s| > 0 {
      var c := s[|s| - 1];
      var idx := Unravel(s, k);
      assert idx[..|idx| - 1] == Unravel(s[..|s| - 1], k / c);
      DivBelow(k, c, Product(s[..|s| - 1]));
      RavelUnravel(s[..|s| - 1], k / c);
    }
  }

  /** ... and unravelling undoes ravelling, which stays below the element count. */
  lemma {:induction false} UnravelRavel(s: seq<int>, idx: seq<int>)
    requires Positive(s) && InRange(s, idx)
    ensures 0 <= Ravel(s, idx) < Product(s)
    ensures Unravel(s, Ravel(s, idx)) == idx
  {
    if |s| > 0 {
      var c, x := s[|s| - 1], idx[|idx| - 1];
      var s', idx' := s[..|s| - 1], idx[..|idx| - 1];
      UnravelRavel(s', idx');
      var r' := Ravel(s', idx');
      DivModUnique(Ravel(s, idx), c, r', x);
      MulMono(r', Product(s') - 1, c);
      assert idx == idx' + [x];
    }
  }

  // ---------------------------------------------------------- axis reduction

  /** The sum of `count` elements of `data` taken every `step` slots from `base`,
      accumulated left to right. */
  function SumAlong(data: seq<int>, base: nat, step: nat, count: nat): int
    requires count == 0 || base + (count - 1) * step < |data|
  {
    if count == 0 then 0
    else SumAlong(data, base, step, count - 1) + data[base + (count - 1) * step]
  }

  /** Slot `m` of a reduction with `inner` elements per slice lies in outer slice
      `m / inner` at inner offset `m % inner`; the `n` elements summed into it are
      all inside a buffer of `outer * n * inner` elements. */
  lemma SlotBase(m: nat, outer: nat, n: nat, inner: nat)
    requires m < outer * inner
    ensures 0 < inner && 0 <= m / inner < outer && 0 <= m % inner < inner
    ensures 0 <= (m / inner) * n * inner
    ensures n == 0 || (m / inner) * n * inner + m % inner + (n - 1) * inner < outer * n * inner
  {
    DivBelow(m, inner, outer);
    var o, i := m / inner, m % inner;
    MulMono(0, o, n * inner);
    assert o * (n * inner) == o * n * inner;
    if n > 0 {
      MulMono(o + 1, outer, n * inner);
      assert (o + 1) * (n * inner) == o * n * inner + n * inner;
    }
  }

  /** The reduction of axis `n` in a buffer laid out as `outer` slices of `n`
      rows of `inner` elements: slot `m` holds the sum over the reduced axis at
      outer slice `m / inner` and inner offset `m % inner`. */
  ghost function Reduced(data: seq<int>, outer: nat, n: nat, inner: nat): (r: seq<int>)
    requires |data| == outer * n * inner
    ensures |r| == outer * inner
  {
    seq(outer * inner, m requires 0 <= m < outer * inner => SlotSum(data, outer, n, inner, m))
  }

  /** Slot `m` of the reduction: the sum over the reduced axis at outer slice
      `m / inner` and inner offset `m % inner`. */
  ghost function SlotSum(data: seq<int>, outer: nat, n: nat, inner: nat, m: nat): int
    requires |data| == outer * n * inner && m < outer * inner
  {
    SlotBase(m, outer, n, inner);
    SumAlong(data, (m / inner) * n * inner + m % inner, inner, n)
  }

  /** Result slot `o * inner + i` is the sum of the input elements
      `o * n * inner + j * inner + i` for `j < n`. */
  lemma ReducedAt(data: seq<int>, outer: nat, n: nat, inner: nat, o: nat, i: nat)
    requires |data| == outer * n * inner && o < outer && i < inner
    ensures o * inner + i < outer * inner
    ensures n == 0 || o * n * inner + i + (n - 1) * inner < |data|
    ensures Reduced(data, outer, n, inner)[o * inner + i] == SumAlong(data, o * n * inner + i, inner, n)
  {
    MulMono(o + 1, outer, inner);
    DivModUnique(o * inner + i, inner, o, i);
    SlotBase(o * inner + i, outer, n, inner);
  }

  // ----------------------------------------------------- broadcast addressing

  /** The operand's multi-index for an output multi-index: a broadcast axis
      (extent 1) is always read at index 0. */
  function Project(xs: seq<int>, idx: seq<int>): (r: seq<int>)
    requires |xs| == |idx|
    ensures |r| == |xs|
  {
    seq(|xs|, i requires 0 <= i < |xs| => if xs[i] == 1 then 0 else idx[i])
  }

  /** The flat position, in an operand of aligned shape `xs`, of the element that
      broadcasting pairs with flat output position `k` of shape `cs`. */
  function SourceIndex(cs: seq<int>, xs: seq<int>, k: nat): nat
    requires |cs| == |xs| && Positive(cs) && Positive(xs)
  {
    if |cs| == 0 then 0
    else
      var c, x := cs[|cs| - 1], xs[|xs| - 1];
      SourceIndex(cs[..|cs| - 1], xs[..|xs| - 1], k / c) * x + (if x == 1 then 0 else k % c)
  }

  /** The element SourceIndex picks lies inside the operand. */
  lemma {:induction false} SourceIndexBound(cs: seq<int>, xs: seq<int>, k: nat)
    requires Positive(cs) && Positive(xs) && BroadcastsTo(xs, cs) && k < Product(cs)
    ensures SourceIndex(cs, xs, k) < Product(xs)
  {
    if |cs| > 0 {
      var c, x := cs[|cs| - 1], xs[|xs| - 1];
      var cs', xs' := cs[..|cs| - 1], xs[..|xs| - 1];
      DivBelow(k, c, Product(cs'));
      SourceIndexBound(cs', xs', k / c);
      var r', p' := SourceIndex(cs', xs', k / c), Product(xs');
      var y := if x == 1 then 0 else k % c;
      assert x == c || x == 1;
      assert SourceIndex(cs, xs, k) == r' * x + y && y < x;
      DigitBound(r', p', y, x);
    }
  }

  /** SourceIndex is the NumPy rule: it addresses the operand at the output's
      multi-index with every broadcast axis set to 0. */
  lemma {:induction false} SourceIndexMeaning(cs: seq<int>, xs: seq<int>, k: nat)
    requires Positive(cs) && Positive(xs) && BroadcastsTo(xs, cs) && k < Product(cs)
    ensures Unravel(xs, SourceIndex(cs, xs, k)) == Project(xs, Unravel(cs, k))
  {
    if |cs| > 0 {
      var c, x := cs[|cs| - 1], xs[|xs| - 1];
      var cs', xs' := cs[..|cs| - 1], xs[..|xs| - 1];
      DivBelow(k, c, Product(cs'));
      SourceIndexMeaning(cs', xs', k / c);
      var r' := SourceIndex(cs', xs', k / c);
      var y := if x == 1 then 0 else k % c;
      var r := SourceIndex(cs, xs, k);
      assert r == r' * x + y;
      DivModUnique(r, x, r', y);
      assert Unravel(xs, r) == Unravel(xs', r') + [y];
      assert Unravel(cs, k) == Unravel(cs', k / c) + [k % c];
      assert Project(xs, Unravel(cs, k)) == Project(xs', Unravel(cs', k / c)) + [y];
    }
  }

  /** Hence the operand element is `Ravel(xs, Project(xs, Unravel(cs, k)))`. */
  lemma SourceIndexIsRavel(cs: seq<int>, xs: seq<int>, k: nat)
    requires Positive(cs) && Positive(xs) && BroadcastsTo(xs, cs) && k < Product(cs)
    ensures SourceIndex(cs, xs, k) == Ravel(xs, Project(xs, Unravel(cs, k)))
  {
    SourceIndexBound(cs, xs, k);
    SourceIndexMeaning(cs, xs, k);
    RavelUnravel(xs, SourceIndex(cs, xs, k));
  }

  /** An operand whose aligned extents are all 1 is always read at position 0. */
  lemma {:induction false} SourceIndexOnes(cs: seq<int>, k: nat)
    requires Positive(cs)
    ensures SourceIndex(cs, Ones(|cs|), k) == 0
  {
    if |cs| > 0 {
      var n := |cs|;
      assert Ones(n)[..n - 1] == Ones(n - 1);
      SourceIndexOnes(cs[..n - 1], k / cs[n - 1]);
    }
  }

  /** An operand that broadcasts only along leading axes (its aligned shape is
      1s followed by the output's trailing extents) is addressed by
      `k % Product(xs)`: the modulus shortcut is right in exactly this layout. */
  lemma {:induction false} SourceIndexLeading(cs: seq<int>, xs: seq<int>, m: nat, k: nat)
    requires Positive(cs) && m <= |cs| && xs == Ones(m) + cs[m..]
    ensures Positive(xs) && Product(xs) >= 1
    ensures SourceIndex(cs, xs, k) == k % Product(xs)
  {
    ProductPositive(xs);
    if m == |cs| {
      assert xs == Ones(|cs|);
      SourceIndexOnes(cs, k);
      ProductOnes(|cs|);
    } else {
      var n := |cs|;
      var c := cs[n - 1];
      var cs', xs' := cs[..n - 1], xs[..n - 1];
      assert xs' == Ones(m) + cs'[m..];
      assert xs[n - 1] == c;
      SourceIndexLeading(cs', xs', m, k / c);
      ProductPositive(xs');
      assert Product(xs) == Product(xs') * c;
      ModOfMod(k, c, Product(xs'));
    }
  }

  /** The first place where the shortcut goes wrong: output [2,3] from an
      operand of aligned shape [2,1]. Output position 1 is (0,1), which
      broadcasting pairs with operand element (0,0), flat 0; `1 % 2` reads
      flat 1, which is element (1,0). */
  lemma ModulusMisreads()
    ensures Unravel([2, 3], 1) == [0, 1]
    ensures SourceIndex([2, 3], [2, 1], 1) == 0
    ensures Product([2, 1]) == 2 && 1 % Product([2, 1]) == 1 && Unravel([2, 1], 1) == [1, 0]
  {
    UnravelPairs();
    assert [2, 3][..1] == [2] && [2, 1][..1] == [2] && [2][..0] == [];
    assert SourceIndex([2], [2], 0) == 0;
    assert Product([2]) == 2;
  }

  /** The multi-indices of flat position 1 in shapes [2, 3] and [2, 1]. */
  lemma UnravelPairs()
    ensures Unravel([2, 3], 1) == [0, 1] && Unravel([2, 1], 1) == [1, 0]
  {
    UnravelOutput();
    UnravelOperand();
  }

  lemma UnravelOutput()
    ensures Unravel([2, 3], 1) == [0, 1]
  {
    var s := [2, 3];
    assert s[..1] == [2] && [2][..0] == [];
    assert Unravel([2], 0) == Unravel([], 0) + [0] == [0];
    assert Unravel(s, 1) == Unravel(s[..1], 1 / 3) + [1 % 3];
  }

  lemma UnravelOperand()
    ensures Unravel([2, 1], 1) == [1, 0]
  {
    var s := [2, 1];
    assert s[..1] == [2] && [2][..0] == [];
    assert Unravel([2], 1) == Unravel([], 0) + [1] == [1];
    assert Unravel(s, 1) == Unravel(s[..1], 1 / 1) + [1 % 1];
  }
}
