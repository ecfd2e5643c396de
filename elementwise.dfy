/** Broadcasting two tensors and the element-wise engine behind `add` and `mul`. */
module Elementwise {
  import opened Arith
  import opened Shapes
  import opened Layout
  import opened Tensors

  /** `tensor_op_t`. */
  datatype Op = OpAdd | OpMul

  function Apply(op: Op, x: int, y: int): int {
    match op
    case OpAdd => x + y
    case OpMul => x * y
  }

  /** `broadcast`: right-aligns the two shapes to the larger rank, padding the
      shorter one with 1s, and hands back both aligned shapes together with the
      common rank. It returns rank 0 and no shapes when an aligned pair is
      neither equal nor contains a 1 (and, since 0 doubles as the failure value,
      also when both ranks are 0). */
  method Broadcast(a: Tensor, b: Tensor) returns (ndim: nat, ashape: seq<int>, bshape: seq<int>)
    requires a.Wellformed() && b.Wellformed()
    ensures ndim != 0 <==> Max(a.ndim, b.ndim) != 0 && Broadcastable(a.Shape(), b.Shape())
    ensures ndim != 0 ==>
      && ndim == Max(a.ndim, b.ndim)
      && ashape == Pad(a.Shape(), ndim)
      && bshape == Pad(b.Shape(), ndim)
    ensures ndim == 0 ==> ashape == [] && bshape == []
  {
    var n := if a.ndim > b.ndim then a.ndim else b.ndim;
    var offa, offb := n - a.ndim, n - b.ndim;
    var sas, sbs := [], [];
    var i := 0;
    while i < n
      invariant 0 <= i <= n && |sas| == i && |sbs| == i
      invariant forall k :: 0 <= k < i ==> sas[k] == if k < offa then 1 else a.shape[k - offa]
      invariant forall k :: 0 <= k < i ==> sbs[k] == if k < offb then 1 else b.shape[k - offb]
      invariant forall k :: 0 <= k < i ==> Compatible(sas[k], sbs[k])
    {
      var sa := if i < offa then 1 else a.shape[i - offa];
      var sb := if i < offb then 1 else b.shape[i - offb];
      if sa != sb && sa != 1 && sb != 1 {
        PadAt(a.Shape(), n, i);
        PadAt(b.Shape(), n, i);
        return 0, [], [];
      }
      sas, sbs := sas + [sa], sbs + [sb];
      i := i + 1;
    }
    PadMatches(a, n, offa, sas);
    PadMatches(b, n, offb, sbs);
    ndim, ashape, bshape := n, sas, sbs;
  }

  /** A sequence built extent by extent as the loop of `broadcast` builds it is
      the right-aligned shape. */
  lemma PadMatches(t: Tensor, n: nat, off: nat, s: seq<int>)
    requires t.ndim <= t.shape.Length && off == n - t.ndim && t.ndim <= n && |s| == n
    requires forall k :: 0 <= k < n ==> s[k] == if k < off then 1 else t.shape[k - off]
    ensures s == Pad(t.Shape(), n)
  {
    forall k | 0 <= k < n
      ensures s[k] == Pad(t.Shape(), n)[k]
    {
      PadAt(t.Shape(), n, k);
    }
  }

  /** The result shape loop of `ewop`: the element-wise maximum of the aligned shapes. */
  method MaxShape(ashape: seq<int>, bshape: seq<int>) returns (cshape: seq<int>)
    requires |ashape| == |bshape|
    ensures |cshape| == |ashape|
    ensures forall i :: 0 <= i < |cshape| ==>
      cshape[i] >= ashape[i] && cshape[i] >= bshape[i] && (cshape[i] == ashape[i] || cshape[i] == bshape[i])
  {
    cshape := [];
    var i := 0;
    while i < |ashape|
      invariant 0 <= i <= |ashape| && |cshape| == i
      invariant forall k :: 0 <= k < i ==> cshape[k] == Max(ashape[k], bshape[k])
    {
      cshape := cshape + [if ashape[i] > bshape[i] then ashape[i] else bshape[i]];
      i := i + 1;
    }
  }

  /** The set-up of `ewop`: broadcast the shapes, build the result shape as
      their element-wise maximum, and allocate the result tensor. NULL exactly
      when the shapes do not broadcast; otherwise the aligned operand shapes are
      handed back with the result. */
  method AllocBroadcast(a: Tensor, b: Tensor) returns (c: Tensor?, ashape: seq<int>, bshape: seq<int>)
    requires a.Valid() && b.Valid()
    requires Broadcastable(a.Shape(), b.Shape()) ==> Product(BroadcastShape(a.Shape(), b.Shape())) < CountLimit
    ensures c == null <==> !Broadcastable(a.Shape(), b.Shape())
    ensures c != null ==> fresh(c) && fresh(c.shape) && fresh(c.data) && c.Valid()
    ensures c != null ==>
      && c.Shape() == BroadcastShape(a.Shape(), b.Shape())
      && ashape == Pad(a.Shape(), c.ndim) && bshape == Pad(b.Shape(), c.ndim)
      && Positive(ashape) && Positive(bshape)
      && BroadcastsTo(ashape, c.Shape()) && BroadcastsTo(bshape, c.Shape())
      && Product(ashape) == a.nelem && Product(bshape) == b.nelem
  {
    var n;
    n, ashape, bshape := Broadcast(a, b);
    if n == 0 {
      return null, [], [];
    }
    var cs := MaxShape(ashape, bshape);
    assert cs == BroadcastShape(a.Shape(), b.Shape());
    BroadcastShapeCovers(a.Shape(), b.Shape());
    ProductPad(a.Shape(), n);
    ProductPad(b.Shape(), n);
    c := new Tensor.Alloc(cs);
  }

  /** The element loop of `ewop` as written: output position `k` reads the
      operands at `k % x.Length` and `k % y.Length`. */
  method FillModulus(out: array<int>, x: array<int>, y: array<int>, op: Op)
    requires 0 < x.Length && 0 < y.Length && out != x && out != y
    modifies out
    ensures forall k :: 0 <= k < out.Length ==> out[k] == Apply(op, x[k % x.Length], y[k % y.Length])
  {
    var k := 0;
    while k < out.Length
      invariant 0 <= k <= out.Length
      invariant forall j :: 0 <= j < k ==> out[j] == Apply(op, x[j % x.Length], y[j % y.Length])
    {
      out[k] := Apply(op, x[k % x.Length], y[k % y.Length]);
      k := k + 1;
    }
  }

  /** `ewop` as written: NULL when the shapes do not broadcast; otherwise a new
      tensor of the broadcast shape whose element `k` combines element
      `k % a.nelem` of `a` with element `k % b.nelem` of `b`. The inputs are not
      modified. */
  method EwOp(a: Tensor, b: Tensor, op: Op) returns (c: Tensor?)
    requires a.Valid() && b.Valid()
    requires Broadcastable(a.Shape(), b.Shape()) ==> Product(BroadcastShape(a.Shape(), b.Shape())) < CountLimit
    ensures c == null <==> !Broadcastable(a.Shape(), b.Shape())
    ensures c != null ==> fresh(c) && fresh(c.shape) && fresh(c.data) && c.Valid()
    ensures c != null ==> c.Shape() == BroadcastShape(a.Shape(), b.Shape())
    ensures c != null ==> forall k :: 0 <= k < c.nelem ==>
      c.data[k] == Apply(op, a.data[k % a.nelem], b.data[k % b.nelem])
  {
    var sas, sbs;
    c, sas, sbs := AllocBroadcast(a, b);
    if c != null {
      FillModulus(c.data, a.data, b.data, op);
    }
  }

  /** `add`. */
  method Add(a: Tensor, b: Tensor) returns (c: Tensor?)
    requires a.Valid() && b.Valid()
    requires Broadcastable(a.Shape(), b.Shape()) ==> Product(BroadcastShape(a.Shape(), b.Shape())) < CountLimit
    ensures c == null <==> !Broadcastable(a.Shape(), b.Shape())
    ensures c != null ==> fresh(c) && fresh(c.shape) && fresh(c.data) && c.Valid()
    ensures c != null ==> c.Shape() == BroadcastShape(a.Shape(), b.Shape())
    ensures c != null ==> forall k :: 0 <= k < c.nelem ==>
      c.data[k] == a.data[k % a.nelem] + b.data[k % b.nelem]
  {
    c := EwOp(a, b, OpAdd);
  }

  /** `mul`. */
  method Mul(a: Tensor, b: Tensor) returns (c: Tensor?)
    requires a.Valid() && b.Valid()
    requires Broadcastable(a.Shape(), b.Shape()) ==> Product(BroadcastShape(a.Shape(), b.Shape())) < CountLimit
    ensures c == null <==> !Broadcastable(a.Shape(), b.Shape())
    ensures c != null ==> fresh(c) && fresh(c.shape) && fresh(c.data) && c.Valid()
    ensures c != null ==> c.Shape() == BroadcastShape(a.Shape(), b.Shape())
    ensures c != null ==> forall k :: 0 <= k < c.nelem ==>
      c.data[k] == a.data[k % a.nelem] * b.data[k % b.nelem]
  {
    c := EwOp(a, b, OpMul);
  }

  /** The element-wise engine with NumPy broadcasting: element `k` of the result
      combines the operand elements SourceIndex picks, that is (by
      SourceIndexIsRavel) the elements at the result's multi-index with every
      broadcast axis read at 0. */
  method BroadcastEwOp(a: Tensor, b: Tensor, op: Op) returns (c: Tensor?)
    requires a.Valid() && b.Valid()
    requires Broadcastable(a.Shape(), b.Shape()) ==> Product(BroadcastShape(a.Shape(), b.Shape())) < CountLimit
    ensures c == null <==> !Broadcastable(a.Shape(), b.Shape())
    ensures c != null ==> fresh(c) && fresh(c.shape) && fresh(c.data) && c.Valid()
    ensures c != null ==> c.Shape() == BroadcastShape(a.Shape(), b.Shape())
    ensures c != null ==>
      var cs, pa, pb := c.Shape(), Pad(a.Shape(), c.ndim), Pad(b.Shape(), c.ndim);
      && Positive(pa) && Positive(pb) && BroadcastsTo(pa, cs) && BroadcastsTo(pb, cs)
      && forall k :: 0 <= k < c.nelem ==>
        && SourceIndex(cs, pa, k) < a.nelem && SourceIndex(cs, pb, k) < b.nelem
        && c.data[k] == Apply(op, a.data[SourceIndex(cs, pa, k)], b.data[SourceIndex(cs, pb, k)])
  {
    var sas, sbs;
    c, sas, sbs := AllocBroadcast(a, b);
    if c != null {
      var cs := c.shape[..c.ndim];
      FillBroadcast(c.data, a.data, b.data, cs, sas, sbs, op);
      assert c.Shape() == cs && c.nelem == c.data.Length;
    }
  }

  /** The element loop of the broadcasting engine: each output position reads
      the operand elements SourceIndex picks. */
  method FillBroadcast(out: array<int>, x: array<int>, y: array<int>,
                       cs: seq<int>, xs: seq<int>, ys: seq<int>, op: Op)
    requires Positive(cs) && Positive(xs) && Positive(ys)
    requires BroadcastsTo(xs, cs) && BroadcastsTo(ys, cs)
    requires out.Length == Product(cs) && x.Length == Product(xs) && y.Length == Product(ys)
    requires out != x && out != y
    modifies out
    ensures forall j :: 0 <= j < out.Length ==>
      && SourceIndex(cs, xs, j) < x.Length && SourceIndex(cs, ys, j) < y.Length
      && out[j] == Apply(op, x[SourceIndex(cs, xs, j)], y[SourceIndex(cs, ys, j)])
  {
    var k := 0;
    while k < out.Length
      invariant 0 <= k <= out.Length
      invariant forall j :: 0 <= j < k ==>
        && SourceIndex(cs, xs, j) < x.Length && SourceIndex(cs, ys, j) < y.Length
        && out[j] == Apply(op, x[SourceIndex(cs, xs, j)], y[SourceIndex(cs, ys, j)])
    {
      SourceIndexBound(cs, xs, k);
      SourceIndexBound(cs, ys, k);
      out[k] := Apply(op, x[SourceIndex(cs, xs, k)], y[SourceIndex(cs, ys, k)]);
      k := k + 1;
    }
  }

  /** Where broadcasting only extends leading axes of both operands, the
      modulus indexing of `ewop` reads the same elements as NumPy broadcasting. */
  lemma ModulusAgreesOnLeadingBroadcast(sa: seq<int>, sb: seq<int>, ma: nat, mb: nat, k: nat)
    requires Extents(sa) && Extents(sb) && Broadcastable(sa, sb)
    requires var n, cs := Max(|sa|, |sb|), BroadcastShape(sa, sb);
      ma <= n && mb <= n && Pad(sa, n) == Ones(ma) + cs[ma..] && Pad(sb, n) == Ones(mb) + cs[mb..]
    ensures var n, cs := Max(|sa|, |sb|), BroadcastShape(sa, sb);
      && Positive(cs) && Positive(Pad(sa, n)) && Positive(Pad(sb, n))
      && Product(sa) >= 1 && Product(sb) >= 1
      && SourceIndex(cs, Pad(sa, n), k) == k % Product(sa)
      && SourceIndex(cs, Pad(sb, n), k) == k % Product(sb)
  {
    var n, cs := Max(|sa|, |sb|), BroadcastShape(sa, sb);
    BroadcastShapeCovers(sa, sb);
    SourceIndexLeading(cs, Pad(sa, n), ma, k);
    SourceIndexLeading(cs, Pad(sb, n), mb, k);
    ProductPad(sa, n);
    ProductPad(sb, n);
  }
}
