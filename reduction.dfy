/** Reductions: `sum` over one axis with its triple accumulation loop, and the
    flat scans `sumall`, `max` and `min`. */
module Reduction {
  import opened Arith
  import opened Shapes
  import opened Layout
  import opened Tensors

  /** The axis `sum` reduces: a negative `dim` counts from the end. */
  function Axis(dim: int, ndim: nat): (d: nat)
    requires -(ndim as int) <= dim < ndim
    ensures d < ndim && (d == dim || d == dim + ndim)
  {
    if dim >= 0 then dim else dim + ndim
  }

  /** The values of `sum` over axis `d` of a tensor of shape `s`: the buffer is
      `outer` slices of `n` rows of `inner` elements, with `outer` the product
      of the extents before `d`, `n` the extent at `d` and `inner` the product
      of the extents after `d`. */
  ghost function SumAxis(s: seq<int>, data: seq<int>, d: nat): (r: seq<int>)
    requires d < |s| && Positive(s) && |data| == Product(s)
    ensures |r| == Product(s[..d]) * Product(s[d + 1..])
  {
    ProductSplit(s, d);
    ProductPositive(s[..d]);
    ProductPositive(s[d + 1..]);
    Reduced(data, Product(s[..d]), s[d], Product(s[d + 1..]))
  }

  /** The worked examples for shape [2, 3] holding 1..6: summing axis 0 gives
      [1+4, 2+5, 3+6], summing axis 1 (also reached as axis -1) gives
      [1+2+3, 4+5+6]. */
  lemma SumAxisExamples()
    ensures Axis(-1, 2) == 1
    ensures SumAxis([2, 3], [1, 2, 3, 4, 5, 6], 0) == [5, 7, 9]
    ensures SumAxis([2, 3], [1, 2, 3, 4, 5, 6], 1) == [6, 15]
  {
    var s := [2, 3];
    assert s[..0] == [] && s[1..] == [3] && s[..1] == [2] && s[2..] == [];
    assert Product([3]) == 3 by { assert [3][..0] == []; }
    assert Product([2]) == 2 by { assert [2][..0] == []; }
    ReducedExamples();
  }

  lemma ReducedExamples()
    ensures Reduced([1, 2, 3, 4, 5, 6], 1, 2, 3) == [5, 7, 9]
    ensures Reduced([1, 2, 3, 4, 5, 6], 2, 3, 1) == [6, 15]
  {
    ReducedColumns([1, 2, 3, 4, 5, 6]);
    ReducedRows([1, 2, 3, 4, 5, 6]);
  }

  lemma ReducedColumns(data: seq<int>)
    requires data == [1, 2, 3, 4, 5, 6]
    ensures Reduced(data, 1, 2, 3) == [5, 7, 9]
  {
    var r := Reduced(data, 1, 2, 3);
    ReducedAt(data, 1, 2, 3, 0, 0);
    assert r[0] == SumAlong(data, 0, 3, 2) == SumAlong(data, 0, 3, 1) + 4 == 5;
    ReducedAt(data, 1, 2, 3, 0, 1);
    assert r[1] == SumAlong(data, 1, 3, 2) == SumAlong(data, 1, 3, 1) + 5 == 7;
    ReducedAt(data, 1, 2, 3, 0, 2);
    assert r[2] == SumAlong(data, 2, 3, 2) == SumAlong(data, 2, 3, 1) + 6 == 9;
    assert r == [r[0], r[1], r[2]];
  }

  lemma ReducedRows(data: seq<int>)
    requires data == [1, 2, 3, 4, 5, 6]
    ensures Reduced(data, 2, 3, 1) == [6, 15]
  {
    var r := Reduced(data, 2, 3, 1);
    ReducedAt(data, 2, 3, 1, 0, 0);
    assert r[0] == SumAlong(data, 0, 1, 3) == SumAlong(data, 0, 1, 2) + 3 == SumAlong(data, 0, 1, 1) + 2 + 3 == 6;
    ReducedAt(data, 2, 3, 1, 1, 0);
    assert r[1] == SumAlong(data, 3, 1, 3) == SumAlong(data, 3, 1, 2) + 6 == SumAlong(data, 3, 1, 1) + 5 + 6 == 15;
    assert r == [r[0], r[1]];
  }

  /** Spot checks of the rank-4 example, shape [2, 3, 2, 4] holding 1..48.
      Axis 1: the first slot adds the three elements 8 apart, 1 + 9 + 17. */
  lemma SumAxisRank4Example()
    ensures Product([2, 3, 2, 4]) == 48
    ensures var r := SumAxis([2, 3, 2, 4], seq(48, i => i + 1), 1); |r| == 16 && r[0] == 27
  {
    var s, data := [2, 3, 2, 4], seq(48, i => i + 1);
    Rank4Products();
    assert s[..1] == [2] && s[2..] == [2, 4];
    ReducedAt(data, 2, 3, 8, 0, 0);
    assert SumAlong(data, 0, 8, 3) == SumAlong(data, 0, 8, 2) + 17 == SumAlong(data, 0, 8, 1) + 9 + 17 == 27;
  }

  /** Axis 0 pairs element k with k + 24: the first slot is 1 + 25. */
  lemma SumAxisRank4Axis0()
    ensures Product([2, 3, 2, 4]) == 48
    ensures var r := SumAxis([2, 3, 2, 4], seq(48, i => i + 1), 0); |r| == 24 && r[0] == 26
  {
    var s, data := [2, 3, 2, 4], seq(48, i => i + 1);
    Rank4Products();
    assert s[..0] == [] && s[1..] == [3, 2, 4];
    ReducedAt(data, 1, 2, 24, 0, 0);
    assert SumAlong(data, 0, 24, 2) == SumAlong(data, 0, 24, 1) + 25 == 26;
  }

  /** Axis 2 adds pairs 4 apart: the result starts [6, 8, 10, 12, 22]. */
  lemma SumAxisRank4Axis2()
    ensures Product([2, 3, 2, 4]) == 48
    ensures var r := SumAxis([2, 3, 2, 4], seq(48, i => i + 1), 2);
      |r| == 24 && r[..4] == [6, 8, 10, 12] && r[4] == 22
  {
    var s, data := [2, 3, 2, 4], seq(48, i => i + 1);
    Rank4Products();
    assert s[..2] == [2, 3] && s[3..] == [4];
    var r := SumAxis(s, data, 2);
    assert r == Reduced(data, 6, 2, 4);
    Rank4Axis2Slots();
    assert r[..4] == [r[0], r[1], r[2], r[3]];
  }

  lemma Rank4Axis2Slots()
    ensures var r := Reduced(seq(48, i => i + 1), 6, 2, 4);
      r[0] == 6 && r[1] == 8 && r[2] == 10 && r[3] == 12 && r[4] == 22
  {
    var data := seq(48, i => i + 1);
    var r := Reduced(data, 6, 2, 4);
    ReducedAt(data, 6, 2, 4, 0, 0);
    assert r[0] == SumAlong(data, 0, 4, 2) == SumAlong(data, 0, 4, 1) + 5 == 6;
    ReducedAt(data, 6, 2, 4, 0, 1);
    assert r[1] == SumAlong(data, 1, 4, 2) == SumAlong(data, 1, 4, 1) + 6 == 8;
    ReducedAt(data, 6, 2, 4, 0, 2);
    assert r[2] == SumAlong(data, 2, 4, 2) == SumAlong(data, 2, 4, 1) + 7 == 10;
    ReducedAt(data, 6, 2, 4, 0, 3);
    assert r[3] == SumAlong(data, 3, 4, 2) == SumAlong(data, 3, 4, 1) + 8 == 12;
    ReducedAt(data, 6, 2, 4, 1, 0);
    assert r[4] == SumAlong(data, 8, 4, 2) == SumAlong(data, 8, 4, 1) + 13 == 22;
  }

  /** Axis 3 adds four neighbours: the first slot is 1 + 2 + 3 + 4 and the last
      45 + 46 + 47 + 48. */
  lemma SumAxisRank4Axis3()
    ensures Product([2, 3, 2, 4]) == 48
    ensures var r := SumAxis([2, 3, 2, 4], seq(48, i => i + 1), 3); |r| == 12 && r[0] == 10 && r[11] == 186
  {
    var s, data := [2, 3, 2, 4], seq(48, i => i + 1);
    Rank4Products();
    assert s[..3] == [2, 3, 2] && s[4..] == [];
    var r := SumAxis(s, data, 3);
    assert r == Reduced(data, 12, 4, 1);
    ReducedAt(data, 12, 4, 1, 0, 0);
    assert r[0] == SumAlong(data, 0, 1, 4) == SumAlong(data, 0, 1, 3) + 4 == SumAlong(data, 0, 1, 2) + 3 + 4 == SumAlong(data, 0, 1, 1) + 2 + 3 + 4 == 10;
    ReducedAt(data, 12, 4, 1, 11, 0);
    assert r[11] == SumAlong(data, 44, 1, 4) == SumAlong(data, 44, 1, 3) + 48 == SumAlong(data, 44, 1, 2) + 47 + 48 == SumAlong(data, 44, 1, 1) + 46 + 47 + 48 == 186;
  }

  /** The element counts of the slices of [2, 3, 2, 4]. */
  lemma Rank4Products()
    ensures Product([2, 3, 2, 4]) == 48
    ensures Product([2]) == 2 && Product([2, 3]) == 6 && Product([2, 3, 2]) == 12
    ensures Product([4]) == 4 && Product([2, 4]) == 8 && Product([3, 2, 4]) == 24
  {
    assert [2, 4][..1] == [2] && [3, 2, 4][..2] == [3, 2] && [2, 3][..1] == [2];
    assert [2, 3, 2][..2] == [2, 3] && [3, 2][..1] == [3] && [4][..0] == [] && [2][..0] == [] && [3][..0] == [];
    assert [2, 3, 2, 4][..3] == [2, 3, 2];
  }

  /** The `sumall` example: the elements 1..6 add up to 21. */
  lemma SumAllExample()
    ensures SumAlong([1, 2, 3, 4, 5, 6], 0, 1, 6) == 21
  {
    var data := [1, 2, 3, 4, 5, 6];
    assert SumAlong(data, 0, 1, 3) == 6;
    assert SumAlong(data, 0, 1, 6) == SumAlong(data, 0, 1, 3) + 4 + 5 + 6;
  }

  /** The `i`-th element of `data` taken every `stride` slots from `base`,
      summed as the innermost loop of `sum` does. */
  method SumStrided(src: array<int>, base: nat, stride: nat, count: nat) returns (acc: int)
    requires count == 0 || base + (count - 1) * stride < src.Length
    ensures acc == SumAlong(src[..], base, stride, count)
  {
    acc := 0;
    var str := 0;
    var i := 0;
    while i < count
      invariant 0 <= i <= count && str == i * stride
      invariant acc == SumAlong(src[..], base, stride, i)
    {
      MulMono(i, count - 1, stride);
      acc := acc + src[base + str];
      str := str + stride;
      i := i + 1;
    }
  }

  /** Step `stepi` of a pass that starts at result slot `ri0` and input
      position `sft` writes slot `ri0 + stepi` with the `count` elements
      `stride` apart from `sft + stepi * step`, and `want` holds that sum there. */
  ghost predicate StepWrites(want: seq<int>, data: seq<int>, ri0: nat, sft: nat, step: nat,
                             stride: nat, count: nat, stepi: nat)
  {
    && ri0 + stepi < |want|
    && (count == 0 || sft + stepi * step + (count - 1) * stride < |data|)
    && want[ri0 + stepi] == SumAlong(data, sft + stepi * step, stride, count)
  }

  /** The schedule `sum` picks walks the result slots in order: step `stepi` of
      shift `shifti` writes slot `shifti * nstep + stepi` with the sum along the
      reduced axis from `shifti * shift + stepi * step`. The three cases are:
      last axis (one shift, `outer` steps of `n`), first axis of several
      (`outer` is 1; one shift, `inner` unit steps) and a middle axis (`outer`
      shifts of `n * inner`, `inner` unit steps each). */
  lemma ScheduleSlot(data: seq<int>, outer: nat, n: nat, inner: nat, first: bool, last: bool,
                     shifti: nat, stepi: nat)
    requires |data| == outer * n * inner && 1 <= outer && 1 <= inner
    requires first ==> outer == 1
    requires last ==> inner == 1
    requires shifti < (if !first && !last then outer else 1)
    requires stepi < (if last then outer else inner)
    ensures var nstep := if last then outer else inner;
      var step := if last then n else 1;
      var shift := if !first && !last then inner * n else 0;
      StepWrites(Reduced(data, outer, n, inner), data, shifti * nstep, shifti * shift, step, inner, n, stepi)
  {
    if last {
      ReducedAt(data, outer, n, inner, stepi, 0);
    } else if first {
      ReducedAt(data, outer, n, inner, 0, stepi);
    } else {
      assert shifti * (inner * n) == shifti * n * inner;
      ReducedAt(data, outer, n, inner, shifti, stepi);
    }
  }

  /** Every step of shift `shifti` writes its slot of `want`. */
  ghost predicate ShiftWrites(want: seq<int>, data: seq<int>, nstep: nat, shift: nat, step: nat,
                              stride: nat, count: nat, shifti: nat)
  {
    forall stepi :: 0 <= stepi < nstep ==>
      StepWrites(want, data, shifti * nstep, shifti * shift, step, stride, count, stepi)
  }

  /** The schedule of `sum` covers the reduction: every shift writes its slots,
      and the shifts together have one step per result slot. */
  lemma ScheduleCovers(data: seq<int>, outer: nat, n: nat, inner: nat, first: bool, last: bool)
    requires |data| == outer * n * inner && 1 <= outer && 1 <= inner
    requires first ==> outer == 1
    requires last ==> inner == 1
    ensures var nstep := if last then outer else inner;
      var step := if last then n else 1;
      var shift := if !first && !last then inner * n else 0;
      var nshift := if !first && !last then outer else 1;
      && nshift * nstep == outer * inner
      && forall shifti :: 0 <= shifti < nshift ==>
        ShiftWrites(Reduced(data, outer, n, inner), data, nstep, shift, step, inner, n, shifti)
  {
    var nstep := if last then outer else inner;
    var step := if last then n else 1;
    var shift := if !first && !last then inner * n else 0;
    var nshift := if !first && !last then outer else 1;
    var want := Reduced(data, outer, n, inner);
    forall shifti, stepi | 0 <= shifti < nshift && 0 <= stepi < nstep
      ensures StepWrites(want, data, shifti * nstep, shifti * shift, step, inner, n, stepi)
    {
      ScheduleSlot(data, outer, n, inner, first, last, shifti, stepi);
    }
  }

  /** The `sft`/`stp`/`str` loops of `sum`: `nshift` shifts of `nstep` steps,
      each summing `nstride` elements `stride` apart into the next result slot
      `ri`. When every shift writes its slots of `want`, and there is one step
      per slot, every slot is written once, in order, with its value in `want`. */
  method Accumulate(src: array<int>, dst: array<int>, ghost want: seq<int>,
                    stride: nat, nstride: nat, step: nat, nstep: nat, shift: nat, nshift: nat)
    requires src != dst && |want| == dst.Length == nshift * nstep
    requires forall shifti :: 0 <= shifti < nshift ==>
      ShiftWrites(want, src[..], nstep, shift, step, stride, nstride, shifti)
    modifies dst
    ensures dst[..] == want
  {
    var ri := 0;
    var sft := 0;
    var shifti := 0;
    while shifti < nshift
      invariant 0 <= shifti <= nshift
      invariant ri == shifti * nstep && sft == shifti * shift
      invariant dst[..ri] == want[..ri]
    {
      assert ShiftWrites(want, src[..], nstep, shift, step, stride, nstride, shifti);
      MulMono(shifti + 1, nshift, nstep);
      ri := Steps(src, dst, want, stride, nstride, step, nstep, sft, ri);
      sft := sft + shift;
      shifti := shifti + 1;
    }
    assert dst[..] == dst[..ri];
  }

  /** One pass of the `stp` loop of `sum`: the `nstep` result slots from `ri0` on
      receive the sums `want` holds for them, earlier slots keep theirs, and the
      next slot is returned. */
  method Steps(src: array<int>, dst: array<int>, ghost want: seq<int>,
               stride: nat, nstride: nat, step: nat, nstep: nat, sft: nat, ri0: nat)
      returns (ri: nat)
    requires src != dst && |want| == dst.Length && ri0 + nstep <= dst.Length
    requires forall stepi :: 0 <= stepi < nstep ==> StepWrites(want, src[..], ri0, sft, step, stride, nstride, stepi)
    requires dst[..ri0] == want[..ri0]
    modifies dst
    ensures ri == ri0 + nstep
    ensures dst[..ri] == want[..ri]
  {
    ri := ri0;
    var stp := 0;
    var stepi := 0;
    while stepi < nstep
      invariant 0 <= stepi <= nstep
      invariant ri == ri0 + stepi && stp == stepi * step
      invariant dst[..ri] == want[..ri]
    {
      assert StepWrites(want, src[..], ri0, sft, step, stride, nstride, stepi);
      var acc := SumStrided(src, sft + stp, stride, nstride);
      stp := stp + step;
      dst[ri] := acc;
      ri := ri + 1;
      stepi := stepi + 1;
    }
  }

  /** `sum`: NULL when `dim` is outside `[-ndim, ndim)`. Otherwise a new tensor
      whose values are the sums over axis `d` (a negative `dim` counted from the
      end); with `keepdim`, or for a rank-1 input, its shape is the input's with
      extent 1 at `d`, and otherwise that axis is squeezed away. The input is
      not modified. */
  method Sum(t: Tensor, dim: int, keepdim: bool) returns (r: Tensor?)
    requires t.Valid()
    ensures r == null <==> !(-(t.ndim as int) <= dim < t.ndim)
    ensures r != null ==> fresh(r) && fresh(r.shape) && fresh(r.data) && r.Valid()
    ensures r != null ==>
      var d := Axis(dim, t.ndim);
      && r.data[..] == SumAxis(t.Shape(), t.data[..], d)
      && (keepdim || t.ndim < 2 ==> r.Shape() == t.Shape()[d := 1])
      && (!keepdim && 2 <= t.ndim ==> r.Shape() == t.Shape()[..d] + t.Shape()[d + 1..])
  {
    if dim < -(t.ndim as int) || t.ndim <= dim {
      return null;
    }
    var d: nat := if dim >= 0 then dim else dim + t.ndim;
    assert d == Axis(dim, t.ndim);
    ghost var s := t.Shape();
    r := SumKeep(t, d);
    if !keepdim {
      DropAxis(r, d);
      if 2 <= t.ndim {
        UnitAxisRemoved(s, d);
      }
    }
  }

  /** The `squeeze` call at the end of `sum`: the unit axis `d` disappears unless
      the tensor has rank 1, and the elements are untouched. */
  method DropAxis(r: Tensor, d: nat)
    requires r.Valid() && d < r.ndim && r.shape[d] == 1
    modifies r, r.shape
    ensures r.Valid() && r.shape == old(r.shape) && r.data == old(r.data)
    ensures r.data[..] == old(r.data[..])
    ensures 2 <= old(r.ndim) ==> r.Shape() == old(r.Shape()[..d] + r.Shape()[d + 1..])
    ensures old(r.ndim) < 2 ==> r.Shape() == old(r.Shape())
  {
    ghost var kept := r.Shape();
    ghost var buffer := r.shape[..];
    var ok := r.Squeeze(d);
    assert ok;
    if r.ndim == old(r.ndim) {
      assert r.shape[..] == buffer;
      assert r.Shape() == buffer[..r.ndim] == kept;
    }
  }

  /** Removing an axis after setting its extent to 1 removes the original extent. */
  lemma UnitAxisRemoved(s: seq<int>, d: nat)
    requires d < |s|
    ensures s[d := 1][..d] + s[d := 1][d + 1..] == s[..d] + s[d + 1..]
  {
    assert s[d := 1][..d] == s[..d] && s[d := 1][d + 1..] == s[d + 1..];
  }

  /** `sum` up to the optional squeeze: a new tensor of the input's shape with
      extent 1 at `d`, holding the sums over axis `d`. */
  method SumKeep(t: Tensor, d: nat) returns (r: Tensor)
    requires t.Valid() && d < t.ndim
    ensures fresh(r) && fresh(r.shape) && fresh(r.data) && r.Valid()
    ensures r.Shape() == t.Shape()[d := 1] && r.shape.Length == t.ndim
    ensures r.data[..] == SumAxis(t.Shape(), t.data[..], d)
  {
    var shape := t.shape[..t.ndim][d := 1];
    ProductUnitAt(t.Shape(), d);
    r := new Tensor.Alloc(shape);
    FillSum(t.shape, t.ndim, t.data, r.data, d);
  }

  /** The body of `sum` between allocation and squeezing: the products of the
      extents before and after `d`, the schedule chosen from the position of
      `d`, and the accumulation loops writing into `out`. */
  method FillSum(shape: array<int>, ndim: nat, data: array<int>, out: array<int>, d: nat)
    requires d < ndim <= shape.Length && Positive(shape[..ndim]) && data.Length == Product(shape[..ndim])
    requires out != data && out != shape && out.Length == Product(shape[..ndim][d := 1])
    modifies out
    ensures out[..] == SumAxis(shape[..ndim], data[..], d)
  {
    ghost var s := shape[..ndim];
    ProductUnitAt(s, d);
    assert s[..d] == shape[..d] && s[d + 1..] == shape[d + 1..ndim];
    var mprev := ProductRange(shape, 0, d);
    var mnext := ProductRange(shape, d + 1, ndim);

    var stride, nstride := mnext, shape[d];
    var step, nstep := 0, 0;
    if d == ndim - 1 {
      step, nstep := shape[d], mprev;
    } else {
      step, nstep := 1, mnext;
    }
    var shift, nshift := 0, 1;
    if 0 < d && d < ndim - 1 {
      shift, nshift := mnext * shape[d], mprev;
    }

    ProductSplit(s, d);
    ProductPositive(s[..d]);
    ProductPositive(s[d + 1..]);
    if d == ndim - 1 {
      assert s[d + 1..] == [];
    }
    if d == 0 {
      assert s[..d] == [];
    }
    ScheduleCovers(data[..], mprev, shape[d], mnext, d == 0, d == ndim - 1);
    Accumulate(data, out, Reduced(data[..], mprev, shape[d], mnext),
               stride, nstride, step, nstep, shift, nshift);
  }

  /** The running products of `sum`: the product of the extents `a[lo..hi]`. */
  method ProductRange(a: array<int>, lo: nat, hi: nat) returns (p: int)
    requires lo <= hi <= a.Length
    ensures p == Product(a[lo..hi])
  {
    p := 1;
    var i := lo;
    while i < hi
      invariant lo <= i <= hi && p == Product(a[lo..i])
    {
      assert a[lo..i + 1][..i - lo] == a[lo..i];
      p := p * a[i];
      i := i + 1;
    }
  }

  /** `sumall`: a new rank-1 tensor of one element holding the sum of every
      element of `t`. */
  method SumAll(t: Tensor) returns (r: Tensor)
    requires t.Wellformed()
    ensures fresh(r) && fresh(r.shape) && fresh(r.data) && r.Valid() && r.Shape() == [1]
    ensures r.data[..] == [SumAlong(t.data[..], 0, 1, t.nelem)]
  {
    r := new Tensor.Alloc([1]);
    var acc := 0;
    var i := 0;
    while i < t.nelem
      invariant 0 <= i <= t.nelem && acc == SumAlong(t.data[..], 0, 1, i)
    {
      acc := acc + t.data[i];
      i := i + 1;
    }
    r.data[0] := acc;
  }

  /** `max`: false for an empty tensor; otherwise an element of `t` that no
      element exceeds. */
  method MaxScan(t: Tensor) returns (ok: bool, m: int)
    requires t.Wellformed()
    ensures ok <==> 1 <= t.nelem
    ensures ok ==> (exists i :: 0 <= i < t.nelem && t.data[i] == m) && forall i :: 0 <= i < t.nelem ==> t.data[i] <= m
  {
    if t.nelem < 1 {
      return false, 0;
    }
    m := t.data[0];
    var i := 1;
    ghost var at := 0;
    while i < t.nelem
      invariant 1 <= i <= t.nelem && 0 <= at < i && t.data[at] == m
      invariant forall j :: 0 <= j < i ==> t.data[j] <= m
    {
      if t.data[i] > m {
        m := t.data[i];
        at := i;
      }
      i := i + 1;
    }
    return true, m;
  }

  /** `min`: false for an empty tensor; otherwise an element of `t` that no
      element undercuts. */
  method MinScan(t: Tensor) returns (ok: bool, m: int)
    requires t.Wellformed()
    ensures ok <==> 1 <= t.nelem
    ensures ok ==> (exists i :: 0 <= i < t.nelem && t.data[i] == m) && forall i :: 0 <= i < t.nelem ==> m <= t.data[i]
  {
    if t.nelem < 1 {
      return false, 0;
    }
    m := t.data[0];
    var i := 1;
    ghost var at := 0;
    while i < t.nelem
      invariant 1 <= i <= t.nelem && 0 <= at < i && t.data[at] == m
      invariant forall j :: 0 <= j < i ==> m <= t.data[j]
    {
      if t.data[i] < m {
        m := t.data[i];
        at := i;
      }
      i := i + 1;
    }
    return true, m;
  }
}
