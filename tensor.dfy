/** Tensor storage and the operations that edit a tensor's shape in place. */
module Tensors {
  import opened Shapes

  /** An N-dimensional tensor: `ndim` extents at the front of the `shape`
      buffer, `nelem` elements in `data`. The shape buffer may be longer than
      `ndim`: squeezing shortens the rank without reallocating. Elements are
      exact integers. */
  class Tensor {
    var ndim: nat
    var shape: array<int>
    var nelem: nat
    var data: array<int>

    /** The layout facts every operation relies on to stay in bounds. */
    ghost predicate Wellformed()
      reads this
    {
      ndim <= shape.Length <= MaxRank && data.Length == nelem && shape != data
    }

    /** A tensor as allocation makes it: rank at least 1, positive uint16_t
        extents, and `nelem` the uint32_t product of the extents (so at least
        one element). */
    ghost predicate Valid()
      reads this, shape
    {
      && Wellformed()
      && 1 <= ndim
      && Extents(shape[..ndim])
      && nelem == Product(shape[..ndim])
      && 0 < nelem < CountLimit
    }

    ghost function Shape(): seq<int>
      reads this, shape
      requires ndim <= shape.Length
    {
      shape[..ndim]
    }

    /** `tensor_alloc`: copies the rank and the extents and counts the elements
        with the source's loop. The buffer's contents are left unspecified, as
        `malloc` leaves them. */
    constructor Alloc(dims: seq<int>)
      requires 1 <= |dims| <= MaxRank && Extents(dims) && Product(dims) < CountLimit
      ensures Valid() && fresh(shape) && fresh(data)
      ensures ndim == |dims| && shape.Length == |dims| && Shape() == dims
      ensures nelem == Product(dims)
    {
      var count := 0;
      var i := 0;
      while i < |dims|
        invariant 0 <= i <= |dims|
        invariant count == AllocCount(dims[..i])
      {
        assert dims[..i + 1][..i] == dims[..i];
        count := CountStep(count, dims[i]);
        i := i + 1;
      }
      assert dims[..i] == dims;
      AllocCountIsProduct(dims);
      ProductPositive(dims);
      ndim := |dims|;
      shape := new int[|dims|](j requires 0 <= j < |dims| => dims[j]);
      nelem := count;
      data := new int[count];
      new;
      assert shape[..ndim] == dims;
    }

    /** `squeeze`: a non-unit entry at `dim` refuses (NULL); a rank-1 tensor or
        an index past the rank is returned unchanged; otherwise the entries after
        `dim` shift left by one and the rank drops. The entry at `dim` is read
        before the rank check, so `dim` must be inside the shape buffer. */
    method Squeeze(dim: nat) returns (ok: bool)
      requires Valid() && dim < shape.Length
      modifies this, shape
      ensures Valid() && shape == old(shape) && data == old(data) && nelem == old(nelem)
      ensures data[..] == old(data[..])
      ensures ok <==> old(shape[dim]) == 1
      ensures ok && dim < old(ndim) && 2 <= old(ndim) ==>
        && ndim == old(ndim) - 1
        && Shape() == old(Shape()[..dim] + Shape()[dim + 1..])
        && shape[ndim..] == old(shape[ndim - 1..])
      ensures !(ok && dim < old(ndim) && 2 <= old(ndim)) ==>
        ndim == old(ndim) && shape[..] == old(shape[..])
    {
      if shape[dim] != 1 {
        return false;
      }
      if dim >= ndim || ndim < 2 {
        return true;
      }
      ghost var dims := Shape();
      ghost var before := shape[..];
      ShiftLeft(shape, dim, ndim);
      ndim := ndim - 1;
      assert shape[..] == before[..dim] + before[dim + 1..ndim + 1] + before[ndim..];
      assert Shape() == dims[..dim] + dims[dim + 1..];
      assert shape[ndim..] == before[ndim..];
      ProductRemoveUnit(dims, dim);
      return true;
    }

    /** The shift loop of `squeeze`: entries `dim + 1 .. len` of `a` move one
        place left; the last of them stays duplicated at `len - 1` and
        everything else is untouched. */
    static method ShiftLeft(a: array<int>, dim: nat, len: nat)
      requires dim < len <= a.Length
      modifies a
      ensures a[..] == old(a[..dim] + a[dim + 1..len] + a[len - 1..])
    {
      ghost var before := a[..];
      var i := dim;
      while i < len - 1
        invariant dim <= i <= len - 1
        invariant forall k :: 0 <= k < dim ==> a[k] == before[k]
        invariant forall k :: dim <= k < i ==> a[k] == before[k + 1]
        invariant forall k :: i <= k < a.Length ==> a[k] == before[k]
      {
        a[i] := a[i + 1];
        i := i + 1;
      }
      assert a[..] == before[..dim] + before[dim + 1..len] + before[len - 1..];
    }

    /** `unsqueeze`: with `dim` at most the rank, a new shape buffer one longer
        holds the extents with a 1 inserted at `dim`; a larger `dim` leaves the
        tensor unchanged. The new rank must fit the uint8_t. */
    method Unsqueeze(dim: nat)
      requires Valid() && ndim < MaxRank
      modifies this
      ensures Valid() && data == old(data) && nelem == old(nelem)
      ensures dim > old(ndim) ==> ndim == old(ndim) && shape == old(shape)
      ensures dim <= old(ndim) ==>
        && ndim == old(ndim) + 1 && fresh(shape) && shape.Length == ndim
        && Shape() == old(Shape()[..dim]) + [1] + old(Shape()[dim..])
    {
      if dim > ndim {
        return;
      }
      ghost var dims := Shape();
      var s := CopyWithUnit(shape, ndim, dim);
      ProductInsertUnit(dims, dim);
      assert Extents(s[..]);
      ndim := ndim + 1;
      shape := s;
      assert Shape() == s[..];
    }

    /** The copy loops of `unsqueeze`: a fresh buffer one longer than the first
        `len` extents of `src`, with a 1 inserted at `dim`. */
    static method CopyWithUnit(src: array<int>, len: nat, dim: nat) returns (s: array<int>)
      requires len <= src.Length && dim <= len
      ensures fresh(s) && s.Length == len + 1
      ensures s[..] == src[..len][..dim] + [1] + src[..len][dim..]
    {
      s := new int[len + 1];
      var i := 0;
      while i < dim
        modifies s
        invariant 0 <= i <= dim
        invariant forall k :: 0 <= k < i ==> s[k] == src[k]
      {
        s[i] := src[i];
        i := i + 1;
      }
      s[dim] := 1;
      i := dim;
      while i < len
        modifies s
        invariant dim <= i <= len
        invariant forall k :: 0 <= k < dim ==> s[k] == src[k]
        invariant s[dim] == 1
        invariant forall k :: dim <= k < i ==> s[k + 1] == src[k]
      {
        s[i + 1] := src[i];
        i := i + 1;
      }
      ghost var target := src[..len][..dim] + [1] + src[..len][dim..];
      forall k | 0 <= k < len + 1
        ensures s[k] == target[k]
      {
        if k > dim {
          assert s[k] == src[k - 1];
        }
      }
      assert s[..] == target;
    }

    /** `reshape` as written: the target's element count is accumulated in a
        uint8_t, so the comparison with `nelem` is against the count modulo 256
        (with the restart-from-1 rule after a zero). On a match the rank and the
        leading extents of the shape buffer are overwritten; otherwise nothing
        changes. */
    method ReshapeAsWritten(dims: seq<int>) returns (ok: bool)
      requires Wellformed() && |dims| <= shape.Length
      requires forall i :: 0 <= i < |dims| ==> 0 <= dims[i] <= MaxExtent
      modifies this, shape
      ensures Wellformed() && shape == old(shape) && data == old(data) && nelem == old(nelem)
      ensures ok <==> nelem == ByteCount(dims)
      ensures ok ==> ndim == |dims| && shape[..] == dims + old(shape[|dims|..]) && Shape() == dims
      ensures !ok ==> ndim == old(ndim) && shape[..] == old(shape[..])
    {
      var count := 0;
      var i := 0;
      while i < |dims|
        invariant 0 <= i <= |dims|
        invariant count == ByteCount(dims[..i])
      {
        assert dims[..i + 1][..i] == dims[..i];
        count := CountStep(count, dims[i]) % 256;
        i := i + 1;
      }
      assert dims[..i] == dims;
      if nelem != count {
        return false;
      }
      ndim := |dims|;
      forall j | 0 <= j < |dims| {
        shape[j] := dims[j];
      }
      assert shape[..] == dims + old(shape[|dims|..]);
      return true;
    }

    /** `reshape` corrected: `nelem` is compared with the exact product of the
        target's extents, a zero extent is refused (the count loop's
        restart-from-1 rule would miscount it), and a target longer than
        the shape buffer gets a fresh buffer instead of being copied past its
        end. The rank and extents are replaced exactly when the target has the
        same number of elements, so `Valid()` survives. */
    method Reshape(dims: seq<int>) returns (ok: bool)
      requires Valid() && |dims| <= MaxRank && forall i :: 0 <= i < |dims| ==> 0 <= dims[i] <= MaxExtent
      modifies this, shape
      ensures Valid() && data == old(data) && nelem == old(nelem)
      ensures ok <==> 1 <= |dims| && Positive(dims) && Product(dims) == nelem
      ensures ok ==> ndim == |dims| && Shape() == dims
      ensures ok && |dims| <= old(shape.Length) ==> shape == old(shape) && shape[..] == dims + old(shape[|dims|..])
      ensures ok && |dims| > old(shape.Length) ==> fresh(shape) && shape[..] == dims
      ensures !ok ==> ndim == old(ndim) && shape == old(shape) && shape[..] == old(shape[..])
    {
      var count := 0;
      var zero := false;
      var i := 0;
      while i < |dims|
        invariant 0 <= i <= |dims|
        invariant count == AllocCount(dims[..i])
        invariant zero <==> !Positive(dims[..i])
      {
        assert dims[..i + 1][..i] == dims[..i];
        assert dims[..i + 1][i] == dims[i];
        count := CountStep(count, dims[i]);
        zero := zero || dims[i] == 0;
        i := i + 1;
      }
      assert dims[..i] == dims;
      if zero || nelem != count {
        if !zero && |dims| >= 1 {
          AllocCountIsProduct(dims);
        }
        return false;
      }
      if |dims| == 0 {
        return false;
      }
      AllocCountIsProduct(dims);
      assert Extents(dims);
      if |dims| > shape.Length {
        shape := new int[|dims|](j requires 0 <= j < |dims| => dims[j]);
        ndim := |dims|;
        assert shape[..] == dims;
      } else {
        ndim := |dims|;
        forall j | 0 <= j < |dims| {
          shape[j] := dims[j];
        }
        assert shape[..] == dims + old(shape[|dims|..]);
      }
      assert Shape() == dims;
      return true;
    }
  }

  /** The disabled reshape example: a fresh [6] tensor becomes [2, 3]. */
  method ReshapeExample() returns (t: Tensor, ok: bool)
    ensures ok && t.Valid() && t.Shape() == [2, 3] && t.nelem == 6
  {
    t := new Tensor.Alloc([6]);
    assert [6][..0] == [] && [2, 3][..1] == [2] && [2][..0] == [];
    ok := t.Reshape([2, 3]);
  }

  /** Squeezing the axis that `unsqueeze` just inserted restores the rank and
      the extents. */
  method UnsqueezeThenSqueeze(t: Tensor, dim: nat) returns (ok: bool)
    requires t.Valid() && t.ndim < MaxRank && dim <= t.ndim
    modifies t
    ensures t.Valid() && ok
    ensures t.ndim == old(t.ndim) && t.Shape() == old(t.Shape())
    ensures t.data == old(t.data) && t.nelem == old(t.nelem)
  {
    ghost var dims := t.Shape();
    t.Unsqueeze(dim);
    ok := t.Squeeze(dim);
    assert t.Shape() == (dims[..dim] + [1] + dims[dim..])[..dim] + (dims[..dim] + [1] + dims[dim..])[dim + 1..];
    assert t.Shape() == dims;
  }
}
