# tensor.c — a verified model of the tensor core

This project models the core of the small C tensor library `tensor.c` in
Dafny and proves properties of that model. The library's tensor is a record
holding:

- a rank `ndim` (a `uint8_t`);
- a heap buffer of `uint16_t` extents;
- an element count `nelem` (a `uint32_t`);
- a flat row-major buffer of `float` elements.

The operations covered are:

- allocation;
- the in-place shape edits `squeeze`, `unsqueeze` and `reshape`;
- NumPy-style right-aligned `broadcast` of two shapes;
- the element-wise engine `ewop` behind `add` and `mul`;
- the axis reduction `sum` with its three nested loops;
- the flat scans `sumall`, `max` and `min`.

Modules:

- `Arith`: helper facts about multiplication, division and remainder.
- `Shapes`:
  - element counts: the exact product, and the two count loops the source writes out;
  - broadcasting of two shapes, as values.
- `Layout`:
  - the row-major layout: ravel and unravel;
  - the specification of an axis reduction (`Reduced`);
  - the broadcast source index (`SourceIndex`), i.e. where NumPy broadcasting reads an operand element.
- `Tensors`: class `Tensor`, whose fields the shape operations update in place.
  - The extents live in an `array<int>` whose length can exceed `ndim`, because `squeeze` shortens the rank without reallocating.
  - `Valid()` is the allocation invariant: rank at least 1; extents in 1..65535; `nelem` the product of the extents, positive and below 2^32.
- `Elementwise`: `broadcast`, the engine `ewop` as written, and a corrected engine with true broadcasting.
- `Reduction`: `sum`, proved against `SumAxis`; also `sumall`, `max` and `min`.

Where the library's own header and `tensor.c` disagree, the model follows
`tensor.c`. The header declares 32-bit extents and a 32-bit rank, while
`tensor.c` uses `uint16_t` extents and `uint8_t` ranks.

The model follows the code where a reader might expect otherwise:

- `squeeze` returns NULL on a non-unit axis (tensor.c:96); it is not a no-op.
- `sum` returns NULL for an out-of-range `dim` (tensor.c:262); it does not abort. The disabled test at test.c:170-178 expects an abort.
- There are no strides.

## Model

| member | source | states |
|---|---|---|
| Tensors.Tensor.Alloc | tensor.c:6-31 | The new tensor has the given rank and extents copied into a fresh shape buffer, and `nelem` equals the product of the extents. `Valid()` is established. |
| Shapes.AllocCountIsProduct | tensor.c:20-21 | The count loop with its restart-from-1 rule computes the exact product of the extents for any non-empty list of positive extents. |
| Shapes.AllocCountEmpty | tensor.c:20-21 | With no extents the count loop yields 0, although the product of no extents is 1. |
| Shapes.ProductSplit | tensor.c:273-275 | The element count is the product of the extents before `d`, the extent at `d` and the product of the extents after `d`. This is why `mprev * shape[d] * mnext == nelem`. |
| Tensors.Tensor.Squeeze | tensor.c:94-101 | Returns false (NULL) exactly when the extent at `dim` is not 1. A rank-1 tensor, or a `dim` past the rank, is left as is. Otherwise the rank drops by one, the extents are those of the old shape with entry `dim` removed, and the stale last slot of the buffer keeps its value. Data and `nelem` never change, and `Valid()` is preserved. |
| Tensors.Tensor.ShiftLeft | tensor.c:98 | After the shift loop, the buffer is its old prefix before `dim`, then the old entries `dim+1..len`, then the old tail from `len-1` on (the last entry duplicated). |
| Shapes.ProductRemoveUnit | tensor.c:97-99 | Removing an extent of 1 keeps the element count, so `Valid()` survives `squeeze`. |
| Tensors.Tensor.Unsqueeze | tensor.c:103-116 | For `dim` at most the rank, a fresh buffer holds the old extents with a 1 inserted at `dim`, and the rank grows by one. A larger `dim` leaves the tensor unchanged. Data, `nelem` and `Valid()` are preserved. |
| Tensors.Tensor.CopyWithUnit | tensor.c:107-111 | The two copy loops produce the old extents `[..dim] + [1] + [dim..]` in a buffer one longer. |
| Shapes.ProductInsertUnit | tensor.c:109-112 | Inserting an extent of 1 keeps the element count. |
| Tensors.UnsqueezeThenSqueeze | tensor.c:94-116 | Squeezing the axis that `unsqueeze` just inserted succeeds and restores the rank, the extents, the data and the count. |
| Tensors.Tensor.ReshapeAsWritten | tensor.c:123-131 | Reshape as written succeeds exactly when `nelem` equals the target count accumulated in a `uint8_t`. On success the rank becomes the target's and the leading extents are overwritten; otherwise nothing changes. |
| Shapes.ByteCountSmall | tensor.c:125-127 | The `uint8_t` count equals the true product whenever that product is below 256. |
| Shapes.ByteCountMisjudges | tensor.c:125-127 | Shape [16,16] (256 elements) counts as 0, and shape [262] counts as 6. |
| Tensors.Tensor.Reshape | tensor.c:123-131 | Corrected reshape. It compares `nelem` with the exact product of the target's extents, and refuses zero extents. The target rank is at most the `uint8_t` maximum; a target longer than the shape buffer gets a fresh buffer instead of being copied past its end. It succeeds exactly when the target is non-empty, all its extents are positive and their product is `nelem`. On success the rank and extents become the target's, and a buffer that was long enough keeps its tail. On failure nothing changes. `Valid()` holds either way. |
| Tensors.ReshapeExample | test.c:65-70 | A fresh [6] tensor reshapes to [2,3], keeping 6 elements. |
| Shapes.AllocCountZeroRestart | tensor.c:126 | With a zero extent, the restart-from-1 rule shared by the count loops of `tensor_alloc` (tensor.c:21) and `reshape` counts [0,6] as 6, although the product is 0. |
| Elementwise.Broadcast | tensor.c:60-92 | The result rank is nonzero exactly when some operand has rank at least 1 and every right-aligned pair of extents is equal or contains a 1. On success it returns the larger rank and both shapes left-padded with 1s to that rank. |
| Elementwise.PadMatches | tensor.c:74-84 | A shape built extent by extent as the loop builds it (1 below the offset, the operand's extent after it) equals the right-aligned padded shape. |
| Shapes.BroadcastShapeCovers | tensor.c:330-336 | For broadcastable shapes, each padded operand broadcasts to the element-wise maximum shape, and that shape keeps positive `uint16_t` extents. |
| Shapes.ProductPad | tensor.c:74-84 | Padding a shape with leading 1s keeps its element count. |
| Shapes.BroadcastSymmetric | tensor.c:60-92 | Broadcastability and the broadcast shape do not depend on the operand order. |
| Shapes.BroadcastSelf | tensor.c:60-92 | Every shape broadcasts with itself to itself. |
| Elementwise.MaxShape | tensor.c:333-336 | Each result extent is at least both aligned extents and equal to one of them. |
| Elementwise.AllocBroadcast | tensor.c:326-341 | Returns NULL exactly when the shapes do not broadcast. Otherwise it returns a fresh valid tensor of the broadcast shape, together with the padded operand shapes, which broadcast to it and keep the operands' counts. |
| Elementwise.FillModulus | tensor.c:343-362 | Every output element `k` is `op` applied to `x[k % x.Length]` and `y[k % y.Length]`. |
| Elementwise.EwOp | tensor.c:323-367 | Element-wise operation as written. It returns NULL exactly when the shapes do not broadcast. Otherwise it returns a fresh valid tensor of the broadcast shape, and its element `k` combines `a[k % a.nelem]` with `b[k % b.nelem]`. |
| Elementwise.Add | tensor.c:369-371 | `add`: the result of EwOp with addition, stated element by element. |
| Elementwise.Mul | tensor.c:373-375 | `mul`: the result of EwOp with multiplication, stated element by element. |
| Layout.ModulusMisreads | tensor.c:343-346 | For output shape [2,3] and an operand of aligned shape [2,1], output position 1, which is (0,1), pairs with operand element 0 under broadcasting, but `1 % 2` reads element 1, which is (1,0). |
| Layout.SourceIndexLeading | tensor.c:343-346 | When an operand's aligned shape is 1s followed by the output's trailing extents, the broadcast source index is `k % nelem`. |
| Elementwise.ModulusAgreesOnLeadingBroadcast | tensor.c:343-346 | When both operands broadcast only along leading axes, the modulus indexing of `ewop` reads the same elements as true broadcasting. |
| Elementwise.BroadcastEwOp | tensor.c:323-367 | Corrected element-wise operation. It returns NULL exactly when the shapes do not broadcast. Otherwise result element `k` combines the operand elements at `SourceIndex`, and both indices lie inside the operands. |
| Elementwise.FillBroadcast | tensor.c:343-362 | The element loop writes, at every output position, `op` of the operand elements `SourceIndex` selects, and those indices are in bounds. |
| Layout.SourceIndexBound | tensor.c:345-346 | The broadcast source index of every output position lies below the operand's element count. |
| Layout.SourceIndexMeaning | tensor.c:345-346 | Unravelling the source index gives the output's multi-index with every broadcast axis set to 0. |
| Layout.SourceIndexIsRavel | tensor.c:345-346 | The source index is the ravel of that projected multi-index (the NumPy rule). |
| Layout.SourceIndexOnes | tensor.c:345-346 | An operand whose aligned extents are all 1 is always read at position 0. |
| Layout.RavelUnravel | tensor.c:343-346 | Ravelling the multi-index of any flat position below the count gives the position back. |
| Layout.UnravelRavel | tensor.c:343-346 | Any in-range multi-index ravels to a position below the count, and unravels back to itself. |
| Reduction.Axis | tensor.c:262-263 | For `dim` in `[-ndim, ndim)`, the axis is below the rank and equals `dim` or `dim + ndim`. |
| Reduction.Sum | tensor.c:260-320 | Returns NULL exactly when `dim` is outside `[-ndim, ndim)`. Otherwise it returns a fresh valid tensor whose elements are `SumAxis` of the input along the resolved axis. With `keepdim`, or for rank 1, the shape is the input's with extent 1 at that axis; otherwise the axis is removed. |
| Reduction.SumKeep | tensor.c:263-271 | The tensor allocated before the loops has the input's shape with extent 1 at `d` and holds `SumAxis`. |
| Shapes.ProductUnitAt | tensor.c:265-269 | Setting extent `d` to 1 gives count `mprev * mnext`, which is at most the input's count, so the result fits in `uint32_t`. |
| Reduction.FillSum | tensor.c:273-310 | The products before and after `d`, the schedule chosen from the position of `d`, and the three loops together fill the result with exactly `SumAxis`. |
| Reduction.ProductRange | tensor.c:273-275 | The `mprev`/`mnext` loops compute the product of the extents in the given range. |
| Reduction.ScheduleSlot | tensor.c:277-293 | For each of the three schedules (last axis, first axis, middle axis), slot `shifti * nstep + stepi` of the specification is the sum of `nstride` elements `stride` apart from `shifti * shift + stepi * step`. |
| Reduction.ScheduleCovers | tensor.c:277-310 | `nshift * nstep` equals the result count, and every pass writes the slots the specification prescribes. |
| Reduction.Accumulate | tensor.c:295-310 | The `shifti` loop fills the destination with exactly the wanted sums, slot by slot, in order. |
| Reduction.Steps | tensor.c:298-309 | One `stepi` pass writes the next `nstep` slots and keeps the earlier ones. |
| Reduction.SumStrided | tensor.c:300-305 | The innermost loop returns the sum of `count` elements `stride` apart from `base`. |
| Layout.SlotBase | tensor.c:297-307 | Every element the reduction reads for a result slot lies inside a buffer of `outer * n * inner` elements. |
| Layout.ReducedAt | tensor.c:297-307 | Result slot `o * inner + i` is the sum of the input elements `o * n * inner + j * inner + i` for `j < n`. |
| Reduction.SumAxis | tensor.c:265-275 | The reduced buffer has `mprev * mnext` elements. |
| Reduction.DropAxis | tensor.c:312-317 | The closing `squeeze` always succeeds on the unit axis. It removes that axis unless the rank is 1, and leaves the elements untouched. |
| Reduction.UnitAxisRemoved | tensor.c:312-317 | Removing axis `d` after setting it to 1 gives the input shape without axis `d`. |
| Reduction.SumAxisExamples | test.c:118-168 | Shape [2,3] holding 1..6: axis 0 sums to [5,7,9], axis 1 to [6,15], and axis -1 resolves to axis 1. |
| Reduction.ReducedExamples | test.c:118-168 | The same two examples at the level of the outer/n/inner reduction. |
| Reduction.ReducedColumns | test.c:118-134 | Summing the 2 rows of 3 gives [1+4, 2+5, 3+6]. |
| Reduction.ReducedRows | test.c:136-168 | Summing each row of 3 gives [1+2+3, 4+5+6]. |
| Reduction.SumAxisRank4Example | test.c:193-199 | Shape [2,3,2,4] holding 1..48 has 48 elements; summing axis 1 gives 16 slots, the first being 1+9+17 = 27. |
| Reduction.SumAxisRank4Axis0 | test.c:185-191 | Summing axis 0 of the same tensor gives 24 slots, the first being 1+25 = 26. |
| Reduction.SumAxisRank4Axis2 | test.c:201-207 | Summing axis 2 gives 24 slots beginning [6, 8, 10, 12], with slot 4 equal to 22. |
| Reduction.Rank4Axis2Slots | test.c:201-207 | The first five slots of the outer/n/inner reduction for axis 2 are 6, 8, 10, 12, 22. |
| Reduction.SumAxisRank4Axis3 | test.c:209-215 | Summing axis 3 gives 12 slots; the first is 1+2+3+4 = 10 and the last 45+46+47+48 = 186. |
| Reduction.Rank4Products | test.c:181-182 | The element counts of [2,3,2,4] and its leading and trailing slices (48, 2, 6, 12, 4, 8, 24). |
| Reduction.SumAll | tensor.c:133-141 | Returns a fresh valid tensor of shape [1] holding the sum of all elements. |
| Reduction.SumAllExample | test.c:103-116 | The elements 1..6 sum to 21. |
| Reduction.MaxScan | tensor.c:46-51 | Fails exactly for an empty tensor. Otherwise it returns an element of the tensor that no element exceeds. |
| Reduction.MinScan | tensor.c:53-58 | Fails exactly for an empty tensor. Otherwise it returns an element of the tensor that no element undercuts. |

## Left out

- Elements are exact integers, not `float`: rounding, NaN and the order dependence of float sums are not modelled.
- Out-of-memory `malloc` failures are not modelled. Allocation always succeeds, and the NULL returns they cause are absent. The buffers freed by `ewop`, `broadcast` and `sum`, and `tensor_free`, are not modelled either (the model has garbage collection).
- NULL tensor and NULL shape arguments are excluded by the types. The NULL returns for them are not modelled.
- `transpose` is a stub that returns its argument (tensor.c:118-121). Strides and contiguity do not exist in `tensor.c`, so they are not part of this model.
- `dot`, `fill`, the printers and the debug helpers (the rest of `tensor.c`, `debug.c`) are not part of this model.
- `ewop`'s `default:` branch for an unknown operation code cannot arise, because `Op` has exactly the two constructors.
- Zero extents are excluded by `Valid()`. `tensor_alloc` accepts them, and its count loop then restarts from 1 after a zero. `AllocCount` models that rule, but the tensors the model builds have positive extents only. The corrected `Reshape` refuses a zero extent in its target.
- Tensors.Tensor.ReshapeAsWritten: requires the target rank to be at most the length of the shape buffer. When the target is longer, the `memcpy` at tensor.c:129 writes past the end of the buffer, which is undefined behaviour in C; the as-written member does not model it. `Alloc` and `Unsqueeze` size the buffer to the rank, so reshaping to a higher rank (a fresh [6] to [2,3]) is only modelled by the corrected `Reshape`.
- Tensors.Tensor.Alloc: requires rank 1..255, extents in 1..65535 and a product below 2^32. The model does not describe the `uint32_t` wrap-around of larger products, nor rank 0.
- Tensors.Tensor.Squeeze: requires `dim` inside the shape buffer, because the source reads `shape[dim]` before comparing `dim` with the rank. An index beyond the buffer is undefined behaviour in C.
- Tensors.Tensor.Unsqueeze: requires the rank to be below 255, since the `uint8_t` rank would wrap. It does not model freeing the old shape buffer (tensor.c:113); the model drops the reference.
- Elementwise.EwOp, Elementwise.BroadcastEwOp, Elementwise.Add, Elementwise.Mul: require the broadcast count to be below 2^32. The `uint32_t` wrap-around of larger counts is not modelled.
- Reduction.Sum: `dim` is an unbounded `int` rather than an `int16_t`. This changes nothing for ranks up to 255.
- Reduction.SumAll, Reduction.MaxScan, Reduction.MinScan: the loops are modelled; the NULL checks for missing buffers are not.

## Findings

| source | as written | input that shows it | evidently intended | confidence | as-written member | corrected member |
|---|---|---|---|---|---|---|
| tensor.c:125-127 | `reshape` accumulates the target's element count in a `uint8_t`, so it compares `nelem` with the count modulo 256. | A 256-element tensor of shape [256] cannot be reshaped to [16,16] (the count is 0). A tensor of 6 elements accepts the target [262] (the count is 6), which gives it a shape with 262 elements. | Compare `nelem` with the exact element count of the target: the exact product of its extents, with zero extents refused (the restart-from-1 rule of the count loop miscounts them, as `Shapes.AllocCountZeroRestart` shows). | high, not executed | Tensors.Tensor.ReshapeAsWritten (with Shapes.ByteCountMisjudges) | Tensors.Tensor.Reshape |
| tensor.c:343-346 | `ewop` reads operand element `k % nelem` for output position `k`. | `add` of shape [2,3] and shape [2,1]: output (0,1), flat 1, reads operand flat 1 = (1,0) instead of (0,0). | Read the operand at the output's multi-index with broadcast axes set to 0. This agrees with `k % nelem` when broadcasting extends only leading axes (`Elementwise.ModulusAgreesOnLeadingBroadcast`); `Layout.ModulusMisreads` shows a case where it does not. | medium, not executed | Elementwise.EwOp (with Layout.ModulusMisreads) | Elementwise.BroadcastEwOp |
