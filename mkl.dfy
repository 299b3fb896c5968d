/** The generic (non-vendor) code paths of Elemental's MKL import layer:
    out-of-place matrix copy with optional (conjugate) transposition, over
    column-major buffers with leading dimensions and strides; the generic
    in-place copy, which is not written; and the orientation character handed
    to the sparse matrix-vector product. */
module Mkl {
  import opened Types
  import opened Results

  // ---------------------------------------------------------------------
  // Index arithmetic
  // ---------------------------------------------------------------------

  lemma MulMonotone(a: int, b: int, c: int)
    requires 0 <= a <= b && c >= 0
    ensures a * c <= b * c
  {
  }

  /** Euclidean division by `ld` recovers the row and column of a slot. */
  lemma DivModSlot(r: int, q: int, ld: int)
    requires ld >= 1 && 0 <= r < ld && q >= 0
    ensures (r + q * ld) / ld == q && (r + q * ld) % ld == r
  {
    var k := r + q * ld;
    var q', r' := k / ld, k % ld;
    assert k == q' * ld + r';
    assert 0 <= r' < ld;
    var d := q - q';
    assert d * ld == r' - r;
    if d >= 1 {
      MulMonotone(1, d, ld);
      assert false;
    } else if d <= -1 {
      MulMonotone(1, -d, ld);
      assert false;
    }
  }

  lemma MulDivMod(t: int, s: int)
    requires s >= 1 && t >= 0
    ensures (t * s) % s == 0 && (t * s) / s == t
  {
    DivModSlot(0, t, s);
  }

  /** The number of passes of a loop `for (x = 0; x < n; ++x)`. */
  function Trips(n: int): nat
  {
    if n < 0 then 0 else n
  }

  /** Slot of entry `(i, j)` in a column-major buffer whose consecutive rows are
      `stride` slots apart and whose consecutive columns are `ld` slots apart. */
  function Slot(i: int, j: int, stride: int, ld: int): int
  {
    i * stride + j * ld
  }

  /** A `rows` x `cols` window, rows `stride` apart and columns `ld` apart, lies
      inside a buffer of `len` slots and no two of its entries share a slot
      (a column fits within one leading dimension). A window with no rows or
      no columns occupies nothing. */
  predicate Layout(len: int, rows: int, cols: int, stride: int, ld: int)
  {
    && stride >= 1 && ld >= 1
    && (rows <= 0 || (rows - 1) * stride < ld)
    && (rows <= 0 || cols <= 0 || Slot(rows - 1, cols - 1, stride, ld) < len)
  }

  lemma SlotInLayout(len: int, rows: int, cols: int, stride: int, ld: int, i: int, j: int)
    requires Layout(len, rows, cols, stride, ld)
    requires 0 <= i < rows && 0 <= j < cols
    ensures 0 <= i * stride < ld
    ensures 0 <= Slot(i, j, stride, ld) < len
  {
    MulMonotone(0, i, stride);
    MulMonotone(i, rows - 1, stride);
    MulMonotone(0, j, ld);
    MulMonotone(j, cols - 1, ld);
  }

  /** Slot `k` of a buffer with leading dimension `ld` lies in the
      `rows` x `cols` window: its row is `k % ld`, its column `k / ld`. */
  predicate InWindow(k: int, rows: int, cols: int, ld: int)
    requires ld >= 1
  {
    0 <= k && k % ld < rows && k / ld < cols
  }

  lemma WindowBounds(k: int, rows: int, cols: int, ld: int)
    requires ld >= 1 && InWindow(k, rows, cols, ld)
    ensures 0 <= k % ld < rows && 0 <= k / ld < cols
  {
  }

  /** The same for rows `stride` slots apart: the row is `(k % ld) / stride`. */
  predicate InStridedWindow(k: int, rows: int, cols: int, stride: int, ld: int)
    requires stride >= 1 && ld >= 1
  {
    0 <= k && (k % ld) % stride == 0 && (k % ld) / stride < rows && k / ld < cols
  }

  lemma SlotOfStridedWindow(k: int, stride: int, ld: int)
    requires stride >= 1 && ld >= 1 && 0 <= k && (k % ld) % stride == 0
    ensures k == Slot((k % ld) / stride, k / ld, stride, ld)
  {
    var t := k % ld;
    assert t == (t / stride) * stride + t % stride;
  }

  /** The slots of the window are exactly the slots of its entries. */
  lemma {:induction false} StridedWindowSlots(k: int, rows: int, cols: int, stride: int, ld: int)
    requires stride >= 1 && ld >= 1 && (rows <= 0 || (rows - 1) * stride < ld)
    ensures InStridedWindow(k, rows, cols, stride, ld) <==>
              exists i, j :: 0 <= i < rows && 0 <= j < cols && k == Slot(i, j, stride, ld)
  {
    if InStridedWindow(k, rows, cols, stride, ld) {
      SlotOfStridedWindow(k, stride, ld);
      var i, j := (k % ld) / stride, k / ld;
      assert 0 <= i < rows && 0 <= j < cols && k == Slot(i, j, stride, ld);
    }
    if exists i, j :: 0 <= i < rows && 0 <= j < cols && k == Slot(i, j, stride, ld) {
      var i, j :| 0 <= i < rows && 0 <= j < cols && k == Slot(i, j, stride, ld);
      MulMonotone(0, i, stride);
      MulMonotone(i, rows - 1, stride);
      DivModSlot(i * stride, j, ld);
      MulDivMod(i, stride);
    }
  }

  lemma {:induction false} WindowSlots(k: int, rows: int, cols: int, ld: int)
    requires ld >= 1 && rows <= ld
    ensures InWindow(k, rows, cols, ld) <==>
              exists i, j :: 0 <= i < rows && 0 <= j < cols && k == Slot(i, j, 1, ld)
  {
    StridedWindowSlots(k, rows, cols, 1, ld);
  }

  /** Extending the done part of column `j` by entry `i` adds exactly slot `i + j * ld`. */
  lemma ExtendWindowColumn(k: int, i: int, j: int, ld: int)
    requires ld >= 1 && 0 <= i < ld && j >= 0
    ensures (0 <= k && k / ld == j && k % ld < i + 1) <==> ((0 <= k && k / ld == j && k % ld < i) || k == i + j * ld)
  {
    DivModSlot(i, j, ld);
    if 0 <= k && k / ld == j && k % ld == i {
      assert k == k % ld + (k / ld) * ld;
    }
  }

  /** The same for rows `stride` slots apart: entry `i` of column `j` is slot `i * stride + j * ld`. */
  lemma ExtendStridedWindowColumn(k: int, i: int, j: int, stride: int, ld: int)
    requires stride >= 1 && ld >= 1 && i >= 0 && i * stride < ld && j >= 0
    ensures (0 <= k && k / ld == j && (k % ld) % stride == 0 && (k % ld) / stride < i + 1) <==>
            ((0 <= k && k / ld == j && (k % ld) % stride == 0 && (k % ld) / stride < i) || k == i * stride + j * ld)
  {
    MulDivMod(i, stride);
    DivModSlot(i * stride, j, ld);
    if 0 <= k && k / ld == j && (k % ld) % stride == 0 && (k % ld) / stride == i {
      SlotOfStridedWindow(k, stride, ld);
    }
  }

  // ---------------------------------------------------------------------
  // Specification of omatcopy
  // ---------------------------------------------------------------------

  /** Height and width of the window of `B` written for an `m` x `n` source. */
  function TargetRows(orientation: Orientation, m: int, n: int): int
  {
    if orientation == Normal then m else n
  }

  function TargetCols(orientation: Orientation, m: int, n: int): int
  {
    if orientation == Normal then n else m
  }

  /** What happens to one entry on its way from `A` to `B`. */
  function Image<T>(orientation: Orientation, conj: T -> T, x: T): T
  {
    if orientation == ConjugateTranspose then conj(x) else x
  }

  /** Every entry of the `rows` x `cols` window lies inside a buffer of `len`
      slots, for strides and leading dimensions of any sign; this is all a
      buffer that is only read needs. A slot is affine in the row and the
      column, so it suffices that the four corners are in the buffer
      (`ReadsInBoundsEverywhere`). */
  predicate ReadsInBounds(len: int, rows: int, cols: int, stride: int, ld: int)
  {
    || rows <= 0 || cols <= 0
    || (&& 0 < len
        && 0 <= Slot(rows - 1, 0, stride, ld) < len
        && 0 <= Slot(0, cols - 1, stride, ld) < len
        && 0 <= Slot(rows - 1, cols - 1, stride, ld) < len)
  }

  /** `i * c` lies between `0` and `top * c` for `0 <= i <= top`, whatever the sign of `c`. */
  lemma MulBetween(i: int, top: int, c: int)
    requires 0 <= i <= top
    ensures c >= 0 ==> 0 <= i * c <= top * c
    ensures c < 0 ==> top * c <= i * c <= 0
  {
    if c >= 0 {
      MulMonotone(0, i, c);
      MulMonotone(i, top, c);
    } else {
      MulMonotone(0, i, -c);
      MulMonotone(i, top, -c);
    }
  }

  lemma SlotInBounds(len: int, rows: int, cols: int, stride: int, ld: int, i: int, j: int)
    requires ReadsInBounds(len, rows, cols, stride, ld)
    requires 0 <= i < rows && 0 <= j < cols
    ensures 0 <= Slot(i, j, stride, ld) < len
  {
    MulBetween(i, rows - 1, stride);
    MulBetween(j, cols - 1, ld);
  }

  /** The corner condition says exactly that every slot of the window is in the buffer. */
  lemma ReadsInBoundsEverywhere(len: int, rows: int, cols: int, stride: int, ld: int)
    ensures ReadsInBounds(len, rows, cols, stride, ld) <==>
            forall i, j :: 0 <= i < rows && 0 <= j < cols ==> 0 <= Slot(i, j, stride, ld) < len
  {
    if ReadsInBounds(len, rows, cols, stride, ld) {
      forall i, j | 0 <= i < rows && 0 <= j < cols
        ensures 0 <= Slot(i, j, stride, ld) < len
      {
        SlotInBounds(len, rows, cols, stride, ld, i, j);
      }
    } else {
      assert 0 <= Slot(0, 0, stride, ld) < len ==>
             !(0 <= Slot(rows - 1, 0, stride, ld) < len &&
               0 <= Slot(0, cols - 1, stride, ld) < len &&
               0 <= Slot(rows - 1, cols - 1, stride, ld) < len);
    }
  }

  /** `A` is read only, so its window need only be in bounds. `B` follows the
      BLAS layout, so that slot `k` of its window decodes to one entry. */
  predicate OmatcopyLayout(orientation: Orientation, m: int, n: int,
                           lenA: int, ALDim: int, stridea: int,
                           lenB: int, BLDim: int, strideb: int)
  {
    && ReadsInBounds(lenA, m, n, stridea, ALDim)
    && Layout(lenB, TargetRows(orientation, m, n), TargetCols(orientation, m, n), strideb, BLDim)
  }

  /** Entry `(i, j)` of the `m` x `n` source. */
  ghost function SourceEntry<T>(A: seq<T>, m: int, n: int, stride: int, ALDim: int, i: int, j: int): T
    requires ReadsInBounds(|A|, m, n, stride, ALDim) && 0 <= i < m && 0 <= j < n
  {
    SlotInBounds(|A|, m, n, stride, ALDim, i, j);
    A[Slot(i, j, stride, ALDim)]
  }

  /** The value a strided copy leaves in slot `k` of the written window. */
  ghost function CopiedValue<T>(orientation: Orientation, m: int, n: int, A: seq<T>, ALDim: int, stridea: int,
                                BLDim: int, strideb: int, conj: T -> T, k: int): T
    requires ReadsInBounds(|A|, m, n, stridea, ALDim) && strideb >= 1 && BLDim >= 1
    requires InStridedWindow(k, TargetRows(orientation, m, n), TargetCols(orientation, m, n), strideb, BLDim)
  {
    var row, col := (k % BLDim) / strideb, k / BLDim;
    if orientation == Normal then SourceEntry(A, m, n, stridea, ALDim, row, col)
    else Image(orientation, conj, SourceEntry(A, m, n, stridea, ALDim, col, row))
  }

  /** `B` after the strided copy of `op(A)` into it, `op` as `orientation` says. */
  ghost function OmatcopiedStrided<T>(orientation: Orientation, m: int, n: int,
                                      A: seq<T>, ALDim: int, stridea: int,
                                      B: seq<T>, BLDim: int, strideb: int, conj: T -> T): (r: seq<T>)
    requires OmatcopyLayout(orientation, m, n, |A|, ALDim, stridea, |B|, BLDim, strideb)
    ensures |r| == |B|
  {
    seq(|B|, k requires 0 <= k < |B| =>
      if InStridedWindow(k, TargetRows(orientation, m, n), TargetCols(orientation, m, n), strideb, BLDim)
      then CopiedValue(orientation, m, n, A, ALDim, stridea, BLDim, strideb, conj, k)
      else B[k])
  }

  /** The value the unstrided copy leaves in slot `k` of the written window. */
  ghost function WindowValue<T>(orientation: Orientation, m: int, n: int, A: seq<T>, ALDim: int,
                                BLDim: int, conj: T -> T, k: int): T
    requires ReadsInBounds(|A|, m, n, 1, ALDim) && BLDim >= 1
    requires InWindow(k, TargetRows(orientation, m, n), TargetCols(orientation, m, n), BLDim)
  {
    WindowBounds(k, TargetRows(orientation, m, n), TargetCols(orientation, m, n), BLDim);
    var row, col := k % BLDim, k / BLDim;
    if orientation == Normal then SourceEntry(A, m, n, 1, ALDim, row, col)
    else Image(orientation, conj, SourceEntry(A, m, n, 1, ALDim, col, row))
  }

  /** `B` after the unstrided copy: row `k % BLDim` and column `k / BLDim` of
      the window receive the matching entry of `op(A)`. */
  ghost function Omatcopied<T>(orientation: Orientation, m: int, n: int, A: seq<T>, ALDim: int,
                               B: seq<T>, BLDim: int, conj: T -> T): (r: seq<T>)
    requires OmatcopyLayout(orientation, m, n, |A|, ALDim, 1, |B|, BLDim, 1)
    ensures |r| == |B|
  {
    seq(|B|, k requires 0 <= k < |B| =>
      if InWindow(k, TargetRows(orientation, m, n), TargetCols(orientation, m, n), BLDim)
      then WindowValue(orientation, m, n, A, ALDim, BLDim, conj, k)
      else B[k])
  }

  /** Entry `(i, j)` of `A` lands at `(i, j)` of `B`, or at `(j, i)` (conjugated
      for the adjoint) when transposing. */
  lemma OmatcopiedAt<T>(orientation: Orientation, m: int, n: int, A: seq<T>, ALDim: int,
                        B: seq<T>, BLDim: int, conj: T -> T, i: int, j: int)
    requires OmatcopyLayout(orientation, m, n, |A|, ALDim, 1, |B|, BLDim, 1)
    requires 0 <= i < m && 0 <= j < n
    ensures orientation == Normal ==>
              0 <= i + j * BLDim < |B| && 0 <= i + j * ALDim < |A| &&
              Omatcopied(orientation, m, n, A, ALDim, B, BLDim, conj)[i + j * BLDim] == A[i + j * ALDim]
    ensures orientation != Normal ==>
              0 <= j + i * BLDim < |B| && 0 <= i + j * ALDim < |A| &&
              Omatcopied(orientation, m, n, A, ALDim, B, BLDim, conj)[j + i * BLDim]
                == Image(orientation, conj, A[i + j * ALDim])
  {
    SlotInBounds(|A|, m, n, 1, ALDim, i, j);
    if orientation == Normal {
      SlotInLayout(|B|, m, n, 1, BLDim, i, j);
      DivModSlot(i, j, BLDim);
    } else {
      SlotInLayout(|B|, n, m, 1, BLDim, j, i);
      DivModSlot(j, i, BLDim);
    }
  }

  /** A slot of `B` that is not the slot of any entry of the written window
      keeps its value. */
  lemma OmatcopiedElsewhere<T>(orientation: Orientation, m: int, n: int, A: seq<T>, ALDim: int,
                               B: seq<T>, BLDim: int, conj: T -> T, k: int)
    requires OmatcopyLayout(orientation, m, n, |A|, ALDim, 1, |B|, BLDim, 1)
    requires 0 <= k < |B|
    requires !exists i, j :: 0 <= i < TargetRows(orientation, m, n) && 0 <= j < TargetCols(orientation, m, n) &&
                             k == Slot(i, j, 1, BLDim)
    ensures Omatcopied(orientation, m, n, A, ALDim, B, BLDim, conj)[k] == B[k]
  {
    var rows := TargetRows(orientation, m, n);
    if rows > 0 {
      WindowSlots(k, rows, TargetCols(orientation, m, n), BLDim);
    }
  }

  /** The same two facts for the strided copy. */
  lemma OmatcopiedStridedAt<T>(orientation: Orientation, m: int, n: int, A: seq<T>, ALDim: int, stridea: int,
                               B: seq<T>, BLDim: int, strideb: int, conj: T -> T, i: int, j: int)
    requires OmatcopyLayout(orientation, m, n, |A|, ALDim, stridea, |B|, BLDim, strideb)
    requires 0 <= i < m && 0 <= j < n
    ensures orientation == Normal ==>
              0 <= i * strideb + j * BLDim < |B| && 0 <= i * stridea + j * ALDim < |A| &&
              OmatcopiedStrided(orientation, m, n, A, ALDim, stridea, B, BLDim, strideb, conj)[i * strideb + j * BLDim]
                == A[i * stridea + j * ALDim]
    ensures orientation != Normal ==>
              0 <= j * strideb + i * BLDim < |B| && 0 <= i * stridea + j * ALDim < |A| &&
              OmatcopiedStrided(orientation, m, n, A, ALDim, stridea, B, BLDim, strideb, conj)[j * strideb + i * BLDim]
                == Image(orientation, conj, A[i * stridea + j * ALDim])
  {
    SlotInBounds(|A|, m, n, stridea, ALDim, i, j);
    if orientation == Normal {
      SlotInLayout(|B|, m, n, strideb, BLDim, i, j);
      DivModSlot(i * strideb, j, BLDim);
      MulDivMod(i, strideb);
    } else {
      SlotInLayout(|B|, n, m, strideb, BLDim, j, i);
      DivModSlot(j * strideb, i, BLDim);
      MulDivMod(j, strideb);
    }
  }

  lemma OmatcopiedStridedElsewhere<T>(orientation: Orientation, m: int, n: int, A: seq<T>, ALDim: int, stridea: int,
                                      B: seq<T>, BLDim: int, strideb: int, conj: T -> T, k: int)
    requires OmatcopyLayout(orientation, m, n, |A|, ALDim, stridea, |B|, BLDim, strideb)
    requires 0 <= k < |B|
    requires !exists i, j :: 0 <= i < TargetRows(orientation, m, n) && 0 <= j < TargetCols(orientation, m, n) &&
                             k == Slot(i, j, strideb, BLDim)
    ensures OmatcopiedStrided(orientation, m, n, A, ALDim, stridea, B, BLDim, strideb, conj)[k] == B[k]
  {
    StridedWindowSlots(k, TargetRows(orientation, m, n), TargetCols(orientation, m, n), strideb, BLDim);
  }

  /** `b` with the first `cols` columns of the `rows`-row window taken from `r`:
      the state of `B` between two passes of an outer loop. */
  ghost function ColumnsCopied<T>(r: seq<T>, b: seq<T>, rows: int, cols: int, ld: int): (s: seq<T>)
    requires |r| == |b| && ld >= 1
    ensures |s| == |b|
  {
    seq(|b|, k requires 0 <= k < |b| => if InWindow(k, rows, cols, ld) then r[k] else b[k])
  }

  ghost function StridedColumnsCopied<T>(r: seq<T>, b: seq<T>, rows: int, cols: int, stride: int, ld: int): (s: seq<T>)
    requires |r| == |b| && stride >= 1 && ld >= 1
    ensures |s| == |b|
  {
    seq(|b|, k requires 0 <= k < |b| => if InStridedWindow(k, rows, cols, stride, ld) then r[k] else b[k])
  }

  /** Before the first column nothing has been copied. */
  lemma NoColumnsCopied<T>(r: seq<T>, b: seq<T>, rows: int, stride: int, ld: int)
    requires |r| == |b| && stride >= 1 && ld >= 1
    ensures ColumnsCopied(r, b, rows, 0, ld) == b
    ensures StridedColumnsCopied(r, b, rows, 0, stride, ld) == b
  {
    var s, t := ColumnsCopied(r, b, rows, 0, ld), StridedColumnsCopied(r, b, rows, 0, stride, ld);
    forall k | 0 <= k < |b|
      ensures s[k] == b[k] && t[k] == b[k]
    {
      assert k / ld >= 0;
    }
  }

  /** After the last column of the window, `B` is the closed form. */
  lemma OmatcopiedComplete<T>(orientation: Orientation, m: int, n: int, A: seq<T>, ALDim: int,
                              b: seq<T>, BLDim: int, conj: T -> T)
    requires OmatcopyLayout(orientation, m, n, |A|, ALDim, 1, |b|, BLDim, 1)
    ensures var r := Omatcopied(orientation, m, n, A, ALDim, b, BLDim, conj);
            ColumnsCopied(r, b, TargetRows(orientation, m, n), Trips(TargetCols(orientation, m, n)), BLDim) == r
  {
    var r := Omatcopied(orientation, m, n, A, ALDim, b, BLDim, conj);
    var s := ColumnsCopied(r, b, TargetRows(orientation, m, n), Trips(TargetCols(orientation, m, n)), BLDim);
    forall k | 0 <= k < |b|
      ensures s[k] == r[k]
    {
    }
  }

  lemma OmatcopiedStridedComplete<T>(orientation: Orientation, m: int, n: int, A: seq<T>, ALDim: int, stridea: int,
                                     b: seq<T>, BLDim: int, strideb: int, conj: T -> T)
    requires OmatcopyLayout(orientation, m, n, |A|, ALDim, stridea, |b|, BLDim, strideb)
    ensures var r := OmatcopiedStrided(orientation, m, n, A, ALDim, stridea, b, BLDim, strideb, conj);
            StridedColumnsCopied(r, b, TargetRows(orientation, m, n), Trips(TargetCols(orientation, m, n)), strideb, BLDim) == r
  {
    var r := OmatcopiedStrided(orientation, m, n, A, ALDim, stridea, b, BLDim, strideb, conj);
    var s := StridedColumnsCopied(r, b, TargetRows(orientation, m, n), Trips(TargetCols(orientation, m, n)), strideb, BLDim);
    forall k | 0 <= k < |b|
      ensures s[k] == r[k]
    {
    }
  }

  /** With unit strides the strided copy is the unstrided one. */
  lemma UnitStridesCoincide<T>(orientation: Orientation, m: int, n: int, A: seq<T>, ALDim: int,
                               B: seq<T>, BLDim: int, conj: T -> T)
    requires OmatcopyLayout(orientation, m, n, |A|, ALDim, 1, |B|, BLDim, 1)
    ensures OmatcopiedStrided(orientation, m, n, A, ALDim, 1, B, BLDim, 1, conj)
         == Omatcopied(orientation, m, n, A, ALDim, B, BLDim, conj)
  {
    var s := OmatcopiedStrided(orientation, m, n, A, ALDim, 1, B, BLDim, 1, conj);
    var u := Omatcopied(orientation, m, n, A, ALDim, B, BLDim, conj);
    forall k | 0 <= k < |B|
      ensures s[k] == u[k]
    {
      assert (k % BLDim) % 1 == 0 && (k % BLDim) / 1 == k % BLDim;
    }
  }

  /** Transposing (or conjugate-transposing, with `conj` an involution) twice
      gives back the source window. */
  lemma TransposeTwice<T>(orientation: Orientation, m: int, n: int, A: seq<T>, ALDim: int,
                          B: seq<T>, BLDim: int, C: seq<T>, CLDim: int, conj: T -> T, i: int, j: int)
    requires orientation != Normal
    requires forall x :: conj(conj(x)) == x
    requires OmatcopyLayout(orientation, m, n, |A|, ALDim, 1, |B|, BLDim, 1)
    requires OmatcopyLayout(orientation, n, m, |B|, BLDim, 1, |C|, CLDim, 1)
    requires 0 <= i < m && 0 <= j < n
    ensures 0 <= i + j * CLDim < |C| && 0 <= i + j * ALDim < |A|
    ensures Omatcopied(orientation, n, m, Omatcopied(orientation, m, n, A, ALDim, B, BLDim, conj), BLDim, C, CLDim, conj)
              [i + j * CLDim] == A[i + j * ALDim]
  {
    var once := Omatcopied(orientation, m, n, A, ALDim, B, BLDim, conj);
    OmatcopiedAt(orientation, m, n, A, ALDim, B, BLDim, conj, i, j);
    OmatcopiedAt(orientation, n, m, once, BLDim, C, CLDim, conj, j, i);
  }

  // ---------------------------------------------------------------------
  // omatcopy
  // ---------------------------------------------------------------------

  /** B := op(A) for the `m` x `n` column-major `A`, `op` the identity, the
      transpose or the adjoint (`conj` conjugates one entry). `alpha` is
      accepted and not used. */
  method Omatcopy<T>(orientation: Orientation, m: int, n: int, alpha: T,
                     A: array<T>, ALDim: int, B: array<T>, BLDim: int, conj: T -> T)
    requires A != B
    requires OmatcopyLayout(orientation, m, n, A.Length, ALDim, 1, B.Length, BLDim, 1)
    modifies B
    ensures B[..] == Omatcopied(orientation, m, n, A[..], ALDim, old(B[..]), BLDim, conj)
  {
    if orientation == Normal {
      CopyNormal(m, n, A, ALDim, B, BLDim, conj);
    } else {
      CopyTransposed(orientation, m, n, A, ALDim, B, BLDim, conj);
    }
  }

  /** The loop nest of the `NORMAL` case: column by column. */
  method CopyNormal<T>(m: int, n: int, A: array<T>, ALDim: int, B: array<T>, BLDim: int, conj: T -> T)
    requires A != B
    requires OmatcopyLayout(Normal, m, n, A.Length, ALDim, 1, B.Length, BLDim, 1)
    modifies B
    ensures B[..] == Omatcopied(Normal, m, n, A[..], ALDim, old(B[..]), BLDim, conj)
  {
    ghost var a, b := A[..], B[..];
    ghost var r := Omatcopied(Normal, m, n, a, ALDim, b, BLDim, conj);
    NoColumnsCopied(r, b, m, 1, BLDim);
    var j := 0;
    while j < n
      invariant 0 <= j <= Trips(n)
      invariant A[..] == a
      invariant B[..] == ColumnsCopied(r, b, m, j, BLDim)
    {
      CopyNormalColumn(m, n, A, ALDim, B, BLDim, conj, j, b, r);
      j := j + 1;
    }
    OmatcopiedComplete(Normal, m, n, a, ALDim, b, BLDim, conj);
  }

  /** Column `j` of the `NORMAL` case, row by row. */
  method CopyNormalColumn<T>(m: int, n: int, A: array<T>, ALDim: int, B: array<T>, BLDim: int, conj: T -> T,
                             j: int, ghost b: seq<T>, ghost r: seq<T>)
    requires A != B && |b| == B.Length && 0 <= j < n
    requires OmatcopyLayout(Normal, m, n, A.Length, ALDim, 1, B.Length, BLDim, 1)
    requires r == Omatcopied(Normal, m, n, A[..], ALDim, b, BLDim, conj)
    requires B[..] == ColumnsCopied(r, b, m, j, BLDim)
    modifies B
    ensures A[..] == old(A[..])
    ensures B[..] == ColumnsCopied(r, b, m, j + 1, BLDim)
  {
    var i := 0;
    while i < m
      invariant 0 <= i <= Trips(m)
      invariant forall k :: 0 <= k < B.Length ==>
                  B[k] == if InWindow(k, m, j, BLDim) || (0 <= k && k / BLDim == j && k % BLDim < i)
                          then r[k] else b[k]
    {
      OmatcopiedAt(Normal, m, n, A[..], ALDim, b, BLDim, conj, i, j);
      forall k | 0 <= k < B.Length {
        ExtendWindowColumn(k, i, j, BLDim);
      }
      B[i + j * BLDim] := A[i + j * ALDim];
      i := i + 1;
    }
  }

  /** The loop nests of the `TRANSPOSE` and `ADJOINT` cases: row by row of `A`,
      each row becoming a column of `B`, conjugated for the adjoint. */
  method CopyTransposed<T>(orientation: Orientation, m: int, n: int,
                           A: array<T>, ALDim: int, B: array<T>, BLDim: int, conj: T -> T)
    requires orientation != Normal
    requires A != B
    requires OmatcopyLayout(orientation, m, n, A.Length, ALDim, 1, B.Length, BLDim, 1)
    modifies B
    ensures B[..] == Omatcopied(orientation, m, n, A[..], ALDim, old(B[..]), BLDim, conj)
  {
    ghost var a, b := A[..], B[..];
    ghost var r := Omatcopied(orientation, m, n, a, ALDim, b, BLDim, conj);
    NoColumnsCopied(r, b, n, 1, BLDim);
    var i := 0;
    while i < m
      invariant 0 <= i <= Trips(m)
      invariant A[..] == a
      invariant B[..] == ColumnsCopied(r, b, n, i, BLDim)
    {
      CopyTransposedRow(orientation, m, n, A, ALDim, B, BLDim, conj, i, b, r);
      i := i + 1;
    }
    OmatcopiedComplete(orientation, m, n, a, ALDim, b, BLDim, conj);
  }

  /** Row `i` of `A` into column `i` of `B`, entry by entry. */
  method CopyTransposedRow<T>(orientation: Orientation, m: int, n: int,
                              A: array<T>, ALDim: int, B: array<T>, BLDim: int, conj: T -> T,
                              i: int, ghost b: seq<T>, ghost r: seq<T>)
    requires orientation != Normal
    requires A != B && |b| == B.Length && 0 <= i < m
    requires OmatcopyLayout(orientation, m, n, A.Length, ALDim, 1, B.Length, BLDim, 1)
    requires r == Omatcopied(orientation, m, n, A[..], ALDim, b, BLDim, conj)
    requires B[..] == ColumnsCopied(r, b, n, i, BLDim)
    modifies B
    ensures A[..] == old(A[..])
    ensures B[..] == ColumnsCopied(r, b, n, i + 1, BLDim)
  {
    var j := 0;
    while j < n
      invariant 0 <= j <= Trips(n)
      invariant forall k :: 0 <= k < B.Length ==>
                  B[k] == if InWindow(k, n, i, BLDim) || (0 <= k && k / BLDim == i && k % BLDim < j)
                          then r[k] else b[k]
    {
      OmatcopiedAt(orientation, m, n, A[..], ALDim, b, BLDim, conj, i, j);
      forall k | 0 <= k < B.Length {
        ExtendWindowColumn(k, j, i, BLDim);
      }
      if orientation == Transpose {
        B[j + i * BLDim] := A[i + j * ALDim];
      } else {
        B[j + i * BLDim] := conj(A[i + j * ALDim]);
      }
      j := j + 1;
    }
  }

  /** The strided variant: rows of `A` are `stridea` slots apart and rows of
      `B` are `strideb` slots apart. `alpha` is accepted and not used. */
  method OmatcopyStrided<T>(orientation: Orientation, m: int, n: int, alpha: T,
                            A: array<T>, ALDim: int, stridea: int,
                            B: array<T>, BLDim: int, strideb: int, conj: T -> T)
    requires A != B
    requires OmatcopyLayout(orientation, m, n, A.Length, ALDim, stridea, B.Length, BLDim, strideb)
    modifies B
    ensures B[..] == OmatcopiedStrided(orientation, m, n, A[..], ALDim, stridea, old(B[..]), BLDim, strideb, conj)
  {
    if orientation == Normal {
      CopyNormalStrided(m, n, A, ALDim, stridea, B, BLDim, strideb, conj);
    } else {
      CopyTransposedStrided(orientation, m, n, A, ALDim, stridea, B, BLDim, strideb, conj);
    }
  }

  method CopyNormalStrided<T>(m: int, n: int, A: array<T>, ALDim: int, stridea: int,
                              B: array<T>, BLDim: int, strideb: int, conj: T -> T)
    requires A != B
    requires OmatcopyLayout(Normal, m, n, A.Length, ALDim, stridea, B.Length, BLDim, strideb)
    modifies B
    ensures B[..] == OmatcopiedStrided(Normal, m, n, A[..], ALDim, stridea, old(B[..]), BLDim, strideb, conj)
  {
    ghost var a, b := A[..], B[..];
    ghost var r := OmatcopiedStrided(Normal, m, n, a, ALDim, stridea, b, BLDim, strideb, conj);
    NoColumnsCopied(r, b, m, strideb, BLDim);
    var j := 0;
    while j < n
      invariant 0 <= j <= Trips(n)
      invariant A[..] == a
      invariant B[..] == StridedColumnsCopied(r, b, m, j, strideb, BLDim)
    {
      CopyNormalStridedColumn(m, n, A, ALDim, stridea, B, BLDim, strideb, conj, j, b, r);
      j := j + 1;
    }
    OmatcopiedStridedComplete(Normal, m, n, a, ALDim, stridea, b, BLDim, strideb, conj);
  }

  method CopyNormalStridedColumn<T>(m: int, n: int, A: array<T>, ALDim: int, stridea: int,
                                    B: array<T>, BLDim: int, strideb: int, conj: T -> T,
                                    j: int, ghost b: seq<T>, ghost r: seq<T>)
    requires A != B && |b| == B.Length && 0 <= j < n
    requires OmatcopyLayout(Normal, m, n, A.Length, ALDim, stridea, B.Length, BLDim, strideb)
    requires r == OmatcopiedStrided(Normal, m, n, A[..], ALDim, stridea, b, BLDim, strideb, conj)
    requires B[..] == StridedColumnsCopied(r, b, m, j, strideb, BLDim)
    modifies B
    ensures A[..] == old(A[..])
    ensures B[..] == StridedColumnsCopied(r, b, m, j + 1, strideb, BLDim)
  {
    var i := 0;
    while i < m
      invariant 0 <= i <= Trips(m)
      invariant forall k :: 0 <= k < B.Length ==>
                  B[k] == if InStridedWindow(k, m, j, strideb, BLDim) ||
                             (0 <= k && k / BLDim == j && (k % BLDim) % strideb == 0 && (k % BLDim) / strideb < i)
                          then r[k] else b[k]
    {
      OmatcopiedStridedAt(Normal, m, n, A[..], ALDim, stridea, b, BLDim, strideb, conj, i, j);
      SlotInLayout(B.Length, m, n, strideb, BLDim, i, j);
      forall k | 0 <= k < B.Length {
        ExtendStridedWindowColumn(k, i, j, strideb, BLDim);
      }
      B[i * strideb + j * BLDim] := A[i * stridea + j * ALDim];
      i := i + 1;
    }
  }

  method CopyTransposedStrided<T>(orientation: Orientation, m: int, n: int,
                                  A: array<T>, ALDim: int, stridea: int,
                                  B: array<T>, BLDim: int, strideb: int, conj: T -> T)
    requires orientation != Normal
    requires A != B
    requires OmatcopyLayout(orientation, m, n, A.Length, ALDim, stridea, B.Length, BLDim, strideb)
    modifies B
    ensures B[..] == OmatcopiedStrided(orientation, m, n, A[..], ALDim, stridea, old(B[..]), BLDim, strideb, conj)
  {
    ghost var a, b := A[..], B[..];
    ghost var r := OmatcopiedStrided(orientation, m, n, a, ALDim, stridea, b, BLDim, strideb, conj);
    NoColumnsCopied(r, b, n, strideb, BLDim);
    var i := 0;
    while i < m
      invariant 0 <= i <= Trips(m)
      invariant A[..] == a
      invariant B[..] == StridedColumnsCopied(r, b, n, i, strideb, BLDim)
    {
      CopyTransposedStridedRow(orientation, m, n, A, ALDim, stridea, B, BLDim, strideb, conj, i, b, r);
      i := i + 1;
    }
    OmatcopiedStridedComplete(orientation, m, n, a, ALDim, stridea, b, BLDim, strideb, conj);
  }

  method CopyTransposedStridedRow<T>(orientation: Orientation, m: int, n: int,
                                     A: array<T>, ALDim: int, stridea: int,
                                     B: array<T>, BLDim: int, strideb: int, conj: T -> T,
                                     i: int, ghost b: seq<T>, ghost r: seq<T>)
    requires orientation != Normal
    requires A != B && |b| == B.Length && 0 <= i < m
    requires OmatcopyLayout(orientation, m, n, A.Length, ALDim, stridea, B.Length, BLDim, strideb)
    requires r == OmatcopiedStrided(orientation, m, n, A[..], ALDim, stridea, b, BLDim, strideb, conj)
    requires B[..] == StridedColumnsCopied(r, b, n, i, strideb, BLDim)
    modifies B
    ensures A[..] == old(A[..])
    ensures B[..] == StridedColumnsCopied(r, b, n, i + 1, strideb, BLDim)
  {
    var j := 0;
    while j < n
      invariant 0 <= j <= Trips(n)
      invariant forall k :: 0 <= k < B.Length ==>
                  B[k] == if InStridedWindow(k, n, i, strideb, BLDim) ||
                             (0 <= k && k / BLDim == i && (k % BLDim) % strideb == 0 && (k % BLDim) / strideb < j)
                          then r[k] else b[k]
    {
      OmatcopiedStridedAt(orientation, m, n, A[..], ALDim, stridea, b, BLDim, strideb, conj, i, j);
      SlotInLayout(B.Length, n, m, strideb, BLDim, j, i);
      forall k | 0 <= k < B.Length {
        ExtendStridedWindowColumn(k, j, i, strideb, BLDim);
      }
      if orientation == Transpose {
        B[j * strideb + i * BLDim] := A[i * stridea + j * ALDim];
      } else {
        B[j * strideb + i * BLDim] := conj(A[i * stridea + j * ALDim]);
      }
      j := j + 1;
    }
  }

  // ---------------------------------------------------------------------
  // imatcopy and the csrmv orientation character
  // ---------------------------------------------------------------------

  /** The generic in-place copy always raises a logic error and touches nothing. */
  method Imatcopy<T>(orientation: Orientation, m: int, n: int, alpha: T,
                     A: array<T>, ALDim: int, BLDim: int) returns (r: Result<()>)
    ensures r == LogicError("This routine not yet written")
  {
    r := LogicError("This routine not yet written");
  }

  /** The scalar field of a `csrmv` overload. */
  datatype Field = Real | Complex

  /** The `transA` character `csrmv` hands to the vendor routine: for a real
      matrix the adjoint is the transpose, so `'C'` becomes `'T'`; complex
      overloads pass the orientation through. */
  method CsrmvTransA(orientation: Orientation, field: Field) returns (transA: char)
    ensures field == Complex ==> CharToOrientation(transA) == Ok(orientation)
    ensures field == Real ==>
              CharToOrientation(transA) == Ok(if orientation == ConjugateTranspose then Transpose else orientation)
    ensures field == Real ==> transA != 'C'
  {
    transA := OrientationToChar(orientation);
    if field == Real && transA == 'C' {
      transA := 'T';
    }
  }
}
