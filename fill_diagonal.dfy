/** `FillDiagonal`: overwrite the `offset`-th diagonal of a matrix with a
    scalar, in place, for a local matrix and for the local part of a
    distributed one. */
module BlasLevel1 {

  // ---------------------------------------------------------------------
  // Specification on values
  // ---------------------------------------------------------------------

  /** A `height` x `width` matrix given row by row. */
  ghost predicate IsRectangular<T>(M: seq<seq<T>>, width: nat)
  {
    forall i :: 0 <= i < |M| ==> |M[i]| == width
  }

  /** `M` with every entry `(i, j)` on the `offset`-th diagonal (`i == j - offset`)
      replaced by `alpha`. */
  ghost function Filled<T>(M: seq<seq<T>>, alpha: T, offset: int): (r: seq<seq<T>>)
    ensures |r| == |M| && forall i :: 0 <= i < |M| ==> |r[i]| == |M[i]|
  {
    seq(|M|, i requires 0 <= i < |M| =>
      seq(|M[i]|, j requires 0 <= j < |M[i]| => if i == j - offset then alpha else M[i][j]))
  }

  /** Every diagonal entry inside the matrix holds `alpha`; every other entry is kept. */
  lemma FilledEntries<T>(M: seq<seq<T>>, width: nat, alpha: T, offset: int)
    requires IsRectangular(M, width)
    ensures IsRectangular(Filled(M, alpha, offset), width)
    ensures forall i, j :: 0 <= i < |M| && 0 <= j < width && i == j - offset ==> Filled(M, alpha, offset)[i][j] == alpha
    ensures forall i, j :: 0 <= i < |M| && 0 <= j < width && i != j - offset ==>
              Filled(M, alpha, offset)[i][j] == M[i][j]
  {
  }

  /** A diagonal that lies wholly outside the matrix changes nothing. */
  lemma FilledOutOfRange<T>(M: seq<seq<T>>, width: nat, alpha: T, offset: int)
    requires IsRectangular(M, width)
    requires offset >= width || offset <= -|M|
    ensures Filled(M, alpha, offset) == M
  {
    var r := Filled(M, alpha, offset);
    forall i | 0 <= i < |M|
      ensures r[i] == M[i]
    {
    }
  }

  /** Filling the same diagonal with the same value twice is filling it once. */
  lemma FilledIdempotent<T>(M: seq<seq<T>>, alpha: T, offset: int)
    ensures Filled(Filled(M, alpha, offset), alpha, offset) == Filled(M, alpha, offset)
  {
    var once := Filled(M, alpha, offset);
    var twice := Filled(once, alpha, offset);
    forall i | 0 <= i < |M|
      ensures twice[i] == once[i]
    {
    }
  }

  // ---------------------------------------------------------------------
  // The local matrix
  // ---------------------------------------------------------------------

  /** A local matrix; `buffer[i, j]` is entry `(i, j)`. */
  class Matrix<T> {
    const buffer: array2<T>

    constructor (buffer: array2<T>)
      ensures this.buffer == buffer
    {
      this.buffer := buffer;
    }

    function Height(): nat { buffer.Length0 }
    function Width(): nat { buffer.Length1 }

    /** The entries, row by row. */
    ghost function Contents(): (M: seq<seq<T>>)
      reads buffer
      ensures |M| == Height() && IsRectangular(M, Width())
    {
      seq(Height(), i requires 0 <= i < Height() reads buffer =>
        seq(Width(), j requires 0 <= j < Width() reads buffer => buffer[i, j]))
    }

    method Set(i: int, j: int, alpha: T)
      requires 0 <= i < Height() && 0 <= j < Width()
      modifies buffer
      ensures buffer[i, j] == alpha
      ensures forall i', j' :: 0 <= i' < Height() && 0 <= j' < Width() && (i' != i || j' != j) ==>
                buffer[i', j'] == old(buffer[i', j'])
    {
      buffer[i, j] := alpha;
    }
  }

  method FillDiagonal<T>(A: Matrix<T>, alpha: T, offset: int)
    modifies A.buffer
    ensures A.Contents() == Filled(old(A.Contents()), alpha, offset)
  {
    var height := A.Height();
    var width := A.Width();
    var j := 0;
    while j < width
      invariant 0 <= j <= width
      invariant forall i', j' :: 0 <= i' < height && 0 <= j' < width ==>
                  A.buffer[i', j'] == if j' < j && i' == j' - offset then alpha else old(A.buffer[i', j'])
    {
      var i := j - offset;
      if i >= 0 && i < height {
        A.Set(i, j, alpha);
      }
      j := j + 1;
    }
    ghost var before := old(A.Contents());
    forall i | 0 <= i < height
      ensures A.Contents()[i] == Filled(before, alpha, offset)[i]
    {
    }
  }

  // ---------------------------------------------------------------------
  // The distributed matrix
  // ---------------------------------------------------------------------

  /** Which local entries the distributed fill writes: local entry
      `(iLoc, jLoc)` is written exactly when global row `i = globalCol(jLoc) - offset`
      is a row of the matrix, is stored on this process, and is stored at
      local row `iLoc`. */
  ghost predicate WritesLocal(globalCol: int -> int, isLocalRow: int -> bool, localRow: int -> int,
                              height: int, offset: int, iLoc: int, jLoc: int)
  {
    var i := globalCol(jLoc) - offset;
    0 <= i < height && isLocalRow(i) && iLoc == localRow(i)
  }

  /** The local entries `L` after the distributed fill. */
  ghost function DistFilled<T>(L: seq<seq<T>>, globalCol: int -> int, isLocalRow: int -> bool,
                               localRow: int -> int, height: int, alpha: T, offset: int): (r: seq<seq<T>>)
    ensures |r| == |L| && forall iLoc :: 0 <= iLoc < |L| ==> |r[iLoc]| == |L[iLoc]|
  {
    seq(|L|, iLoc requires 0 <= iLoc < |L| =>
      seq(|L[iLoc]|, jLoc requires 0 <= jLoc < |L[iLoc]| =>
        if WritesLocal(globalCol, isLocalRow, localRow, height, offset, iLoc, jLoc) then alpha
        else L[iLoc][jLoc]))
  }

  /** Filling twice is filling once, on every process. */
  lemma DistFilledIdempotent<T>(L: seq<seq<T>>, globalCol: int -> int, isLocalRow: int -> bool,
                                localRow: int -> int, height: int, alpha: T, offset: int)
    ensures DistFilled(DistFilled(L, globalCol, isLocalRow, localRow, height, alpha, offset),
                       globalCol, isLocalRow, localRow, height, alpha, offset)
         == DistFilled(L, globalCol, isLocalRow, localRow, height, alpha, offset)
  {
    var once := DistFilled(L, globalCol, isLocalRow, localRow, height, alpha, offset);
    var twice := DistFilled(once, globalCol, isLocalRow, localRow, height, alpha, offset);
    forall iLoc | 0 <= iLoc < |L|
      ensures twice[iLoc] == once[iLoc]
    {
    }
  }

  /** On a single process that owns everything in place (the global column of
      local column `j` is `j`, every row is local and stored at its own index),
      the distributed fill is the local fill. */
  lemma DistFilledOnOneProcess<T>(L: seq<seq<T>>, alpha: T, offset: int)
    ensures DistFilled(L, j => j, i => true, i => i, |L|, alpha, offset) == Filled(L, alpha, offset)
  {
    var d := DistFilled(L, j => j, i => true, i => i, |L|, alpha, offset);
    var f := Filled(L, alpha, offset);
    forall iLoc | 0 <= iLoc < |L|
      ensures d[iLoc] == f[iLoc]
    {
      forall jLoc | 0 <= jLoc < |L[iLoc]|
        ensures d[iLoc][jLoc] == f[iLoc][jLoc]
      {
        assert WritesLocal(j => j, i => true, i => i, |L|, offset, iLoc, jLoc) <==> iLoc == jLoc - offset;
      }
    }
  }

  /** A written local entry is the image of a global diagonal entry; when two
      local columns write the same local row, with `localRow` injective on the
      local rows, they hold the same global column. */
  lemma DistWritesAreDiagonal(globalCol: int -> int, isLocalRow: int -> bool, localRow: int -> int,
                              height: int, offset: int, iLoc: int, jLoc1: int, jLoc2: int)
    requires forall i1, i2 :: isLocalRow(i1) && isLocalRow(i2) && localRow(i1) == localRow(i2) ==> i1 == i2
    requires WritesLocal(globalCol, isLocalRow, localRow, height, offset, iLoc, jLoc1)
    requires WritesLocal(globalCol, isLocalRow, localRow, height, offset, iLoc, jLoc2)
    ensures globalCol(jLoc1) == globalCol(jLoc2)
    ensures 0 <= globalCol(jLoc1) - offset < height && localRow(globalCol(jLoc1) - offset) == iLoc
  {
  }

  /** The local part of a distributed matrix (element- or block-distributed:
      FillDiagonal uses only the queries they share). `local[iLoc, jLoc]` is
      local entry `(iLoc, jLoc)`; the three index-mapping queries of the
      distribution are given as functions, with the properties the fill
      relies on stated in `Valid()`. */
  class DistMatrix<T> {
    const height: nat
    const width: nat
    const local: array2<T>
    const globalCol: int -> int
    const isLocalRow: int -> bool
    const localRow: int -> int

    constructor (height: nat, width: nat, local: array2<T>,
                 globalCol: int -> int, isLocalRow: int -> bool, localRow: int -> int)
      requires forall jLoc :: 0 <= jLoc < local.Length1 ==> 0 <= globalCol(jLoc) < width
      requires forall i :: 0 <= i < height && isLocalRow(i) ==> 0 <= localRow(i) < local.Length0
      ensures this.height == height && this.width == width && this.local == local
      ensures this.globalCol == globalCol && this.isLocalRow == isLocalRow && this.localRow == localRow
      ensures Valid()
    {
      this.height, this.width, this.local := height, width, local;
      this.globalCol, this.isLocalRow, this.localRow := globalCol, isLocalRow, localRow;
    }

    function Height(): nat { height }
    function LocalHeight(): nat { local.Length0 }
    function LocalWidth(): nat { local.Length1 }
    function GlobalCol(jLoc: int): int { globalCol(jLoc) }
    function IsLocalRow(i: int): bool { isLocalRow(i) }
    function LocalRow(i: int): int { localRow(i) }

    /** Local columns stand for global columns of the matrix, and a global row
        stored here has a local row inside the local height. */
    ghost predicate Valid()
    {
      && (forall jLoc :: 0 <= jLoc < LocalWidth() ==> 0 <= globalCol(jLoc) < width)
      && (forall i :: 0 <= i < height && isLocalRow(i) ==> 0 <= localRow(i) < LocalHeight())
    }

    ghost function LocalContents(): (L: seq<seq<T>>)
      reads local
      ensures |L| == LocalHeight() && IsRectangular(L, LocalWidth())
    {
      seq(LocalHeight(), iLoc requires 0 <= iLoc < LocalHeight() reads local =>
        seq(LocalWidth(), jLoc requires 0 <= jLoc < LocalWidth() reads local => local[iLoc, jLoc]))
    }

    method SetLocal(iLoc: int, jLoc: int, alpha: T)
      requires 0 <= iLoc < LocalHeight() && 0 <= jLoc < LocalWidth()
      modifies local
      ensures local[iLoc, jLoc] == alpha
      ensures forall i', j' :: 0 <= i' < LocalHeight() && 0 <= j' < LocalWidth() && (i' != iLoc || j' != jLoc) ==>
                local[i', j'] == old(local[i', j'])
    {
      local[iLoc, jLoc] := alpha;
    }
  }

  /** A diagonal outside the global matrix writes no local entry. */
  lemma DistFilledOutOfRange<T>(A: DistMatrix<T>, L: seq<seq<T>>, alpha: T, offset: int)
    requires A.Valid()
    requires |L| == A.LocalHeight() && IsRectangular(L, A.LocalWidth())
    requires offset >= A.width || offset + A.height <= 0
    ensures DistFilled(L, A.globalCol, A.isLocalRow, A.localRow, A.height, alpha, offset) == L
  {
    var r := DistFilled(L, A.globalCol, A.isLocalRow, A.localRow, A.height, alpha, offset);
    forall iLoc | 0 <= iLoc < |L|
      ensures r[iLoc] == L[iLoc]
    {
      forall jLoc | 0 <= jLoc < |L[iLoc]|
        ensures r[iLoc][jLoc] == L[iLoc][jLoc]
      {
        assert 0 <= A.globalCol(jLoc) < A.width;
      }
    }
  }

  method FillDiagonalDist<T>(A: DistMatrix<T>, alpha: T, offset: int)
    requires A.Valid()
    modifies A.local
    ensures A.LocalContents() ==
              DistFilled(old(A.LocalContents()), A.globalCol, A.isLocalRow, A.localRow, A.height, alpha, offset)
  {
    var height := A.Height();
    var localWidth := A.LocalWidth();
    var jLoc := 0;
    while jLoc < localWidth
      invariant 0 <= jLoc <= localWidth
      invariant forall i', j' :: 0 <= i' < A.LocalHeight() && 0 <= j' < localWidth ==>
                  A.local[i', j'] ==
                    if j' < jLoc && WritesLocal(A.globalCol, A.isLocalRow, A.localRow, height, offset, i', j')
                    then alpha else old(A.local[i', j'])
    {
      var j := A.GlobalCol(jLoc);
      var i := j - offset;
      if i >= 0 && i < height && A.IsLocalRow(i) {
        var iLoc := A.LocalRow(i);
        A.SetLocal(iLoc, jLoc, alpha);
      }
      jLoc := jLoc + 1;
    }
    ghost var before := old(A.LocalContents());
    forall iLoc | 0 <= iLoc < A.LocalHeight()
      ensures A.LocalContents()[iLoc] ==
                DistFilled(before, A.globalCol, A.isLocalRow, A.localRow, A.height, alpha, offset)[iLoc]
    {
    }
  }
}
