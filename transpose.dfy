// The matrix transposes of the cache lab: B = A^T for an N-row, M-column
// matrix A (`int A[N][M]`) into an M-row, N-column matrix B
// (`int B[M][N]`), row-major and indexed `A[row, column]`.
module Transpose {

  /** A and B have the shapes A[N][M] and B[M][N]. */
  predicate Shaped(A: array2<int>, B: array2<int>)
  {
    A.Length0 == B.Length1 && A.Length1 == B.Length0
  }

  /** B holds the transpose of A on the cells of A in rows i0..i1-1 and
      columns j0..j1-1. */
  predicate TransposedOn(A: array2<int>, B: array2<int>, i0: int, i1: int, j0: int, j1: int)
    requires Shaped(A, B)
    requires 0 <= i0 && i1 <= A.Length0 && 0 <= j0 && j1 <= A.Length1
    reads A, B
  {
    forall i, j :: i0 <= i < i1 && j0 <= j < j1 ==> B[j, i] == A[i, j]
  }

  /** B is the transpose of A everywhere. */
  predicate IsTransposeOf(A: array2<int>, B: array2<int>)
    reads A, B
  {
    Shaped(A, B) && TransposedOn(A, B, 0, A.Length0, 0, A.Length1)
  }

  /** is_transpose: 1 (true) exactly when A[i][j] == B[j][i] for every
      i < N and j < M; it stops at the first cell that differs. */
  method IsTranspose(A: array2<int>, B: array2<int>) returns (r: bool)
    requires Shaped(A, B)
    ensures r <==> IsTransposeOf(A, B)
  {
    var i := 0;
    while i < A.Length0
      invariant 0 <= i <= A.Length0
      invariant TransposedOn(A, B, 0, i, 0, A.Length1)
    {
      var j := 0;
      while j < A.Length1
        invariant 0 <= j <= A.Length1
        invariant TransposedOn(A, B, 0, i, 0, A.Length1)
        invariant forall jj :: 0 <= jj < j ==> B[jj, i] == A[i, jj]
      {
        if A[i, j] != B[j, i] {
          return false;
        }
        j := j + 1;
      }
      i := i + 1;
    }
    return true;
  }

  /** The row-major copy loop `B[j][i] = A[i][j]` over rows r0..r1-1 and
      columns c0..c1-1 of A; it is the whole of `trans` and the building
      block of the three blocked versions. Only those cells of B change. */
  method CopyTransposed(A: array2<int>, B: array2<int>, r0: int, r1: int, c0: int, c1: int)
    requires A != B && Shaped(A, B)
    requires 0 <= r0 <= r1 <= A.Length0 && 0 <= c0 <= c1 <= A.Length1
    modifies B
    ensures TransposedOn(A, B, r0, r1, c0, c1)
    ensures forall p, q :: (0 <= p < B.Length0 && 0 <= q < B.Length1
              && !(c0 <= p < c1 && r0 <= q < r1)) ==> B[p, q] == old(B[p, q])
  {
    var i := r0;
    while i < r1
      invariant r0 <= i <= r1
      invariant TransposedOn(A, B, r0, i, c0, c1)
      invariant forall p, q :: (0 <= p < B.Length0 && 0 <= q < B.Length1
                  && !(c0 <= p < c1 && r0 <= q < i)) ==> B[p, q] == old(B[p, q])
    {
      var j := c0;
      while j < c1
        invariant c0 <= j <= c1
        invariant TransposedOn(A, B, r0, i, c0, c1)
        invariant forall jj :: c0 <= jj < j ==> B[jj, i] == A[i, jj]
        invariant forall p, q :: (0 <= p < B.Length0 && 0 <= q < B.Length1
                    && !(c0 <= p < c1 && r0 <= q < i) && !(c0 <= p < j && q == i))
                    ==> B[p, q] == old(B[p, q])
      {
        B[j, i] := A[i, j];
        j := j + 1;
      }
      i := i + 1;
    }
  }

  /** trans: the baseline row-wise transpose; its closing check holds. */
  method Trans(A: array2<int>, B: array2<int>)
    requires A != B && Shaped(A, B)
    requires A.Length0 > 0 && A.Length1 > 0
    modifies B
    ensures IsTransposeOf(A, B)
  {
    CopyTransposed(A, B, 0, A.Length0, 0, A.Length1);
  }

  // ---------------------------------------------------------------------
  // 32 x 32: 8 x 8 blocks, the diagonal element of each row written last
  // ---------------------------------------------------------------------

  /** A diagonal 8 x 8 block of the 32 x 32 case: each row first writes its
      off-diagonal cells, then its diagonal cell. */
  method DiagonalBlock32(A: array2<int>, B: array2<int>, d: int)
    requires A != B && Shaped(A, B) && A.Length0 == 32 && A.Length1 == 32
    requires 0 <= d < 4
    modifies B
    ensures TransposedOn(A, B, 8 * d, 8 * d + 8, 8 * d, 8 * d + 8)
    ensures forall p, q :: (0 <= p < 32 && 0 <= q < 32
              && !(8 * d <= p < 8 * d + 8 && 8 * d <= q < 8 * d + 8)) ==> B[p, q] == old(B[p, q])
  {
    var b := 8 * d;
    var i := 0;
    while i < 8
      invariant 0 <= i <= 8
      invariant TransposedOn(A, B, b, b + i, b, b + 8)
      invariant forall p, q :: (0 <= p < 32 && 0 <= q < 32
                  && !(b <= p < b + 8 && b <= q < b + i)) ==> B[p, q] == old(B[p, q])
    {
      var j := 0;
      var row := b + i;
      while j < 8
        invariant 0 <= j <= 8
        invariant TransposedOn(A, B, b, b + i, b, b + 8)
        invariant forall c :: b <= c < b + j && c != row ==> B[c, row] == A[row, c]
        invariant forall p, q :: (0 <= p < 32 && 0 <= q < 32
                    && !(b <= p < b + 8 && b <= q < b + i) && !(b <= p < b + j && q == b + i))
                    ==> B[p, q] == old(B[p, q])
      {
        if i != j {
          B[b + j, b + i] := A[b + i, b + j];
        }
        j := j + 1;
      }
      B[b + i, b + i] := A[b + i, b + i];
      i := i + 1;
    }
  }

  /** The 32 x 32 branch of transpose_submit. */
  method Transpose32(A: array2<int>, B: array2<int>)
    requires A != B && Shaped(A, B) && A.Length0 == 32 && A.Length1 == 32
    modifies B
    ensures IsTransposeOf(A, B)
  {
    var n := 0;
    while n < 4
      invariant 0 <= n <= 4
      invariant TransposedOn(A, B, 0, 8 * n, 0, 32)
    {
      var m := 0;
      while m < 4
        invariant 0 <= m <= 4
        invariant TransposedOn(A, B, 0, 8 * n, 0, 32)
        invariant TransposedOn(A, B, 8 * n, 8 * n + 8, 0, 8 * m)
      {
        if m == n {
          DiagonalBlock32(A, B, n);
        } else {
          CopyTransposed(A, B, 8 * n, 8 * n + 8, 8 * m, 8 * m + 8);
        }
        m := m + 1;
      }
      n := n + 1;
    }
  }

  // ---------------------------------------------------------------------
  // 64 x 64: 8 x 8 blocks staged through the scratch cells B[60..63][56..63]
  // ---------------------------------------------------------------------

  /** Whether B[p][q] is one of the scratch cells B[60..63][56..63]. */
  predicate Scratch(p: int, q: int)
  {
    60 <= p < 64 && 56 <= q < 64
  }

  /** The scratch cells hold the right halves of rows r0..r1-1 of the block
      at (x, y): A[r][c] is parked at B[60 + (r - x) - lo][52 + (c - y) + lo]. */
  predicate Parked(A: array2<int>, B: array2<int>, x: int, y: int, lo: int, r0: int, r1: int)
    requires Shaped(A, B) && A.Length0 == 64 && A.Length1 == 64
    requires 0 <= x <= 48 && 0 <= y <= 48 && (lo == 0 || lo == 4)
    requires x + lo <= r0 <= r1 <= x + lo + 4
    reads A, B
  {
    forall r, c :: r0 <= r < r1 && y + 4 <= c < y + 8 ==> B[60 + (r - x) - lo, 52 + (c - y) + lo] == A[r, c]
  }

  /** Rows lo..lo+3 of the block at (x, y): the left half goes to its place
      in B, the right half is parked in the scratch cells, at
      B[60 + i - lo][52 + j + lo] (lo = 0: the source's `B[60+i][52+j]`,
      lo = 4: its `B[56+i][56+j]`). */
  method StageRows64(A: array2<int>, B: array2<int>, x: int, y: int, lo: int)
    requires A != B && Shaped(A, B) && A.Length0 == 64 && A.Length1 == 64
    requires 0 <= x <= 48 && 0 <= y <= 48 && (lo == 0 || lo == 4)
    modifies B
    ensures TransposedOn(A, B, x + lo, x + lo + 4, y, y + 4)
    ensures Parked(A, B, x, y, lo, x + lo, x + lo + 4)
    ensures forall p, q :: (0 <= p < 64 && 0 <= q < 64
              && !(y <= p < y + 4 && x + lo <= q < x + lo + 4)
              && !(60 <= p < 64 && 56 + lo <= q < 60 + lo)) ==> B[p, q] == old(B[p, q])
  {
    var i := lo;
    while i < lo + 4
      invariant lo <= i <= lo + 4
      invariant TransposedOn(A, B, x + lo, x + i, y, y + 4)
      invariant Parked(A, B, x, y, lo, x + lo, x + i)
      invariant forall p, q :: (0 <= p < 64 && 0 <= q < 64
                  && !(y <= p < y + 4 && x + lo <= q < x + i)
                  && !(60 <= p < 64 && 56 + lo <= q < 60 + lo)) ==> B[p, q] == old(B[p, q])
    {
      StageRow64(A, B, x, y, lo, i);
      i := i + 1;
    }
  }

  /** Row i of StageRows64: its two inner loops. */
  method StageRow64(A: array2<int>, B: array2<int>, x: int, y: int, lo: int, i: int)
    requires A != B && Shaped(A, B) && A.Length0 == 64 && A.Length1 == 64
    requires 0 <= x <= 48 && 0 <= y <= 48 && (lo == 0 || lo == 4) && lo <= i < lo + 4
    modifies B
    ensures TransposedOn(A, B, x + i, x + i + 1, y, y + 4)
    ensures Parked(A, B, x, y, lo, x + i, x + i + 1)
    ensures forall p, q :: (0 <= p < 64 && 0 <= q < 64
              && !(y <= p < y + 4 && q == x + i)
              && !(p == 60 + i - lo && 56 + lo <= q < 60 + lo)) ==> B[p, q] == old(B[p, q])
  {
    var j := 0;
    while j < 4
      invariant 0 <= j <= 4
      invariant TransposedOn(A, B, x + i, x + i + 1, y, y + j)
      invariant forall p, q :: (0 <= p < 64 && 0 <= q < 64 && !(y <= p < y + j && q == x + i))
                  ==> B[p, q] == old(B[p, q])
    {
      B[y + j, x + i] := A[x + i, y + j];
      j := j + 1;
    }
    j := 4;
    var row := x + i;
    var parkRow := 60 + i - lo;
    while j < 8
      invariant 4 <= j <= 8
      invariant TransposedOn(A, B, x + i, x + i + 1, y, y + 4)
      invariant forall c :: y + 4 <= c < y + j ==> B[parkRow, 52 + (c - y) + lo] == A[row, c]
      invariant forall p, q :: (0 <= p < 64 && 0 <= q < 64
                  && !(y <= p < y + 4 && q == x + i)
                  && !(p == parkRow && 56 + lo <= q < 52 + j + lo)) ==> B[p, q] == old(B[p, q])
    {
      B[parkRow, 52 + j + lo] := A[x + i, y + j];
      j := j + 1;
    }
  }

  /** Rows lo..lo+3 of the block at (x, y): the parked right halves are
      copied from the scratch cells to their places in B. */
  method CopyBack64(A: array2<int>, B: array2<int>, x: int, y: int, lo: int)
    requires A != B && Shaped(A, B) && A.Length0 == 64 && A.Length1 == 64
    requires 0 <= x <= 48 && 0 <= y <= 48 && (lo == 0 || lo == 4)
    requires Parked(A, B, x, y, lo, x + lo, x + lo + 4)
    modifies B
    ensures TransposedOn(A, B, x + lo, x + lo + 4, y + 4, y + 8)
    ensures forall p, q :: (0 <= p < 64 && 0 <= q < 64
              && !(y + 4 <= p < y + 8 && x + lo <= q < x + lo + 4)) ==> B[p, q] == old(B[p, q])
  {
    var i := lo;
    while i < lo + 4
      invariant lo <= i <= lo + 4
      invariant TransposedOn(A, B, x + lo, x + i, y + 4, y + 8)
      invariant forall p, q :: (0 <= p < 64 && 0 <= q < 64
                  && !(y + 4 <= p < y + 8 && x + lo <= q < x + i)) ==> B[p, q] == old(B[p, q])
    {
      var j := 4;
      while j < 8
        invariant 4 <= j <= 8
          invariant TransposedOn(A, B, x + lo, x + i, y + 4, y + 8)
        invariant TransposedOn(A, B, x + i, x + i + 1, y + 4, y + j)
        invariant forall p, q :: (0 <= p < 64 && 0 <= q < 64
                    && !(y + 4 <= p < y + 8 && x + lo <= q < x + i) && !(y + 4 <= p < y + j && q == x + i))
                    ==> B[p, q] == old(B[p, q])
      {
        B[y + j, x + i] := B[60 + i - lo, 52 + j + lo];
        j := j + 1;
      }
      i := i + 1;
    }
  }

  /** A block with x < 56 and y < 56: staged in four passes. Its own cells
      end transposed; apart from them only the scratch cells change. */
  method StagedBlock64(A: array2<int>, B: array2<int>, x: int, y: int)
    requires A != B && Shaped(A, B) && A.Length0 == 64 && A.Length1 == 64
    requires 0 <= x <= 48 && 0 <= y <= 48
    modifies B
    ensures TransposedOn(A, B, x, x + 8, y, y + 8)
    ensures forall p, q :: (0 <= p < 64 && 0 <= q < 64
              && !(y <= p < y + 8 && x <= q < x + 8) && !Scratch(p, q)) ==> B[p, q] == old(B[p, q])
  {
    StageRows64(A, B, x, y, 0);
    StageRows64(A, B, x, y, 4);
    CopyBack64(A, B, x, y, 0);
    CopyBack64(A, B, x, y, 4);
  }

  /** A block in the last block row or column: transposed directly, one
      4 x 4 quarter at a time in the source's order. */
  method DirectBlock64(A: array2<int>, B: array2<int>, x: int, y: int)
    requires A != B && Shaped(A, B) && A.Length0 == 64 && A.Length1 == 64
    requires 0 <= x <= 56 && 0 <= y <= 56
    modifies B
    ensures TransposedOn(A, B, x, x + 8, y, y + 8)
    ensures forall p, q :: (0 <= p < 64 && 0 <= q < 64
              && !(y <= p < y + 8 && x <= q < x + 8)) ==> B[p, q] == old(B[p, q])
  {
    CopyTransposed(A, B, x, x + 4, y, y + 4);
    CopyTransposed(A, B, x + 4, x + 8, y, y + 4);
    CopyTransposed(A, B, x + 4, x + 8, y + 4, y + 8);
    CopyTransposed(A, B, x, x + 4, y + 4, y + 8);
  }

  /** The 64 x 64 branch of transpose_submit. The scratch cells belong to
      the block at (56, 56), which is transposed last and directly. */
  method Transpose64(A: array2<int>, B: array2<int>)
    requires A != B && Shaped(A, B) && A.Length0 == 64 && A.Length1 == 64
    modifies B
    ensures IsTransposeOf(A, B)
  {
    var x := 0;
    while x < 64
      invariant 0 <= x <= 64 && x % 8 == 0
      invariant TransposedOn(A, B, 0, x, 0, 64)
    {
      var y := 0;
      while y < 64
        invariant 0 <= y <= 64 && y % 8 == 0
        invariant TransposedOn(A, B, 0, x, 0, 64)
        invariant TransposedOn(A, B, x, x + 8, 0, y)
      {
        if x < 56 && y < 56 {
          StagedBlock64(A, B, x, y);
        } else {
          DirectBlock64(A, B, x, y);
        }
        y := y + 8;
      }
      x := x + 8;
    }
  }

  // ---------------------------------------------------------------------
  // 61 columns x 67 rows: 8-column strips, then the last 5 columns
  // ---------------------------------------------------------------------

  /** The M = 61 branch of transpose_submit (A has 67 rows). */
  method Transpose61(A: array2<int>, B: array2<int>)
    requires A != B && Shaped(A, B) && A.Length0 == 67 && A.Length1 == 61
    modifies B
    ensures IsTransposeOf(A, B)
  {
    var y := 0;
    while y < 56
      invariant 0 <= y <= 56 && y % 8 == 0
      invariant TransposedOn(A, B, 0, 67, 0, y)
    {
      CopyTransposed(A, B, 0, 67, y, y + 8);
      y := y + 8;
    }
    CopyTransposed(A, B, 0, 67, 56, 61);
  }

  /** transpose_submit: dispatches on M. The three shapes the driver uses
      end transposed; any other M writes nothing. */
  method TransposeSubmit(A: array2<int>, B: array2<int>)
    requires A != B && Shaped(A, B)
    requires A.Length0 > 0 && A.Length1 > 0
    requires A.Length1 == 32 ==> A.Length0 == 32
    requires A.Length1 == 64 ==> A.Length0 == 64
    requires A.Length1 == 61 ==> A.Length0 == 67
    modifies B
    ensures A.Length1 in {32, 64, 61} ==> IsTransposeOf(A, B)
    ensures A.Length1 !in {32, 64, 61} ==> unchanged(B)
  {
    if A.Length1 == 32 {
      Transpose32(A, B);
    }
    if A.Length1 == 64 {
      Transpose64(A, B);
    }
    if A.Length1 == 61 {
      Transpose61(A, B);
    }
  }
}
