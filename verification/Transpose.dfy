/** The blocked transpose of mps/04/trans.c against the plain one. */
module Transpose {
  import opened Wrappers

  /** Cell (i, j) of the source has reached the target. */
  ghost predicate Moved(A: array2<int>, B: array2<int>, i: int, j: int)
    reads A, B
  {
    && 0 <= i < A.Length0 && 0 <= j < A.Length1 && j < B.Length0 && i < B.Length1
    && B[j, i] == A[i, j]
  }

  ghost predicate Transposed(A: array2<int>, B: array2<int>)
    reads A, B
  {
    forall i, j | 0 <= i < A.Length0 && 0 <= j < A.Length1 :: Moved(A, B, i, j)
  }

  /** A is N by M and B is M by N. */
  ghost predicate Shaped(M: nat, N: nat, A: array2<int>, B: array2<int>) {
    A != B && A.Length0 == N && A.Length1 == M && B.Length0 == M && B.Length1 == N
  }

  /** is_transpose */
  method IsTranspose(M: nat, N: nat, A: array2<int>, B: array2<int>) returns (r: bool)
    requires Shaped(M, N, A, B)
    ensures r <==> Transposed(A, B)
  {
    for i := 0 to N
      invariant forall k, j | 0 <= k < i && 0 <= j < M :: Moved(A, B, k, j)
    {
      for j := 0 to M
        invariant forall l | 0 <= l < j :: Moved(A, B, i, l)
      {
        if A[i, j] != B[j, i] {
          assert !Moved(A, B, i, j);
          return false;
        }
      }
    }
    return true;
  }

  /** trans */
  method Trans(M: nat, N: nat, A: array2<int>, B: array2<int>)
    requires Shaped(M, N, A, B)
    modifies B
    ensures Transposed(A, B)
  {
    for i := 0 to N
      invariant forall k, j | 0 <= k < i && 0 <= j < M :: Moved(A, B, k, j)
    {
      for j := 0 to M
        invariant forall k, l | 0 <= k < i && 0 <= l < M :: Moved(A, B, k, l)
        invariant forall l | 0 <= l < j :: Moved(A, B, i, l)
      {
        label Cell:
        var tmp := A[i, j];
        B[j, i] := tmp;
        forall k, l | 0 <= k < N && 0 <= l < M && old@Cell(Moved(A, B, k, l))
          ensures Moved(A, B, k, l)
        {
        }
      }
    }
  }

  /** What was moved stays moved. */
  twostate predicate Keeps(A: array2<int>, B: array2<int>)
    reads A, B
  {
    forall i, j | old(Moved(A, B, i, j)) :: Moved(A, B, i, j)
  }

  /** Rows of B from `limit` on are untouched. */
  twostate predicate LeavesRows(B: array2<int>, limit: int)
    reads B
  {
    forall i, j | limit <= j < B.Length0 && 0 <= j && 0 <= i < B.Length1 :: B[j, i] == old(B[j, i])
  }

  /** The innermost loop, over columns column..to of row i. */
  method MoveRow(A: array2<int>, B: array2<int>, i: nat, column: nat, to: nat, temp0: int, diagonal0: nat)
    returns (temp: int, diagonal: nat)
    requires Shaped(A.Length1, A.Length0, A, B) && i < A.Length0 && column <= to <= A.Length1
    modifies B
    ensures forall j | column <= j < to && j != i :: B[j, i] == A[i, j]
    ensures Keeps(A, B) && LeavesRows(B, to)
    ensures forall k, j | 0 <= k < A.Length0 && 0 <= j < A.Length1 && (k != i || j < column) :: B[j, k] == old(B[j, k])
    ensures column <= i < to ==> B[i, i] == old(B[i, i])
    ensures if column <= i < to then temp == A[i, i] && diagonal == i else temp == temp0 && diagonal == diagonal0
  {
    temp, diagonal := temp0, diagonal0;
    for j := column to to
      invariant forall l | column <= l < j && l != i :: B[l, i] == A[i, l]
      invariant Keeps(A, B) && LeavesRows(B, to)
      invariant forall k, l | 0 <= k < A.Length0 && 0 <= l < A.Length1 && (k != i || l < column) ::
                  B[l, k] == old(B[l, k])
      invariant column <= i < to ==> B[i, i] == old(B[i, i])
      invariant if column <= i < j then temp == A[i, i] && diagonal == i else temp == temp0 && diagonal == diagonal0
    {
      if i != j {
        B[j, i] := A[i, j];
      } else {
        temp := A[i, j];
        diagonal := i;
      }
    }
  }

  /** `temp` and `diagonal` hold a diagonal cell, perhaps one of an earlier row. */
  ghost predicate OnDiagonal(A: array2<int>, temp: int, diagonal: nat)
    reads A
  {
    diagonal < A.Length0 && diagonal < A.Length1 && temp == A[diagonal, diagonal]
  }

  /** One block of `size` columns from `column` on and rows row..bottom.  The diagonal
      cell of a row is written after the row; where a row has none, the last one is
      written again. */
  method MoveBlock(A: array2<int>, B: array2<int>, row: nat, bottom: nat, column: nat, to: nat, size: nat, temp0: int,
                   diagonal0: nat)
    returns (temp: int, diagonal: nat)
    requires Shaped(A.Length1, A.Length0, A, B)
    requires row < bottom <= A.Length0 && bottom <= row + size && column < to <= A.Length1 && to <= column + size
    requires row == column || row + size <= column || column + size <= row
    requires to == column + size || to == A.Length1
    requires row == column == 0 || OnDiagonal(A, temp0, diagonal0)
    modifies B
    ensures forall i, j | row <= i < bottom && column <= j < to :: Moved(A, B, i, j)
    ensures Keeps(A, B) && LeavesRows(B, to) && OnDiagonal(A, temp, diagonal)
  {
    temp, diagonal := temp0, diagonal0;
    for i := row to bottom
      invariant forall k, j | row <= k < i && column <= j < to :: Moved(A, B, k, j)
      invariant Keeps(A, B) && LeavesRows(B, to)
      invariant (row == column == i == 0) || OnDiagonal(A, temp, diagonal)
      invariant row == column < i ==> diagonal < to
    {
      temp, diagonal := MoveRow(A, B, i, column, to, temp, diagonal);
      label Row:
      assert OnDiagonal(A, temp, diagonal);
      assert forall k, j | row <= k < i && column <= j < to :: Moved(A, B, k, j);
      if row == column {
        B[diagonal, diagonal] := temp;
      }
      forall k, j | row <= k <= i && column <= j < to
        ensures Moved(A, B, k, j)
      {
        assert k < i ==> old@Row(Moved(A, B, k, j));
      }
    }
  }

  /** The k-th multiple of the block size, which is 4 or 8. */
  predicate OnGrid(x: int, k: int, size: int) {
    (size == 4 && x == 4 * k) || (size == 8 && x == 8 * k)
  }

  /** The blocks of one column of blocks. */
  method MoveColumn(A: array2<int>, B: array2<int>, column: nat, to: nat, size: nat, temp0: int, diagonal0: nat,
                    ghost c: nat)
    returns (temp: int, diagonal: nat)
    requires Shaped(A.Length1, A.Length0, A, B) && OnGrid(column, c, size)
    requires column < to <= A.Length1 && to <= column + size && (to == column + size || to == A.Length1)
    requires column == 0 || A.Length0 == 0 || OnDiagonal(A, temp0, diagonal0)
    modifies B
    ensures forall i, j | 0 <= i < A.Length0 && column <= j < to :: Moved(A, B, i, j)
    ensures Keeps(A, B) && LeavesRows(B, to) && (A.Length0 == 0 || OnDiagonal(A, temp, diagonal))
  {
    temp, diagonal := temp0, diagonal0;
    var row := 0;
    ghost var r := 0;
    while row < A.Length0
      invariant OnGrid(row, r, size)
      invariant forall i, j | 0 <= i < A.Length0 && i < row && column <= j < to :: Moved(A, B, i, j)
      invariant Keeps(A, B) && LeavesRows(B, to)
      invariant (row == column == 0) || A.Length0 == 0 || OnDiagonal(A, temp, diagonal)
    {
      var bottom := Min(row + size, A.Length0);
      MultiplesApart(row, r, column, c, size);
      label Block:
      temp, diagonal := MoveBlock(A, B, row, bottom, column, to, size, temp, diagonal);
      forall i, j | 0 <= i < bottom && column <= j < to
        ensures Moved(A, B, i, j)
      {
        assert i < row ==> old@Block(Moved(A, B, i, j));
      }
      row := row + size;
      r := r + 1;
    }
  }

  lemma MultiplesApart(x: nat, p: nat, y: nat, q: nat, size: nat)
    requires OnGrid(x, p, size) && OnGrid(y, q, size)
    ensures x == y || x + size <= y || y + size <= x
    ensures OnGrid(x + size, p + 1, size)
  {
  }

  /** `Outside` is an access to A[i][j] beyond the rows and columns of A, and to B[j][i]. */
  datatype Outcome = Done | Outside(i: nat, j: nat)

  /** transpose_submit.  The branch for N = 64 takes the matrix to have 64 columns
      too.  With fewer, the first access outside the arrays is to column M of row 0; by
      then the whole blocks before it have been moved and the start of row 0 of the
      next.  With more, the rest of B keeps its old contents. */
  method TransposeSubmit(M: nat, N: nat, A: array2<int>, B: array2<int>) returns (r: Outcome)
    requires Shaped(M, N, A, B)
    modifies B
    ensures r == if N == 64 && M < 64 then Outside(0, M) else Done
    ensures r.Outside? ==> r.j == A.Length1 == B.Length0
    ensures r.Outside? ==> forall i, j | 0 <= i < N && 0 <= j < M ::
              B[j, i] == if j < M - M % 4 || (i == 0 && j != 0) then A[i, j] else old(B[j, i])
    ensures r.Done? ==> forall i, j | 0 <= i < N && 0 <= j < M ::
              B[j, i] == if N == 64 && j >= 64 then old(B[j, i]) else A[i, j]
    ensures r.Done? && Transposed(A, B) <==>
            N != 64 || M == 64 || (M > 64 && forall i, j | 0 <= i < N && 64 <= j < M :: old(B[j, i]) == A[i, j])
  {
    var diagonal, temp := 0, 0;
    var column := 0;
    ghost var c := 0;
    if N == 64 {
      while column < N
        invariant column == 4 * c && column <= N && column <= M
        invariant forall i, j | 0 <= i < N && 0 <= j < column :: Moved(A, B, i, j)
        invariant LeavesRows(B, column) && (column == 0 || OnDiagonal(A, temp, diagonal))
      {
        if column + 4 > M {
          label Edge:
          temp, diagonal := MoveRow(A, B, 0, column, M, temp, diagonal);
          assert column == M - M % 4;
          forall i, j | 0 <= i < N && 0 <= j < M
            ensures B[j, i] == if j < column || (i == 0 && j != 0) then A[i, j] else old(B[j, i])
          {
            assert j < column ==> old@Edge(Moved(A, B, i, j));
          }
          return Outside(0, M);
        }
        label Quad:
        temp, diagonal := MoveColumn(A, B, column, column + 4, 4, temp, diagonal, c);
        forall i, j | 0 <= i < N && 0 <= j < column + 4
          ensures Moved(A, B, i, j)
        {
          assert j < column ==> old@Quad(Moved(A, B, i, j));
        }
        column := column + 4;
        c := c + 1;
      }
    } else {
      while column < M
        invariant column == 8 * c
        invariant forall i, j | 0 <= i < N && 0 <= j < M && j < column :: Moved(A, B, i, j)
        invariant column == 0 || N == 0 || OnDiagonal(A, temp, diagonal)
      {
        var to := Min(column + 8, M);
        label Oct:
        temp, diagonal := MoveColumn(A, B, column, to, 8, temp, diagonal, c);
        forall i, j | 0 <= i < N && 0 <= j < to
          ensures Moved(A, B, i, j)
        {
          assert j < column ==> old@Oct(Moved(A, B, i, j));
        }
        column := column + 8;
        c := c + 1;
      }
    }
    forall i, j | 0 <= i < N && 0 <= j < M
      ensures B[j, i] == if N == 64 && j >= 64 then old(B[j, i]) else A[i, j]
    {
      assert (N == 64 && j >= 64) || Moved(A, B, i, j);
    }
    forall i, j | 0 <= i < N && 0 <= j < M
      ensures Moved(A, B, i, j) <==> B[j, i] == A[i, j]
    {
    }
    return Done;
  }
}
