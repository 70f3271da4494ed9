/** The procedures of life.c over mutable matrices: allocation with zeroing,
    and the generation step for the three border rules, each proved to
    write LifeSpec.NextGeneration of the matrix it reads. */
module Life {
  import opened LifeSpec

  /** The generation a matrix holds. */
  ghost function Snapshot(m: array2<byte>): (g: Generation)
    reads m
    ensures g.Valid() && g.rows == m.Length0 && g.cols == m.Length1
    ensures forall r, c :: 0 <= r < m.Length0 && 0 <= c < m.Length1 ==> g.cells[r][c] == m[r, c]
  {
    Generation(m.Length0, m.Length1,
      seq(m.Length0, r requires 0 <= r < m.Length0 reads m =>
        seq(m.Length1, c requires 0 <= c < m.Length1 reads m => m[r, c])))
  }

  /** Sets every cell of m to 0: the zeroing loops of init_matrix and the
      clearing of A at the end of each generation step. */
  method ZeroMatrix(m: array2<byte>)
    modifies m
    ensures forall r, c :: 0 <= r < m.Length0 && 0 <= c < m.Length1 ==> m[r, c] == 0
  {
    for i := 0 to m.Length0
      invariant forall r, c :: 0 <= r < i && 0 <= c < m.Length1 ==> m[r, c] == 0
    {
      for j := 0 to m.Length1
        invariant forall r, c :: 0 <= r < i && 0 <= c < m.Length1 ==> m[r, c] == 0
        invariant forall c :: 0 <= c < j ==> m[i, c] == 0
      {
        m[i, j] := 0;
      }
    }
  }

  /** init_matrix: either no matrix (an allocation failed; the caller sees
      NULL) or a fresh rows x cols matrix of zeros. Whether memory runs out
      is the allocator's decision, given here as outOfMemory. */
  method InitMatrix(rows: nat, cols: nat, outOfMemory: bool) returns (m: array2?<byte>)
    ensures m == null <==> outOfMemory
    ensures m != null ==> fresh(m) && m.Length0 == rows && m.Length1 == cols
    ensures m != null ==> forall r, c :: 0 <= r < rows && 0 <= c < cols ==> m[r, c] == 0
  {
    if outOfMemory {
      return null;
    }
    var a := new byte[rows, cols];
    ZeroMatrix(a);
    m := a;
  }

  /** The x, y loops of a generation step: `chk` for cell (i, j), the live
      cells over the nine offsets of its window, out-of-range offsets
      resolved by the border rule. Reads A only. */
  method CountWindow(A: array2<byte>, border: Border, i: nat, j: nat) returns (chk: int)
    requires i < A.Length0 && j < A.Length1
    ensures chk == WindowCount(Snapshot(A), border, Coord(i, j))
    ensures chk == Neighbours(Snapshot(A), border, Coord(i, j)) + (if A[i, j] == 1 then 1 else 0)
  {
    ghost var g := Snapshot(A);
    ghost var p := Coord(i, j);
    chk := 0;
    for x := -1 to 2
      invariant chk == WindowSum(g, border, p, x)
    {
      chk := CountRow(A, border, i, j, x, chk);
    }
    WindowSumIsWindowCount(g, border, p);
    WindowSplitsAtCentre(g, border, p);
  }

  /** The y loop for one row offset x: adds to chk the live cells at
      offsets (x, -1), (x, 0), (x, 1) of cell (i, j). */
  method CountRow(A: array2<byte>, border: Border, i: nat, j: nat, x: int, chk0: int) returns (chk: int)
    requires i < A.Length0 && j < A.Length1
    ensures chk == chk0 + RowSum(Snapshot(A), border, Coord(i, j), x, 2)
  {
    ghost var g := Snapshot(A);
    ghost var p := Coord(i, j);
    chk := chk0;
    for y := -1 to 2
      invariant chk == chk0 + RowSum(g, border, p, x, y)
    {
      var q := Neighbour(border, A.Length0, A.Length1, Coord(i + x, j + y));
      assert LiveAt(g, border, p, x, y) == if q.Some? && A[q.value.row, q.value.col] == 1 then 1 else 0;
      if q.Some? && A[q.value.row, q.value.col] == 1 {
        chk := chk + 1;
      }
    }
  }

  /** The body of the i, j loops: the next state of cell (i, j), decided
      from A as the C code does it (take the centre off `chk`, then
      survival on 2 or 3, birth on exactly 3), written to B[i, j] alone. */
  method WriteNext(A: array2<byte>, B: array2<byte>, border: Border, i: nat, j: nat)
    requires A != B
    requires B.Length0 == A.Length0 && B.Length1 == A.Length1
    requires i < A.Length0 && j < A.Length1
    modifies B
    ensures B[i, j] == NextCell(Snapshot(A), border, Coord(i, j))
    ensures forall r, c :: 0 <= r < B.Length0 && 0 <= c < B.Length1 && (r != i || c != j) ==>
      B[r, c] == old(B[r, c])
  {
    var chk := CountWindow(A, border, i, j);
    if A[i, j] == 1 {
      chk := chk - 1;
      if chk < 2 {
        B[i, j] := 0;
      } else if chk > 3 {
        B[i, j] := 0;
      } else {
        B[i, j] := 1;
      }
    } else {
      B[i, j] := 0;
      if chk == 3 {
        B[i, j] := 1;
      }
    }
  }

  /** The j loop for row i: B[i, c] receives the next state of every
      cell (i, c); every other row of B and all of A are left as they were. */
  method AdvanceRow(A: array2<byte>, B: array2<byte>, border: Border, i: nat, ghost g: Generation)
    requires A != B
    requires B.Length0 == A.Length0 && B.Length1 == A.Length1
    requires i < A.Length0 && g == Snapshot(A)
    modifies B
    ensures forall c :: 0 <= c < B.Length1 ==> B[i, c] == NextCell(g, border, Coord(i, c))
    ensures forall r, c :: 0 <= r < B.Length0 && 0 <= c < B.Length1 && r != i ==> B[r, c] == old(B[r, c])
  {
    for j := 0 to A.Length1
      invariant forall c :: 0 <= c < j ==> B[i, c] == NextCell(g, border, Coord(i, c))
      invariant forall r, c :: 0 <= r < B.Length0 && 0 <= c < B.Length1 && r != i ==> B[r, c] == old(B[r, c])
    {
      WriteNext(A, B, border, i, j);
    }
  }

  /** One generation step (hedge_life, torus_life, klein_life): B receives
      the next generation of what A held on entry, computed without
      changing A, and then every cell of A is cleared to 0. */
  method Advance(A: array2<byte>, B: array2<byte>, border: Border)
    requires A != B
    requires B.Length0 == A.Length0 && B.Length1 == A.Length1
    modifies A, B
    ensures Snapshot(B) == NextGeneration(old(Snapshot(A)), border)
    ensures forall r, c :: 0 <= r < A.Length0 && 0 <= c < A.Length1 ==> A[r, c] == 0
  {
    ghost var g := Snapshot(A);
    for i := 0 to A.Length0
      invariant g == Snapshot(A)
      invariant forall r, c :: 0 <= r < i && 0 <= c < A.Length1 ==> B[r, c] == NextCell(g, border, Coord(r, c))
    {
      AdvanceRow(A, B, border, i, g);
    }
    ZeroMatrix(A);
    GenerationsEqual(Snapshot(B), NextGeneration(g, border));
  }

  /** hedge_life: cells beyond the edges are permanently dead. */
  method HedgeLife(A: array2<byte>, B: array2<byte>)
    requires A != B
    requires B.Length0 == A.Length0 && B.Length1 == A.Length1
    modifies A, B
    ensures Snapshot(B) == NextGeneration(old(Snapshot(A)), Hedge)
    ensures forall r, c :: 0 <= r < A.Length0 && 0 <= c < A.Length1 ==> A[r, c] == 0
  {
    Advance(A, B, Hedge);
  }

  /** torus_life: opposite edges are adjacent. */
  method TorusLife(A: array2<byte>, B: array2<byte>)
    requires A != B
    requires B.Length0 == A.Length0 && B.Length1 == A.Length1
    modifies A, B
    ensures Snapshot(B) == NextGeneration(old(Snapshot(A)), Torus)
    ensures forall r, c :: 0 <= r < A.Length0 && 0 <= c < A.Length1 ==> A[r, c] == 0
  {
    Advance(A, B, Torus);
  }

  /** klein_life: left and right edges are adjacent; top and bottom are
      adjacent with the columns mirrored. */
  method KleinLife(A: array2<byte>, B: array2<byte>)
    requires A != B
    requires B.Length0 == A.Length0 && B.Length1 == A.Length1
    modifies A, B
    ensures Snapshot(B) == NextGeneration(old(Snapshot(A)), Klein)
    ensures forall r, c :: 0 <= r < A.Length0 && 0 <= c < A.Length1 ==> A[r, c] == 0
  {
    Advance(A, B, Klein);
  }

  /** Two steps with the roles of the matrices exchanged, as the display
      loop calls them (gl.c:137-142): A ends up two generations on, and B,
      the matrix read by the second step, is all zeros. */
  method TwoGenerations(A: array2<byte>, B: array2<byte>, border: Border)
    requires A != B
    requires B.Length0 == A.Length0 && B.Length1 == A.Length1
    modifies A, B
    ensures Snapshot(A) == NextGeneration(NextGeneration(old(Snapshot(A)), border), border)
    ensures forall r, c :: 0 <= r < B.Length0 && 0 <= c < B.Length1 ==> B[r, c] == 0
  {
    Advance(A, B, border);
    Advance(B, A, border);
  }
}
