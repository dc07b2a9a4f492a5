/**
  Conway's Game of Life on an n x n board (gol.c; gol2.c repeats the cell rule
  and the row-size computation verbatim).

  A cell is an unsigned char: the board is loaded from a file byte for byte, a
  non-zero byte counts as alive, and every cell a generation writes is DEAD (0)
  or ALIVE (1). Positions outside the board are clipped: they contribute
  nothing to a neighbour count.
*/
module Life {
  import opened Wrappers

  /** An unsigned char. */
  type Byte = b: int | 0 <= b < 256

  const Dead: Byte := 0
  const Alive: Byte := 1
  /** A live cell with fewer living neighbours dies. */
  const MinimumSurrounding: nat := 2
  /** A live cell with more living neighbours dies. */
  const MaxSurrounding: nat := 3
  /** A dead cell with exactly this many living neighbours comes alive. */
  const MakeAliveThreshold: nat := 3

  /** Rows of cells; `IsSquare` says when it is an n x n board. */
  type Board = seq<seq<Byte>>

  /** A board position (row, column). */
  type Cell = (int, int)

  predicate IsSquare(b: Board, n: nat)
  {
    |b| == n && forall i | 0 <= i < n :: |b[i]| == n
  }

  predicate InBoard(n: nat, c: Cell)
  {
    0 <= c.0 < n && 0 <= c.1 < n
  }

  /** Every cell is DEAD or ALIVE. */
  predicate IsBinary(b: Board)
  {
    forall i, j | 0 <= i < |b| && 0 <= j < |b[i]| :: b[i][j] == Dead || b[i][j] == Alive
  }

  /** The byte at a position, or 0 outside the board. */
  function ClippedAt(b: Board, n: nat, c: Cell): Byte
    requires IsSquare(b, n)
  {
    if InBoard(n, c) then b[c.0][c.1] else 0
  }

  /** The eight neighbour offsets, in the order the loops of update_cell visit them. */
  const Offsets: seq<Cell> := [(-1, -1), (-1, 0), (-1, 1), (0, -1), (0, 1), (1, -1), (1, 0), (1, 1)]

  /** The position at an offset from (i, j). */
  function Shift(i: int, j: int, o: Cell): Cell
  {
    (i + o.0, j + o.1)
  }

  /** The sum of the clipped bytes at the given offsets from (i, j). */
  function SumAt(b: Board, n: nat, i: int, j: int, offs: seq<Cell>): nat
    requires IsSquare(b, n)
  {
    if |offs| == 0 then 0 else ClippedAt(b, n, Shift(i, j, offs[0])) + SumAt(b, n, i, j, offs[1..])
  }

  /**
    living_neighbours: the in-bounds neighbours summed into an unsigned char,
    so the sum wraps modulo 256.
  */
  function LivingNeighbours(b: Board, n: nat, i: int, j: int): Byte
    requires IsSquare(b, n)
  {
    SumAt(b, n, i, j, Offsets) % 256
  }

  /** The Game of Life rule: survive on 2 or 3 living neighbours, be born on exactly 3. */
  predicate Conway(alive: bool, neighbours: nat)
  {
    if alive then neighbours == 2 || neighbours == 3 else neighbours == 3
  }

  /** update_cell: the value the workspace receives for cell (i, j). */
  function NextCell(b: Board, n: nat, i: nat, j: nat): (c: Byte)
    requires IsSquare(b, n) && i < n && j < n
    ensures c == Dead || c == Alive
    ensures c == Alive <==> Conway(b[i][j] != Dead, LivingNeighbours(b, n, i, j))
  {
    var living := LivingNeighbours(b, n, i, j);
    if b[i][j] != Dead then
      if living < MinimumSurrounding || living > MaxSurrounding then Dead else Alive
    else
      if living == MakeAliveThreshold then Alive else Dead
  }

  /** The positions at the given offsets from (i, j) that lie on the board and hold a live cell. */
  function LiveAt(b: Board, n: nat, i: int, j: int, offs: seq<Cell>): set<Cell>
    requires IsSquare(b, n)
  {
    set o | o in offs && ClippedAt(b, n, Shift(i, j, o)) != Dead
  }

  /** On a DEAD/ALIVE board, summing distinct offsets counts the live in-bounds positions among them. */
  lemma {:induction false} SumAtCounts(b: Board, n: nat, i: int, j: int, offs: seq<Cell>)
    requires IsSquare(b, n) && IsBinary(b)
    requires forall p, q | 0 <= p < q < |offs| :: offs[p] != offs[q]
    ensures SumAt(b, n, i, j, offs) == |LiveAt(b, n, i, j, offs)| <= |offs|
  {
    if |offs| > 0 {
      var rest := offs[1..];
      assert forall p, q | 0 <= p < q < |rest| :: rest[p] != rest[q] by {
        forall p, q | 0 <= p < q < |rest|
          ensures rest[p] != rest[q]
        {
          assert rest[p] == offs[p + 1] && rest[q] == offs[q + 1];
        }
      }
      SumAtCounts(b, n, i, j, rest);
      var o := offs[0];
      assert o !in rest by {
        forall p | 0 <= p < |rest|
          ensures rest[p] != o
        {
          assert rest[p] == offs[p + 1];
        }
      }
      var c := Shift(i, j, o);
      if InBoard(n, c) {
        assert ClippedAt(b, n, c) == b[c.0][c.1];
      }
      if ClippedAt(b, n, c) != Dead {
        assert ClippedAt(b, n, c) == 1;
        assert LiveAt(b, n, i, j, offs) == {o} + LiveAt(b, n, i, j, rest);
      } else {
        assert LiveAt(b, n, i, j, offs) == LiveAt(b, n, i, j, rest);
      }
    }
  }

  /**
    On a DEAD/ALIVE board the neighbour count does not wrap: it is the number of
    live positions among the eight neighbours that lie on the board, at most 8,
    and the cell itself is not among them.
  */
  lemma LivingNeighboursCounts(b: Board, n: nat, i: int, j: int)
    requires IsSquare(b, n) && IsBinary(b)
    ensures LivingNeighbours(b, n, i, j) == |LiveAt(b, n, i, j, Offsets)| <= 8
    ensures (0, 0) !in LiveAt(b, n, i, j, Offsets)
  {
    OffsetsDistinct();
    SumAtCounts(b, n, i, j, Offsets);
    assert (0, 0) !in Offsets;
  }

  /** The eight offsets are pairwise distinct. */
  lemma OffsetsDistinct()
    ensures forall p, q | 0 <= p < q < |Offsets| :: Offsets[p] != Offsets[q]
  {
    forall p, q | 0 <= p < q < |Offsets|
      ensures Offsets[p] != Offsets[q]
    {
      assert Offsets[p].0 * 3 + Offsets[p].1 < Offsets[q].0 * 3 + Offsets[q].1;
    }
  }

  // ---------------------------------------------------------------------------
  // One generation (gol.c:106-123)
  // ---------------------------------------------------------------------------

  /** The synchronous next generation: every cell computed from the old board alone. */
  function Generation(b: Board, n: nat): (g: Board)
    requires IsSquare(b, n)
    ensures IsSquare(g, n) && IsBinary(g)
  {
    seq(n, i requires 0 <= i < n => seq(n, j requires 0 <= j < n => NextCell(b, n, i, j)))
  }

  /**
    update_matrix: fill the workspace row by row from the old board, then swap
    the two buffers. The new board is the synchronous next generation and the
    old board becomes the workspace.
  */
  method UpdateMatrix(board: Board, workspace: Board, n: nat) returns (board': Board, workspace': Board)
    requires IsSquare(board, n) && IsSquare(workspace, n)
    ensures board' == Generation(board, n)
    ensures workspace' == board
  {
    var ws: Board := workspace;
    var i := 0;
    while i < n
      invariant 0 <= i <= n
      invariant IsSquare(ws, n)
      invariant forall r | 0 <= r < i :: ws[r] == Generation(board, n)[r]
      invariant forall r | i <= r < n :: ws[r] == workspace[r]
    {
      var j := 0;
      while j < n
        invariant 0 <= j <= n
        invariant IsSquare(ws, n)
        invariant forall r | 0 <= r < i :: ws[r] == Generation(board, n)[r]
        invariant forall r | i < r < n :: ws[r] == workspace[r]
        invariant forall c | 0 <= c < j :: ws[i][c] == NextCell(board, n, i, c)
        invariant forall c | j <= c < n :: ws[i][c] == workspace[i][c]
      {
        var row: seq<Byte> := ws[i][j := NextCell(board, n, i, j)];
        ws := ws[i := row];
        j := j + 1;
      }
      assert ws[i] == Generation(board, n)[i];
      i := i + 1;
    }
    board', workspace' := ws, board;
  }

  // ---------------------------------------------------------------------------
  // Visit order does not matter
  // ---------------------------------------------------------------------------

  /** Write the next value of one cell into the workspace. */
  function UpdateAt(board: Board, ws: Board, n: nat, c: Cell): (ws': Board)
    requires IsSquare(board, n) && IsSquare(ws, n) && InBoard(n, c)
    ensures IsSquare(ws', n)
  {
    var row: seq<Byte> := ws[c.0][c.1 := NextCell(board, n, c.0, c.1)];
    ws[c.0 := row]
  }

  /** Write the next values of the given cells, in the given order. */
  function ApplyUpdates(board: Board, ws: Board, n: nat, cells: seq<Cell>): (ws': Board)
    requires IsSquare(board, n) && IsSquare(ws, n)
    requires forall k | 0 <= k < |cells| :: InBoard(n, cells[k])
    ensures IsSquare(ws', n)
    decreases |cells|
  {
    if |cells| == 0 then ws
    else ApplyUpdates(board, UpdateAt(board, ws, n, cells[0]), n, cells[1..])
  }

  /**
    Whatever the order and repetitions, a visited cell ends up with its next
    value and an unvisited cell keeps its workspace value.
  */
  lemma {:induction false} ApplyUpdatesCells(board: Board, ws: Board, n: nat, cells: seq<Cell>)
    requires IsSquare(board, n) && IsSquare(ws, n)
    requires forall k | 0 <= k < |cells| :: InBoard(n, cells[k])
    ensures forall r, c | 0 <= r < n && 0 <= c < n ::
      ApplyUpdates(board, ws, n, cells)[r][c] == if (r, c) in cells then NextCell(board, n, r, c) else ws[r][c]
    decreases |cells|
  {
    if |cells| > 0 {
      var ws1 := UpdateAt(board, ws, n, cells[0]);
      ApplyUpdatesCells(board, ws1, n, cells[1..]);
      forall r, c | 0 <= r < n && 0 <= c < n
        ensures ApplyUpdates(board, ws, n, cells)[r][c] == if (r, c) in cells then NextCell(board, n, r, c) else ws[r][c]
      {
        assert (r, c) in cells <==> (r, c) == cells[0] || (r, c) in cells[1..];
      }
    }
  }

  /** Updating one more cell after a run of updates is the run extended by that cell. */
  lemma {:induction false} ApplyUpdatesSnoc(board: Board, ws: Board, n: nat, cells: seq<Cell>, c: Cell)
    requires IsSquare(board, n) && IsSquare(ws, n) && InBoard(n, c)
    requires forall k | 0 <= k < |cells| :: InBoard(n, cells[k])
    ensures ApplyUpdates(board, ws, n, cells + [c]) == UpdateAt(board, ApplyUpdates(board, ws, n, cells), n, c)
    decreases |cells|
  {
    if |cells| == 0 {
      assert cells + [c] == [c];
    } else {
      assert (cells + [c])[1..] == cells[1..] + [c];
      ApplyUpdatesSnoc(board, UpdateAt(board, ws, n, cells[0]), n, cells[1..], c);
    }
  }

  /** Visiting every cell, in any order, yields the synchronous next generation. */
  lemma ApplyUpdatesGeneration(board: Board, ws: Board, n: nat, cells: seq<Cell>)
    requires IsSquare(board, n) && IsSquare(ws, n)
    requires forall k | 0 <= k < |cells| :: InBoard(n, cells[k])
    requires forall r, c | 0 <= r < n && 0 <= c < n :: (r, c) in cells
    ensures ApplyUpdates(board, ws, n, cells) == Generation(board, n)
  {
    ApplyUpdatesCells(board, ws, n, cells);
    var g, a := Generation(board, n), ApplyUpdates(board, ws, n, cells);
    forall r | 0 <= r < n
      ensures a[r] == g[r]
    {
      assert forall c | 0 <= c < n :: a[r][c] == g[r][c];
    }
  }

  // ---------------------------------------------------------------------------
  // Row size (gol.c:206-216)
  // ---------------------------------------------------------------------------

  function Pow2(k: nat): (p: nat)
    ensures p >= 1
  {
    if k == 0 then 1 else 2 * Pow2(k - 1)
  }

  function Pow4(k: nat): (p: nat)
    ensures p >= 1
  {
    if k == 0 then 1 else 4 * Pow4(k - 1)
  }

  lemma {:induction false} Pow2Even(k: nat)
    ensures Pow2(2 * k) == Pow4(k) == Pow2(k) * Pow2(k)
  {
    if k > 0 {
      Pow2Even(k - 1);
      assert Pow2(2 * k) == 4 * Pow2(2 * (k - 1));
      assert Pow2(k) * Pow2(k) == 4 * (Pow2(k - 1) * Pow2(k - 1));
    }
  }

  /**
    get_row_size: the side of a square board of `size` cells, for sizes 4^k
    with 1 <= k <= 15, found by trying 1 << 2, 1 << 4, ..., 1 << 30. Any other
    size, 1 included, reaches assert(0): None.
  */
  method GetRowSize(size: int) returns (r: Option<nat>)
    ensures r.Some? <==> exists k :: 1 <= k <= 15 && Pow4(k) == size
    ensures r.Some? ==> r.value * r.value == size
    ensures r.Some? ==> exists k :: 1 <= k <= 15 && r.value == Pow2(k)
  {
    var half := 1;
    while half < 16
      invariant 1 <= half <= 16
      invariant forall k | 1 <= k < half :: Pow4(k) != size
    {
      var bitCount := 2 * half;
      Pow2Even(half);
      if Pow2(bitCount) == size {
        RowSizeFound(half, size);
        return Some(Pow2(half));
      }
      half := half + 1;
    }
    r := None;
  }

  /** A size 1 << 2k with 1 <= k <= 15 is a power of four whose root is 1 << k. */
  lemma RowSizeFound(half: nat, size: int)
    requires 1 <= half <= 15 && Pow2(2 * half) == size
    ensures exists k :: 1 <= k <= 15 && Pow4(k) == size
    ensures Pow2(half) * Pow2(half) == size
    ensures exists k :: 1 <= k <= 15 && Pow2(half) == Pow2(k)
  {
    Pow2Even(half);
    assert Pow4(half) == size;
  }
}
