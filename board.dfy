/**
 * The board of the sliding puzzle: a size-by-size grid of ints kept in one
 * contiguous block. allocateBoard points row 0 at the start of the block and
 * every further row `size` cells after the one before it, so the cell at
 * (row, col) is element `row * size + col` of the block.
 */
module Board {

  /** A cell coordinate: row from the top, column from the left. */
  datatype Position = Position(row: int, col: int)

  /** Number of cells of a size-by-size board. */
  function BoardArea(size: int): int
  {
    size * size
  }

  /** Whether a coordinate names a cell of the grid. */
  predicate InGrid(size: int, p: Position)
  {
    0 <= p.row < size && 0 <= p.col < size
  }

  /** Where row `row` starts in the block: each row pointer is `size` cells after the previous one. */
  function RowStart(size: int, row: nat): int
  {
    if row == 0 then 0 else RowStart(size, row - 1) + size
  }

  /** The row pointers allocateBoard builds step by step land where `row * size` says. */
  lemma {:induction false} RowStartIsProduct(size: int, row: nat)
    ensures RowStart(size, row) == row * size
  {
    if row > 0 {
      RowStartIsProduct(size, row - 1);
      assert row * size == (row - 1) * size + size;
    }
  }

  /** With a non-negative size, no row pointer lies before the block. */
  lemma {:induction false} RowStartNonNegative(size: int, row: nat)
    requires size >= 0
    ensures RowStart(size, row) >= 0
  {
    if row > 0 {
      RowStartNonNegative(size, row - 1);
    }
  }

  /** Where cell `p` lives in the block: `p.col` cells into its row. */
  function Offset(size: int, p: Position): int
    requires p.row >= 0
  {
    RowStart(size, p.row) + p.col
  }

  /** The cell that lives at offset `i` of the block. */
  function PositionAt(size: int, i: int): Position
    requires size > 0
  {
    Position(i / size, i % size)
  }

  /** A positive multiple of `b` is at least `b`. */
  lemma MultipleAtLeast(a: int, b: int)
    requires a >= 1 && b > 0
    ensures a * b >= b
  {
    assert a * b == (a - 1) * b + b;
  }

  /** Division by `size` recovers row and column from an offset. */
  lemma DivModUnique(size: int, row: int, col: int, i: int)
    requires size > 0 && 0 <= col < size && i == row * size + col
    ensures i / size == row && i % size == col
  {
    var q, m := i / size, i % size;
    assert (row - q) * size == m - col by {
      assert i == q * size + m;
      assert (row - q) * size == row * size - q * size;
    }
    if row > q {
      MultipleAtLeast(row - q, size);
    } else if row < q {
      MultipleAtLeast(q - row, size);
    }
  }

  /** Every row of the grid lies inside the block, the next one starting where it ends. */
  lemma RowEnd(size: int, row: int)
    requires 0 <= row < size
    ensures 0 <= RowStart(size, row) && RowStart(size, row + 1) <= BoardArea(size)
  {
    RowStartNonNegative(size, row);
    RowStartIsProduct(size, row + 1);
    ScaleMonotone(size, row + 1, size);
  }

  /** The last row of the grid ends exactly at the end of the block. */
  lemma LastRowEnd(size: int)
    requires size >= 0
    ensures RowStart(size, size) == BoardArea(size)
  {
    RowStartIsProduct(size, size);
  }

  /** Every cell of the grid has an offset inside the block, and the offset determines the cell. */
  lemma OffsetInBoard(size: int, p: Position)
    requires InGrid(size, p)
    ensures 0 <= Offset(size, p) < BoardArea(size)
    ensures PositionAt(size, Offset(size, p)) == p
  {
    RowEnd(size, p.row);
    RowStartIsProduct(size, p.row);
    DivModUnique(size, p.row, p.col, Offset(size, p));
  }

  /** Scaling by a non-negative factor keeps the order. */
  lemma ScaleMonotone(a: int, b: int, c: int)
    requires a >= b && c >= 0
    ensures a * c >= b * c
  {
    assert a * c - b * c == (a - b) * c;
  }

  /** Every offset inside the block belongs to exactly one cell of the grid. */
  lemma PositionInGrid(size: int, i: int)
    requires size > 0 && 0 <= i < BoardArea(size)
    ensures InGrid(size, PositionAt(size, i))
    ensures Offset(size, PositionAt(size, i)) == i
  {
    var q, m := i / size, i % size;
    assert i == q * size + m && 0 <= m < size;
    if q >= size {
      ScaleMonotone(q, size, size);
    } else if q < 0 {
      ScaleMonotone(0, q + 1, size);
    }
    RowStartIsProduct(size, q);
  }

  /**
   * The cell isSolvable compares against, `board[row + n / size][col + n % size]`,
   * is element `row * size + col + n` of the block: the column may run past the
   * end of its row, and the read then lands in the next row of the block.
   */
  lemma InnerReadOffset(size: int, row: int, col: int, n: int)
    requires size > 0 && n >= 0
    ensures (row + n / size) * size + (col + n % size) == row * size + col + n
  {
    assert n == (n / size) * size + n % size;
    assert (row + n / size) * size == row * size + (n / size) * size;
  }

  /** Cell `p` of the grid holds the 0 in block `s`. */
  predicate BlankIsAt(size: int, s: seq<int>, p: Position)
  {
    InGrid(size, p) && 0 <= Offset(size, p) < |s| && s[Offset(size, p)] == 0
  }

  /** `s` holds each of 0 .. n-1 exactly once. */
  predicate IsPermutation(s: seq<int>, n: int)
  {
    && |s| == n
    && (forall i :: 0 <= i < |s| ==> 0 <= s[i] < n)
    && (forall i, j :: 0 <= i < j < |s| ==> s[i] != s[j])
    && (forall v :: 0 <= v < n ==> v in s)
  }

  /** The single 0 of `s` sits at `p` and every other value is a positive tile. */
  predicate BlankAt(s: seq<int>, p: int)
  {
    && 0 <= p < |s|
    && s[p] == 0
    && (forall i :: 0 <= i < |s| && i != p ==> s[i] > 0)
  }

  /** In a permutation the 0 is the blank, unique. */
  lemma PermutationBlank(s: seq<int>, n: int, p: int)
    requires IsPermutation(s, n) && 0 <= p < |s| && s[p] == 0
    ensures BlankAt(s, p)
  {
    forall i | 0 <= i < |s| && i != p
      ensures s[i] > 0
    {
      if i < p {
        assert s[i] != s[p];
      } else {
        assert s[p] != s[i];
      }
    }
  }

  /** The goal arrangement: tiles 1 .. n-1 in order, the blank in the last cell. */
  function Goal(n: int): seq<int>
    requires n >= 1
  {
    seq(n, i => if i < n - 1 then i + 1 else 0)
  }

  lemma GoalIsPermutation(n: int)
    requires n >= 1
    ensures IsPermutation(Goal(n), n)
    ensures BlankAt(Goal(n), n - 1)
  {
    var g := Goal(n);
    forall v | 0 <= v < n
      ensures v in g
    {
      if v == 0 {
        assert g[n - 1] == v;
      } else {
        assert g[v - 1] == v;
      }
    }
  }
}
