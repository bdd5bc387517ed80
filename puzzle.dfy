/**
 * The game session: the board block, its size and the recorded blank
 * position, with the operations that update them in place.
 */
module Puzzle {
  import opened Board
  import opened InversionCount
  import opened Solvability
  import opened Moves

  /** The cell drawn from two consecutive rand() results: `rand() % size` for the row, then the column. */
  function Roll(size: int, rolls: seq<nat>, i: nat): (p: Position)
    requires size > 0 && i + 1 < |rolls|
    ensures InGrid(size, p)
  {
    Position(rolls[i] % size, rolls[i + 1] % size)
  }

  /** The last position below `k` that holds 0 in `s`, or -1 when none does. */
  function LastZero(s: seq<int>, k: int): int
    requires 0 <= k <= |s|
    decreases k
  {
    if k == 0 then -1 else if s[k - 1] == 0 then k - 1 else LastZero(s, k - 1)
  }

  /** LastZero is a position holding 0 with no 0 after it below `k`; -1 means there is no 0 at all. */
  lemma {:induction false} LastZeroFound(s: seq<int>, k: int)
    requires 0 <= k <= |s|
    ensures -1 <= LastZero(s, k) < k
    ensures LastZero(s, k) >= 0 ==> s[LastZero(s, k)] == 0
    ensures forall i :: LastZero(s, k) < i < k ==> s[i] != 0
    ensures LastZero(s, k) == -1 <==> 0 !in s[..k]
    decreases k
  {
    if k > 0 {
      LastZeroFound(s, k - 1);
      assert s[..k] == s[..k - 1] + [s[k - 1]];
    }
  }

  /**
   * While isSolvable has scanned the first `k` cells of `s`: `blank` names
   * the last of them that holds 0, or still holds `initial` if none does.
   */
  predicate BlankTracked(size: int, s: seq<int>, k: int, blank: Position, initial: Position)
    requires 0 <= k <= |s|
  {
    if LastZero(s, k) == -1 then blank == initial
    else InGrid(size, blank) && Offset(size, blank) == LastZero(s, k)
  }

  /** Once every cell has been scanned, BlankTracked says where the last 0 is, if any. */
  lemma TrackedAll(size: int, s: seq<int>, blank: Position, initial: Position)
    requires BlankTracked(size, s, |s|, blank, initial)
    ensures 0 in s ==> BlankIsAt(size, s, blank)
    ensures 0 in s ==> forall i :: Offset(size, blank) < i < |s| ==> s[i] != 0
    ensures 0 !in s ==> blank == initial
  {
    LastZeroFound(s, |s|);
    assert s[..|s|] == s;
  }

  /** The offsets 0 .. m-1 of a block of m cells. */
  ghost function Offsets(m: nat): (r: set<int>)
    ensures forall i :: i in r <==> 0 <= i < m
    ensures |r| == m
  {
    if m == 0 then {} else Offsets(m - 1) + {m - 1}
  }

  /**
   * The block part-way through populateBoard's fill loop: the cells still
   * holding -1 are exactly those in `free`, the others hold distinct values
   * below `n`, and each of 0 .. n-1 has been placed.
   */
  ghost predicate PartialFill(s: seq<int>, n: int, free: set<int>)
  {
    && (forall i :: 0 <= i < |s| ==> (s[i] == -1 <==> i in free))
    && (forall i :: i in free ==> 0 <= i < |s|)
    && (forall i :: 0 <= i < |s| ==> -1 <= s[i] < n)
    && (forall i, j :: 0 <= i < j < |s| && s[i] != -1 ==> s[i] != s[j])
    && (forall v :: 0 <= v < n ==> v in s)
  }

  /** After the reset every cell is free and nothing has been placed. */
  lemma EmptyFill(s: seq<int>, free: set<int>)
    requires forall i :: 0 <= i < |s| ==> s[i] == -1
    requires forall i :: i in free <==> 0 <= i < |s|
    ensures PartialFill(s, 0, free)
  {
  }

  /** Writing `n` into a free cell places the next value and uses up that cell. */
  lemma PlaceNext(s: seq<int>, n: int, free: set<int>, cell: int)
    requires PartialFill(s, n, free) && 0 <= n && 0 <= cell < |s| && s[cell] == -1
    ensures PartialFill(s[cell := n], n + 1, free - {cell})
    ensures |free - {cell}| == |free| - 1
  {
    var t := s[cell := n];
    forall v | 0 <= v < n + 1
      ensures v in t
    {
      if v == n {
        assert t[cell] == v;
      } else {
        assert v in s;
        var j :| 0 <= j < |s| && s[j] == v;
        assert t[j] == v;
      }
    }
  }

  /** Once no cell is free, the values 0 .. |s|-1 fill the block: a permutation. */
  lemma FillComplete(s: seq<int>, free: set<int>)
    requires PartialFill(s, |s|, free) && |free| == 0
    ensures IsPermutation(s, |s|)
  {
    assert free == {};
  }

  /** Whether the pair of rand() results at `i` names a cell of the block that still holds -1. */
  predicate DrawsFree(size: int, s: seq<int>, rolls: seq<nat>, i: nat)
    requires size > 0 && i + 1 < |rolls|
  {
    var c := Offset(size, Roll(size, rolls, i));
    0 <= c < |s| && s[c] == -1
  }

  /**
   * populateBoard's redraw loop on block `s`, drawing pairs from position `j`
   * of the rand() results: the cursor just past the first pair that names a
   * free cell, and whether such a pair came before the results ran out.
   */
  function FirstFree(size: int, s: seq<int>, rolls: seq<nat>, j: nat): (r: (nat, bool))
    requires size > 0 && j <= |rolls|
    ensures j <= r.0 <= |rolls|
    ensures r.1 ==> r.0 >= j + 2 && DrawsFree(size, s, rolls, r.0 - 2)
    ensures !r.1 ==> |rolls| < r.0 + 2
    decreases |rolls| - j
  {
    if |rolls| < j + 2 then (j, false)
    else if DrawsFree(size, s, rolls, j) then (j + 2, true)
    else FirstFree(size, s, rolls, j + 2)
  }

  /**
   * FirstFree consumes `draws` pairs, and every pair before the one it
   * stops at names a cell that is already filled: the redraw loop takes the
   * first free cell drawn, not any free cell.
   */
  lemma {:induction false} FirstFreeSkipsTaken(size: int, s: seq<int>, rolls: seq<nat>, j: nat)
    returns (draws: nat)
    requires size > 0 && j <= |rolls|
    ensures var r := FirstFree(size, s, rolls, j);
      r.0 == j + 2 * draws &&
      forall d :: 0 <= d < draws - (if r.1 then 1 else 0) ==> !DrawsFree(size, s, rolls, j + 2 * d)
    decreases |rolls| - j
  {
    if |rolls| < j + 2 {
      draws := 0;
    } else if DrawsFree(size, s, rolls, j) {
      draws := 1;
    } else {
      var later := FirstFreeSkipsTaken(size, s, rolls, j + 2);
      draws := later + 1;
      var r := FirstFree(size, s, rolls, j);
      forall d | 0 <= d < draws - (if r.1 then 1 else 0)
        ensures !DrawsFree(size, s, rolls, j + 2 * d)
      {
        if d > 0 {
          assert j + 2 * d == (j + 2) + 2 * (d - 1);
        }
      }
    }
  }

  /**
   * populateBoard's fill loop as a function: the values n, n+1, ... are each
   * written into the cell FirstFree draws next, until all |s| values are
   * placed or the rand() results run out. Gives the block, the cursor and
   * whether the fill completed.
   */
  function FillFrom(size: int, s: seq<int>, n: nat, rolls: seq<nat>, j: nat): (r: (seq<int>, nat, bool))
    requires size > 0 && j <= |rolls|
    ensures |r.0| == |s| && j <= r.1 <= |rolls|
    ensures r.2 && n < |s| ==> r.1 >= j + 2
    ensures !r.2 ==> |rolls| < r.1 + 2
    decreases |s| - n
  {
    if n >= |s| then (s, j, true)
    else
      var (next, found) := FirstFree(size, s, rolls, j);
      if !found then (s, next, false)
      else FillFrom(size, s[Offset(size, Roll(size, rolls, next - 2)) := n], n + 1, rolls, next)
  }

  /** One round of the fill: the drawn free cell receives `n`, and the fill goes on from there. */
  lemma FillStep(size: int, s: seq<int>, n: nat, rolls: seq<nat>, j: nat)
    requires size > 0 && j <= |rolls| && n < |s|
    ensures var (next, found) := FirstFree(size, s, rolls, j);
      found ==> (FillFrom(size, s, n, rolls, j)
        == FillFrom(size, s[Offset(size, Roll(size, rolls, next - 2)) := n], n + 1, rolls, next))
  {
  }

  /** A completed fill of a partly filled block is a permutation of 0 .. |s|-1. */
  lemma {:induction false} FillFromPlaces(size: int, s: seq<int>, n: nat, free: set<int>, rolls: seq<nat>, j: nat)
    requires size > 0 && j <= |rolls| && n <= |s|
    requires PartialFill(s, n, free) && |free| == |s| - n
    ensures FillFrom(size, s, n, rolls, j).2 ==> IsPermutation(FillFrom(size, s, n, rolls, j).0, |s|)
    decreases |s| - n
  {
    if n == |s| {
      FillComplete(s, free);
    } else {
      var (next, found) := FirstFree(size, s, rolls, j);
      if found {
        var c := Offset(size, Roll(size, rolls, next - 2));
        PlaceNext(s, n, free, c);
        FillFromPlaces(size, s[c := n], n + 1, free - {c}, rolls, next);
      }
    }
  }

  /** A completed fill of a block whose every cell holds -1 is a permutation of 0 .. |s|-1. */
  lemma FillFromReset(size: int, s: seq<int>, rolls: seq<nat>, j: nat)
    requires size > 0 && j <= |rolls|
    requires forall i :: 0 <= i < |s| ==> s[i] == -1
    ensures FillFrom(size, s, 0, rolls, j).2 ==> IsPermutation(FillFrom(size, s, 0, rolls, j).0, |s|)
  {
    var free := Offsets(|s|);
    EmptyFill(s, free);
    FillFromPlaces(size, s, 0, free, rolls, j);
  }

  /** The block populateBoard resets to before each fill: every cell holds -1. */
  function ResetBlock(size: int): (s: seq<int>)
    requires size > 0
    ensures |s| == BoardArea(size) && forall i :: 0 <= i < |s| ==> s[i] == -1
  {
    seq(size * size, i => -1)
  }

  /** isSolvable's verdict on a block, with the blank at its last cell holding 0. */
  predicate Accepted(size: int, s: seq<int>)
    requires size > 0
  {
    var z := LastZero(s, |s|);
    z >= 0 && ParityRule(size, Inversions(s), PositionAt(size, z).row)
  }

  /**
   * populateBoard as a function of the rand() results from position `j`:
   * reset, fill, and start again from the cursor the fill stopped at until
   * the filled block is Accepted. Gives the block, the cursor and whether a
   * block was accepted before the results ran out.
   */
  function PopulateFrom(size: int, rolls: seq<nat>, j: nat): (r: (seq<int>, nat, bool))
    requires size > 0 && j <= |rolls|
    ensures |r.0| == BoardArea(size) && j <= r.1 <= |rolls|
    ensures r.2 ==> Accepted(size, r.0)
    ensures !r.2 ==> |rolls| < r.1 + 2
    decreases |rolls| - j
  {
    ScaleMonotone(size, 1, size);
    var (s, next, filled) := FillFrom(size, ResetBlock(size), 0, rolls, j);
    if !filled then (s, next, false)
    else if Accepted(size, s) then (s, next, true)
    else PopulateFrom(size, rolls, next)
  }

  /** An accepted result of PopulateFrom is a permutation of 0 .. size*size-1. */
  lemma {:induction false} PopulateFromPermutation(size: int, rolls: seq<nat>, j: nat)
    requires size > 0 && j <= |rolls|
    ensures PopulateFrom(size, rolls, j).2 ==> IsPermutation(PopulateFrom(size, rolls, j).0, BoardArea(size))
    decreases |rolls| - j
  {
    var s0 := ResetBlock(size);
    var free := Offsets(|s0|);
    EmptyFill(s0, free);
    FillFromPlaces(size, s0, 0, free, rolls, j);
    ScaleMonotone(size, 1, size);
    var (s, next, filled) := FillFrom(size, s0, 0, rolls, j);
    if filled && !Accepted(size, s) {
      PopulateFromPermutation(size, rolls, next);
    }
  }

  /** When the blank is the last cell holding 0, Accepted is the rule at the blank's row. */
  lemma AcceptedAtBlank(size: int, s: seq<int>, blank: Position)
    requires size > 0 && |s| == BoardArea(size) && BlankIsAt(size, s, blank)
    requires forall i :: Offset(size, blank) < i < |s| ==> s[i] != 0
    ensures Accepted(size, s) == ParityRule(size, Inversions(s), blank.row)
  {
    LastZeroFound(s, |s|);
    OffsetInBoard(size, blank);
    assert s[..|s|] == s;
  }

  /**
   * As written, isSolvable's own verdict on the solved board, with the blank
   * found by the scan in the bottom-right cell: accepted exactly when the
   * size is odd.
   */
  lemma GoalAccepted(size: int)
    requires size >= 1
    ensures Accepted(size, Goal(BoardArea(size))) <==> size % 2 == 1
  {
    var area := BoardArea(size);
    ScaleMonotone(size, 1, size);
    var g := Goal(area);
    GoalIsPermutation(area);
    var corner := Position(size - 1, size - 1);
    RowStartIsProduct(size, size - 1);
    assert Offset(size, corner) == area - 1 by {
      assert (size - 1) * size + (size - 1) == size * size - 1;
    }
    AcceptedAtBlank(size, g, corner);
    CountedRuleOnGoal(size);
  }

  class Game {
    const size: int
    var board: array<int>
    var blank: Position

    /** The size chosen at start-up and a block of size * size cells. */
    ghost predicate Valid()
      reads this`board
    {
      3 <= size <= 9 && board.Length == BoardArea(size)
    }

    /** A populated board: a permutation of 0 .. size*size-1 whose 0 is where `blank` says. */
    ghost predicate Ready()
      reads this, board
    {
      Valid() && IsPermutation(board[..], BoardArea(size)) && BlankIsAt(size, board[..], blank)
    }

    /** allocateBoard: one block holding all rows; the cells are not set yet. */
    constructor (size: int)
      requires 3 <= size <= 9
      ensures Valid() && this.size == size && fresh(board)
    {
      this.size := size;
      board := new int[size * size];
      blank := Position(0, 0);
    }

    /**
     * The innermost loop of isSolvable for the cell at (row, col): it reads
     * `board[row + n / size][col + n % size]` for n = 1, 2, ..., which is the
     * n-th cell after it in the block, up to the last cell, and counts the
     * reads that hold a smaller value.
     */
    method CountSmallerAfter(row: int, col: int) returns (smaller: nat)
      requires Valid() && InGrid(size, Position(row, col))
      ensures var k := Offset(size, Position(row, col));
        0 <= k < board.Length && smaller == SmallerIn(board[..], board[k], k + 1, board.Length)
    {
      ghost var k := Offset(size, Position(row, col));
      OffsetInBoard(size, Position(row, col));
      RowStartIsProduct(size, row);
      smaller := 0;
      var n := 1;
      while n < BoardArea(size) - (row * size + col)
        invariant 1 <= n <= board.Length - k
        invariant smaller == SmallerIn(board[..], board[k], k + 1, k + n)
      {
        var later := (row + n / size) * size + (col + n % size);
        InnerReadOffset(size, row, col, n);
        if board[row * size + col] > board[later] {
          smaller := smaller + 1;
        }
        n := n + 1;
      }
    }

    /**
     * One pass of isSolvable's column loop, for the cell at (row, col): record
     * the cell as the blank when it holds 0, then count the smaller values
     * after it. Scanning the cell extends what BlankTracked covers by one and
     * takes that cell's term off the inversion count of the remaining suffix.
     */
    method ScanCell(row: int, col: int, ghost s: seq<int>, ghost k: int, ghost initial: Position)
      returns (smaller: nat)
      requires Valid() && s == board[..]
      requires InGrid(size, Position(row, col)) && k == Offset(size, Position(row, col))
      requires 0 <= k < |s| && BlankTracked(size, s, k, blank, initial)
      modifies this`blank
      ensures blank == (if s[k] == 0 then Position(row, col) else old(blank))
      ensures BlankTracked(size, s, k + 1, blank, initial)
      ensures smaller + InversionsFrom(s, k + 1) == InversionsFrom(s, k)
    {
      RowStartIsProduct(size, row);
      if board[row * size + col] == 0 {
        blank := Position(row, col);
      }
      smaller := CountSmallerAfter(row, col);
    }

    /**
     * isSolvable's column loop over row `row`, which starts at offset `k` of
     * the block: scans its cells left to right, so the blank is tracked up to
     * the end of the row and the counts of the row's cells are taken off the
     * inversion count of the remaining suffix.
     */
    method ScanRow(row: int, ghost s: seq<int>, ghost k: int, ghost initial: Position) returns (count: nat)
      requires Valid() && s == board[..]
      requires 0 <= row < size && k == RowStart(size, row) && 0 <= k && k + size <= |s|
      requires BlankTracked(size, s, k, blank, initial)
      modifies this`blank
      ensures BlankTracked(size, s, k + size, blank, initial)
      ensures count + InversionsFrom(s, k + size) == InversionsFrom(s, k)
    {
      count := 0;
      var col := 0;
      while col < size
        invariant 0 <= col <= size && s == board[..]
        invariant BlankTracked(size, s, k + col, blank, initial)
        invariant count + InversionsFrom(s, k + col) == InversionsFrom(s, k)
      {
        var smaller := ScanCell(row, col, s, k + col, initial);
        count := count + smaller;
        col := col + 1;
      }
    }

    /**
     * isSolvable: counts, for every cell in row-major order, the later cells
     * holding a smaller value, records the last cell holding 0 as the blank,
     * and applies the parity rule to the count and the blank's row.
     */
    method IsSolvable() returns (solvable: bool)
      requires Valid()
      modifies this`blank
      ensures Valid() && unchanged(board)
      ensures solvable == ParityRule(size, Inversions(board[..]), blank.row)
      ensures 0 in board[..] ==> BlankIsAt(size, board[..], blank)
      ensures 0 in board[..] ==> forall i :: Offset(size, blank) < i < board.Length ==> board[i] != 0
      ensures 0 !in board[..] ==> blank == old(blank)
    {
      ghost var s := board[..];
      ghost var area := BoardArea(size);
      ghost var k := 0;
      var inversions: nat := 0;
      var row := 0;
      while row < size
        invariant 0 <= row <= size && k == RowStart(size, row) && 0 <= k <= area
        invariant BlankTracked(size, s, k, blank, old(blank))
        invariant inversions + InversionsFrom(s, k) == InversionsFrom(s, 0)
      {
        RowEnd(size, row);
        var count := ScanRow(row, s, k, old(blank));
        inversions := inversions + count;
        k := k + size;
        row := row + 1;
      }
      LastRowEnd(size);
      assert board[..] == s;
      InversionsFromSuffix(s, 0);
      assert s[0..] == s;
      TrackedAll(size, s, blank, old(blank));
      if size % 2 != 0 {
        solvable := inversions % 2 == 0;
      } else {
        solvable := CRem(size - blank.row, 2) == (if inversions % 2 == 0 then 1 else 0);
      }
    }

    /** The reset loop of populateBoard: every cell gets the marker -1. */
    method ResetBoard()
      requires Valid()
      modifies board
      ensures forall i :: 0 <= i < board.Length ==> board[i] == -1
    {
      ghost var k := 0;
      var row := 0;
      while row < size
        invariant 0 <= row <= size && k == RowStart(size, row) && 0 <= k <= board.Length
        invariant forall i :: 0 <= i < k ==> board[i] == -1
      {
        RowEnd(size, row);
        var col := 0;
        while col < size
          invariant 0 <= col <= size && k == RowStart(size, row) + col && 0 <= k <= board.Length
          invariant forall i :: 0 <= i < k ==> board[i] == -1
        {
          RowStartIsProduct(size, row);
          board[row * size + col] := -1;
          col := col + 1;
          k := k + 1;
        }
        row := row + 1;
      }
      LastRowEnd(size);
    }

    /**
     * The redraw loop of populateBoard: draw cells from the rand() results
     * starting at `start` until one still holds -1. Reports `found == false`
     * when the results run out first.
     */
    method DrawFreeCell(rolls: seq<nat>, start: nat) returns (pos: Position, next: nat, found: bool)
      requires Valid() && start <= |rolls|
      ensures (next, found) == FirstFree(size, board[..], rolls, start)
      ensures found ==> pos == Roll(size, rolls, next - 2)
      ensures found ==> InGrid(size, pos) && 0 <= Offset(size, pos) < board.Length
      ensures found ==> board[Offset(size, pos)] == -1
    {
      next := start;
      if |rolls| < next + 2 {
        return Position(0, 0), next, false;
      }
      pos := Roll(size, rolls, next);
      next := next + 2;
      OffsetInBoard(size, pos);
      while board[Offset(size, pos)] != -1
        invariant start + 2 <= next <= |rolls|
        invariant pos == Roll(size, rolls, next - 2)
        invariant InGrid(size, pos) && 0 <= Offset(size, pos) < board.Length
        invariant FirstFree(size, board[..], rolls, start) == FirstFree(size, board[..], rolls, next - 2)
        decreases |rolls| - next
      {
        if |rolls| < next + 2 {
          return pos, next, false;
        }
        pos := Roll(size, rolls, next);
        next := next + 2;
        OffsetInBoard(size, pos);
      }
      found := true;
    }

    /**
     * The fill loop of populateBoard: each value 0 .. size*size-1 in turn is
     * written into a drawn cell that still holds -1. When the rand() results
     * last, no -1 is left and the block is a permutation.
     */
    method FillBoard(rolls: seq<nat>, start: nat) returns (next: nat, filled: bool)
      requires Valid() && start <= |rolls|
      requires forall i :: 0 <= i < board.Length ==> board[i] == -1
      modifies board
      ensures (board[..], next, filled) == FillFrom(size, old(board[..]), 0, rolls, start)
      ensures filled ==> IsPermutation(board[..], BoardArea(size))
    {
      FillFromReset(size, board[..], rolls, start);
      next := start;
      var n := 0;
      while n < BoardArea(size)
        invariant 0 <= n <= board.Length && start <= next <= |rolls|
        invariant FillFrom(size, board[..], n, rolls, next) == FillFrom(size, old(board[..]), 0, rolls, start)
      {
        var found;
        next, found := PlaceDrawn(rolls, n, next);
        if !found {
          return next, false;
        }
        n := n + 1;
      }
      filled := true;
    }

    /**
     * One pass of populateBoard's fill loop: draw until a cell holding -1
     * comes up and write `n` into it. The fill from here on is the fill that
     * was due before the pass; when the draws run out the block is unchanged.
     */
    method PlaceDrawn(rolls: seq<nat>, n: nat, start: nat) returns (next: nat, found: bool)
      requires Valid() && start <= |rolls| && n < board.Length
      modifies board
      ensures start <= next <= |rolls|
      ensures FillFrom(size, old(board[..]), n, rolls, start)
        == if found then FillFrom(size, board[..], n + 1, rolls, next) else (board[..], next, false)
    {
      ghost var before := board[..];
      var pos;
      pos, next, found := DrawFreeCell(rolls, start);
      if found {
        var cell := Offset(size, pos);
        FillStep(size, before, n, rolls, start);
        board[cell] := n;
        assert board[..] == before[cell := n];
      }
    }

    /**
     * populateBoard: reset the block, fill it, and start again until
     * isSolvable accepts the result. The rand() results are consumed in
     * order; `ready == false` reports that they ran out first.
     */
    method PopulateBoard(rolls: seq<nat>) returns (cursor: nat, ready: bool)
      requires Valid()
      modifies this`blank, board
      ensures Valid() && (board[..], cursor, ready) == PopulateFrom(size, rolls, 0)
      ensures ready ==> Ready() && ParityRule(size, Inversions(board[..]), blank.row)
      ensures ready ==>
        (ParityRule(size, TileInversions(board[..]), blank.row) <==> Offset(size, blank) % 2 == 0)
    {
      cursor := 0;
      ready := false;
      while !ready
        invariant Valid() && cursor <= |rolls|
        invariant ready ==> Ready() && ParityRule(size, Inversions(board[..]), blank.row)
        invariant ready ==> (board[..], cursor, true) == PopulateFrom(size, rolls, 0)
        invariant !ready ==> PopulateFrom(size, rolls, cursor) == PopulateFrom(size, rolls, 0)
        decreases |rolls| - cursor
      {
        ResetBoard();
        assert board[..] == ResetBlock(size);
        var filled;
        cursor, filled := FillBoard(rolls, cursor);
        if !filled {
          return cursor, false;
        }
        assert 0 in board[..];
        ready := IsSolvable();
        AcceptedAtBlank(size, board[..], blank);
      }
      PermutationBlank(board[..], BoardArea(size), Offset(size, blank));
      CountedRuleVersusTileRule(size, board[..], Offset(size, blank), blank.row);
    }

    /**
     * moveTile: pick the table entry the direction's enum value indexes,
     * write that cell's value into the blank cell, write 0 into that cell,
     * and record it as the blank.
     */
    method MoveTile(dir: Direction)
      requires Valid() && InGrid(size, blank) && CanMove(size, blank, dir)
      modifies this`blank, board
      ensures Valid()
      ensures blank == Target(size, old(blank), dir)
      ensures 0 <= Offset(size, old(blank)) < board.Length && 0 <= Offset(size, blank) < board.Length
      ensures board[..] == Slid(old(board[..]), Offset(size, old(blank)), Offset(size, blank))
      ensures old(Ready()) ==> Ready()
    {
      ghost var wasReady := Ready();
      ghost var s := board[..];
      var locus := Locus(size, blank);
      OffsetInBoard(size, blank);
      OffsetInBoard(size, locus[Code(dir)]);
      var tile := Offset(size, locus[Code(dir)]);
      var cell := Offset(size, blank);
      blank := locus[Code(dir)];
      board[cell] := board[tile];
      board[tile] := 0;
      assert board[..] == Slid(s, cell, tile);
      if wasReady {
        SlideKeepsPermutation(s, BoardArea(size), cell, tile);
      }
    }
  }

  /** init without the terminal: allocate a board of the chosen size and populate it. */
  method NewGame(size: int, rolls: seq<nat>) returns (game: Game, used: nat, ready: bool)
    requires 3 <= size <= 9
    ensures fresh(game) && fresh(game.board) && game.size == size && game.Valid()
    ensures (game.board[..], used, ready) == PopulateFrom(size, rolls, 0)
    ensures ready ==> game.Ready() && ParityRule(size, Inversions(game.board[..]), game.blank.row)
  {
    game := new Game(size);
    used, ready := game.PopulateBoard(rolls);
  }
}
