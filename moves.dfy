/**
 * moveTile's table of candidate cells and its effect on the block.
 *
 * The table is indexed with the Direction enum, whose values run from 1
 * (Up) to 4 (Right), although its entries are listed Up, Down, Left, Right
 * from index 0. So Up reads the entry written for Down, Down the one for
 * Left, Left the one for Right, and Right reads past the table. The two
 * vertical entries move the row by a whole `size`, which always leaves the
 * grid; only the two sideways entries can name a cell.
 */
module Moves {
  import opened Board
  import opened InversionCount
  import opened Solvability

  /** The arrow keys, in the order of their enum values 1 to 4. */
  datatype Direction = Up | Down | Left | Right

  /** The enum value the source gives each direction. */
  function Code(d: Direction): int
  {
    match d
    case Up => 1
    case Down => 2
    case Left => 3
    case Right => 4
  }

  /** moveTile's locus table, entries in source order (commented Up, Down, Left, Right there). */
  function Locus(size: int, blank: Position): seq<Position>
  {
    [ Position(blank.row + size, blank.col),
      Position(blank.row - size, blank.col),
      Position(blank.row, blank.col + 1),
      Position(blank.row, blank.col - 1) ]
  }

  /** moveTile is defined: the enum value indexes the table and the entry it picks is a cell. */
  predicate CanMove(size: int, blank: Position, dir: Direction)
  {
    Code(dir) < |Locus(size, blank)| && InGrid(size, Locus(size, blank)[Code(dir)])
  }

  /** The cell whose tile moves into the blank. */
  function Target(size: int, blank: Position, dir: Direction): Position
    requires Code(dir) < |Locus(size, blank)|
  {
    Locus(size, blank)[Code(dir)]
  }

  /** The two entries that change the row move it by a whole board height and leave the grid. */
  lemma VerticalEntriesLeaveGrid(size: int, blank: Position)
    requires InGrid(size, blank)
    ensures !InGrid(size, Locus(size, blank)[0])
    ensures !InGrid(size, Locus(size, blank)[1])
  {
  }

  /**
   * Only Down and Left can move: Down takes the tile to the right of the
   * blank, Left the tile to its left.
   */
  lemma MovableDirections(size: int, blank: Position, dir: Direction)
    requires InGrid(size, blank)
    ensures CanMove(size, blank, dir)
        <==> (dir == Down && blank.col + 1 < size) || (dir == Left && blank.col > 0)
    ensures CanMove(size, blank, dir) && dir == Down
        ==> Target(size, blank, dir) == Position(blank.row, blank.col + 1)
    ensures CanMove(size, blank, dir) && dir == Left
        ==> Target(size, blank, dir) == Position(blank.row, blank.col - 1)
  {
  }

  /** The block after moveTile: the old blank cell takes the target's value, the target gets 0. */
  function Slid(s: seq<int>, from: int, to: int): seq<int>
    requires 0 <= from < |s| && 0 <= to < |s|
  {
    s[from := s[to]][to := 0]
  }

  /**
   * Sliding from the cell that holds the 0 is an exchange: the board stays a
   * permutation, the 0 lands on the target, and only the two cells change.
   */
  lemma SlideKeepsPermutation(s: seq<int>, n: int, from: int, to: int)
    requires IsPermutation(s, n) && 0 <= from < n && 0 <= to < n && from != to && s[from] == 0
    ensures IsPermutation(Slid(s, from, to), n)
    ensures Slid(s, from, to)[to] == 0 && Slid(s, from, to)[from] == s[to]
    ensures forall i :: 0 <= i < n && i != from && i != to ==> Slid(s, from, to)[i] == s[i]
  {
    var r := Slid(s, from, to);
    forall v | 0 <= v < n
      ensures v in r
    {
      assert v in s;
      var j :| 0 <= j < n && s[j] == v;
      if j == from {
        assert r[to] == v;
      } else if j == to {
        assert r[from] == v;
      } else {
        assert r[j] == v;
      }
    }
    forall i, j | 0 <= i < j < n
      ensures r[i] != r[j]
    {
      var i', j' := if i == from then to else if i == to then from else i,
                    if j == from then to else if j == to then from else j;
      assert r[i] == s[i'] && r[j] == s[j'] && i' != j';
      if i' > j' {
        assert s[j'] != s[i'];
      }
    }
  }

  /** A move undone: sliding back from the target restores the board. */
  lemma SlideBack(s: seq<int>, from: int, to: int)
    requires 0 <= from < |s| && 0 <= to < |s| && from != to && s[from] == 0
    ensures Slid(Slid(s, from, to), to, from) == s
  {
    var back := Slid(Slid(s, from, to), to, from);
    assert forall i :: 0 <= i < |s| ==> back[i] == s[i];
  }

  /**
   * A sideways slide moves the blank by one position of the block: the count
   * with the blank changes by exactly one, in the direction the blank went,
   * and the tiles-only count does not change.
   */
  lemma SidewaysSlideInversions(s: seq<int>, p: int, to: int)
    requires BlankAt(s, p) && 0 <= to < |s| && (to == p + 1 || to == p - 1)
    ensures BlankAt(Slid(s, p, to), to)
    ensures Inversions(Slid(s, p, to)) == Inversions(s) + (to - p)
    ensures TileInversions(Slid(s, p, to)) == TileInversions(s)
  {
    var t := Slid(s, p, to);
    var q := if to == p + 1 then p else to;
    assert BlankAt(t, to);
    assert Inversions(t) == Inversions(s) + (to - p) by {
      assert t == Swapped(s, q);
      SwapAdjacent(s, q);
    }
    assert TileInversions(t) == TileInversions(s) by {
      BlankCounted(s, p);
      BlankCounted(t, to);
    }
  }

  lemma SidewaysTarget(size: int, blank: Position, dir: Direction)
    requires InGrid(size, blank) && CanMove(size, blank, dir)
    ensures Target(size, blank, dir).row == blank.row
    ensures InGrid(size, Target(size, blank, dir))
    ensures var d := Offset(size, Target(size, blank, dir)) - Offset(size, blank); d == 1 || d == -1
    ensures 0 <= Offset(size, blank) < BoardArea(size)
    ensures 0 <= Offset(size, Target(size, blank, dir)) < BoardArea(size)
  {
    MovableDirections(size, blank, dir);
    OffsetInBoard(size, blank);
    OffsetInBoard(size, Target(size, blank, dir));
  }

  /** A sideways slide within one row turns the source's verdict over and keeps the tiles-only one. */
  lemma SidewaysSlideVerdicts(size: int, s: seq<int>, p: int, to: int, row: int)
    requires BlankAt(s, p) && 0 <= to < |s| && (to == p + 1 || to == p - 1) && 0 <= row < size
    ensures ParityRule(size, Inversions(Slid(s, p, to)), row) == !ParityRule(size, Inversions(s), row)
    ensures ParityRule(size, TileInversions(Slid(s, p, to)), row) == ParityRule(size, TileInversions(s), row)
  {
    SidewaysSlideInversions(s, p, to);
    ParityRuleNeighbours(size, Inversions(s), Inversions(Slid(s, p, to)), row);
  }

  /**
   * A move CanMove admits, on a permutation whose blank is located, is a
   * one-offset slide of the blank within its row.
   */
  lemma SidewaysMove(size: int, s: seq<int>, blank: Position, dir: Direction)
    requires IsPermutation(s, BoardArea(size)) && BlankIsAt(size, s, blank) && CanMove(size, blank, dir)
    ensures var p, t := Offset(size, blank), Target(size, blank, dir);
      && t.row == blank.row && BlankAt(s, p)
      && var to := Offset(size, t);
      0 <= to < |s| && (to == p + 1 || to == p - 1)
  {
    SidewaysTarget(size, blank, dir);
    PermutationBlank(s, BoardArea(size), Offset(size, blank));
  }

  /**
   * As written: every in-row move moveTile can make turns isSolvable's verdict
   * over, although a board and the board one move away are equally solvable.
   */
  lemma MoveFlipsCountedRule(size: int, s: seq<int>, blank: Position, dir: Direction)
    requires IsPermutation(s, BoardArea(size)) && BlankIsAt(size, s, blank) && CanMove(size, blank, dir)
    ensures var t := Target(size, blank, dir);
      && 0 <= Offset(size, t) < |s|
      && ParityRule(size, Inversions(Slid(s, Offset(size, blank), Offset(size, t))), t.row)
           == !ParityRule(size, Inversions(s), blank.row)
  {
    SidewaysMove(size, s, blank, dir);
    SidewaysSlideVerdicts(size, s, Offset(size, blank), Offset(size, Target(size, blank, dir)), blank.row);
  }

  /** Corrected: the tiles-only rule gives a board and the board one in-row move away the same verdict. */
  lemma MoveKeepsTileRule(size: int, s: seq<int>, blank: Position, dir: Direction)
    requires IsPermutation(s, BoardArea(size)) && BlankIsAt(size, s, blank) && CanMove(size, blank, dir)
    ensures var t := Target(size, blank, dir);
      && 0 <= Offset(size, t) < |s|
      && ParityRule(size, TileInversions(Slid(s, Offset(size, blank), Offset(size, t))), t.row)
           == ParityRule(size, TileInversions(s), blank.row)
  {
    SidewaysMove(size, s, blank, dir);
    SidewaysSlideVerdicts(size, s, Offset(size, blank), Offset(size, Target(size, blank, dir)), blank.row);
  }

  /**
   * The smallest instance: on a 3-by-3 board, Left slides tile 8 out of the
   * solved arrangement; the source's rule accepts the solved board and
   * rejects the board one move away, while the tiles-only rule accepts both.
   */
  lemma ThreeByThreeNeighbour()
    ensures Slid(Goal(9), 8, 7) == [1, 2, 3, 4, 5, 6, 7, 0, 8]
    ensures ParityRule(3, Inversions(Goal(9)), 2)
    ensures !ParityRule(3, Inversions([1, 2, 3, 4, 5, 6, 7, 0, 8]), 2)
    ensures ParityRule(3, TileInversions([1, 2, 3, 4, 5, 6, 7, 0, 8]), 2)
  {
    GoalIsPermutation(9);
    GoalInversions(9);
    SidewaysSlideInversions(Goal(9), 8, 7);
  }
}
