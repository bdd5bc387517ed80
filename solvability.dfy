/**
 * The decision rule at the end of isSolvable, what it decides about the
 * goal arrangement, and how it relates to the textbook rule that counts the
 * tiles only.
 */
module Solvability {
  import opened Board
  import opened InversionCount

  /** C's `%` for a positive divisor: the remainder takes the sign of the dividend. */
  function CRem(a: int, b: int): int
    requires b > 0
  {
    if a >= 0 then a % b else -((-a) % b)
  }

  /**
   * isSolvable's decision rule, given an inversion count and the blank's row:
   * for an odd size the count must be even; for an even size, the blank's
   * row counted from the bottom (`size - blankRow`) must be odd exactly when
   * the count is even.
   */
  function ParityRule(size: int, inversions: nat, blankRow: int): bool
  {
    if size % 2 != 0 then inversions % 2 == 0
    else CRem(size - blankRow, 2) == (if inversions % 2 == 0 then 1 else 0)
  }

  /** For a blank inside the grid, the rule sees only the parity of the count. */
  lemma ParityRuleShift(size: int, a: nat, p: nat, row: int)
    requires 0 <= row < size
    ensures ParityRule(size, a + p, row) == (ParityRule(size, a, row) == (p % 2 == 0))
  {
    assert (a + p) % 2 == 0 <==> (a % 2 == 0) == (p % 2 == 0);
  }

  /** Counts one apart get opposite verdicts, for a blank inside the grid. */
  lemma ParityRuleNeighbours(size: int, before: nat, after: nat, row: int)
    requires 0 <= row < size && (after == before + 1 || before == after + 1)
    ensures ParityRule(size, after, row) == !ParityRule(size, before, row)
  {
    if after == before + 1 {
      ParityRuleShift(size, before, 1, row);
    } else {
      ParityRuleShift(size, after, 1, row);
    }
  }

  /**
   * What isSolvable decides, in textbook terms: because its count includes
   * the blank, its verdict agrees with the tiles-only rule exactly when the
   * blank sits at an even offset of the block.
   */
  lemma CountedRuleVersusTileRule(size: int, s: seq<int>, p: int, row: int)
    requires BlankAt(s, p) && 0 <= row < size
    ensures ParityRule(size, Inversions(s), row)
        == (ParityRule(size, TileInversions(s), row) == (p % 2 == 0))
  {
    BlankCounted(s, p);
    ParityRuleShift(size, TileInversions(s), p, row);
  }

  lemma SquareParity(size: int)
    ensures (size * size) % 2 == size % 2
  {
    var q, r := size / 2, size % 2;
    assert size == 2 * q + r;
    assert size * size == 2 * (2 * q * q + 2 * q * r) + r * r;
    assert r * r == r;
  }

  /** The goal arrangement has no tile inversion; with the blank counted it has one per tile. */
  lemma GoalInversions(n: int)
    requires n >= 1
    ensures TileInversions(Goal(n)) == 0
    ensures Inversions(Goal(n)) == n - 1
  {
    GoalIsPermutation(n);
    assert TilePairs(Goal(n)) == {};
    BlankCounted(Goal(n), n - 1);
  }

  /**
   * As written: isSolvable accepts the goal arrangement (blank in the
   * bottom-right cell) exactly when the size is odd; for every even size it
   * rejects the solved board.
   */
  lemma CountedRuleOnGoal(size: int)
    requires size >= 1
    ensures ParityRule(size, Inversions(Goal(BoardArea(size))), size - 1) <==> size % 2 == 1
  {
    var area := BoardArea(size);
    assert area >= 1 by {
      ScaleMonotone(size, 1, size);
    }
    GoalInversions(area);
    SquareParity(size);
    assert (area - 1) % 2 == 0 <==> size % 2 == 1;
    assert CRem(size - (size - 1), 2) == 1;
  }

  /** Corrected: the tiles-only rule accepts the goal arrangement for every size. */
  lemma TileRuleAcceptsGoal(size: int)
    requires size >= 1
    ensures ParityRule(size, TileInversions(Goal(BoardArea(size))), size - 1)
  {
    GoalInversions(BoardArea(size));
  }
}
