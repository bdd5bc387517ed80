/**
 * The inversion count that isSolvable accumulates, and what it equals.
 *
 * isSolvable compares raw cell values in row-major order, so the blank (0)
 * takes part: every positive tile that comes before the blank is one more
 * inversion. `Inversions` is that count; `InversionPairs` and `TilePairs` are
 * the two counts stated as sets of index pairs, the first with the blank and
 * the second (the textbook count) without it.
 */
module InversionCount {
  import opened Board

  /** How many elements of `t` are smaller than `x`, counted from the back. */
  function Below(x: int, t: seq<int>): nat
  {
    if t == [] then 0 else Below(x, t[..|t| - 1]) + (if x > t[|t| - 1] then 1 else 0)
  }

  /** How many of the positions `a .. b-1` of `s` hold a value smaller than `x`. */
  function SmallerIn(s: seq<int>, x: int, a: int, b: int): nat
    requires 0 <= a <= b <= |s|
    decreases b - a
  {
    if a == b then 0 else SmallerIn(s, x, a, b - 1) + (if x > s[b - 1] then 1 else 0)
  }

  /** Counting by position over `a .. b-1` is counting in the slice `s[a..b]`. */
  lemma {:induction false} SmallerInSlice(s: seq<int>, x: int, a: int, b: int)
    requires 0 <= a <= b <= |s|
    ensures SmallerIn(s, x, a, b) == Below(x, s[a..b])
    decreases b - a
  {
    if a < b {
      SmallerInSlice(s, x, a, b - 1);
      var t := s[a..b];
      assert t[..|t| - 1] == s[a..b - 1];
    }
  }

  /** Number of pairs i < j with s[i] > s[j]: each element against everything after it. */
  function Inversions(s: seq<int>): nat
  {
    if s == [] then 0 else Below(s[0], s[1..]) + Inversions(s[1..])
  }

  /**
   * The same count restricted to positions from `i` on, written by position
   * rather than by slicing: the order in which isSolvable visits the cells.
   */
  function InversionsFrom(s: seq<int>, i: int): nat
    requires 0 <= i <= |s|
    decreases |s| - i
  {
    if i == |s| then 0 else SmallerIn(s, s[i], i + 1, |s|) + InversionsFrom(s, i + 1)
  }

  /** Counting from position `i` is counting the suffix that starts there. */
  lemma {:induction false} InversionsFromSuffix(s: seq<int>, i: int)
    requires 0 <= i <= |s|
    ensures InversionsFrom(s, i) == Inversions(s[i..])
    decreases |s| - i
  {
    if i < |s| {
      InversionsFromSuffix(s, i + 1);
      SmallerInSlice(s, s[i], i + 1, |s|);
      assert s[i..][1..] == s[i + 1..] == s[i + 1..|s|];
    }
  }

  /** Every pair of positions that is out of order, the blank included. */
  ghost function InversionPairs(s: seq<int>): set<(int, int)>
  {
    set i, j | 0 <= i < j < |s| && s[i] > s[j] :: (i, j)
  }

  /** The pairs out of order among the tiles only: the blank takes no part. */
  ghost function TilePairs(s: seq<int>): set<(int, int)>
  {
    set i, j | 0 <= i < j < |s| && s[i] != 0 && s[j] != 0 && s[i] > s[j] :: (i, j)
  }

  /** The textbook inversion count of the puzzle. */
  ghost function TileInversions(s: seq<int>): nat
  {
    |TilePairs(s)|
  }

  /** The out-of-order pairs whose first position is `k` and second is below `m`. */
  ghost function RowPairs(s: seq<int>, k: int, m: int): set<(int, int)>
    requires 0 <= k < |s| && m <= |s|
  {
    set j | k < j < m && s[k] > s[j] :: (k, j)
  }

  /** The out-of-order pairs whose first position is at least `k`. */
  ghost function PairsFrom(s: seq<int>, k: int): set<(int, int)>
    requires 0 <= k
  {
    set i, j | k <= i < j < |s| && s[i] > s[j] :: (i, j)
  }

  lemma RowPairsStep(s: seq<int>, k: int, m: int)
    requires 0 <= k < m - 1 && m <= |s|
    ensures RowPairs(s, k, m) == RowPairs(s, k, m - 1) + (if s[k] > s[m - 1] then {(k, m - 1)} else {})
    ensures (k, m - 1) !in RowPairs(s, k, m - 1)
  {
  }

  lemma PairsFromStep(s: seq<int>, k: int)
    requires 0 <= k < |s|
    ensures PairsFrom(s, k) == RowPairs(s, k, |s|) + PairsFrom(s, k + 1)
    ensures RowPairs(s, k, |s|) * PairsFrom(s, k + 1) == {}
  {
  }

  lemma {:induction false} RowPairsCount(s: seq<int>, k: int, m: int)
    requires 0 <= k < m <= |s|
    ensures |RowPairs(s, k, m)| == Below(s[k], s[k + 1..m])
    decreases m
  {
    var t := s[k + 1..m];
    if m == k + 1 {
      assert RowPairs(s, k, m) == {};
      assert t == [];
    } else {
      RowPairsCount(s, k, m - 1);
      RowPairsStep(s, k, m);
      assert t[..|t| - 1] == s[k + 1..m - 1];
      assert t[|t| - 1] == s[m - 1];
    }
  }

  lemma {:induction false} SuffixPairs(s: seq<int>, k: int)
    requires 0 <= k <= |s|
    ensures Inversions(s[k..]) == |PairsFrom(s, k)|
    decreases |s| - k
  {
    if k == |s| {
      assert s[k..] == [];
      assert PairsFrom(s, k) == {};
    } else {
      SuffixPairs(s, k + 1);
      RowPairsCount(s, k, |s|);
      PairsFromStep(s, k);
      assert s[k..][1..] == s[k + 1..];
      assert s[k..][0] == s[k];
      assert s[k + 1..|s|] == s[k + 1..];
    }
  }

  /** The count isSolvable accumulates is the number of out-of-order position pairs. */
  lemma InversionsCountPairs(s: seq<int>)
    ensures Inversions(s) == |InversionPairs(s)|
  {
    SuffixPairs(s, 0);
    assert s[0..] == s;
    assert PairsFrom(s, 0) == InversionPairs(s);
  }

  lemma {:induction false} PairsEndingAtCount(m: nat, p: int)
    ensures |(set i | 0 <= i < m :: (i, p))| == m
  {
    if m == 0 {
      assert (set i | 0 <= i < m :: (i, p)) == {};
    } else {
      PairsEndingAtCount(m - 1, p);
      assert (set i | 0 <= i < m :: (i, p)) == (set i | 0 <= i < m - 1 :: (i, p)) + {(m - 1, p)};
    }
  }

  /**
   * Counting the blank: every tile before the blank is one extra inversion,
   * so the count isSolvable accumulates exceeds the textbook count by the
   * blank's offset in the block.
   */
  lemma BlankCounted(s: seq<int>, p: int)
    requires BlankAt(s, p)
    ensures Inversions(s) == TileInversions(s) + p
  {
    InversionsCountPairs(s);
    var blankPairs := set i | 0 <= i < p :: (i, p);
    assert InversionPairs(s) == TilePairs(s) + blankPairs;
    assert TilePairs(s) * blankPairs == {};
    PairsEndingAtCount(p, p);
  }

  /** `s` with positions `q` and `q + 1` exchanged. */
  function Swapped(s: seq<int>, q: int): seq<int>
    requires 0 <= q < |s| - 1
  {
    s[q := s[q + 1]][q + 1 := s[q]]
  }

  lemma {:induction false} BelowCons(x: int, y: int, t: seq<int>)
    ensures Below(x, [y] + t) == (if x > y then 1 else 0) + Below(x, t)
    decreases |t|
  {
    var u := [y] + t;
    if t == [] {
      assert u[..|u| - 1] == [];
    } else {
      assert u[..|u| - 1] == [y] + t[..|t| - 1];
      assert u[|u| - 1] == t[|t| - 1];
      BelowCons(x, y, t[..|t| - 1]);
    }
  }

  lemma {:induction false} BelowSwapped(x: int, t: seq<int>, q: int)
    requires 0 <= q < |t| - 1
    ensures Below(x, Swapped(t, q)) == Below(x, t)
    decreases |t|
  {
    var w := Swapped(t, q);
    if q + 2 == |t| {
      var u := t[..q];
      assert t[..|t| - 1] == u + [t[q]];
      assert (u + [t[q]])[..q] == u;
      assert w[..|w| - 1] == u + [t[q + 1]];
      assert (u + [t[q + 1]])[..q] == u;
    } else {
      BelowSwapped(x, t[..|t| - 1], q);
      assert w[..|w| - 1] == Swapped(t[..|t| - 1], q);
    }
  }

  /**
   * Exchanging two neighbouring positions changes the inversion count by
   * exactly the one pair they form.
   */
  lemma {:induction false} SwapAdjacent(s: seq<int>, q: int)
    requires 0 <= q < |s| - 1
    ensures Inversions(Swapped(s, q)) + (if s[q] > s[q + 1] then 1 else 0)
         == Inversions(s) + (if s[q] < s[q + 1] then 1 else 0)
    decreases q
  {
    var w := Swapped(s, q);
    if q == 0 {
      var r := s[2..];
      assert s[1..] == [s[1]] + r;
      assert w[1..] == [s[0]] + r;
      assert s[1..][1..] == r;
      assert w[1..][1..] == r;
      BelowCons(s[0], s[1], r);
      BelowCons(s[1], s[0], r);
    } else {
      SwapAdjacent(s[1..], q - 1);
      assert w[1..] == Swapped(s[1..], q - 1);
      BelowSwapped(s[0], s[1..], q - 1);
    }
  }
}
