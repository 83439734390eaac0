/** The board state the solver threads through every strategy: for each of
    the 81 cells (row-major, as in Topology) the set of digits still
    possible there. The solver keeps each set as an ascending string of
    digits; a set of ints carries the same information. */
module Boards {
  import opened Topology

  type Board = seq<set<int>>

  const Digits: set<int> := {1, 2, 3, 4, 5, 6, 7, 8, 9}

  /** 81 cells, each holding digits 1..9 only. */
  predicate IsBoard(v: Board)
  {
    |v| == 81 && forall c :: 0 <= c < 81 ==> v[c] <= Digits
  }

  /** w is v with some candidates struck out and none added. */
  predicate Refines(w: Board, v: Board)
  {
    |w| == |v| && forall c :: 0 <= c < |v| ==> w[c] <= v[c]
  }

  lemma RefinesTrans(x: Board, w: Board, v: Board)
    requires Refines(x, w) && Refines(w, v)
    ensures Refines(x, v)
  {
  }

  /** Striking candidates keeps a board's digits within 1..9. */
  lemma RefinesBoard(w: Board, v: Board)
    requires Refines(w, v) && IsBoard(v)
    ensures IsBoard(w)
  {
  }

  predicate HasEmpty(v: Board)
  {
    exists c :: 0 <= c < |v| && v[c] == {}
  }

  /** Every cell is determined: it holds exactly one candidate. */
  predicate AllDetermined(v: Board)
  {
    forall c :: 0 <= c < |v| ==> |v[c]| == 1
  }

  /** w determines no cell that v left open. */
  predicate NoneNewlyDetermined(v: Board, w: Board)
    requires |v| == |w|
  {
    forall c :: 0 <= c < |v| && |w[c]| == 1 ==> |v[c]| == 1
  }

  /** Number of determined cells (candidate set of size one). */
  function Count(v: Board): (n: nat)
    ensures n <= |v|
  {
    if v == [] then 0 else (if |v[0]| == 1 then 1 else 0) + Count(v[1..])
  }

  /** Total number of candidates on the board; it bounds the search. */
  function Size(v: Board): nat
  {
    if v == [] then 0 else |v[0]| + Size(v[1..])
  }

  /** Some cell of unit u holds digit d in the grid s. */
  ghost predicate UnitHasDigit(s: seq<int>, u: int, d: int)
    requires |s| == 81 && 0 <= u < 29
  {
    exists k :: 0 <= k < 9 && s[Unit(u)[k]] == d
  }

  /** No two cells of unit u hold the same digit in the grid s. */
  ghost predicate UnitDistinct(s: seq<int>, u: int)
    requires |s| == 81 && 0 <= u < 29
  {
    forall i, j :: 0 <= i < j < 9 ==> s[Unit(u)[i]] != s[Unit(u)[j]]
  }

  /** A complete grid: every unit holds each digit 1..9 exactly once. */
  ghost predicate IsSolution(s: seq<int>)
  {
    |s| == 81 &&
    (forall c :: 0 <= c < 81 ==> s[c] in Digits) &&
    (forall u, d :: 0 <= u < 29 && d in Digits ==> UnitHasDigit(s, u, d)) &&
    (forall u :: 0 <= u < 29 ==> UnitDistinct(s, u))
  }

  /** The solution s is still allowed by the board v. */
  ghost predicate Consistent(s: seq<int>, v: Board)
  {
    |s| == |v| && forall c :: 0 <= c < |v| ==> s[c] in v[c]
  }

  /** A solution gives different digits to peers. */
  lemma SolutionPeersDiffer(s: seq<int>, c: int, p: int)
    requires IsSolution(s) && IsPeer(c, p)
    ensures s[c] != s[p]
  {
    var u := PeersHaveUnit(c, p);
    var i :| 0 <= i < 9 && Unit(u)[i] == c;
    var j :| 0 <= j < 9 && Unit(u)[j] == p;
    assert UnitDistinct(s, u);
    if i < j {
      assert s[Unit(u)[i]] != s[Unit(u)[j]];
    } else {
      assert s[Unit(u)[j]] != s[Unit(u)[i]];
    }
  }

  /** A consistent board has no empty cell. */
  lemma ConsistentNoEmpty(s: seq<int>, v: Board)
    requires Consistent(s, v)
    ensures !HasEmpty(v)
  {
  }

  /** |b| splits over a subset a. */
  lemma SubsetCard(a: set<int>, b: set<int>)
    requires a <= b
    ensures |b| == |a| + |b - a|
  {
    assert b == a + (b - a);
  }

  /** A non-empty subset of a singleton is that singleton. */
  lemma SingletonSubset(a: set<int>, b: set<int>)
    requires a <= b && |b| == 1 && a != {}
    ensures a == b
  {
    SubsetCard(a, b);
  }

  /** A set of one element that holds x is {x}. */
  lemma SingletonIs(a: set<int>, x: int)
    requires |a| == 1 && x in a
    ensures a == {x}
  {
    SubsetCard({x}, a);
  }

  /** A set of two elements that holds p and q, p != q, is {p, q}. */
  lemma PairIs(a: set<int>, p: int, q: int)
    requires |a| == 2 && p in a && q in a && p != q
    ensures a == {p, q}
  {
    SubsetCard({p, q}, a);
  }

  /** A board never holds more than 9 candidates in a cell. */
  lemma CellAtMostNine(v: Board, c: int)
    requires IsBoard(v) && 0 <= c < 81
    ensures |v[c]| <= 9
  {
    SubsetCard(v[c], Digits);
  }

  /** Striking candidates never raises the total. */
  lemma {:induction false} SizeRefines(w: Board, v: Board)
    requires Refines(w, v)
    ensures Size(w) <= Size(v)
  {
    if v != [] {
      SubsetCard(w[0], v[0]);
      SizeRefines(w[1..], v[1..]);
    }
  }

  /** Replacing one cell changes the total by the change in that cell. */
  lemma {:induction false} SizeUpdate(v: Board, m: int, a: set<int>)
    requires 0 <= m < |v|
    ensures Size(v[m := a]) == Size(v) - |v[m]| + |a|
  {
    if m > 0 {
      assert v[m := a][1..] == v[1..][m - 1 := a];
      SizeUpdate(v[1..], m - 1, a);
    } else {
      assert v[m := a][1..] == v[1..];
    }
  }

  /** If every cell determined in v is still determined in w, w has at least
      as many determined cells, and the same number only when w determines
      no cell that v left open. */
  lemma {:induction false} CountGrows(v: Board, w: Board)
    requires |v| == |w|
    requires forall c :: 0 <= c < |v| && |v[c]| == 1 ==> |w[c]| == 1
    ensures Count(v) <= Count(w)
    ensures Count(v) == Count(w) ==> NoneNewlyDetermined(v, w)
  {
    if v != [] {
      CountGrows(v[1..], w[1..]);
      if Count(v) == Count(w) {
        forall c | 0 <= c < |v| && |w[c]| == 1
          ensures |v[c]| == 1
        {
          if c > 0 {
            assert |w[1..][c - 1]| == 1;
          }
        }
      }
    }
  }
}
