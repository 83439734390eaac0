/** The naked-twins strategy (solution.py, `naked_twins`): when two peers A
    and B hold the same two candidates {x, y}, those two digits must sit in
    A and B, so every cell that is a peer of both loses x and y. Twins are
    matched on the board as it was passed in; removals go to a copy, so a
    removal made earlier in the pass never creates or destroys a match. */
module NakedTwinsStrategy {
  import opened Topology
  import opened Boards

  /** a and b are naked twins in v: peers holding the same two candidates. */
  predicate Twins(v: Board, a: int, b: int)
    requires |v| == 81
  {
    IsPeer(a, b) && |v[a]| == 2 && v[a] == v[b]
  }

  /** Cell c is a common peer of a and of some twin b of a with a < b < hi. */
  ghost predicate CoveredBy(v: Board, a: int, c: int, hi: int)
    requires |v| == 81
  {
    exists b :: a < b < hi && Twins(v, a, b) && IsPeer(a, c) && IsPeer(b, c)
  }

  /** The digits struck from cell c by the twin pairs whose first cell (in
      row-major order) is one of 0..n-1. */
  ghost function Struck(v: Board, c: int, n: int): set<int>
    requires |v| == 81 && 0 <= n <= 81
  {
    if n == 0 then {}
    else Struck(v, c, n - 1) + (if CoveredBy(v, n - 1, c, 81) then v[n - 1] else {})
  }

  /** The board the strategy returns. */
  ghost function NakedTwinsSpec(v: Board): (r: Board)
    requires |v| == 81
    ensures |r| == 81
  {
    seq(81, c requires 0 <= c < 81 => v[c] - Struck(v, c, 81))
  }

  /** The loop over the common peers of a twin pair a, b: each of them
      loses the pair's digits. */
  method StrikeCommonPeers(out: Board, a: int, b: int, digits: set<int>) returns (r: Board)
    requires |out| == 81
    ensures |r| == 81
    ensures forall c :: 0 <= c < 81 ==>
      r[c] == if IsPeer(a, c) && IsPeer(b, c) then out[c] - digits else out[c]
  {
    r := out;
    for p := 0 to 81
      invariant |r| == 81
      invariant forall c :: 0 <= c < 81 ==>
        r[c] == if c < p && IsPeer(a, c) && IsPeer(b, c) then out[c] - digits else out[c]
    {
      if IsPeer(a, p) && IsPeer(b, p) {
        r := r[p := r[p] - digits];
      }
    }
  }

  /** Extending the range of partners by b adds exactly the pair (a, b). */
  lemma CoveredStep(v: Board, a: int, c: int, b: int)
    requires |v| == 81
    ensures CoveredBy(v, a, c, b + 1) <==>
      CoveredBy(v, a, c, b) || (a < b && Twins(v, a, b) && IsPeer(a, c) && IsPeer(b, c))
  {
    if CoveredBy(v, a, c, b + 1) && !CoveredBy(v, a, c, b) {
      var w :| a < w < b + 1 && Twins(v, a, w) && IsPeer(a, c) && IsPeer(w, c);
      assert w == b;
    }
    if a < b && Twins(v, a, b) && IsPeer(a, c) && IsPeer(b, c) {
      assert CoveredBy(v, a, c, b + 1);
    }
  }

  /** Naked twins only strikes candidates. */
  lemma NakedTwinsRefines(v: Board)
    requires |v| == 81
    ensures Refines(NakedTwinsSpec(v), v)
  {
  }

  /** The partner loop for cell a: every unvisited peer b of a with the same
      two candidates makes the common peers of a and b lose them. The
      visited cells are exactly the two-candidate cells up to a. */
  method StrikeTwinsOf(values: Board, a: int, visited: set<int>, out: Board) returns (r: Board)
    requires |values| == 81 && |out| == 81 && 0 <= a < 81 && |values[a]| == 2
    requires visited == set x | 0 <= x <= a && |values[x]| == 2
    ensures |r| == 81
    ensures forall c :: 0 <= c < 81 ==>
      r[c] == out[c] - (if CoveredBy(values, a, c, 81) then values[a] else {})
  {
    r := out;
    for b := 0 to 81
      invariant |r| == 81
      invariant forall c :: 0 <= c < 81 ==>
        r[c] == out[c] - (if CoveredBy(values, a, c, b) then values[a] else {})
    {
      forall c | 0 <= c < 81 {
        CoveredStep(values, a, c, b);
      }
      if IsPeer(a, b) && b !in visited && |values[b]| == 2 && values[b] == values[a] {
        r := StrikeCommonPeers(r, a, b, values[a]);
      }
    }
  }

  /** Striking two sets in turn strikes their union. */
  lemma MinusMinus(x: set<int>, s: set<int>, t: set<int>)
    ensures x - s - t == x - (s + t)
  {
  }

  /** The strategy as the solver runs it: cells are visited in row-major
      order; a cell with two candidates is marked visited and paired with
      each unvisited peer holding the same two candidates. The input is
      only read; all removals are made to the copy `out`. */
  method NakedTwins(values: Board) returns (out: Board)
    requires |values| == 81
    ensures out == NakedTwinsSpec(values)
    ensures Refines(out, values)
  {
    var visited: set<int> := {};
    out := values;
    for a := 0 to 81
      invariant |out| == 81
      invariant visited == set x | 0 <= x < a && |values[x]| == 2
      invariant forall c :: 0 <= c < 81 ==> out[c] == values[c] - Struck(values, c, a)
    {
      if |values[a]| == 2 {
        visited := visited + {a};
        ghost var before := out;
        out := StrikeTwinsOf(values, a, visited, out);
        forall c | 0 <= c < 81
          ensures out[c] == values[c] - Struck(values, c, a + 1)
        {
          MinusMinus(values[c], Struck(values, c, a),
            if CoveredBy(values, a, c, 81) then values[a] else {});
        }
      } else {
        forall c | 0 <= c < 81
          ensures !CoveredBy(values, a, c, 81)
        {
        }
      }
    }
  }

  /** Twin pairs anchored below n strike their digits from their common
      peers. */
  lemma {:induction false} StruckCovers(v: Board, c: int, a: int, n: int)
    requires |v| == 81 && 0 <= a < n <= 81 && CoveredBy(v, a, c, 81)
    ensures v[a] <= Struck(v, c, n)
    decreases n
  {
    if a < n - 1 {
      StruckCovers(v, c, a, n - 1);
    }
  }

  /** Every struck digit has a reason: a twin pair whose common peers
      include c and whose candidates include the digit. */
  lemma {:induction false} StruckHasReason(v: Board, c: int, n: int, d: int)
    requires |v| == 81 && 0 <= n <= 81 && d in Struck(v, c, n)
    ensures exists a, b :: Twins(v, a, b) && IsPeer(a, c) && IsPeer(b, c) && d in v[a]
    decreases n
  {
    if d in Struck(v, c, n - 1) {
      StruckHasReason(v, c, n - 1, d);
    } else {
      var b :| n - 1 < b < 81 && Twins(v, n - 1, b) && IsPeer(n - 1, c) && IsPeer(b, c);
      assert d in v[n - 1];
    }
  }

  /** The effect of naked twins, both ways: a candidate d of cell c is
      struck exactly when some pair of naked twins A, B, both peers of c,
      holds d. In particular the common peers of a twin pair lose both
      digits of the pair. */
  lemma NakedTwinsEffect(v: Board, c: int, d: int)
    requires |v| == 81 && 0 <= c < 81 && d in v[c]
    ensures d !in NakedTwinsSpec(v)[c] <==>
      exists a, b :: Twins(v, a, b) && IsPeer(a, c) && IsPeer(b, c) && d in v[a]
  {
    if d !in NakedTwinsSpec(v)[c] {
      StruckHasReason(v, c, 81, d);
    }
    if exists a, b :: Twins(v, a, b) && IsPeer(a, c) && IsPeer(b, c) && d in v[a] {
      var a, b :| Twins(v, a, b) && IsPeer(a, c) && IsPeer(b, c) && d in v[a];
      PeersShareUnit(a, b);
      if a < b {
        assert CoveredBy(v, a, c, 81);
        StruckCovers(v, c, a, 81);
      } else {
        assert Twins(v, b, a);
        assert CoveredBy(v, b, c, 81);
        StruckCovers(v, c, b, 81);
      }
    }
  }

  /** A cell that is a common peer of no twin pair comes back unchanged. */
  lemma NakedTwinsUntouched(v: Board, c: int)
    requires |v| == 81 && 0 <= c < 81
    requires forall a, b :: Twins(v, a, b) ==> !(IsPeer(a, c) && IsPeer(b, c))
    ensures NakedTwinsSpec(v)[c] == v[c]
  {
    forall d | d in v[c]
      ensures d in NakedTwinsSpec(v)[c]
    {
      NakedTwinsEffect(v, c, d);
    }
  }

  /** A solution allowed by the board puts the two digits of a twin pair
      in the pair itself, so no common peer of the pair holds either. */
  lemma TwinsExcludeSolution(v: Board, s: seq<int>, a: int, b: int, c: int)
    requires |v| == 81 && IsSolution(s) && Consistent(s, v)
    requires Twins(v, a, b) && IsPeer(a, c) && IsPeer(b, c)
    ensures s[c] !in v[a]
  {
    SolutionPeersDiffer(s, a, b);
    SolutionPeersDiffer(s, a, c);
    SolutionPeersDiffer(s, b, c);
    PairIs(v[a], s[a], s[b]);
  }

  /** Naked twins never strikes the digit that a solution allowed by the
      board puts in a cell. */
  lemma NakedTwinsKeepsSolution(v: Board, s: seq<int>)
    requires |v| == 81 && IsSolution(s) && Consistent(s, v)
    ensures Consistent(s, NakedTwinsSpec(v))
  {
    forall c | 0 <= c < 81
      ensures s[c] in NakedTwinsSpec(v)[c]
    {
      forall a, b | Twins(v, a, b) && IsPeer(a, c) && IsPeer(b, c)
        ensures s[c] !in v[a]
      {
        TwinsExcludeSolution(v, s, a, b, c);
      }
      if s[c] in Struck(v, c, 81) {
        StruckHasReason(v, c, 81, s[c]);
      }
    }
  }

  /** Naked twins can empty a cell: when three cells that are pairwise peers
      hold the same two candidates, each is a common peer of the other two
      and loses both digits. */
  lemma NakedTwinsEmptiesTriple(v: Board, a: int, b: int, c: int)
    requires |v| == 81
    requires IsPeer(a, b) && IsPeer(a, c) && IsPeer(b, c)
    requires |v[a]| == 2 && v[b] == v[a] && v[c] == v[a]
    ensures NakedTwinsSpec(v)[c] == {}
  {
    forall d | d in v[c]
      ensures d !in NakedTwinsSpec(v)[c]
    {
      assert Twins(v, a, b);
      NakedTwinsEffect(v, c, d);
    }
  }

  /** On the board of NakedTwinsClashingPeers, the only twin pair holding 1
      is A1, A2 itself, so neither of them loses 1. */
  lemma NoTwinHoldsOne(v: Board, c: int)
    requires |v| == 81 && (c == 0 || c == 1)
    requires v[0] == {1, 2} && v[1] == {1, 2} && v[2] == {2, 3} && v[3] == {2, 3}
    requires forall x :: 4 <= x < 81 ==> |v[x]| != 2
    ensures forall a, b :: Twins(v, a, b) && IsPeer(a, c) && IsPeer(b, c) ==> 1 !in v[a]
  {
    forall a, b | Twins(v, a, b) && IsPeer(a, c) && IsPeer(b, c)
      ensures 1 !in v[a]
    {
      assert 0 <= a < 4 && 0 <= b < 4;
    }
  }

  /** Naked twins can leave two peers determined to the same digit: with
      twins {1, 2} in A1, A2 and twins {2, 3} in A3, A4 (and no other cell
      with two candidates), A1 and A2 each lose 2 to the second pair and
      both end up as {1}. */
  lemma NakedTwinsClashingPeers(v: Board)
    requires |v| == 81
    requires v[0] == {1, 2} && v[1] == {1, 2} && v[2] == {2, 3} && v[3] == {2, 3}
    requires forall x :: 4 <= x < 81 ==> |v[x]| != 2
    ensures IsPeer(0, 1)
    ensures NakedTwinsSpec(v)[0] == {1} && NakedTwinsSpec(v)[1] == {1}
  {
    NakedTwinsRefines(v);
    assert Twins(v, 2, 3);
    forall c | c == 0 || c == 1
      ensures NakedTwinsSpec(v)[c] == {1}
    {
      NoTwinHoldsOne(v, c);
      NakedTwinsEffect(v, c, 1);
      NakedTwinsEffect(v, c, 2);
    }
  }
}
