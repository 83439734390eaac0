/** The eliminate strategy (solution.py, `eliminate`): every cell that is
    determined when the pass starts, and is still determined when the pass
    reaches it, strikes its digit from all of its peers. The pass works in
    place on the board. */
module Elimination {
  import opened Topology
  import opened Boards

  /** w with the candidates of cell b struck from every peer of b. */
  function Strip(w: Board, b: int): (r: Board)
    requires |w| == 81
  {
    seq(81, c requires 0 <= c < 81 => if IsPeer(b, c) then w[c] - w[b] else w[c])
  }

  /** The board once the pass has visited cells 0..n-1 of the board v it
      started from. Cell b acts only if it was determined in v and is still
      determined when its turn comes. */
  ghost function EliminateUpTo(v: Board, n: int): (r: Board)
    requires |v| == 81 && 0 <= n <= 81
    ensures |r| == 81
    decreases n
  {
    if n == 0 then v
    else
      var w := EliminateUpTo(v, n - 1);
      if |v[n - 1]| == 1 && |w[n - 1]| == 1 then Strip(w, n - 1) else w
  }

  /** The board after one whole eliminate pass over v. */
  ghost function EliminateSpec(v: Board): Board
    requires |v| == 81
  {
    EliminateUpTo(v, 81)
  }

  /** The inner loop of the pass: cell b's candidates are struck from each
      of its peers, in place. */
  method StrikeFromPeers(a: array<set<int>>, b: int)
    requires a.Length == 81 && 0 <= b < 81
    modifies a
    ensures a[..] == Strip(old(a[..]), b)
  {
    var digit := a[b];
    for p := 0 to 81
      invariant forall c :: 0 <= c < 81 ==>
        a[c] == if c < p && IsPeer(b, c) then old(a[c]) - digit else old(a[c])
    {
      if IsPeer(b, p) {
        a[p] := a[p] - digit;
      }
    }
  }

  /** The pass as the solver runs it: the list of cells determined at the
      start is taken first, then each of them that is still determined
      strikes its digit from its peers, updating the board in place. */
  method Eliminate(a: array<set<int>>)
    requires a.Length == 81
    modifies a
    ensures a[..] == EliminateSpec(old(a[..]))
  {
    ghost var v := a[..];
    var solved := set b | 0 <= b < 81 && |a[b]| == 1;
    for b := 0 to 81
      invariant a[..] == EliminateUpTo(v, b)
    {
      if b in solved && |a[b]| == 1 {
        StrikeFromPeers(a, b);
      }
    }
  }

  /** Later stages of the pass only strike further candidates. */
  lemma {:induction false} UpToRefinesEarlier(v: Board, n: int, m: int)
    requires |v| == 81 && 0 <= n <= m <= 81
    ensures Refines(EliminateUpTo(v, m), EliminateUpTo(v, n))
    decreases m
  {
    if n < m {
      UpToRefinesEarlier(v, n, m - 1);
    }
  }

  /** The pass only strikes candidates. */
  lemma EliminateRefines(v: Board)
    requires |v| == 81
    ensures Refines(EliminateSpec(v), v)
  {
    UpToRefinesEarlier(v, 0, 81);
  }

  /** Eliminate does its job: a cell determined as {d} before and after
      the pass leaves no peer that still allows d. */
  lemma EliminateClearsPeers(v: Board, c: int)
    requires |v| == 81 && 0 <= c < 81
    requires |v[c]| == 1 && |EliminateSpec(v)[c]| == 1
    ensures EliminateSpec(v)[c] == v[c]
    ensures forall p :: IsPeer(c, p) ==> EliminateSpec(v)[p] !! v[c]
  {
    var w := EliminateUpTo(v, c);
    UpToRefinesEarlier(v, 0, c);
    UpToRefinesEarlier(v, c, 81);
    UpToRefinesEarlier(v, c + 1, 81);
    SingletonSubset(EliminateSpec(v)[c], v[c]);
    SingletonSubset(w[c], v[c]);
    assert EliminateUpTo(v, c + 1) == Strip(w, c);
  }

  /** Every determined cell of the result has struck its digit from its
      peers, provided the pass determined no cell that was open before. */
  lemma EliminateCompletes(v: Board)
    requires |v| == 81
    requires NoneNewlyDetermined(v, EliminateSpec(v))
    ensures forall c, p :: IsPeer(c, p) && |EliminateSpec(v)[c]| == 1 ==>
      EliminateSpec(v)[p] !! EliminateSpec(v)[c]
  {
    forall c, p | IsPeer(c, p) && |EliminateSpec(v)[c]| == 1
      ensures EliminateSpec(v)[p] !! EliminateSpec(v)[c]
    {
      EliminateClearsPeers(v, c);
    }
  }

  /** On a board where no determined cell's digit is left in a peer, the
      pass changes nothing. */
  lemma {:induction false} EliminateNoop(v: Board, n: int)
    requires |v| == 81 && 0 <= n <= 81
    requires forall c, p :: IsPeer(c, p) && |v[c]| == 1 ==> v[p] !! v[c]
    ensures EliminateUpTo(v, n) == v
  {
    if n > 0 {
      EliminateNoop(v, n - 1);
      if |v[n - 1]| == 1 {
        forall c | 0 <= c < 81
          ensures Strip(v, n - 1)[c] == v[c]
        {
          if IsPeer(n - 1, c) {
            assert v[c] !! v[n - 1];
          }
        }
        assert Strip(v, n - 1) == v;
      }
    }
  }

  /** Eliminate is idempotent once it determines no new cell: a second pass
      changes nothing. */
  lemma EliminateIdempotent(v: Board)
    requires |v| == 81
    requires NoneNewlyDetermined(v, EliminateSpec(v))
    ensures EliminateSpec(EliminateSpec(v)) == EliminateSpec(v)
  {
    EliminateCompletes(v);
    EliminateNoop(EliminateSpec(v), 81);
  }

  /** Eliminate never strikes a digit that a solution allowed by the board
      puts in that cell. */
  lemma {:induction false} EliminateKeepsSolution(v: Board, s: seq<int>, n: int)
    requires |v| == 81 && 0 <= n <= 81 && IsSolution(s) && Consistent(s, v)
    ensures Consistent(s, EliminateUpTo(v, n))
    decreases n
  {
    if n > 0 {
      EliminateKeepsSolution(v, s, n - 1);
      var w := EliminateUpTo(v, n - 1);
      if |v[n - 1]| == 1 && |w[n - 1]| == 1 {
        SingletonIs(w[n - 1], s[n - 1]);
        forall p | IsPeer(n - 1, p)
          ensures s[p] in Strip(w, n - 1)[p]
        {
          SolutionPeersDiffer(s, n - 1, p);
        }
      }
    }
  }
}
