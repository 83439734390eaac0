/** Constraint propagation (solution.py, `reduce_puzzle`): eliminate and
    only-choice passes alternate, in place, until a pass determines no new
    cell; the puzzle is reported unsolvable as soon as a pass leaves a cell
    with no candidate. */
module Reduction {
  import opened Topology
  import opened Boards
  import opened Elimination
  import opened OnlyChoiceStrategy

  /** The outcome of a reduction: the board it ends with, and whether every
      cell still has a candidate (`ok` is false where the solver returns
      False). */
  datatype Reduced = Reduced(board: Board, ok: bool)

  /** One eliminate pass followed by one only-choice pass. */
  ghost function Pass(v: Board): (w: Board)
    requires |v| == 81
    ensures |w| == 81
  {
    OnlyChoiceSpec(EliminateSpec(v))
  }

  /** One cell through a pass: e refines v, w narrows e. A cell that is
      determined in v and not empty in w is determined in w, and a cell
      that e determines and w does not empty is unchanged in w. */
  lemma PassCell(v: Board, e: Board, w: Board, c: int)
    requires Refines(e, v) && Narrowed(w, e) && 0 <= c < |v| && w[c] != {}
    ensures |v[c]| == 1 ==> |e[c]| == 1 && |w[c]| == 1
    ensures |e[c]| == 1 ==> w[c] == e[c]
  {
    if |v[c]| == 1 {
      SingletonSubset(e[c], v[c]);
    }
    if w[c] != e[c] && |e[c]| == 1 {
      SingletonSubset(w[c], e[c]);
    }
  }

  /** Striking candidates and then setting cells never loses a determined
      cell unless a cell ends up empty. */
  lemma StepsKeepDetermined(v: Board, e: Board, w: Board)
    requires Refines(e, v) && Narrowed(w, e) && !HasEmpty(w)
    ensures Count(v) <= Count(w)
    ensures Count(v) == Count(w) ==> NoneNewlyDetermined(v, w)
  {
    forall c | 0 <= c < |v| && |v[c]| == 1
      ensures |w[c]| == 1
    {
      PassCell(v, e, w, c);
    }
    CountGrows(v, w);
  }

  /** When setting cells determined nothing new and emptied nothing, it
      changed nothing. */
  lemma StalledStepsUnchanged(v: Board, e: Board, w: Board)
    requires Refines(e, v) && Narrowed(w, e) && !HasEmpty(w)
    requires NoneNewlyDetermined(v, w)
    ensures w == e
  {
    forall c | 0 <= c < |v|
      ensures w[c] == e[c]
    {
      PassCell(v, e, w, c);
    }
  }

  /** The two halves of a pass: eliminate only strikes candidates, and
      only-choice only sets cells to digits they allowed. */
  lemma PassSteps(v: Board)
    requires |v| == 81
    ensures Refines(EliminateSpec(v), v) && Narrowed(Pass(v), EliminateSpec(v))
  {
    EliminateRefines(v);
    ChooseUnitsNarrowed(EliminateSpec(v), 29);
  }

  /** A pass keeps every determined cell determined unless it empties some
      cell, so while no cell is emptied the number of determined cells never
      falls. */
  lemma PassKeepsDetermined(v: Board)
    requires |v| == 81 && !HasEmpty(Pass(v))
    ensures Count(v) <= Count(Pass(v))
  {
    PassSteps(v);
    StepsKeepDetermined(v, EliminateSpec(v), Pass(v));
  }

  /** A pass that empties no cell and leaves the number of determined cells
      where it was has determined no cell that was open. */
  lemma PassStalled(v: Board)
    requires |v| == 81 && !HasEmpty(Pass(v)) && Count(v) == Count(Pass(v))
    ensures NoneNewlyDetermined(v, Pass(v))
  {
    PassSteps(v);
    StepsKeepDetermined(v, EliminateSpec(v), Pass(v));
  }

  /** The reduction of v, pass by pass, as the solver's loop computes it. */
  ghost function ReduceSpec(v: Board): (r: Reduced)
    requires |v| == 81
    ensures |r.board| == 81
    decreases 81 - Count(v)
  {
    var w := Pass(v);
    if HasEmpty(w) then Reduced(w, false)
    else if Count(w) == Count(v) then Reduced(w, true)
    else
      PassKeepsDetermined(v);
      ReduceSpec(w)
  }

  /** The number of determined cells, counted as the solver counts them. */
  method CountDetermined(a: array<set<int>>) returns (n: nat)
    ensures n == Count(a[..])
  {
    n := 0;
    var i := a.Length;
    while i > 0
      invariant 0 <= i <= a.Length
      invariant n == Count(a[i..])
    {
      i := i - 1;
      assert a[i..][1..] == a[i + 1..];
      if |a[i]| == 1 {
        n := n + 1;
      }
    }
    assert a[0..] == a[..];
  }

  /** Whether some cell has no candidate left. */
  method AnyEmpty(a: array<set<int>>) returns (e: bool)
    ensures e <==> HasEmpty(a[..])
  {
    e := false;
    for i := 0 to a.Length
      invariant e <==> exists c :: 0 <= c < i && a[c] == {}
    {
      if a[i] == {} {
        e := true;
      }
    }
  }

  /** The loop as the solver runs it, on the board in place. */
  method ReducePuzzle(a: array<set<int>>) returns (ok: bool)
    requires a.Length == 81
    modifies a
    ensures ok == ReduceSpec(old(a[..])).ok
    ensures a[..] == ReduceSpec(old(a[..])).board
  {
    ghost var v0 := a[..];
    var stalled := false;
    while !stalled
      invariant !stalled ==> ReduceSpec(a[..]) == ReduceSpec(v0)
      invariant stalled ==> ReduceSpec(v0) == Reduced(a[..], true)
      decreases if stalled then 0 else 82 - Count(a[..])
    {
      ghost var v := a[..];
      var before := CountDetermined(a);
      Eliminate(a);
      OnlyChoice(a);
      var after := CountDetermined(a);
      stalled := before == after;
      var empty := AnyEmpty(a);
      if empty {
        return false;
      }
      PassKeepsDetermined(v);
    }
    return true;
  }

  /** Reduction only strikes candidates. */
  lemma {:induction false} ReduceRefines(v: Board)
    requires |v| == 81
    ensures Refines(ReduceSpec(v).board, v)
    decreases 81 - Count(v)
  {
    var e := EliminateSpec(v);
    var w := Pass(v);
    PassSteps(v);
    NarrowedRefines(w, e);
    RefinesTrans(w, e, v);
    if !HasEmpty(w) && Count(w) != Count(v) {
      PassKeepsDetermined(v);
      ReduceRefines(w);
      RefinesTrans(ReduceSpec(w).board, w, v);
    }
  }

  /** An eliminate pass that determines no new cell cannot be improved on
      by a second one. */
  lemma StalledElimination(v: Board)
    requires |v| == 81 && NoneNewlyDetermined(v, EliminateSpec(v))
    ensures EliminateSpec(EliminateSpec(v)) == EliminateSpec(v)
  {
    EliminateIdempotent(v);
  }

  /** A pass that leaves no cell empty and determines no new cell leaves
      nothing for a further pass to do. */
  lemma StalledPassIsFixed(v: Board)
    requires |v| == 81 && !HasEmpty(Pass(v)) && Count(Pass(v)) == Count(v)
    ensures Pass(v) == EliminateSpec(v)
    ensures EliminateSpec(Pass(v)) == Pass(v) && OnlyChoiceSpec(Pass(v)) == Pass(v)
  {
    var e := EliminateSpec(v);
    var w := Pass(v);
    PassSteps(v);
    PassStalled(v);
    StalledStepsUnchanged(v, e, w);
    StalledElimination(v);
  }

  /** What reduction promises: the outcome is ok exactly when no cell is
      empty, and an ok board is stable under both strategies (every
      determined cell's digit is gone from its peers, and no digit has a
      single place left undetermined). */
  lemma {:induction false} ReduceOutcome(v: Board)
    requires |v| == 81
    ensures ReduceSpec(v).ok <==> !HasEmpty(ReduceSpec(v).board)
    ensures ReduceSpec(v).ok ==>
      EliminateSpec(ReduceSpec(v).board) == ReduceSpec(v).board &&
      OnlyChoiceSpec(ReduceSpec(v).board) == ReduceSpec(v).board
    decreases 81 - Count(v)
  {
    var w := Pass(v);
    if !HasEmpty(w) {
      if Count(w) == Count(v) {
        StalledPassIsFixed(v);
      } else {
        PassKeepsDetermined(v);
        ReduceOutcome(w);
      }
    }
  }

  /** Reduction never loses a solution the board allows: with such a
      solution the outcome is ok and the final board still allows it. */
  lemma {:induction false} ReduceKeepsSolution(v: Board, s: seq<int>)
    requires |v| == 81 && IsSolution(s) && Consistent(s, v)
    ensures ReduceSpec(v).ok && Consistent(s, ReduceSpec(v).board)
    decreases 81 - Count(v)
  {
    EliminateKeepsSolution(v, s, 81);
    OnlyChoiceKeepsSolution(EliminateSpec(v), 29, s);
    var w := Pass(v);
    ConsistentNoEmpty(s, w);
    if Count(w) != Count(v) {
      PassKeepsDetermined(v);
      ReduceKeepsSolution(w, s);
    }
  }
}
