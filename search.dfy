/** Depth-first search (solution.py, `search` and `solve`): reduce the
    board, apply naked twins, and if some cell is still open branch on the
    first open cell with fewest candidates, trying its digits in ascending
    order. The solver's three possible results are kept apart: a board,
    False (reduction emptied a cell) and None (every branch failed, or the
    chosen cell had no candidate at all). */
module Search {
  import opened Topology
  import opened Boards
  import opened NakedTwinsStrategy
  import opened Reduction

  datatype Outcome =
    | Solved(board: Board)  // the solver returns a board
    | Unsolvable            // the solver returns False
    | NoAnswer              // the solver returns None

  /** The branching cell and its number of candidates after cells 0..n-1
      have been looked at: determined cells are skipped, and a cell is
      taken only when it has strictly fewer candidates than the best so
      far, starting from cell 0 with the bound 10. */
  ghost function SelectMinUpTo(v: Board, n: int): (r: (int, int))
    requires |v| == 81 && 0 <= n <= 81
  {
    if n == 0 then (0, 10)
    else
      var best := SelectMinUpTo(v, n - 1);
      if |v[n - 1]| != 1 && |v[n - 1]| < best.1 then (n - 1, |v[n - 1]|) else best
  }

  ghost function SelectMin(v: Board): (int, int)
    requires |v| == 81
  {
    SelectMinUpTo(v, 81)
  }

  /** What the selection loop keeps: the chosen cell is the first
      undetermined cell with the fewest candidates among cells 0..n-1, and
      the bound stays 10 exactly when none of them has between 0 and 9
      candidates without being determined. */
  lemma {:induction false} SelectMinUpToSpec(v: Board, n: int)
    requires |v| == 81 && 0 <= n <= 81
    ensures var r := SelectMinUpTo(v, n);
      0 <= r.0 < 81 && 0 <= r.1 <= 10 &&
      (r.1 == 10 <==> forall c :: 0 <= c < n ==> |v[c]| == 1 || |v[c]| >= 10) &&
      (r.1 != 10 ==> r.0 < n && |v[r.0]| == r.1 && r.1 != 1) &&
      (forall c :: 0 <= c < n && |v[c]| != 1 ==> r.1 <= |v[c]|) &&
      (forall c :: 0 <= c < r.0 && |v[c]| != 1 ==> r.1 < |v[c]|)
    decreases n
  {
    if n > 0 {
      SelectMinUpToSpec(v, n - 1);
    }
  }

  /** The branching cell is a cell of the board; unless the bound is still
      10 it is an undetermined cell with exactly that many candidates. */
  lemma SelectMinChosen(v: Board)
    requires |v| == 81
    ensures var r := SelectMin(v);
      0 <= r.0 < 81 && (r.1 != 10 ==> |v[r.0]| == r.1 && r.1 != 1)
  {
    SelectMinUpToSpec(v, 81);
  }

  /** On a board whose cells hold digits 1..9 only, the bound stays 10
      exactly when the board is fully determined, and otherwise the chosen
      cell is the first undetermined cell with the fewest candidates. */
  lemma SelectMinSpec(v: Board)
    requires IsBoard(v)
    ensures var r := SelectMin(v);
      0 <= r.0 < 81 &&
      (r.1 == 10 <==> AllDetermined(v)) &&
      (r.1 != 10 ==> |v[r.0]| == r.1 && r.1 != 1) &&
      (forall c :: 0 <= c < 81 && |v[c]| != 1 ==> r.1 <= |v[c]|) &&
      (forall c :: 0 <= c < r.0 && |v[c]| != 1 ==> r.1 < |v[c]|)
  {
    SelectMinUpToSpec(v, 81);
    forall c | 0 <= c < 81
      ensures |v[c]| <= 9
    {
      CellAtMostNine(v, c);
    }
  }

  /** The loop that chooses the branching cell, as the solver runs it. */
  method ChooseBranchCell(values: Board) returns (minBox: int, minLength: int)
    requires |values| == 81
    ensures (minBox, minLength) == SelectMin(values)
  {
    minBox, minLength := 0, 10;
    for c := 0 to 81
      invariant (minBox, minLength) == SelectMinUpTo(values, c)
    {
      if |values[c]| != 1 && |values[c]| < minLength {
        minLength := |values[c]|;
        minBox := c;
      }
    }
  }

  /** The board search branches on: the reduced board after naked twins. */
  ghost function Prepared(v: Board): (t: Board)
    requires |v| == 81 && ReduceSpec(v).ok
    ensures |t| == 81 && Size(t) <= Size(v)
  {
    PreparedRefines(v);
    SizeRefines(NakedTwinsSpec(ReduceSpec(v).board), v);
    NakedTwinsSpec(ReduceSpec(v).board)
  }

  /** Reduction and naked twins only strike candidates. */
  lemma PreparedRefines(v: Board)
    requires |v| == 81 && ReduceSpec(v).ok
    ensures Refines(NakedTwinsSpec(ReduceSpec(v).board), v)
  {
    var b := ReduceSpec(v).board;
    ReduceRefines(v);
    NakedTwinsRefines(b);
    RefinesTrans(NakedTwinsSpec(b), b, v);
  }

  /** Setting an open cell m to one of its candidates d gives a board with
      fewer candidates that refines the old one. */
  lemma SetCell(t: Board, m: int, d: int)
    requires |t| == 81 && 0 <= m < 81 && |t[m]| != 1 && d in t[m]
    ensures Refines(t[m := {d}], t) && Size(t[m := {d}]) < Size(t)
  {
    SizeUpdate(t, m, {d});
  }

  /** The result of searching from board v. */
  ghost function SearchSpec(v: Board): (r: Outcome)
    requires |v| == 81
    decreases Size(v), 1, 0
  {
    if !ReduceSpec(v).ok then Unsolvable
    else
      var t := Prepared(v);
      SelectMinChosen(t);
      var best := SelectMin(t);
      if best.1 == 10 then Solved(t)
      else TryFrom(t, best.0, 1)
  }

  /** The branch loop over the digits d, d+1, ..., 9 of cell m of the
      board t: each digit the cell allows is tried on a copy of t with m set
      to it; the first search that returns a board is the answer, and when
      none does the result is None. */
  ghost function TryFrom(t: Board, m: int, d: int): (r: Outcome)
    requires |t| == 81 && 0 <= m < 81 && |t[m]| != 1 && 1 <= d <= 10
    decreases Size(t), 0, 10 - d
  {
    if d == 10 then NoAnswer
    else if d in t[m] then
      SetCell(t, m, d);
      var answer := SearchSpec(t[m := {d}]);
      if answer.Solved? then answer else TryFrom(t, m, d + 1)
    else TryFrom(t, m, d + 1)
  }

  /** One step of the search, spelled out: False when reduction empties a
      cell, the board when naked twins leaves it fully determined, and the
      branch loop on the chosen cell otherwise. */
  lemma SearchUnfold(v: Board)
    requires |v| == 81
    ensures !ReduceSpec(v).ok ==> SearchSpec(v) == Unsolvable
    ensures ReduceSpec(v).ok && SelectMin(Prepared(v)).1 == 10 ==>
      SearchSpec(v) == Solved(Prepared(v))
    ensures ReduceSpec(v).ok && SelectMin(Prepared(v)).1 != 10 ==>
      0 <= SelectMin(Prepared(v)).0 < 81 && |Prepared(v)[SelectMin(Prepared(v)).0]| != 1 &&
      SearchSpec(v) == TryFrom(Prepared(v), SelectMin(Prepared(v)).0, 1)
  {
    if ReduceSpec(v).ok {
      SelectMinChosen(Prepared(v));
    }
  }

  /** One step of the branch loop, spelled out: the branch for d is the
      answer when d is a candidate and its search returns a board;
      otherwise the loop moves on to d + 1. */
  lemma TryUnfold(t: Board, m: int, d: int)
    requires |t| == 81 && 0 <= m < 81 && |t[m]| != 1 && 1 <= d < 10
    ensures TryFrom(t, m, d) ==
      if d in t[m] && SearchSpec(t[m := {d}]).Solved? then SearchSpec(t[m := {d}])
      else TryFrom(t, m, d + 1)
  {
  }

  /** A fresh array holding the board v (the solver's `values.copy()`). */
  method CopyBoard(v: Board) returns (a: array<set<int>>)
    requires |v| == 81
    ensures fresh(a) && a[..] == v
  {
    a := new set<int>[81](i requires 0 <= i < 81 => v[i]);
    assert a[..] == v;
  }

  /** Search as the solver runs it. The board passed in is reduced in place
      (the caller sees the reduced board); naked twins works on a copy. */
  method Search(values: array<set<int>>) returns (r: Outcome)
    requires values.Length == 81
    modifies values
    ensures r == SearchSpec(old(values[..]))
    ensures values[..] == ReduceSpec(old(values[..])).board
    decreases Size(values[..]), 1
  {
    ghost var v := values[..];
    SearchUnfold(v);
    var ok := ReducePuzzle(values);
    if !ok {
      return Unsolvable;
    }
    var t := NakedTwins(values[..]);
    assert t == Prepared(v);
    SelectMinChosen(t);
    var minBox, minLength := ChooseBranchCell(t);
    if minLength == 10 {
      return Solved(t);
    }
    r := Branch(t, minBox);
  }

  /** The branch loop of the search as the solver runs it: each candidate
      digit of cell m, in ascending order, is tried on its own copy of t;
      the first branch that returns a board ends the loop. */
  method Branch(t: Board, m: int) returns (r: Outcome)
    requires |t| == 81 && 0 <= m < 81 && |t[m]| != 1
    ensures r == TryFrom(t, m, 1)
    decreases Size(t), 0
  {
    for d := 1 to 10
      invariant TryFrom(t, m, 1) == TryFrom(t, m, d)
    {
      TryUnfold(t, m, d);
      if d in t[m] {
        var child := CopyBoard(t);
        child[m] := {d};
        assert child[..] == t[m := {d}];
        SetCell(t, m, d);
        var answer := Search(child);
        if answer.Solved? {
          return answer;
        }
      }
    }
    return NoAnswer;
  }

  /** Solving a puzzle: search from the board of its givens. A board comes
      back fully determined and allowed by the givens; False comes back
      exactly when reduction of the givens empties a cell; and whenever the
      givens allow a solution, a board comes back. */
  method Solve(initial: Board) returns (r: Outcome)
    requires IsBoard(initial)
    ensures r == SearchSpec(initial)
    ensures r.Solved? ==> AllDetermined(r.board) && Refines(r.board, initial)
    ensures r == Unsolvable <==> !ReduceSpec(initial).ok
    ensures (exists s :: IsSolution(s) && Consistent(s, initial)) ==> r.Solved?
  {
    var values := CopyBoard(initial);
    r := Search(values);
    SearchSolved(initial);
    SearchUnsolvable(initial);
    if exists s :: IsSolution(s) && Consistent(s, initial) {
      var s :| IsSolution(s) && Consistent(s, initial);
      SearchComplete(initial, s);
    }
  }

  /** A search result r is good for board v: if it is a board, that board
      is fully determined and only strikes candidates of v. */
  predicate SolvedWithin(r: Outcome, v: Board)
  {
    r.Solved? ==> AllDetermined(r.board) && Refines(r.board, v)
  }

  /** Being good for a board carries over to every board it refines. */
  lemma SolvedWithinTrans(r: Outcome, t: Board, v: Board)
    requires SolvedWithin(r, t) && Refines(t, v)
    ensures SolvedWithin(r, v)
  {
    if r.Solved? {
      RefinesTrans(r.board, t, v);
    }
  }

  /** A board that search returns is fully determined and only strikes
      candidates of the board search started from. */
  lemma {:induction false} SearchSolved(v: Board)
    requires IsBoard(v)
    ensures SolvedWithin(SearchSpec(v), v)
    decreases Size(v), 1, 0
  {
    SearchUnfold(v);
    if ReduceSpec(v).ok {
      PreparedRefines(v);
      BranchSolved(Prepared(v), v);
    }
  }

  /** The branch step of SearchSolved, on the prepared board t. */
  lemma {:induction false} BranchSolved(t: Board, v: Board)
    requires |t| == 81 && Refines(t, v) && IsBoard(v)
    ensures SelectMin(t).1 == 10 ==> AllDetermined(t)
    ensures SelectMin(t).1 != 10 ==>
      0 <= SelectMin(t).0 < 81 && |t[SelectMin(t).0]| != 1 &&
      SolvedWithin(TryFrom(t, SelectMin(t).0, 1), v)
    decreases Size(t), 0, 10
  {
    RefinesBoard(t, v);
    SelectMinSpec(t);
    var best := SelectMin(t);
    if best.1 != 10 {
      TrySolved(t, best.0, 1);
      SolvedWithinTrans(TryFrom(t, best.0, 1), t, v);
    }
  }

  lemma {:induction false} TrySolved(t: Board, m: int, d: int)
    requires IsBoard(t) && 0 <= m < 81 && |t[m]| != 1 && 1 <= d <= 10
    ensures SolvedWithin(TryFrom(t, m, d), t)
    decreases Size(t), 0, 10 - d
  {
    if d < 10 {
      if d in t[m] {
        ChildSolved(t, m, d);
      }
      TrySolved(t, m, d + 1);
      TryUnfold(t, m, d);
    }
  }

  /** The branch that sets cell m of t to d. */
  lemma {:induction false} ChildSolved(t: Board, m: int, d: int)
    requires IsBoard(t) && 0 <= m < 81 && |t[m]| != 1 && d in t[m]
    ensures SolvedWithin(SearchSpec(t[m := {d}]), t)
    decreases Size(t), 0, 0
  {
    var child := t[m := {d}];
    SetCell(t, m, d);
    RefinesBoard(child, t);
    SearchSolved(child);
    SolvedWithinTrans(SearchSpec(child), child, t);
  }

  /** The branch loop never reports False: it returns a board or None. */
  lemma {:induction false} TryNeverUnsolvable(t: Board, m: int, d: int)
    requires |t| == 81 && 0 <= m < 81 && |t[m]| != 1 && 1 <= d <= 10
    ensures TryFrom(t, m, d) != Unsolvable
    decreases 10 - d
  {
    if d < 10 {
      TryNeverUnsolvable(t, m, d + 1);
      TryUnfold(t, m, d);
    }
  }

  /** Search returns False exactly when the reduction of its own board
      empties a cell; a failure further down the search shows as None. */
  lemma SearchUnsolvable(v: Board)
    requires |v| == 81
    ensures SearchSpec(v) == Unsolvable <==> !ReduceSpec(v).ok
  {
    SearchUnfold(v);
    if ReduceSpec(v).ok {
      var t := Prepared(v);
      SelectMinChosen(t);
      var best := SelectMin(t);
      if best.1 != 10 {
        TryNeverUnsolvable(t, best.0, 1);
      }
    }
  }

  /** Search is complete: when the board allows a solution, search returns
      a board. */
  lemma {:induction false} SearchComplete(v: Board, s: seq<int>)
    requires |v| == 81 && IsSolution(s) && Consistent(s, v)
    ensures SearchSpec(v).Solved?
    decreases Size(v), 1, 0
  {
    SearchUnfold(v);
    ReduceKeepsSolution(v, s);
    NakedTwinsKeepsSolution(ReduceSpec(v).board, s);
    BranchComplete(Prepared(v), s);
  }

  /** On a board that allows a solution, either every cell is determined
      or the branch loop on the chosen cell returns a board. */
  lemma {:induction false} BranchComplete(t: Board, s: seq<int>)
    requires |t| == 81 && IsSolution(s) && Consistent(s, t)
    ensures SelectMin(t).1 == 10 || (
      0 <= SelectMin(t).0 < 81 && |t[SelectMin(t).0]| != 1 &&
      TryFrom(t, SelectMin(t).0, 1).Solved?)
    decreases Size(t), 0, 10
  {
    SelectMinChosen(t);
    if SelectMin(t).1 != 10 {
      TryComplete(t, SelectMin(t).0, 1, s);
    }
  }

  /** The branch loop reaches the solution's digit for cell m, at the
      latest, and the branch for that digit returns a board. */
  lemma {:induction false} TryComplete(t: Board, m: int, d: int, s: seq<int>)
    requires |t| == 81 && 0 <= m < 81 && |t[m]| != 1 && 1 <= d <= 10
    requires IsSolution(s) && Consistent(s, t) && d <= s[m]
    ensures TryFrom(t, m, d).Solved?
    decreases Size(t), 0, 10 - d
  {
    assert s[m] in Digits;
    if d == s[m] {
      ChildComplete(t, m, s);
      TryUnfold(t, m, d);
    } else {
      if d in t[m] {
        SetCell(t, m, d);
      }
      TryComplete(t, m, d + 1, s);
      TryUnfold(t, m, d);
    }
  }

  /** The branch that sets cell m to the solution's digit returns a board. */
  lemma {:induction false} ChildComplete(t: Board, m: int, s: seq<int>)
    requires |t| == 81 && 0 <= m < 81 && |t[m]| != 1
    requires IsSolution(s) && Consistent(s, t)
    ensures SearchSpec(t[m := {s[m]}]).Solved?
    decreases Size(t), 0, 0
  {
    var child := t[m := {s[m]}];
    SetCell(t, m, s[m]);
    assert Consistent(s, child);
    SearchComplete(child, s);
  }

  /** The branch loop on a cell with no candidate tries nothing. */
  lemma {:induction false} TryEmpty(t: Board, m: int, d: int)
    requires |t| == 81 && 0 <= m < 81 && t[m] == {} && 1 <= d <= 10
    ensures TryFrom(t, m, d) == NoAnswer
    decreases 10 - d
  {
    if d < 10 {
      TryEmpty(t, m, d + 1);
      TryUnfold(t, m, d);
    }
  }

  /** On a board with an empty cell, the branching cell is an empty one. */
  lemma SelectMinEmpty(t: Board)
    requires |t| == 81 && HasEmpty(t)
    ensures SelectMin(t).1 == 0 && 0 <= SelectMin(t).0 < 81 && t[SelectMin(t).0] == {}
  {
    SelectMinUpToSpec(t, 81);
    var c :| 0 <= c < 81 && t[c] == {};
    assert SelectMin(t).1 <= |t[c]|;
  }

  /** On a board with an empty cell the branch loop returns None. */
  lemma EmptyBranch(t: Board)
    requires |t| == 81 && HasEmpty(t)
    ensures SelectMin(t).1 != 10 && 0 <= SelectMin(t).0 < 81 && |t[SelectMin(t).0]| != 1
    ensures TryFrom(t, SelectMin(t).0, 1) == NoAnswer
  {
    SelectMinEmpty(t);
    TryEmpty(t, SelectMin(t).0, 1);
  }

  /** When naked twins empties a cell of the reduced board, that cell has
      the fewest candidates (none), it is chosen for branching, there is no
      digit to try, and search returns None rather than False. */
  lemma SearchEmptyAfterTwins(v: Board)
    requires |v| == 81 && ReduceSpec(v).ok && HasEmpty(Prepared(v))
    ensures SearchSpec(v) == NoAnswer
  {
    SearchUnfold(v);
    EmptyBranch(Prepared(v));
  }

  /** The board of a complete grid: each cell holds its one digit. */
  function GridBoard(s: seq<int>): (v: Board)
    requires |s| == 81
    ensures |v| == 81 && AllDetermined(v)
    ensures forall c :: 0 <= c < 81 ==> v[c] == {s[c]}
  {
    seq(81, c requires 0 <= c < 81 => {s[c]})
  }

  /** Solving a puzzle that is already a complete, valid grid gives that
      grid back. */
  lemma SolvedGridReturned(s: seq<int>)
    requires IsSolution(s)
    ensures SearchSpec(GridBoard(s)) == Solved(GridBoard(s))
  {
    var v := GridBoard(s);
    assert IsBoard(v);
    SearchComplete(v, s);
    SearchSolved(v);
    var b := SearchSpec(v).board;
    forall c | 0 <= c < 81
      ensures b[c] == v[c]
    {
      SingletonSubset(b[c], v[c]);
    }
  }
}
