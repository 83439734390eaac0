/** The only-choice strategy (solution.py, `only_choice`): for each unit in
    unit-list order and each digit 1..9 in turn, if exactly one cell of the
    unit still allows the digit, that cell is set to the digit. Assignments
    are made in place as they are found, so later units see them. */
module OnlyChoiceStrategy {
  import opened Topology
  import opened Boards

  /** The cells of `unit` that still allow digit d, in unit order (the
      solver's `digitPlaces`). */
  function Places(v: Board, unit: seq<int>, d: int): (places: seq<int>)
    requires forall k :: 0 <= k < |unit| ==> 0 <= unit[k] < |v|
    ensures forall k :: 0 <= k < |places| ==> 0 <= places[k] < |v|
  {
    if unit == [] then []
    else (if d in v[unit[0]] then [unit[0]] else []) + Places(v, unit[1..], d)
  }

  /** The places of d are exactly the cells of the list that allow d. */
  lemma {:induction false} PlacesSpec(v: Board, unit: seq<int>, d: int)
    requires forall k :: 0 <= k < |unit| ==> 0 <= unit[k] < |v|
    ensures forall k :: 0 <= k < |Places(v, unit, d)| ==>
      Places(v, unit, d)[k] in unit && d in v[Places(v, unit, d)[k]]
    ensures forall k :: 0 <= k < |unit| && d in v[unit[k]] ==> unit[k] in Places(v, unit, d)
    ensures (forall k :: 0 <= k < |unit| ==> d !in v[unit[k]]) ==> Places(v, unit, d) == []
  {
    if unit != [] {
      PlacesSpec(v, unit[1..], d);
      var tail := Places(v, unit[1..], d);
      var head := if d in v[unit[0]] then [unit[0]] else [];
      assert Places(v, unit, d) == head + tail;
      forall k | 0 <= k < |unit| && d in v[unit[k]]
        ensures unit[k] in Places(v, unit, d)
      {
        if k > 0 {
          assert unit[1..][k - 1] in tail;
        }
      }
    }
  }

  /** One step: digit d in unit u. */
  function Choose(v: Board, u: int, d: int): (r: Board)
    requires |v| == 81 && 0 <= u < 29
  {
    var places := Places(v, Unit(u), d);
    if |places| == 1 then v[places[0] := {d}] else v
  }

  /** w is v with some cells set to one of the digits they allowed, and
      every other cell untouched. */
  predicate Narrowed(w: Board, v: Board)
  {
    |w| == |v| && forall c :: 0 <= c < |v| ==> w[c] == v[c] || (|w[c]| == 1 && w[c] <= v[c])
  }

  /** Unit u after digits 1..n-1 have been tried, starting from v. */
  ghost function ChooseDigits(v: Board, u: int, n: int): (r: Board)
    requires |v| == 81 && 0 <= u < 29 && 1 <= n <= 10
    ensures |r| == 81
    decreases n
  {
    if n == 1 then v else Choose(ChooseDigits(v, u, n - 1), u, n - 1)
  }

  /** The board after units 0..n-1 have been processed, starting from v. */
  ghost function ChooseUnits(v: Board, n: int): (r: Board)
    requires |v| == 81 && 0 <= n <= 29
    ensures |r| == 81
    decreases n
  {
    if n == 0 then v else ChooseDigits(ChooseUnits(v, n - 1), n - 1, 10)
  }

  /** The board after one whole only-choice pass over v. */
  ghost function OnlyChoiceSpec(v: Board): Board
    requires |v| == 81
  {
    ChooseUnits(v, 29)
  }

  /** The digit loop of the pass for unit u, in place. */
  method OnlyChoiceInUnit(a: array<set<int>>, u: int)
    requires a.Length == 81 && 0 <= u < 29
    modifies a
    ensures a[..] == ChooseDigits(old(a[..]), u, 10)
  {
    ghost var v := a[..];
    var unit := Unit(u);
    for d := 1 to 10
      invariant a[..] == ChooseDigits(v, u, d)
    {
      var places := Places(a[..], unit, d);
      if |places| == 1 {
        ghost var before := a[..];
        a[places[0]] := {d};
        assert a[..] == before[places[0] := {d}];
      }
    }
  }

  /** The pass as the solver runs it: every unit in unit-list order,
      updating the board in place. */
  method OnlyChoice(a: array<set<int>>)
    requires a.Length == 81
    modifies a
    ensures a[..] == OnlyChoiceSpec(old(a[..]))
  {
    ghost var v := a[..];
    for u := 0 to 29
      invariant a[..] == ChooseUnits(v, u)
    {
      OnlyChoiceInUnit(a, u);
    }
  }

  lemma NarrowedTrans(x: Board, w: Board, v: Board)
    requires Narrowed(x, w) && Narrowed(w, v)
    ensures Narrowed(x, v)
  {
    forall c | 0 <= c < |v|
      ensures x[c] == v[c] || (|x[c]| == 1 && x[c] <= v[c])
    {
    }
  }

  /** Setting cells to digits they allowed only strikes candidates. */
  lemma NarrowedRefines(w: Board, v: Board)
    requires Narrowed(w, v)
    ensures Refines(w, v)
  {
  }

  /** A single step only ever sets a cell to a digit it allowed. */
  lemma ChooseNarrows(v: Board, u: int, d: int)
    requires |v| == 81 && 0 <= u < 29
    ensures Narrowed(Choose(v, u, d), v)
  {
    var places := Places(v, Unit(u), d);
    PlacesSpec(v, Unit(u), d);
    if |places| == 1 {
      assert d in v[places[0]];
    }
  }

  lemma {:induction false} ChooseDigitsNarrowed(v: Board, u: int, n: int)
    requires |v| == 81 && 0 <= u < 29 && 1 <= n <= 10
    ensures Narrowed(ChooseDigits(v, u, n), v)
    decreases n
  {
    if n > 1 {
      var w := ChooseDigits(v, u, n - 1);
      ChooseDigitsNarrowed(v, u, n - 1);
      ChooseNarrows(w, u, n - 1);
      NarrowedTrans(Choose(w, u, n - 1), w, v);
    }
  }

  /** Only-choice only ever sets a cell to one of the digits it allowed. */
  lemma {:induction false} ChooseUnitsNarrowed(v: Board, n: int)
    requires |v| == 81 && 0 <= n <= 29
    ensures Narrowed(ChooseUnits(v, n), v)
    decreases n
  {
    if n > 0 {
      var w := ChooseUnits(v, n - 1);
      ChooseUnitsNarrowed(v, n - 1);
      ChooseDigitsNarrowed(w, n - 1, 10);
      NarrowedTrans(ChooseDigits(w, n - 1, 10), w, v);
    }
  }

  /** The places of a digit in a unit with no repeated cell, when exactly
      one cell x of the unit allows it. */
  lemma {:induction false} PlacesSingle(v: Board, unit: seq<int>, d: int, x: int)
    requires forall k :: 0 <= k < |unit| ==> 0 <= unit[k] < |v|
    requires forall i, j :: 0 <= i < j < |unit| ==> unit[i] != unit[j]
    requires x in unit && d in v[x]
    requires forall k :: 0 <= k < |unit| && d in v[unit[k]] ==> unit[k] == x
    ensures Places(v, unit, d) == [x]
  {
    PlacesSpec(v, unit, d);
    var tail := Places(v, unit[1..], d);
    PlacesSpec(v, unit[1..], d);
    if unit[0] == x {
      forall k | 0 <= k < |unit| - 1
        ensures d !in v[unit[1..][k]]
      {
        assert unit[k + 1] != unit[0];
      }
    } else {
      assert x in unit[1..];
      PlacesSingle(v, unit[1..], d, x);
    }
  }

  /** The effect of one step when exactly one cell x of unit u allows d:
      x becomes {d} and nothing else changes. */
  lemma ChooseSingle(v: Board, u: int, d: int, x: int)
    requires |v| == 81 && 0 <= u < 29
    requires x in Unit(u) && d in v[x]
    requires forall y :: y in Unit(u) && d in v[y] ==> y == x
    ensures Choose(v, u, d) == v[x := {d}]
  {
    UnitCells(u);
    PlacesSingle(v, Unit(u), d, x);
  }

  /** When a digit has a single place in a list of cells, that place is
      the only cell of the list allowing the digit. */
  lemma PlacesOne(v: Board, unit: seq<int>, d: int)
    requires forall k :: 0 <= k < |unit| ==> 0 <= unit[k] < |v|
    ensures var places := Places(v, unit, d);
      |places| == 1 ==>
        places[0] in unit && d in v[places[0]] &&
        forall y :: y in unit && d in v[y] ==> y == places[0]
  {
    PlacesSpec(v, unit, d);
  }

  /** The effect of one step when no cell, or two different cells, of unit
      u allow d: nothing changes. */
  lemma ChooseNone(v: Board, u: int, d: int)
    requires |v| == 81 && 0 <= u < 29
    requires (forall y :: y in Unit(u) ==> d !in v[y]) ||
             (exists x, y :: x in Unit(u) && y in Unit(u) && x != y && d in v[x] && d in v[y])
    ensures Choose(v, u, d) == v
  {
    PlacesOne(v, Unit(u), d);
  }

  /** Only-choice narrows without emptying: each cell keeps its candidates
      or is set to one digit it already allowed, so no cell becomes empty
      and no determined cell is lost. */
  lemma OnlyChoiceNarrows(v: Board)
    requires IsBoard(v)
    ensures Narrowed(OnlyChoiceSpec(v), v)
    ensures Refines(OnlyChoiceSpec(v), v) && IsBoard(OnlyChoiceSpec(v))
    ensures forall c :: 0 <= c < 81 && v[c] != {} ==> OnlyChoiceSpec(v)[c] != {}
    ensures Count(v) <= Count(OnlyChoiceSpec(v))
  {
    var w := OnlyChoiceSpec(v);
    ChooseUnitsNarrowed(v, 29);
    forall c | 0 <= c < 81 && |v[c]| == 1
      ensures |w[c]| == 1
    {
    }
    CountGrows(v, w);
  }

  /** One step never strikes the digit a solution allowed by the board puts
      in a cell. */
  lemma ChooseKeepsSolution(v: Board, u: int, d: int, s: seq<int>)
    requires |v| == 81 && 0 <= u < 29 && d in Digits && IsSolution(s) && Consistent(s, v)
    ensures Consistent(s, Choose(v, u, d))
  {
    var places := Places(v, Unit(u), d);
    PlacesOne(v, Unit(u), d);
    assert UnitHasDigit(s, u, d);
    var k :| 0 <= k < 9 && s[Unit(u)[k]] == d;
    var y := Unit(u)[k];
    if |places| == 1 {
      assert y == places[0];
      var r := v[y := {d}];
      forall c | 0 <= c < 81
        ensures s[c] in r[c]
      {
      }
    }
  }

  lemma {:induction false} ChooseDigitsKeepsSolution(v: Board, u: int, n: int, s: seq<int>)
    requires |v| == 81 && 0 <= u < 29 && 1 <= n <= 10 && IsSolution(s) && Consistent(s, v)
    ensures Consistent(s, ChooseDigits(v, u, n))
    decreases n
  {
    if n > 1 {
      ChooseDigitsKeepsSolution(v, u, n - 1, s);
      ChooseKeepsSolution(ChooseDigits(v, u, n - 1), u, n - 1, s);
    }
  }

  /** Only-choice never strikes the digit that a solution allowed by the
      board puts in a cell. */
  lemma {:induction false} OnlyChoiceKeepsSolution(v: Board, n: int, s: seq<int>)
    requires |v| == 81 && 0 <= n <= 29 && IsSolution(s) && Consistent(s, v)
    ensures Consistent(s, ChooseUnits(v, n))
    decreases n
  {
    if n > 0 {
      OnlyChoiceKeepsSolution(v, n - 1, s);
      ChooseDigitsKeepsSolution(ChooseUnits(v, n - 1), n - 1, 10, s);
    }
  }
}
