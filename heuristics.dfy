/**
 * The two estimates of the remaining cost used to order the search:
 * the number of misplaced tiles and the Manhattan distance.
 */
module Heuristics {

  import opened Wrappers
  import opened Grid

  /** The method names a solver is configured with. */
  const MisplacedTilesName: string := "misplaced_tiles"
  const ManhattanName: string := "manhattan"

  // ---------------------------------------------------------------------
  // Misplaced tiles
  // ---------------------------------------------------------------------

  /** The number of non-blank cells among k..8 whose tile differs from the goal's. */
  function MisplacedFrom(b: Board, goal: Board, k: nat): nat
    requires Is3x3(b) && Is3x3(goal) && k <= 9
    decreases 9 - k
  {
    if k == 9 then 0
    else (if b[k] != Blank && b[k] != goal[k] then 1 else 0) + MisplacedFrom(b, goal, k + 1)
  }

  function Misplaced(b: Board, goal: Board): nat
    requires Is3x3(b) && Is3x3(goal)
  {
    MisplacedFrom(b, goal, 0)
  }

  /** Misplaced tiles is zero exactly when every non-blank cell agrees with the goal. */
  lemma {:induction false} MisplacedFromZero(b: Board, goal: Board, k: nat)
    requires Is3x3(b) && Is3x3(goal) && k <= 9
    ensures MisplacedFrom(b, goal, k) == 0 <==>
            forall j :: k <= j < 9 && b[j] != Blank ==> b[j] == goal[j]
    decreases 9 - k
  {
    if k < 9 {
      MisplacedFromZero(b, goal, k + 1);
    }
  }

  /** The blank cell never counts, so a board with one blank has at most 8 misplaced tiles. */
  lemma {:induction false} MisplacedFromBound(b: Board, goal: Board, k: nat, blank: nat)
    requires Is3x3(b) && Is3x3(goal) && k <= 9 && OneBlankAt(b, blank)
    ensures MisplacedFrom(b, goal, k) <= 9 - k - (if k <= blank then 1 else 0)
    decreases 9 - k
  {
    if k < 9 {
      MisplacedFromBound(b, goal, k + 1, blank);
    }
  }

  /** Misplaced tiles is 0 on the goal itself, whatever the goal holds. */
  lemma MisplacedAtGoal(goal: Board)
    requires Is3x3(goal)
    ensures Misplaced(goal, goal) == 0
  {
    MisplacedFromZero(goal, goal, 0);
  }

  /**
   * Misplaced tiles counts at most 8 on a board with one blank, and when
   * both boards have one blank it is 0 only on the goal.
   */
  lemma MisplacedFacts(b: Board, goal: Board, blank: nat)
    requires Is3x3(b) && Is3x3(goal) && OneBlankAt(b, blank)
    ensures Misplaced(b, goal) <= 8
    ensures forall gb: nat :: OneBlankAt(goal, gb) ==> (Misplaced(b, goal) == 0 <==> b == goal)
  {
    MisplacedFromBound(b, goal, 0, blank);
    MisplacedFromZero(b, goal, 0);
    forall gb: nat | OneBlankAt(goal, gb)
      ensures Misplaced(b, goal) == 0 <==> b == goal
    {
      if Misplaced(b, goal) == 0 {
        // The goal's blank cell cannot hold a tile of b, so it holds b's blank.
        assert b[gb] == Blank;
        assert gb == blank;
        forall j | 0 <= j < 9
          ensures b[j] == goal[j]
        {
          if j == blank {
            assert goal[j] == Blank;
          }
        }
      }
    }
  }

  // ---------------------------------------------------------------------
  // Manhattan distance
  // ---------------------------------------------------------------------

  /** The first index of x in s, as list.index finds it; None when x is absent. */
  function IndexOf(s: seq<Label>, x: Label): (r: Option<nat>)
    ensures r.None? <==> x !in s
    ensures r.Some? ==> r.value < |s| && s[r.value] == x
  {
    if s == [] then None
    else if s[0] == x then Some(0)
    else
      match IndexOf(s[1..], x)
      case None => None
      case Some(i) => Some(i + 1)
  }

  /** The index found is the first occurrence of x. */
  lemma {:induction false} IndexOfFirst(s: seq<Label>, x: Label)
    requires x in s
    ensures forall i :: 0 <= i < IndexOf(s, x).value ==> s[i] != x
  {
    if s[0] != x {
      IndexOfFirst(s[1..], x);
      assert forall i :: 1 <= i < |s| ==> s[i] == s[1..][i - 1];
    }
  }

  function Abs(x: int): nat {
    if x < 0 then -x else x
  }

  /**
   * The distance of the cell-k tile from its goal cell, found at `index` in
   * the flattened goal; the blank contributes nothing.
   */
  function CellDistance(tile: Label, k: nat, index: nat): nat {
    if tile != Blank then Abs(index / 3 - k / 3) + Abs(index % 3 - k % 3) else 0
  }

  /**
   * The Manhattan sum over cells k..8. Every tile, the blank included, is
   * looked up in the goal before it is scored, so a tile missing from the
   * goal makes the whole sum fail.
   */
  function ManhattanFrom(b: Board, goal: Board, k: nat): Option<nat>
    requires Is3x3(b) && Is3x3(goal) && k <= 9
    decreases 9 - k
  {
    if k == 9 then Some(0)
    else
      match IndexOf(goal, b[k])
      case None => None
      case Some(index) =>
        match ManhattanFrom(b, goal, k + 1)
        case None => None
        case Some(rest) => Some(CellDistance(b[k], k, index) + rest)
  }

  function Manhattan(b: Board, goal: Board): Option<nat>
    requires Is3x3(b) && Is3x3(goal)
  {
    ManhattanFrom(b, goal, 0)
  }

  /** Every non-blank tile of the goal occurs in one cell only. */
  predicate DistinctTiles(goal: Board) {
    Is3x3(goal) &&
    forall i, j :: 0 <= i < 9 && 0 <= j < 9 && goal[i] == goal[j] && goal[i] != Blank ==> i == j
  }

  /** The Manhattan sum is defined exactly when every tile of b occurs in the goal. */
  lemma {:induction false} ManhattanFromDefined(b: Board, goal: Board, k: nat)
    requires Is3x3(b) && Is3x3(goal) && k <= 9
    ensures ManhattanFrom(b, goal, k).Some? <==> forall j :: k <= j < 9 ==> b[j] in goal
    decreases 9 - k
  {
    if k < 9 {
      ManhattanFromDefined(b, goal, k + 1);
      if IndexOf(goal, b[k]).None? {
        assert b[k] !in goal;
      }
    }
  }

  /** On the goal itself every tile is found in its own cell, so the sum is 0. */
  lemma {:induction false} ManhattanFromAtGoal(goal: Board, k: nat)
    requires DistinctTiles(goal) && k <= 9
    ensures ManhattanFrom(goal, goal, k) == Some(0)
    decreases 9 - k
  {
    if k < 9 {
      ManhattanFromAtGoal(goal, k + 1);
      if goal[k] != Blank {
        var i := IndexOf(goal, goal[k]).value;
        assert goal[i] == goal[k];
      }
    }
  }

  /** A tile is at most 4 steps from any cell. */
  lemma CellDistanceBound(tile: Label, k: nat, index: nat)
    requires k < 9 && index < 9
    ensures CellDistance(tile, k, index) <= 4
  {
  }

  /** A misplaced tile lies at least one step from its goal cell. */
  lemma MisplacedTileDistance(tile: Label, k: nat, index: nat)
    requires k < 9 && index < 9 && index != k && tile != Blank
    ensures CellDistance(tile, k, index) >= 1
  {
  }

  /** Manhattan distance is never below the misplaced-tiles count. */
  lemma {:induction false} ManhattanFromDominates(b: Board, goal: Board, k: nat)
    requires Is3x3(b) && Is3x3(goal) && k <= 9
    requires ManhattanFrom(b, goal, k).Some?
    ensures MisplacedFrom(b, goal, k) <= ManhattanFrom(b, goal, k).value
    decreases 9 - k
  {
    if k < 9 {
      ManhattanFromDominates(b, goal, k + 1);
      var index := IndexOf(goal, b[k]).value;
      if b[k] != Blank && b[k] != goal[k] {
        MisplacedTileDistance(b[k], k, index);
      }
    }
  }

  /** Each tile is at most 4 steps from its goal cell. */
  lemma {:induction false} ManhattanFromBound(b: Board, goal: Board, k: nat)
    requires Is3x3(b) && Is3x3(goal) && k <= 9
    requires ManhattanFrom(b, goal, k).Some?
    ensures ManhattanFrom(b, goal, k).value <= 4 * (9 - k)
    decreases 9 - k
  {
    if k < 9 {
      ManhattanFromBound(b, goal, k + 1);
      var index := IndexOf(goal, b[k]).value;
      CellDistanceBound(b[k], k, index);
    }
  }

  /**
   * The Manhattan sum is defined exactly when every tile of b occurs in the
   * goal, and then lies between the misplaced-tiles count and 36; it is 0 on
   * a goal whose tiles are distinct.
   */
  lemma ManhattanFacts(b: Board, goal: Board)
    requires Is3x3(b) && Is3x3(goal)
    ensures Manhattan(b, goal).Some? <==> forall j :: 0 <= j < 9 ==> b[j] in goal
    ensures DistinctTiles(goal) ==> Manhattan(goal, goal) == Some(0)
    ensures Manhattan(b, goal).Some? ==>
              Misplaced(b, goal) <= Manhattan(b, goal).value <= 36
  {
    ManhattanFromDefined(b, goal, 0);
    if DistinctTiles(goal) {
      ManhattanFromAtGoal(goal, 0);
    }
    if Manhattan(b, goal).Some? {
      ManhattanFromDominates(b, goal, 0);
      ManhattanFromBound(b, goal, 0);
    }
  }

  // ---------------------------------------------------------------------
  // The heuristic chosen by name
  // ---------------------------------------------------------------------

  /**
   * The h-score of b under the named method. Any other name leaves h at 0.
   * None stands for the failed goal lookup of the Manhattan method.
   */
  function Heuristic(name: string, b: Board, goal: Board): Option<nat>
    requires Is3x3(b) && Is3x3(goal)
  {
    if name == MisplacedTilesName then Some(Misplaced(b, goal))
    else if name == ManhattanName then Manhattan(b, goal)
    else Some(0)
  }

  /** Whether the heuristic can be evaluated on b: only Manhattan can fail. */
  predicate HeuristicDefined(name: string, b: Board, goal: Board)
    requires Is3x3(b) && Is3x3(goal)
  {
    name == ManhattanName ==> forall j :: 0 <= j < 9 ==> b[j] in goal
  }

  /** Every method scores the goal itself as 0; Manhattan needs the goal's tiles distinct. */
  lemma HeuristicAtGoal(name: string, goal: Board)
    requires Is3x3(goal)
    ensures name != ManhattanName || DistinctTiles(goal) ==> Heuristic(name, goal, goal) == Some(0)
  {
    if name == ManhattanName && DistinctTiles(goal) {
      ManhattanFromAtGoal(goal, 0);
    }
    MisplacedAtGoal(goal);
  }

  /** A tile missing from the goal is the only way the heuristic fails. */
  lemma HeuristicDefinedIff(name: string, b: Board, goal: Board)
    requires Is3x3(b) && Is3x3(goal)
    ensures Heuristic(name, b, goal).Some? <==> HeuristicDefined(name, b, goal)
  {
    ManhattanFromDefined(b, goal, 0);
  }

  /** Sliding the blank keeps the labels, so the heuristic stays defined. */
  lemma SlideKeepsHeuristicDefined(name: string, b: Board, p: Pos, d: Direction, goal: Board)
    requires Is3x3(b) && Is3x3(goal) && InGrid(p) && Legal(p, d) && b[Index(p)] == Blank
    requires HeuristicDefined(name, b, goal)
    ensures HeuristicDefined(name, Slide(b, p, Target(p, d)), goal)
  {
    var r := Slide(b, p, Target(p, d));
    forall j | 0 <= j < 9
      ensures name == ManhattanName ==> r[j] in goal
    {
      if name == ManhattanName {
        assert r[j] == b[j] || r[j] == b[Index(Target(p, d))] || r[j] == b[Index(p)];
      }
    }
  }

}
