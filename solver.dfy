/**
 * The best-first search engine. It pops the front of the frontier, expands
 * it, stops at the first child whose board is the goal, otherwise appends
 * the children no explored state equals and re-sorts the frontier by f-score.
 */
module PuzzleSolver {

  import opened Wrappers
  import opened Grid
  import opened Heuristics
  import opened PuzzleNode
  import opened Frontier

  /** What one run reports: the moves and states from start to goal, and its statistics. */
  datatype Trace = Trace(
    heuristic: string,
    moves: seq<Move>,
    states: seq<Node>,
    pathCost: int,
    generated: nat,
    expanded: nat)

  /**
   * How a run ends. `LookupFailed` is the failed goal lookup of the Manhattan
   * method on the first expansion; the fuel bound stands in for the unbounded loop.
   */
  datatype Outcome = Solved(trace: Trace) | Exhausted | OutOfFuel | LookupFailed

  /**
   * The constructor's scan for the blank: it visits the cells row by row and
   * keeps the last blank it sees; None when the board has no blank.
   */
  method FindBlank(b: Board) returns (loc: Option<Pos>)
    requires Is3x3(b)
    ensures loc.None? <==> Blank !in b
    ensures loc.Some? ==>
              InGrid(loc.value) && b[Index(loc.value)] == Blank &&
              forall k :: Index(loc.value) < k < 9 ==> b[k] != Blank
  {
    loc := None;
    for i := 0 to 3
      invariant loc.None? <==> Blank !in b[..3 * i]
      invariant loc.Some? ==>
                  InGrid(loc.value) && Index(loc.value) < 3 * i && b[Index(loc.value)] == Blank &&
                  forall k :: Index(loc.value) < k < 3 * i ==> b[k] != Blank
    {
      for j := 0 to 3
        invariant loc.None? <==> Blank !in b[..3 * i + j]
        invariant loc.Some? ==>
                    InGrid(loc.value) && Index(loc.value) < 3 * i + j && b[Index(loc.value)] == Blank &&
                    forall k :: Index(loc.value) < k < 3 * i + j ==> b[k] != Blank
      {
        assert b[..3 * i + j + 1] == b[..3 * i + j] + [b[3 * i + j]];
        if Cell(b, Pos(i, j)) == Blank {
          loc := Some(Pos(i, j));
        }
      }
    }
    assert b[..9] == b;
  }

  /** The elements of s from last to first, appended one at a time. */
  method Reversed<T>(s: seq<T>) returns (r: seq<T>)
    ensures |r| == |s|
    ensures forall j :: 0 <= j < |s| ==> r[j] == s[|s| - 1 - j]
  {
    r := [];
    for i := 0 to |s|
      invariant |r| == i
      invariant forall j :: 0 <= j < i ==> r[j] == s[|s| - 1 - j]
    {
      r := r + [s[|s| - i - 1]];
    }
  }

  /** The number of children generated by expanding each state of s. */
  function TotalChildren(s: seq<Node>): nat {
    if s == [] then 0
    else TotalChildren(s[..|s| - 1]) + |LegalMoves(s[|s| - 1].emptyLoc)|
  }

  /** A state the search may hold: reached from the start and not the goal. */
  ghost predicate Reached(n: Node, root: Node, name: string, goal: Board) {
    WellFormed(n) && Is3x3(goal) && HeuristicDefined(name, n.data, goal) &&
    Descends(n, root, name, goal) && n.data != goal
  }

  /**
   * The trace leads from root to the goal: the first move is `start`, each
   * later state is the child of the one before by the move it records, the
   * last state's board is the goal, and the path cost counts the moves.
   */
  ghost predicate LeadsToGoal(t: Trace, root: Node, name: string, goal: Board) {
    && |t.states| >= 1
    && |t.moves| == |t.states|
    && t.states[0] == root
    && t.moves[0] == Start
    && t.states[|t.states| - 1].data == goal
    && t.pathCost == |t.states| - 1
    && forall i :: 0 < i < |t.states| ==>
         Step(t.states[i - 1], t.states[i], name, goal) && t.moves[i] == t.states[i].move
  }

  /** Expanding n generates no child whose board is the goal. */
  ghost predicate NoGoalChild(n: Node, name: string, goal: Board) {
    && WellFormed(n) && Is3x3(goal) && HeuristicDefined(name, n.data, goal)
    && forall c :: c in Children(n, name, goal) ==> c.data != goal
  }

  /**
   * One pass of the loop that finds no goal: the front state of `front` has no
   * goal child, and `next` is the stable sort by f of the rest of `front`
   * followed by the children whose boards no state of `closed` has.
   */
  ghost predicate Expansion(front: seq<Node>, next: seq<Node>, closed: seq<Node>, name: string, goal: Board) {
    && front != []
    && NoGoalChild(front[0], name, goal)
    && (forall e :: e in closed ==> Is3x3(e.data))
    && var cs := Children(front[0], name, goal);
       && (forall c :: c in cs ==> Is3x3(c.data))
       && next == SortByF(front[1..] + Admitted(cs, closed, |cs|))
  }

  /** Pass i turned frontier i into frontier i + 1, with the first i + 1 states explored. */
  ghost predicate ExpandedAt(fronts: seq<seq<Node>>, explored: seq<Node>, i: nat, name: string, goal: Board) {
    i + 1 < |fronts| && i < |explored| &&
    Expansion(fronts[i], fronts[i + 1], explored[..i + 1], name, goal)
  }

  /**
   * The run so far: state i of `explored` is the front of frontier i, and
   * each frontier but the last is turned into the next by one pass.
   */
  ghost predicate History(fronts: seq<seq<Node>>, explored: seq<Node>, name: string, goal: Board) {
    && |explored| <= |fronts|
    && (forall i :: 0 <= i < |explored| ==> fronts[i] != [] && explored[i] == fronts[i][0])
    && (forall i :: 0 <= i < |fronts| - 1 ==> ExpandedAt(fronts, explored, i, name, goal))
  }

  /** Popping the front of the last frontier and exploring it keeps the history. */
  lemma HistoryGrow(fronts: seq<seq<Node>>, explored: seq<Node>, name: string, goal: Board)
    requires History(fronts, explored, name, goal)
    requires |fronts| == |explored| + 1 && fronts[|explored|] != []
    ensures History(fronts, explored + [fronts[|explored|][0]], name, goal)
  {
    var explored' := explored + [fronts[|explored|][0]];
    forall i | 0 <= i < |fronts| - 1
      ensures ExpandedAt(fronts, explored', i, name, goal)
    {
      assert ExpandedAt(fronts, explored, i, name, goal);
      assert explored'[..i + 1] == explored[..i + 1];
    }
  }

  /** Recording the frontier that a pass over the last one produced keeps the history. */
  lemma HistoryExtend(fronts: seq<seq<Node>>, explored: seq<Node>, next: seq<Node>, name: string, goal: Board)
    requires History(fronts, explored, name, goal)
    requires |fronts| == |explored| && |fronts| > 0
    requires Expansion(fronts[|fronts| - 1], next, explored, name, goal)
    ensures History(fronts + [next], explored, name, goal)
  {
    var fronts' := fronts + [next];
    forall i | 0 <= i < |fronts'| - 1
      ensures ExpandedAt(fronts', explored, i, name, goal)
    {
      if i < |fronts| - 1 {
        assert ExpandedAt(fronts, explored, i, name, goal);
        assert fronts'[i] == fronts[i] && fronts'[i + 1] == fronts[i + 1];
      } else {
        assert fronts'[i] == fronts[|fronts| - 1] && fronts'[i + 1] == next;
        assert explored[..i + 1] == explored;
      }
    }
  }

  /** Every state popped by a recorded pass has no goal child. */
  lemma HistoryNoGoal(fronts: seq<seq<Node>>, explored: seq<Node>, name: string, goal: Board)
    requires History(fronts, explored, name, goal)
    ensures forall i :: 0 <= i < |fronts| - 1 && i < |explored| ==> NoGoalChild(explored[i], name, goal)
  {
    forall i | 0 <= i < |fronts| - 1 && i < |explored|
      ensures NoGoalChild(explored[i], name, goal)
    {
      assert ExpandedAt(fronts, explored, i, name, goal);
    }
  }

  /** A child of a reached state is reached too, unless it is the goal. */
  lemma ChildDescends(parent: Node, child: Node, root: Node, name: string, goal: Board)
    requires Reached(parent, root, name, goal) && Step(parent, child, name, goal)
    ensures WellFormed(child) && HeuristicDefined(name, child.data, goal)
    ensures Descends(child, root, name, goal)
    ensures child.data != goal ==> Reached(child, root, name, goal)
  {
  }

  /** Sorting and admitting children keep every state of the frontier reached. */
  lemma FrontierReached(s: seq<Node>, root: Node, name: string, goal: Board)
    requires forall n :: n in s ==> Reached(n, root, name, goal)
    ensures forall n :: n in SortByF(s) ==> Reached(n, root, name, goal)
  {
    forall n | n in SortByF(s)
      ensures Reached(n, root, name, goal)
    {
      assert n in multiset(SortByF(s));
    }
  }

  /** Appending admitted children of a reached state keeps the frontier reached. */
  lemma AdmittedReached(rest: seq<Node>, children: seq<Node>, explored: seq<Node>,
                        parent: Node, root: Node, name: string, goal: Board)
    requires Reached(parent, root, name, goal)
    requires forall n :: n in rest ==> Reached(n, root, name, goal)
    requires forall c :: c in children ==> Step(parent, c, name, goal) && Is3x3(c.data) && c.data != goal
    requires forall e :: e in explored ==> Is3x3(e.data)
    ensures forall n :: n in rest + Admitted(children, explored, |children|) ==> Reached(n, root, name, goal)
  {
    AdmittedFacts(children, explored, |children|);
    forall n | n in rest + Admitted(children, explored, |children|)
      ensures Reached(n, root, name, goal)
    {
      if n !in rest {
        ChildDescends(parent, n, root, name, goal);
      }
    }
  }

  class Solver {
    const heuristic: string
    const goal: Board
    const initial: Node
    var generated: nat
    var expanded: nat
    var frontier: seq<Node>
    var explored: seq<Node>

    ghost predicate Valid() {
      Is3x3(goal) && WellFormed(initial) && IsStart(initial) && initial.f == 0
    }

    /**
     * Resets the counters, keeps the heuristic's name and the goal, and
     * builds the start state with f = g = 0 at the blank the scan found.
     */
    constructor (start: Board, goal: Board, heuristic: string)
      requires Is3x3(start) && Is3x3(goal) && Blank in start
      ensures Valid()
      ensures this.goal == goal && this.heuristic == heuristic
      ensures initial.data == start
      ensures forall k :: Index(initial.emptyLoc) < k < 9 ==> start[k] != Blank
      ensures generated == 0 && expanded == 0 && frontier == [] && explored == []
    {
      var loc := FindBlank(start);
      this.heuristic := heuristic;
      this.goal := goal;
      this.initial := Node(start, 0, 0, loc.value, Start, None);
      generated, expanded := 0, 0;
      frontier, explored := [], [];
    }

    /**
     * Walks the parent chain back from node, then reverses the moves and
     * the states so that they run from the start to node.
     */
    method PrintAnswer(node: Node) returns (trace: Trace)
      ensures trace.states == Path(node)
      ensures |trace.moves| == |trace.states|
      ensures forall i :: 0 <= i < |trace.moves| ==> trace.moves[i] == trace.states[i].move
      ensures trace.pathCost == node.g
      ensures trace.heuristic == heuristic
      ensures trace.generated == generated && trace.expanded == expanded
    {
      ghost var path := Path(node);
      var reverseMoves: seq<Move> := [];
      var reverseStates: seq<Node> := [];
      var pathCost := node.g;
      var current := Some(node);
      while current.Some?
        invariant |reverseMoves| == |reverseStates| <= |path|
        invariant forall i :: 0 <= i < |reverseStates| ==>
                    reverseStates[i] == path[|path| - 1 - i] && reverseMoves[i] == reverseStates[i].move
        invariant current.None? ==> |reverseStates| == |path|
        invariant current.Some? ==> Path(current.value) == path[..|path| - |reverseStates|]
        decreases current
      {
        var m := current.value;
        reverseMoves := reverseMoves + [m.move];
        reverseStates := reverseStates + [m];
        current := m.parent;
      }
      var moves := Reversed(reverseMoves);
      var states := Reversed(reverseStates);
      trace := Trace(heuristic, moves, states, pathCost, generated, expanded);
    }

    /**
     * The loop over the children of one expansion: it stops at the first
     * child whose board is the goal; before that, it appends to the frontier
     * every child that no state of `closed`, the explored list, equals.
     */
    method AdmitChildren(children: seq<Node>, closed: seq<Node>) returns (hit: Option<Node>)
      requires Is3x3(goal)
      requires forall c :: c in children ==> Is3x3(c.data)
      requires forall n :: n in closed ==> Is3x3(n.data)
      modifies this`frontier
      ensures hit.None? ==> frontier == old(frontier) + Admitted(children, closed, |children|)
      ensures hit.None? ==> forall c :: c in children ==> c.data != goal
      ensures hit.Some? ==>
                exists i :: && 0 <= i < |children| && children[i] == hit.value && hit.value.data == goal
                            && forall j :: 0 <= j < i ==> children[j].data != goal
    {
      hit := None;
      for i := 0 to |children|
        invariant frontier == old(frontier) + Admitted(children, closed, i)
        invariant forall j :: 0 <= j < i ==> children[j].data != goal
      {
        var child := children[i];
        AdmittedStep(old(frontier), children, closed, i + 1);
        if Equals(child, OfBoard(goal)) {
          return Some(child);
        }
        assert child.data != goal;
        if !InExplored(closed, child) {
          frontier := frontier + [child];
        }
      }
    }

    /** Every state explored or waiting was reached from the start, and the frontier is sorted. */
    ghost predicate Searching()
      reads this
    {
      && Valid()
      && (forall n :: n in explored ==> Reached(n, initial, heuristic, goal))
      && (forall n :: n in frontier ==> Reached(n, initial, heuristic, goal))
      && SortedByF(frontier)
    }

    /**
     * One pass of the search loop: pops the front state, expands it, counts
     * it and its children, marks it explored, and either returns the first
     * child that is the goal or admits the children and re-sorts the frontier.
     */
    method ExpandFront() returns (hit: Option<Node>)
      requires Searching() && frontier != []
      modifies this`frontier, this`explored, this`expanded, this`generated
      ensures expanded == old(expanded) + 1
      ensures explored == old(explored) + [old(frontier)[0]]
      ensures generated == old(generated) + |LegalMoves(old(frontier)[0].emptyLoc)|
      ensures TotalChildren(explored) == TotalChildren(old(explored)) + |LegalMoves(old(frontier)[0].emptyLoc)|
      ensures forall n :: n in explored ==> Reached(n, initial, heuristic, goal)
      ensures hit.Some? ==>
                hit.value.data == goal && Step(old(frontier)[0], hit.value, heuristic, goal) &&
                Descends(hit.value, initial, heuristic, goal)
      ensures hit.None? ==> Searching()
      ensures Reached(old(frontier)[0], initial, heuristic, goal)
      ensures hit.None? ==>
                var children := Children(old(frontier)[0], heuristic, goal);
                frontier == SortByF(old(frontier)[1..] + Admitted(children, explored, |children|))
      ensures hit.None? ==> NoGoalChild(old(frontier)[0], heuristic, goal)
      ensures hit.None? ==> Expansion(old(frontier), frontier, explored, heuristic, goal)
    {
      var current := frontier[0];
      assert current in frontier;
      frontier := frontier[1..];
      var children := GetChildren(current, heuristic, goal);
      expanded := expanded + 1;
      generated := generated + |children|;
      assert (explored + [current])[..|explored|] == explored;
      explored := explored + [current];
      forall c | c in children
        ensures Step(current, c, heuristic, goal) && Is3x3(c.data)
      {
        ChildDescends(current, c, initial, heuristic, goal);
      }
      ghost var rest := frontier;
      hit := AdmitChildren(children, explored);
      if hit.Some? {
        ChildDescends(current, hit.value, initial, heuristic, goal);
        return;
      }
      AdmittedReached(rest, children, explored, current, initial, heuristic, goal);
      FrontierReached(frontier, initial, heuristic, goal);
      frontier := SortByF(frontier);
    }

    /**
     * The search loop of `solve`, for at most `fuel` expansions, from the
     * frontier `[initial]`. The ghost `fronts` records the frontier before
     * each pass: every pass pops the front of the last one, and a pass that
     * finds no goal produces the next.
     */
    method Search(fuel: nat) returns (outcome: Outcome, ghost fronts: seq<seq<Node>>)
      requires Searching() && frontier == [initial] && explored == []
      modifies this`frontier, this`explored, this`expanded, this`generated
      ensures expanded == old(expanded) + |explored|
      ensures generated == old(generated) + TotalChildren(explored)
      ensures outcome.Solved? || outcome.Exhausted? || outcome.OutOfFuel?
      ensures outcome.Solved? ==> LeadsToGoal(outcome.trace, initial, heuristic, goal)
      ensures outcome.Solved? ==>
                outcome.trace.generated == generated && outcome.trace.expanded == expanded
      ensures outcome.Solved? ==>
                explored != [] &&
                Step(explored[|explored| - 1], outcome.trace.states[|outcome.trace.states| - 1], heuristic, goal)
      ensures outcome.Exhausted? ==> frontier == []
      ensures forall n :: n in explored ==> Reached(n, initial, heuristic, goal)
      ensures !outcome.Solved? ==> Searching()
      ensures |explored| <= fuel
      ensures outcome.OutOfFuel? ==> |explored| == fuel
      ensures |fronts| == |explored| + (if outcome.Solved? then 0 else 1) && fronts[0] == [initial]
      ensures History(fronts, explored, heuristic, goal)
      ensures !outcome.Solved? ==> frontier == fronts[|fronts| - 1]
    {
      fronts := [frontier];
      var budget := fuel;
      while |frontier| > 0
        invariant expanded == old(expanded) + |explored|
        invariant generated == old(generated) + TotalChildren(explored)
        invariant Searching()
        invariant |explored| + budget == fuel
        invariant |fronts| == |explored| + 1 && fronts[0] == [initial] && frontier == fronts[|fronts| - 1]
        invariant History(fronts, explored, heuristic, goal)
        decreases budget
      {
        if budget == 0 {
          return OutOfFuel, fronts;
        }
        budget := budget - 1;
        HistoryGrow(fronts, explored, heuristic, goal);
        var hit := ExpandFront();
        if hit.Some? {
          var trace := PrintAnswer(hit.value);
          PathFacts(hit.value, initial, heuristic, goal);
          return Solved(trace), fronts;
        }
        HistoryExtend(fronts, explored, frontier, heuristic, goal);
        fronts := fronts + [frontier];
      }
      return Exhausted, fronts;
    }

    /**
     * Runs the search for at most `fuel` expansions. A start equal to the
     * goal is answered without any expansion; a failed Manhattan lookup is
     * reported before the first one; otherwise the run is `Search` from the
     * frontier `[initial]`.
     */
    method Solve(fuel: nat) returns (outcome: Outcome, ghost fronts: seq<seq<Node>>)
      requires Valid()
      modifies this
      ensures expanded == old(expanded) + |explored|
      ensures generated == old(generated) + TotalChildren(explored)
      ensures initial.data == goal ==> explored == [] && outcome.Solved? && |outcome.trace.states| == 1
      ensures outcome.LookupFailed? <==> initial.data != goal && Heuristic(heuristic, initial.data, goal).None?
      ensures outcome.LookupFailed? ==> explored == []
      ensures outcome.Solved? ==> LeadsToGoal(outcome.trace, initial, heuristic, goal)
      ensures outcome.Solved? ==>
                outcome.trace.generated == generated && outcome.trace.expanded == expanded
      ensures outcome.Exhausted? ==> frontier == []
      ensures forall n :: n in explored ==> Reached(n, initial, heuristic, goal)
      ensures SortedByF(frontier) || outcome.Solved?
      ensures |explored| <= fuel
      ensures outcome.OutOfFuel? ==> |explored| == fuel
      ensures forall i :: 0 <= i < |explored| - (if outcome.Solved? then 1 else 0) ==>
                NoGoalChild(explored[i], heuristic, goal)
      ensures outcome.Solved? && initial.data != goal ==>
                explored != [] &&
                Step(explored[|explored| - 1], outcome.trace.states[|outcome.trace.states| - 1], heuristic, goal)
      ensures initial.data != goal && !outcome.LookupFailed? ==>
                && |fronts| == |explored| + (if outcome.Solved? then 0 else 1)
                && fronts[0] == [initial]
                && History(fronts, explored, heuristic, goal)
                && (!outcome.Solved? ==> frontier == fronts[|fronts| - 1])
    {
      fronts := [];
      if Equals(initial, OfBoard(goal)) {
        frontier, explored := [], [];
        var trace := PrintAnswer(initial);
        PathFacts(initial, initial, heuristic, goal);
        return Solved(trace), fronts;
      }
      if Heuristic(heuristic, initial.data, goal).None? {
        // Every child of the start carries the start's labels, so scoring the
        // first child fails.
        frontier, explored := [], [];
        return LookupFailed, fronts;
      }
      HeuristicDefinedIff(heuristic, initial.data, goal);
      explored := [];
      frontier := [initial];
      outcome, fronts := Search(fuel);
      HistoryNoGoal(fronts, explored, heuristic, goal);
    }
  }

}
