/**
 * A search state: a board together with its bookkeeping (f- and g-score,
 * the blank's cell, the move that produced it and the parent state).
 * States are values: a child is built from a copy of its parent's board and
 * the parent is never changed.
 */
module PuzzleNode {

  import opened Wrappers
  import opened Grid
  import opened Heuristics

  /** The operation on the parent that produced a state; `Start` for the initial one. */
  datatype Move = Start | Slid(d: Direction)

  datatype Node = Node(
    data: Board,
    f: int,
    g: int,
    emptyLoc: Pos,
    move: Move,
    parent: Option<Node>)

  /** The board is 3x3 and `emptyLoc` names a cell that holds the blank. */
  predicate WellFormed(n: Node) {
    Is3x3(n.data) && InGrid(n.emptyLoc) && n.data[Index(n.emptyLoc)] == Blank
  }

  /**
   * The child reached by sliding the blank of n in direction d: one more
   * step of cost, f = g + h of the new board, and n as its parent.
   */
  function MakeChild(n: Node, d: Direction, name: string, goal: Board): (c: Node)
    requires WellFormed(n) && Legal(n.emptyLoc, d) && Is3x3(goal)
    requires HeuristicDefined(name, n.data, goal)
    ensures WellFormed(c) && HeuristicDefined(name, c.data, goal)
  {
    var t := Target(n.emptyLoc, d);
    var data := Slide(n.data, n.emptyLoc, t);
    SlideEffect(n.data, n.emptyLoc, d);
    SlideKeepsHeuristicDefined(name, n.data, n.emptyLoc, d, goal);
    HeuristicDefinedIff(name, data, goal);
    Node(data, n.g + 1 + Heuristic(name, data, goal).value, n.g + 1, t, Slid(d), Some(n))
  }

  /**
   * A child has the blank at the target cell, the tile from the target in the
   * parent's blank cell, every other cell as in the parent, the same labels,
   * and one blank if the parent had one; its g is the parent's plus one, its
   * f is g plus the heuristic of its board, `move` is the direction and its
   * parent is the node expanded, whose board is left as it was.
   */
  lemma ChildFacts(n: Node, d: Direction, name: string, goal: Board)
    requires WellFormed(n) && Legal(n.emptyLoc, d) && Is3x3(goal)
    requires HeuristicDefined(name, n.data, goal)
    ensures var c := MakeChild(n, d, name, goal);
            var p, t := Index(n.emptyLoc), Index(Target(n.emptyLoc, d));
            && c.emptyLoc == Target(n.emptyLoc, d)
            && c.data[t] == Blank
            && c.data[p] == n.data[t]
            && (forall k :: 0 <= k < 9 && k != p && k != t ==> c.data[k] == n.data[k])
            && multiset(c.data) == multiset(n.data)
            && (OneBlankAt(n.data, p) ==> OneBlankAt(c.data, t))
            && c.g == n.g + 1
            && Heuristic(name, c.data, goal) == Some(c.f - c.g)
            && c.move == Slid(d)
            && c.parent == Some(n)
  {
    SlideEffect(n.data, n.emptyLoc, d);
    SlidePermutes(n.data, n.emptyLoc, d);
  }

  /** The children of n: one `MakeChild` per legal move, in generation order. */
  function Children(n: Node, name: string, goal: Board): seq<Node>
    requires WellFormed(n) && Is3x3(goal) && HeuristicDefined(name, n.data, goal)
  {
    var moves := LegalMoves(n.emptyLoc);
    LegalMovesFacts(n.emptyLoc);
    seq(|moves|, i requires 0 <= i < |moves| => MakeChild(n, moves[i], name, goal))
  }

  /**
   * The children of n in the order left, right, up, down, one for each
   * direction whose target cell lies on the board. Each child is built from
   * a copy of the parent, updated field by field.
   */
  method GetChildren(n: Node, name: string, goal: Board) returns (children: seq<Node>)
    requires WellFormed(n) && Is3x3(goal) && HeuristicDefined(name, n.data, goal)
    ensures |children| == |LegalMoves(n.emptyLoc)|
    ensures forall i :: 0 <= i < |children| ==>
              Legal(n.emptyLoc, LegalMoves(n.emptyLoc)[i]) &&
              children[i] == MakeChild(n, LegalMoves(n.emptyLoc)[i], name, goal)
    ensures children == Children(n, name, goal)
  {
    children := [];
    for k := 0 to |Directions|
      invariant |children| == |LegalAmong(n.emptyLoc, Directions[..k])|
      invariant forall i :: 0 <= i < |children| ==>
                  Legal(n.emptyLoc, LegalAmong(n.emptyLoc, Directions[..k])[i]) &&
                  children[i] == MakeChild(n, LegalAmong(n.emptyLoc, Directions[..k])[i], name, goal)
    {
      var direction := Directions[k];
      var target := Target(n.emptyLoc, direction);
      assert Directions[..k + 1][..k] == Directions[..k];
      if InGrid(target) {
        var child := n;
        var data := child.data;
        data := data[Index(n.emptyLoc) := data[Index(target)]];
        data := data[Index(target) := Blank];
        child := child.(data := data);
        child := child.(emptyLoc := target);
        child := child.(move := Slid(direction));
        child := child.(g := child.g + 1);
        SlideKeepsHeuristicDefined(name, n.data, n.emptyLoc, direction, goal);
        HeuristicDefinedIff(name, data, goal);
        child := child.(f := child.g + Heuristic(name, child.data, goal).value);
        child := child.(parent := Some(n));
        children := children + [child];
      }
    }
    assert Directions[..|Directions|] == Directions;
  }

  // ---------------------------------------------------------------------
  // Equality
  // ---------------------------------------------------------------------

  /** The right-hand side of `==`: another state or a raw board. */
  datatype Operand = OfNode(node: Node) | OfBoard(board: Board)

  function OperandBoard(other: Operand): Board {
    match other
    case OfNode(m) => m.data
    case OfBoard(b) => b
  }

  /**
   * Two states are equal when their boards agree cell by cell, the blank
   * included; costs, move and parent are ignored.
   */
  function Equals(n: Node, other: Operand): (r: bool)
    requires Is3x3(n.data) && Is3x3(OperandBoard(other))
    ensures r <==> n.data == OperandBoard(other)
  {
    BoardsEqual(n.data, OperandBoard(other))
  }

  // ---------------------------------------------------------------------
  // Ancestry
  // ---------------------------------------------------------------------

  /** The states from the root of n's parent chain down to n itself. */
  function Path(n: Node): (p: seq<Node>)
    ensures |p| >= 1 && p[|p| - 1] == n
    decreases n
  {
    match n.parent
    case None => [n]
    case Some(m) => Path(m) + [n]
  }

  /** Child c was produced from p by one legal slide of p's blank. */
  ghost predicate Step(p: Node, c: Node, name: string, goal: Board) {
    && c.move.Slid?
    && WellFormed(p) && Legal(p.emptyLoc, c.move.d) && Is3x3(goal)
    && HeuristicDefined(name, p.data, goal)
    && c == MakeChild(p, c.move.d, name, goal)
  }

  /** n is root, or was reached from root by a chain of slides. */
  ghost predicate Descends(n: Node, root: Node, name: string, goal: Board)
    decreases n
  {
    n == root ||
    (n.parent.Some? && Step(n.parent.value, n, name, goal) &&
     Descends(n.parent.value, root, name, goal))
  }

  /** The initial state: no parent, cost 0, produced by no move. */
  predicate IsStart(n: Node) {
    n.parent == None && n.move == Start && n.g == 0
  }

  /**
   * For a state reached from the start, the path begins at the start, has
   * g + 1 entries with no gaps, and each entry is the child of the one
   * before it by the move it records.
   */
  lemma {:induction false} PathFacts(n: Node, root: Node, name: string, goal: Board)
    requires Descends(n, root, name, goal) && IsStart(root)
    ensures var p := Path(n);
            && p[0] == root
            && |p| == n.g + 1
            && (forall i :: 0 < i < |p| ==> Step(p[i - 1], p[i], name, goal))
    decreases n
  {
    if n != root {
      var m := n.parent.value;
      PathFacts(m, root, name, goal);
      var p := Path(n);
      assert p == Path(m) + [n];
      forall i | 0 < i < |p|
        ensures Step(p[i - 1], p[i], name, goal)
      {
        if i < |p| - 1 {
          assert p[i - 1] == Path(m)[i - 1] && p[i] == Path(m)[i];
        }
      }
    }
  }

  /** Every step along a path costs one, so g counts the moves taken. */
  lemma StepCost(p: Node, c: Node, name: string, goal: Board)
    requires Step(p, c, name, goal)
    ensures c.g == p.g + 1 && c.parent == Some(p) && c.f >= c.g
  {
    ChildFacts(p, c.move.d, name, goal);
  }

}
