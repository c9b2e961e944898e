/**
 * The 3x3 board of the 8-puzzle and the slides of its blank.
 *
 * A board is held row-major as nine labels; `Cell(b, p)` is the 3x3 view
 * `data[row][col]`. A label is the token read from the terminal, and the
 * blank is the token "_".
 */
module Grid {

  type Label = string

  const Blank: Label := "_"

  type Board = seq<Label>

  predicate Is3x3(b: Board) {
    |b| == 9
  }

  /** A cell position; `row` is the first coordinate of `empty_loc`. */
  datatype Pos = Pos(row: int, col: int)

  predicate InGrid(p: Pos) {
    0 <= p.row < 3 && 0 <= p.col < 3
  }

  function Index(p: Pos): (k: nat)
    requires InGrid(p)
    ensures k < 9
  {
    3 * p.row + p.col
  }

  function Cell(b: Board, p: Pos): Label
    requires Is3x3(b) && InGrid(p)
  {
    b[Index(p)]
  }

  /** The board holds the blank at cell k and at no other cell. */
  predicate OneBlankAt(b: Board, k: nat) {
    Is3x3(b) && k < 9 && b[k] == Blank &&
    forall j :: 0 <= j < 9 && j != k ==> b[j] != Blank
  }

  // ---------------------------------------------------------------------
  // Directions
  // ---------------------------------------------------------------------

  datatype Direction = Left | Right | Up | Down

  /** The directions in the order the children are generated. */
  const Directions: seq<Direction> := [Left, Right, Up, Down]

  /** The place of a direction in `Directions`. */
  function Rank(d: Direction): (r: nat)
    ensures r < 4 && Directions[r] == d
  {
    match d
    case Left => 0
    case Right => 1
    case Up => 2
    case Down => 3
  }

  /** The cell the blank moves to when it slides in direction d. */
  function Target(p: Pos, d: Direction): Pos {
    match d
    case Left => Pos(p.row, p.col - 1)
    case Right => Pos(p.row, p.col + 1)
    case Up => Pos(p.row - 1, p.col)
    case Down => Pos(p.row + 1, p.col)
  }

  function Opposite(d: Direction): Direction {
    match d
    case Left => Right
    case Right => Left
    case Up => Down
    case Down => Up
  }

  /** A direction is legal when both coordinates of its target lie in 0..2. */
  predicate Legal(p: Pos, d: Direction) {
    InGrid(Target(p, d))
  }

  /** The legal directions among ds, in the order of ds. */
  function LegalAmong(p: Pos, ds: seq<Direction>): seq<Direction> {
    if ds == [] then []
    else
      var last := ds[|ds| - 1];
      LegalAmong(p, ds[..|ds| - 1]) + (if Legal(p, last) then [last] else [])
  }

  /** The directions in which a blank at p can slide, in generation order. */
  function LegalMoves(p: Pos): seq<Direction> {
    LegalAmong(p, Directions)
  }

  predicate IsCentre(p: Pos) {
    p.row == 1 && p.col == 1
  }

  predicate IsCorner(p: Pos) {
    p.row != 1 && p.col != 1
  }

  /** The blank has one legal move per neighbour cell, listed left, right, up, down. */
  lemma LegalMovesShape(p: Pos)
    ensures LegalMoves(p) ==
              (if 0 <= p.col - 1 < 3 && 0 <= p.row < 3 then [Left] else []) +
              (if 0 <= p.col + 1 < 3 && 0 <= p.row < 3 then [Right] else []) +
              (if 0 <= p.row - 1 < 3 && 0 <= p.col < 3 then [Up] else []) +
              (if 0 <= p.row + 1 < 3 && 0 <= p.col < 3 then [Down] else [])
  {
    var l1, r1, u1 := [Left], [Left, Right], [Left, Right, Up];
    assert l1[..0] == [] && r1[..1] == l1 && u1[..2] == r1 && Directions[..3] == u1;
    assert LegalAmong(p, l1) == (if Legal(p, Left) then [Left] else []);
    assert LegalAmong(p, r1) == LegalAmong(p, l1) + (if Legal(p, Right) then [Right] else []);
    assert LegalAmong(p, u1) == LegalAmong(p, r1) + (if Legal(p, Up) then [Up] else []);
  }

  /**
   * A direction is listed exactly when it is legal; the list keeps the order
   * left, right, up, down; a corner has 2 moves, an edge 3, the centre 4.
   */
  lemma LegalMovesFacts(p: Pos)
    requires InGrid(p)
    ensures forall d :: d in LegalMoves(p) <==> Legal(p, d)
    ensures forall i, j :: 0 <= i < j < |LegalMoves(p)| ==>
              Rank(LegalMoves(p)[i]) < Rank(LegalMoves(p)[j])
    ensures |LegalMoves(p)| == if IsCentre(p) then 4 else if IsCorner(p) then 2 else 3
  {
    LegalMovesShape(p);
  }

  // ---------------------------------------------------------------------
  // Sliding the blank
  // ---------------------------------------------------------------------

  /**
   * The board after the blank at `blank` swaps with the tile at `target`:
   * the tile is written into the blank's cell, then the blank into the
   * target cell.
   */
  function Slide(b: Board, blank: Pos, target: Pos): (r: Board)
    requires Is3x3(b) && InGrid(blank) && InGrid(target)
    ensures Is3x3(r)
  {
    var moved := b[Index(blank) := b[Index(target)]];
    moved[Index(target) := Blank]
  }

  /**
   * After a legal slide the blank sits at the target cell, the old blank cell
   * holds the tile that was at the target, every other cell is unchanged, and
   * a board with one blank still has exactly one.
   */
  lemma SlideEffect(b: Board, p: Pos, d: Direction)
    requires Is3x3(b) && InGrid(p) && Legal(p, d)
    ensures var r := Slide(b, p, Target(p, d));
            var t := Target(p, d);
            && r[Index(t)] == Blank
            && r[Index(p)] == b[Index(t)]
            && (forall k :: 0 <= k < 9 && k != Index(p) && k != Index(t) ==> r[k] == b[k])
            && (OneBlankAt(b, Index(p)) ==> OneBlankAt(r, Index(t)))
  {
    assert Index(p) != Index(Target(p, d));
  }

  /** A slide of the blank permutes the labels of the board. */
  lemma SlidePermutes(b: Board, p: Pos, d: Direction)
    requires Is3x3(b) && InGrid(p) && Legal(p, d) && b[Index(p)] == Blank
    ensures multiset(Slide(b, p, Target(p, d))) == multiset(b)
  {
    var kp, kt := Index(p), Index(Target(p, d));
    var moved := b[kp := b[kt]];
    UpdatePermutes(b, kp, b[kt]);
    UpdatePermutes(moved, kt, Blank);
  }

  /** Overwriting one element trades its label for the new one. */
  lemma UpdatePermutes(s: seq<Label>, i: nat, v: Label)
    requires i < |s|
    ensures multiset(s[i := v]) == multiset(s) - multiset{s[i]} + multiset{v}
  {
    assert s == s[..i] + [s[i]] + s[i + 1..];
    assert s[i := v] == s[..i] + [v] + s[i + 1..];
  }

  /** Sliding back the opposite way restores the board. */
  lemma SlideUndo(b: Board, p: Pos, d: Direction)
    requires Is3x3(b) && InGrid(p) && Legal(p, d) && b[Index(p)] == Blank
    ensures Target(Target(p, d), Opposite(d)) == p
    ensures Legal(Target(p, d), Opposite(d))
    ensures Slide(Slide(b, p, Target(p, d)), Target(p, d), p) == b
  {
    var r := Slide(Slide(b, p, Target(p, d)), Target(p, d), p);
    assert forall k :: 0 <= k < 9 ==> r[k] == b[k];
  }

  // ---------------------------------------------------------------------
  // Cell-by-cell comparison
  // ---------------------------------------------------------------------

  /** Compares the cells k..8 of two boards, stopping at the first difference. */
  function CellsMatchFrom(a: Board, b: Board, k: nat): (r: bool)
    requires Is3x3(a) && Is3x3(b) && k <= 9
    ensures r <==> a[k..] == b[k..]
    decreases 9 - k
  {
    if k == 9 then true
    else if a[k] != b[k] then false
    else
      assert a[k..] == [a[k]] + a[k + 1..] && b[k..] == [b[k]] + b[k + 1..];
      CellsMatchFrom(a, b, k + 1)
  }

  /** Two boards are equal exactly when all nine cells hold the same label. */
  function BoardsEqual(a: Board, b: Board): (r: bool)
    requires Is3x3(a) && Is3x3(b)
    ensures r <==> a == b
  {
    assert a[0..] == a && b[0..] == b;
    CellsMatchFrom(a, b, 0)
  }

}
