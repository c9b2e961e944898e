# 8-puzzle best-first search, modelled in Dafny

The program solves the 8-puzzle: a 3x3 board holds eight tiles and one blank
(`_`), and a move slides the blank left, right, up or down into a
neighbouring cell. A `puzzleNode` is a search state: a board, its f- and
g-score, the blank's cell, the move that produced it and its parent state.
A `puzzleSolver` runs a best-first search from a start board to a goal
board:

- It pops the front of the frontier and expands it into its children.
- It counts one expansion and the number of children generated.
- It appends the expanded state to the explored list.
- It stops at the first child whose board is the goal.
- Otherwise it appends every child whose board no explored state has, and
  sorts the frontier by f-score.

The score is f = g + h. The h-score is either the number of misplaced tiles
or the Manhattan distance.

The model is split into five modules:

- `Grid` (`grid.dfy`): the flattened board, legal moves, the slide of the
  blank and the cell-by-cell board comparison.
- `Heuristics` (`heuristics.dfy`): misplaced tiles, Manhattan distance
  (with the goal lookup that can fail) and the heuristic chosen by name.
- `PuzzleNode` (`node.dfy`): the state, child generation, `==` against a
  state or a raw board, and the parent chain.
- `Frontier` (`frontier.dfy`): the stable sort by f-score and the rule that
  admits a child to the frontier.
- `PuzzleSolver` (`solver.dfy`): the solver object, the scan for the blank,
  the search loop and the path reconstruction.

`Wrappers` (`wrappers.dfy`) holds `Option`.

Modelling choices:

- A board is held row-major as nine labels, so cell `[i][j]` is element
  `3*i + j`.
- States are immutable values. A child is built from a copy of its parent,
  updated field by field, as the deep copy in the source makes it.
- The solver is a class whose methods update its counters, frontier and
  explored list in place.

## Model

| member | source | states |
|---|---|---|
| Grid.LegalAmong | 8puzzlecode.py:42-44 | Computes the legal directions among a list, in its order; `LegalMovesShape` and `LegalMovesFacts` state what it gives for the four directions |
| Grid.LegalMoves | 8puzzlecode.py:37-44 | Computes the directions the blank can slide in; `LegalMovesShape` and `LegalMovesFacts` state which, in what order and how many |
| Grid.LegalMovesShape | 8puzzlecode.py:37-44 | The legal moves are left, right, up, down in that order, each present exactly when both coordinates of its target lie in 0..2 |
| Grid.LegalMovesFacts | 8puzzlecode.py:37-44 | A direction is listed exactly when its target is on the board; the list keeps the order left, right, up, down; a blank in the centre has 4 moves, in a corner 2, on an edge 3 |
| Grid.Slide | 8puzzlecode.py:51-52 | Computes the swap of the blank with the target's tile and keeps the board 3x3; `SlideEffect`, `SlidePermutes` and `SlideUndo` state its effect, that it permutes the labels and that the opposite slide undoes it |
| Grid.SlideEffect | 8puzzlecode.py:51-55 | After the swap the blank is in the target cell, the old blank cell holds the target's tile, every other cell is unchanged, and a board with one blank still has exactly one |
| Grid.SlidePermutes | 8puzzlecode.py:51-52 | The swap permutes the board's labels (same multiset) |
| Grid.SlideUndo | 8puzzlecode.py:37-52 | The opposite move is legal from the target cell, and sliding back restores the parent's board |
| Grid.CellsMatchFrom | 8puzzlecode.py:106-109 | The cell-by-cell scan from cell k succeeds exactly when the two boards agree from k on |
| Grid.BoardsEqual | 8puzzlecode.py:102-115 | The nine-cell comparison is true exactly when the boards are equal |
| Heuristics.MisplacedFrom | 8puzzlecode.py:80-83 | Counts the misplaced non-blank cells among k..8; `MisplacedFromZero` and `MisplacedFromBound` state when it is 0 and its bound |
| Heuristics.Misplaced | 8puzzlecode.py:78-83 | Counts the misplaced tiles of a board; `MisplacedAtGoal` states that it is 0 on the goal, `MisplacedFacts` the bound of 8 and that it is 0 only on the goal, and `ManhattanFacts` that Manhattan is never below it |
| Heuristics.MisplacedFromZero | 8puzzlecode.py:78-83 | The misplaced count from cell k is 0 exactly when every non-blank cell from k on matches the goal |
| Heuristics.MisplacedFromBound | 8puzzlecode.py:78-83 | The blank never counts, so cells k..8 contribute at most 9 - k, minus one when the blank lies among them |
| Heuristics.MisplacedAtGoal | 8puzzlecode.py:78-83 | Misplaced tiles is 0 on the goal itself, for any 3x3 goal |
| Heuristics.MisplacedFacts | 8puzzlecode.py:78-83 | Misplaced tiles is at most 8 on a board with one blank; when the goal has one blank it is 0 only on the goal |
| Heuristics.IndexOf | 8puzzlecode.py:95 | The lookup fails exactly when the label is absent; otherwise the index found holds the label |
| Heuristics.IndexOfFirst | 8puzzlecode.py:95 | The index found is the first occurrence, as `list.index` returns |
| Heuristics.ManhattanFrom | 8puzzlecode.py:90-98 | Sums the distances of cells k..8 from their goal cells, failing on a label missing from the goal; `ManhattanFromDefined`, `ManhattanFromAtGoal`, `ManhattanFromDominates` and `ManhattanFromBound` state its properties |
| Heuristics.Manhattan | 8puzzlecode.py:84-98 | Computes the Manhattan distance of a board, or None when the goal lookup fails; `ManhattanFacts` states when it is defined, its value on the goal and its bounds |
| Heuristics.ManhattanFromDefined | 8puzzlecode.py:90-98 | The Manhattan sum over cells k..8 is defined exactly when each of their labels, the blank included, occurs in the goal |
| Heuristics.ManhattanFromAtGoal | 8puzzlecode.py:90-98 | On the goal itself, with distinct tiles, every tile is found in its own cell and the sum is 0 |
| Heuristics.ManhattanFromDominates | 8puzzlecode.py:78-98 | The Manhattan sum is never below the misplaced-tiles count |
| Heuristics.ManhattanFromBound | 8puzzlecode.py:90-98 | Each cell contributes at most 4 |
| Heuristics.ManhattanFacts | 8puzzlecode.py:84-98 | Manhattan is defined exactly when every label of the board occurs in the goal, and then lies between the misplaced count and 36; it is 0 on a goal whose tiles are distinct |
| Heuristics.Heuristic | 8puzzlecode.py:74-100 | Chooses the h-score by method name (misplaced tiles, Manhattan, 0 for any other name); `HeuristicAtGoal` and `HeuristicDefinedIff` state that the goal scores 0 and when scoring fails, and `ChildFacts` that f - g of every child is this score |
| Heuristics.HeuristicAtGoal | 8puzzlecode.py:74-100 | Misplaced tiles and any name other than Manhattan score any 3x3 goal as 0; Manhattan does too when the goal's tiles are distinct |
| Heuristics.HeuristicDefinedIff | 8puzzlecode.py:74-100 | Scoring fails exactly when the method is Manhattan and a label is missing from the goal |
| Heuristics.SlideKeepsHeuristicDefined | 8puzzlecode.py:48-64 | A slide keeps the labels, so a board that can be scored gives children that can be scored |
| PuzzleNode.MakeChild | 8puzzlecode.py:48-67 | The child of a well-formed state is well formed (blank at `empty_loc`) and can be scored |
| PuzzleNode.ChildFacts | 8puzzlecode.py:48-67 | The child has the blank at the target, the target's tile in the old blank cell, every other cell unchanged and the same labels; its g is one more than its parent's, f - g is the heuristic of its board, its move is the direction and its parent is the expanded state |
| PuzzleNode.Children | 8puzzlecode.py:29-72 | Lists the children of a state, one `MakeChild` per legal move in generation order; `GetChildren` is proved to return it and `ChildFacts` states what each child is |
| PuzzleNode.GetChildren | 8puzzlecode.py:29-72 | One child per legal direction, in the order left, right, up, down, each the state `MakeChild` describes; the list equals `Children` |
| PuzzleNode.Equals | 8puzzlecode.py:102-115 | Against a state or a raw board, `==` holds exactly when the boards are equal; costs, move and parent are ignored |
| PuzzleNode.Path | 8puzzlecode.py:168-171 | The parent chain is non-empty and ends at the state itself |
| PuzzleNode.PathFacts | 8puzzlecode.py:162-175 | For a state reached from the start, the path begins at the start, has g + 1 entries, and each entry is the child of the one before by its recorded move |
| PuzzleNode.StepCost | 8puzzlecode.py:61-67 | Each step along a path adds 1 to g, links the parent, and keeps f >= g |
| Frontier.InsertByF | 8puzzlecode.py:160 | Inserts a state before the first state whose f-score is not below its own, adding one element; `InsertByFPermutes`, `InsertByFSorted` and `InsertByFKeepsTies` state that it adds exactly that state, keeps a sorted frontier sorted and goes in front of its ties |
| Frontier.InsertByFPermutes | 8puzzlecode.py:160 | Inserting adds exactly the new state |
| Frontier.InsertByFSorted | 8puzzlecode.py:160 | Inserting into a frontier sorted by f keeps it sorted |
| Frontier.SortByF | 8puzzlecode.py:160 | The sorted frontier is ascending by f and a permutation of the old one |
| Frontier.InsertByFKeepsTies | 8puzzlecode.py:160 | An inserted state goes in front of every state with the same f |
| Frontier.SortByFStable | 8puzzlecode.py:160 | The sort is stable: states with equal f keep their relative order |
| Frontier.InExplored | 8puzzlecode.py:158 | `child in explored` holds exactly when some explored state has the child's board |
| Frontier.Admitted | 8puzzlecode.py:153-159 | Lists, in order, the first n children whose boards no explored state has; `AdmittedFacts` states exactly which states it holds |
| Frontier.AdmittedFacts | 8puzzlecode.py:153-159 | A state is admitted exactly when it is one of the children and no explored state has its board; no more states are admitted than there are children |
| PuzzleSolver.FindBlank | 8puzzlecode.py:133-136 | The scan finds nothing exactly when the board has no blank; otherwise it returns a blank cell with no blank after it in row-major order |
| PuzzleSolver.Reversed | 8puzzlecode.py:172-175 | The copy holds the elements from last to first |
| PuzzleSolver.HistoryGrow | 8puzzlecode.py:148-152 | Popping the front of the last recorded frontier and appending it to explored keeps the run's history |
| PuzzleSolver.HistoryExtend | 8puzzlecode.py:147-160 | Recording the frontier that a pass over the last recorded one produced keeps the run's history |
| PuzzleSolver.HistoryNoGoal | 8puzzlecode.py:153-160 | Every state popped by a recorded pass that found no goal has no child equal to the goal |
| PuzzleSolver.AdmittedReached | 8puzzlecode.py:153-160 | Appending admitted children keeps every frontier state reached from the start by legal slides, and not the goal |
| PuzzleSolver.Solver.constructor | 8puzzlecode.py:129-137 | Resets both counters, keeps the method name and goal, and builds the start state with f = g = 0 at the last blank of the scan |
| PuzzleSolver.Solver.PrintAnswer | 8puzzlecode.py:162-175 | The states run from the root of the parent chain to the node, each move is the move of its state, the path cost is the node's g, and the counters are reported |
| PuzzleSolver.Solver.AdmitChildren | 8puzzlecode.py:153-159 | Stops at the first child whose board is the goal; otherwise appends to the frontier exactly the admitted children, none of which is the goal |
| PuzzleSolver.Solver.ExpandFront | 8puzzlecode.py:147-160 | Pops the front state, counts one expansion and its children, and appends it to explored. It then returns a goal child reached by one legal slide, or states that no child is the goal and sets the frontier to the stable sort by f of the rest of the old frontier followed by exactly the admitted children, keeping every waiting state reached and the frontier sorted. In the no-goal case the pass is an `Expansion` of the old frontier into the new one |
| PuzzleSolver.Solver.Search | 8puzzlecode.py:144-160 | The loop from the frontier `[start]`: explored state i is the front of recorded frontier i, each pass that finds no goal turns one recorded frontier into the next by an `Expansion`, and the current frontier is the last one recorded. It runs at most `fuel` passes, exactly `fuel` when it reports running out, and `Exhausted` only on an empty frontier. A solution's goal state is a legal slide from the last explored state, and the counters match the explored states |
| PuzzleSolver.Solver.Solve | 8puzzlecode.py:139-160 | A start equal to the goal is answered without expanding. A failed Manhattan lookup happens exactly when the start has a label missing from the goal. Otherwise the run is the chain of passes `Search` describes, starting from the frontier `[start]`: the ghost `fronts` lists the frontier before each pass, explored state i is the front of frontier i, and each frontier but the last is turned into the next by an `Expansion`. The final frontier is the last one recorded, so `Exhausted` means that frontier is empty. At most `fuel` states are explored, and exactly `fuel` when the fuel runs out. The counters grow by the explored states and their children. Every explored state except the last one of a solved run has no goal child. A solution leads from the start to the goal by legal slides, with path cost equal to its number of moves, and its goal state is a legal slide from the last explored state. Every explored state was reached from the start, and the frontier stays sorted |

## Left out

- Reading the two boards from the terminal, splitting them into rows, and all printing (`__str__`, the report of `printAnswer`): I/O. `PrintAnswer` returns the report's contents as a `Trace` instead.
- `PuzzleSolver.Solver.constructor`: requires a 3x3 start and goal and a blank in the start. Input that breaks these makes the source fail with an index error, or with an unbound blank location.
- `PuzzleSolver.Solver.Solve` and `PuzzleSolver.Solver.Search`: take a `fuel` bound on the number of expansions and report `OutOfFuel` when the fuel runs out. Termination of the unbounded loop is not proved.
- `PuzzleSolver.Solver.Solve`: reports `Exhausted` when the frontier empties. The source falls out of the loop silently there.
- `PuzzleSolver.Solver.Solve`: the Manhattan lookup failure is reported as `LookupFailed` before the first expansion. The source raises `ValueError` while scoring the first child, and every child has the start's labels.
- The start state's f-score is 0, as the code builds it, rather than g + h: `calculate_f_score` is never called on the start.
- The node counters are class-level variables in the source. Here they are fields of the solver, reset by its constructor as the source's constructor resets them; `Solve` states their growth relative to their values on entry.
- The frontier (`to_explore`) and `explored` are locals of `solve` in the source. Here they are fields of the solver, so the final state can be stated.
- The class-level `puzzleNode.goal` is passed as a `goal` parameter. The `goal_data=None` default of the state constructor is not modelled.
- The default `method="misplaced_tiles"` of the solver's constructor (8puzzlecode.py:129) and of `calculate_f_score` (8puzzlecode.py:74) is not modelled: the method name is always passed explicitly.
- `PuzzleSolver.Solver.AdmitChildren` and `PuzzleSolver.Solver.ExpandFront`: the frontier after a goal hit is left unspecified, because the source returns at once and discards `to_explore` (8puzzlecode.py:155-156).
- The Manhattan h-score is a float (`math.fabs`). It is modelled as an integer, which it always equals.
- `copy.deepcopy` and object identity: states are immutable values, so aliasing between a child and its parent cannot arise.
- Python's `in` on a list first tests identity and then `==`. For states, identity implies equal boards, so only `==` is modelled.
