# Pathfinding-A-Search in Dafny

This project models the core of Pathfinding-A-Search. That is a small maze solver: a best-first
tree search over a character grid, in two phases, from the initial cell `I` to the key `K` and
then from the key to any goal `G`. It is modelled and proved in Dafny.

- **Coordinates** (`coordinates.dfy`): `MazeState`, the mutable coordinate object.
  - `Add` translates it in place.
  - `Equals`, `HashCode` and `Clone` work by value.
  - `Pos` is the immutable value it holds; sets and maps of states use it.
- **Maze** (`maze.dfy`): `MazeProblem`.
  - The constructor's scan of the grid is `ScanCells`, `ScanRow` and `ReadCell`. `Create` returns a `Failure` where the constructor throws.
  - The getters, `GetCost` and `GetTransitions` follow the source; `GetTransitions` builds its map with `MazeState.Add`.
  - `TransMap` is the table `CreateTransitions` builds. `GetTransitions` and `TestSolution` read their offsets from it, as the source reads `TRANS_MAP`.
  - `TestSolution` replays a candidate action list with a moving `MazeState`. It is proved equal to the specification function `Verdict`.
  - `Walk` is the reference definition of the cells a replay enters: its j-th cell is where the first j+1 actions lead. `Verdict` and `ChainReplays` are stated with it.
- **Tree** (`tree.dfy`): `SearchTreeNode` and its comparator `CompareTo`.
  - The record's fields are in the order the constructor takes them.
  - The parent reference is an index into the arena.
- **Pathfinding** (`pathfinding.dfy`): `Pathfinder`.
  - All nodes of one `solve` live in an arena: a sequence in which every parent index is smaller than the node's own index.
  - The class `Search` holds the arena, the frontier (arena indices) and the graveyard (a set of positions), and updates them in place.
  - `keyFind` and `goalFind` recurse only in tail position, so each is modelled as a loop. Each loop turn performs one recursive call's body: `KeyStep`/`GoalStep`.
    - Each step polls, then runs the loop over the transitions, `KeyScan`/`GoalScan`.
    - That loop's body is `KeyVisit`/`GoalVisit`, one action of `EntryOrder` per call.
    - A target that is not in the graveyard gets a child, created by `KeyAdd`/`GoalAdd` with `KeyChild`/`GoalExpand`.
  - A `fuel` bound makes the loops terminate; running out is reported as `OutOfFuel`, a case of the datatype `Fueled`.
  - `CompleteSolution` walks the parent links. It is proved against the ghost function `ChainActions`.

The main theorem is validation soundness, `Pathfinding.SolveAndTest`: whatever `solve` returns
that is not null, `testSolution` accepts. Its reported cost is between 1 and 3 per action.

The search phases keep these invariants (`Search.KeyPhase`, `Search.GoalPhase`):
- Every node is the root or a legal move from its parent, with its cost accumulated (`ArenaOk`).
- The graveyard grew only by the states of parents of newly created children (`Grew`).
- Every new child was created for a state not in the graveyard at the time.
- Every new node carries the priority the source computes for its phase.
- In the goal phase, every node in the frontier has passed the key (`FrontierHasKey`).

In these places the code does something other than one might expect, and the model follows the code:
- **Missing key.** One might expect `solve` to skip the key phase when the maze has no key. The code returns null (`Pathfinder.java:36`), and so does `Solve`.
- **Goal heuristic.** One might expect the goal-phase heuristic to be the least Manhattan distance to a goal. The code adds the least column distance to the least row distance, each minimised on its own (`Pathfinder.java:108-117`). `GoalHeuristicIsNotManhattan` shows an input where these differ.
- **Visited marking.** A state is marked visited only when it is expanded and at least one of its targets is unvisited (`Pathfinder.java:62-64`). The model does the same in `Expand`.
- **goalFind's early null.** `goalFind` returns null as soon as it meets a visited target while the frontier is empty, even if later targets of the same node are unvisited (`Pathfinder.java:126-127`). `GoalStep` does the same.

## Model

| member | source | states |
|---|---|---|
| Coordinates.MazeState.constructor | pathfinder/informed/MazeState.java:20-23 | the new object holds exactly the given column and row |
| Coordinates.MazeState.Add | pathfinder/informed/MazeState.java:31-34 | the state becomes the sum of the two coordinates; the other state is unchanged when it is a different object |
| Coordinates.MazeState.Equals | pathfinder/informed/MazeState.java:37-41 | true iff the other object is non-null and has the same column and row; the identity shortcut agrees with this |
| Coordinates.EqualsReflexive | pathfinder/informed/MazeState.java:37-41 | every state equals itself |
| Coordinates.EqualsSymmetric | pathfinder/informed/MazeState.java:37-41 | equality is symmetric |
| Coordinates.MazeState.HashCode | pathfinder/informed/MazeState.java:44-46 | the hash is a 32-bit integer computed from the column and row alone |
| Coordinates.EqualStatesHashEqually | pathfinder/informed/MazeState.java:44-46 | equal states have equal hash codes |
| Coordinates.MazeState.Clone | pathfinder/informed/MazeState.java:54-56 | the clone is a fresh object, equal to the original in both directions |
| Maze.Offset | pathfinder/informed/MazeProblem.java:31-38 | each action moves exactly one cell; U and D change only the row (up decreases it), L and R only the column (left decreases it) |
| Maze.CreateTransitions | pathfinder/informed/MazeProblem.java:31-38 | the transition map has exactly the four actions as keys, each mapped to its offset |
| Maze.TransMapCovers | pathfinder/informed/MazeProblem.java:166 | reading the table for any action gives that action's offset |
| Maze.WalkSnoc | pathfinder/informed/MazeProblem.java:202-204 | one more action appends exactly one cell, one offset beyond the previous end |
| Maze.ReadCell | pathfinder/informed/MazeProblem.java:74-87 | the switch on one cell fails iff the character is not one of I, G, K, '.', X, M; 'I' and 'K' replace what was found, 'G' adds a goal |
| Maze.RowScanned | pathfinder/informed/MazeProblem.java:73-88 | reading the known cells of a row in order yields the last 'I', the last 'K' and all goals seen so far in row-major order |
| Maze.ScanRow | pathfinder/informed/MazeProblem.java:73-88 | one row fails iff it holds an unknown character; otherwise the scan covers that row |
| Maze.ScanCells | pathfinder/informed/MazeProblem.java:72-89 | fails iff some cell is unknown; otherwise gives the last 'I' and the last 'K' in row-major order (None when there is none) and exactly the goal cells |
| Maze.MazeProblem.constructor | pathfinder/informed/MazeProblem.java:63-66 | the grid, its row and column counts (0 columns for an empty grid, else the first row's length) and the scan's findings are stored |
| Maze.MazeProblem.Create | pathfinder/informed/MazeProblem.java:63-93 | construction fails (IllegalArgumentException) iff some cell is unknown; otherwise the problem holds the maze and its fields satisfy Valid |
| Maze.MazeProblem.IsGoalState | pathfinder/informed/MazeProblem.java:105-107 | a state is a goal iff it lies in the grid on a 'G' cell |
| Maze.MazeProblem.GetGoalStates | pathfinder/informed/MazeProblem.java:114-116 | the returned set holds exactly the goal states; it is a value, so changing it cannot change IsGoalState |
| Maze.MazeProblem.GetInitialState | pathfinder/informed/MazeProblem.java:123-125 | a fresh object holding the initial state |
| Maze.MazeProblem.GetKeyState | pathfinder/informed/MazeProblem.java:132-134 | null iff no cell holds 'K'; otherwise a fresh object at the key, which is a 'K' cell |
| Maze.MazeProblem.GetCost | pathfinder/informed/MazeProblem.java:142-147 | 3 iff the cell is 'M', 1 iff it is not, so always at least 1 |
| Maze.MazeProblem.GetTransitions | pathfinder/informed/MazeProblem.java:159-181 | an action is a key iff its target lies in the grid and is not 'X'; each key maps to the state plus the action's offset |
| Maze.MazeProblem.TestSolution | pathfinder/informed/MazeProblem.java:192-214 | null gives (false, -1); any list gives Verdict: (false, -1) if it enters a wall, else the sum of the entry costs, and a solution iff it ends on a goal and entered the key |
| Maze.MazeProblem.SumCostBounds | pathfinder/informed/MazeProblem.java:211 | a walk costs between 1 and 3 per cell entered |
| Maze.MazeProblem.VerdictCost | pathfinder/informed/MazeProblem.java:198-213 | the cost is -1 iff the replay enters a wall, and then it is no solution; otherwise the cost is between 1 and 3 per action |
| Maze.MazeProblem.EmptyCandidate | pathfinder/informed/MazeProblem.java:194-213 | the empty list is no solution and costs 0 |
| Tree.CompareTo | pathfinder/informed/SearchTreeNode.java:30-39 | 1 iff this priority is greater, -1 iff it is less or equal |
| Tree.CompareToNeverZero | pathfinder/informed/SearchTreeNode.java:30-39 | the comparison never returns 0 |
| Tree.CompareToSelf | pathfinder/informed/SearchTreeNode.java:30-39 | a node compares below itself |
| Tree.CompareToAntisymmetric | pathfinder/informed/SearchTreeNode.java:30-39 | with different priorities, the two comparisons have opposite signs |
| Tree.CompareToEqualPriorities | pathfinder/informed/SearchTreeNode.java:30-39 | with equal priorities, each node compares below the other |
| Pathfinding.ChainLength | pathfinder/informed/Pathfinder.java:142-149 | a node's chain has one action per parent link |
| Pathfinding.AppendChild | pathfinder/informed/Pathfinder.java:71-73 | a legal child with accumulated cost keeps every node well formed, and its chain is its parent's plus its action |
| Pathfinding.ChainReplays | pathfinder/informed/Pathfinder.java:118-119 | replaying a node's chain from the initial state stays in the grid and off walls, ends on the node's state, and costs its costSoFar |
| Pathfinding.KeyNodeHasKey | pathfinder/informed/Pathfinder.java:75-77 | the node returned on the key has entered the key cell |
| Pathfinding.ChildHasKey | pathfinder/informed/Pathfinder.java:119-125 | a child keeps the key its parent collected |
| Pathfinding.GrewAppend | pathfinder/informed/Pathfinder.java:62-64 | appending a child whose state is not in the graveyard adds exactly its parent's state to the graveyard |
| Pathfinding.KeyPrioritiesAppend | pathfinder/informed/Pathfinder.java:67-71 | a child with priority costSoFar + distance to the key + entry cost keeps the nodes' key-phase priorities |
| Pathfinding.GoalPrioritiesAppend | pathfinder/informed/Pathfinder.java:116-118 | a child with priority costSoFar + goal heuristic + entry cost keeps the nodes' goal-phase priorities |
| Pathfinding.GoalDistances | pathfinder/informed/Pathfinder.java:107-115 | with no goals, -1 and -1; otherwise the least column distance and the least row distance to any goal, each minimised on its own |
| Pathfinding.GoalHeuristicBelowManhattan | pathfinder/informed/Pathfinder.java:107-117 | the goal heuristic never exceeds the Manhattan distance to any goal |
| Pathfinding.GoalHeuristicIsNotManhattan | pathfinder/informed/Pathfinder.java:107-117 | an input where the heuristic is 0 but every goal is at Manhattan distance 5 |
| Pathfinding.MinPriorityIndex | pathfinder/informed/Pathfinder.java:58 | the chosen frontier entry has the least priority |
| Pathfinding.CompleteSolution | pathfinder/informed/Pathfinder.java:142-149 | the result is the actions on the chain from the root to the node, root's excluded, in front of solved, and its length is the node's depth plus that of solved |
| Pathfinding.Search.constructor | pathfinder/informed/Pathfinder.java:21-28 | the frontier holds only the root node, at the initial state with cost 0, and the graveyard only its state |
| Pathfinding.Search.Poll | pathfinder/informed/Pathfinder.java:58 | removes one least-priority entry from the frontier and nothing else |
| Pathfinding.Search.Push | pathfinder/informed/Pathfinder.java:78 | the child joins the end of the frontier; arena and graveyard are unchanged |
| Pathfinding.Search.Expand | pathfinder/informed/Pathfinder.java:62-73 | the parent's state joins the graveyard and the child (target state, action, parent, priority, accumulated cost) joins the arena |
| Pathfinding.Search.KeyChild | pathfinder/informed/Pathfinder.java:62-78 | exactly one node is appended: target state, action, parent e, priority costSoFar + distance to the key + entry cost, accumulated cost; the graveyard gains e's state; the child ends the phase iff it stands on the key, else it joins the end of the frontier |
| Pathfinding.Search.KeyAdd | pathfinder/informed/Pathfinder.java:62-78 | the action gets a child of e and e's state is buried; the scan goes on with the child in the frontier and no node on the key, or ends with the child, the newest node, as the only new node on the key |
| Pathfinding.Search.KeyVisit | pathfinder/informed/Pathfinder.java:61-80 | one action of EntryOrder: a legal target outside the graveyard gets a child; the loop goes on (KeyGoing) or ends on the key (KeyEnded) |
| Pathfinding.Search.KeyScan | pathfinder/informed/Pathfinder.java:61-80 | the children created are exactly the legal targets outside the graveyard among the actions looked at, in EntryOrder; it stops right after the first child on the key, which is the only new node on the key, or after all actions; the frontier gains the other children in order |
| Pathfinding.Search.KeyStep | pathfinder/informed/Pathfinder.java:57-81 | polls a least-priority node e (the rest is the old frontier minus e, as a multiset) and scans it as KeyScan does: the children are e's legal unvisited targets in EntryOrder up to the one on the key, and the frontier is the rest plus the others |
| Pathfinding.Search.KeyFind | pathfinder/informed/Pathfinder.java:56-86 | null only with an empty frontier (at once if it was empty on entry), OutOfFuel only while nodes remain in the frontier; a returned node is new, not the root, and stands on the key |
| Pathfinding.Search.Restart | pathfinder/informed/Pathfinder.java:41-43 | the frontier becomes exactly the key node and the graveyard empty; the nodes are kept |
| Pathfinding.Search.GoalExpand | pathfinder/informed/Pathfinder.java:102-119 | exactly one node is appended: target state, action, parent e, priority costSoFar + goal heuristic (GoalHeuristic) + entry cost, accumulated cost; the graveyard gains e's state; the frontier is unchanged; the child keeps the key e collected |
| Pathfinding.Search.GoalAdd | pathfinder/informed/Pathfinder.java:102-125 | the action gets a child of e; a goal child ends the search with its chain as the solution, any other joins the end of the frontier, and no other new node is a goal |
| Pathfinding.Search.GoalVisit | pathfinder/informed/Pathfinder.java:101-128 | one action of EntryOrder: a legal target outside the graveyard gets a child; a target in the graveyard while the frontier is empty returns null; otherwise the loop goes on (GoalGoing), else it ends (GoalEnded) |
| Pathfinding.Search.GoalScan | pathfinder/informed/Pathfinder.java:101-129 | the children are exactly the legal unvisited targets in EntryOrder among the actions looked at; it stops right after the first goal child (returning its chain) or the first graveyard target met with an empty frontier (returning null, with nothing created), or after all actions; no earlier action was such a dead end |
| Pathfinding.Search.GoalStep | pathfinder/informed/Pathfinder.java:97-130 | polls a least-priority node e (the rest is the old frontier minus e, as a multiset) and scans it as GoalScan does; null only when the rest is empty and the graveyard target was met before any child; a list is the chain of a new goal node that has the key |
| Pathfinding.Search.GoalFind | pathfinder/informed/Pathfinder.java:96-132 | an empty frontier on entry never returns; null only with an empty frontier; a returned list is the chain of a new goal node that has the key |
| Pathfinding.Solve | pathfinder/informed/Pathfinder.java:19-47 | null when the maze has no key; a returned list is the chain of a goal node, stays in the grid when replayed, and is a solution by Verdict at exactly that node's costSoFar |
| Pathfinding.SolveAndTest | pathfinder/informed/Pathfinder.java:19-47 | testSolution accepts what solve returns, at exactly the goal node's costSoFar, which is 1 to 3 per action; anything else tests as (false, -1) |

## Left out

- Java `HashMap` iteration order is modelled by a fixed order. `EntryOrder` is R, D, U, L: the order a default 16-bucket table visits these one-letter keys. The transitions map itself is a Dafny `map`, which has no order.
- `PriorityQueue` tie-breaking is not modelled. `Poll` takes the first least-priority entry, and its contract promises only some least-priority entry.
- Pathfinding.Search.KeyFind: the source's unbounded recursion becomes a loop of at most `fuel` calls. Running out is `OutOfFuel`, so the model says nothing about termination or stack overflow. This includes `goalFind` on an empty frontier, which never returns.
- Pathfinding.Search.GoalFind: bounded by `fuel` in the same way.
- Pathfinding.Solve: a returned solution is valid, but optimality is not claimed. The source stops at the first goal child it creates, which need not be the cheapest.
- Pathfinding.Solve: when the maze has a key, the contract does not rule out a null or `OutOfFuel` result. What keyFind returned is recorded only in the ghost result `keyRun`, which the body sets from the call, and no contract of `Solve` can name that call's result. So "null when keyFind returns null" holds of the body but is not promised to callers.
- Maze.MazeProblem.Create: a row shorter than the first makes the constructor throw `StringIndexOutOfBoundsException`, unless an unknown character comes earlier in row-major order (then it throws `IllegalArgumentException`). This is a precondition (`WideRows`). Longer rows are allowed; the constructor's scan reads them only up to the first row's length.
- Maze.MazeProblem.TestSolution: the source throws when a replay steps outside the grid before entering a wall. Outside the grid in any direction it throws: above the first or below the last row `ArrayIndexOutOfBoundsException`, left of column 0 or past a row's end `StringIndexOutOfBoundsException`. On a row longer than the first, the source reads columns at or beyond the first row's length without throwing, and counts those cells ('X', 'K', their cost). The model excludes all these walks by a precondition (`ReplayInBounds`, with the grid's width taken from the first row).
- An unknown action string (a `NullPointerException` in the source) cannot occur: actions are a datatype.
- A maze without `I` is excluded by preconditions (`initialState.Some?`), because the source dereferences null there.
- Integers are unbounded. The 32-bit overflow of costs and priorities, which would need a walk of more than 700 million cells, is not modelled. `HashCode` does model the wrap-around.
- `Equals` takes a `MazeState?`, so comparison with objects of other classes (always false in the source) is left out.
- `GetTransitions` takes the state's value (`Pos`). The objects it creates are modelled as the source builds them.
- `toString` and all text input and output are left out.
- `MazeTestResult` is a datatype. Its Java constructor only stores its two fields.
