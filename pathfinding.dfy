/**
 * Pathfinder: a best-first tree search from the initial state to the key, then,
 * with a cleared frontier and graveyard, from the key node to a goal; the solution
 * is read off the parent links of the goal node.
 *
 * The nodes of a search live in an arena, a sequence in which every node's parent
 * has a smaller index; the frontier holds arena indices.
 */
module Pathfinding {
  import opened Wrappers
  import opened Coordinates
  import opened Maze
  import opened Tree

  /** What a search bounded by fuel reports: the value the source returns, or OutOfFuel. */
  datatype Fueled<T> = Return(value: T) | OutOfFuel

  // ---------------------------------------------------------------------------
  // The arena of nodes and its parent chains

  /** Parent links point to earlier nodes, and every node with a parent has an action. */
  ghost predicate Linked(arena: seq<SearchTreeNode>) {
    forall i | 0 <= i < |arena| :: arena[i].parent.Some? ==> arena[i].parent.value < i && arena[i].action.Some?
  }

  /** The actions on the chain from the root to node i, root first; the root's is excluded. */
  ghost function ChainActions(arena: seq<SearchTreeNode>, i: nat): seq<Action>
    requires Linked(arena) && i < |arena|
    decreases i
  {
    match arena[i].parent
    case None => []
    case Some(p) => ChainActions(arena, p) + [arena[i].action.value]
  }

  /** The number of parent links from node i to its root. */
  ghost function Depth(arena: seq<SearchTreeNode>, i: nat): nat
    requires Linked(arena) && i < |arena|
    decreases i
  {
    match arena[i].parent
    case None => 0
    case Some(p) => Depth(arena, p) + 1
  }

  lemma {:induction false} ChainLength(arena: seq<SearchTreeNode>, i: nat)
    requires Linked(arena) && i < |arena|
    ensures |ChainActions(arena, i)| == Depth(arena, i)
  {
    match arena[i].parent
    case None =>
    case Some(p) => ChainLength(arena, p);
  }

  lemma LinkedPrefix(arena: seq<SearchTreeNode>, c: SearchTreeNode)
    requires Linked(arena + [c])
    ensures Linked(arena)
  {
    forall i | 0 <= i < |arena|
      ensures arena[i].parent.Some? ==> arena[i].parent.value < i && arena[i].action.Some?
    {
      assert (arena + [c])[i] == arena[i];
    }
  }

  /** Appending a node does not change the chains of the nodes already there. */
  lemma {:induction false} ChainFrame(arena: seq<SearchTreeNode>, c: SearchTreeNode, i: nat)
    requires Linked(arena + [c]) && i < |arena|
    ensures Linked(arena) && ChainActions(arena + [c], i) == ChainActions(arena, i)
  {
    LinkedPrefix(arena, c);
    assert (arena + [c])[i] == arena[i];
    match arena[i].parent
    case None =>
    case Some(p) => ChainFrame(arena, c, p);
  }

  /** Node i is the root (index 0, initial state, cost 0) or a legal move from its parent. */
  ghost predicate NodeOk(problem: MazeProblem, arena: seq<SearchTreeNode>, i: nat)
    requires problem.Valid() && Linked(arena) && i < |arena|
  {
    var n := arena[i];
    match n.parent
    case None => i == 0 && problem.initialState == Some(n.state) && n.costSoFar == 0
    case Some(p) =>
      && problem.Legal(arena[p].state, n.action.value)
      && n.state == arena[p].state.Plus(Offset(n.action.value))
      && n.costSoFar == arena[p].costSoFar + problem.GetCost(n.state)
  }

  ghost predicate ArenaOk(problem: MazeProblem, arena: seq<SearchTreeNode>)
    requires problem.Valid()
  {
    && Linked(arena) && |arena| > 0
    && forall i | 0 <= i < |arena| :: NodeOk(problem, arena, i)
  }

  /** A legal child of node p, with its cost accumulated, keeps the arena well formed. */
  lemma AppendChild(problem: MazeProblem, arena: seq<SearchTreeNode>, c: SearchTreeNode)
    requires problem.Valid() && ArenaOk(problem, arena)
    requires c.parent.Some? && c.parent.value < |arena| && c.action.Some?
    requires problem.Legal(arena[c.parent.value].state, c.action.value)
    requires c.state == arena[c.parent.value].state.Plus(Offset(c.action.value))
    requires c.costSoFar == arena[c.parent.value].costSoFar + problem.GetCost(c.state)
    ensures ArenaOk(problem, arena + [c])
    ensures ChainActions(arena + [c], |arena|) == ChainActions(arena, c.parent.value) + [c.action.value]
    ensures forall i | 0 <= i < |arena| :: ChainActions(arena + [c], i) == ChainActions(arena, i)
  {
    var a' := arena + [c];
    assert Linked(a') by {
      forall i | 0 <= i < |a'|
        ensures a'[i].parent.Some? ==> a'[i].parent.value < i && a'[i].action.Some?
      {
        if i < |arena| { assert a'[i] == arena[i]; }
      }
    }
    forall i | 0 <= i < |a'|
      ensures NodeOk(problem, a', i)
    {
      if i < |arena| {
        assert a'[i] == arena[i];
        assert NodeOk(problem, arena, i);
      }
    }
    forall i | 0 <= i < |arena|
      ensures ChainActions(a', i) == ChainActions(arena, i)
    {
      ChainFrame(arena, c, i);
    }
  }

  /**
   * The chain of node i replays from the initial state without leaving the grid or
   * entering a wall, ends on node i's state, and costs node i's costSoFar.
   */
  lemma {:induction false} ChainReplays(problem: MazeProblem, arena: seq<SearchTreeNode>, i: nat)
    requires problem.Valid() && problem.initialState.Some? && ArenaOk(problem, arena) && i < |arena|
    ensures var acts := ChainActions(arena, i);
            var w := Walk(problem.initialState.value, acts);
            && Final(problem.initialState.value, acts) == arena[i].state
            && problem.ClearUpTo(w, |w|) && problem.AllInBounds(w)
            && problem.SumCost(w) == arena[i].costSoFar
  {
    assert NodeOk(problem, arena, i);
    var init := problem.initialState.value;
    match arena[i].parent
    case None =>
    case Some(p) =>
      ChainReplays(problem, arena, p);
      var a := arena[i].action.value;
      var actsP := ChainActions(arena, p);
      WalkSnoc(init, actsP, a);
      var wP := Walk(init, actsP);
      var w := Walk(init, actsP + [a]);
      assert w == wP + [arena[i].state];
      problem.ClearSnoc(wP, arena[i].state);
  }

  /** Node i's walk from the initial state has entered the key cell. */
  ghost predicate HasKey(problem: MazeProblem, arena: seq<SearchTreeNode>, i: nat)
    requires problem.Valid() && problem.initialState.Some? && Linked(arena) && i < |arena|
  {
    problem.LandsOnKey(Walk(problem.initialState.value, ChainActions(arena, i)))
  }

  /** A non-root node standing on the key cell has collected the key. */
  lemma KeyNodeHasKey(problem: MazeProblem, arena: seq<SearchTreeNode>, k: nat)
    requires problem.Valid() && problem.initialState.Some? && ArenaOk(problem, arena) && k < |arena|
    requires problem.keyState == Some(arena[k].state) && arena[k].parent.Some?
    ensures HasKey(problem, arena, k)
  {
    var init := problem.initialState.value;
    var acts := ChainActions(arena, k);
    ChainReplays(problem, arena, k);
    var w := Walk(init, acts);
    assert acts[..|acts|] == acts;
    assert w[|w| - 1] == arena[k].state;
    assert problem.InBounds(w[|w| - 1]) && problem.CellAt(w[|w| - 1]) == 'K';
  }

  /** A child's walk extends its parent's, so it keeps a key its parent collected. */
  lemma ChildHasKey(problem: MazeProblem, arena: seq<SearchTreeNode>, c: SearchTreeNode)
    requires problem.Valid() && problem.initialState.Some? && Linked(arena + [c]) && Linked(arena)
    requires c.parent.Some? && c.parent.value < |arena| && c.action.Some?
    requires ChainActions(arena + [c], |arena|) == ChainActions(arena, c.parent.value) + [c.action.value]
    requires HasKey(problem, arena, c.parent.value)
    ensures HasKey(problem, arena + [c], |arena|)
  {
    var init := problem.initialState.value;
    var actsP := ChainActions(arena, c.parent.value);
    WalkSnoc(init, actsP, c.action.value);
    problem.KeySnoc(Walk(init, actsP), Final(init, actsP + [c.action.value]));
  }

  // ---------------------------------------------------------------------------
  // The graveyard and the priorities

  ghost predicate HasParent(arena: seq<SearchTreeNode>, i: nat)
    requires i < |arena|
  {
    arena[i].parent.Some?
  }

  /** The state of the parent of node i. */
  ghost function ParentState(arena: seq<SearchTreeNode>, i: nat): Pos
    requires Linked(arena) && i < |arena| && HasParent(arena, i)
  {
    arena[arena[i].parent.value].state
  }

  /** The states of the parents of nodes lo .. hi-1. */
  ghost function ParentStates(arena: seq<SearchTreeNode>, lo: nat, hi: nat): set<Pos>
    requires Linked(arena) && hi <= |arena|
  {
    set i | lo <= i < hi && HasParent(arena, i) :: ParentState(arena, i)
  }

  lemma ParentStatesFrame(arena: seq<SearchTreeNode>, c: SearchTreeNode, lo: nat, hi: nat)
    requires Linked(arena + [c]) && hi <= |arena|
    ensures Linked(arena) && ParentStates(arena + [c], lo, hi) == ParentStates(arena, lo, hi)
  {
    LinkedPrefix(arena, c);
    var a' := arena + [c];
    forall i | lo <= i < hi
      ensures HasParent(a', i) == HasParent(arena, i)
      ensures HasParent(arena, i) ==> ParentState(a', i) == ParentState(arena, i)
    {
      assert a'[i] == arena[i];
      if HasParent(arena, i) {
        assert a'[arena[i].parent.value] == arena[arena[i].parent.value];
      }
    }
  }

  lemma ParentStatesSnoc(arena: seq<SearchTreeNode>, lo: nat, hi: nat)
    requires Linked(arena) && lo <= hi < |arena| && arena[hi].parent.Some?
    ensures ParentStates(arena, lo, hi + 1) == ParentStates(arena, lo, hi) + {arena[arena[hi].parent.value].state}
  {
    assert HasParent(arena, hi);
    var before := ParentStates(arena, lo, hi);
    forall x | x in ParentStates(arena, lo, hi + 1)
      ensures x in before + {ParentState(arena, hi)}
    {
      var i :| lo <= i < hi + 1 && HasParent(arena, i) && ParentState(arena, i) == x;
      if i < hi {
        assert x in before;
      }
    }
  }

  /**
   * Since the start of a phase (with arena0 and g0): the arena only grew; the
   * graveyard gained exactly the states of the parents of the new nodes; and each
   * new node has a parent and a state that was not in the graveyard when it was made.
   */
  ghost predicate Grew(arena0: seq<SearchTreeNode>, g0: set<Pos>, arena: seq<SearchTreeNode>, graveyard: set<Pos>)
    requires Linked(arena)
  {
    && arena0 <= arena
    && graveyard == g0 + ParentStates(arena, |arena0|, |arena|)
    && forall i | |arena0| <= i < |arena| :: FreshAt(g0, arena, |arena0|, i)
  }

  /** Node i has a parent and a state not in the graveyard when it was made. */
  ghost predicate FreshAt(g0: set<Pos>, arena: seq<SearchTreeNode>, lo: nat, i: nat)
    requires Linked(arena) && i < |arena|
  {
    arena[i].parent.Some? && arena[i].state !in g0 + ParentStates(arena, lo, i)
  }

  /** Appending a child whose state is not in the graveyard buries its parent's state. */
  lemma GrewAppend(arena0: seq<SearchTreeNode>, g0: set<Pos>, arena: seq<SearchTreeNode>, graveyard: set<Pos>, c: SearchTreeNode)
    requires Linked(arena) && Linked(arena + [c]) && Grew(arena0, g0, arena, graveyard)
    requires c.parent.Some? && c.parent.value < |arena| && c.state !in graveyard
    ensures Grew(arena0, g0, arena + [c], graveyard + {arena[c.parent.value].state})
  {
    ParentStatesFrame(arena, c, |arena0|, |arena|);
    forall i | |arena0| <= i < |arena|
      ensures ParentStates(arena + [c], |arena0|, i) == ParentStates(arena, |arena0|, i)
    {
      ParentStatesFrame(arena, c, |arena0|, i);
    }
    ParentStatesSnoc(arena + [c], |arena0|, |arena|);
    var a' := arena + [c];
    forall i | |arena0| <= i < |a'|
      ensures FreshAt(g0, a', |arena0|, i)
    {
      if i < |arena| {
        assert a'[i] == arena[i] && FreshAt(g0, arena, |arena0|, i);
      }
    }
  }

  /** Key phase: priority = parent's costSoFar + Manhattan distance to the key + entry cost. */
  ghost predicate KeyPriorityOk(problem: MazeProblem, arena: seq<SearchTreeNode>, i: nat)
    requires problem.Valid() && problem.keyState.Some? && Linked(arena) && i < |arena|
  {
    match arena[i].parent
    case None => false
    case Some(p) =>
      var s := arena[i].state;
      var key := problem.keyState.value;
      && problem.InBounds(s)
      && arena[i].priority == arena[p].costSoFar + Abs(key.col - s.col) + Abs(key.row - s.row) + problem.GetCost(s)
  }

  /** Every node from lo on carries its key-phase priority. */
  ghost predicate KeyPrioritiesFrom(problem: MazeProblem, arena: seq<SearchTreeNode>, lo: nat)
    requires problem.Valid() && problem.keyState.Some? && Linked(arena)
  {
    forall i | lo <= i < |arena| :: KeyPriorityOk(problem, arena, i)
  }

  lemma KeyPrioritiesAppend(problem: MazeProblem, arena: seq<SearchTreeNode>, c: SearchTreeNode, lo: nat)
    requires problem.Valid() && problem.keyState.Some? && Linked(arena + [c]) && Linked(arena)
    requires KeyPrioritiesFrom(problem, arena, lo)
    requires KeyPriorityOk(problem, arena + [c], |arena|)
    ensures KeyPrioritiesFrom(problem, arena + [c], lo)
  {
    forall i | lo <= i < |arena|
      ensures KeyPriorityOk(problem, arena + [c], i)
    {
      assert (arena + [c])[i] == arena[i];
      assert KeyPriorityOk(problem, arena, i);
      assert (arena + [c])[arena[i].parent.value] == arena[arena[i].parent.value];
    }
  }

  ghost predicate MinColDist(goals: set<Pos>, s: Pos, d: int) {
    && (exists g | g in goals :: d == Abs(g.col - s.col))
    && forall g {:trigger g in goals} | g in goals :: d <= Abs(g.col - s.col)
  }

  ghost predicate MinRowDist(goals: set<Pos>, s: Pos, d: int) {
    && (exists g | g in goals :: d == Abs(g.row - s.row))
    && forall g {:trigger g in goals} | g in goals :: d <= Abs(g.row - s.row)
  }

  /**
   * The goal-phase heuristic: the least column distance to any goal plus the least
   * row distance to any goal, each minimised on its own; -2 when there are no goals.
   */
  ghost predicate GoalHeuristic(goals: set<Pos>, s: Pos, h: int) {
    if goals == {} then h == -2
    else exists dc, dr :: MinColDist(goals, s, dc) && MinRowDist(goals, s, dr) && h == dc + dr
  }

  /** Goal phase: priority = parent's costSoFar + GoalHeuristic + entry cost. */
  ghost predicate GoalPriorityOk(problem: MazeProblem, arena: seq<SearchTreeNode>, i: nat)
    requires problem.Valid() && Linked(arena) && i < |arena|
  {
    match arena[i].parent
    case None => false
    case Some(p) =>
      var s := arena[i].state;
      && problem.InBounds(s)
      && GoalHeuristic(problem.goalStates, s, arena[i].priority - arena[p].costSoFar - problem.GetCost(s))
  }

  /** Every node from lo on carries its goal-phase priority. */
  ghost predicate GoalPrioritiesFrom(problem: MazeProblem, arena: seq<SearchTreeNode>, lo: nat)
    requires problem.Valid() && Linked(arena)
  {
    forall i | lo <= i < |arena| :: GoalPriorityOk(problem, arena, i)
  }

  lemma GoalPrioritiesAppend(problem: MazeProblem, arena: seq<SearchTreeNode>, c: SearchTreeNode, lo: nat)
    requires problem.Valid() && Linked(arena + [c]) && Linked(arena)
    requires GoalPrioritiesFrom(problem, arena, lo)
    requires GoalPriorityOk(problem, arena + [c], |arena|)
    ensures GoalPrioritiesFrom(problem, arena + [c], lo)
  {
    forall i | lo <= i < |arena|
      ensures GoalPriorityOk(problem, arena + [c], i)
    {
      assert (arena + [c])[i] == arena[i];
      assert GoalPriorityOk(problem, arena, i);
      assert (arena + [c])[arena[i].parent.value] == arena[arena[i].parent.value];
    }
  }

  /**
   * The inner loop of goalFind over the goal states, with both distances starting
   * at -1: the least column distance and the least row distance, or -1 and -1 when
   * there are no goals.
   */
  method GoalDistances(goals: set<Pos>, s: Pos) returns (dc: int, dr: int)
    ensures goals == {} ==> dc == -1 && dr == -1
    ensures goals != {} ==> MinColDist(goals, s, dc) && MinRowDist(goals, s, dr)
  {
    dc, dr := -1, -1;
    var rest := goals;
    while rest != {}
      invariant rest <= goals
      invariant rest == goals ==> dc == -1 && dr == -1
      invariant rest != goals ==> MinColDist(goals - rest, s, dc) && MinRowDist(goals - rest, s, dr)
      decreases rest
    {
      var g :| g in rest;
      ghost var done := goals - rest;
      if dc > Abs(g.col - s.col) || dc == -1 {
        dc := Abs(g.col - s.col);
      }
      if dr > Abs(g.row - s.row) || dr == -1 {
        dr := Abs(g.row - s.row);
      }
      rest := rest - {g};
      assert goals - rest == done + {g};
      forall x | x in goals - rest
        ensures dc <= Abs(x.col - s.col) && dr <= Abs(x.row - s.row)
      {
        if x != g {
          assert x in done;
        }
      }
    }
    assert goals - rest == goals;
  }

  /** The heuristic never exceeds the Manhattan distance to any goal. */
  lemma GoalHeuristicBelowManhattan(goals: set<Pos>, s: Pos, h: int, g: Pos)
    requires GoalHeuristic(goals, s, h) && g in goals
    ensures h <= Abs(g.col - s.col) + Abs(g.row - s.row)
  {
    var dc, dr :| MinColDist(goals, s, dc) && MinRowDist(goals, s, dr) && h == dc + dr;
  }

  /** The heuristic differs from the least Manhattan distance: here it is 0, that distance 5. */
  lemma GoalHeuristicIsNotManhattan()
    ensures GoalHeuristic({Pos(0, 5), Pos(5, 0)}, Pos(0, 0), 0)
    ensures forall g | g in {Pos(0, 5), Pos(5, 0)} :: Abs(g.col) + Abs(g.row) == 5
  {
    var goals := {Pos(0, 5), Pos(5, 0)};
    var s := Pos(0, 0);
    assert MinColDist(goals, s, 0) by {
      assert Pos(0, 5) in goals;
    }
    assert MinRowDist(goals, s, 0) by {
      assert Pos(5, 0) in goals;
    }
  }

  /** PriorityQueue.poll's choice: an index of a frontier node of least priority. */
  method MinPriorityIndex(arena: seq<SearchTreeNode>, frontier: seq<nat>) returns (m: nat)
    requires frontier != [] && forall k | 0 <= k < |frontier| :: frontier[k] < |arena|
    ensures m < |frontier|
    ensures forall k | 0 <= k < |frontier| :: arena[frontier[m]].priority <= arena[frontier[k]].priority
  {
    m := 0;
    for k := 1 to |frontier|
      invariant m < k
      invariant forall j | 0 <= j < k :: arena[frontier[m]].priority <= arena[frontier[j]].priority
    {
      if CompareTo(arena[frontier[m]], arena[frontier[k]]) > 0 {
        m := k;
      }
    }
  }

  /**
   * completeSolution: walks the parent links from node kiddo to the root, putting
   * each action in front of solved.
   */
  method CompleteSolution(arena: seq<SearchTreeNode>, kiddo: nat, solved: seq<Action>) returns (r: seq<Action>)
    requires Linked(arena) && kiddo < |arena|
    ensures r == ChainActions(arena, kiddo) + solved
    ensures |r| == Depth(arena, kiddo) + |solved|
  {
    var node: nat := kiddo;
    r := solved;
    while arena[node].parent.Some?
      invariant node < |arena|
      invariant ChainActions(arena, kiddo) + solved == ChainActions(arena, node) + r
      decreases node
    {
      r := [arena[node].action.value] + r;
      node := arena[node].parent.value;
    }
    ChainLength(arena, kiddo);
  }

  // ---------------------------------------------------------------------------
  // One expansion

  /**
   * The actions of order, in order, whose move from p is legal and leads to a state
   * outside the graveyard g: those for which expanding a node on p makes a child.
   */
  ghost function Unvisited(problem: MazeProblem, p: Pos, g: set<Pos>, order: seq<Action>): seq<Action>
    requires problem.Valid()
    decreases |order|
  {
    if order == [] then []
    else
      var a := order[|order| - 1];
      Unvisited(problem, p, g, order[..|order| - 1])
        + if problem.Legal(p, a) && p.Plus(Offset(a)) !in g then [a] else []
  }

  /** Node n is the child of node e, whose node is p, by action a. */
  ghost predicate IsChild(problem: MazeProblem, p: SearchTreeNode, e: nat, a: Action, n: SearchTreeNode)
    requires problem.Valid()
  {
    && n.parent == Some(e) && n.action == Some(a) && problem.Legal(p.state, a)
    && n.state == p.state.Plus(Offset(a))
    && n.costSoFar == p.costSoFar + problem.GetCost(n.state)
  }

  /** The nodes of arena after arena0 are children of node e by acts, in that order. */
  ghost predicate ChildrenOf(problem: MazeProblem, arena0: seq<SearchTreeNode>, arena: seq<SearchTreeNode>,
                             e: nat, acts: seq<Action>)
    requires problem.Valid() && e < |arena0|
  {
    && arena0 <= arena && |arena| == |arena0| + |acts|
    && forall k | 0 <= k < |acts| :: IsChild(problem, arena0[e], e, acts[k], arena[|arena0| + k])
  }

  lemma ChildrenSnoc(problem: MazeProblem, arena0: seq<SearchTreeNode>, arena: seq<SearchTreeNode>,
                     e: nat, acts: seq<Action>, c: SearchTreeNode)
    requires problem.Valid() && e < |arena0| && ChildrenOf(problem, arena0, arena, e, acts)
    requires c.parent == Some(e) && c.action.Some? && problem.Legal(arena0[e].state, c.action.value)
    requires c.state == arena0[e].state.Plus(Offset(c.action.value))
    requires c.costSoFar == arena0[e].costSoFar + problem.GetCost(c.state)
    ensures ChildrenOf(problem, arena0, arena + [c], e, acts + [c.action.value])
  {
    var a', acts' := arena + [c], acts + [c.action.value];
    assert arena0 <= a';
    forall k | 0 <= k < |acts'|
      ensures IsChild(problem, arena0[e], e, acts'[k], a'[|arena0| + k])
    {
      if k < |acts| {
        assert a'[|arena0| + k] == arena[|arena0| + k] && acts'[k] == acts[k];
      } else {
        assert a'[|arena0| + k] == c && acts'[k] == c.action.value;
      }
    }
  }

  /** Looking at one more action of EntryOrder. */
  lemma UnvisitedNext(problem: MazeProblem, p: Pos, g: set<Pos>, j: nat)
    requires problem.Valid() && j < |EntryOrder|
    ensures Unvisited(problem, p, g, EntryOrder[..j + 1]) == Unvisited(problem, p, g, EntryOrder[..j])
              + if problem.Legal(p, EntryOrder[j]) && p.Plus(Offset(EntryOrder[j])) !in g then [EntryOrder[j]] else []
  {
    assert EntryOrder[..j + 1][..j] == EntryOrder[..j];
  }

  /** A move never stays in place, so burying the mover does not block a target. */
  lemma MoveLeaves(p: Pos, a: Action)
    ensures p.Plus(Offset(a)) != p
  {
  }

  /** A sequence one longer than its prefix a is a with its last element appended. */
  lemma Snoc<T>(a: seq<T>, b: seq<T>)
    requires a <= b && |b| == |a| + 1
    ensures b == a + [b[|a|]]
  {
  }

  /**
   * When no node from lo on is a goal, after one node is appended the nodes from lo
   * on that are goals are the new node, if it is one.
   */
  lemma NewestGoal(problem: MazeProblem, before: seq<SearchTreeNode>, arena: seq<SearchTreeNode>, lo: nat)
    requires problem.Valid() && lo <= |before| && before <= arena && |arena| == |before| + 1
    requires forall k | lo <= k < |before| :: !problem.IsGoalState(before[k].state)
    ensures forall k | lo <= k < |arena| ::
              problem.IsGoalState(arena[k].state) <==> problem.IsGoalState(arena[|before|].state) && k == |before|
  {
    forall k | lo <= k < |before|
      ensures !problem.IsGoalState(arena[k].state)
    {
      assert arena[k] == before[k];
    }
  }

  /** The same for the node on the key. */
  lemma NewestKey(key: Pos, before: seq<SearchTreeNode>, arena: seq<SearchTreeNode>, lo: nat)
    requires lo <= |before| && before <= arena && |arena| == |before| + 1
    requires forall k | lo <= k < |before| :: before[k].state != key
    ensures forall k | lo <= k < |arena| :: arena[k].state == key <==> arena[|before|].state == key && k == |before|
  {
    forall k | lo <= k < |before|
      ensures arena[k].state != key
    {
      assert arena[k] == before[k];
    }
  }

  lemma IndicesNext(f: seq<nat>, lo: nat, hi: nat, next: nat)
    requires lo <= hi && next == hi + 1
    ensures f + Indices(lo, hi) + [hi] == f + Indices(lo, next)
  {
  }

  /** The indices lo .. hi-1, in increasing order. */
  function Indices(lo: nat, hi: nat): (r: seq<nat>)
    requires lo <= hi
    ensures |r| == hi - lo
    decreases hi - lo
  {
    if lo == hi then [] else Indices(lo, hi - 1) + [hi - 1]
  }

  /**
   * goalFind's dead end fires at action EntryOrder[j] of a node on p: the move is
   * legal, its target is in the graveyard g, and no earlier action has added a child.
   */
  ghost predicate DeadEndAt(problem: MazeProblem, p: Pos, g: set<Pos>, j: nat)
    requires problem.Valid() && j < |EntryOrder|
  {
    problem.Legal(p, EntryOrder[j]) && p.Plus(Offset(EntryOrder[j])) in g
    && Unvisited(problem, p, g, EntryOrder[..j]) == []
  }

  /**
   * goalFind's dead end never fired among the first n actions of EntryOrder: alone
   * says the polled node was the only node of the frontier, which the dead end needs.
   */
  ghost predicate NoDeadEnd(problem: MazeProblem, p: Pos, g: set<Pos>, alone: bool, n: nat)
    requires problem.Valid() && n <= |EntryOrder|
  {
    forall j {:trigger DeadEndAt(problem, p, g, j)} | 0 <= j < n :: !(alone && DeadEndAt(problem, p, g, j))
  }

  /** The dead end did not fire at action EntryOrder[j] either. */
  lemma NoDeadEndNext(problem: MazeProblem, p: Pos, g: set<Pos>, alone: bool, j: nat)
    requires problem.Valid() && j < |EntryOrder| && NoDeadEnd(problem, p, g, alone, j)
    requires !(alone && DeadEndAt(problem, p, g, j))
    ensures NoDeadEnd(problem, p, g, alone, j + 1)
  {
  }

  // ---------------------------------------------------------------------------
  // The search

  /** The frontier, the graveyard and the nodes of one call of solve. */
  class Search {
    const problem: MazeProblem
    var arena: seq<SearchTreeNode>
    var frontier: seq<nat>
    var graveyard: set<Pos>

    ghost predicate Valid()
      reads this
    {
      && problem.Valid() && problem.initialState.Some?
      && ArenaOk(problem, arena)
      && forall i | i in frontier :: i < |arena|
    }

    /** The search has grown from (arena0, g0) to its current arena and graveyard. */
    ghost predicate GrewFrom(arena0: seq<SearchTreeNode>, g0: set<Pos>)
      reads this`arena, this`graveyard
      requires Linked(arena)
    {
      Grew(arena0, g0, arena, graveyard)
    }

    ghost predicate FrontierHasKey()
      reads this
      requires Valid()
    {
      forall i {:trigger HasKey(problem, arena, i)} | i in frontier :: HasKey(problem, arena, i)
    }

    /** solve's set-up: the root node in the frontier and its state in the graveyard. */
    constructor (problem: MazeProblem, initial: Pos)
      requires problem.Valid() && problem.initialState == Some(initial)
      ensures Valid() && this.problem == problem
      ensures arena == [SearchTreeNode(initial, None, None, 0, 0)]
      ensures frontier == [0] && graveyard == {initial}
    {
      this.problem := problem;
      arena := [SearchTreeNode(initial, None, None, 0, 0)];
      frontier := [0];
      graveyard := {initial};
      new;
      assert NodeOk(problem, arena, 0);
    }

    /** frontier.poll(): removes and returns a node of least priority. */
    method Poll() returns (e: nat)
      requires Valid() && frontier != []
      modifies this
      ensures Valid() && arena == old(arena) && graveyard == old(graveyard)
      ensures e in old(frontier) && forall i | i in frontier :: i in old(frontier)
      ensures forall i | i in old(frontier) :: arena[e].priority <= arena[i].priority
      ensures multiset(frontier) == multiset(old(frontier)) - multiset{e}
    {
      assert forall k | 0 <= k < |frontier| :: frontier[k] in frontier;
      var m := MinPriorityIndex(arena, frontier);
      e := frontier[m];
      assert frontier == frontier[..m] + [e] + frontier[m + 1..];
      frontier := frontier[..m] + frontier[m + 1..];
      assert forall i | i in frontier :: i in multiset(frontier);
    }

    /** frontier.add(child). */
    method Push(child: nat)
      requires Valid() && child < |arena|
      modifies this
      ensures Valid() && frontier == old(frontier) + [child]
      ensures arena == old(arena) && graveyard == old(graveyard)
      ensures old(FrontierHasKey()) && HasKey(problem, arena, child) ==> FrontierHasKey()
    {
      frontier := frontier + [child];
    }

    /** Makes child c of node e: marks e's state visited and appends c to the arena. */
    method Expand(e: nat, a: Action, s: Pos, priority: int, ghost arena0: seq<SearchTreeNode>, ghost g0: set<Pos>)
      returns (child: nat)
      requires Valid() && GrewFrom(arena0, g0) && e < |arena|
      requires problem.Legal(arena[e].state, a) && s == arena[e].state.Plus(Offset(a)) && s !in graveyard
      modifies this
      ensures Valid() && GrewFrom(arena0, g0)
      ensures frontier == old(frontier) && child == |old(arena)|
      ensures arena == old(arena) + [SearchTreeNode(s, Some(a), Some(e), priority, old(arena)[e].costSoFar + problem.GetCost(s))]
      ensures graveyard == old(graveyard) + {old(arena)[e].state}
      ensures ChainActions(arena, child) == ChainActions(old(arena), e) + [a]
      ensures forall i | 0 <= i < |old(arena)| :: ChainActions(arena, i) == ChainActions(old(arena), i)
    {
      var c := SearchTreeNode(s, Some(a), Some(e), priority, arena[e].costSoFar + problem.GetCost(s));
      AppendChild(problem, arena, c);
      GrewAppend(arena0, g0, arena, graveyard, c);
      graveyard := graveyard + {arena[e].state};
      child := |arena|;
      arena := arena + [c];
    }

    /** The key phase's invariant since its start (arena0, g0). */
    ghost predicate KeyPhase(arena0: seq<SearchTreeNode>, g0: set<Pos>)
      reads this
    {
      && Valid() && problem.keyState.Some? && GrewFrom(arena0, g0)
      && KeyPrioritiesFrom(problem, arena, |arena0|)
    }

    /** The goal phase's invariant since its start (arena0, g0). */
    ghost predicate GoalPhase(arena0: seq<SearchTreeNode>, g0: set<Pos>)
      reads this
    {
      && Valid() && GrewFrom(arena0, g0) && FrontierHasKey()
      && GoalPrioritiesFrom(problem, arena, |arena0|)
    }

    /**
     * The body of keyFind's loop for one transition whose target s is not in the
     * graveyard: bury e's state and create the child with the key heuristic as its
     * priority; a child on the key ends the phase, any other joins the frontier.
     */
    method KeyChild(e: nat, a: Action, s: Pos, ghost arena0: seq<SearchTreeNode>, ghost g0: set<Pos>)
      returns (child: nat, isKey: bool)
      requires KeyPhase(arena0, g0) && e < |arena|
      requires problem.Legal(arena[e].state, a) && s == arena[e].state.Plus(Offset(a)) && s !in graveyard
      modifies this
      ensures KeyPhase(arena0, g0) && child == |old(arena)|
      ensures var key := problem.keyState.value;
              var c := old(arena)[e].costSoFar;
              && |arena| == |old(arena)| + 1 && old(arena) <= arena
              && arena[child] == SearchTreeNode(s, Some(a), Some(e),
                                               c + Abs(key.col - s.col) + Abs(key.row - s.row) + problem.GetCost(s),
                                               c + problem.GetCost(s))
      ensures graveyard == old(graveyard) + {old(arena)[e].state}
      ensures isKey == (s == problem.keyState.value)
      ensures frontier == if isKey then old(frontier) else old(frontier) + [child]
    {
      var key := problem.keyState.value;
      var nextSpaceCost := problem.GetCost(s);
      var priority := arena[e].costSoFar + Abs(key.col - s.col) + Abs(key.row - s.row) + nextSpaceCost;
      ghost var before := arena;
      assert ArenaOk(problem, before);
      child := Expand(e, a, s, priority, arena0, g0);
      assert KeyPriorityOk(problem, arena, child);
      KeyPrioritiesAppend(problem, before, arena[child], |arena0|);
      ghost var after := arena;
      isKey := s == key;
      if !isKey {
        Push(child);
      }
      assert arena == after;
    }

    /**
     * A loop over the transitions of node e has looked at the first j actions of
     * EntryOrder since the arena was arena1 and the graveyard g1; acts got children.
     */
    ghost predicate Scanned(arena1: seq<SearchTreeNode>, g1: set<Pos>, e: nat, j: nat, acts: seq<Action>)
      reads this`arena, this`graveyard
      requires problem.Valid()
    {
      && e < |arena1| && j <= |EntryOrder|
      && acts == Unvisited(problem, arena1[e].state, g1, EntryOrder[..j])
      && ChildrenOf(problem, arena1, arena, e, acts)
      && graveyard == if acts == [] then g1 else g1 + {arena1[e].state}
    }

    /**
     * keyFind's loop over the transitions of node e goes on after looking at the first
     * j actions of EntryOrder, from arena arena1, graveyard g1 and frontier f1: every
     * child so far joined the frontier and none stands on the key.
     */
    ghost predicate KeyGoing(arena1: seq<SearchTreeNode>, g1: set<Pos>, f1: seq<nat>, e: nat, acts: seq<Action>, j: nat)
      reads this
      requires Valid() && problem.keyState.Some?
    {
      && Scanned(arena1, g1, e, j, acts)
      && frontier == f1 + Indices(|arena1|, |arena|)
      && forall k | |arena1| <= k < |arena| :: arena[k].state != problem.keyState.value
    }

    /**
     * How keyFind's loop over the transitions of node e ended, for a scan that began
     * with arena arena1, graveyard g1 and frontier f1 and looked at the first stop
     * actions of EntryOrder: found is the one new node on the key, the newest one,
     * created for the last action looked at; None when all actions were looked at and
     * no child stands on the key.
     */
    ghost predicate KeyEnded(arena1: seq<SearchTreeNode>, g1: set<Pos>, f1: seq<nat>, e: nat,
                             found: Option<nat>, acts: seq<Action>, stop: nat)
      reads this
      requires Valid() && problem.keyState.Some?
    {
      && Scanned(arena1, g1, e, stop, acts)
      && (forall k | |arena1| <= k < |arena| :: arena[k].state == problem.keyState.value <==> found == Some(k))
      && (found.None? ==> stop == |EntryOrder| && frontier == f1 + Indices(|arena1|, |arena|))
      && (found.Some? ==>
            && 0 < stop && acts != [] && acts[|acts| - 1] == EntryOrder[stop - 1] && found.value == |arena| - 1
            && frontier == f1 + Indices(|arena1|, found.value))
    }

    /**
     * The branch of keyFind's loop for action EntryOrder[j] of node e when its target
     * s is not in the graveyard: create the child (KeyChild); found is the child when
     * it stands on the key.
     */
    method KeyAdd(e: nat, s: Pos, j: nat, ghost acts: seq<Action>,
                  ghost arena0: seq<SearchTreeNode>, ghost g0: set<Pos>,
                  ghost arena1: seq<SearchTreeNode>, ghost g1: set<Pos>, ghost f1: seq<nat>)
      returns (found: Option<nat>)
      requires KeyPhase(arena0, g0) && j < |EntryOrder| && Scanned(arena1, g1, e, j, acts)
      requires problem.Legal(arena1[e].state, EntryOrder[j]) && s == arena1[e].state.Plus(Offset(EntryOrder[j]))
      requires s !in graveyard
      requires frontier == f1 + Indices(|arena1|, |arena|)
      requires forall k | |arena1| <= k < |arena| :: arena[k].state != problem.keyState.value
      modifies this
      ensures ChildrenOf(problem, arena1, arena, e, acts + [EntryOrder[j]]) && graveyard == g1 + {arena1[e].state}
      ensures KeyPhase(arena0, g0)
      ensures found.None? ==> frontier == f1 + Indices(|arena1|, |arena|)
      ensures found.None? ==> forall k | |arena1| <= k < |arena| :: arena[k].state != problem.keyState.value
      ensures found.Some? ==>
                && found.value == |arena| - 1 && frontier == f1 + Indices(|arena1|, found.value)
                && forall k | |arena1| <= k < |arena| :: arena[k].state == problem.keyState.value <==> k == found.value
    {
      ghost var before := arena;
      var child, isKey := KeyChild(e, EntryOrder[j], s, arena0, g0);
      Snoc(before, arena);
      ChildrenSnoc(problem, arena1, before, e, acts, arena[child]);
      NewestKey(problem.keyState.value, before, arena, |arena1|);
      if isKey {
        found := Some(child);
      } else {
        IndicesNext(f1, |arena1|, |before|, |arena|);
        found := None;
      }
    }

    /** What KeyAdd leaves behind is how the scan goes on, or how it ends. */
    lemma KeyAdded(arena1: seq<SearchTreeNode>, g1: set<Pos>, f1: seq<nat>, e: nat, acts: seq<Action>, j: nat,
                   found: Option<nat>)
      requires Valid() && problem.keyState.Some? && j < |EntryOrder| && e < |arena1|
      requires acts == Unvisited(problem, arena1[e].state, g1, EntryOrder[..j])
      requires problem.Legal(arena1[e].state, EntryOrder[j]) && arena1[e].state.Plus(Offset(EntryOrder[j])) !in g1
      requires ChildrenOf(problem, arena1, arena, e, acts + [EntryOrder[j]]) && graveyard == g1 + {arena1[e].state}
      requires found.None? ==> frontier == f1 + Indices(|arena1|, |arena|)
      requires found.None? ==> forall k | |arena1| <= k < |arena| :: arena[k].state != problem.keyState.value
      requires found.Some? ==>
                 && found.value == |arena| - 1 && frontier == f1 + Indices(|arena1|, found.value)
                 && forall k | |arena1| <= k < |arena| :: arena[k].state == problem.keyState.value <==> k == found.value
      ensures found.None? ==> KeyGoing(arena1, g1, f1, e, acts + [EntryOrder[j]], j + 1)
      ensures found.Some? ==> KeyEnded(arena1, g1, f1, e, found, acts + [EntryOrder[j]], j + 1)
    {
      UnvisitedNext(problem, arena1[e].state, g1, j);
    }

    /**
     * One pass of keyFind's loop over the transitions of node e: if action
     * EntryOrder[j] is legal and its target is not in the graveyard, create that
     * child (KeyChild); found is the child when it stands on the key.
     */
    method KeyVisit(e: nat, trans: map<Action, Pos>, j: nat, ghost acts: seq<Action>,
                    ghost arena0: seq<SearchTreeNode>, ghost g0: set<Pos>,
                    ghost arena1: seq<SearchTreeNode>, ghost g1: set<Pos>, ghost f1: seq<nat>)
      returns (found: Option<nat>, ghost acts': seq<Action>)
      requires KeyPhase(arena0, g0) && j < |EntryOrder| && KeyGoing(arena1, g1, f1, e, acts, j)
      requires forall a :: a in trans <==> problem.Legal(arena1[e].state, a)
      requires forall a | a in trans :: trans[a] == arena1[e].state.Plus(Offset(a))
      modifies this
      ensures KeyPhase(arena0, g0)
      ensures found.None? ==> KeyGoing(arena1, g1, f1, e, acts', j + 1)
      ensures found.Some? ==> KeyEnded(arena1, g1, f1, e, found, acts', j + 1)
    {
      var es := arena1[e].state;
      var action := EntryOrder[j];
      UnvisitedNext(problem, es, g1, j);
      acts', found := acts, None;
      if action in trans {
        var s := trans[action];
        MoveLeaves(es, action);
        if s !in graveyard {
          found := KeyAdd(e, s, j, acts, arena0, g0, arena1, g1, f1);
          KeyAdded(arena1, g1, f1, e, acts, j, found);
          acts' := acts + [action];
        }
      }
    }

    /**
     * keyFind's loop over the transitions of node e, in EntryOrder, up to the first
     * child on the key. stop is the number of actions looked at and acts the actions
     * that got a child.
     */
    method KeyScan(e: nat, ghost arena0: seq<SearchTreeNode>, ghost g0: set<Pos>)
      returns (found: Option<nat>, ghost acts: seq<Action>, ghost stop: nat)
      requires KeyPhase(arena0, g0) && e < |arena|
      modifies this
      ensures KeyPhase(arena0, g0)
      ensures KeyEnded(old(arena), old(graveyard), old(frontier), e, found, acts, stop)
    {
      var trans := problem.GetTransitions(arena[e].state);
      acts := [];
      for j := 0 to |EntryOrder|
        invariant KeyPhase(arena0, g0) && KeyGoing(old(arena), old(graveyard), old(frontier), e, acts, j)
      {
        found, acts := KeyVisit(e, trans, j, acts, arena0, g0, old(arena), old(graveyard), old(frontier));
        if found.Some? {
          stop := j + 1;
          return;
        }
      }
      found, stop := None, |EntryOrder|;
    }

    /**
     * One call of keyFind on a non-empty frontier, up to its recursive call: poll a
     * node e of least priority, leaving the frontier polled, and scan its transitions
     * (KeyScan).
     */
    method KeyStep(ghost arena0: seq<SearchTreeNode>, ghost g0: set<Pos>)
      returns (found: Option<nat>, ghost e: nat, ghost polled: seq<nat>, ghost acts: seq<Action>, ghost stop: nat)
      requires KeyPhase(arena0, g0) && frontier != []
      modifies this
      ensures KeyPhase(arena0, g0)
      ensures e in old(frontier) && forall i | i in old(frontier) :: old(arena)[e].priority <= old(arena)[i].priority
      ensures stop <= |EntryOrder| && acts == Unvisited(problem, old(arena)[e].state, old(graveyard), EntryOrder[..stop])
      ensures ChildrenOf(problem, old(arena), arena, e, acts)
      ensures graveyard == if acts == [] then old(graveyard) else old(graveyard) + {old(arena)[e].state}
      ensures forall k | |old(arena)| <= k < |arena| :: arena[k].state == problem.keyState.value <==> found == Some(k)
      ensures found.None? ==> stop == |EntryOrder|
      ensures found.Some? ==> 0 < stop && acts != [] && acts[|acts| - 1] == EntryOrder[stop - 1] && found.value == |arena| - 1
      ensures found.Some? ==> |arena0| <= found.value < |arena| && arena[found.value].state == problem.keyState.value
      ensures multiset(polled) == multiset(old(frontier)) - multiset{e}
      ensures found.Some? ==> frontier == polled + Indices(|old(arena)|, found.value)
      ensures found.None? ==> frontier == polled + Indices(|old(arena)|, |arena|)
    {
      var expanding := Poll();
      e, polled := expanding, frontier;
      found, acts, stop := KeyScan(expanding, arena0, g0);
    }

    /**
     * keyFind, its tail recursion as a loop of at most fuel expansions: null once
     * the frontier is empty, otherwise the first child found on the key.
     */
    method KeyFind(fuel: nat) returns (r: Fueled<Option<nat>>)
      requires Valid() && problem.keyState.Some?
      modifies this
      ensures KeyPhase(old(arena), old(graveyard))
      ensures old(frontier) == [] ==> r == Return(None)
      ensures r == Return(None) ==> frontier == []
      ensures r == OutOfFuel ==> frontier != []
      ensures r.Return? && r.value.Some? ==>
                && |old(arena)| <= r.value.value < |arena| && arena[r.value.value].parent.Some?
                && arena[r.value.value].state == problem.keyState.value
    {
      assert GrewFrom(arena, graveyard);
      var f := fuel;
      while true
        invariant KeyPhase(old(arena), old(graveyard))
        invariant old(frontier) == [] ==> frontier == []
        decreases f
      {
        if frontier == [] {
          return Return(None);
        }
        if f == 0 {
          return OutOfFuel;
        }
        f := f - 1;
        var found, _, _, _, _ := KeyStep(old(arena), old(graveyard));
        if found.Some? {
          assert FreshAt(old(graveyard), arena, |old(arena)|, found.value);
          return Return(found);
        }
      }
    }

    /** Between the phases: the frontier becomes the key node alone, the graveyard empty. */
    method Restart(k: nat)
      requires Valid() && k < |arena|
      modifies this
      ensures Valid() && arena == old(arena)
      ensures frontier == [k] && graveyard == {}
    {
      frontier := [k];
      graveyard := {};
    }

    /**
     * Expands node e by action a onto s, not in the graveyard: buries e's state and
     * appends the child with the goal heuristic as its priority.
     */
    method GoalExpand(e: nat, a: Action, s: Pos, ghost arena0: seq<SearchTreeNode>, ghost g0: set<Pos>)
      returns (child: nat)
      requires GoalPhase(arena0, g0) && e < |arena| && HasKey(problem, arena, e)
      requires problem.Legal(arena[e].state, a) && s == arena[e].state.Plus(Offset(a)) && s !in graveyard
      modifies this
      ensures GoalPhase(arena0, g0) && child == |old(arena)| && frontier == old(frontier)
      ensures |arena| == |old(arena)| + 1 && old(arena) <= arena
      ensures arena[child] == SearchTreeNode(s, Some(a), Some(e), arena[child].priority,
                                             old(arena)[e].costSoFar + problem.GetCost(s))
      ensures GoalHeuristic(problem.goalStates, s, arena[child].priority - old(arena)[e].costSoFar - problem.GetCost(s))
      ensures graveyard == old(graveyard) + {old(arena)[e].state}
      ensures HasKey(problem, arena, child) && HasKey(problem, arena, e)
    {
      var nextSpaceCost := problem.GetCost(s);
      var dc, dr := GoalDistances(problem.GetGoalStates(), s);
      var priority := arena[e].costSoFar + dc + dr + nextSpaceCost;
      ghost var before := arena;
      assert ArenaOk(problem, before);
      child := Expand(e, a, s, priority, arena0, g0);
      assert arena[child] == SearchTreeNode(s, Some(a), Some(e), priority, before[e].costSoFar + nextSpaceCost);
      assert GoalPriorityOk(problem, arena, child);
      GoalPrioritiesAppend(problem, before, arena[child], |arena0|);
      ChildHasKey(problem, before, arena[child]);
      forall i | i in frontier
        ensures HasKey(problem, arena, i)
      {
        assert HasKey(problem, before, i);
      }
    }

    /**
     * The branch of goalFind's loop for action EntryOrder[j] of node e when its target
     * s is not in the graveyard: create the child (GoalExpand), and return its
     * solution (completeSolution) when it is a goal; otherwise the loop goes on.
     */
    method GoalAdd(e: nat, s: Pos, j: nat, ghost acts: seq<Action>,
                   ghost arena0: seq<SearchTreeNode>, ghost g0: set<Pos>,
                   ghost arena1: seq<SearchTreeNode>, ghost g1: set<Pos>, ghost f1: seq<nat>)
      returns (result: Option<Option<seq<Action>>>, ghost goal: nat)
      requires GoalPhase(arena0, g0) && j < |EntryOrder| && Scanned(arena1, g1, e, j, acts) && HasKey(problem, arena, e)
      requires problem.Legal(arena1[e].state, EntryOrder[j]) && s == arena1[e].state.Plus(Offset(EntryOrder[j]))
      requires s !in graveyard
      requires frontier == f1 + Indices(|arena1|, |arena|)
      requires forall k | |arena1| <= k < |arena| :: !problem.IsGoalState(arena[k].state)
      modifies this
      ensures ChildrenOf(problem, arena1, arena, e, acts + [EntryOrder[j]]) && graveyard == g1 + {arena1[e].state}
      ensures GoalPhase(arena0, g0) && HasKey(problem, arena, e)
      ensures result.Some? ==> result.value.Some?
      ensures result.None? ==>
                && frontier == f1 + Indices(|arena1|, |arena|)
                && forall k | |arena1| <= k < |arena| :: !problem.IsGoalState(arena[k].state)
      ensures result.Some? ==>
                && goal == |arena| - 1 && frontier == f1 + Indices(|arena1|, goal)
                && (forall k | |arena1| <= k < |arena| :: problem.IsGoalState(arena[k].state) <==> k == goal)
                && HasKey(problem, arena, goal) && result.value.value == ChainActions(arena, goal)
    {
      ghost var before := arena;
      var child := GoalExpand(e, EntryOrder[j], s, arena0, g0);
      Snoc(before, arena);
      ChildrenSnoc(problem, arena1, before, e, acts, arena[child]);
      var isGoal := problem.IsGoalState(s);
      if !isGoal {
        Push(child);
      }
      NewestGoal(problem, before, arena, |arena1|);
      goal := child;
      if isGoal {
        var solution := CompleteSolution(arena, child, []);
        result := Some(Some(solution));
      } else {
        IndicesNext(f1, |arena1|, |before|, |arena|);
        result := None;
      }
    }

    /**
     * goalFind's loop over the transitions of node e goes on after looking at the
     * first j actions of EntryOrder, from arena arena1, graveyard g1 and frontier f1:
     * every child so far joined the frontier, none is a goal and no action so far was
     * a dead end.
     */
    ghost predicate GoalGoing(arena1: seq<SearchTreeNode>, g1: set<Pos>, f1: seq<nat>, e: nat, acts: seq<Action>, j: nat)
      reads this
      requires Valid()
    {
      && Scanned(arena1, g1, e, j, acts) && HasKey(problem, arena, e)
      && frontier == f1 + Indices(|arena1|, |arena|)
      && (forall k | |arena1| <= k < |arena| :: !problem.IsGoalState(arena[k].state))
      && NoDeadEnd(problem, arena1[e].state, g1, f1 == [], j)
    }

    /**
     * How goalFind's loop over the transitions of node e ended, for a scan that began
     * with arena arena1, graveyard g1 and frontier f1 and looked at the first stop
     * actions of EntryOrder: None when it looked at all of them and created no goal
     * child; Some(None) when the last action looked at led into the graveyard while
     * the frontier was empty and nothing was visited; Some(Some(path)) when the last
     * action looked at created the goal child goal, the newest node, and path is the
     * action chain leading to it. No action before those ones was a dead end.
     */
    ghost predicate GoalEnded(arena1: seq<SearchTreeNode>, g1: set<Pos>, f1: seq<nat>, e: nat,
                              result: Option<Option<seq<Action>>>, goal: nat, acts: seq<Action>, stop: nat)
      reads this
      requires Valid()
    {
      && Scanned(arena1, g1, e, stop, acts)
      && (forall k | |arena1| <= k < |arena| ::
            problem.IsGoalState(arena[k].state) <==> result.Some? && result.value.Some? && k == goal)
      && (result.None? ==> stop == |EntryOrder| && frontier == f1 + Indices(|arena1|, |arena|))
      && (result == Some(None) ==>
            && 0 < stop && acts == [] && f1 == [] && frontier == []
            && problem.Legal(arena1[e].state, EntryOrder[stop - 1])
            && arena1[e].state.Plus(Offset(EntryOrder[stop - 1])) in g1
            && NoDeadEnd(problem, arena1[e].state, g1, f1 == [], stop - 1))
      && (result.Some? && result.value.Some? ==>
            && 0 < stop && acts != [] && acts[|acts| - 1] == EntryOrder[stop - 1] && goal == |arena| - 1
            && frontier == f1 + Indices(|arena1|, goal)
            && problem.IsGoalState(arena[goal].state) && HasKey(problem, arena, goal)
            && result.value.value == ChainActions(arena, goal))
      && (result != Some(None) ==> NoDeadEnd(problem, arena1[e].state, g1, f1 == [], stop))
    }

    /** What GoalAdd leaves behind is how the scan goes on, or how it ends. */
    lemma GoalAdded(arena1: seq<SearchTreeNode>, g1: set<Pos>, f1: seq<nat>, e: nat, acts: seq<Action>, j: nat,
                    result: Option<Option<seq<Action>>>, goal: nat)
      requires Valid() && j < |EntryOrder| && e < |arena1|
      requires acts == Unvisited(problem, arena1[e].state, g1, EntryOrder[..j])
      requires NoDeadEnd(problem, arena1[e].state, g1, f1 == [], j)
      requires problem.Legal(arena1[e].state, EntryOrder[j]) && arena1[e].state.Plus(Offset(EntryOrder[j])) !in g1
      requires ChildrenOf(problem, arena1, arena, e, acts + [EntryOrder[j]]) && graveyard == g1 + {arena1[e].state}
      requires HasKey(problem, arena, e)
      requires result.Some? ==> result.value.Some?
      requires result.None? ==>
                 && frontier == f1 + Indices(|arena1|, |arena|)
                 && forall k | |arena1| <= k < |arena| :: !problem.IsGoalState(arena[k].state)
      requires result.Some? ==>
                 && goal == |arena| - 1 && frontier == f1 + Indices(|arena1|, goal)
                 && (forall k | |arena1| <= k < |arena| :: problem.IsGoalState(arena[k].state) <==> k == goal)
                 && HasKey(problem, arena, goal) && result.value.value == ChainActions(arena, goal)
      ensures result.None? ==> GoalGoing(arena1, g1, f1, e, acts + [EntryOrder[j]], j + 1)
      ensures result.Some? ==> GoalEnded(arena1, g1, f1, e, result, goal, acts + [EntryOrder[j]], j + 1)
    {
      UnvisitedNext(problem, arena1[e].state, g1, j);
      NoDeadEndNext(problem, arena1[e].state, g1, f1 == [], j);
    }

    /**
     * One pass of goalFind's loop over the transitions of node e: if action
     * EntryOrder[j] is legal and its target is not in the graveyard, create that
     * child (GoalAdd) and return its solution when it is a goal; if the target is
     * in the graveyard while the frontier is empty, return null. None means the loop
     * goes on.
     */
    method GoalVisit(e: nat, trans: map<Action, Pos>, j: nat, ghost acts: seq<Action>,
                     ghost arena0: seq<SearchTreeNode>, ghost g0: set<Pos>,
                     ghost arena1: seq<SearchTreeNode>, ghost g1: set<Pos>, ghost f1: seq<nat>)
      returns (result: Option<Option<seq<Action>>>, ghost goal: nat, ghost acts': seq<Action>)
      requires GoalPhase(arena0, g0) && j < |EntryOrder| && GoalGoing(arena1, g1, f1, e, acts, j)
      requires forall a :: a in trans <==> problem.Legal(arena1[e].state, a)
      requires forall a | a in trans :: trans[a] == arena1[e].state.Plus(Offset(a))
      modifies this
      ensures GoalPhase(arena0, g0)
      ensures result.None? ==> GoalGoing(arena1, g1, f1, e, acts', j + 1)
      ensures result.Some? ==> GoalEnded(arena1, g1, f1, e, result, goal, acts', j + 1)
    {
      var es := arena1[e].state;
      var action := EntryOrder[j];
      UnvisitedNext(problem, es, g1, j);
      assert EntryOrder[..j + 1][..j] == EntryOrder[..j];
      acts', result, goal := acts, None, 0;
      if action in trans {
        var s := trans[action];
        MoveLeaves(es, action);
        if s !in graveyard {
          result, goal := GoalAdd(e, s, j, acts, arena0, g0, arena1, g1, f1);
          GoalAdded(arena1, g1, f1, e, acts, j, result, goal);
          acts' := acts + [action];
        } else if frontier == [] {
          assert |Indices(|arena1|, |arena|)| == 0;
          result := Some(None);
        } else {
          assert f1 == [] ==> acts != [] by {
            if f1 == [] {
              assert |Indices(|arena1|, |arena|)| > 0;
            }
          }
          NoDeadEndNext(problem, es, g1, f1 == [], j);
        }
      } else {
        NoDeadEndNext(problem, es, g1, f1 == [], j);
      }
    }

    /**
     * goalFind's loop over the transitions of node e, in EntryOrder, up to the first
     * goal child or the first target met in the graveyard while the frontier is
     * empty. stop is the number of actions looked at and acts the actions that got a
     * child.
     */
    method GoalScan(e: nat, ghost arena0: seq<SearchTreeNode>, ghost g0: set<Pos>)
      returns (result: Option<Option<seq<Action>>>, ghost goal: nat, ghost acts: seq<Action>, ghost stop: nat)
      requires GoalPhase(arena0, g0) && e < |arena| && HasKey(problem, arena, e)
      modifies this
      ensures GoalPhase(arena0, g0)
      ensures GoalEnded(old(arena), old(graveyard), old(frontier), e, result, goal, acts, stop)
    {
      var trans := problem.GetTransitions(arena[e].state);
      acts, goal := [], 0;
      for j := 0 to |EntryOrder|
        invariant GoalPhase(arena0, g0) && GoalGoing(old(arena), old(graveyard), old(frontier), e, acts, j)
      {
        result, goal, acts := GoalVisit(e, trans, j, acts, arena0, g0, old(arena), old(graveyard), old(frontier));
        if result.Some? {
          stop := j + 1;
          return;
        }
      }
      result, stop := None, |EntryOrder|;
    }

    /**
     * One call of goalFind on a non-empty frontier, up to its recursive call: poll a
     * node e of least priority, leaving the frontier polled, and scan its transitions
     * (GoalScan). None means the call recurses.
     */
    method GoalStep(ghost arena0: seq<SearchTreeNode>, ghost g0: set<Pos>)
      returns (result: Option<Option<seq<Action>>>, ghost goal: nat,
               ghost e: nat, ghost polled: seq<nat>, ghost acts: seq<Action>, ghost stop: nat)
      requires GoalPhase(arena0, g0) && frontier != []
      modifies this
      ensures GoalPhase(arena0, g0)
      ensures e in old(frontier) && forall i | i in old(frontier) :: old(arena)[e].priority <= old(arena)[i].priority
      ensures multiset(polled) == multiset(old(frontier)) - multiset{e}
      ensures stop <= |EntryOrder| && acts == Unvisited(problem, old(arena)[e].state, old(graveyard), EntryOrder[..stop])
      ensures ChildrenOf(problem, old(arena), arena, e, acts)
      ensures graveyard == if acts == [] then old(graveyard) else old(graveyard) + {old(arena)[e].state}
      ensures forall k | |old(arena)| <= k < |arena| ::
                problem.IsGoalState(arena[k].state) <==> result.Some? && result.value.Some? && k == goal
      ensures result.None? ==> stop == |EntryOrder| && frontier == polled + Indices(|old(arena)|, |arena|)
      ensures result == Some(None) ==>
                && 0 < stop && acts == [] && polled == [] && frontier == []
                && problem.Legal(old(arena)[e].state, EntryOrder[stop - 1])
                && old(arena)[e].state.Plus(Offset(EntryOrder[stop - 1])) in old(graveyard)
      ensures result.Some? && result.value.Some? ==>
                && 0 < stop && acts != [] && acts[|acts| - 1] == EntryOrder[stop - 1]
                && |arena0| <= |old(arena)| <= goal == |arena| - 1
                && frontier == polled + Indices(|old(arena)|, goal)
                && problem.IsGoalState(arena[goal].state) && HasKey(problem, arena, goal)
                && result.value.value == ChainActions(arena, goal)
      ensures result == Some(None) ==> NoDeadEnd(problem, old(arena)[e].state, old(graveyard), polled == [], stop - 1)
      ensures result != Some(None) ==> NoDeadEnd(problem, old(arena)[e].state, old(graveyard), polled == [], stop)
    {
      var expanding := Poll();
      assert HasKey(problem, arena, expanding);
      e, polled := expanding, frontier;
      result, goal, acts, stop := GoalScan(expanding, arena0, g0);
    }

    /**
     * goalFind, its tail recursion as a loop of at most fuel calls. With an empty
     * frontier on entry the source recurses forever; here that exhausts the fuel.
     */
    method GoalFind(fuel: nat) returns (r: Fueled<Option<seq<Action>>>, ghost goal: nat)
      requires Valid() && FrontierHasKey()
      modifies this
      ensures GoalPhase(old(arena), old(graveyard))
      ensures old(frontier) == [] ==> r == OutOfFuel
      ensures r == Return(None) ==> frontier == []
      ensures r.Return? && r.value.Some? ==>
                && |old(arena)| <= goal < |arena|
                && problem.IsGoalState(arena[goal].state) && HasKey(problem, arena, goal)
                && r.value.value == ChainActions(arena, goal)
    {
      assert GrewFrom(arena, graveyard);
      goal := 0;
      var f := fuel;
      while true
        invariant GoalPhase(old(arena), old(graveyard))
        invariant old(frontier) == [] ==> frontier == []
        decreases f
      {
        if f == 0 {
          return OutOfFuel, goal;
        }
        f := f - 1;
        if frontier != [] {
          var result;
          ghost var e, polled, acts, stop;
          result, goal, e, polled, acts, stop := GoalStep(old(arena), old(graveyard));
          if result.Some? {
            return Return(result.value), goal;
          }
        }
      }
    }
  }

  /**
   * solve: null when the maze has no key; a returned list is goalFind's solution,
   * the chain of a goal node of the final arena, and replays as a solution of the
   * maze whose cost is that node's costSoFar. The ghost keyRun only records what the
   * body's call of keyFind returned (None when it was not called), and the clauses
   * about it describe that call; they do not bind r for callers.
   */
  method Solve(problem: MazeProblem, fuel: nat)
    returns (r: Fueled<Option<seq<Action>>>, ghost keyRun: Option<Fueled<Option<nat>>>,
             ghost nodes: seq<SearchTreeNode>, ghost goal: nat, ghost cost: int)
    requires problem.Valid() && problem.initialState.Some?
    ensures problem.keyState.None? ==> r == Return(None)
    ensures keyRun.None? <==> problem.keyState.None?
    ensures keyRun.None? || keyRun == Some(Return(None)) ==> r == Return(None)
    ensures keyRun == Some(OutOfFuel) ==> r == OutOfFuel
    ensures keyRun.Some? && keyRun.value.Return? && keyRun.value.value.Some? ==>
              var k := keyRun.value.value.value;
              ArenaOk(problem, nodes) && 0 < k < |nodes| && nodes[k].state == problem.keyState.value
    ensures r.Return? && r.value.Some? ==>
              && ArenaOk(problem, nodes) && goal < |nodes|
              && r.value.value == ChainActions(nodes, goal)
              && problem.IsGoalState(nodes[goal].state) && cost == nodes[goal].costSoFar
              && problem.ReplayInBounds(Walk(problem.initialState.value, r.value.value))
              && problem.Verdict(problem.initialState.value, r.value.value) == MazeTestResult(true, cost)
  {
    var first := problem.GetInitialState();
    var search := new Search(problem, first.Value());
    keyRun, goal, cost := None, 0, 0;
    var keyNode: Option<nat> := None;
    var keyState := problem.GetKeyState();
    if keyState != null {
      var k := search.KeyFind(fuel);
      keyRun := Some(k);
      nodes := search.arena;
      if k.OutOfFuel? {
        return OutOfFuel, keyRun, nodes, goal, cost;
      }
      keyNode := k.value;
    }
    nodes := search.arena;
    var keyAgain := problem.GetKeyState();
    if keyNode.None? || keyAgain == null {
      return Return(None), keyRun, nodes, goal, cost;
    }
    var k := keyNode.value;
    KeyNodeHasKey(problem, search.arena, k);
    search.Restart(k);
    r, goal := search.GoalFind(fuel);
    nodes := search.arena;
    if r.Return? && r.value.Some? {
      ChainReplays(problem, nodes, goal);
      var w := Walk(problem.initialState.value, r.value.value);
      problem.ReplayClear(w);
      cost := nodes[goal].costSoFar;
    }
  }

  /**
   * Validation soundness: whatever solve returns, testSolution accepts, at the cost
   * of the goal node solve reached.
   */
  method SolveAndTest(problem: MazeProblem, fuel: nat)
    returns (r: Fueled<Option<seq<Action>>>, t: MazeTestResult,
             ghost nodes: seq<SearchTreeNode>, ghost goal: nat)
    requires problem.Valid() && problem.initialState.Some?
    ensures r.Return? && r.value.Some? ==>
              && ArenaOk(problem, nodes) && goal < |nodes| && r.value.value == ChainActions(nodes, goal)
              && t == MazeTestResult(true, nodes[goal].costSoFar)
              && |r.value.value| <= t.cost <= 3 * |r.value.value|
    ensures !(r.Return? && r.value.Some?) ==> t == MazeTestResult(false, -1)
  {
    ghost var keyRun, cost;
    r, keyRun, nodes, goal, cost := Solve(problem, fuel);
    if r.Return? && r.value.Some? {
      problem.VerdictCost(problem.initialState.value, r.value.value);
      t := problem.TestSolution(Some(r.value.value));
    } else {
      t := problem.TestSolution(None);
    }
  }
}
