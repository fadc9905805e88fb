/** SearchTreeNode: one node of the search tree, ordered by priority. */
module Tree {
  import opened Wrappers
  import opened Coordinates
  import opened Maze

  /**
   * The fields in the order the constructor takes them (priority before costSoFar).
   * The parent reference is the parent's index in the arena of nodes of the whole
   * search (see Pathfinding); the root has neither action nor parent.
   */
  datatype SearchTreeNode = SearchTreeNode(
    state: Pos,
    action: Option<Action>,
    parent: Option<nat>,
    priority: int,
    costSoFar: int)

  /** compareTo: 1 if this node's priority is greater, -1 otherwise; never 0. */
  function CompareTo(a: SearchTreeNode, b: SearchTreeNode): (r: int)
    ensures r == 1 <==> a.priority > b.priority
    ensures r == -1 <==> a.priority <= b.priority
  {
    if a.priority > b.priority then 1
    else if a.priority <= b.priority then -1
    else 0
  }

  lemma CompareToNeverZero(a: SearchTreeNode, b: SearchTreeNode)
    ensures CompareTo(a, b) != 0
  {
  }

  /** A node is "less" than itself, so the ordering is not a strict weak order. */
  lemma CompareToSelf(a: SearchTreeNode)
    ensures CompareTo(a, a) == -1
  {
  }

  /** When the priorities differ the comparison is antisymmetric. */
  lemma CompareToAntisymmetric(a: SearchTreeNode, b: SearchTreeNode)
    requires a.priority != b.priority
    ensures CompareTo(a, b) == -CompareTo(b, a)
  {
  }

  /** When they are equal, each node compares below the other. */
  lemma CompareToEqualPriorities(a: SearchTreeNode, b: SearchTreeNode)
    requires a.priority == b.priority
    ensures CompareTo(a, b) == -1 && CompareTo(b, a) == -1
  {
  }
}
