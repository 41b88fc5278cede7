/** The Monte Carlo tree search nodes, kept in an arena.

    A tree is a sequence of nodes; a node names its parent and its children
    by index. A parent always sits at a smaller index than its child, so the
    walk from a node to the root ends. */
module Mcts {
  import opened Options
  import opened Board

  datatype Node = Node(state: GameState, parent: Option<nat>, children: seq<nat>, wins: int, visits: nat)

  type Tree = seq<Node>

  /** A freshly created node: no children and no statistics yet. */
  function NewNode(state: GameState, parent: Option<nat>): (n: Node)
    ensures n.state == state && n.parent == parent
    ensures n.children == [] && n.wins == 0 && n.visits == 0
  {
    Node(state, parent, [], 0, 0)
  }

  /** Node `i` holds a well-formed board, its parent comes before it, and
      each of its children comes after it and names it as parent. A node may
      name a parent without being listed among that parent's children: the
      search creates such nodes (see `AddNode`). */
  predicate NodeOk(t: Tree, i: nat)
    requires i < |t|
  {
    && ValidBoard(t[i].state.board)
    && (t[i].parent.Some? ==> t[i].parent.value < i)
    && forall k :: 0 <= k < |t[i].children| ==>
         i < t[i].children[k] < |t| && t[t[i].children[k]].parent == Some(i)
  }

  predicate ValidTree(t: Tree) {
    forall i: nat :: i < |t| ==> NodeOk(t, i)
  }

  /** The legal moves of the position held by node `i`. */
  function Moves(t: Tree, i: nat): seq<nat>
    requires ValidTree(t) && i < |t|
  {
    assert NodeOk(t, i);
    LegalMoves(t[i].state)
  }

  /** The state reached from node `i` by the j-th of its legal moves, made
      on a copy of the node's state. */
  function Successor(t: Tree, i: nat, j: nat): GameState
    requires ValidTree(t) && i < |t| && j < |Moves(t, i)|
  {
    assert NodeOk(t, i);
    MakeMove(Copy(t[i].state), Moves(t, i)[j])
  }

  /** The k-th child of node `i`. */
  function Child(t: Tree, i: nat, k: nat): Node
    requires ValidTree(t) && i < |t| && k < |t[i].children|
  {
    assert NodeOk(t, i);
    t[t[i].children[k]]
  }

  /** A one-node tree for the position to decide on. */
  function NewTree(root: GameState): (t: Tree)
    requires ValidBoard(root.board)
    ensures ValidTree(t) && |t| == 1 && t[0].parent.None? && t[0].state == root
    ensures t[0].children == [] && t[0].wins == 0 && t[0].visits == 0
  {
    var t := [NewNode(root, None)];
    assert NodeOk(t, 0);
    t
  }

  /** The two trees agree on everything but the statistics. */
  predicate SameShape(t: Tree, u: Tree) {
    && |t| == |u|
    && forall i :: 0 <= i < |t| ==>
         t[i].state == u[i].state && t[i].parent == u[i].parent && t[i].children == u[i].children
  }

  lemma SameShapeKeepsValid(t: Tree, u: Tree)
    requires SameShape(t, u) && ValidTree(t)
    ensures ValidTree(u)
  {
    forall i: nat | i < |u|
      ensures NodeOk(u, i)
    {
      assert NodeOk(t, i);
    }
  }

  /** A new node for `state` that names `p` as its parent but is not added
      to `p`'s children, as the search does for the node it starts a random
      playout from. */
  function AddNode(t: Tree, p: nat, state: GameState): (u: Tree)
    requires ValidTree(t) && p < |t| && ValidBoard(state.board)
    ensures ValidTree(u)
    ensures |u| == |t| + 1 && u[..|t|] == t
    ensures u[|t|] == NewNode(state, Some(p))
    ensures |t| !in u[p].children
  {
    assert NodeOk(t, p);
    var u := t + [NewNode(state, Some(p))];
    forall n: nat | n < |u|
      ensures NodeOk(u, n)
    {
      if n < |t| {
        assert NodeOk(t, n);
        assert u[n] == t[n];
      }
    }
    u
  }

  // ---------------------------------------------------------------------
  // Expansion
  // ---------------------------------------------------------------------

  /** A node has as many children as its state has legal moves, that is,
      as many as the grid has open columns. */
  predicate IsFullyExpanded(t: Tree, i: nat): (full: bool)
    requires ValidTree(t) && i < |t|
    ensures ValidBoard(t[i].state.board)
    ensures full <==> |t[i].children| == |OpenColumns(t[i].state.board)|
  {
    assert NodeOk(t, i);
    LegalMovesCount(t[i].state);
    |t[i].children| == |Moves(t, i)|
  }

  datatype Expansion = Expansion(tree: Tree, chosen: Option<nat>)

  /** Appends to node `i` one new child per legal move of its state, in the
      order of the legal moves, each holding a copy of the state with that
      move made. Existing children are kept, so a node that already has
      children gets duplicates. The chosen child is drawn from all children of
      the node by `pick` (the game draws it at random); there is none only
      when the node ends up with no children. */
  function Expand(t: Tree, i: nat, pick: nat): (e: Expansion)
    requires ValidTree(t) && i < |t|
    ensures ValidTree(e.tree)
    ensures |e.tree| == |t| + |Moves(t, i)|
    ensures forall k :: 0 <= k < |t| && k != i ==> e.tree[k] == t[k]
    ensures e.tree[i] == t[i].(children := e.tree[i].children)
    ensures |e.tree[i].children| == |t[i].children| + |Moves(t, i)|
    ensures e.tree[i].children[..|t[i].children|] == t[i].children
    ensures forall j :: 0 <= j < |Moves(t, i)| ==>
      && e.tree[i].children[|t[i].children| + j] == |t| + j
      && e.tree[|t| + j] == NewNode(Successor(t, i, j), Some(i))
    ensures e.chosen.None? <==> e.tree[i].children == []
    ensures e.chosen.Some? ==> e.chosen.value in e.tree[i].children
  {
    assert NodeOk(t, i);
    var n := |Moves(t, i)|;
    var born := seq(n, j requires 0 <= j < n => NewNode(Successor(t, i, j), Some(i)));
    var kids := t[i].children + seq(n, j => |t| + j);
    var grown := t[i := t[i].(children := kids)] + born;
    ExpandKeepsValid(t, i, grown, kids, born);
    Expansion(grown, if kids == [] then None else Some(kids[pick % |kids|]))
  }

  lemma ExpandKeepsValid(t: Tree, i: nat, grown: Tree, kids: seq<nat>, born: seq<Node>)
    requires ValidTree(t) && i < |t|
    requires kids == t[i].children + seq(|born|, j => |t| + j)
    requires forall j :: 0 <= j < |born| ==>
      born[j].parent == Some(i) && born[j].children == [] && ValidBoard(born[j].state.board)
    requires grown == t[i := t[i].(children := kids)] + born
    ensures ValidTree(grown)
  {
    forall n: nat | n < |grown|
      ensures NodeOk(grown, n)
    {
      if n < |t| {
        assert NodeOk(t, n);
        forall k | 0 <= k < |grown[n].children|
          ensures n < grown[n].children[k] < |grown| && grown[grown[n].children[k]].parent == Some(n)
        {
          if n == i && k >= |t[i].children| {
            assert grown[n].children[k] == |t| + (k - |t[i].children|);
          }
        }
      } else {
        assert grown[n] == born[n - |t|];
      }
    }
  }

  /** Expanding a node without children gives it exactly one child per legal
      move, in legal-move order, each holding the node's state with that move
      made; the node is then fully expanded, and no child is chosen exactly
      when there is no legal move. */
  lemma ExpandLeaf(t: Tree, i: nat, pick: nat)
    requires ValidTree(t) && i < |t| && t[i].children == []
    ensures var e := Expand(t, i, pick);
      && IsFullyExpanded(e.tree, i)
      && e.tree[i].state == t[i].state
      && (e.chosen.None? <==> Moves(t, i) == [])
      && forall j :: 0 <= j < |Moves(t, i)| ==>
           Child(e.tree, i, j).parent == Some(i) && Child(e.tree, i, j).state == Successor(t, i, j)
  {
    var u := Expand(t, i, pick).tree;
    assert u[i].state == t[i].state;
    assert Moves(u, i) == Moves(t, i);
    forall j | 0 <= j < |Moves(t, i)|
      ensures Child(u, i, j).parent == Some(i) && Child(u, i, j).state == Successor(t, i, j)
    {
      assert u[i].children[0 + j] == |t| + j;
    }
  }

  /** After an expansion the node is fully expanded exactly when it had no
      children before: expanding again adds duplicates. */
  lemma ExpandFullyExpandedIff(t: Tree, i: nat, pick: nat)
    requires ValidTree(t) && i < |t|
    ensures var e := Expand(t, i, pick);
      IsFullyExpanded(e.tree, i) <==> t[i].children == []
  {
    var e := Expand(t, i, pick);
    assert Moves(e.tree, i) == Moves(t, i);
  }

  /** The child an expansion adds for legal move j. */
  lemma ExpandChild(t: Tree, i: nat, pick: nat, j: nat)
    requires ValidTree(t) && i < |t| && j < |Moves(t, i)|
    ensures var e := Expand(t, i, pick);
      var c := e.tree[i].children[|t[i].children| + j];
      && c == |t| + j
      && e.tree[c].state == Successor(t, i, j)
  {
  }

  /** Expanding a childless node twice gives it 2n children for n legal
      moves, and its j-th and (n + j)-th children hold the same state. */
  lemma ExpandTwiceChild(t: Tree, i: nat, pick1: nat, pick2: nat, j: nat)
    requires ValidTree(t) && i < |t| && t[i].children == [] && j < |Moves(t, i)|
    ensures var t2 := Expand(Expand(t, i, pick1).tree, i, pick2).tree;
      var n := |Moves(t, i)|;
      && |t2[i].children| == 2 * n
      && Child(t2, i, j).state == Child(t2, i, n + j).state
  {
    var t1 := Expand(t, i, pick1).tree;
    var t2 := Expand(t1, i, pick2).tree;
    var n := |Moves(t, i)|;
    assert t1[i].state == t[i].state && |t1[i].children| == n;
    assert Moves(t1, i) == Moves(t, i);
    ExpandChild(t, i, pick1, j);
    ExpandChild(t1, i, pick2, j);
    var first := t1[i].children[j];
    assert t2[i].children[..n] == t1[i].children;
    assert t2[i].children[j] == first;
    assert t2[first] == t1[first];
  }

  // ---------------------------------------------------------------------
  // Backpropagation
  // ---------------------------------------------------------------------

  /** Node `i` and all its ancestors up to its root. */
  function Ancestors(t: Tree, i: nat): (a: set<nat>)
    requires ValidTree(t) && i < |t|
    decreases i
    ensures i in a
    ensures forall k :: k in a ==> k <= i
    ensures exists root :: root in a && t[root].parent.None?
  {
    assert NodeOk(t, i);
    match t[i].parent
    case None => {i}
    case Some(p) => {i} + Ancestors(t, p)
  }

  lemma {:induction false} SameShapeSameAncestors(t: Tree, u: Tree, i: nat)
    requires ValidTree(t) && ValidTree(u) && SameShape(t, u) && i < |t|
    decreases i
    ensures Ancestors(u, i) == Ancestors(t, i)
  {
    assert NodeOk(t, i);
    match t[i].parent
    case None =>
    case Some(p) => SameShapeSameAncestors(t, u, p);
  }

  /** Counts one more visit and `result` more wins at `n`. */
  function Visited(n: Node, result: int): Node {
    n.(visits := n.visits + 1, wins := n.wins + result)
  }

  /** Adds one visit and `result` wins to node `i` and to each of its
      ancestors; every other node is left as it was. */
  function Backpropagate(t: Tree, i: nat, result: int): (u: Tree)
    requires ValidTree(t) && i < |t|
    decreases i
    ensures |u| == |t| && SameShape(t, u) && ValidTree(u)
    ensures forall k :: 0 <= k < |t| && k in Ancestors(t, i) ==>
      u[k].visits == t[k].visits + 1 && u[k].wins == t[k].wins + result
    ensures forall k :: 0 <= k < |t| && k !in Ancestors(t, i) ==> u[k] == t[k]
  {
    assert NodeOk(t, i);
    var bumped := t[i := Visited(t[i], result)];
    assert SameShape(t, bumped);
    SameShapeKeepsValid(t, bumped);
    match t[i].parent
    case None => bumped
    case Some(p) =>
      SameShapeSameAncestors(t, bumped, p);
      Backpropagate(bumped, p, result)
  }

  /** The parent of an ancestor is an ancestor. */
  lemma {:induction false} AncestorsClosedUpwards(t: Tree, i: nat, j: nat)
    requires ValidTree(t) && i < |t| && j in Ancestors(t, i) && t[j].parent.Some?
    decreases i
    ensures t[j].parent.value in Ancestors(t, i)
  {
    assert NodeOk(t, i);
    if j != i {
      AncestorsClosedUpwards(t, t[i].parent.value, j);
    }
  }

  /** A visited node's parent has been visited too. Backpropagation touches
      a node only together with all its ancestors, so trees built by Expand
      and Backpropagate keep this. */
  predicate VisitsFlowUp(t: Tree) {
    forall j :: 0 <= j < |t| && t[j].visits > 0 && t[j].parent.Some? && t[j].parent.value < |t| ==>
      t[t[j].parent.value].visits > 0
  }

  lemma NewTreeVisitsFlowUp(root: GameState)
    requires ValidBoard(root.board)
    ensures VisitsFlowUp(NewTree(root))
  {
  }

  lemma ExpandKeepsVisitsFlowUp(t: Tree, i: nat, pick: nat)
    requires ValidTree(t) && i < |t| && VisitsFlowUp(t)
    ensures VisitsFlowUp(Expand(t, i, pick).tree)
  {
    var u := Expand(t, i, pick).tree;
    forall k | 0 <= k < |u|
      ensures k < |t| ==> u[k].visits == t[k].visits && u[k].parent == t[k].parent
      ensures k >= |t| ==> u[k].visits == 0
    {
      if k >= |t| {
        assert u[|t| + (k - |t|)] == NewNode(Successor(t, i, k - |t|), Some(i));
      }
    }
    GrowKeepsVisitsFlowUp(t, u);
  }

  /** Appending unvisited nodes, without changing the visits or parents of
      the old ones, keeps "a visited node's parent is visited". */
  lemma GrowKeepsVisitsFlowUp(t: Tree, u: Tree)
    requires ValidTree(t) && VisitsFlowUp(t) && |t| <= |u|
    requires forall k :: 0 <= k < |u| ==> k < |t| ==> u[k].visits == t[k].visits && u[k].parent == t[k].parent
    requires forall k :: 0 <= k < |u| ==> k >= |t| ==> u[k].visits == 0
    ensures VisitsFlowUp(u)
  {
    forall j | 0 <= j < |u| && u[j].visits > 0 && u[j].parent.Some? && u[j].parent.value < |u|
      ensures u[u[j].parent.value].visits > 0
    {
      assert NodeOk(t, j);
    }
  }

  lemma AddNodeKeepsVisitsFlowUp(t: Tree, p: nat, state: GameState)
    requires ValidTree(t) && p < |t| && ValidBoard(state.board) && VisitsFlowUp(t)
    ensures VisitsFlowUp(AddNode(t, p, state))
  {
    var u := AddNode(t, p, state);
    assert forall k :: 0 <= k < |t| ==> u[k] == t[k];
    GrowKeepsVisitsFlowUp(t, u);
  }

  lemma BackpropagateKeepsVisitsFlowUp(t: Tree, i: nat, result: int)
    requires ValidTree(t) && i < |t| && VisitsFlowUp(t)
    ensures VisitsFlowUp(Backpropagate(t, i, result))
  {
    var u := Backpropagate(t, i, result);
    forall j | 0 <= j < |u| && u[j].visits > 0 && u[j].parent.Some? && u[j].parent.value < |u|
      ensures u[u[j].parent.value].visits > 0
    {
      if j in Ancestors(t, i) {
        AncestorsClosedUpwards(t, i, j);
      } else {
        assert u[j] == t[j];
      }
    }
  }

  /** In such a tree the greedy selection below never meets an unvisited
      parent with a visited child. */
  lemma VisitsFlowUpAllowsSelection(t: Tree, i: nat)
    requires ValidTree(t) && i < |t| && VisitsFlowUp(t)
    ensures t[i].visits == 0 ==> forall k :: 0 <= k < |t[i].children| ==> Child(t, i, k).visits == 0
  {
    assert NodeOk(t, i);
  }

  // ---------------------------------------------------------------------
  // Greedy child selection
  // ---------------------------------------------------------------------

  /** Average result per visit of a visited node. */
  function Ratio(n: Node): real
    requires n.visits > 0
  {
    n.wins as real / n.visits as real
  }

  /** Among the first `n` children of node `i`, position `pos` holds a
      visited child whose ratio no visited child beats and which every
      earlier visited child falls short of. */
  predicate FirstBest(t: Tree, i: nat, n: nat, pos: nat)
    requires ValidTree(t) && i < |t| && n <= |t[i].children|
  {
    && pos < n
    && Child(t, i, pos).visits > 0
    && (forall k :: 0 <= k < n && Child(t, i, k).visits > 0 ==> Ratio(Child(t, i, k)) <= Ratio(Child(t, i, pos)))
    && (forall k :: 0 <= k < pos && Child(t, i, k).visits > 0 ==> Ratio(Child(t, i, k)) < Ratio(Child(t, i, pos)))
  }

  /** Child selection with no exploration term: the first child, in child
      order, with the greatest wins/visits among the visited children.
      Unvisited children score minus infinity and are never chosen, so there
      is no choice when no child has been visited. */
  method SelectChild(t: Tree, i: nat) returns (best: Option<nat>)
    requires ValidTree(t) && i < |t|
    requires t[i].visits == 0 ==> forall k :: 0 <= k < |t[i].children| ==> Child(t, i, k).visits == 0
    ensures best.None? <==> forall k :: 0 <= k < |t[i].children| ==> Child(t, i, k).visits == 0
    ensures best.Some? ==> exists pos: nat ::
      FirstBest(t, i, |t[i].children|, pos) && t[i].children[pos] == best.value
  {
    var kids := t[i].children;
    var bestPos: Option<nat> := None;
    var j := 0;
    while j < |kids|
      invariant 0 <= j <= |kids|
      invariant bestPos.None? <==> forall k :: 0 <= k < j ==> Child(t, i, k).visits == 0
      invariant bestPos.Some? ==> FirstBest(t, i, j, bestPos.value)
    {
      var child := Child(t, i, j);
      if child.visits > 0 && (bestPos.None? || Ratio(child) > Ratio(Child(t, i, bestPos.value))) {
        bestPos := Some(j);
      }
      j := j + 1;
    }
    if bestPos.Some? {
      best := Some(kids[bestPos.value]);
    } else {
      best := None;
    }
  }
}
