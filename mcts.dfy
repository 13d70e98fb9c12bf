/** The Monte Carlo tree search agent's tree: nodes that count wins and
    visits, the walk down the tree that follows the best-scoring child, and
    the update that credits a playout's result back up the parent chain.
    The game state `S` and the action `A` are left abstract; the UCT score,
    which the agent computes in floating point, is a function parameter. */
module Mcts {
  import opened Game

  /** The score of a child, from the exploration parameter, the child's
      wins and visits, and its parent's visits. */
  type Score = (real, real, int, int) -> real

  class Node<S, A> {
    const state: S
    const parent: Node?<S, A>
    const action: Option<A>
    var children: seq<Node<S, A>>
    var wins: real
    var visits: int
    /** The parent chain: parent, grandparent, ..., up to the root. */
    ghost const ancestors: seq<Node<S, A>>
    /** This node and every node below it. */
    ghost var Repr: set<Node<S, A>>

    /** The parent chain is the parent followed by its own chain, and it
        never comes back to a node already on it. */
    ghost predicate Linked()
      decreases |ancestors|
    {
      && ancestors == (if parent == null then [] else [parent] + parent.ancestors)
      && this !in ancestors
      && (parent != null ==> parent.Linked())
    }

    /** The nodes below this one form a finite tree: each child's subtree is
        a strictly smaller part of this one's. */
    ghost predicate Valid()
      reads this`children, this`Repr, Repr`children, Repr`Repr
      decreases Repr
    {
      && this in Repr
      && forall i :: 0 <= i < |children| ==>
           children[i] in Repr && children[i].Repr < Repr && children[i].Valid()
    }

    /** Node(state, parent, action): no children, no wins, no visits. */
    constructor (state: S, parent: Node?<S, A>, action: Option<A>)
      requires parent != null ==> parent.Linked()
      ensures this.state == state && this.parent == parent && this.action == action
      ensures children == [] && wins == 0.0 && visits == 0
      ensures Linked() && Valid() && Repr == {this}
    {
      this.state := state;
      this.parent := parent;
      this.action := action;
      children := [];
      wins := 0.0;
      visits := 0;
      ancestors := if parent == null then [] else [parent] + parent.ancestors;
      Repr := {this};
    }

    /** add_child: one child appended after the others; nothing else of the
        node changes. */
    method AddChild(child: Node<S, A>)
      modifies this`children
      ensures children == old(children) + [child]
      ensures |children| == |old(children)| + 1 && children[..|old(children)|] == old(children)
    {
      children := children + [child];
    }
  }

  /** A node followed by its parent chain: the nodes backpropagate updates. */
  ghost function Path<S, A>(n: Node<S, A>): (p: seq<Node<S, A>>)
    ensures |p| == |n.ancestors| + 1 && p[0] == n
  {
    [n] + n.ancestors
  }

  /** Along a linked chain no node appears twice. */
  lemma {:induction false} PathDistinct<S, A>(n: Node<S, A>)
    requires n.Linked()
    ensures forall i, j :: 0 <= i < j < |Path(n)| ==> Path(n)[i] != Path(n)[j]
    decreases |n.ancestors|
  {
    if n.parent != null {
      PathDistinct(n.parent);
      assert Path(n) == [n] + Path(n.parent);
    }
  }

  /** What backpropagate adds to the wins of the i-th node up the chain:
      the result itself at even distance, one minus it at odd distance. */
  function Credit(result: real, i: nat): real {
    if i % 2 == 0 then result else 1.0 - result
  }

  /** Passing 1 - result to the parent is crediting one step further up. */
  lemma CreditShift(result: real, i: nat)
    ensures Credit(1.0 - result, i) == Credit(result, i + 1)
    ensures Credit(result, i) + Credit(result, i + 1) == 1.0
  {
  }

  /** Child k is the one Python's max(children, key=score) returns: no child
      scores higher, and every child before it scores strictly lower. */
  ghost predicate FirstBest<S, A>(uct: Score, c: real, kids: seq<Node<S, A>>, parentVisits: int, k: int)
    reads set j | 0 <= j < |kids| :: kids[j]
  {
    && 0 <= k < |kids|
    && (forall j :: 0 <= j < |kids| ==>
          uct(c, kids[j].wins, kids[j].visits, parentVisits) <= uct(c, kids[k].wins, kids[k].visits, parentVisits))
    && (forall j :: 0 <= j < k ==>
          uct(c, kids[j].wins, kids[j].visits, parentVisits) < uct(c, kids[k].wins, kids[k].visits, parentVisits))
  }

  /** There is only one first best child. */
  lemma FirstBestUnique<S, A>(uct: Score, c: real, kids: seq<Node<S, A>>, parentVisits: int, k1: int, k2: int)
    requires FirstBest(uct, c, kids, parentVisits, k1) && FirstBest(uct, c, kids, parentVisits, k2)
    ensures k1 == k2
  {
    var s1 := uct(c, kids[k1].wins, kids[k1].visits, parentVisits);
    var s2 := uct(c, kids[k2].wins, kids[k2].visits, parentVisits);
    assert s1 <= s2 && s2 <= s1;
    assert k1 < k2 ==> s1 < s2;
    assert k2 < k1 ==> s2 < s1;
  }

  /** Each node of the path is followed by its first best child, the ks[i]-th
      child of path[i]. */
  ghost predicate BestDescent<S, A>(uct: Score, c: real, path: seq<Node<S, A>>, ks: seq<int>)
    reads set i | 0 <= i < |path| :: path[i]
    reads set i, j | 0 <= i < |path| && 0 <= j < |path[i].children| :: path[i].children[j]
  {
    && |ks| == |path| - 1
    && forall i :: 0 <= i < |ks| ==>
         FirstBest(uct, c, path[i].children, path[i].visits, ks[i]) && path[i + 1] == path[i].children[ks[i]]
  }

  /** A first best step in front of a best descent is a best descent. */
  lemma BestDescentCons<S, A>(uct: Score, c: real, n: Node<S, A>, k: int, rest: seq<Node<S, A>>, ks: seq<int>)
    requires FirstBest(uct, c, n.children, n.visits, k) && rest != [] && rest[0] == n.children[k]
    requires BestDescent(uct, c, rest, ks)
    ensures BestDescent(uct, c, [n] + rest, [k] + ks)
  {
    var path := [n] + rest;
    assert forall i :: 1 <= i < |ks| + 1 ==> path[i] == rest[i - 1] && path[i + 1] == rest[i] && ([k] + ks)[i] == ks[i - 1];
  }

  class MCTS<S, A> {
    const root: Node<S, A>
    const numIterations: int
    const explorationParameter: real
    /** The UCT formula of best_child. */
    const uct: Score

    /** MCTS(root_state, num_iterations, exploration_parameter): a lone root
        node for the state. */
    constructor (rootState: S, numIterations: int, explorationParameter: real, uct: Score)
      ensures fresh(root) && root.state == rootState && root.parent == null && root.action == None
      ensures root.children == [] && root.wins == 0.0 && root.visits == 0
      ensures root.Linked() && root.Valid()
      ensures this.numIterations == numIterations && this.explorationParameter == explorationParameter
      ensures this.uct == uct
    {
      root := new Node(rootState, null, None);
      this.numIterations := numIterations;
      this.explorationParameter := explorationParameter;
      this.uct := uct;
    }

    /** backpropagate: every node from `node` up to the root gets one more
        visit, and result, 1 - result, result, ... added to its wins in turn;
        no other field and no other node changes. */
    method Backpropagate(node: Node<S, A>, result: real)
      requires node.Linked()
      modifies (set n | n in Path(node))`visits, (set n | n in Path(node))`wins
      ensures forall i :: 0 <= i < |Path(node)| ==> Path(node)[i].visits == old(Path(node)[i].visits) + 1
      ensures forall i :: 0 <= i < |Path(node)| ==> Path(node)[i].wins == old(Path(node)[i].wins) + Credit(result, i)
      decreases |node.ancestors|
    {
      node.visits := node.visits + 1;
      node.wins := node.wins + result;
      if node.parent != null {
        ghost var up := Path(node.parent);
        assert Path(node) == [node] + up && node !in up;
        Backpropagate(node.parent, 1.0 - result);
        forall i | 1 <= i < |Path(node)|
          ensures Path(node)[i].wins == old(Path(node)[i].wins) + Credit(result, i)
        {
          assert Path(node)[i] == up[i - 1];
          CreditShift(result, i - 1);
        }
      }
    }

    /** best_child: the first child of maximal score, or None where max()
        raises ValueError because there are no children. */
    method BestChild(node: Node<S, A>, c: real) returns (best: Option<Node<S, A>>, ghost k: int)
      ensures best == None <==> node.children == []
      ensures best.Some? ==>
        FirstBest(uct, c, node.children, node.visits, k) && best.value == node.children[k]
    {
      var kids := node.children;
      if kids == [] {
        return None, -1;
      }
      var b := 0;
      var bestScore := uct(c, kids[0].wins, kids[0].visits, node.visits);
      var i := 1;
      while i < |kids|
        invariant 1 <= i <= |kids| && 0 <= b < i
        invariant bestScore == uct(c, kids[b].wins, kids[b].visits, node.visits)
        invariant forall j :: 0 <= j < i ==> uct(c, kids[j].wins, kids[j].visits, node.visits) <= bestScore
        invariant forall j :: 0 <= j < b ==> uct(c, kids[j].wins, kids[j].visits, node.visits) < bestScore
      {
        var score := uct(c, kids[i].wins, kids[i].visits, node.visits);
        if score > bestScore {
          b, bestScore := i, score;
        }
        i := i + 1;
      }
      best, k := Some(kids[b]), b;
    }

    /** select_node: from `node`, follow the best child (by the exploration
        parameter) until a node without children. */
    method SelectNode(node: Node<S, A>) returns (leaf: Node<S, A>, ghost path: seq<Node<S, A>>, ghost ks: seq<int>)
      requires node.Valid()
      ensures leaf.children == []
      ensures |path| >= 1 && path[0] == node && path[|path| - 1] == leaf
      ensures BestDescent(uct, explorationParameter, path, ks)
      decreases node.Repr
    {
      if node.children == [] {
        return node, [node], [];
      }
      var best, k := BestChild(node, explorationParameter);
      var child := best.value;
      ghost var rest, ks';
      leaf, rest, ks' := SelectNode(child);
      BestDescentCons(uct, explorationParameter, node, k, rest, ks');
      path, ks := [node] + rest, [k] + ks';
    }
  }
}
