/** The explicit-tree minimax agent (minimax/program.py).  `generate_tree`
    expands the whole game tree to `max_depth` below the root, storing every
    position in a `Node`; `find_next_step` then runs alpha-beta over the
    stored children.  The referee Board (legal moves, `apply_action`,
    `game_over`, `_state`) is the parameter `R: Referee<B>`.

    Each `Node` carries a ghost `Snapshot`, the value-level `Tree` below it,
    and a ghost footprint `Repr`; `Valid()` ties the snapshot to the
    children actually stored.  Generation is proved to build `GenTree` and
    the search is proved against `TreeValue`, the plain minimax value of the
    stored tree. */
module Minimax {
  import opened Game
  import opened AlphaBeta
  import U = Utils

  // ---------------------------------------------------------------------
  // COORDINATES
  // ---------------------------------------------------------------------

  /** The cells of cs kept by the comprehension's filter abs(r - q) < 7. */
  function KeepClose(cs: seq<HexPos>): seq<HexPos> {
    if cs == [] then []
    else
      var p := cs[|cs| - 1];
      KeepClose(cs[..|cs| - 1]) + (if U.Abs(p.r - p.q) < 7 then [p] else [])
  }

  /** COORDINATES: the pairs of `for r in range(7) for q in range(7)`, in
      that order, filtered. */
  const Coordinates: seq<HexPos> := KeepClose(RowMajor())

  lemma {:induction false} KeepCloseOnBoard(cs: seq<HexPos>)
    requires forall p :: p in cs ==> OnBoard(p)
    ensures KeepClose(cs) == cs
  {
    if cs != [] {
      var p := cs[|cs| - 1];
      assert p in cs && OnBoard(p);
      assert U.Abs(p.r - p.q) < 7;
      KeepCloseOnBoard(cs[..|cs| - 1]);
      assert cs == cs[..|cs| - 1] + [p];
    }
  }

  /** The filter never drops a cell: COORDINATES is all 49 cells of the
      board, row by row. */
  lemma CoordinatesAreTheBoard()
    ensures Coordinates == RowMajor()
    ensures |Coordinates| == 49
    ensures forall p :: p in Coordinates <==> OnBoard(p)
  {
    KeepCloseOnBoard(RowMajor());
    forall p ensures p in Coordinates <==> OnBoard(p) {
      if OnBoard(p) {
        RowMajorAt(p.r, p.q);
      }
    }
  }

  // ---------------------------------------------------------------------
  // Node.get_legal_actions and Node.evaluation, as functions of the state
  // ---------------------------------------------------------------------

  /** The spawns the scan over cs collects: one per empty cell, in scan order. */
  function SpawnsIn<B>(R: Referee<B>, b: B, cs: seq<HexPos>): seq<Action> {
    if cs == [] then []
    else
      var p := cs[|cs| - 1];
      SpawnsIn(R, b, cs[..|cs| - 1]) + (if R.occupied(b, p) then [] else [Spawn(p)])
  }

  /** The spreads the scan over cs collects: six, in the order of
      `Directions`, for every occupied cell whose owner is c. */
  function SpreadsIn<B>(R: Referee<B>, b: B, c: Color, cs: seq<HexPos>): seq<Action> {
    if cs == [] then []
    else
      var p := cs[|cs| - 1];
      SpreadsIn(R, b, c, cs[..|cs| - 1])
        + (if R.occupied(b, p) && R.cell(b, p).player == Some(c) then SixSpreads(p) else [])
  }

  /** The move list of a node: spawns + spreads. */
  function LegalActions<B>(R: Referee<B>, b: B, c: Color): seq<Action> {
    SpawnsIn(R, b, Coordinates) + SpreadsIn(R, b, c, Coordinates)
  }

  lemma {:induction false} SpawnsInMember<B>(R: Referee<B>, b: B, cs: seq<HexPos>, a: Action)
    ensures a in SpawnsIn(R, b, cs) <==> a.Spawn? && a.cell in cs && !R.occupied(b, a.cell)
  {
    if cs != [] {
      SpawnsInMember(R, b, cs[..|cs| - 1], a);
      assert cs == cs[..|cs| - 1] + [cs[|cs| - 1]];
    }
  }

  lemma {:induction false} SpreadsInMember<B>(R: Referee<B>, b: B, c: Color, cs: seq<HexPos>, a: Action)
    ensures a in SpreadsIn(R, b, c, cs) <==>
      a.Spread? && a.cell in cs && R.occupied(b, a.cell) && R.cell(b, a.cell).player == Some(c)
  {
    if cs != [] {
      SpreadsInMember(R, b, c, cs[..|cs| - 1], a);
      SixSpreadsMember(cs[|cs| - 1], a);
      assert cs == cs[..|cs| - 1] + [cs[|cs| - 1]];
    }
  }

  /** The position of a cell in the row-major scan. */
  function ScanIndex(p: HexPos): int {
    7 * p.r + p.q
  }

  /** A scan list visits every cell after the ones before it. */
  predicate ScanOrdered(cs: seq<HexPos>) {
    forall i, j :: 0 <= i < j < |cs| ==> ScanIndex(cs[i]) < ScanIndex(cs[j])
  }

  lemma {:induction false} SpawnsInCells<B>(R: Referee<B>, b: B, cs: seq<HexPos>)
    ensures forall a :: a in SpawnsIn(R, b, cs) ==> a.cell in cs
  {
    forall a | a in SpawnsIn(R, b, cs) ensures a.cell in cs {
      SpawnsInMember(R, b, cs, a);
    }
  }

  /** The actions' cells come strictly in scan order. */
  predicate CellsAscending(acts: seq<Action>) {
    forall i, j :: 0 <= i < j < |acts| ==> ScanIndex(acts[i].cell) < ScanIndex(acts[j].cell)
  }

  /** Spawns come out in scan order, each empty cell once. */
  lemma {:induction false} SpawnsInOrder<B>(R: Referee<B>, b: B, cs: seq<HexPos>)
    requires ScanOrdered(cs)
    ensures CellsAscending(SpawnsIn(R, b, cs))
  {
    if cs != [] {
      var init := cs[..|cs| - 1];
      var p := cs[|cs| - 1];
      SpawnsInOrder(R, b, init);
      SpawnsInCells(R, b, init);
      var front := SpawnsIn(R, b, init);
      if !R.occupied(b, p) {
        var sp := front + [Spawn(p)];
        forall i | 0 <= i < |front| ensures ScanIndex(front[i].cell) < ScanIndex(p) {
          assert front[i] in front;
          var m :| 0 <= m < |init| && init[m] == front[i].cell;
          assert init[m] == cs[m];
          assert ScanIndex(cs[m]) < ScanIndex(cs[|cs| - 1]);
        }
        forall i, j | 0 <= i < j < |sp| ensures ScanIndex(sp[i].cell) < ScanIndex(sp[j].cell) {
          if j == |front| {
            assert sp[i] == front[i] && sp[j] == Spawn(p);
          } else {
            assert sp[i] == front[i] && sp[j] == front[j];
          }
        }
      } else {
        assert SpawnsIn(R, b, cs) == front + [];
      }
    }
  }

  /** The scan of the whole board: spawns on exactly the empty cells, in scan
      order; spreads from exactly the cells owned by c, six per cell. */
  lemma LegalActionsMember<B>(R: Referee<B>, b: B, c: Color, a: Action)
    ensures a in SpawnsIn(R, b, Coordinates) <==> a.Spawn? && OnBoard(a.cell) && !R.occupied(b, a.cell)
    ensures a in SpreadsIn(R, b, c, Coordinates) <==>
      a.Spread? && OnBoard(a.cell) && R.occupied(b, a.cell) && R.cell(b, a.cell).player == Some(c)
    ensures CellsAscending(SpawnsIn(R, b, Coordinates))
  {
    CoordinatesAreTheBoard();
    SpawnsInMember(R, b, Coordinates, a);
    SpreadsInMember(R, b, c, Coordinates, a);
    SpawnsInOrder(R, b, Coordinates);
  }

  /** What one cell adds to the sum. */
  function PowerOfCell(x: CellState, isBlue: bool): int {
    if (x.player == Some(Blue)) == isBlue then x.power else 0
  }

  /** The power of the cells whose owner is BLUE (isBlue) or is anything else
      (!isBlue), summed over the cells in iteration order. */
  function PowerOf(cells: seq<CellState>, isBlue: bool): int {
    if cells == [] then 0
    else
      var x := cells[|cells| - 1];
      PowerOf(cells[..|cells| - 1], isBlue) + PowerOfCell(x, isBlue)
  }

  /** BLUE's power minus the power of every other cell. */
  function Evaluation(cells: seq<CellState>): int {
    PowerOf(cells, true) - PowerOf(cells, false)
  }

  lemma {:induction false} PowerOfAppend(c1: seq<CellState>, c2: seq<CellState>, isBlue: bool)
    ensures PowerOf(c1 + c2, isBlue) == PowerOf(c1, isBlue) + PowerOf(c2, isBlue)
    decreases |c2|
  {
    if c2 == [] {
      assert c1 + c2 == c1;
    } else {
      PowerOfAppend(c1, c2[..|c2| - 1], isBlue);
      assert (c1 + c2)[..|c1 + c2| - 1] == c1 + c2[..|c2| - 1];
    }
  }

  lemma PowerOfRemove(cells: seq<CellState>, j: int, isBlue: bool)
    requires 0 <= j < |cells|
    ensures PowerOf(cells, isBlue) == PowerOf(cells[..j] + cells[j + 1..], isBlue) + PowerOfCell(cells[j], isBlue)
  {
    var x := cells[j];
    assert cells == cells[..j] + [x] + cells[j + 1..];
    PowerOfAppend(cells[..j] + [x], cells[j + 1..], isBlue);
    PowerOfAppend(cells[..j], [x], isBlue);
    PowerOfAppend(cells[..j], cells[j + 1..], isBlue);
    assert [x][..0] == [];
  }

  /** Dropping the j-th element drops one occurrence of it. */
  lemma MultisetRemoveAt<T>(s: seq<T>, j: int)
    requires 0 <= j < |s|
    ensures multiset(s[..j] + s[j + 1..]) == multiset(s) - multiset{s[j]}
  {
    assert s == s[..j] + [s[j]] + s[j + 1..];
  }

  /** The sums do not depend on the order the dictionary yields its cells. */
  lemma {:induction false} PowerOfPermutation(c1: seq<CellState>, c2: seq<CellState>, isBlue: bool)
    requires multiset(c1) == multiset(c2)
    ensures PowerOf(c1, isBlue) == PowerOf(c2, isBlue)
    decreases |c1|
  {
    if c1 != [] {
      var x := c1[|c1| - 1];
      var init := c1[..|c1| - 1];
      assert c1 == init + [x];
      assert x in multiset(c2);
      var j :| 0 <= j < |c2| && c2[j] == x;
      var rest := c2[..j] + c2[j + 1..];
      MultisetRemoveAt(c1, |c1| - 1);
      assert c1[|c1|..] == [];
      assert init + [] == init;
      MultisetRemoveAt(c2, j);
      PowerOfPermutation(init, rest, isBlue);
      PowerOfRemove(c2, j, isBlue);
    }
  }

  lemma EvaluationPermutation(c1: seq<CellState>, c2: seq<CellState>)
    requires multiset(c1) == multiset(c2)
    ensures Evaluation(c1) == Evaluation(c2)
  {
    PowerOfPermutation(c1, c2, true);
    PowerOfPermutation(c1, c2, false);
  }

  // ---------------------------------------------------------------------
  // The game tree as a value
  // ---------------------------------------------------------------------

  /** A node of the stored tree: its position, its colour, the action that
      led to it (None at the root) and its children in insertion order. */
  datatype Tree<B> = Tree(state: B, color: Color, action: Option<Action>, kids: seq<Tree<B>>)

  /** The tree _generate_tree_recursive grows below a fresh node with
      remaining depth d: no children at depth 0 or at a finished game,
      otherwise one child per legal action, in spawns + spreads order, with
      the other colour. */
  function GenTree<B>(R: Referee<B>, s: B, c: Color, a: Option<Action>, d: nat): Tree<B>
    decreases d, 1
  {
    Tree(s, c, a, if d == 0 || R.gameOver(s) then [] else GenKids(R, s, c, LegalActions(R, s, c), d - 1))
  }

  function GenKids<B>(R: Referee<B>, s: B, c: Color, acts: seq<Action>, d: nat): seq<Tree<B>>
    decreases d + 1, 0
  {
    seq(|acts|, i requires 0 <= i < |acts| => GenTree(R, R.apply(s, acts[i]), Opponent(c), Some(acts[i]), d))
  }

  /** Every node of t at remaining depth d: none has children at depth 0 or
      once the game is over, and every child is the position its action
      leads to, with the other colour. */
  ghost predicate Shaped<B>(R: Referee<B>, t: Tree<B>, d: int)
    decreases t
  {
    && (d <= 0 || R.gameOver(t.state) ==> t.kids == [])
    && forall i :: 0 <= i < |t.kids| ==>
         && t.kids[i].color == Opponent(t.color)
         && t.kids[i].action.Some?
         && t.kids[i].state == R.apply(t.state, t.kids[i].action.value)
         && Shaped(R, t.kids[i], d - 1)
  }

  lemma {:induction false} GenTreeShaped<B>(R: Referee<B>, s: B, c: Color, a: Option<Action>, d: nat)
    ensures Shaped(R, GenTree(R, s, c, a, d), d)
    decreases d
  {
    if d != 0 && !R.gameOver(s) {
      var acts := LegalActions(R, s, c);
      var kids := GenKids(R, s, c, acts, d - 1);
      assert GenTree(R, s, c, a, d).kids == kids;
      forall i | 0 <= i < |kids|
        ensures kids[i].color == Opponent(c) && kids[i].action == Some(acts[i])
        ensures kids[i].state == R.apply(s, acts[i]) && Shaped(R, kids[i], d - 1)
      {
        var kid := GenTree(R, R.apply(s, acts[i]), Opponent(c), Some(acts[i]), d - 1);
        assert kids[i] == kid;
        GenTreeShaped(R, R.apply(s, acts[i]), Opponent(c), Some(acts[i]), d - 1);
      }
    }
  }

  predicate IsLeaf<B>(R: Referee<B>, t: Tree<B>, depth: int) {
    depth == 0 || R.gameOver(t.state)
  }

  /** The plain minimax value of the stored tree searched to depth: a leaf
      is evaluated, an inner node takes the largest (maximising) or
      smallest (minimising) value of its children, -inf or +inf without
      children. */
  function TreeValue<B>(R: Referee<B>, t: Tree<B>, depth: int, maximizing: bool): ExtInt
    decreases t, 1
  {
    if IsLeaf(R, t, depth) then Fin(Evaluation(R.cells(t.state)))
    else
      var vs := KidValues(R, t.kids, depth - 1, !maximizing);
      if maximizing then MaxSeq(vs) else MinSeq(vs)
  }

  function KidValues<B>(R: Referee<B>, ts: seq<Tree<B>>, depth: int, maximizing: bool): seq<ExtInt>
    decreases ts, 0
  {
    seq(|ts|, i requires 0 <= i < |ts| => TreeValue(R, ts[i], depth, maximizing))
  }

  /** The child the full-window search picks has the value of its parent,
      and there is none exactly when the parent's value is the sentinel. */
  lemma FirstChoiceValue<B>(R: Referee<B>, t: Tree<B>, depth: int, maximizing: bool, k: int)
    requires !IsLeaf(R, t, depth)
    requires maximizing ==> IsFirstMax(KidValues(R, t.kids, depth - 1, false), k)
    requires !maximizing ==> IsFirstMin(KidValues(R, t.kids, depth - 1, true), k)
    ensures k == -1 <==> TreeValue(R, t, depth, maximizing) == (if maximizing then NegInf else PosInf)
    ensures k != -1 ==> 0 <= k < |t.kids| && TreeValue(R, t.kids[k], depth - 1, !maximizing) == TreeValue(R, t, depth, maximizing)
  {
    var vs := KidValues(R, t.kids, depth - 1, !maximizing);
    if maximizing {
      FirstMaxUnique(vs, k, k);
    } else {
      FirstMinUnique(vs, k, k);
    }
  }

  lemma AppendNext<T>(front: seq<T>, all: seq<T>, i: int)
    requires 0 <= i < |all|
    ensures front + all[..i] + [all[i]] == front + all[..i + 1]
  {
    assert all[..i + 1] == all[..i] + [all[i]];
  }

  // ---------------------------------------------------------------------
  // Node
  // ---------------------------------------------------------------------

  /** The children _generate_tree_recursive appends, none at depth 0 or at
      a finished game and otherwise one expanded child per legal action, are
      GenTree's children; appended to no earlier children they give GenTree. */
  lemma SnapshotOfFreshNode<B>(R: Referee<B>, t: Tree<B>, kids0: seq<Tree<B>>, depth: nat)
    requires depth > 0 && !R.gameOver(t.state) ==>
      t.kids == kids0 + GenKids(R, t.state, t.color, LegalActions(R, t.state, t.color), depth - 1)
    requires depth == 0 || R.gameOver(t.state) ==> t.kids == kids0
    ensures t.kids == kids0 + GenTree(R, t.state, t.color, t.action, depth).kids
    ensures kids0 == [] ==> t == GenTree(R, t.state, t.color, t.action, depth)
  {
    if depth == 0 || R.gameOver(t.state) {
      assert kids0 + [] == kids0;
    }
    if kids0 == [] {
      assert t.kids == GenTree(R, t.state, t.color, t.action, depth).kids;
    }
  }

  class Node<B> {
    const color: Color
    const state: B
    const parent: Node?<B>
    const action: Option<Action>
    var children: seq<Node<B>>
    const level: int
    /** The subtree below this node, as a value. */
    ghost var Snapshot: Tree<B>
    ghost var Repr: set<object>

    /** The children are distinct subtrees below this node, each linked back
        to it one level deeper, and Snapshot mirrors them. */
    ghost predicate Valid()
      reads this, Repr
      decreases Repr
    {
      && this in Repr
      && Snapshot.state == state && Snapshot.color == color && Snapshot.action == action
      && |Snapshot.kids| == |children|
      && forall i :: 0 <= i < |children| ==>
           && children[i] in Repr && children[i].Repr <= Repr && this !in children[i].Repr
           && children[i].parent == this && children[i].level == level + 1
           && children[i].Valid() && children[i].Snapshot == Snapshot.kids[i]
    }

    constructor (state: B, color: Color, level: int, parent: Node?<B>, action: Option<Action>)
      ensures Valid() && fresh(Repr)
      ensures this.state == state && this.color == color && this.level == level
      ensures this.parent == parent && this.action == action
      ensures children == [] && Snapshot == Tree(state, color, action, [])
    {
      this.color := color;
      this.state := state;
      this.parent := parent;
      this.action := action;
      this.children := [];
      this.level := level;
      Snapshot := Tree(state, color, action, []);
      Repr := {this};
    }

    method AddChild(child: Node<B>)
      modifies this
      ensures children == old(children) + [child]
      ensures Snapshot == old(Snapshot) && Repr == old(Repr)
    {
      children := children + [child];
    }

    /** The children C0 this node had before an append: still valid subtrees
        inside R0 with snapshots K0, linked back to it and not containing it. */
    ghost predicate KidsIntact(C0: seq<Node<B>>, K0: seq<Tree<B>>, R0: set<object>)
      reads set i | 0 <= i < |C0| :: C0[i]
      reads set i, o | 0 <= i < |C0| && o in C0[i].Repr :: o
    {
      |C0| == |K0| &&
      forall i :: 0 <= i < |C0| ==>
        && C0[i] in R0 && C0[i].Repr <= R0 && this !in C0[i].Repr
        && C0[i].parent == this && C0[i].level == level + 1
        && C0[i].Valid() && C0[i].Snapshot == K0[i]
    }

    /** Takes the last child, already expanded, into Repr and Snapshot. */
    ghost method AdoptLast(child: Node<B>, C0: seq<Node<B>>, K0: seq<Tree<B>>, R0: set<object>)
      requires children == C0 + [child] && this in R0 && KidsIntact(C0, K0, R0)
      requires Snapshot.state == state && Snapshot.color == color && Snapshot.action == action
      requires child.Valid() && this !in child.Repr && child.parent == this && child.level == level + 1
      modifies this
      ensures Valid() && Repr == R0 + child.Repr
      ensures Snapshot == Tree(state, color, action, K0 + [child.Snapshot])
    {
      Repr := R0 + child.Repr;
      Snapshot := Tree(state, color, action, K0 + [child.Snapshot]);
      assert KidsIntact(C0, K0, R0);
    }

    /** get_legal_actions: the scan over COORDINATES. */
    method GetLegalActions(R: Referee<B>) returns (spawns: seq<Action>, spreads: seq<Action>)
      ensures spawns + spreads == LegalActions(R, state, color)
      ensures spawns == SpawnsIn(R, state, Coordinates)
      ensures spreads == SpreadsIn(R, state, color, Coordinates)
    {
      spawns, spreads := [], [];
      for i := 0 to |Coordinates|
        invariant spawns == SpawnsIn(R, state, Coordinates[..i])
        invariant spreads == SpreadsIn(R, state, color, Coordinates[..i])
      {
        var cor := Coordinates[i];
        assert Coordinates[..i + 1][..i] == Coordinates[..i];
        if R.occupied(state, cor) {
          var cell := R.cell(state, cor);
          if cell.player == Some(color) {
            for j := 0 to 6
              invariant spreads == SpreadsIn(R, state, color, Coordinates[..i]) + SixSpreads(cor)[..j]
            {
              spreads := spreads + [Spread(cor, Directions[j])];
              assert SixSpreads(cor)[..j + 1] == SixSpreads(cor)[..j] + [SixSpreads(cor)[j]];
            }
            assert SixSpreads(cor)[..6] == SixSpreads(cor);
          }
        } else {
          spawns := spawns + [Spawn(cor)];
        }
      }
      assert Coordinates[..|Coordinates|] == Coordinates;
    }

    /** evaluation: BLUE's power minus the power of every other cell. */
    method Evaluation(R: Referee<B>) returns (score: int)
      ensures score == PowerOf(R.cells(state), true) - PowerOf(R.cells(state), false)
    {
      var cells := R.cells(state);
      var redPower, bluePower := 0, 0;
      for i := 0 to |cells|
        invariant bluePower == PowerOf(cells[..i], true)
        invariant redPower == PowerOf(cells[..i], false)
      {
        assert cells[..i + 1][..i] == cells[..i];
        if cells[i].player == Some(Blue) {
          bluePower := bluePower + cells[i].power;
        } else {
          redPower := redPower + cells[i].power;
        }
      }
      assert cells[..|cells|] == cells;
      score := bluePower - redPower;
    }
  }

  // ---------------------------------------------------------------------
  // MiniMax
  // ---------------------------------------------------------------------

  class MiniMax<B> {
    const root: Node<B>
    const maxDepth: int

    constructor (rootState: B, currColor: Color, maxDepth: int)
      ensures root.Valid() && fresh(root.Repr)
      ensures root.state == rootState && root.color == currColor && root.level == 0
      ensures root.parent == null && root.action == None && root.children == []
      ensures root.Snapshot == Tree(rootState, currColor, None, [])
      ensures this.maxDepth == maxDepth
    {
      root := new Node(rootState, currColor, 0, null, None);
      this.maxDepth := maxDepth;
    }

    /** generate_tree: on a fresh root it stores GenTree to maxDepth. */
    method GenerateTree(R: Referee<B>)
      requires root.Valid() && maxDepth >= 0
      modifies root
      ensures root.Valid() && fresh(root.Repr - old(root.Repr))
      ensures root.Snapshot.kids == old(root.Snapshot.kids) + GenTree(R, root.state, root.color, root.action, maxDepth).kids
      ensures old(root.children) == [] ==> root.Snapshot == GenTree(R, root.state, root.color, root.action, maxDepth)
    {
      GenerateTreeRecursive(R, root, maxDepth);
    }

    /** _generate_tree_recursive: appends below node the children GenTree
        gives it, each expanded to depth - 1 before the next is made. */
    static method GenerateTreeRecursive(R: Referee<B>, node: Node<B>, depth: int)
      requires node.Valid() && depth >= 0
      modifies node
      ensures node.Valid() && fresh(node.Repr - old(node.Repr))
      ensures node.Snapshot.kids == old(node.Snapshot.kids) + GenTree(R, node.state, node.color, node.action, depth).kids
      ensures old(node.children) == [] ==> node.Snapshot == GenTree(R, node.state, node.color, node.action, depth)
      decreases depth, 0
    {
      ghost var kids0 := node.Snapshot.kids;
      if depth > 0 && !R.gameOver(node.state) {
        ExpandNode(R, node, depth - 1);
      }
      SnapshotOfFreshNode(R, node.Snapshot, kids0, depth);
    }

    /** The expanding part of _generate_tree_recursive: the legal actions,
        spawns before spreads, each made into a child expanded to depth. */
    static method ExpandNode(R: Referee<B>, node: Node<B>, depth: int)
      requires node.Valid() && depth >= 0
      modifies node
      ensures node.Valid() && fresh(node.Repr - old(node.Repr))
      ensures node.Snapshot.kids == old(node.Snapshot.kids) + GenKids(R, node.state, node.color, LegalActions(R, node.state, node.color), depth)
      decreases depth, 3
    {
      var spawns, spreads := node.GetLegalActions(R);
      var nextColor := Opponent(node.color);
      var acts := spawns + spreads;
      AddExpandedChildren(R, node, nextColor, acts, depth);
    }

    /** The loop of _generate_tree_recursive: one expanded child per action,
        in order. */
    static method AddExpandedChildren(R: Referee<B>, node: Node<B>, nextColor: Color, acts: seq<Action>, depth: int)
      requires node.Valid() && depth >= 0 && nextColor == Opponent(node.color)
      modifies node
      ensures node.Valid() && fresh(node.Repr - old(node.Repr))
      ensures node.Snapshot.kids == old(node.Snapshot.kids) + GenKids(R, node.state, node.color, acts, depth)
      decreases depth, 2
    {
      ghost var kids0 := node.Snapshot.kids;
      ghost var gen := GenKids(R, node.state, node.color, acts, depth);
      for i := 0 to |acts|
        invariant node.Valid() && fresh(node.Repr - old(node.Repr))
        invariant node.Snapshot.kids == kids0 + gen[..i]
      {
        AddExpandedChild(R, node, nextColor, acts[i], depth);
        AppendNext(kids0, gen, i);
      }
      assert gen[..|acts|] == gen;
    }

    /** The body of _generate_tree_recursive's loop: the child the action
        leads to is made with the other colour, one level deeper, linked to
        node, appended to node's children and then expanded to depth. */
    static method AddExpandedChild(R: Referee<B>, node: Node<B>, nextColor: Color, action: Action, depth: int)
      requires node.Valid() && depth >= 0
      modifies node
      ensures node.Valid() && fresh(node.Repr - old(node.Repr))
      ensures node.Snapshot.kids == old(node.Snapshot.kids) + [GenTree(R, R.apply(node.state, action), nextColor, Some(action), depth)]
      decreases depth, 1
    {
      ghost var C0, K0, R0 := node.children, node.Snapshot.kids, node.Repr;
      assert node.KidsIntact(C0, K0, R0);
      var childState := R.apply(node.state, action);
      var child := new Node(childState, nextColor, node.level + 1, node, Some(action));
      node.AddChild(child);
      GenerateTreeRecursive(R, child, depth);
      node.AdoptLast(child, C0, K0, R0);
    }

    /** find_next_step: maximises exactly when the root is BLUE, the colour
        whose power Evaluation counts positively. */
    method FindNextStep(R: Referee<B>) returns (bestAction: Option<Action>, ghost k: int)
      requires root.Valid()
      ensures var t := root.Snapshot;
        IsLeaf(R, t, maxDepth) ==> bestAction == root.action
      ensures var t := root.Snapshot; var maximizing := root.color == Blue;
        !IsLeaf(R, t, maxDepth) ==>
          && (maximizing ==> IsFirstMax(KidValues(R, t.kids, maxDepth - 1, false), k))
          && (!maximizing ==> IsFirstMin(KidValues(R, t.kids, maxDepth - 1, true), k))
          && bestAction == (if k == -1 then None else t.kids[k].action)
          && (k == -1 <==> TreeValue(R, t, maxDepth, maximizing) == (if maximizing then NegInf else PosInf))
          && (k != -1 ==> TreeValue(R, t.kids[k], maxDepth - 1, !maximizing) == TreeValue(R, t, maxDepth, maximizing))
    {
      var maximizingPlayer := root.color == Blue;
      var bestValue;
      bestValue, bestAction, k := MinimaxAlphaBeta(R, root, maxDepth, NegInf, PosInf, maximizingPlayer);
      if !IsLeaf(R, root.Snapshot, maxDepth) {
        FirstChoiceValue(R, root.Snapshot, maxDepth, maximizingPlayer, k);
      }
    }

    /** _minimax_alpha_beta over the stored children.  With the full window
        the value is the tree's minimax value and the action is that of the
        first best child. */
    static method MinimaxAlphaBeta(R: Referee<B>, node: Node<B>, depth: int, alpha: ExtInt, beta: ExtInt, maximizingPlayer: bool)
      returns (value: ExtInt, bestAction: Option<Action>, ghost k: int)
      requires node.Valid()
      ensures Lt(alpha, beta) ==> FailSoft(value, TreeValue(R, node.Snapshot, depth, maximizingPlayer), alpha, beta)
      ensures alpha == NegInf && beta == PosInf ==> value == TreeValue(R, node.Snapshot, depth, maximizingPlayer)
      ensures IsLeaf(R, node.Snapshot, depth) ==> bestAction == node.action
      ensures !IsLeaf(R, node.Snapshot, depth) ==>
        (k == -1 && bestAction == None) || (0 <= k < |node.Snapshot.kids| && bestAction == node.Snapshot.kids[k].action)
      ensures !IsLeaf(R, node.Snapshot, depth) && alpha == NegInf && beta == PosInf ==>
        && (maximizingPlayer ==> IsFirstMax(KidValues(R, node.Snapshot.kids, depth - 1, false), k))
        && (!maximizingPlayer ==> IsFirstMin(KidValues(R, node.Snapshot.kids, depth - 1, true), k))
      decreases node.Repr, 3
    {
      if depth == 0 || R.gameOver(node.state) {
        var score := node.Evaluation(R);
        return Fin(score), node.action, -1;
      }
      if maximizingPlayer {
        value, bestAction, k := MaxChildren(R, node, depth, alpha, beta);
      } else {
        value, bestAction, k := MinChildren(R, node, depth, alpha, beta);
      }
      if alpha == NegInf && beta == PosInf {
        FullWindowExact(value, TreeValue(R, node.Snapshot, depth, maximizingPlayer));
      }
    }

    /** No child picked yet (k = -1, no action), or the k-th of the first
        i children with its action. */
    static predicate ChoiceAmong(ts: seq<Tree<B>>, i: int, k: int, bestAction: Option<Action>) {
      (k == -1 && bestAction == None) || (0 <= k < i && k < |ts| && bestAction == ts[k].action)
    }

    /** The recursive call of the loops of _minimax_alpha_beta: the i-th
        child searched for the other player, and its action. */
    static method SearchChild(R: Referee<B>, node: Node<B>, i: int, depth: int, alpha: ExtInt, beta: ExtInt, maximizingPlayer: bool)
      returns (value: ExtInt, action: Option<Action>)
      requires node.Valid() && 0 <= i < |node.children|
      ensures Lt(alpha, beta) ==> FailSoft(value, KidValues(R, node.Snapshot.kids, depth, maximizingPlayer)[i], alpha, beta)
      ensures action == node.Snapshot.kids[i].action
      decreases node.Repr, 0
    {
      var child := node.children[i];
      var v, _, _ := MinimaxAlphaBeta(R, child, depth, alpha, beta, maximizingPlayer);
      value, action := v, child.action;
    }

    /** The maximising branch of _minimax_alpha_beta. */
    static method MaxChildren(R: Referee<B>, node: Node<B>, depth: int, alpha0: ExtInt, beta: ExtInt)
      returns (maxValue: ExtInt, bestAction: Option<Action>, ghost k: int)
      requires node.Valid()
      ensures var all := KidValues(R, node.Snapshot.kids, depth - 1, false);
        && (Lt(alpha0, beta) ==> FailSoft(maxValue, MaxSeq(all), alpha0, beta))
        && (alpha0 == NegInf && beta == PosInf ==> IsFirstMax(all, k))
      ensures ChoiceAmong(node.Snapshot.kids, |node.Snapshot.kids|, k, bestAction)
      decreases node.Repr, 2
    {
      ghost var kids := node.Snapshot.kids;
      ghost var all := KidValues(R, kids, depth - 1, false);
      maxValue, bestAction, k := NegInf, None, -1;
      var alpha := alpha0;
      MaxLoopInit(alpha0, beta, all);
      var n := |node.children|;
      assert |all| == |kids| == n;
      var i := 0;
      while i < n
        invariant 0 <= i <= n
        invariant MaxLoop(alpha0, beta, all, i, maxValue, alpha, k)
        invariant Lt(alpha0, beta) ==> Lt(alpha, beta)
        invariant ChoiceAmong(kids, i, k, bestAction)
      {
        maxValue, alpha, k, bestAction, i := MaxChildStep(R, node, i, depth, alpha0, beta, all, maxValue, alpha, k, bestAction);
        if Le(beta, alpha) {
          break;
        }
      }
      MaxLoopExit(alpha0, beta, all, i, maxValue, alpha, k);
    }

    /** One pass of the maximising loop: child i searched for the
        minimiser, the best value and its action kept, alpha raised. */
    static method MaxChildStep(R: Referee<B>, node: Node<B>, i: int, depth: int, alpha0: ExtInt, beta: ExtInt,
                               ghost all: seq<ExtInt>, maxValue: ExtInt, alpha: ExtInt, ghost k: int, bestAction: Option<Action>)
      returns (maxValue': ExtInt, alpha': ExtInt, ghost k': int, bestAction': Option<Action>, i': int)
      requires node.Valid() && 0 <= i < |node.children|
      requires all == KidValues(R, node.Snapshot.kids, depth - 1, false)
      requires MaxLoop(alpha0, beta, all, i, maxValue, alpha, k) && (Lt(alpha0, beta) ==> Lt(alpha, beta))
      requires ChoiceAmong(node.Snapshot.kids, i, k, bestAction)
      ensures i' == i + 1
      ensures MaxLoop(alpha0, beta, all, i', maxValue', alpha', k')
      ensures ChoiceAmong(node.Snapshot.kids, i', k', bestAction')
      decreases node.Repr, 1
    {
      i' := i + 1;
      var v, a := SearchChild(R, node, i, depth - 1, alpha, beta, false);
      MaxLoopStep(alpha0, beta, all, i, maxValue, alpha, k, v);
      maxValue', bestAction', k' := maxValue, bestAction, k;
      if Lt(maxValue, v) {
        maxValue', bestAction', k' := v, a, i;
      }
      alpha' := Max(alpha, maxValue');
    }

    /** One pass of the minimising loop: child i searched for the
        maximiser, the smallest value and its action kept, beta lowered. */
    static method MinChildStep(R: Referee<B>, node: Node<B>, i: int, depth: int, alpha: ExtInt, beta0: ExtInt,
                               ghost all: seq<ExtInt>, minValue: ExtInt, beta: ExtInt, ghost k: int, bestAction: Option<Action>)
      returns (minValue': ExtInt, beta': ExtInt, ghost k': int, bestAction': Option<Action>, i': int)
      requires node.Valid() && 0 <= i < |node.children|
      requires all == KidValues(R, node.Snapshot.kids, depth - 1, true)
      requires MinLoop(alpha, beta0, all, i, minValue, beta, k) && (Lt(alpha, beta0) ==> Lt(alpha, beta))
      requires ChoiceAmong(node.Snapshot.kids, i, k, bestAction)
      ensures i' == i + 1
      ensures MinLoop(alpha, beta0, all, i', minValue', beta', k')
      ensures ChoiceAmong(node.Snapshot.kids, i', k', bestAction')
      decreases node.Repr, 1
    {
      i' := i + 1;
      var v, a := SearchChild(R, node, i, depth - 1, alpha, beta, true);
      MinLoopStep(alpha, beta0, all, i, minValue, beta, k, v);
      minValue', bestAction', k' := minValue, bestAction, k;
      if Lt(v, minValue) {
        minValue', bestAction', k' := v, a, i;
      }
      beta' := Min(beta, minValue');
    }

    /** The minimising branch of _minimax_alpha_beta. */
    static method MinChildren(R: Referee<B>, node: Node<B>, depth: int, alpha: ExtInt, beta0: ExtInt)
      returns (minValue: ExtInt, bestAction: Option<Action>, ghost k: int)
      requires node.Valid()
      ensures var all := KidValues(R, node.Snapshot.kids, depth - 1, true);
        && (Lt(alpha, beta0) ==> FailSoft(minValue, MinSeq(all), alpha, beta0))
        && (alpha == NegInf && beta0 == PosInf ==> IsFirstMin(all, k))
      ensures ChoiceAmong(node.Snapshot.kids, |node.Snapshot.kids|, k, bestAction)
      decreases node.Repr, 2
    {
      ghost var kids := node.Snapshot.kids;
      ghost var all := KidValues(R, kids, depth - 1, true);
      minValue, bestAction, k := PosInf, None, -1;
      var beta := beta0;
      MinLoopInit(alpha, beta0, all);
      var n := |node.children|;
      assert |all| == |kids| == n;
      var i := 0;
      while i < n
        invariant 0 <= i <= n
        invariant MinLoop(alpha, beta0, all, i, minValue, beta, k)
        invariant Lt(alpha, beta0) ==> Lt(alpha, beta)
        invariant ChoiceAmong(kids, i, k, bestAction)
      {
        minValue, beta, k, bestAction, i := MinChildStep(R, node, i, depth, alpha, beta0, all, minValue, beta, k, bestAction);
        if Le(beta, alpha) {
          break;
        }
      }
      MinLoopExit(alpha, beta0, all, i, minValue, beta, k);
    }
  }
}
