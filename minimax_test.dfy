/** The iterative-deepening minimax agent (minimax_test/program.py).  The
    tree is grown lazily: a maximising node without children creates one
    child per legal action while it searches, a maximising node with
    children searches them again, and a minimising node does not recurse at
    all: it scores each of its legal actions one ply ahead with the root's
    heuristic.  `find_next_step` searches from the root at depths 1, 2, ...
    up to `max_depth`, always maximising, and keeps the action of the last
    depth it completed.

    The referee Board is the parameter `R: Referee<B>`; the wall clock is
    the parameter `timeUp`, true once the time limit has passed after the
    search to a given depth. */
module MinimaxTest {
  import opened Game
  import opened AlphaBeta
  import Minimax

  // ---------------------------------------------------------------------
  // Node.get_legal_actions
  // ---------------------------------------------------------------------

  /** The actions in the order of the scan, before the spawns are shuffled:
      the spreads from the cells owned by c, then (only while the total
      power is below 49) a spawn on every empty cell. */
  function LegalActions<B>(R: Referee<B>, b: B, c: Color): seq<Action> {
    var spreads := Minimax.SpreadsIn(R, b, c, Minimax.Coordinates);
    if R.totalPower(b) >= 49 then spreads
    else spreads + Minimax.SpawnsIn(R, b, Minimax.Coordinates)
  }

  lemma LegalActionsMember<B>(R: Referee<B>, b: B, c: Color, a: Action)
    ensures a in LegalActions(R, b, c) <==>
      || (a.Spread? && OnBoard(a.cell) && R.occupied(b, a.cell) && R.cell(b, a.cell).player == Some(c))
      || (a.Spawn? && OnBoard(a.cell) && !R.occupied(b, a.cell) && R.totalPower(b) < 49)
  {
    Minimax.LegalActionsMember(R, b, c, a);
  }

  // ---------------------------------------------------------------------
  // Node.evaluation / Node.evaluation_state
  // ---------------------------------------------------------------------

  /** int(0.5 * (7 * 7)) */
  const EndgameThreshold: int := 49 / 2

  /** The four counters of the evaluation loop.  An opponent cell adds 2 to
      oppCells. */
  datatype Tally = Tally(selfPower: int, selfCells: int, oppPower: int, oppCells: int)

  /** The counters after the first n cells. */
  function TallyUpTo(cells: seq<CellState>, n: nat, rootColor: Color): Tally
    requires n <= |cells|
  {
    if n == 0 then Tally(0, 0, 0, 0)
    else
      var t := TallyUpTo(cells, n - 1, rootColor);
      var x := cells[n - 1];
      if x.player == Some(rootColor) then
        t.(selfPower := t.selfPower + x.power, selfCells := t.selfCells + 1)
      else if x.player == Some(Opponent(rootColor)) then
        t.(oppPower := t.oppPower + x.power, oppCells := t.oppCells + 2)
      else t
  }

  function TallyOf(cells: seq<CellState>, rootColor: Color): Tally {
    TallyUpTo(cells, |cells|, rootColor)
  }

  /** The heuristic from rootColor's side: power difference weighted 2, or 3
      once the counted cells reach the threshold, plus the cell difference. */
  function Heuristic(cells: seq<CellState>, rootColor: Color): int {
    var t := TallyOf(cells, rootColor);
    var powerScore := t.selfPower - t.oppPower;
    var cellScore := t.selfCells - t.oppCells;
    if t.selfCells + t.oppCells >= EndgameThreshold then 3 * powerScore + cellScore
    else 2 * powerScore + cellScore
  }

  /** The number of cells owned by c. */
  function CountOwned(cells: seq<CellState>, c: Color): nat {
    if cells == [] then 0
    else CountOwned(cells[..|cells| - 1], c) + (if cells[|cells| - 1].player == Some(c) then 1 else 0)
  }

  /** The power of the cells owned by c. */
  function PowerOwned(cells: seq<CellState>, c: Color): int {
    if cells == [] then 0
    else PowerOwned(cells[..|cells| - 1], c) + (if cells[|cells| - 1].player == Some(c) then cells[|cells| - 1].power else 0)
  }

  /** The loop counts each own cell once and each opponent cell twice, and
      sums each side's power; an empty cell counts for neither side. */
  lemma {:induction false} TallyCounts(cells: seq<CellState>, n: nat, rootColor: Color)
    requires n <= |cells|
    ensures var t := TallyUpTo(cells, n, rootColor);
      && t.selfCells == CountOwned(cells[..n], rootColor)
      && t.oppCells == 2 * CountOwned(cells[..n], Opponent(rootColor))
      && t.selfPower == PowerOwned(cells[..n], rootColor)
      && t.oppPower == PowerOwned(cells[..n], Opponent(rootColor))
  {
    if n > 0 {
      TallyCounts(cells, n - 1, rootColor);
      assert cells[..n][..n - 1] == cells[..n - 1];
    }
  }

  /** The heuristic in terms of the board: the switch to power weight 3 is
      taken on own cells plus twice the opponent cells, not on the number
      of occupied cells. */
  lemma HeuristicWeights(cells: seq<CellState>, rootColor: Color)
    ensures var own := CountOwned(cells, rootColor);
      var opp := CountOwned(cells, Opponent(rootColor));
      Heuristic(cells, rootColor) ==
        (if own + 2 * opp >= 24 then 3 else 2) * (PowerOwned(cells, rootColor) - PowerOwned(cells, Opponent(rootColor)))
          + own - 2 * opp
  {
    TallyCounts(cells, |cells|, rootColor);
    assert cells[..|cells|] == cells;
  }

  /** Sixteen occupied cells, under half of the board, already select the
      endgame weight when eight of them are the opponent's. */
  lemma EndgameWeightOnSixteenCells()
    ensures var cells := seq(16, i => CellState(Some(if i < 8 then Red else Blue), 1));
      && CountOwned(cells, Red) + CountOwned(cells, Blue) == 16
      && TallyOf(cells, Red).selfCells + TallyOf(cells, Red).oppCells >= EndgameThreshold
  {
    var cells := seq(16, i => CellState(Some(if i < 8 then Red else Blue), 1));
    TallyCounts(cells, 16, Red);
    assert cells[..16] == cells;
    CountsOfSplit(cells, 8);
  }

  lemma {:induction false} CountsOfSplit(cells: seq<CellState>, n: nat)
    requires n <= |cells|
    requires forall i :: 0 <= i < |cells| ==> cells[i].player == Some(if i < n then Red else Blue)
    ensures CountOwned(cells, Red) == n && CountOwned(cells, Blue) == |cells| - n
    decreases |cells|
  {
    if cells != [] {
      var init := cells[..|cells| - 1];
      if n == |cells| {
        CountsOfSplit(init, n - 1);
      } else {
        CountsOfSplit(init, n);
      }
    }
  }

  // ---------------------------------------------------------------------
  // The values the search computes
  // ---------------------------------------------------------------------

  /** A finished game is +inf when the root's colour won and -inf otherwise,
      a draw included. */
  function TerminalValue<B>(R: Referee<B>, rootColor: Color, s: B): ExtInt {
    if R.winner(s) == Some(rootColor) then PosInf else NegInf
  }

  /** The root's heuristic one ply after each action. */
  function OnePly<B>(R: Referee<B>, rootColor: Color, s: B, acts: seq<Action>): seq<ExtInt> {
    seq(|acts|, i requires 0 <= i < |acts| => Fin(Heuristic(R.cells(R.apply(s, acts[i])), rootColor)))
  }

  /** The value of a minimising node (colour c) at depth: a leaf at depth 0,
      the sentinel of a finished game, otherwise the smallest one-ply score;
      deeper plies are never searched. */
  function MinNodeValue<B>(R: Referee<B>, rootColor: Color, s: B, c: Color, depth: int): ExtInt {
    if depth == 0 then Fin(Heuristic(R.cells(s), rootColor))
    else if R.gameOver(s) then TerminalValue(R, rootColor, s)
    else MinSeq(OnePly(R, rootColor, s, LegalActions(R, s, c)))
  }

  /** The values of the minimising children the actions lead to. */
  function ReplyValues<B>(R: Referee<B>, rootColor: Color, s: B, c: Color, acts: seq<Action>, depth: int): seq<ExtInt> {
    seq(|acts|, i requires 0 <= i < |acts| => MinNodeValue(R, rootColor, R.apply(s, acts[i]), Opponent(c), depth))
  }

  /** The value of a maximising node (colour c) expanded at depth. */
  function MaxNodeValue<B>(R: Referee<B>, rootColor: Color, s: B, c: Color, depth: int): ExtInt {
    if depth == 0 then Fin(Heuristic(R.cells(s), rootColor))
    else if R.gameOver(s) then TerminalValue(R, rootColor, s)
    else MaxSeq(ReplyValues(R, rootColor, s, c, LegalActions(R, s, c), depth - 1))
  }

  /** Searching deeper than two plies changes nothing: the minimising ply
      ignores the depth it is given. */
  lemma DeeperSearchSameValue<B>(R: Referee<B>, rootColor: Color, s: B, c: Color, depth: int)
    requires depth >= 2
    ensures MaxNodeValue(R, rootColor, s, c, depth) == MaxNodeValue(R, rootColor, s, c, 2)
  {
    if !R.gameOver(s) {
      var acts := LegalActions(R, s, c);
      var deep := ReplyValues(R, rootColor, s, c, acts, depth - 1);
      var shallow := ReplyValues(R, rootColor, s, c, acts, 1);
      forall i | 0 <= i < |acts| ensures deep[i] == shallow[i] {
        var t := R.apply(s, acts[i]);
        assert deep[i] == MinNodeValue(R, rootColor, t, Opponent(c), depth - 1);
        assert shallow[i] == MinNodeValue(R, rootColor, t, Opponent(c), 1);
      }
      assert deep == shallow;
    }
  }

  /** Reply values over a reordering of the actions hold the same values. */
  lemma ReplyValuesSameElements<B>(R: Referee<B>, rootColor: Color, s: B, c: Color, a1: seq<Action>, a2: seq<Action>, depth: int)
    requires multiset(a1) == multiset(a2)
    ensures forall x :: x in ReplyValues(R, rootColor, s, c, a1, depth) <==> x in ReplyValues(R, rootColor, s, c, a2, depth)
  {
    PermutationMembers(a1, a2);
    var v1 := ReplyValues(R, rootColor, s, c, a1, depth);
    var v2 := ReplyValues(R, rootColor, s, c, a2, depth);
    forall x ensures x in v1 <==> x in v2 {
      if x in v1 {
        var i :| 0 <= i < |a1| && v1[i] == x;
        assert a1[i] in a2;
        var j :| 0 <= j < |a2| && a2[j] == a1[i];
        assert v2[j] == x;
      }
      if x in v2 {
        var j :| 0 <= j < |a2| && v2[j] == x;
        assert a2[j] in a1;
        var i :| 0 <= i < |a1| && a1[i] == a2[j];
        assert v1[i] == x;
      }
    }
  }

  // ---------------------------------------------------------------------
  // Node
  // ---------------------------------------------------------------------

  class Node<B> {
    const color: Color
    const state: B
    const action: Option<Action>
    const level: int
    var children: seq<Node<B>>

    constructor (state: B, color: Color, level: int, action: Option<Action>)
      ensures this.state == state && this.color == color && this.level == level && this.action == action
      ensures children == []
    {
      this.color := color;
      this.state := state;
      this.action := action;
      this.level := level;
      children := [];
    }

    method AddChild(child: Node<B>)
      modifies this
      ensures children == old(children) + [child]
    {
      children := children + [child];
    }

    /** get_legal_actions: the scan, then the spawns shuffled and dropped
        once the total power reaches 49. */
    method GetLegalActions(R: Referee<B>) returns (actions: seq<Action>)
      ensures multiset(actions) == multiset(LegalActions(R, state, color))
      ensures var spreads := Minimax.SpreadsIn(R, state, color, Minimax.Coordinates);
        |spreads| <= |actions| && actions[..|spreads|] == spreads
    {
      var spawns, spreads := [], [];
      for i := 0 to |Minimax.Coordinates|
        invariant spawns == Minimax.SpawnsIn(R, state, Minimax.Coordinates[..i])
        invariant spreads == Minimax.SpreadsIn(R, state, color, Minimax.Coordinates[..i])
      {
        var cor := Minimax.Coordinates[i];
        assert Minimax.Coordinates[..i + 1][..i] == Minimax.Coordinates[..i];
        if R.occupied(state, cor) {
          var cell := R.cell(state, cor);
          if cell.player == Some(color) {
            for j := 0 to 6
              invariant spreads == Minimax.SpreadsIn(R, state, color, Minimax.Coordinates[..i]) + SixSpreads(cor)[..j]
            {
              spreads := spreads + [Spread(cor, Directions[j])];
              assert SixSpreads(cor)[..j + 1] == SixSpreads(cor)[..j] + [SixSpreads(cor)[j]];
            }
            assert SixSpreads(cor)[..6] == SixSpreads(cor);
          }
        } else {
          spawns := spawns + [Spawn(cor)];
        }
      }
      assert Minimax.Coordinates[..|Minimax.Coordinates|] == Minimax.Coordinates;
      spawns := Shuffle(spawns);
      if R.totalPower(state) >= 49 {
        actions := spreads;
      } else {
        actions := spreads + spawns;
        assert actions[|spreads|..] == spawns;
      }
      assert actions[..|spreads|] == spreads;
    }

    /** evaluation(root_color): the heuristic of this node's position. */
    method Evaluation(R: Referee<B>, rootColor: Color) returns (score: int)
      ensures score == Heuristic(R.cells(state), rootColor)
    {
      score := EvaluationState(R, rootColor, state);
    }

    /** evaluation_state(root_color, test_state): the same loop as
        evaluation, run on test_state instead of this node's position. */
    method EvaluationState(R: Referee<B>, rootColor: Color, testState: B) returns (score: int)
      ensures score == Heuristic(R.cells(testState), rootColor)
    {
      var cells := R.cells(testState);
      var oppPower, selfPower, oppCells, selfCells := 0, 0, 0, 0;
      for i := 0 to |cells|
        invariant Tally(selfPower, selfCells, oppPower, oppCells) == TallyUpTo(cells, i, rootColor)
      {
        if cells[i].player == Some(rootColor) {
          selfPower := selfPower + cells[i].power;
          selfCells := selfCells + 1;
        } else if cells[i].player == Some(Opponent(rootColor)) {
          oppPower := oppPower + cells[i].power;
          oppCells := oppCells + 2;
        }
      }
      var powerScore := selfPower - oppPower;
      var cellScore := selfCells - oppCells;
      var powerWeight, cellWeight := 2, 1;
      var totalCells := selfCells + oppCells;
      if totalCells >= EndgameThreshold {
        powerWeight, cellWeight := 3, 1;
      }
      score := powerWeight * powerScore + cellWeight * cellScore;
    }
  }

  // ---------------------------------------------------------------------
  // The lazily grown tree
  // ---------------------------------------------------------------------

  /** Every child of n is the position its action leads to, with the other
      colour, one level deeper, and has no children of its own. */
  ghost predicate Shallow<B>(R: Referee<B>, n: Node<B>)
    reads n, n.children
  {
    forall i :: 0 <= i < |n.children| ==>
      && n.children[i].children == []
      && n.children[i].color == Opponent(n.color)
      && n.children[i].level == n.level + 1
      && n.children[i].action.Some?
      && n.children[i].state == R.apply(n.state, n.children[i].action.value)
  }

  /** The actions of the children, in order. */
  function ChildActions<B>(cs: seq<Node<B>>): seq<Action>
    requires forall i :: 0 <= i < |cs| ==> cs[i].action.Some?
  {
    seq(|cs|, i requires 0 <= i < |cs| => cs[i].action.value)
  }

  /** The children hold the actions of a prefix of acts, in order. */
  predicate ActionsFollow<B>(cs: seq<Node<B>>, acts: seq<Action>) {
    |cs| <= |acts| && forall j :: 0 <= j < |cs| ==> cs[j].action == Some(acts[j])
  }

  lemma ActionsFollowExtend<B>(cs: seq<Node<B>>, c: Node<B>, acts: seq<Action>)
    requires ActionsFollow(cs, acts) && |cs| < |acts| && c.action == Some(acts[|cs|])
    ensures ActionsFollow(cs + [c], acts)
  {
  }

  /** n holds a child for every legal action, in some order. */
  ghost predicate Complete<B>(R: Referee<B>, n: Node<B>)
    reads n, n.children
  {
    Shallow(R, n) && multiset(ChildActions(n.children)) == multiset(LegalActions(R, n.state, n.color))
  }

  /** The minimising values of the children at depth. */
  function KidValues<B>(R: Referee<B>, rootColor: Color, cs: seq<Node<B>>, depth: int): seq<ExtInt> {
    seq(|cs|, i requires 0 <= i < |cs| => MinNodeValue(R, rootColor, cs[i].state, cs[i].color, depth))
  }

  /** The children made for a prefix of acts have the reply values of that
      prefix. */
  lemma KidValuesOfPrefix<B>(R: Referee<B>, rootColor: Color, n: Node<B>, acts: seq<Action>, depth: int)
    requires Shallow(R, n) && ActionsFollow(n.children, acts)
    ensures KidValues(R, rootColor, n.children, depth) == ReplyValues(R, rootColor, n.state, n.color, acts, depth)[..|n.children|]
  {
  }

  /** Over a complete node the children's values are the values of the
      node's legal actions: the first best child has the node's value. */
  lemma CompleteChoice<B>(R: Referee<B>, rootColor: Color, n: Node<B>, depth: int, k: int)
    requires Complete(R, n) && depth != 0 && !R.gameOver(n.state)
    requires IsFirstMax(KidValues(R, rootColor, n.children, depth - 1), k)
    ensures k == -1 <==> MaxNodeValue(R, rootColor, n.state, n.color, depth) == NegInf
    ensures k != -1 ==> (0 <= k < |n.children|
      && MinNodeValue(R, rootColor, n.children[k].state, n.children[k].color, depth - 1)
         == MaxNodeValue(R, rootColor, n.state, n.color, depth))
  {
    var legal := LegalActions(R, n.state, n.color);
    CompleteKidValues(R, rootColor, n, depth - 1);
    FirstMaxOfSameElements(KidValues(R, rootColor, n.children, depth - 1), ReplyValues(R, rootColor, n.state, n.color, legal, depth - 1), k);
  }

  /** The children of a complete node have the values of its legal actions,
      in the order the children are stored. */
  lemma CompleteKidValues<B>(R: Referee<B>, rootColor: Color, n: Node<B>, depth: int)
    requires Complete(R, n)
    ensures forall x :: x in KidValues(R, rootColor, n.children, depth) <==>
      x in ReplyValues(R, rootColor, n.state, n.color, LegalActions(R, n.state, n.color), depth)
  {
    var acts := ChildActions(n.children);
    var all := ReplyValues(R, rootColor, n.state, n.color, acts, depth);
    KidValuesOfPrefix(R, rootColor, n, acts, depth);
    assert all[..|n.children|] == all;
    ReplyValuesSameElements(R, rootColor, n.state, n.color, acts, LegalActions(R, n.state, n.color), depth);
  }

  /** The first maximum of a reordering names the maximum of the original. */
  lemma FirstMaxOfSameElements(vs: seq<ExtInt>, all: seq<ExtInt>, k: int)
    requires forall x :: x in vs <==> x in all
    requires IsFirstMax(vs, k)
    ensures k == -1 <==> MaxSeq(all) == NegInf
    ensures k != -1 ==> 0 <= k < |vs| && vs[k] == MaxSeq(all)
  {
    MaxSeqSameElements(vs, all);
    FirstMaxUnique(vs, k, k);
  }

  /** A maximising node one ply above the leaves never has the value +inf:
      its children are scored with the finite heuristic. */
  lemma DepthOneFinite<B>(R: Referee<B>, rootColor: Color, s: B, c: Color)
    requires !R.gameOver(s)
    ensures MaxNodeValue(R, rootColor, s, c, 1) != PosInf
  {
    var acts := LegalActions(R, s, c);
    var vs := ReplyValues(R, rootColor, s, c, acts, 0);
    forall i | 0 <= i < |vs| ensures vs[i].Fin? {
      assert vs[i] == MinNodeValue(R, rootColor, R.apply(s, acts[i]), Opponent(c), 0);
    }
    assert MaxSeq(vs) == NegInf || MaxSeq(vs) in vs;
  }

  /** After a full-window search a root without children holds one for
      every legal action: at depth 1 nothing is cut off because no value is
      +inf, and at a greater depth (the root already searched) there is no
      legal action to cut off. */
  lemma SearchCompletesRoot<B>(R: Referee<B>, rootColor: Color, n: Node<B>, depth: int, value: ExtInt, legal: seq<Action>)
    requires depth >= 1 && !R.gameOver(n.state) && Shallow(R, n)
    requires multiset(legal) == multiset(LegalActions(R, n.state, n.color))
    requires ActionsFollow(n.children, legal)
    requires |n.children| < |legal| ==> Le(PosInf, Max(NegInf, value))
    requires depth == 1 ==> FailSoft(value, MaxNodeValue(R, rootColor, n.state, n.color, 1), NegInf, PosInf)
    requires depth != 1 ==> multiset(LegalActions(R, n.state, n.color)) == multiset{}
    ensures Complete(R, n)
  {
    if depth == 1 {
      FullWindowExact(value, MaxNodeValue(R, rootColor, n.state, n.color, 1));
      DepthOneFinite(R, rootColor, n.state, n.color);
    } else {
      assert |multiset(legal)| == 0;
    }
    assert |n.children| == |legal|;
    assert ChildActions(n.children) == legal;
  }

  /** bestAction is the action of reply k among the first i, or None when
      k is -1. */
  predicate ReplyChoice(acts: seq<Action>, i: int, k: int, bestAction: Option<Action>) {
    -1 <= k < i && k < |acts| && bestAction == (if k == -1 then None else Some(acts[k]))
  }

  /** bestAction is the action of child k among the first i, or None when
      k is -1. */
  predicate KidChoice<B>(kids: seq<Node<B>>, i: int, k: int, bestAction: Option<Action>) {
    -1 <= k < i && k < |kids| && bestAction == (if k == -1 then None else kids[k].action)
  }

  class MiniMax<B> {
    const root: Node<B>
    const maxDepth: int

    /** The root has children only once it has one for every legal action. */
    ghost predicate Valid(R: Referee<B>)
      reads root, root.children
    {
      Shallow(R, root) && (root.children != [] ==> Complete(R, root))
    }

    /** The root holds a child for every legal action, and after the
        search to depth the chosen action is that of the first child whose
        value is the root's minimax value (None when every child is -inf). */
    ghost predicate RootChoice(R: Referee<B>, depth: int, bestAction: Option<Action>, k: int)
      reads root, root.children
    {
      && Complete(R, root)
      && IsFirstMax(KidValues(R, root.color, root.children, depth - 1), k)
      && bestAction == (if k == -1 then None else root.children[k].action)
      && (k == -1 <==> MaxNodeValue(R, root.color, root.state, root.color, depth) == NegInf)
      && (k != -1 ==> MinNodeValue(R, root.color, root.children[k].state, root.children[k].color, depth - 1)
                      == MaxNodeValue(R, root.color, root.state, root.color, depth))
    }

    constructor (rootState: B, currColor: Color, maxDepth: int)
      ensures fresh(root) && root.state == rootState && root.color == currColor
      ensures root.level == 0 && root.action == None && root.children == []
      ensures this.maxDepth == maxDepth
      ensures forall R: Referee<B> :: Valid(R)
    {
      root := new Node(rootState, currColor, 0, None);
      this.maxDepth := maxDepth;
    }

    /** find_next_step: searches the root at depths 1, 2, ... maxDepth,
        stopping after the first depth at which the time is up, and returns
        the action of the first best child at the last depth searched. */
    method FindNextStep(R: Referee<B>, timeUp: int -> bool) returns (bestAction: Option<Action>, ghost lastDepth: int, ghost k: int)
      requires Valid(R)
      modifies root
      ensures Valid(R)
      ensures maxDepth < 1 ==> bestAction == None && lastDepth == 0
      ensures maxDepth >= 1 ==> 1 <= lastDepth <= maxDepth && (lastDepth == maxDepth || timeUp(lastDepth))
      ensures forall d :: 1 <= d < lastDepth ==> !timeUp(d)
      ensures maxDepth >= 1 && R.gameOver(root.state) ==> bestAction == root.action
      ensures maxDepth >= 1 && !R.gameOver(root.state) ==> RootChoice(R, lastDepth, bestAction, k)
    {
      bestAction := None;
      lastDepth, k := 0, -1;
      var depth := 1;
      while depth <= maxDepth
        invariant Valid(R)
        invariant lastDepth == depth - 1 && 1 <= depth && (depth == 1 || depth <= maxDepth + 1)
        invariant forall d :: 1 <= d <= lastDepth ==> !timeUp(d)
        invariant lastDepth == 0 ==> bestAction == None
        invariant lastDepth >= 1 && R.gameOver(root.state) ==> bestAction == root.action
        invariant lastDepth >= 1 && !R.gameOver(root.state) ==> RootChoice(R, lastDepth, bestAction, k)
      {
        var currentAction, kk := SearchRoot(R, depth, lastDepth >= 1);
        bestAction, lastDepth, k := currentAction, depth, kk;
        if timeUp(depth) {
          break;
        }
        depth := depth + 1;
      }
    }

    /** One pass of find_next_step: the full-window search of the root to
        depth.  After it the root holds a child for every legal action, the
        first of them with the root's value supplying the action. */
    method SearchRoot(R: Referee<B>, depth: int, ghost searched: bool) returns (bestAction: Option<Action>, ghost k: int)
      requires Valid(R) && depth >= 1
      requires searched && !R.gameOver(root.state) ==> Complete(R, root)
      requires !searched ==> depth == 1
      modifies root
      ensures Valid(R)
      ensures R.gameOver(root.state) ==> bestAction == root.action
      ensures !R.gameOver(root.state) ==> RootChoice(R, depth, bestAction, k)
    {
      ghost var wasEmpty := root.children == [];
      var currentValue, currentAction, kk, legal := MinimaxAlphaBeta(R, root, depth, NegInf, PosInf, true);
      if !R.gameOver(root.state) && wasEmpty {
        if depth != 1 {
          assert ChildActions<B>([]) == [];
        }
        SearchCompletesRoot(R, root.color, root, depth, currentValue, legal);
      }
      bestAction, k := currentAction, kk;
      if !R.gameOver(root.state) {
        CompleteChoice(R, root.color, root, depth, k);
      }
    }

    /** _minimax_alpha_beta. */
    method MinimaxAlphaBeta(R: Referee<B>, node: Node<B>, depth: int, alpha: ExtInt, beta: ExtInt, maximizingPlayer: bool)
      returns (value: ExtInt, bestAction: Option<Action>, ghost k: int, ghost legal: seq<Action>)
      requires Shallow(R, node)
      requires !maximizingPlayer ==> node.children == []
      modifies if maximizingPlayer then {node} else {}
      ensures Shallow(R, node)
      ensures old(node.children) != [] ==> node.children == old(node.children)
      ensures depth == 0 ==> value == Fin(Heuristic(R.cells(node.state), root.color)) && bestAction == node.action
      ensures depth != 0 && R.gameOver(node.state) ==> value == TerminalValue(R, root.color, node.state) && bestAction == node.action
      ensures depth == 0 || R.gameOver(node.state) ==> node.children == old(node.children)
      ensures !maximizingPlayer && Lt(alpha, beta) ==>
        FailSoft(value, MinNodeValue(R, root.color, node.state, node.color, depth), alpha, beta)
      ensures maximizingPlayer && old(node.children) == [] && Lt(alpha, beta) ==>
        FailSoft(value, MaxNodeValue(R, root.color, node.state, node.color, depth), alpha, beta)
      ensures maximizingPlayer && old(node.children) == [] && depth != 0 && !R.gameOver(node.state) ==>
        && multiset(legal) == multiset(LegalActions(R, node.state, node.color))
        && ActionsFollow(node.children, legal)
        && (|node.children| < |legal| ==> Le(beta, Max(alpha, value)))
      ensures maximizingPlayer && old(node.children) != [] && depth != 0 && !R.gameOver(node.state) && Lt(alpha, beta) ==>
        FailSoft(value, MaxSeq(KidValues(R, root.color, node.children, depth - 1)), alpha, beta)
      ensures maximizingPlayer && depth != 0 && !R.gameOver(node.state) && alpha == NegInf && beta == PosInf ==>
        && IsFirstMax(KidValues(R, root.color, node.children, depth - 1), k)
        && bestAction == (if k == -1 then None else node.children[k].action)
      decreases if maximizingPlayer then 1 else 0, 1
    {
      legal := [];
      k := -1;
      if depth == 0 {
        var score := node.Evaluation(R, root.color);
        return Fin(score), node.action, k, legal;
      }
      if R.gameOver(node.state) {
        if R.winner(node.state) == Some(root.color) {
          return PosInf, node.action, k, legal;
        } else {
          return NegInf, node.action, k, legal;
        }
      }
      var legalActions: seq<Action> := [];
      if node.children == [] {
        legalActions := node.GetLegalActions(R);
        legal := legalActions;
      }
      if maximizingPlayer {
        if node.children != [] {
          value, bestAction, k := MaxOverChildren(R, node, depth, alpha, beta);
        } else {
          value, bestAction, k := MaxExpanding(R, node, legalActions, depth, alpha, beta);
          if Lt(alpha, beta) {
            ghost var all := ReplyValues(R, root.color, node.state, node.color, legalActions, depth - 1);
            ReplyValuesSameElements(R, root.color, node.state, node.color, legalActions, LegalActions(R, node.state, node.color), depth - 1);
            MaxSeqSameElements(all, ReplyValues(R, root.color, node.state, node.color, LegalActions(R, node.state, node.color), depth - 1));
          }
        }
      } else {
        value, bestAction, k := MinOnePly(R, node, legalActions, alpha, beta);
        if Lt(alpha, beta) {
          OnePlySameElements(R, root.color, node.state, legalActions, LegalActions(R, node.state, node.color));
          MinSeqSameElements(OnePly(R, root.color, node.state, legalActions), OnePly(R, root.color, node.state, LegalActions(R, node.state, node.color)));
        }
      }
    }

    /** The maximising branch over the children already stored. */
    method MaxOverChildren(R: Referee<B>, node: Node<B>, depth: int, alpha0: ExtInt, beta: ExtInt)
      returns (maxValue: ExtInt, bestAction: Option<Action>, ghost k: int)
      requires Shallow(R, node)
      ensures var all := KidValues(R, root.color, node.children, depth - 1);
        && (Lt(alpha0, beta) ==> FailSoft(maxValue, MaxSeq(all), alpha0, beta))
        && (alpha0 == NegInf && beta == PosInf ==> IsFirstMax(all, k) && bestAction == (if k == -1 then None else node.children[k].action))
      decreases 1, 0
    {
      ghost var all := KidValues(R, root.color, node.children, depth - 1);
      maxValue, bestAction, k := NegInf, None, -1;
      var alpha := alpha0;
      MaxLoopInit(alpha0, beta, all);
      var n := |node.children|;
      var i := 0;
      while i < n
        invariant MaxLoop(alpha0, beta, all, i, maxValue, alpha, k)
        invariant Lt(alpha0, beta) ==> Lt(alpha, beta)
        invariant KidChoice(node.children, i, k, bestAction)
      {
        maxValue, alpha, k, bestAction, i := KidStep(R, node, i, depth, alpha0, beta, all, maxValue, alpha, k, bestAction);
        if Le(beta, alpha) {
          break;
        }
      }
      MaxLoopExit(alpha0, beta, all, i, maxValue, alpha, k);
    }

    /** One pass of the loop over the stored children: child i searched,
        the best value and its action kept, alpha raised. */
    method KidStep(R: Referee<B>, node: Node<B>, i: int, depth: int, alpha0: ExtInt, beta: ExtInt,
                   ghost all: seq<ExtInt>, maxValue: ExtInt, alpha: ExtInt, ghost k: int, bestAction: Option<Action>)
      returns (maxValue': ExtInt, alpha': ExtInt, ghost k': int, bestAction': Option<Action>, i': int)
      requires Shallow(R, node) && 0 <= i < |node.children|
      requires all == KidValues(R, root.color, node.children, depth - 1)
      requires MaxLoop(alpha0, beta, all, i, maxValue, alpha, k) && (Lt(alpha0, beta) ==> Lt(alpha, beta))
      requires KidChoice(node.children, i, k, bestAction)
      ensures i' == i + 1
      ensures MaxLoop(alpha0, beta, all, i', maxValue', alpha', k')
      ensures KidChoice(node.children, i', k', bestAction')
      decreases 0, 3
    {
      i' := i + 1;
      var value, action := SearchKid(R, node, i, depth - 1, alpha, beta);
      MaxLoopStep(alpha0, beta, all, i, maxValue, alpha, k, value);
      maxValue', bestAction', k' := maxValue, bestAction, k;
      if Lt(maxValue, value) {
        maxValue', bestAction', k' := value, action, i;
      }
      alpha' := Max(alpha, maxValue');
    }

    /** One iteration of the loop over the stored children: child i is
        searched as a minimising node. */
    method SearchKid(R: Referee<B>, node: Node<B>, i: int, depth: int, alpha: ExtInt, beta: ExtInt)
      returns (value: ExtInt, action: Option<Action>)
      requires Shallow(R, node) && 0 <= i < |node.children|
      ensures Lt(alpha, beta) ==> FailSoft(value, KidValues(R, root.color, node.children, depth)[i], alpha, beta)
      ensures action == node.children[i].action
      decreases 0, 2
    {
      var child := node.children[i];
      var v, _, _, _ := MinimaxAlphaBeta(R, child, depth, alpha, beta, false);
      value, action := v, child.action;
    }

    /** The maximising branch of a node without children: one child per
        legal action is made, stored and searched, until the cut-off. */
    method MaxExpanding(R: Referee<B>, node: Node<B>, legalActions: seq<Action>, depth: int, alpha0: ExtInt, beta: ExtInt)
      returns (maxValue: ExtInt, bestAction: Option<Action>, ghost k: int)
      requires Shallow(R, node) && node.children == []
      modifies node
      ensures Shallow(R, node) && ActionsFollow(node.children, legalActions)
      ensures |node.children| < |legalActions| ==> Le(beta, Max(alpha0, maxValue))
      ensures Lt(alpha0, beta) ==>
        FailSoft(maxValue, MaxSeq(ReplyValues(R, root.color, node.state, node.color, legalActions, depth - 1)), alpha0, beta)
      ensures alpha0 == NegInf && beta == PosInf ==>
        && IsFirstMax(KidValues(R, root.color, node.children, depth - 1), k)
        && bestAction == (if k == -1 then None else node.children[k].action)
      decreases 1, 0
    {
      ghost var all := ReplyValues(R, root.color, node.state, node.color, legalActions, depth - 1);
      maxValue, bestAction, k := NegInf, None, -1;
      var alpha := alpha0;
      MaxLoopInit(alpha0, beta, all);
      var i := 0;
      while i < |legalActions|
        invariant |node.children| == i && Shallow(R, node)
        invariant ActionsFollow(node.children, legalActions)
        invariant MaxLoop(alpha0, beta, all, i, maxValue, alpha, k)
        invariant Lt(alpha0, beta) ==> Lt(alpha, beta)
        invariant KidChoice(node.children, i, k, bestAction)
      {
        maxValue, alpha, k, bestAction, i := ExpandStep(R, node, legalActions, i, depth, alpha0, beta, all, maxValue, alpha, k, bestAction);
        if Le(beta, alpha) {
          break;
        }
      }
      MaxLoopExit(alpha0, beta, all, i, maxValue, alpha, k);
      KidValuesOfPrefix(R, root.color, node, legalActions, depth - 1);
    }

    /** One pass of the expanding loop: the child for action i made,
        stored and searched, the best value and its action kept, alpha
        raised. */
    method ExpandStep(R: Referee<B>, node: Node<B>, legalActions: seq<Action>, i: int, depth: int, alpha0: ExtInt, beta: ExtInt,
                      ghost all: seq<ExtInt>, maxValue: ExtInt, alpha: ExtInt, ghost k: int, bestAction: Option<Action>)
      returns (maxValue': ExtInt, alpha': ExtInt, ghost k': int, bestAction': Option<Action>, i': int)
      requires |node.children| == i < |legalActions| && Shallow(R, node) && ActionsFollow(node.children, legalActions)
      requires all == ReplyValues(R, root.color, node.state, node.color, legalActions, depth - 1)
      requires MaxLoop(alpha0, beta, all, i, maxValue, alpha, k) && (Lt(alpha0, beta) ==> Lt(alpha, beta))
      requires KidChoice(node.children, i, k, bestAction)
      modifies node
      ensures i' == i + 1
      ensures |node.children| == i' && Shallow(R, node) && ActionsFollow(node.children, legalActions)
      ensures MaxLoop(alpha0, beta, all, i', maxValue', alpha', k')
      ensures KidChoice(node.children, i', k', bestAction')
      decreases 0, 3
    {
      i' := i + 1;
      var action := legalActions[i];
      ghost var before := node.children;
      var value := ExpandChild(R, node, legalActions, i, depth - 1, alpha, beta);
      ActionsFollowExtend(before, node.children[i], legalActions);
      MaxLoopStep(alpha0, beta, all, i, maxValue, alpha, k, value);
      maxValue', bestAction', k' := maxValue, bestAction, k;
      if Lt(maxValue, value) {
        maxValue', bestAction', k' := value, Some(action), i;
      }
      alpha' := Max(alpha, maxValue');
    }

    /** One iteration of the expanding loop: the child for action is made,
        stored, and searched as a minimising node. */
    method ExpandChild(R: Referee<B>, node: Node<B>, legalActions: seq<Action>, i: int, depth: int, alpha: ExtInt, beta: ExtInt)
      returns (value: ExtInt)
      requires Shallow(R, node) && 0 <= i < |legalActions|
      modifies node
      ensures Shallow(R, node)
      ensures |node.children| == |old(node.children)| + 1
      ensures node.children == old(node.children) + [node.children[|old(node.children)|]]
      ensures node.children[|old(node.children)|].action == Some(legalActions[i])
      ensures Lt(alpha, beta) ==>
        FailSoft(value, ReplyValues(R, root.color, node.state, node.color, legalActions, depth)[i], alpha, beta)
      decreases 0, 2
    {
      var action := legalActions[i];
      var childState := R.apply(node.state, action);
      var childNode := new Node(childState, Opponent(node.color), node.level + 1, Some(action));
      node.AddChild(childNode);
      var v, _, _, _ := MinimaxAlphaBeta(R, childNode, depth, alpha, beta, false);
      value := v;
    }

    /** One pass of the minimising loop: the position after action i
        scored, the smallest score and its action kept, beta lowered. */
    method ReplyStep(R: Referee<B>, node: Node<B>, legalActions: seq<Action>, i: int, alpha: ExtInt, beta0: ExtInt,
                     ghost all: seq<ExtInt>, minValue: ExtInt, beta: ExtInt, ghost k: int, bestAction: Option<Action>)
      returns (minValue': ExtInt, beta': ExtInt, ghost k': int, bestAction': Option<Action>, i': int)
      requires 0 <= i < |legalActions| && all == OnePly(R, root.color, node.state, legalActions)
      requires MinLoop(alpha, beta0, all, i, minValue, beta, k) && (Lt(alpha, beta0) ==> Lt(alpha, beta))
      requires ReplyChoice(legalActions, i, k, bestAction)
      ensures i' == i + 1
      ensures MinLoop(alpha, beta0, all, i', minValue', beta', k')
      ensures ReplyChoice(legalActions, i', k', bestAction')
    {
      i' := i + 1;
      var value := ScoreReply(R, node, legalActions, i);
      MinLoopStep(alpha, beta0, all, i, minValue, beta, k, value);
      minValue', bestAction', k' := minValue, bestAction, k;
      if Lt(value, minValue) {
        minValue', bestAction', k' := value, Some(legalActions[i]), i;
      }
      beta' := Min(beta, minValue');
    }

    /** One iteration of the minimising loop: the position after action i
        is scored with the root's heuristic. */
    method ScoreReply(R: Referee<B>, node: Node<B>, legalActions: seq<Action>, i: int) returns (value: ExtInt)
      requires 0 <= i < |legalActions|
      ensures value == OnePly(R, root.color, node.state, legalActions)[i]
    {
      var childState := R.apply(node.state, legalActions[i]);
      var score := root.EvaluationState(R, root.color, childState);
      value := Fin(score);
    }

    /** The minimising branch: each legal action scored one ply ahead with
        the root's heuristic, the first smallest kept, until the cut-off. */
    method MinOnePly(R: Referee<B>, node: Node<B>, legalActions: seq<Action>, alpha: ExtInt, beta0: ExtInt)
      returns (minValue: ExtInt, bestAction: Option<Action>, ghost k: int)
      ensures var all := OnePly(R, root.color, node.state, legalActions);
        Lt(alpha, beta0) ==> FailSoft(minValue, MinSeq(all), alpha, beta0)
      ensures ReplyChoice(legalActions, |legalActions|, k, bestAction)
      ensures alpha == NegInf && beta0 == PosInf ==> IsFirstMin(OnePly(R, root.color, node.state, legalActions), k)
    {
      ghost var all := OnePly(R, root.color, node.state, legalActions);
      minValue, bestAction, k := PosInf, None, -1;
      var beta := beta0;
      MinLoopInit(alpha, beta0, all);
      var n := |legalActions|;
      var i := 0;
      while i < n
        invariant MinLoop(alpha, beta0, all, i, minValue, beta, k)
        invariant Lt(alpha, beta0) ==> Lt(alpha, beta)
        invariant ReplyChoice(legalActions, i, k, bestAction)
      {
        minValue, beta, k, bestAction, i := ReplyStep(R, node, legalActions, i, alpha, beta0, all, minValue, beta, k, bestAction);
        if Le(beta, alpha) {
          break;
        }
      }
      MinLoopExit(alpha, beta0, all, i, minValue, beta, k);
    }
  }

  lemma OnePlySameElements<B>(R: Referee<B>, rootColor: Color, s: B, a1: seq<Action>, a2: seq<Action>)
    requires multiset(a1) == multiset(a2)
    ensures forall x :: x in OnePly(R, rootColor, s, a1) <==> x in OnePly(R, rootColor, s, a2)
  {
    PermutationMembers(a1, a2);
    var v1 := OnePly(R, rootColor, s, a1);
    var v2 := OnePly(R, rootColor, s, a2);
    forall x ensures x in v1 <==> x in v2 {
      if x in v1 {
        var i :| 0 <= i < |a1| && v1[i] == x;
        assert a1[i] in a2;
        var j :| 0 <= j < |a2| && a2[j] == a1[i];
        assert v2[j] == x;
      }
      if x in v2 {
        var j :| 0 <= j < |a2| && v2[j] == x;
        assert a2[j] in a1;
        var i :| 0 <= i < |a1| && a1[i] == a2[j];
        assert v1[i] == x;
      }
    }
  }
}
