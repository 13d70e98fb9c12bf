/** The depth-first alpha-beta search of the self-contained agent: `MiniMax`
    keeps a private copy of the position it was asked about and searches it
    to a fixed depth, building every child as a fresh `NewBoard` over a copy
    of its parent's array.  The search is proved against the plain minimax
    value (`AlphaBeta.Value`) of the game whose rules are `DfsRules`. */
module DfsSearch {
  import opened Game
  import opened AlphaBeta
  import opened DfsBoard

  /** is_terminal, with every malformed state counted as terminal. */
  predicate TerminalOf(s: BoardState) {
    !IsGrid(s.grid) || Terminal(s)
  }

  /** evaluation(rootcolor) of the state's grid. */
  function ScoreOf(s: BoardState, rootColor: Color): int {
    if IsGrid(s.grid) then Score(s.grid, rootColor) else 0
  }

  /** get_legal_actions before the shuffle. */
  function MovesOf(s: BoardState): seq<Action> {
    if IsGrid(s.grid) then LegalActions(s) else []
  }

  /** apply_action on a copy. */
  function NextOf(s: BoardState, a: Action): BoardState {
    if CanApply(s, a) then Apply(s, a) else s
  }

  /** The number of turns left before the turn limit of 343. */
  function RankOf(s: BoardState): nat {
    if s.turn < 343 then 343 - s.turn else 0
  }

  /** The game the search explores, scored from rootColor's side. */
  function DfsRules(rootColor: Color): Rules<BoardState, Action> {
    Rules(TerminalOf, s => ScoreOf(s, rootColor), MovesOf, NextOf, RankOf)
  }

  /** Every legal action advances the turn, so the game tree below any
      position is finite: from a turn below 343 the turns left drop by one,
      and from turn 343 on every child is terminal. */
  lemma DfsRulesWellFounded(rootColor: Color)
    ensures WellFounded(DfsRules(rootColor))
  {
    var R := DfsRules(rootColor);
    forall s, a | a in R.moves(s)
      ensures R.rank(R.next(s, a)) < R.rank(s) || (R.terminal(R.next(s, a)) && R.rank(R.next(s, a)) <= R.rank(s))
    {
      NextRank(s, a);
    }
  }

  /** One legal action: the turns left drop by one, or the child is past the
      turn limit and so terminal. */
  lemma NextRank(s: BoardState, a: Action)
    requires a in MovesOf(s)
    ensures CanApply(s, a) && NextOf(s, a) == Apply(s, a)
    ensures RankOf(NextOf(s, a)) < RankOf(s) || (TerminalOf(NextOf(s, a)) && RankOf(NextOf(s, a)) <= RankOf(s))
  {
    LegalActionsMember(s, a);
    ApplyEffects(s, a);
  }

  /** What the rules say about a well-formed state. */
  lemma DfsRulesAt(rootColor: Color, s: BoardState)
    requires IsGrid(s.grid)
    ensures DfsRules(rootColor).terminal(s) == Terminal(s)
    ensures DfsRules(rootColor).score(s) == Score(s.grid, rootColor)
    ensures DfsRules(rootColor).moves(s) == LegalActions(s)
    ensures forall a :: a in LegalActions(s) ==> CanApply(s, a) && DfsRules(rootColor).next(s, a) == Apply(s, a)
  {
    LegalActionsApplicable(s);
  }

  /** At a well-formed state s the rules R are the board's own functions,
      scored from c's side. */
  ghost predicate AgreesAt(R: Rules<BoardState, Action>, c: Color, s: BoardState) {
    IsGrid(s.grid) ==>
      && R.terminal(s) == Terminal(s)
      && R.score(s) == Score(s.grid, c)
      && R.moves(s) == LegalActions(s)
      && forall a :: a in LegalActions(s) ==> CanApply(s, a) && R.next(s, a) == Apply(s, a)
  }

  /** R agrees with the board's functions at every well-formed state.  The
      search only meets well-formed states, so this is all it uses of R. */
  ghost predicate Agrees(R: Rules<BoardState, Action>, c: Color) {
    forall s {:trigger AgreesAt(R, c, s)} :: AgreesAt(R, c, s)
  }

  lemma DfsRulesAgree(rootColor: Color)
    ensures Agrees(DfsRules(rootColor), rootColor)
  {
    forall s ensures AgreesAt(DfsRules(rootColor), rootColor, s) {
      if IsGrid(s.grid) {
        DfsRulesAt(rootColor, s);
      }
    }
  }

  class MiniMax {
    const root: NewBoard
    const maxDepth: int
    /** The game searched: scored from the root's colour. */
    ghost const rules: Rules<BoardState, Action>

    ghost predicate Valid()
      reads root
    {
      root.Valid() && WellFounded(rules) && Agrees(rules, root.color)
    }

    /** Whether a well-formed state is a leaf, and its score. */
    lemma LeafAt(s: BoardState)
      requires Valid() && IsGrid(s.grid)
      ensures rules.terminal(s) == Terminal(s)
      ensures rules.score(s) == Score(s.grid, root.color)
    {
      assert AgreesAt(rules, root.color, s);
    }

    /** The moves of a well-formed state. */
    lemma MovesAt(s: BoardState)
      requires Valid() && IsGrid(s.grid)
      ensures rules.moves(s) == LegalActions(s)
    {
      assert AgreesAt(rules, root.color, s);
    }

    /** A move of a well-formed state is apply_action, and it brings the
        search closer to the turn limit or to a terminal state. */
    lemma NextAt(s: BoardState, a: Action)
      requires Valid() && IsGrid(s.grid) && a in rules.moves(s)
      ensures CanApply(s, a) && rules.next(s, a) == Apply(s, a)
      ensures RankOf(Apply(s, a)) < RankOf(s) || (TerminalOf(Apply(s, a)) && RankOf(Apply(s, a)) <= RankOf(s))
    {
      assert AgreesAt(rules, root.color, s);
      NextRank(s, a);
    }

    /** MiniMax(root_state, turn, curr_color, max_depth): the root is a new
        board over a copy of the given board's array. */
    constructor (rootState: NewBoard, turn: int, currColor: Color, maxDepth: int)
      requires rootState.Valid()
      ensures Valid() && fresh(root) && fresh(root.board)
      ensures root.State() == BoardState(rootState.Grid(), currColor, turn)
      ensures this.maxDepth == maxDepth && rules == DfsRules(currColor)
    {
      root := new NewBoard(currColor, turn, rootState.board);
      this.maxDepth := maxDepth;
      rules := DfsRules(currColor);
      DfsRulesWellFounded(currColor);
      DfsRulesAgree(currColor);
    }

    /** NewBoard(b._color, b._turn, b._board): a fresh board holding the
        same position as b. */
    static method Copy(b: NewBoard) returns (c: NewBoard)
      requires b.Valid()
      ensures c.Valid() && fresh(c) && fresh(c.board)
      ensures c.State() == b.State()
    {
      c := new NewBoard(b.color, b.turn, b.board);
    }

    /** A fresh copy of the board with the action applied to it. */
    static method Child(board: NewBoard, action: Action) returns (childNode: NewBoard)
      requires board.Valid() && CanApply(board.State(), action)
      ensures childNode.Valid() && fresh(childNode) && fresh(childNode.board)
      ensures childNode.State() == Apply(board.State(), action)
    {
      childNode := Copy(board);
      childNode.ApplyAction(action);
    }

    /** board.get_legal_actions(), seen as the moves of the rules. */
    method Moves(board: NewBoard) returns (legalActions: seq<Action>)
      requires Valid() && board.Valid()
      ensures multiset(legalActions) == multiset(rules.moves(board.State()))
      ensures forall a :: a in legalActions ==> a in rules.moves(board.State())
    {
      MovesAt(board.State());
      legalActions := board.GetLegalActions();
      PermutationMembers(legalActions, rules.moves(board.State()));
    }

    /** The best child value at the root: the largest minimax value of a
        position one legal action away, searched to maxDepth. */
    ghost function RootValue(): ExtInt
      requires Valid()
      reads root, root.board
    {
      MaxSeq(ChildValues(rules, root.State(), rules.moves(root.State()), 1, maxDepth, false))
    }

    /** find_next_step: the root's legal actions are tried in the order
        get_legal_actions lists them (`order`), each child searched with the
        full window; the first action whose value beats every earlier one is
        kept.  So the answer is the first action of `order` with the largest
        child value, none when every child value is -inf (in particular when
        there is no legal action), and that value is the root's minimax
        value. */
    method FindNextStep() returns (bestAction: Option<Action>, ghost order: seq<Action>, ghost k: int)
      requires Valid()
      ensures multiset(order) == multiset(rules.moves(root.State()))
      ensures forall a :: a in order ==> a in rules.moves(root.State())
      ensures IsFirstMax(ChildValues(rules, root.State(), order, 1, maxDepth, false), k)
      ensures bestAction == if k == -1 then None else Some(order[k])
      ensures bestAction.None? <==> RootValue() == NegInf
      ensures bestAction.Some? ==>
        bestAction.value in rules.moves(root.State()) &&
        Value(rules, rules.next(root.State(), bestAction.value), 1, maxDepth, false) == RootValue()
      ensures maxDepth != 0 && !rules.terminal(root.State()) ==>
        Value(rules, root.State(), 0, maxDepth, true) == RootValue()
    {
      ghost var s := root.State();
      var legalActions := Moves(root);
      bestAction, k := RootLoop(legalActions);
      order := legalActions;
      FirstMaxChoice(rules, s, order, k, 0, maxDepth);
    }

    /** The loop of find_next_step over the root's actions in the given
        order, each child searched with the full window; a child replaces
        the best so far only when its value is strictly larger. */
    method RootLoop(legalActions: seq<Action>) returns (bestAction: Option<Action>, ghost k: int)
      requires Valid()
      requires forall a :: a in legalActions ==> a in rules.moves(root.State())
      ensures IsFirstMax(ChildValues(rules, root.State(), legalActions, 1, maxDepth, false), k)
      ensures bestAction == if k == -1 then None else Some(legalActions[k])
    {
      ghost var s := root.State();
      bestAction := None;
      var maximizeValue := NegInf;
      ghost var all := ChildValues(rules, s, legalActions, 1, maxDepth, false);
      k := -1;
      for i := 0 to |legalActions|
        invariant root.State() == s
        invariant MaxFirstInv(all[..i], maximizeValue, k)
        invariant bestAction == if k == -1 then None else Some(legalActions[k])
      {
        var action := legalActions[i];
        var value := SearchChild(root, s, action, 1, maxDepth, NegInf, PosInf, false);
        ChildValueAt(rules, s, legalActions, i, 1, maxDepth, false);
        FullWindowExact(value, all[i]);
        MaxFirstStep(all, i, maximizeValue, k, value);
        if Lt(maximizeValue, value) {
          maximizeValue := value;
          bestAction := Some(action);
          k := i;
        }
      }
      MaxFirstExit(all, |all|, maximizeValue, k);
    }

    /** _minimax_alpha_beta: fail-soft alpha-beta over fresh copies of the
        board.  With a non-empty window (alpha, beta) the result relates to
        the plain minimax value as FailSoft says; with the full window it is
        that value.  The board it is given is not changed. */
    method AlphaBetaSearch(board: NewBoard, depth: int, maxDepth: int, alpha: ExtInt, beta: ExtInt, maximizingPlayer: bool)
      returns (v: ExtInt)
      requires Valid() && board.Valid()
      ensures Lt(alpha, beta) ==>
        FailSoft(v, Value(rules, board.State(), depth, maxDepth, maximizingPlayer), alpha, beta)
      ensures alpha == NegInf && beta == PosInf ==>
        v == Value(rules, board.State(), depth, maxDepth, maximizingPlayer)
      decreases RankOf(board.State()), if TerminalOf(board.State()) then 0 else 3
    {
      ghost var s := board.State();
      LeafAt(s);
      var terminal := board.IsTerminal();
      if depth == maxDepth || terminal {
        var score := board.Evaluation(root.color);
        return Fin(score);
      }
      var legalActions := Moves(board);
      ValueAnyOrder(rules, s, legalActions, depth, maxDepth, maximizingPlayer);
      if maximizingPlayer {
        v := MaxLoop(board, legalActions, depth, maxDepth, alpha, beta);
      } else {
        v := MinLoop(board, legalActions, depth, maxDepth, alpha, beta);
      }
      if alpha == NegInf && beta == PosInf {
        FullWindowExact(v, Value(rules, s, depth, maxDepth, maximizingPlayer));
      }
    }

    /** One child of a search loop: a fresh copy of the board, the action
        applied to it, and the child searched one level deeper. */
    method SearchChild(board: NewBoard, ghost s: BoardState, action: Action, depth: int, maxDepth: int, alpha: ExtInt, beta: ExtInt, maximizingPlayer: bool)
      returns (value: ExtInt)
      requires Valid() && board.Valid() && board.State() == s && action in rules.moves(s)
      ensures Lt(alpha, beta) ==>
        FailSoft(value, Value(rules, rules.next(s, action), depth, maxDepth, maximizingPlayer), alpha, beta)
      decreases RankOf(s), 1
    {
      NextAt(s, action);
      var childNode := Child(board, action);
      value := AlphaBetaSearch(childNode, depth, maxDepth, alpha, beta, maximizingPlayer);
    }

    /** The maximising branch of _minimax_alpha_beta. */
    method MaxLoop(board: NewBoard, legalActions: seq<Action>, depth: int, maxDepth: int, alpha0: ExtInt, beta: ExtInt)
      returns (maxValue: ExtInt)
      requires Valid() && board.Valid()
      requires forall a :: a in legalActions ==> a in rules.moves(board.State())
      ensures Lt(alpha0, beta) ==>
        FailSoft(maxValue, MaxSeq(ChildValues(rules, board.State(), legalActions, depth + 1, maxDepth, false)), alpha0, beta)
      decreases RankOf(board.State()), 2
    {
      ghost var s := board.State();
      ghost var all := ChildValues(rules, s, legalActions, depth + 1, maxDepth, false);
      maxValue := NegInf;
      var alpha := alpha0;
      MaxInit(alpha0, beta);
      var i := 0;
      while i < |legalActions|
        invariant 0 <= i <= |legalActions|
        invariant board.State() == s
        invariant Lt(alpha0, beta) ==> MaxInv(alpha0, beta, all[..i], maxValue, alpha) && Lt(alpha, beta)
      {
        var value := SearchChild(board, s, legalActions[i], depth + 1, maxDepth, alpha, beta, false);
        ChildValueAt(rules, s, legalActions, i, depth + 1, maxDepth, false);
        if Lt(alpha0, beta) {
          MaxStep(alpha0, beta, all, i, maxValue, alpha, value);
        }
        if Lt(maxValue, value) {
          maxValue := value;
        }
        alpha := Max(alpha, maxValue);
        i := i + 1;
        if Le(beta, alpha) {
          break;
        }
      }
      if Lt(alpha0, beta) {
        MaxExit(alpha0, beta, all, i, maxValue, alpha);
      }
    }

    /** The minimising branch of _minimax_alpha_beta. */
    method MinLoop(board: NewBoard, legalActions: seq<Action>, depth: int, maxDepth: int, alpha: ExtInt, beta0: ExtInt)
      returns (minValue: ExtInt)
      requires Valid() && board.Valid()
      requires forall a :: a in legalActions ==> a in rules.moves(board.State())
      ensures Lt(alpha, beta0) ==>
        FailSoft(minValue, MinSeq(ChildValues(rules, board.State(), legalActions, depth + 1, maxDepth, true)), alpha, beta0)
      decreases RankOf(board.State()), 2
    {
      ghost var s := board.State();
      ghost var all := ChildValues(rules, s, legalActions, depth + 1, maxDepth, true);
      minValue := PosInf;
      var beta := beta0;
      MinInit(alpha, beta0);
      var i := 0;
      while i < |legalActions|
        invariant 0 <= i <= |legalActions|
        invariant board.State() == s
        invariant Lt(alpha, beta0) ==> MinInv(alpha, beta0, all[..i], minValue, beta) && Lt(alpha, beta)
      {
        var value := SearchChild(board, s, legalActions[i], depth + 1, maxDepth, alpha, beta, true);
        ChildValueAt(rules, s, legalActions, i, depth + 1, maxDepth, true);
        if Lt(alpha, beta0) {
          MinStep(alpha, beta0, all, i, minValue, beta, value);
        }
        if Lt(value, minValue) {
          minValue := value;
        }
        beta := Min(beta, minValue);
        i := i + 1;
        if Le(beta, alpha) {
          break;
        }
      }
      if Lt(alpha, beta0) {
        MinExit(alpha, beta0, all, i, minValue, beta);
      }
    }
  }
}
