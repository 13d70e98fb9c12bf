# Hex-board game agents: boards, minimax search and MCTS bookkeeping

This project models the game logic and the search code of a set of agents for a
two-player game on a 7x7 hexagonal board. Each player owns tokens of power 1
to 6. A move is one of two kinds:

- A **spawn** puts a token of power 1 on an empty cell.
- A **spread** lifts a token and walks `power` steps in one of six directions.
  Each cell it lands on gains one power and takes the mover's colour. A cell
  whose power would pass 6 is cleared.

The model follows five files of the repository: `agent/utils.py`,
`agent/program.py`, `dfs-board/program.py`, `minimax/program.py` and
`minimax_test/program.py`.

- **Shared value types** (`game.dfy`, module `Game`):
  - colours, positions, the six directions, actions and cell states;
  - `Referee<B>`, a record of the referee `Board` operations whose code is not
    part of this model. These are occupancy, cell lookup, the cell list,
    applying an action on a copy, game over, the winner and the total power.
- **Extended integers and alpha-beta facts** (`alphabeta.dfy`, module
  `AlphaBeta`):
  - `ExtInt` models the `float('-inf')` / `float('inf')` sentinels.
  - `FailSoft` relates a fail-soft alpha-beta result to a node's plain minimax
    value, and loop lemmas show that one maximising or minimising loop of the
    agents preserves it.
  - `Value` is the plain minimax value of a game given by its rules.
- **`agent/utils.py`** (`utils.dfy`, module `Utils`):
  - A dictionary board, `TokenBoard`, whose `tokens` map `spawn`, `addToken`
    and `spread` update in place.
  - `correctCoordinates` wraps onto the 7x7 torus. For components of at least
    -6 it is arithmetic modulo 7. A negative multiple of 7 maps to 7, which is
    off the board. No caller produces one, because every step adds a
    component in {-1, 0, 1} to an on-board cell.
  - The walk of `spread` never revisits a cell within six steps. So its final
    `del` always finds the source, and powers stay in [1, 6].
- **`dfs-board/program.py`** (`dfs_board.dfy` and `dfs_search.dfy`, modules
  `DfsBoard` and `DfsSearch`):
  - `NewBoard` keeps its grid in a 7x7 `array2`. Every method is proved
    against pure functions of the grid.
  - `MiniMax` searches fresh copies of the board. With the full window its
    alpha-beta search returns the plain minimax value of the game whose rules
    are the board's own functions (`DfsRules`).
  - `find_next_step` returns the first root action of maximal value.
- **`minimax/program.py`** (`minimax.dfy`, module `Minimax`):
  - The full game tree is built below a `Node` class with ghost `Snapshot`
    (the stored tree as a value) and `Repr` fields. Generation is proved to
    build `GenTree`.
  - Alpha-beta over the stored children equals `TreeValue`, the plain minimax
    value of that tree. The chosen action is that of the first best child.
  - It maximises exactly when the root is BLUE, the colour `evaluation`
    counts positively.
- **`minimax_test/program.py`** (`minimax_test.dfy`, module `MinimaxTest`):
  - Children are created lazily by maximising nodes and reused on later
    passes. Minimising nodes never get children, so the `legal_actions` they
    read is always bound.
  - The minimising ply scores each legal action one ply ahead with the root's
    heuristic and does not recurse.
  - The heuristic counts each opponent cell twice. The switch to the endgame
    power weight therefore happens on own cells plus twice the opponent
    cells. `evaluation` and `evaluation_state` run the same loop, and
    `Node.Evaluation` delegates to `Node.EvaluationState`.
  - `find_next_step` deepens from 1 to `max_depth`. The wall clock is the
    parameter `timeUp`.
- **`agent/program.py`** (`mcts.dfy`, module `Mcts`):
  - MCTS nodes carry `wins`, `visits` and a parent link.
  - `backpropagate` adds one visit to every node up the parent chain. It adds
    `result`, `1 - result`, `result`, ... to their wins.
  - `best_child` returns the first child of maximal score. The UCT formula is
    a parameter.
  - `select_node` follows best children down to a node without children.

`DfsBoard.Plus` models the referee's `HexPos + HexDir`, whose code is not part
of this model. Its result indexes the 7x7 array, so it is modelled as the
step-and-wrap of `agent/utils.py` (`Utils.Step`).

## Model

| member | source | states |
|---|---|---|
| Game.Opponent | dfs-board/program.py:10-13 | The switched colour differs from the given one; RED switches to BLUE and BLUE to RED |
| Game.DirectionsAreUnitVectors | dfs-board/program.py:15 | The direction list has six entries and contains every direction; each is a non-zero vector with components in {-1, 0, 1}; the six vectors are pairwise distinct |
| Game.SixSpreadsMember | dfs-board/program.py:58-59 | The inner loop over DIRECTIONS yields spreads from the given cell only, and every spread from it |
| Game.RowMajorAt | dfs-board/program.py:52-53 | The scan `for i in range(7): for j in range(7)` visits (r, q) at position 7r + q |
| Game.Shuffle | dfs-board/program.py:60 | random.shuffle returns a permutation of its argument |
| AlphaBeta.Max | dfs-board/program.py:219 | max(alpha, max_value) is an upper bound of both arguments and is one of them |
| AlphaBeta.Min | dfs-board/program.py:232 | min(beta, min_value) is a lower bound of both arguments and is one of them |
| AlphaBeta.MaxSeq | dfs-board/program.py:212-222 | The maximum of the child values bounds every child value and is either -inf (no children) or one of them |
| AlphaBeta.MinSeq | dfs-board/program.py:224-235 | The minimum of the child values bounds every child value from below and is either +inf (no children) or one of them |
| AlphaBeta.MaxSeqSameElements | dfs-board/program.py:60 | Two value lists holding the same values have the same maximum, so the order of the actions does not matter |
| AlphaBeta.MinSeqSameElements | dfs-board/program.py:60 | Two value lists holding the same values have the same minimum |
| AlphaBeta.FullWindowExact | dfs-board/program.py:197 | A fail-soft result for the window (-inf, +inf) is the minimax value itself |
| AlphaBeta.MaxInit | dfs-board/program.py:212 | Before the first child the maximising loop's state (-inf, alpha unchanged) satisfies the loop invariant |
| AlphaBeta.MaxStep | dfs-board/program.py:213-221 | One iteration (strict `>` update, alpha raised) keeps the maximising invariant given a fail-soft child result |
| AlphaBeta.MaxExit | dfs-board/program.py:213-222 | When the loop ends or is cut off by beta <= alpha, max_value is fail-soft for the maximum of all child values |
| AlphaBeta.MinInit | dfs-board/program.py:224 | Before the first child the minimising loop's state (+inf, beta unchanged) satisfies the loop invariant |
| AlphaBeta.MinStep | dfs-board/program.py:225-234 | One iteration (strict `<` update, beta lowered) keeps the minimising invariant |
| AlphaBeta.MinExit | dfs-board/program.py:225-235 | When the loop ends or is cut off, min_value is fail-soft for the minimum of all child values |
| AlphaBeta.FirstMaxUnique | dfs-board/program.py:198-200 | There is only one first-maximum index; it is -1 exactly when the maximum is -inf and otherwise holds the maximum |
| AlphaBeta.MaxFirstStep | dfs-board/program.py:198-200 | Given a child result that is exact whenever it exceeds the best so far, the strict `>` update keeps the first-maximum invariant, moving the kept index to i exactly when child i beats it |
| AlphaBeta.MaxFirstExit | dfs-board/program.py:194-202 | After the whole loop the kept index is the first maximum |
| AlphaBeta.FirstMinUnique | minimax/program.py:163-171 | There is only one first-minimum index; it is -1 exactly when the minimum is +inf and otherwise holds the minimum |
| AlphaBeta.MinFirstStep | minimax/program.py:165-167 | Given a child result that is exact whenever it is below the best so far, the strict `<` update keeps the first-minimum invariant, moving the kept index to i exactly when child i is below it |
| AlphaBeta.MinFirstExit | minimax/program.py:163-171 | After the whole loop the kept index is the first minimum |
| AlphaBeta.MaxLoopInit | minimax/program.py:149-150 | The maximising loop with its best action starts in its invariant |
| AlphaBeta.MaxLoopStep | minimax/program.py:151-158 | One iteration keeps both the fail-soft invariant and, under the full window, the first-maximum index |
| AlphaBeta.MaxLoopExit | minimax/program.py:148-159 | On exit the value is fail-soft for the maximum, and under the full window the kept child is the first maximum |
| AlphaBeta.MinLoopInit | minimax/program.py:161-162 | The minimising loop with its best action starts in its invariant |
| AlphaBeta.MinLoopStep | minimax/program.py:163-170 | One iteration keeps both the fail-soft invariant and, under the full window, the first-minimum index |
| AlphaBeta.MinLoopExit | minimax/program.py:160-171 | On exit the value is fail-soft for the minimum, and under the full window the kept child is the first minimum |
| AlphaBeta.ChildValues | dfs-board/program.py:213-216 | One value per action, in the order of the actions |
| AlphaBeta.ChildValuesAt | dfs-board/program.py:213-216 | The i-th child value is the minimax value of the position the i-th action leads to |
| AlphaBeta.ChildValueAt | dfs-board/program.py:213-216 | The same fact for one index |
| AlphaBeta.PermutationMembers | dfs-board/program.py:60 | A shuffled list holds the same actions |
| AlphaBeta.ChildValuesSameElements | dfs-board/program.py:60 | Shuffled actions give the same child values, possibly in another order |
| AlphaBeta.ValueAnyOrder | dfs-board/program.py:209-235 | An inner node's minimax value is the max (min) of its child values whatever order the legal actions come in |
| AlphaBeta.FirstMaxChoice | dfs-board/program.py:188-202 | The first best action in any order is absent exactly when every child is -inf; otherwise its child has the best value, which is the node's own minimax value |
| Utils.HexVecLaws | agent/utils.py:10-20 | Addition then subtraction of b cancels (both ways); negation is an involution; addition commutes; a + (-a) is zero; a * n is componentwise; a * -1 is -a |
| Utils.HexVec.Add | agent/utils.py:10-11 | Adding the zero vector changes nothing, and the sum minus `other` is the vector again; Utils.HexVecLaws adds that Sub undoes Add both ways and that Add commutes |
| Utils.HexVec.Sub | agent/utils.py:13-14 | Adding `other` back to the difference gives back the vector |
| Utils.HexVec.Neg | agent/utils.py:16-17 | The negation added to the vector is the zero vector |
| Utils.HexVec.Mul | agent/utils.py:19-20 | Scaling by 0 gives zero, by 1 the vector, by -1 its negation; scaling by n + 1 is scaling by n plus the vector |
| Utils.CorrectCoordinates | agent/utils.py:26-41 | Both components end up in 0..7; a cell already on the board is left as it is; a component becomes 7, off the board, exactly when it is a negative multiple of 7 |
| Utils.CorrectCoordinatesMod | agent/utils.py:26-41 | For components of at least -6 the result is (r mod 7, q mod 7), a cell of the board |
| Utils.CorrectComponentNear | agent/utils.py:33-40 | One step off the board wraps: -1 becomes 6, 7 becomes 0, and 0..6 stay as they are |
| Utils.CorrectCoordinatesExamples | agent/utils.py:26-41 | (7, 7) becomes (0, 0) as documented; (-1, 8) becomes (6, 1); a negative multiple of 7 becomes 7, off the board |
| Utils.Spawn | agent/utils.py:43-44 | The key holds (colour, 1) afterwards, whatever was there; every other key is as before |
| Utils.AddTokenMap | agent/utils.py:63-75 | No other key changes, whether present or absent; a key left present holds the new colour; powers in [1, 6] stay in [1, 6] |
| Utils.AddTokenCases | agent/utils.py:63-75 | An absent key gets (colour, 1); a present key of power p gets (colour, p + 1) when p + 1 < 7 and is deleted otherwise |
| Utils.AddToken | agent/utils.py:63-75 | The dictionary becomes AddTokenMap of the old one |
| Utils.Spread | agent/utils.py:46-61 | Succeeds exactly when the token is present and still present after the walk; then the dictionary is the walk of `power` addTokens with the source deleted; a missing token leaves the dictionary unchanged; a failed final `del` leaves the walk's placements |
| Utils.StepIsCorrectCoordinates | agent/utils.py:56 | The step the walk is reasoned about with is correctCoordinates of the current cell plus the direction |
| Utils.StepInRange | agent/utils.py:56 | One wrapped step from a cell of the board along a small vector lands on the board |
| Utils.StepOnBoard | agent/utils.py:56 | One wrapped step is the unit move taken modulo 7 in each component |
| Utils.LandingOnBoard | agent/utils.py:55-58 | Every landing of the walk is on the board |
| Utils.LinStep | agent/utils.py:56 | Two wrapped moves compose: one step then i - 1 steps is i steps |
| Utils.LandingClosedForm | agent/utils.py:55-58 | Within six steps the i-th landing is start + i * direction, wrapped onto the board |
| Utils.ComponentApart | agent/utils.py:55-58 | Along a non-zero component, six or fewer steps never return to the same value |
| Utils.LandingsDistinct | agent/utils.py:55-58 | A walk of at most six steps along a direction never visits a cell twice, its start included |
| Utils.SpreadWalkFrame | agent/utils.py:55-58 | A cell the walk does not land on keeps its entry, present or absent |
| Utils.SpreadWalkPowers | agent/utils.py:55-58 | The walk keeps every stored power in [1, 6] |
| Utils.SpreadSucceeds | agent/utils.py:46-61 | A token of power at most 6 on the board spreads without KeyError; the source is gone afterwards and powers stay in [1, 6] |
| Utils.SpreadFrame | agent/utils.py:46-61 | Every cell other than the source that the walk does not land on keeps its entry |
| Utils.ColorSetSize | agent/utils.py:94 | A set of colours has fewer than two members exactly when it lacks RED or lacks BLUE |
| Utils.IsTerminal | agent/utils.py:90-96 | True exactly when the tokens carry fewer than two distinct colours, the empty board included |
| Utils.MoveAsWritten | agent/utils.py:98-107 | The argument board is unchanged and no board is returned; `ok` is false exactly where the spread inside raises KeyError, that is where MoveMap fails |
| Utils.MoveChild | agent/utils.py:98-107 | The argument board is unchanged; the fresh child holds the board after the action, and it fails only where spread raises |
| Utils.MoveKeepsPowers | agent/utils.py:98-107 | A spawn, or a spread of an on-board token along a direction, succeeds on a board with powers in [1, 6] and keeps them there |
| Utils.MoveLosesItsResult | agent/utils.py:98-107 | A spawn at (3, 3) on the empty board leaves it empty under move as written, while the child move builds holds (RED, 1) at (3, 3) |
| DfsBoard.EmptyGrid | dfs-board/program.py:21-22 | The board created without an argument is a 7x7 grid |
| DfsBoard.SetCell | dfs-board/program.py:30 | Writing one cell sets it and changes no other cell |
| DfsBoard.GridExt | dfs-board/program.py:22 | Two grids with the same 49 cells are equal |
| DfsBoard.VecUnit | dfs-board/program.py:15 | Every direction's vector is a non-zero unit vector |
| DfsBoard.Plus | dfs-board/program.py:32 | `HexPos + direction` is one wrapped step of the direction's vector; from a cell of the board it is (r + dr, q + dq) taken modulo 7, again a cell of the board |
| DfsBoard.Land | dfs-board/program.py:33-40 | A cell kept by a landing has the mover's colour; a token of power p survives exactly when p + 1 <= 6 |
| DfsBoard.SpreadWalkGrid | dfs-board/program.py:31-42 | The walk leaves a 7x7 grid |
| DfsBoard.SpreadGrid | dfs-board/program.py:28-42 | spread leaves a 7x7 grid |
| DfsBoard.WalkStep | dfs-board/program.py:31-42 | The first step of a walk lands on the board, and the rest of the walk from there reaches the same grid |
| DfsBoard.AvoidsShift | dfs-board/program.py:31-42 | A cell missed by k landings is missed by the first step and by the next k - 1 landings |
| DfsBoard.WalkMisses | dfs-board/program.py:31-42 | A cell the walk never lands on keeps its contents |
| DfsBoard.WalkHits | dfs-board/program.py:31-42 | A cell landed on exactly once receives exactly one landing |
| DfsBoard.SpreadClearsSource | dfs-board/program.py:28-30 | A spread of power at most 6 leaves its source empty |
| DfsBoard.SpreadLandsOnce | dfs-board/program.py:31-42 | Each of the p cells along the direction is on the board and gets exactly one landing: (colour, 1) if empty, (colour, p + 1) or cleared if occupied |
| DfsBoard.SpreadLeavesOthers | dfs-board/program.py:28-42 | Every cell other than the source and the p landings is unchanged |
| DfsBoard.WalkKeepsPowers | dfs-board/program.py:31-42 | The walk keeps every power in [1, 6] |
| DfsBoard.LandKeepsPowers | dfs-board/program.py:33-40 | One landing keeps every power in [1, 6] |
| DfsBoard.Apply | dfs-board/program.py:117-125 | apply_action leaves a 7x7 grid |
| DfsBoard.ApplyEffects | dfs-board/program.py:117-125 | The turn goes up by exactly one and the colour flips; a spawn sets its cell to (mover, 1) and changes no other cell; every move keeps powers in [1, 6] |
| DfsBoard.TallySwap | dfs-board/program.py:83-99 | Counting from the other colour swaps own and opponent power and cells |
| DfsBoard.TallyPower | dfs-board/program.py:45-47 | The total power is the two sides' powers added |
| DfsBoard.ScoreAntisymmetric | dfs-board/program.py:83-115 | evaluation(c) is minus evaluation of the other colour; evaluation(RED) == -evaluation(BLUE) |
| DfsBoard.SpawnsBeforeMember | dfs-board/program.py:52-56 | The scan yields a spawn exactly for each empty cell scanned so far, and none at turn 343 |
| DfsBoard.SpreadsBeforeMember | dfs-board/program.py:52-59 | The scan yields a spread exactly from each scanned cell owned by the side to move, and none at turn 343 |
| DfsBoard.ScanCounts | dfs-board/program.py:52-59 | Six spreads per owned cell and one spawn per empty cell |
| DfsBoard.LegalActionsMember | dfs-board/program.py:49-64 | An action is legal exactly when the turn is not 343 and it is a spread from a cell of the side to move, or a spawn on an empty cell while the total power is below 49; every legal action can be applied |
| DfsBoard.LegalActionsCount | dfs-board/program.py:49-64 | There are 6 per owned cell, plus one per empty cell while the total power is below 49 |
| DfsBoard.LegalActionsApplicable | dfs-board/program.py:49-64 | Every legal action can be applied |
| DfsBoard.GridOf | dfs-board/program.py:17-26 | The grid's cell (r, q) is the array's element (r, q) |
| DfsBoard.AppendSpreads | dfs-board/program.py:58-59 | The inner loop appends the six spreads of the cell, in DIRECTIONS order |
| DfsBoard.NewBoard.constructor | dfs-board/program.py:18-26 | A fresh 7x7 array: all empty without an argument, otherwise a copy of the given array; colour and turn as given |
| DfsBoard.NewBoard.Put | dfs-board/program.py:30 | One cell of the array is written and no other |
| DfsBoard.NewBoard.LandAt | dfs-board/program.py:33-40 | One landing of the loop: the array becomes the grid with that cell landed on |
| DfsBoard.NewBoard.Spread | dfs-board/program.py:28-42 | The array becomes SpreadGrid of the old one, whose properties are SpreadClearsSource, SpreadLandsOnce, SpreadLeavesOthers and WalkKeepsPowers |
| DfsBoard.NewBoard.Walk | dfs-board/program.py:31-42 | The `while power > 0` loop makes the array the walk of the old one |
| DfsBoard.NewBoard.WalkOnce | dfs-board/program.py:32-41 | One pass of the loop moves on one wrapped step, counts the power down by one and keeps the walk's target |
| DfsBoard.NewBoard.GetTotalPower | dfs-board/program.py:45-47 | The sum of the powers on the board |
| DfsBoard.NewBoard.ScanActions | dfs-board/program.py:50-59 | The spawns and spreads the double loop collects, in scan order |
| DfsBoard.NewBoard.GetLegalActions | dfs-board/program.py:49-64 | The spreads in scan order come first; they are all once the total power reaches 49, otherwise a permutation of the spawns follows; the list is a permutation of LegalActions |
| DfsBoard.NewBoard.IsTerminal | dfs-board/program.py:66-81 | True exactly when the turn is at least 343, or the turn is not 0 and either side's power is 0 |
| DfsBoard.NewBoard.Evaluation | dfs-board/program.py:83-115 | 2 (3 once at least 24 cells are occupied) times the power difference, plus the cell difference, from rootcolor's side |
| DfsBoard.NewBoard.ApplyAction | dfs-board/program.py:117-125 | The board's state becomes Apply of the old state (see ApplyEffects) |
| DfsSearch.DfsRulesWellFounded | dfs-board/program.py:117-125 | Every legal action advances the turn, so the game explored below any position is finite |
| DfsSearch.NextRank | dfs-board/program.py:117-125 | A legal action can be applied, and it lowers the turns left before 343 or leads to a terminal position |
| DfsSearch.DfsRulesAt | dfs-board/program.py:49-125 | The rules searched are the board's own is_terminal, evaluation, get_legal_actions and apply_action |
| DfsSearch.DfsRulesAgree | dfs-board/program.py:49-125 | The rules agree with the board at every well-formed state |
| DfsSearch.MiniMax.LeafAt | dfs-board/program.py:206-207 | A position is a leaf of the rules by is_terminal, and it is scored by evaluation(root colour) |
| DfsSearch.MiniMax.MovesAt | dfs-board/program.py:209 | The moves of a position are its legal actions |
| DfsSearch.MiniMax.NextAt | dfs-board/program.py:214-215 | A move is apply_action on a copy, and it moves towards the turn limit or a terminal position |
| DfsSearch.MiniMax.constructor | dfs-board/program.py:184-186 | The root is a fresh board over a copy of the given array, with the given colour and turn |
| DfsSearch.MiniMax.Copy | dfs-board/program.py:214 | A fresh board over a fresh array holding the same position |
| DfsSearch.MiniMax.Child | dfs-board/program.py:214-215 | A fresh board holding the position after the action; the parent is untouched |
| DfsSearch.MiniMax.Moves | dfs-board/program.py:209 | A permutation of the moves of the rules |
| DfsSearch.MiniMax.FindNextStep | dfs-board/program.py:188-202 | The first action, in the order listed, whose child value is maximal; None exactly when every child value is -inf (no legal action included); its child's value is the root's best child value, which is the root's minimax value |
| DfsSearch.MiniMax.RootLoop | dfs-board/program.py:194-200 | The loop keeps the first action of the largest full-window child value |
| DfsSearch.MiniMax.AlphaBetaSearch | dfs-board/program.py:204-235 | Fail-soft for the plain minimax value of the board's position under the board's own rules (leaves at max_depth or is_terminal); exactly that value under the full window |
| DfsSearch.MiniMax.SearchChild | dfs-board/program.py:214-216 | The child search is fail-soft for the child's minimax value |
| DfsSearch.MiniMax.MaxLoop | dfs-board/program.py:211-222 | The maximising loop is fail-soft for the maximum of the child values |
| DfsSearch.MiniMax.MinLoop | dfs-board/program.py:223-235 | The minimising loop is fail-soft for the minimum of the child values |
| Minimax.KeepCloseOnBoard | minimax/program.py:24 | The filter keeps every cell of the board |
| Minimax.CoordinatesAreTheBoard | minimax/program.py:20-25 | COORDINATES is the 49 cells in row-major order, exactly the cells of the board |
| Minimax.SpawnsInMember | minimax/program.py:95-102 | A spawn is collected exactly for each empty scanned cell |
| Minimax.SpreadsInMember | minimax/program.py:95-100 | A spread is collected exactly from each scanned cell owned by the node's colour |
| Minimax.SpawnsInCells | minimax/program.py:101-102 | Every collected spawn is on a scanned cell |
| Minimax.SpawnsInOrder | minimax/program.py:95-102 | Spawns come out in scan order, each empty cell once |
| Minimax.LegalActionsMember | minimax/program.py:89-103 | Spawns on exactly the empty cells of the board, in scan order; spreads from exactly the cells of the node's colour |
| Minimax.PowerOfAppend | minimax/program.py:108-112 | The sums add over concatenation |
| Minimax.PowerOfRemove | minimax/program.py:108-112 | Removing a cell removes its share of the sum |
| Minimax.MultisetRemoveAt | minimax/program.py:108 | Dropping one element drops one occurrence |
| Minimax.PowerOfPermutation | minimax/program.py:108-112 | The sums do not depend on the order in which `_state.values()` yields the cells |
| Minimax.EvaluationPermutation | minimax/program.py:105-114 | evaluation does not depend on the iteration order of the cells |
| Minimax.GenTreeShaped | minimax/program.py:124-136 | The generated tree has no children at depth 0 or at a finished game, and each child is the position its action leads to, with the other colour |
| Minimax.FirstChoiceValue | minimax/program.py:138-171 | The child chosen by the full-window search has its parent's value; there is none exactly when that value is the sentinel |
| Minimax.AppendNext | minimax/program.py:131-136 | Appending the next generated child extends the prefix by one |
| Minimax.SnapshotOfFreshNode | minimax/program.py:124-136 | No children at depth 0 or at a finished game, else one expanded child per legal action, are exactly the children GenTree gives; a node that had none then holds exactly the generated tree |
| Minimax.Node.constructor | minimax/program.py:75-81 | The fields as given, no children, a one-node tree |
| Minimax.Node.AddChild | minimax/program.py:83-84 | The child is appended after the others |
| Minimax.Node.AdoptLast | minimax/program.py:134-136 | After the last child is linked and expanded, the node is a valid tree whose snapshot has that child's subtree appended |
| Minimax.Node.GetLegalActions | minimax/program.py:89-103 | The spawns and spreads of the scan over COORDINATES, whose members LegalActionsMember states |
| Minimax.Node.Evaluation | minimax/program.py:105-114 | BLUE's power minus the power of every other cell, independent of iteration order (EvaluationPermutation) |
| Minimax.MiniMax.constructor | minimax/program.py:117-119 | A root node at level 0 with no parent, no action and no children |
| Minimax.MiniMax.GenerateTree | minimax/program.py:121-122 | A fresh root ends up holding GenTree to max_depth |
| Minimax.MiniMax.GenerateTreeRecursive | minimax/program.py:124-136 | Appends below the node the children GenTree gives it; a childless node ends up holding GenTree |
| Minimax.MiniMax.ExpandNode | minimax/program.py:128-136 | Appends one generated child per legal action, spawns then spreads, each grown to the given remaining depth |
| Minimax.MiniMax.AddExpandedChildren | minimax/program.py:131-136 | The loop appends one expanded child per action, in order |
| Minimax.MiniMax.AddExpandedChild | minimax/program.py:132-136 | Appends one child, grown after being appended: the generated tree of the position after the action, with the next colour |
| Minimax.MiniMax.FindNextStep | minimax/program.py:138-141 | Maximises exactly when the root is BLUE; the action is that of the first child with the root's minimax value, None exactly when that value is the sentinel, the root's action at a leaf |
| Minimax.MiniMax.MinimaxAlphaBeta | minimax/program.py:143-171 | Fail-soft for the stored tree's minimax value, exactly it under the full window; a leaf returns its own action; otherwise the action of child k or None |
| Minimax.MiniMax.SearchChild | minimax/program.py:152 | The i-th child's search is fail-soft for its value |
| Minimax.MiniMax.MaxChildren | minimax/program.py:148-159 | Fail-soft for the maximum; under the full window the kept child is the first maximum and the action is its action |
| Minimax.MiniMax.MaxChildStep | minimax/program.py:151-158 | One pass of the maximising loop keeps the loop invariant and the chosen action, moving on to the next index |
| Minimax.MiniMax.MinChildStep | minimax/program.py:163-170 | One pass of the minimising loop keeps the loop invariant and the chosen action, moving on to the next index |
| Minimax.MiniMax.MinChildren | minimax/program.py:160-171 | Fail-soft for the minimum; under the full window the kept child is the first minimum and the action is its action |
| MinimaxTest.LegalActionsMember | minimax_test/program.py:103-121 | Spreads from exactly the cells of the node's colour; spawns on exactly the empty cells, and only while the total power is below 49 |
| MinimaxTest.TallyCounts | minimax_test/program.py:130-136 | The loop counts own cells once and opponent cells twice and sums each side's power; empty cells count for neither side |
| MinimaxTest.HeuristicWeights | minimax_test/program.py:123-152 | The heuristic is w * power difference + own - 2 * opponent cells, with w = 3 once own + 2 * opponent cells reach 24, else 2 |
| MinimaxTest.EndgameWeightOnSixteenCells | minimax_test/program.py:144-150 | Sixteen occupied cells, eight of them the opponent's, already select the endgame weight |
| MinimaxTest.CountsOfSplit | minimax_test/program.py:130-136 | A list of n RED cells followed by BLUE cells has n RED and the rest BLUE |
| MinimaxTest.DeeperSearchSameValue | minimax_test/program.py:256-270 | Searching deeper than two plies gives the value of two plies, because the minimising ply does not recurse |
| MinimaxTest.ReplyValuesSameElements | minimax_test/program.py:116 | Reordered actions give the same reply values |
| MinimaxTest.KidValuesOfPrefix | minimax_test/program.py:241-247 | Children made for a prefix of the actions have that prefix's reply values |
| MinimaxTest.CompleteChoice | minimax_test/program.py:226-238 | Over a node holding a child for every legal action, the first best child has the node's value, and there is none exactly when that value is -inf |
| MinimaxTest.CompleteKidValues | minimax_test/program.py:228-238 | The children of such a node hold the values of its legal actions |
| MinimaxTest.FirstMaxOfSameElements | minimax_test/program.py:232-234 | The first maximum of a reordering names the maximum of the original |
| MinimaxTest.DepthOneFinite | minimax_test/program.py:215-216 | A maximising node one ply above the leaves is never +inf |
| MinimaxTest.SearchCompletesRoot | minimax_test/program.py:240-255 | After a full-window search a childless root holds a child for every legal action |
| MinimaxTest.Node.constructor | minimax_test/program.py:90-95 | The fields as given and no children |
| MinimaxTest.Node.AddChild | minimax_test/program.py:97-98 | The child is appended after the others |
| MinimaxTest.Node.GetLegalActions | minimax_test/program.py:103-121 | The spreads in scan order come first; the list is a permutation of LegalActions, which LegalActionsMember characterises |
| MinimaxTest.Node.Evaluation | minimax_test/program.py:123-152 | The heuristic of the node's position, which HeuristicWeights states |
| MinimaxTest.Node.EvaluationState | minimax_test/program.py:154-183 | The same heuristic for the given state |
| MinimaxTest.OnePlySameElements | minimax_test/program.py:258-262 | Reordered actions give the same one-ply scores |
| MinimaxTest.MiniMax.constructor | minimax_test/program.py:187-189 | A root at level 0 with no action and no children |
| MinimaxTest.MiniMax.FindNextStep | minimax_test/program.py:191-209 | Searches depths 1, 2, ... and stops after max_depth or the first depth at which the time is up; returns the action of the first best child at the last depth searched (the root's action at a finished game, None when max_depth < 1) |
| MinimaxTest.MiniMax.SearchRoot | minimax_test/program.py:199-200 | One full-window pass leaves a child for every legal action; the action returned is that of the first child with the root's value |
| MinimaxTest.MiniMax.MinimaxAlphaBeta | minimax_test/program.py:213-270 | Depth 0 gives (evaluation, action); a finished game gives +inf when the root's colour won and -inf otherwise; min nodes never get children; stored children are reused; fail-soft for the node's value |
| MinimaxTest.MiniMax.MaxOverChildren | minimax_test/program.py:228-238 | Fail-soft for the maximum over the stored children; under the full window, the first best child and its action |
| MinimaxTest.MiniMax.KidStep | minimax_test/program.py:229-237 | One pass over a stored child keeps the loop invariant, moving on to the next index |
| MinimaxTest.MiniMax.SearchKid | minimax_test/program.py:230 | The stored child's search is fail-soft for its value |
| MinimaxTest.MiniMax.MaxExpanding | minimax_test/program.py:240-255 | Children are appended in legal-action order up to the cut-off; fail-soft for the maximum of the reply values |
| MinimaxTest.MiniMax.ExpandStep | minimax_test/program.py:241-254 | One expanding pass appends one child and keeps the loop invariant, moving on to the next index |
| MinimaxTest.MiniMax.ExpandChild | minimax_test/program.py:242-247 | The child for the action is appended and searched as a minimising node |
| MinimaxTest.MiniMax.ReplyStep | minimax_test/program.py:258-269 | One pass of the minimising loop keeps the loop invariant, moving on to the next index |
| MinimaxTest.MiniMax.ScoreReply | minimax_test/program.py:259-262 | The position after the action, scored with the root's heuristic |
| MinimaxTest.MiniMax.MinOnePly | minimax_test/program.py:256-270 | Fail-soft for the minimum one-ply score; under the full window the first minimum and its action |
| Mcts.Node.constructor | agent/program.py:52-58 | wins == 0, visits == 0, no children, the given state, parent and action |
| Mcts.Node.AddChild | agent/program.py:60-61 | Exactly one child is appended at the end; the earlier children stay in place |
| Mcts.Path | agent/program.py:99-103 | The chain backpropagate walks starts at the node |
| Mcts.PathDistinct | agent/program.py:99-103 | No node appears twice on the parent chain |
| Mcts.CreditShift | agent/program.py:103 | Passing 1 - result to the parent is crediting one level further up; two neighbouring credits add to 1 |
| Mcts.FirstBestUnique | agent/program.py:111 | There is only one first child of maximal score |
| Mcts.BestDescentCons | agent/program.py:78-82 | A first-best step in front of a best descent is a best descent |
| Mcts.MCTS.constructor | agent/program.py:64-67 | A lone root with no parent, no action, no children and zero counters |
| Mcts.MCTS.Backpropagate | agent/program.py:99-103 | Every node on the parent chain gets exactly one more visit and result, 1 - result, result, ... added to its wins by distance; nothing else changes |
| Mcts.MCTS.BestChild | agent/program.py:105-111 | None exactly when there are no children (max raises); otherwise the first child of maximal score |
| Mcts.MCTS.SelectNode | agent/program.py:78-82 | A node without children, reached from the argument by following the first best child at each step |

## Left out

- The `Agent` classes of all five files are left out. They are referee callbacks, `print` diagnostics and fixed moves.
- `print_tree` and `_print_tree_recursive` are output only. The minimax_test version also calls `evaluation()` without its argument.
- The referee `Board` internals are not part of this model. These are `apply_action`, `game_over`, `winner_color`, `_total_power`, `_cell_occupied`, `__getitem__` and `_state`. Their results are the parameter `Referee<B>`, with no properties assumed.
- The wall clock of `find_next_step` in minimax_test is the parameter `timeUp(depth)`. It says whether the time limit has passed after the search to that depth.
- `random.shuffle` is modelled as some permutation (`Game.Shuffle`). Every result is proved for any order.
- Floating-point `inf` is modelled as the extended integers `ExtInt`. All finite values in the agents are integers.
- The UCT formula of `best_child` (with `math.sqrt` and `math.log`) is a real-valued parameter `uct`. The division by zero for an unvisited child is therefore not modelled.
- `MCTS.search`, `expand` and `rollout` are left out. They call `get_legal_actions`, `copy`, `is_terminal` and `get_result` on a state type that no file defines. `search` never calls `expand` either.
- Mcts.Node.AddChild: it does not maintain the ghost footprint `Repr`. So `Mcts.MCTS.SelectNode` takes a finite tree (`Valid`) as a precondition, which the source relies on implicitly.
- `Mcts.Credit` is over reals. `wins` starts as the integer 0 in the source and becomes whatever type `result` has.
- The default arguments of the MCTS constructor (1000 iterations, sqrt(2)) are not modelled. The arguments are plain parameters.
- `convert_board` and `convert_action` (agent/utils.py) are left out. They are referee conversions, and `convert_action` builds a `HexVec`, which cannot be constructed (next line).
- Utils.HexVec: the source class declares no constructor, so every operator's `self.__class__(a, b)` raises TypeError. The model gives the vector the two-argument constructor the operators call, and its contracts and `Utils.HexVecLaws` state the vector arithmetic those operators describe.
- DfsBoard.NewBoard.Spread: a spread from an empty cell raises TypeError in the source. The model requires a token on the cell instead of modelling the crash.
- DfsBoard.NewBoard.ApplyAction: it requires the action's cell to be on the board (and a token there for a spread). The referee's `HexPos` keeps positions on the board, and a negative numpy index is never produced.
- DfsSearch.MiniMax.FindNextStep: it is proved against the moves of the rules. `get_legal_actions` returns them shuffled, so the answer is the first best action in that shuffled order (`order`).
- The `MiniMax` instance's `max_depth` and `turn` come from the `Agent` in the source. Here they are plain parameters.

## Findings

| source | as written | input that shows it | evidently intended | confidence | as-written member | corrected member |
|---|---|---|---|---|---|---|
| agent/utils.py:98-107 | `move` applies the action to a deep copy and then drops the copy: the caller's board is unchanged and nothing is returned, so the move has no effect | `move({}, ('Spawn', (3, 3), RED))` leaves `{}` and returns None | return the child board it built (the comment at line 100 says the copy is there to keep the original intact) | high; not executed | Utils.MoveLosesItsResult | Utils.MoveChild |
