/** The self-contained board of the depth-first alpha-beta agent: a 7x7 grid of
    optional (colour, power) cells, the side to move and a turn counter.  The
    `NewBoard` class keeps the grid in an array that its methods update in
    place; the pure functions below (over `Grid`, the array's contents as a
    sequence of rows) are what those methods are proved against. */
module DfsBoard {
  import opened Game
  import U = Utils

  /** A cell of the grid: empty, or a (colour, power) token. */
  type Cell = Option<U.Token>

  /** The grid's contents, row by row. */
  type Grid = seq<seq<Cell>>

  predicate IsGrid(g: Grid) {
    |g| == 7 && forall r :: 0 <= r < 7 ==> |g[r]| == 7
  }

  function EmptyGrid(): (g: Grid)
    ensures IsGrid(g)
  {
    seq(7, r => seq(7, q => None))
  }

  function At(g: Grid, p: U.Coord): Cell
    requires IsGrid(g) && U.InRange(p)
  {
    g[p.0][p.1]
  }

  function SetCell(g: Grid, p: U.Coord, c: Cell): (h: Grid)
    requires IsGrid(g) && U.InRange(p)
    ensures IsGrid(h)
    ensures At(h, p) == c
    ensures forall x :: U.InRange(x) && x != p ==> At(h, x) == At(g, x)
  {
    g[p.0 := g[p.0][p.1 := c]]
  }

  lemma GridExt(g: Grid, h: Grid)
    requires IsGrid(g) && IsGrid(h)
    requires forall r, q :: 0 <= r < 7 && 0 <= q < 7 ==> g[r][q] == h[r][q]
    ensures g == h
  {
    forall r | 0 <= r < 7 ensures g[r] == h[r] {
      assert forall q :: 0 <= q < 7 ==> g[r][q] == h[r][q];
    }
  }

  /** Every token on the grid has a power in [1, 6]. */
  ghost predicate PowersOk(g: Grid)
    requires IsGrid(g)
  {
    forall x :: U.InRange(x) && At(g, x).Some? ==> 1 <= At(g, x).value.power <= 6
  }

  function Pos(p: HexPos): U.Coord {
    (p.r, p.q)
  }

  function Vec(d: HexDir): U.Coord {
    (DirR(d), DirQ(d))
  }

  lemma VecUnit(d: HexDir)
    ensures U.UnitDir(Vec(d))
  {
  }

  /** `HexPos + HexDir`: the neighbouring position, wrapped onto the board;
      from a cell of the board that is the sum taken modulo 7, again a cell
      of the board. */
  function Plus(p: HexPos, d: HexDir): (n: HexPos)
    ensures Pos(n) == U.Step(Pos(p), Vec(d))
    ensures OnBoard(p) ==> n == HexPos((p.r + DirR(d)) % 7, (p.q + DirQ(d)) % 7) && OnBoard(n)
  {
    var c := U.Step(Pos(p), Vec(d));
    HexPos(c.0, c.1)
  }

  /** What a landing does to a cell: an empty cell becomes (colour, 1); a token
      of power p becomes (colour, p + 1), or is cleared when p + 1 exceeds 6. */
  function Land(c: Cell, color: Color): (r: Cell)
    ensures r.Some? ==> r.value.color == color
    ensures c.Some? && 1 <= c.value.power ==> (r.Some? <==> c.value.power + 1 <= 6)
  {
    match c
    case None => Some(U.Token(color, 1))
    case Some(t) =>
      var newPower := t.power + 1;
      if newPower > 6 then None else Some(U.Token(color, newPower))
  }

  predicate SmallVec(v: U.Coord) {
    -1 <= v.0 <= 1 && -1 <= v.1 <= 1
  }

  /** `k` more steps of the spread loop from `cur`. */
  function SpreadWalkGrid(g: Grid, cur: U.Coord, v: U.Coord, color: Color, k: int): (h: Grid)
    requires IsGrid(g) && U.InRange(cur) && SmallVec(v)
    ensures IsGrid(h)
    decreases k
  {
    if k <= 0 then g
    else
      var next := U.Step(cur, v);
      SpreadWalkGrid(SetCell(g, next, Land(At(g, next), color)), next, v, color, k - 1)
  }

  /** spread: read the source's power, clear the source, then walk. */
  function SpreadGrid(g: Grid, src: U.Coord, v: U.Coord, color: Color): (h: Grid)
    requires IsGrid(g) && U.InRange(src) && SmallVec(v) && At(g, src).Some?
    ensures IsGrid(h)
  {
    SpreadWalkGrid(SetCell(g, src, None), src, v, color, At(g, src).value.power)
  }

  /** k more steps of the walk from cur lead to target. */
  ghost predicate WalkReaches(g: Grid, cur: U.Coord, v: U.Coord, color: Color, k: int, target: Grid) {
    IsGrid(g) && U.InRange(cur) && SmallVec(v) && SpreadWalkGrid(g, cur, v, color, k) == target
  }

  /** One step of the walk. */
  lemma WalkStep(g: Grid, cur: U.Coord, v: U.Coord, color: Color, k: int, target: Grid, next: U.Coord)
    requires IsGrid(g) && U.InRange(cur) && SmallVec(v) && k > 0 && next == U.Step(cur, v)
    requires SpreadWalkGrid(g, cur, v, color, k) == target
    ensures U.InRange(next)
    ensures SpreadWalkGrid(SetCell(g, next, Land(At(g, next), color)), next, v, color, k - 1) == target
  {
    U.StepOnBoard(cur, v);
  }

  /** None of the next k landings from cur is x. */
  ghost predicate Avoids(cur: U.Coord, v: U.Coord, k: int, x: U.Coord) {
    forall i :: 1 <= i <= k ==> x != U.Landing(cur, v, i)
  }

  /** Avoiding k landings from cur is missing the first step and avoiding
      k - 1 landings from there. */
  lemma AvoidsShift(cur: U.Coord, v: U.Coord, k: int, x: U.Coord)
    requires k > 0 && Avoids(cur, v, k, x)
    ensures x != U.Step(cur, v) && Avoids(U.Step(cur, v), v, k - 1, x)
  {
    assert x != U.Landing(cur, v, 1);
    forall i | 1 <= i <= k - 1 ensures x != U.Landing(U.Step(cur, v), v, i) {
      assert U.Landing(U.Step(cur, v), v, i) == U.Landing(cur, v, i + 1);
    }
  }

  /** Cells the walk does not land on keep their contents. */
  lemma {:induction false} WalkMisses(g: Grid, cur: U.Coord, v: U.Coord, color: Color, k: nat, x: U.Coord)
    requires IsGrid(g) && U.InRange(cur) && SmallVec(v) && U.InRange(x)
    requires Avoids(cur, v, k, x)
    ensures At(SpreadWalkGrid(g, cur, v, color, k), x) == At(g, x)
    decreases k
  {
    if k > 0 {
      var next := U.Step(cur, v);
      var g1 := SetCell(g, next, Land(At(g, next), color));
      WalkStep(g, cur, v, color, k, SpreadWalkGrid(g, cur, v, color, k), next);
      AvoidsShift(cur, v, k, x);
      WalkMisses(g1, next, v, color, k - 1, x);
    }
  }

  /** A cell the walk lands on exactly once receives one landing. */
  lemma {:induction false} WalkHits(g: Grid, cur: U.Coord, v: U.Coord, color: Color, k: nat, j: nat)
    requires IsGrid(g) && U.InRange(cur) && SmallVec(v)
    requires 1 <= j <= k
    requires forall i :: 1 <= i <= k && i != j ==> U.Landing(cur, v, i) != U.Landing(cur, v, j)
    ensures U.InRange(U.Landing(cur, v, j))
    ensures At(SpreadWalkGrid(g, cur, v, color, k), U.Landing(cur, v, j))
         == Land(At(g, U.Landing(cur, v, j)), color)
    decreases k
  {
    U.LandingOnBoard(cur, v, j);
    U.StepOnBoard(cur, v);
    var next := U.Step(cur, v);
    var x := U.Landing(cur, v, j);
    var g1 := SetCell(g, next, Land(At(g, next), color));
    if j == 1 {
      assert x == next;
      forall i | 1 <= i <= k - 1 ensures x != U.Landing(next, v, i) {
        assert U.Landing(next, v, i) == U.Landing(cur, v, i + 1);
      }
      WalkMisses(g1, next, v, color, k - 1, x);
    } else {
      assert x == U.Landing(next, v, j - 1);
      assert x != next by { assert next == U.Landing(cur, v, 1); }
      forall i | 1 <= i <= k - 1 && i != j - 1 ensures U.Landing(next, v, i) != x {
        assert U.Landing(next, v, i) == U.Landing(cur, v, i + 1);
      }
      WalkHits(g1, next, v, color, k - 1, j - 1);
    }
  }

  /** A spread of power p (at most 6) from a cell on the board leaves the
      source empty. */
  lemma SpreadClearsSource(g: Grid, src: U.Coord, d: HexDir, color: Color)
    requires IsGrid(g) && U.InRange(src) && At(g, src).Some? && At(g, src).value.power <= 6
    ensures At(SpreadGrid(g, src, Vec(d), color), src) == None
  {
    var v := Vec(d);
    VecUnit(d);
    var p := At(g, src).value.power;
    var k: nat := if p < 0 then 0 else p;
    var g0 := SetCell(g, src, None);
    assert SpreadGrid(g, src, v, color) == SpreadWalkGrid(g0, src, v, color, k);
    forall i | 1 <= i <= k ensures src != U.Landing(src, v, i) {
      U.LandingsDistinct(src, v, 0, i);
    }
    WalkMisses(g0, src, v, color, k, src);
  }

  /** Each of the p cells along the direction receives exactly one landing. */
  lemma SpreadLandsOnce(g: Grid, src: U.Coord, d: HexDir, color: Color, j: nat)
    requires IsGrid(g) && U.InRange(src) && At(g, src).Some? && 1 <= j <= At(g, src).value.power <= 6
    ensures U.InRange(U.Landing(src, Vec(d), j))
    ensures At(SpreadGrid(g, src, Vec(d), color), U.Landing(src, Vec(d), j))
         == Land(At(g, U.Landing(src, Vec(d), j)), color)
  {
    var v := Vec(d);
    VecUnit(d);
    var k: nat := At(g, src).value.power;
    var g0 := SetCell(g, src, None);
    forall i | 1 <= i <= k && i != j ensures U.Landing(src, v, i) != U.Landing(src, v, j) {
      if i < j { U.LandingsDistinct(src, v, i, j); } else { U.LandingsDistinct(src, v, j, i); }
    }
    WalkHits(g0, src, v, color, k, j);
    U.LandingsDistinct(src, v, 0, j);
  }

  /** Every other cell is as it was. */
  lemma SpreadLeavesOthers(g: Grid, src: U.Coord, d: HexDir, color: Color, x: U.Coord)
    requires IsGrid(g) && U.InRange(src) && At(g, src).Some? && At(g, src).value.power <= 6
    requires U.InRange(x) && x != src
    requires forall i :: 1 <= i <= At(g, src).value.power ==> x != U.Landing(src, Vec(d), i)
    ensures At(SpreadGrid(g, src, Vec(d), color), x) == At(g, x)
  {
    var v := Vec(d);
    var p := At(g, src).value.power;
    var k: nat := if p < 0 then 0 else p;
    var g0 := SetCell(g, src, None);
    assert SpreadGrid(g, src, v, color) == SpreadWalkGrid(g0, src, v, color, k);
    WalkMisses(g0, src, v, color, k, x);
  }

  /** The walk keeps every power in [1, 6]. */
  lemma {:induction false} WalkKeepsPowers(g: Grid, cur: U.Coord, v: U.Coord, color: Color, k: int)
    requires IsGrid(g) && U.InRange(cur) && SmallVec(v) && PowersOk(g)
    ensures PowersOk(SpreadWalkGrid(g, cur, v, color, k))
    decreases k
  {
    if k > 0 {
      var next := U.Step(cur, v);
      U.StepOnBoard(cur, v);
      LandKeepsPowers(g, next, color);
      WalkKeepsPowers(SetCell(g, next, Land(At(g, next), color)), next, v, color, k - 1);
    }
  }

  /** One landing keeps every power in [1, 6]. */
  lemma LandKeepsPowers(g: Grid, p: U.Coord, color: Color)
    requires IsGrid(g) && U.InRange(p) && PowersOk(g)
    ensures PowersOk(SetCell(g, p, Land(At(g, p), color)))
  {
    var h := SetCell(g, p, Land(At(g, p), color));
    forall x | U.InRange(x) && At(h, x).Some? ensures 1 <= At(h, x).value.power <= 6 {
      if x != p {
        assert At(h, x) == At(g, x);
      }
    }
  }

  // ---------------------------------------------------------------------
  // The game state and its transitions.
  // ---------------------------------------------------------------------

  /** The contents of a NewBoard: grid, side to move, turn counter. */
  datatype BoardState = BoardState(grid: Grid, color: Color, turn: int)

  /** apply_action is defined for an action on a cell of the board; a spread
      additionally needs a token on its cell (its power is read). */
  predicate CanApply(s: BoardState, a: Action) {
    IsGrid(s.grid) && OnBoard(a.cell) && (a.Spread? ==> At(s.grid, Pos(a.cell)).Some?)
  }

  /** apply_action: place or spread for the side to move, then advance the turn
      and hand the move to the other side. */
  function Apply(s: BoardState, a: Action): (t: BoardState)
    requires CanApply(s, a)
    ensures IsGrid(t.grid)
  {
    var g := match a
      case Spawn(cell) => SetCell(s.grid, Pos(cell), Some(U.Token(s.color, 1)))
      case Spread(cell, d) => SpreadGrid(s.grid, Pos(cell), Vec(d), s.color);
    BoardState(g, Opponent(s.color), s.turn + 1)
  }

  /** apply_action advances the turn by exactly one and flips the colour; a
      spawn sets its cell to (mover, 1) and changes no other cell; every move
      keeps powers in [1, 6]. */
  lemma ApplyEffects(s: BoardState, a: Action)
    requires CanApply(s, a)
    ensures Apply(s, a).turn == s.turn + 1
    ensures Apply(s, a).color == Opponent(s.color) && Apply(s, a).color != s.color
    ensures a.Spawn? ==> At(Apply(s, a).grid, Pos(a.cell)) == Some(U.Token(s.color, 1))
    ensures a.Spawn? ==> forall x :: U.InRange(x) && x != Pos(a.cell) ==> At(Apply(s, a).grid, x) == At(s.grid, x)
    ensures PowersOk(s.grid) ==> PowersOk(Apply(s, a).grid)
  {
    if a.Spread? && PowersOk(s.grid) {
      var src := Pos(a.cell);
      var g0 := SetCell(s.grid, src, None);
      VecUnit(a.dir);
      WalkKeepsPowers(g0, src, Vec(a.dir), s.color, At(s.grid, src).value.power);
    }
  }

  // ---------------------------------------------------------------------
  // Scans over the 49 cells in row-major order.  `...Before(g, r, q)` is the
  // scan of the cells before (r, q): rows 0 .. r-1 and the first q cells of
  // row r; (7, 0) is the whole board.
  // ---------------------------------------------------------------------

  predicate ScanPoint(r: int, q: int) {
    0 <= r <= 7 && 0 <= q <= 7 && (r == 7 ==> q == 0)
  }

  /** The position p comes before (r, q) in row-major order. */
  predicate Before(p: HexPos, r: int, q: int) {
    p.r < r || (p.r == r && p.q < q)
  }

  /** Powers and cell counts of one colour against the other. */
  datatype Tally = Tally(ownPower: int, oppPower: int, ownCells: int, oppCells: int)

  /** Adds one cell to a tally, `own` meaning colour c. */
  function Count(t: Tally, cell: Cell, c: Color): Tally {
    match cell
    case None => t
    case Some(tok) =>
      if tok.color == c then Tally(t.ownPower + tok.power, t.oppPower, t.ownCells + 1, t.oppCells)
      else Tally(t.ownPower, t.oppPower + tok.power, t.ownCells, t.oppCells + 1)
  }

  function TallyBefore(g: Grid, c: Color, r: int, q: int): Tally
    requires IsGrid(g) && ScanPoint(r, q)
    decreases r, q
  {
    if q == 0 then (if r == 0 then Tally(0, 0, 0, 0) else TallyBefore(g, c, r - 1, 7))
    else Count(TallyBefore(g, c, r, q - 1), g[r][q - 1], c)
  }

  function PowerOf(cell: Cell): int {
    match cell
    case None => 0
    case Some(tok) => tok.power
  }

  /** The sum of the powers of the cells before (r, q). */
  function PowerBefore(g: Grid, r: int, q: int): int
    requires IsGrid(g) && ScanPoint(r, q)
    decreases r, q
  {
    if q == 0 then (if r == 0 then 0 else PowerBefore(g, r - 1, 7))
    else PowerBefore(g, r, q - 1) + PowerOf(g[r][q - 1])
  }

  /** Seen from the other colour, own and opponent swap. */
  lemma {:induction false} TallySwap(g: Grid, c: Color, r: int, q: int)
    requires IsGrid(g) && ScanPoint(r, q)
    ensures var t := TallyBefore(g, c, r, q);
            TallyBefore(g, Opponent(c), r, q) == Tally(t.oppPower, t.ownPower, t.oppCells, t.ownCells)
    decreases r, q
  {
    if q == 0 {
      if r > 0 {
        TallySwap(g, c, r - 1, 7);
      }
    } else {
      TallySwap(g, c, r, q - 1);
    }
  }

  /** The total power is the two sides' powers together. */
  lemma {:induction false} TallyPower(g: Grid, c: Color, r: int, q: int)
    requires IsGrid(g) && ScanPoint(r, q)
    ensures PowerBefore(g, r, q) == TallyBefore(g, c, r, q).ownPower + TallyBefore(g, c, r, q).oppPower
    decreases r, q
  {
    if q == 0 {
      if r > 0 {
        TallyPower(g, c, r - 1, 7);
      }
    } else {
      TallyPower(g, c, r, q - 1);
    }
  }

  /** get_total_power */
  function TotalPower(g: Grid): int
    requires IsGrid(g)
  {
    PowerBefore(g, 7, 0)
  }

  /** is_terminal: the turn limit of 343 is reached, or after the first turn
      one side has no power left. */
  predicate Terminal(s: BoardState)
    requires IsGrid(s.grid)
  {
    var t := TallyBefore(s.grid, s.color, 7, 0);
    s.turn >= 343 || (s.turn != 0 && (t.ownPower == 0 || t.oppPower == 0))
  }

  /** The cell count from which the power weight goes up: int(0.5 * 49). */
  const EndgameThreshold: int := 24

  /** evaluation(rootcolor): power difference weighted 2 (3 once at least 24
      cells are occupied) plus the cell-count difference. */
  function Score(g: Grid, rootColor: Color): int
    requires IsGrid(g)
  {
    var t := TallyBefore(g, rootColor, 7, 0);
    var powerWeight := if t.ownCells + t.oppCells >= EndgameThreshold then 3 else 2;
    powerWeight * (t.ownPower - t.oppPower) + (t.ownCells - t.oppCells)
  }

  /** The heuristic is zero-sum: what one colour gains the other loses. */
  lemma ScoreAntisymmetric(g: Grid, c: Color)
    requires IsGrid(g)
    ensures Score(g, Opponent(c)) == -Score(g, c)
    ensures Score(g, Red) == -Score(g, Blue)
  {
    TallySwap(g, c, 7, 0);
    TallySwap(g, Red, 7, 0);
  }

  /** The spawns get_legal_actions collects before (r, q), ahead of the
      shuffle: one per empty cell, none at turn 343. */
  function SpawnsBefore(g: Grid, turn: int, r: int, q: int): seq<Action>
    requires IsGrid(g) && ScanPoint(r, q)
    decreases r, q
  {
    if q == 0 then (if r == 0 then [] else SpawnsBefore(g, turn, r - 1, 7))
    else
      SpawnsBefore(g, turn, r, q - 1) +
      (if g[r][q - 1].None? && turn != 343 then [Spawn(HexPos(r, q - 1))] else [])
  }

  /** The spreads collected before (r, q): six per cell owned by c, none at
      turn 343. */
  function SpreadsBefore(g: Grid, c: Color, turn: int, r: int, q: int): seq<Action>
    requires IsGrid(g) && ScanPoint(r, q)
    decreases r, q
  {
    if q == 0 then (if r == 0 then [] else SpreadsBefore(g, c, turn, r - 1, 7))
    else
      SpreadsBefore(g, c, turn, r, q - 1) +
      (if g[r][q - 1].Some? && g[r][q - 1].value.color == c && turn != 343
       then SixSpreads(HexPos(r, q - 1)) else [])
  }

  function Spreads(s: BoardState): seq<Action>
    requires IsGrid(s.grid)
  {
    SpreadsBefore(s.grid, s.color, s.turn, 7, 0)
  }

  function Spawns(s: BoardState): seq<Action>
    requires IsGrid(s.grid)
  {
    SpawnsBefore(s.grid, s.turn, 7, 0)
  }

  /** get_legal_actions in scan order, before the spawns are shuffled: the
      spreads, followed by the spawns unless the total power is 49 or more. */
  function LegalActions(s: BoardState): seq<Action>
    requires IsGrid(s.grid)
  {
    if TotalPower(s.grid) >= 49 then Spreads(s) else Spreads(s) + Spawns(s)
  }

  lemma {:induction false} SpawnsBeforeMember(g: Grid, turn: int, r: int, q: int, a: Action)
    requires IsGrid(g) && ScanPoint(r, q)
    ensures a in SpawnsBefore(g, turn, r, q) <==>
      turn != 343 && a.Spawn? && OnBoard(a.cell) && Before(a.cell, r, q) && At(g, Pos(a.cell)).None?
    decreases r, q
  {
    if q == 0 {
      if r > 0 {
        SpawnsBeforeMember(g, turn, r - 1, 7, a);
      }
    } else {
      SpawnsBeforeMember(g, turn, r, q - 1, a);
    }
  }

  lemma {:induction false} SpreadsBeforeMember(g: Grid, c: Color, turn: int, r: int, q: int, a: Action)
    requires IsGrid(g) && ScanPoint(r, q)
    ensures a in SpreadsBefore(g, c, turn, r, q) <==>
      turn != 343 && a.Spread? && OnBoard(a.cell) && Before(a.cell, r, q) &&
      At(g, Pos(a.cell)).Some? && At(g, Pos(a.cell)).value.color == c
    decreases r, q
  {
    if q == 0 {
      if r > 0 {
        SpreadsBeforeMember(g, c, turn, r - 1, 7, a);
      }
    } else {
      SpreadsBeforeMember(g, c, turn, r, q - 1, a);
      SixSpreadsMember(HexPos(r, q - 1), a);
    }
  }

  /** Six spreads per owned cell, one spawn per empty cell. */
  lemma {:induction false} ScanCounts(g: Grid, c: Color, turn: int, r: int, q: int)
    requires IsGrid(g) && ScanPoint(r, q) && turn != 343
    ensures |SpreadsBefore(g, c, turn, r, q)| == 6 * TallyBefore(g, c, r, q).ownCells
    ensures |SpawnsBefore(g, turn, r, q)| == 7 * r + q - TallyBefore(g, c, r, q).ownCells - TallyBefore(g, c, r, q).oppCells
    decreases r, q
  {
    if q == 0 {
      if r > 0 {
        ScanCounts(g, c, turn, r - 1, 7);
      }
    } else {
      ScanCounts(g, c, turn, r, q - 1);
    }
  }

  /** The legal actions are exactly the six spreads of every cell the side to
      move owns and, while the total power is below 49, a spawn on every empty
      cell; there are none at turn 343.  Each of them can be applied. */
  lemma LegalActionsMember(s: BoardState, a: Action)
    requires IsGrid(s.grid)
    ensures a in LegalActions(s) <==>
      s.turn != 343 && OnBoard(a.cell) &&
      ((a.Spread? && At(s.grid, Pos(a.cell)).Some? && At(s.grid, Pos(a.cell)).value.color == s.color) ||
       (a.Spawn? && At(s.grid, Pos(a.cell)).None? && TotalPower(s.grid) < 49))
    ensures a in LegalActions(s) ==> CanApply(s, a)
  {
    SpreadsBeforeMember(s.grid, s.color, s.turn, 7, 0, a);
    SpawnsBeforeMember(s.grid, s.turn, 7, 0, a);
  }

  /** The number of legal actions: six per owned cell, plus one per empty cell
      while the total power is below 49. */
  lemma LegalActionsCount(s: BoardState)
    requires IsGrid(s.grid) && s.turn != 343
    ensures var t := TallyBefore(s.grid, s.color, 7, 0);
            |LegalActions(s)| == 6 * t.ownCells + (if TotalPower(s.grid) >= 49 then 0 else 49 - t.ownCells - t.oppCells)
  {
    ScanCounts(s.grid, s.color, s.turn, 7, 0);
  }

  lemma LegalActionsApplicable(s: BoardState)
    requires IsGrid(s.grid)
    ensures forall a :: a in LegalActions(s) ==> CanApply(s, a)
  {
    forall a | a in LegalActions(s) ensures CanApply(s, a) {
      LegalActionsMember(s, a);
    }
  }

  // ---------------------------------------------------------------------
  // The board object.
  // ---------------------------------------------------------------------

  /** The contents of a 7x7 array, row by row. */
  function GridOf(b: array2<Cell>): (g: Grid)
    requires b.Length0 == 7 && b.Length1 == 7
    reads b
    ensures IsGrid(g)
    ensures forall r, q :: 0 <= r < 7 && 0 <= q < 7 ==> g[r][q] == b[r, q]
  {
    seq(7, r requires 0 <= r < 7 reads b => seq(7, q requires 0 <= q < 7 reads b => b[r, q]))
  }

  /** The inner loop of get_legal_actions: one spread from p per direction,
      in DIRECTIONS order. */
  method AppendSpreads(spreads: seq<Action>, p: HexPos) returns (r: seq<Action>)
    ensures r == spreads + SixSpreads(p)
  {
    r := spreads;
    for k := 0 to 6
      invariant r == spreads + SixSpreads(p)[..k]
    {
      r := r + [Spread(p, Directions[k])];
      assert SixSpreads(p)[..k + 1] == SixSpreads(p)[..k] + [SixSpreads(p)[k]];
    }
    assert SixSpreads(p)[..6] == SixSpreads(p);
  }

  class NewBoard {
    var color: Color
    var turn: int
    const board: array2<Cell>

    ghost predicate Valid() {
      board.Length0 == 7 && board.Length1 == 7
    }

    function Grid(): Grid
      requires Valid()
      reads board
    {
      GridOf(board)
    }

    function State(): BoardState
      requires Valid()
      reads this, board
    {
      BoardState(Grid(), color, turn)
    }

    /** A new board over a fresh 7x7 array: all empty when no array is given,
        otherwise a copy of the given one. */
    constructor (color: Color, turn: int, board: array2?<Cell>)
      requires board != null ==> board.Length0 == 7 && board.Length1 == 7
      ensures Valid() && fresh(this.board)
      ensures this.color == color && this.turn == turn
      ensures board == null ==> Grid() == EmptyGrid()
      ensures board != null ==> Grid() == GridOf(board)
    {
      this.color := color;
      this.turn := turn;
      if board == null {
        this.board := new Cell[7, 7]((r, q) => None);
      } else {
        var src := board;
        this.board := new Cell[7, 7]((r, q) requires 0 <= r < 7 && 0 <= q < 7 reads src => src[r, q]);
      }
      new;
      if board == null {
        GridExt(Grid(), EmptyGrid());
      } else {
        GridExt(Grid(), GridOf(board));
      }
    }

    method Put(p: U.Coord, c: Cell)
      requires Valid() && U.InRange(p)
      modifies board
      ensures Grid() == SetCell(old(Grid()), p, c)
    {
      board[p.0, p.1] := c;
      GridExt(Grid(), SetCell(old(Grid()), p, c));
    }

    /** One landing of spread (the body of its loop): an empty cell becomes
        (color, 1); a token's power goes up by one, and the cell is cleared
        when that exceeds 6. */
    method LandAt(p: U.Coord, color: Color)
      requires Valid() && U.InRange(p)
      modifies board
      ensures Grid() == SetCell(old(Grid()), p, Land(At(old(Grid()), p), color))
    {
      var c := board[p.0, p.1];
      if c == None {
        Put(p, Some(U.Token(color, 1)));
      } else {
        var newCellPower := c.value.power + 1;
        if newCellPower > 6 {
          Put(p, None);
        } else {
          Put(p, Some(U.Token(color, newCellPower)));
        }
      }
    }

    /** spread(cell, direction, color) */
    method Spread(cell: HexPos, direction: HexDir, color: Color)
      requires Valid() && OnBoard(cell) && At(Grid(), Pos(cell)).Some?
      modifies board
      ensures Grid() == SpreadGrid(old(Grid()), Pos(cell), Vec(direction), color)
    {
      var power := board[cell.r, cell.q].value.power;
      Put(Pos(cell), None);
      VecUnit(direction);
      Walk(cell, direction, color, power);
    }

    /** The loop of spread: `power` landings, each one step further along
        `direction` from `cell`. */
    method Walk(cell: HexPos, direction: HexDir, color: Color, power: int)
      requires Valid() && OnBoard(cell)
      modifies board
      ensures Grid() == SpreadWalkGrid(old(Grid()), Pos(cell), Vec(direction), color, power)
    {
      ghost var target := SpreadWalkGrid(Grid(), Pos(cell), Vec(direction), color, power);
      var cur, k := cell, power;
      VecUnit(direction);
      ghost var g := Grid();
      while k > 0
        invariant Valid() && OnBoard(cur) && IsGrid(g) && Grid() == g
        invariant WalkReaches(g, Pos(cur), Vec(direction), color, k, target)
        decreases k
      {
        cur, k, g := WalkOnce(cur, direction, color, k, g, target);
      }
    }

    /** One turn of the loop of spread: a landing one step further along
        `direction`. */
    method WalkOnce(cur: HexPos, direction: HexDir, color: Color, k: int, ghost g: Grid, ghost target: Grid)
      returns (newCell: HexPos, k1: int, ghost g1: Grid)
      requires Valid() && IsGrid(g) && Grid() == g && OnBoard(cur) && k > 0
      requires SmallVec(Vec(direction)) && SpreadWalkGrid(g, Pos(cur), Vec(direction), color, k) == target
      modifies board
      ensures k1 == k - 1
      ensures Valid() && OnBoard(newCell) && IsGrid(g1) && Grid() == g1
      ensures WalkReaches(g1, Pos(newCell), Vec(direction), color, k1, target)
    {
      k1 := k - 1;
      newCell := Plus(cur, direction);
      WalkStep(g, Pos(cur), Vec(direction), color, k, target, Pos(newCell));
      LandAt(Pos(newCell), color);
      g1 := SetCell(g, Pos(newCell), Land(At(g, Pos(newCell)), color));
    }

    method GetTotalPower() returns (totalSum: int)
      requires Valid()
      ensures totalSum == TotalPower(Grid())
    {
      ghost var g := Grid();
      totalSum := 0;
      for r := 0 to 7
        invariant totalSum == PowerBefore(g, r, 0)
      {
        for q := 0 to 7
          invariant totalSum == PowerBefore(g, r, q)
        {
          var element := board[r, q];
          if element != None {
            totalSum := totalSum + element.value.power;
          }
        }
      }
    }

    /** The scan of get_legal_actions: spawns for the empty cells and six
        spreads for each cell of the side to move, in row-major order. */
    method ScanActions() returns (spawns: seq<Action>, spreads: seq<Action>)
      requires Valid()
      ensures spawns == Spawns(State()) && spreads == Spreads(State())
    {
      ghost var g := Grid();
      spawns := [];
      spreads := [];
      for i := 0 to 7
        invariant spawns == SpawnsBefore(g, turn, i, 0)
        invariant spreads == SpreadsBefore(g, color, turn, i, 0)
      {
        for j := 0 to 7
          invariant spawns == SpawnsBefore(g, turn, i, j)
          invariant spreads == SpreadsBefore(g, color, turn, i, j)
        {
          var cell := board[i, j];
          if cell == None && turn != 343 {
            spawns := spawns + [Action.Spawn(HexPos(i, j))];
          }
          if cell != None && cell.value.color == color && turn != 343 {
            spreads := AppendSpreads(spreads, HexPos(i, j));
          }
        }
      }
    }

    /** get_legal_actions: the spreads in scan order, then the shuffled spawns
        unless the total power is 49 or more. */
    method GetLegalActions() returns (actions: seq<Action>)
      requires Valid()
      ensures var spreads := Spreads(State());
              |spreads| <= |actions| && actions[..|spreads|] == spreads &&
              (TotalPower(Grid()) >= 49 ==> actions == spreads) &&
              (TotalPower(Grid()) < 49 ==> multiset(actions[|spreads|..]) == multiset(Spawns(State())))
      ensures multiset(actions) == multiset(LegalActions(State()))
    {
      var spawns, spreads := ScanActions();
      spawns := Shuffle(spawns);
      var totalPower := GetTotalPower();
      if totalPower >= 49 {
        actions := spreads;
      } else {
        actions := spreads + spawns;
        assert actions[|spreads|..] == spawns;
      }
      assert actions[..|spreads|] == spreads;
    }

    /** is_terminal */
    method IsTerminal() returns (t: bool)
      requires Valid()
      ensures t == Terminal(State())
    {
      ghost var g := Grid();
      var selfPower := 0;
      var oppoPower := 0;
      for r := 0 to 7
        invariant selfPower == TallyBefore(g, color, r, 0).ownPower
        invariant oppoPower == TallyBefore(g, color, r, 0).oppPower
      {
        for q := 0 to 7
          invariant selfPower == TallyBefore(g, color, r, q).ownPower
          invariant oppoPower == TallyBefore(g, color, r, q).oppPower
        {
          var cell := board[r, q];
          if cell != None {
            if cell.value.color == color {
              selfPower := selfPower + cell.value.power;
            } else {
              oppoPower := oppoPower + cell.value.power;
            }
          }
        }
      }
      if (selfPower == 0 && turn != 0) || (oppoPower == 0 && turn != 0) ||
         (selfPower == 0 && oppoPower == 0 && turn != 0) || turn >= 343 {
        return true;
      }
      return false;
    }

    /** evaluation(rootcolor) */
    method Evaluation(rootColor: Color) returns (score: int)
      requires Valid()
      ensures score == Score(Grid(), rootColor)
    {
      ghost var g := Grid();
      var oppPower := 0;
      var selfPower := 0;
      var oppCells := 0;
      var selfCells := 0;
      for r := 0 to 7
        invariant Tally(selfPower, oppPower, selfCells, oppCells) == TallyBefore(g, rootColor, r, 0)
      {
        for q := 0 to 7
          invariant Tally(selfPower, oppPower, selfCells, oppCells) == TallyBefore(g, rootColor, r, q)
        {
          var cell := board[r, q];
          if cell != None {
            if cell.value.color == rootColor {
              selfPower := selfPower + cell.value.power;
              selfCells := selfCells + 1;
            } else {
              oppPower := oppPower + cell.value.power;
              oppCells := oppCells + 1;
            }
          }
        }
      }
      var powerScore := selfPower - oppPower;
      var cellScore := selfCells - oppCells;
      var powerWeight := 2;
      var cellWeight := 1;
      var totalCells := selfCells + oppCells;
      var endgameThreshold := EndgameThreshold;
      if totalCells >= endgameThreshold {
        powerWeight := 3;
        cellWeight := 1;
      }
      assert cellWeight == 1 && powerWeight == (if totalCells >= EndgameThreshold then 3 else 2);
      score := (powerWeight * powerScore) + (cellWeight * cellScore);
    }

    /** apply_action */
    method ApplyAction(action: Action)
      requires Valid() && CanApply(State(), action)
      modifies this, board
      ensures State() == Apply(old(State()), action)
    {
      match action {
        case Spawn(cell) =>
          Put(Pos(cell), Some(U.Token(color, 1)));
        case Spread(cell, direction) =>
          Spread(cell, direction, color);
      }
      turn := turn + 1;
      color := Opponent(color);
    }
  }
}
