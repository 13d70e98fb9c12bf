/** The value types that the game's referee package supplies to every agent
    (player colours, hex positions and directions, actions, cell states),
    and the referee Board operations the minimax variants call but whose
    code is not part of this model.  Those operations are gathered in the
    record `Referee<B>` of function-typed fields, so every member that uses
    them takes the referee as a parameter and relies on nothing else. */
module Game {

  datatype Option<+T> = None | Some(value: T)

  /** PlayerColor */
  datatype Color = Red | Blue

  /** SWITCH_COLOR / _SWITCH_COLOR: the other player. */
  function Opponent(c: Color): (o: Color)
    ensures o != c
    ensures c == Red <==> o == Blue
  {
    match c
    case Red => Blue
    case Blue => Red
  }

  /** The side length of the board (BOARD_N). */
  const BoardN: int := 7

  /** HexPos(r, q): an axial coordinate. */
  datatype HexPos = HexPos(r: int, q: int)

  predicate OnBoard(p: HexPos) {
    0 <= p.r < BoardN && 0 <= p.q < BoardN
  }

  /** HexDir: the six unit directions of the hex grid. */
  datatype HexDir = Down | DownLeft | DownRight | Up | UpLeft | UpRight

  /** The `directions` / `DIRECTIONS` list, in the order every agent enumerates it. */
  const Directions: seq<HexDir> := [Down, DownLeft, DownRight, Up, UpLeft, UpRight]

  /** The r component of a direction's vector. */
  function DirR(d: HexDir): int {
    match d
    case Down => -1
    case DownLeft => -1
    case DownRight => 0
    case Up => 1
    case UpLeft => 0
    case UpRight => 1
  }

  /** The q component of a direction's vector. */
  function DirQ(d: HexDir): int {
    match d
    case Down => 1
    case DownLeft => 0
    case DownRight => 1
    case Up => -1
    case UpLeft => -1
    case UpRight => 0
  }

  /** Every direction is a non-zero vector with components in {-1, 0, 1},
      and the six vectors are pairwise distinct. */
  lemma DirectionsAreUnitVectors()
    ensures |Directions| == 6
    ensures forall d: HexDir :: d in Directions
    ensures forall d: HexDir :: -1 <= DirR(d) <= 1 && -1 <= DirQ(d) <= 1 && (DirR(d), DirQ(d)) != (0, 0)
    ensures forall i, j :: 0 <= i < j < 6 ==>
      (DirR(Directions[i]), DirQ(Directions[i])) != (DirR(Directions[j]), DirQ(Directions[j]))
  {
    forall d: HexDir ensures d in Directions {
      match d
      case Down => assert Directions[0] == d;
      case DownLeft => assert Directions[1] == d;
      case DownRight => assert Directions[2] == d;
      case Up => assert Directions[3] == d;
      case UpLeft => assert Directions[4] == d;
      case UpRight => assert Directions[5] == d;
    }
  }

  /** SpawnAction(cell) | SpreadAction(cell, direction) */
  datatype Action = Spawn(cell: HexPos) | Spread(cell: HexPos, dir: HexDir)

  /** The six spreads from one cell, in the order of `Directions`. */
  function SixSpreads(p: HexPos): seq<Action> {
    seq(6, i requires 0 <= i < 6 => Spread(p, Directions[i]))
  }

  lemma SixSpreadsMember(p: HexPos, a: Action)
    ensures a in SixSpreads(p) <==> a.Spread? && a.cell == p
  {
    if a.Spread? && a.cell == p {
      match a.dir
      case Down => assert SixSpreads(p)[0] == a;
      case DownLeft => assert SixSpreads(p)[1] == a;
      case DownRight => assert SixSpreads(p)[2] == a;
      case Up => assert SixSpreads(p)[3] == a;
      case UpLeft => assert SixSpreads(p)[4] == a;
      case UpRight => assert SixSpreads(p)[5] == a;
    }
  }

  /** The 49 cells of the board in row-major order: (0,0), (0,1), ..., (6,6). */
  function RowMajor(): seq<HexPos> {
    seq(49, k requires 0 <= k < 49 => HexPos(k / 7, k % 7))
  }

  lemma RowMajorAt(r: int, q: int)
    requires 0 <= r < 7 && 0 <= q < 7
    ensures |RowMajor()| == 49 && r * 7 + q < 49 && RowMajor()[r * 7 + q] == HexPos(r, q)
  {
  }

  /** random.shuffle: some permutation of its argument. */
  method Shuffle(s: seq<Action>) returns (t: seq<Action>)
    ensures multiset(t) == multiset(s)
  {
    t := s;
  }

  /** A cell of the referee's board state: the owning player (none when the
      cell is empty) and its power. */
  datatype CellState = CellState(player: Option<Color>, power: int)

  /** The referee Board operations used by the minimax variants.  Their code is
      not part of this model, so they are parameters:
      `occupied` is `_cell_occupied`, `cell` is `board[pos]`, `cells` is
      `_state.values()` in iteration order, `apply` is a deep copy followed by
      `apply_action`, `gameOver` is `game_over`, `winner` is `winner_color`,
      `totalPower` is `_total_power`. */
  datatype Referee<!B> = Referee(
    occupied: (B, HexPos) -> bool,
    cell: (B, HexPos) -> CellState,
    cells: B -> seq<CellState>,
    apply: (B, Action) -> B,
    gameOver: B -> bool,
    winner: B -> Option<Color>,
    totalPower: B -> int)
}
