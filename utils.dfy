/** The dictionary-board helpers of the agent package: a board is a mutable
    dictionary from (r, q) coordinates to (colour, power) tokens, and spawn,
    addToken and spread update it in place; coordinates wrap around the 7x7
    torus. */
module Utils {
  import opened Game

  /** HexVec: a 2-vector with componentwise arithmetic.  (The source class
      declares only the two fields and no constructor; the model gives it the
      value semantics its operators describe.) */
  datatype HexVec = HexVec(r: int, q: int) {
    /** __add__: the zero vector changes nothing, and taking `other` away
        again gives back this vector (HexVecLaws: Sub undoes Add, and Add
        commutes). */
    function Add(other: HexVec): (v: HexVec)
      ensures other == HexVec(0, 0) ==> v == this
      ensures v.r - other.r == r && v.q - other.q == q
    {
      HexVec(r + other.r, q + other.q)
    }

    /** __sub__: the vector that `other` must be added to to reach this one. */
    function Sub(other: HexVec): (v: HexVec)
      ensures v.Add(other) == this
    {
      HexVec(r - other.r, q - other.q)
    }

    /** __neg__: the additive inverse. */
    function Neg(): (v: HexVec)
      ensures v.Add(this) == HexVec(0, 0)
    {
      HexVec(r * -1, q * -1)
    }

    /** __mul__: scaling; by 0 the zero vector, by 1 the vector itself, by -1
        its inverse, and by n + 1 one more copy than by n. */
    function Mul(n: int): (v: HexVec)
      ensures n == 0 ==> v == HexVec(0, 0)
      ensures n == 1 ==> v == this
      ensures n == -1 ==> v == Neg()
      ensures HexVec(r * (n + 1), q * (n + 1)) == v.Add(this)
    {
      HexVec(r * n, q * n)
    }
  }

  /** The HexVec operators are componentwise and cancel as vectors do. */
  lemma HexVecLaws(a: HexVec, b: HexVec, n: int)
    ensures a.Add(b).Sub(b) == a
    ensures a.Sub(b).Add(b) == a
    ensures a.Neg().Neg() == a
    ensures a.Add(b) == b.Add(a)
    ensures a.Add(a.Neg()) == HexVec(0, 0)
    ensures a.Mul(n) == HexVec(a.r * n, a.q * n)
    ensures a.Mul(-1) == a.Neg()
  {
  }

  type Coord = (int, int)

  function Abs(x: int): nat {
    if x < 0 then -x else x
  }

  /** One component of correctCoordinates. */
  function CorrectComponent(x: int): int {
    if x < 0 then 7 - Abs(x) % 7 else x % 7
  }

  /** correctCoordinates: fold a coordinate back onto the 7x7 board, r and q
      each on its own.  Both components end up in 0 .. 7, a cell already on
      the board is left as it is, and a component comes out as 7 (off the
      board) exactly where the input component is a negative multiple of 7. */
  function CorrectCoordinates(c: Coord): (w: Coord)
    ensures 0 <= w.0 <= 7 && 0 <= w.1 <= 7
    ensures InRange(c) ==> w == c
    ensures w.0 == 7 <==> c.0 < 0 && c.0 % 7 == 0
    ensures w.1 == 7 <==> c.1 < 0 && c.1 % 7 == 0
  {
    var r := CorrectComponent(c.0);
    var q := CorrectComponent(c.1);
    (r, q)
  }

  /** For a component of at least -6 correctCoordinates is the component
      modulo 7, so it lands on the board. */
  lemma CorrectCoordinatesMod(c: Coord)
    requires c.0 >= -6 && c.1 >= -6
    ensures CorrectCoordinates(c) == (c.0 % 7, c.1 % 7)
    ensures InRange(CorrectCoordinates(c))
  {
  }

  /** A component one step off the board wraps to the other side. */
  lemma CorrectComponentNear(x: int)
    requires -1 <= x <= 7
    ensures CorrectComponent(x) == if x == 7 then 0 else if x == -1 then 6 else x
  {
  }

  /** The docstring's example, and the case the negative branch misses. */
  lemma CorrectCoordinatesExamples(k: int)
    requires k >= 1
    ensures CorrectCoordinates((7, 7)) == (0, 0)
    ensures CorrectCoordinates((-1, 8)) == (6, 1)
    ensures CorrectCoordinates((-7 * k, 0)) == (7, 0) && !InRange(CorrectCoordinates((-7 * k, 0)))
  {
    assert Abs(-7 * k) == 7 * k;
    assert (7 * k) % 7 == 0;
  }

  predicate InRange(c: Coord) {
    0 <= c.0 < 7 && 0 <= c.1 < 7
  }

  /** A direction the agents use: a non-zero vector with components in {-1, 0, 1}. */
  predicate UnitDir(d: Coord) {
    -1 <= d.0 <= 1 && -1 <= d.1 <= 1 && d != (0, 0)
  }

  /** (colour, power) */
  datatype Token = Token(color: Color, power: int)

  /** Every stored power lies in [1, 6]. */
  predicate PowersOk(m: map<Coord, Token>) {
    forall k :: k in m ==> 1 <= m[k].power <= 6
  }

  /** The board dictionary, mutated in place by the helpers below. */
  class TokenBoard {
    var tokens: map<Coord, Token>

    constructor (tokens: map<Coord, Token>)
      ensures this.tokens == tokens
    {
      this.tokens := tokens;
    }
  }

  /** spawn: board[token] = (color, 1). */
  method Spawn(board: TokenBoard, token: Coord, color: Color)
    modifies board
    ensures board.tokens == old(board.tokens)[token := Token(color, 1)]
  {
    board.tokens := board.tokens[token := Token(color, 1)];
  }

  /** What addToken leaves in the dictionary: a new token of power 1 on an
      absent key; on a present key the power goes up by one and the colour
      becomes `c`, and the key is deleted when the power reaches 7. */
  function AddTokenMap(m: map<Coord, Token>, k: Coord, c: Color): (r: map<Coord, Token>)
    ensures forall x :: x != k ==> (x in r <==> x in m) && (x in r ==> r[x] == m[x])
    ensures k in r ==> r[k].color == c
    ensures PowersOk(m) ==> PowersOk(r)
  {
    if k in m then
      var p := m[k].power + 1;
      if p < 7 then m[k := Token(c, p)] else m - {k}
    else
      m[k := Token(c, 1)]
  }

  /** The three cases of addToken, stated outright. */
  lemma AddTokenCases(m: map<Coord, Token>, k: Coord, c: Color)
    ensures k !in m ==> AddTokenMap(m, k, c) == m[k := Token(c, 1)]
    ensures k in m && m[k].power + 1 < 7 ==> AddTokenMap(m, k, c) == m[k := Token(c, m[k].power + 1)]
    ensures k in m && m[k].power + 1 >= 7 ==> k !in AddTokenMap(m, k, c) && AddTokenMap(m, k, c) == m - {k}
  {
  }

  method AddToken(board: TokenBoard, token: Coord, color: Color)
    modifies board
    ensures board.tokens == AddTokenMap(old(board.tokens), token, color)
  {
    if token in board.tokens {
      var currentPower := board.tokens[token].power + 1;
      if currentPower < 7 {
        board.tokens := board.tokens[token := Token(color, currentPower)];
      } else {
        board.tokens := board.tokens - {token};
      }
    } else {
      board.tokens := board.tokens[token := Token(color, 1)];
    }
  }

  /** One step of spread: add the direction and wrap. */
  function Step(cur: Coord, dir: Coord): Coord {
    (CorrectComponent(cur.0 + dir.0), CorrectComponent(cur.1 + dir.1))
  }

  /** The step is correctCoordinates of the sum, as spread writes it. */
  lemma StepIsCorrectCoordinates(cur: Coord, dir: Coord)
    ensures Step(cur, dir) == CorrectCoordinates((cur.0 + dir.0, cur.1 + dir.1))
  {
  }

  /** The cell reached after i steps from `start`. */
  function Landing(start: Coord, dir: Coord, i: nat): Coord
    decreases i
  {
    if i == 0 then start else Landing(Step(start, dir), dir, i - 1)
  }

  /** The spread loop: `k` more steps from `cur`, each one an addToken. */
  function SpreadWalk(m: map<Coord, Token>, cur: Coord, dir: Coord, c: Color, k: int): map<Coord, Token>
    decreases k
  {
    if k <= 0 then m
    else
      var next := Step(cur, dir);
      SpreadWalk(AddTokenMap(m, next, c), next, dir, c, k - 1)
  }

  /** The outcome of spread: None when it raises KeyError (the token is not on
      the board, or the walk removed it before the final `del`), otherwise the
      new dictionary. */
  function SpreadMap(m: map<Coord, Token>, token: Coord, dir: Coord): Option<map<Coord, Token>> {
    if token !in m then None
    else
      var w := SpreadWalk(m, token, dir, m[token].color, m[token].power);
      if token in w then Some(w - {token}) else None
  }

  /** spread.  `ok` is false where the source raises KeyError: at the first
      lookup (nothing changes) or at the final `del` (the placements stay). */
  method Spread(board: TokenBoard, token: Coord, direction: Coord) returns (ok: bool)
    modifies board
    ensures ok == SpreadMap(old(board.tokens), token, direction).Some?
    ensures ok ==> board.tokens == SpreadMap(old(board.tokens), token, direction).value
    ensures token !in old(board.tokens) ==> board.tokens == old(board.tokens)
    ensures !ok && token in old(board.tokens) ==>
      board.tokens == SpreadWalk(old(board.tokens), token, direction,
                                 old(board.tokens)[token].color, old(board.tokens)[token].power)
  {
    if token !in board.tokens {
      return false;
    }
    var color := board.tokens[token].color;
    var power := board.tokens[token].power;
    var currTok := token;
    ghost var m0 := board.tokens;
    while power > 0
      invariant SpreadWalk(board.tokens, currTok, direction, color, power)
             == SpreadWalk(m0, token, direction, color, m0[token].power)
      decreases power
    {
      currTok := CorrectCoordinates((currTok.0 + direction.0, currTok.1 + direction.1));
      AddToken(board, currTok, color);
      power := power - 1;
    }
    if token !in board.tokens {
      return false;
    }
    board.tokens := board.tokens - {token};
    ok := true;
  }

  // ---------------------------------------------------------------------
  // Where the walk goes.
  // ---------------------------------------------------------------------

  /** One step from a cell on the board stays on the board. */
  lemma StepInRange(cur: Coord, dir: Coord)
    requires InRange(cur) && -1 <= dir.0 <= 1 && -1 <= dir.1 <= 1
    ensures InRange(Step(cur, dir))
  {
    CorrectComponentNear(cur.0 + dir.0);
    CorrectComponentNear(cur.1 + dir.1);
  }

  /** One step from a cell on the board is a wrapped unit move. */
  lemma StepOnBoard(cur: Coord, dir: Coord)
    requires InRange(cur) && -1 <= dir.0 <= 1 && -1 <= dir.1 <= 1
    ensures Step(cur, dir) == (Lin(cur.0, dir.0, 1), Lin(cur.1, dir.1, 1))
    ensures InRange(Step(cur, dir))
  {
    CorrectComponentNear(cur.0 + dir.0);
    CorrectComponentNear(cur.1 + dir.1);
  }

  /** The walk from a cell on the board stays on the board. */
  lemma {:induction false} LandingOnBoard(start: Coord, dir: Coord, i: nat)
    requires InRange(start) && -1 <= dir.0 <= 1 && -1 <= dir.1 <= 1
    ensures InRange(Landing(start, dir, i))
    decreases i
  {
    if i > 0 {
      StepInRange(start, dir);
      LandingOnBoard(Step(start, dir), dir, i - 1);
    }
  }

  /** i * d for a component d in {-1, 0, 1}. */
  function Offset(i: int, d: int): int {
    if d == 1 then i else if d == -1 then -i else 0
  }

  /** x + i * d wrapped onto 0 .. 6; for x in 0 .. 6 and i at most 6 this is
      (x + i * d) mod 7. */
  function Lin(x: int, d: int, i: int): int {
    var y := x + Offset(i, d);
    if y >= 7 then y - 7 else if y < 0 then y + 7 else y
  }

  lemma LinStep(x: int, d: int, i: int)
    requires 0 <= x < 7 && -1 <= d <= 1 && 1 <= i <= 6
    ensures Lin(Lin(x, d, 1), d, i - 1) == Lin(x, d, i)
  {
  }

  /** Within six steps the walk is start + i * dir wrapped onto the board. */
  lemma {:induction false} LandingClosedForm(start: Coord, dir: Coord, i: nat)
    requires InRange(start) && -1 <= dir.0 <= 1 && -1 <= dir.1 <= 1 && i <= 6
    ensures Landing(start, dir, i) == (Lin(start.0, dir.0, i), Lin(start.1, dir.1, i))
    decreases i
  {
    if i > 0 {
      StepOnBoard(start, dir);
      LandingClosedForm(Step(start, dir), dir, i - 1);
      LinStep(start.0, dir.0, i);
      LinStep(start.1, dir.1, i);
    }
  }

  /** Along a non-zero component, at most 6 steps never return to the same
      value. */
  lemma ComponentApart(a: int, d: int, i: int, j: int)
    requires 0 <= a < 7 && (d == 1 || d == -1)
    requires 0 <= i < j <= 6
    ensures Lin(a, d, i) != Lin(a, d, j)
  {
  }

  /** A walk of at most 6 steps along a direction never visits a cell twice;
      in particular it never lands on its own start. */
  lemma LandingsDistinct(start: Coord, dir: Coord, i: nat, j: nat)
    requires InRange(start) && UnitDir(dir)
    requires i < j <= 6
    ensures Landing(start, dir, i) != Landing(start, dir, j)
  {
    LandingClosedForm(start, dir, i);
    LandingClosedForm(start, dir, j);
    if dir.0 != 0 {
      ComponentApart(start.0, dir.0, i, j);
    } else {
      ComponentApart(start.1, dir.1, i, j);
    }
  }

  /** Cells the walk does not land on keep their entries. */
  lemma {:induction false} SpreadWalkFrame(m: map<Coord, Token>, cur: Coord, dir: Coord, c: Color, k: nat, x: Coord)
    requires forall i :: 1 <= i <= k ==> x != Landing(cur, dir, i)
    ensures var w := SpreadWalk(m, cur, dir, c, k);
            (x in w <==> x in m) && (x in w ==> w[x] == m[x])
    decreases k
  {
    if k > 0 {
      var next := Step(cur, dir);
      assert x != Landing(cur, dir, 1);
      forall i | 1 <= i <= k - 1 ensures x != Landing(next, dir, i) {
        assert Landing(next, dir, i) == Landing(cur, dir, i + 1);
      }
      SpreadWalkFrame(AddTokenMap(m, next, c), next, dir, c, k - 1, x);
    }
  }

  /** The walk keeps every power in [1, 6]. */
  lemma {:induction false} SpreadWalkPowers(m: map<Coord, Token>, cur: Coord, dir: Coord, c: Color, k: int)
    requires PowersOk(m)
    ensures PowersOk(SpreadWalk(m, cur, dir, c, k))
    decreases k
  {
    if k > 0 {
      var next := Step(cur, dir);
      SpreadWalkPowers(AddTokenMap(m, next, c), next, dir, c, k - 1);
    }
  }

  /** A spread of a token of power at most 6 from a cell on the board never
      raises: the walk never lands on the token, so the final `del` finds it.
      The token is gone afterwards and every power stays in [1, 6]. */
  lemma SpreadSucceeds(m: map<Coord, Token>, token: Coord, dir: Coord)
    requires token in m && InRange(token) && UnitDir(dir) && m[token].power <= 6
    ensures SpreadMap(m, token, dir).Some?
    ensures token !in SpreadMap(m, token, dir).value
    ensures PowersOk(m) ==> PowersOk(SpreadMap(m, token, dir).value)
  {
    var p := m[token].power;
    var k: nat := if p < 0 then 0 else p;
    assert SpreadWalk(m, token, dir, m[token].color, p) == SpreadWalk(m, token, dir, m[token].color, k);
    forall i | 1 <= i <= k ensures token != Landing(token, dir, i) {
      LandingsDistinct(token, dir, 0, i);
    }
    SpreadWalkFrame(m, token, dir, m[token].color, k, token);
    if PowersOk(m) {
      SpreadWalkPowers(m, token, dir, m[token].color, p);
    }
  }

  /** Every cell other than the token that the walk does not land on keeps its
      entry. */
  lemma SpreadFrame(m: map<Coord, Token>, token: Coord, dir: Coord, x: Coord)
    requires token in m && InRange(token) && UnitDir(dir) && m[token].power <= 6
    requires x != token && forall i :: 1 <= i <= m[token].power ==> x != Landing(token, dir, i)
    ensures SpreadMap(m, token, dir).Some?
    ensures x in SpreadMap(m, token, dir).value <==> x in m
    ensures x in m ==> SpreadMap(m, token, dir).value[x] == m[x]
  {
    SpreadSucceeds(m, token, dir);
    var p := m[token].power;
    var k: nat := if p < 0 then 0 else p;
    assert SpreadWalk(m, token, dir, m[token].color, p) == SpreadWalk(m, token, dir, m[token].color, k);
    SpreadWalkFrame(m, token, dir, m[token].color, k, x);
  }

  /** isTerminal: the board holds tokens of fewer than two colours (the empty
      board included). */
  function ColorsOf(m: map<Coord, Token>): set<Color> {
    set k | k in m :: m[k].color
  }

  /** A set of colours has fewer than two members exactly when it misses one
      of the two players. */
  lemma ColorSetSize(s: set<Color>)
    ensures |s| < 2 <==> !(Red in s && Blue in s)
  {
    var both: set<Color> := {Red, Blue};
    forall c | c in s ensures c in both {
      match c
      case Red =>
      case Blue =>
    }
    assert s <= both;
    if Red in s && Blue in s {
      assert s == both;
    } else if Red in s {
      assert s == {Red};
    } else if Blue in s {
      assert s == {Blue};
    } else {
      assert s == {};
    }
  }

  method IsTerminal(board: TokenBoard) returns (t: bool)
    ensures t <==> |ColorsOf(board.tokens)| < 2
  {
    var colors: set<Color> := {};
    var keys := board.tokens.Keys;
    while keys != {}
      invariant keys <= board.tokens.Keys
      invariant colors == set k | k in board.tokens && k !in keys :: board.tokens[k].color
      invariant |colors| <= 1
      decreases keys
    {
      var token :| token in keys;
      colors := colors + {board.tokens[token].color};
      keys := keys - {token};
      if |colors| > 1 {
        ColorSetSize(colors);
        ColorSetSize(ColorsOf(board.tokens));
        return false;
      }
    }
    assert colors == ColorsOf(board.tokens);
    ColorSetSize(colors);
    return true;
  }

  /** The action tuples move understands: ('Spawn', cor, color) and
      ('Spread', cor, direction). */
  datatype Move = SpawnMove(cor: Coord, color: Color) | SpreadMove(cor: Coord, dir: Coord)

  /** move, as written: it applies the action to a deep copy and then drops the
      copy, so the caller's board is never changed and no board is returned;
      `ok` is false where the spread inside raises KeyError. */
  method MoveAsWritten(board: TokenBoard, action: Move) returns (ok: bool)
    ensures board.tokens == old(board.tokens)
    ensures ok == MoveMap(old(board.tokens), action).Some?
  {
    var childState := new TokenBoard(board.tokens);
    match action
    case SpawnMove(cor, color) =>
      Spawn(childState, cor, color);
      ok := true;
    case SpreadMove(cor, dir) =>
      ok := Spread(childState, cor, dir);
  }

  /** The board a move leads to (None where spread raises KeyError). */
  function MoveMap(m: map<Coord, Token>, action: Move): Option<map<Coord, Token>> {
    match action
    case SpawnMove(cor, color) => Some(m[cor := Token(color, 1)])
    case SpreadMove(cor, dir) => SpreadMap(m, cor, dir)
  }

  /** move, returning the child board it builds; the argument is left as it was. */
  method MoveChild(board: TokenBoard, action: Move) returns (childState: TokenBoard, ok: bool)
    ensures fresh(childState)
    ensures board.tokens == old(board.tokens)
    ensures ok == MoveMap(board.tokens, action).Some?
    ensures ok ==> childState.tokens == MoveMap(board.tokens, action).value
  {
    childState := new TokenBoard(board.tokens);
    match action
    case SpawnMove(cor, color) =>
      Spawn(childState, cor, color);
      ok := true;
    case SpreadMove(cor, dir) =>
      ok := Spread(childState, cor, dir);
  }

  /** A legal move from a board whose powers are in range keeps them in range
      and never fails. */
  lemma MoveKeepsPowers(m: map<Coord, Token>, action: Move)
    requires PowersOk(m)
    requires action.SpreadMove? ==> action.cor in m && InRange(action.cor) && UnitDir(action.dir)
    ensures MoveMap(m, action).Some? && PowersOk(MoveMap(m, action).value)
  {
    if action.SpreadMove? {
      SpreadSucceeds(m, action.cor, action.dir);
    }
  }

  /** The spawn that move as written loses. */
  method MoveLosesItsResult() returns (before: map<Coord, Token>, after: map<Coord, Token>, child: map<Coord, Token>)
    ensures before == after && (3, 3) !in after
    ensures child == map[(3, 3) := Token(Red, 1)]
  {
    var board := new TokenBoard(map[]);
    before := board.tokens;
    var _ := MoveAsWritten(board, SpawnMove((3, 3), Red));
    after := board.tokens;
    var c, _ := MoveChild(board, SpawnMove((3, 3), Red));
    child := c.tokens;
  }
}
