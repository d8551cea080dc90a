/** The vocabulary of spe_ed shared by the game server and all of its bots:
    the game constants, headings, the five actions, the board of int8 cells,
    the public part of a player record, and the geometry of one move. */
module Rules {
  import opened Wrappers

  /** Board side lengths lie in (FieldMinSize, FieldMaxSize]. */
  const FieldMaxSize: int := 80
  const FieldMinSize: int := 40
  /** Maximum number of players in one game. */
  const PlayersPerGame: int := 6
  const MaxSpeed: int := 10
  /** Every HolesEachStep-th move of a player at speed >= HoleSpeed leaves holes. */
  const HolesEachStep: int := 6
  const HoleSpeed: int := 3

  /** Cell value of a collision. */
  const Collision: int := -1

  datatype Direction = Up | Down | Left | Right

  /** The wire name of a heading. */
  function DirectionName(d: Direction): string
  {
    match d
    case Up => "up"
    case Down => "down"
    case Left => "left"
    case Right => "right"
  }

  datatype Action = TurnLeft | TurnRight | ChangeNothing | SpeedUp | SlowDown

  /** The wire name of an action. */
  function ActionName(a: Action): string
  {
    match a
    case TurnLeft => "turn_left"
    case TurnRight => "turn_right"
    case ChangeNothing => "change_nothing"
    case SpeedUp => "speed_up"
    case SlowDown => "slow_down"
  }

  /** Recognises an answer string; None for "" and for every unknown string. */
  function ParseAction(s: string): (r: Option<Action>)
    ensures r.Some? ==> ActionName(r.value) == s
    ensures forall a :: ActionName(a) == s ==> r == Some(a)
  {
    if s == "turn_left" then Some(TurnLeft)
    else if s == "turn_right" then Some(TurnRight)
    else if s == "change_nothing" then Some(ChangeNothing)
    else if s == "speed_up" then Some(SpeedUp)
    else if s == "slow_down" then Some(SlowDown)
    else None
  }

  /** Horizontal and vertical component of one step; y grows downwards. */
  function Dx(d: Direction): int
  {
    match d
    case Left => -1
    case Right => 1
    case _ => 0
  }

  function Dy(d: Direction): int
  {
    match d
    case Up => -1
    case Down => 1
    case _ => 0
  }

  /** The heading after turn_left: a quarter turn counter-clockwise on screen. */
  function RotateLeft(d: Direction): (r: Direction)
    ensures Dx(r) == Dy(d) && Dy(r) == -Dx(d)
  {
    match d
    case Left => Down
    case Right => Up
    case Up => Left
    case Down => Right
  }

  /** The heading after turn_right: a quarter turn clockwise on screen. */
  function RotateRight(d: Direction): (r: Direction)
    ensures Dx(r) == -Dy(d) && Dy(r) == Dx(d)
  {
    match d
    case Left => Up
    case Right => Down
    case Up => Right
    case Down => Left
  }

  /** turn_left and turn_right undo each other, so each permutes the four headings. */
  lemma RotationsInvert(d: Direction)
    ensures RotateRight(RotateLeft(d)) == d
    ensures RotateLeft(RotateRight(d)) == d
  {
  }

  lemma RotationsArePermutations()
    ensures forall d, e :: RotateLeft(d) == RotateLeft(e) ==> d == e
    ensures forall d, e :: RotateRight(d) == RotateRight(e) ==> d == e
    ensures forall e :: RotateLeft(RotateRight(e)) == e && RotateRight(RotateLeft(e)) == e
  {
    forall d, e | RotateLeft(d) == RotateLeft(e) ensures d == e {
      RotationsInvert(d);
      RotationsInvert(e);
    }
    forall d, e | RotateRight(d) == RotateRight(e) ensures d == e {
      RotationsInvert(d);
      RotationsInvert(e);
    }
    forall e ensures RotateLeft(RotateRight(e)) == e && RotateRight(RotateLeft(e)) == e {
      RotationsInvert(e);
    }
  }

  datatype Cell = Cell(x: int, y: int)

  /** The cells of a game, row-major: cells[y][x]. */
  datatype Board = Board(width: int, height: int, cells: seq<seq<int>>) {

    predicate Valid()
    {
      0 <= width && 0 <= height && |cells| == height &&
      forall y :: 0 <= y < height ==> |cells[y]| == width
    }

    predicate InBoard(x: int, y: int)
    {
      0 <= x < width && 0 <= y < height
    }

    predicate Contains(c: Cell)
    {
      InBoard(c.x, c.y)
    }

    function Get(x: int, y: int): int
      requires Valid() && InBoard(x, y)
    {
      cells[y][x]
    }

    function At(c: Cell): int
      requires Valid() && Contains(c)
    {
      cells[c.y][c.x]
    }

    /** The board with one cell overwritten. */
    function Set(x: int, y: int, v: int): (r: Board)
      requires Valid() && InBoard(x, y)
      ensures r.Valid() && r.width == width && r.height == height
      ensures r.Get(x, y) == v
      ensures forall x', y' :: InBoard(x', y') && (x' != x || y' != y) ==> r.Get(x', y') == Get(x', y')
    {
      Board(width, height, cells[y := cells[y][x := v]])
    }

    predicate IsFree(c: Cell)
    {
      Valid() && Contains(c) && At(c) == 0
    }
  }

  /** Two well-formed boards of the same size that agree on every cell are equal. */
  lemma BoardExt(a: Board, b: Board)
    requires a.Valid() && b.Valid() && a.width == b.width && a.height == b.height
    requires forall x, y :: a.InBoard(x, y) ==> a.Get(x, y) == b.Get(x, y)
    ensures a == b
  {
    forall y | 0 <= y < a.height
      ensures a.cells[y] == b.cells[y]
    {
      forall x | 0 <= x < a.width
        ensures a.cells[y][x] == b.cells[y][x]
      {
        assert a.Get(x, y) == b.Get(x, y);
      }
    }
  }

  /** A board of the given size with every cell free. */
  function EmptyBoard(width: nat, height: nat): (r: Board)
    ensures r.Valid() && r.width == width && r.height == height
    ensures forall x, y :: r.InBoard(x, y) ==> r.Get(x, y) == 0
  {
    Board(width, height, seq(height, _ => seq(width, _ => 0)))
  }

  /** The public part of a player record. */
  datatype Player = Player(x: int, y: int, direction: Direction, speed: int, active: bool, stepCounter: nat)

  /** The neighbour of (x, y) in direction d. */
  function Next(x: int, y: int, d: Direction): Cell
  {
    Cell(x + Dx(d), y + Dy(d))
  }

  /** The cell a move from (x, y) heading d reaches after its step k (0-based),
      that is after k + 1 applications of the one-cell step. */
  function PathCell(x: int, y: int, d: Direction, k: int): Cell
  {
    match d
    case Up => Cell(x, y - k - 1)
    case Down => Cell(x, y + k + 1)
    case Left => Cell(x - k - 1, y)
    case Right => Cell(x + k + 1, y)
  }

  /** The step index at which a move from (x, y) heading d reaches c, or -1 when it never does. */
  function RayIndex(x: int, y: int, d: Direction, c: Cell): (r: int)
    ensures r >= -1
    ensures r >= 0 ==> PathCell(x, y, d, r) == c
    ensures forall k :: k >= 0 && PathCell(x, y, d, k) == c ==> r == k
  {
    match d
    case Up => if c.x == x && c.y < y then y - c.y - 1 else -1
    case Down => if c.x == x && c.y > y then c.y - y - 1 else -1
    case Left => if c.y == y && c.x < x then x - c.x - 1 else -1
    case Right => if c.y == y && c.x > x then c.x - x - 1 else -1
  }

  /** Step k of a move never revisits an earlier cell and the first step is the neighbour. */
  lemma PathFacts(x: int, y: int, d: Direction)
    ensures PathCell(x, y, d, 0) == Next(x, y, d)
    ensures forall j, k :: 0 <= j && 0 <= k && PathCell(x, y, d, j) == PathCell(x, y, d, k) ==> j == k
  {
  }

  /** Once a straight move from an in-board cell leaves the board it never comes back. */
  lemma RayLeavesForGood(b: Board, x: int, y: int, d: Direction, j: int, k: int)
    requires b.InBoard(x, y) && 0 <= j <= k
    requires !b.Contains(PathCell(x, y, d, j))
    ensures !b.Contains(PathCell(x, y, d, k))
  {
  }

  /** The hole rule: in every HolesEachStep-th move at speed >= HoleSpeed the steps other
      than the first and the last jump over their cell. */
  predicate IsHole(speed: int, stepCounter: int, s: int)
  {
    speed >= HoleSpeed && stepCounter % HolesEachStep == 0 && s != 0 && s != speed - 1
  }

  /** Holes come only in fast moves of hole rounds, never at either end of the move, and
      in such a move every inner step is one. */
  lemma HoleSteps(speed: int, stepCounter: int, s: int)
    ensures IsHole(speed, stepCounter, s) ==> speed >= HoleSpeed && stepCounter % HolesEachStep == 0
    ensures s == 0 || s == speed - 1 ==> !IsHole(speed, stepCounter, s)
    ensures speed >= HoleSpeed && stepCounter % HolesEachStep == 0 && 0 < s < speed - 1 ==>
              IsHole(speed, stepCounter, s)
  {
  }

  /** Heading and speed after an action, before any bound check. */
  function Steer(p: Player, a: Action): (r: Player)
    ensures r.x == p.x && r.y == p.y && r.active == p.active && r.stepCounter == p.stepCounter
    ensures a.TurnLeft? || a.TurnRight? || a.ChangeNothing? ==> r.speed == p.speed
    ensures a.SpeedUp? || a.SlowDown? || a.ChangeNothing? ==> r.direction == p.direction
    ensures a.TurnLeft? ==> RotateRight(r.direction) == p.direction
    ensures a.TurnRight? ==> RotateLeft(r.direction) == p.direction
    ensures a.SpeedUp? ==> r.speed == p.speed + 1
    ensures a.SlowDown? ==> r.speed == p.speed - 1
  {
    match a
    case TurnLeft => p.(direction := RotateLeft(p.direction))
    case TurnRight => p.(direction := RotateRight(p.direction))
    case SpeedUp => p.(speed := p.speed + 1)
    case SlowDown => p.(speed := p.speed - 1)
    case ChangeNothing => p
  }

  /** The action drives the speed out of [1, MaxSpeed]; only the two speed actions are checked. */
  predicate Overspeed(p: Player, a: Action)
  {
    (a == SpeedUp && p.speed + 1 > MaxSpeed) || (a == SlowDown && p.speed - 1 < 1)
  }

  /** From a speed in range, an action is refused exactly when the steered speed leaves
      [1, MaxSpeed]; a refused action is always a speed change. */
  lemma OverspeedLeavesRange(p: Player, a: Action)
    requires 1 <= p.speed <= MaxSpeed
    ensures Overspeed(p, a) <==> !(1 <= Steer(p, a).speed <= MaxSpeed)
    ensures Overspeed(p, a) ==> a == SpeedUp || a == SlowDown
  {
  }

  /** Some element of a non-empty set of ids. */
  lemma Pick(s: set<int>) returns (k: int)
    requires s != {}
    ensures k in s
  {
    if forall e :: e !in s {
      assert false;
    }
    k :| k in s;
  }
}
