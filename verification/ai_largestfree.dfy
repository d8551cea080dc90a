/** LargestFreeAI: after marking the dead zones of the other players it heads for the
    longest free straight run among ahead, left and right. */
module LargestFreeAI {
  import opened Wrappers
  import opened Rules
  import opened Lookahead
  import opened Sensing

  /** The number of cells between (x, y) and the border of b in direction d; zero
      when (x, y) is already on or past that border. */
  function EdgeDistance(b: Board, x: int, y: int, d: Direction): (r: nat)
  {
    var e := match d
             case Up => y
             case Down => b.height - 1 - y
             case Left => x
             case Right => b.width - 1 - x;
    if e < 0 then 0 else e
  }

  /** GetFree: steps from the player's cell along d and counts the free cells until the
      first one that is outside the board or not 0. */
  method GetFree(b: Board, x: int, y: int, d: Direction) returns (free: nat)
    requires b.Valid()
    ensures forall j :: 0 <= j < free ==> b.IsFree(PathCell(x, y, d, j))
    ensures !b.IsFree(PathCell(x, y, d, free))
    ensures free <= EdgeDistance(b, x, y, d)
  {
    var c := Next(x, y, d);
    free := 0;
    while b.Contains(c) && b.At(c) == 0
      invariant c == PathCell(x, y, d, free)
      invariant forall j :: 0 <= j < free ==> b.IsFree(PathCell(x, y, d, j))
      invariant free <= EdgeDistance(b, x, y, d)
      decreases EdgeDistance(b, x, y, d) - free
    {
      free := free + 1;
      c := Next(c.x, c.y, d);
    }
  }

  /** The free run an action would head into. */
  function Room(b: Board, p: Player, a: Action): nat
    requires b.Valid()
  {
    FreeRun(b, p.x, p.y, Steer(p, a).direction)
  }

  /** The choice among straight on, turn_left and turn_right: the action starts as
      change_nothing with room 0 and a candidate replaces it only when its room is
      strictly larger, so ties go to straight, then left, then right. */
  function Choose(b: Board, p: Player): (r: Action)
    requires b.Valid()
    ensures r == ChangeNothing || r == TurnLeft || r == TurnRight
    ensures Room(b, p, ChangeNothing) <= Room(b, p, r)
    ensures Room(b, p, TurnLeft) <= Room(b, p, r)
    ensures Room(b, p, TurnRight) <= Room(b, p, r)
    ensures r == TurnLeft ==> Room(b, p, ChangeNothing) < Room(b, p, r)
    ensures r == TurnRight ==> Room(b, p, ChangeNothing) < Room(b, p, r) && Room(b, p, TurnLeft) < Room(b, p, r)
  {
    var (a0, f0) := (ChangeNothing, 0);
    var s := Room(b, p, ChangeNothing);
    var (a1, f1) := if s > f0 then (ChangeNothing, s) else (a0, f0);
    var l := Room(b, p, TurnLeft);
    var (a2, f2) := if l > f1 then (TurnLeft, l) else (a1, f1);
    var rr := Room(b, p, TurnRight);
    var (a3, f3) := if rr > f2 then (TurnRight, rr) else (a2, f2);
    a3
  }

  /** Every ray blocked at once: the answer is change_nothing. */
  lemma BoxedInGoesStraight(b: Board, p: Player)
    requires b.Valid()
    requires Room(b, p, ChangeNothing) == 0 && Room(b, p, TurnLeft) == 0 && Room(b, p, TurnRight) == 0
    ensures Choose(b, p) == ChangeNothing
  {
  }

  /** The left and right rays the source tabulates per heading are those of the
      engine's turn tables; straight on is the heading itself. */
  lemma RaysMatchTurns(p: Player)
    ensures Steer(p, TurnLeft).direction == match p.direction
              case Up => Left case Right => Up case Left => Down case Down => Right
    ensures Steer(p, TurnRight).direction == match p.direction
              case Up => Right case Right => Down case Left => Up case Down => Left
    ensures Steer(p, ChangeNothing).direction == p.direction
  {
  }

  /** GetState: in a running game while active, the choice on the board with the other
      players' dead zones; order is the iteration order over the players. */
  function GetState(g: View, order: seq<int>): (r: Option<Action>)
    requires g.board.Valid() && g.you in g.players
    ensures r.Some? <==> g.running && g.players[g.you].active
    ensures r.Some? ==>
              var b := DeadZones(g.board, g.players, g.you, order);
              forall a :: a in [ChangeNothing, TurnLeft, TurnRight] ==>
                Room(b, g.players[g.you], a) <= Room(b, g.players[g.you], r.value)
  {
    var p := g.players[g.you];
    if !(g.running && p.active) then None
    else Some(Choose(DeadZones(g.board, g.players, g.you, order), p))
  }

  /** The run the method counts is the free run the choice compares. */
  lemma GetFreeIsFreeRun(b: Board, x: int, y: int, d: Direction, free: nat)
    requires b.Valid()
    requires forall j :: 0 <= j < free ==> b.IsFree(PathCell(x, y, d, j))
    requires !b.IsFree(PathCell(x, y, d, free))
    ensures free == FreeRun(b, x, y, d)
  {
  }
}
