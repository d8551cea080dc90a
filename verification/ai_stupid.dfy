/** StupidAI: goes straight while it can, otherwise turns to the side a coin picks
    when that side is free, and to the other side when it is not. */
module StupidAI {
  import opened Wrappers
  import opened Rules
  import opened Lookahead
  import opened Sensing

  /** isFree: the neighbour of the player in direction d is inside the board and 0. */
  predicate IsFreeAhead(b: Board, x: int, y: int, d: Direction)
  {
    b.IsFree(Next(x, y, d))
  }

  /** The heading tried first when the coin comes up heads, as the source tabulates it. */
  function HeadsTurn(d: Direction): (r: Direction)
    ensures r == RotateLeft(d)
  {
    match d
    case Left => Down
    case Right => Up
    case Up => Left
    case Down => Right
  }

  /** The heading tried first when the coin comes up tails; the source's comment calls
      it a left turn, but the table is the engine's turn_right. */
  function TailsTurn(d: Direction): (r: Direction)
    ensures r == RotateRight(d)
  {
    match d
    case Left => Up
    case Right => Down
    case Up => Right
    case Down => Left
  }

  /** GetState. heads is the coin flip rand.Float64() < 0.5. Nothing is sent while the
      game is not running; the bot does not look at its own active flag. */
  function GetState(g: View, heads: bool): (r: Option<Action>)
    requires g.you in g.players
    ensures r.Some? <==> g.running
    ensures r.Some? ==> r.value == ChangeNothing || r.value == TurnLeft || r.value == TurnRight
    ensures r == Some(ChangeNothing) <==>
              g.running && IsFreeAhead(g.board, g.players[g.you].x, g.players[g.you].y, g.players[g.you].direction)
  {
    var p := g.players[g.you];
    if !g.running then None
    else if IsFreeAhead(g.board, p.x, p.y, p.direction) then Some(ChangeNothing)
    else if heads then
      if IsFreeAhead(g.board, p.x, p.y, HeadsTurn(p.direction)) then Some(TurnLeft) else Some(TurnRight)
    else
      if IsFreeAhead(g.board, p.x, p.y, TailsTurn(p.direction)) then Some(TurnRight) else Some(TurnLeft)
  }

  /** The bot turns only when the cell ahead is taken; it turns to the coin's side
      exactly when that side's neighbour is free, and whenever some neighbour is free
      the neighbour it moves towards is free. */
  lemma StupidMovesToFreeNeighbour(g: View, heads: bool)
    requires g.you in g.players && g.running
    ensures var p := g.players[g.you];
            var a := GetState(g, heads).value;
            var first := if heads then TurnLeft else TurnRight;
            && (a != ChangeNothing ==> (a == first <==> IsFreeAhead(g.board, p.x, p.y, Steer(p, first).direction)))
            && ((exists c :: c in [ChangeNothing, TurnLeft, TurnRight] && OpensOnto(g.board, p, c))
                ==> OpensOnto(g.board, p, a))
  {
    var p := g.players[g.you];
    var a := GetState(g, heads).value;
    if exists c :: c in [ChangeNothing, TurnLeft, TurnRight] && OpensOnto(g.board, p, c) {
      var c :| c in [ChangeNothing, TurnLeft, TurnRight] && OpensOnto(g.board, p, c);
      assert OpensOnto(g.board, p, a);
    }
  }
}
