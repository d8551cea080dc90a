/** SnailAI: keeps one hand on the wall. The hand is drawn once; each answer is the
    first free neighbour in the order far side, ahead, near side. */
module SnailAI {
  import opened Wrappers
  import opened Rules
  import opened Lookahead
  import opened Sensing

  /** The hand side; None until the first state arrives. */
  datatype Bot = Bot(hand: Option<Hand>)

  /** The neighbour on the player's right (right == true) or left, as the source's
      tables write out the coordinates for each heading. */
  function SideCell(p: Player, right: bool): Cell
  {
    match p.direction
    case Up => if right then Cell(p.x + 1, p.y) else Cell(p.x - 1, p.y)
    case Down => if right then Cell(p.x - 1, p.y) else Cell(p.x + 1, p.y)
    case Left => if right then Cell(p.x, p.y - 1) else Cell(p.x, p.y + 1)
    case Right => if right then Cell(p.x, p.y + 1) else Cell(p.x, p.y - 1)
  }

  /** The neighbour straight ahead, as the source tabulates it. */
  function AheadCell(p: Player): Cell
  {
    match p.direction
    case Up => Cell(p.x, p.y - 1)
    case Down => Cell(p.x, p.y + 1)
    case Left => Cell(p.x - 1, p.y)
    case Right => Cell(p.x + 1, p.y)
  }

  /** The source's tables agree with the engine's turn tables. */
  lemma TablesMatchTurns(p: Player)
    ensures SideCell(p, true) == Next(p.x, p.y, RotateRight(p.direction))
    ensures SideCell(p, false) == Next(p.x, p.y, RotateLeft(p.direction))
    ensures AheadCell(p) == Next(p.x, p.y, p.direction)
  {
  }

  /** The ladder of GetState: with the hand on the left turn right if the right-hand
      neighbour is free, else go on if the cell ahead is, else turn left if the left-hand
      neighbour is; mirrored for the right hand; change_nothing when boxed in. */
  function Ladder(b: Board, p: Player, hand: Hand): (r: Action)
    ensures r == ChangeNothing || r == TurnLeft || r == TurnRight
    ensures r == (if hand == HandLeft then TurnRight else TurnLeft) <==>
              b.IsFree(SideCell(p, hand == HandLeft))
  {
    var far := SideCell(p, hand == HandLeft);
    var near := SideCell(p, hand == HandRight);
    if b.IsFree(far) then (if hand == HandLeft then TurnRight else TurnLeft)
    else if b.IsFree(AheadCell(p)) then ChangeNothing
    else if b.IsFree(near) then (if hand == HandLeft then TurnLeft else TurnRight)
    else ChangeNothing
  }

  /** The snail's answer is the super snail's getSnailAction, with change_nothing for
      the empty answer. */
  lemma LadderIsSnailAction(b: Board, p: Player, hand: Hand)
    ensures Ladder(b, p, hand) == match SnailAction(b, p, hand) case Some(a) => a case None => ChangeNothing
  {
    TablesMatchTurns(p);
    var pref := Preference(hand);
    assert OpensOnto(b, p, pref[0]) <==> b.IsFree(SideCell(p, hand == HandLeft));
    assert OpensOnto(b, p, pref[1]) <==> b.IsFree(AheadCell(p));
    assert OpensOnto(b, p, pref[2]) <==> b.IsFree(SideCell(p, hand == HandRight));
  }

  /** GetState: the hand is fixed on the first state, even when the game is not running;
      in a running game the ladder's action is sent. The own active flag is not read. */
  function GetState(bot: Bot, g: View, heads: bool): (r: (Bot, Option<Action>))
    requires g.you in g.players
    ensures r.0.hand.Some? && (bot.hand.Some? ==> r.0 == bot)
    ensures r.1.Some? <==> g.running
  {
    var hand := ChooseHand(bot.hand, heads);
    if !g.running then (Bot(Some(hand)), None)
    else (Bot(Some(hand)), Some(Ladder(g.board, g.players[g.you], hand)))
  }

  /** Once drawn, the hand never changes, whatever the later states and coins. */
  lemma HandIsKept(bot: Bot, g: View, heads: bool, g': View, heads': bool)
    requires g.you in g.players && g'.you in g'.players
    ensures var b1 := GetState(bot, g, heads).0;
            GetState(b1, g', heads').0 == b1
  {
  }

  /** At speed 1 the snail never crashes while it has a free neighbour to go to. */
  lemma SnailSurvivesWhileItCan(bot: Bot, g: View, heads: bool)
    requires g.you in g.players && g.running && g.board.Valid()
    requires g.players[g.you].speed == 1
    requires SnailAction(g.board, g.players[g.you], ChooseHand(bot.hand, heads)).Some?
    ensures Progress(g.board, g.players[g.you], GetState(bot, g, heads).1.value).outcome != Crashed
  {
    var p := g.players[g.you];
    var hand := ChooseHand(bot.hand, heads);
    LadderIsSnailAction(g.board, p, hand);
    SnailActionSurvivesAtSpeedOne(g.board, p, hand);
  }
}
