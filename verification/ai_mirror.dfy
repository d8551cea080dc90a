/** MirrorAI: follows a randomly drawn active opponent and copies each speed change
    and quarter turn it observes in that opponent's state. */
module MirrorAI {
  import opened Wrappers
  import opened Rules
  import opened Lookahead
  import Engine

  /** The tracked opponent (0 for none) and its speed and heading as last seen. */
  datatype Bot = Bot(target: int, targetSpeed: int, targetDirection: Direction)

  /** The ways GetState fails: the source panics when no other player is active to
      draw from, and when the remembered target is not a key of the player map. */
  datatype MirrorError = NoTarget | TargetMissing

  /** The turn that takes the heading from `before` to `now`, by the source's own
      table; change_nothing when it is unchanged or reversed. */
  function Observed(before: Direction, now: Direction): Action
  {
    match before
    case Up => if now == Left then TurnLeft else if now == Right then TurnRight else ChangeNothing
    case Down => if now == Right then TurnLeft else if now == Left then TurnRight else ChangeNothing
    case Left => if now == Down then TurnLeft else if now == Up then TurnRight else ChangeNothing
    case Right => if now == Up then TurnLeft else if now == Down then TurnRight else ChangeNothing
  }

  /** The table infers exactly the engine's turns: turn_left iff the new heading is the
      old one turned left, turn_right iff turned right, and change_nothing otherwise. */
  lemma ObservedIsTheTurn(before: Direction, now: Direction)
    ensures Observed(before, now) == TurnLeft <==> now == RotateLeft(before)
    ensures Observed(before, now) == TurnRight <==> now == RotateRight(before)
    ensures Observed(before, now) == ChangeNothing <==> now == before || now == Opposite(before)
  {
  }

  /** The reversed heading. */
  function Opposite(d: Direction): Direction
  {
    match d
    case Up => Down
    case Down => Up
    case Left => Right
    case Right => Left
  }

  /** One mirroring step against the target's current state t, with own speed `speed`.
      A speed change of the target takes precedence over a turn; in that case the
      remembered heading is left as it was. */
  function Mirror(bot: Bot, speed: int, t: Player): (r: (Bot, Action))
    ensures r.0.target == bot.target && r.0.targetSpeed == t.speed
    ensures t.speed > bot.targetSpeed ==>
              r.0.targetDirection == bot.targetDirection
              && (if speed < MaxSpeed then r.1 == SpeedUp else r.1 == ChangeNothing)
    ensures t.speed < bot.targetSpeed ==>
              r.0.targetDirection == bot.targetDirection
              && (if speed > 1 then r.1 == SlowDown else r.1 == ChangeNothing)
    ensures t.speed == bot.targetSpeed ==>
              r.0.targetDirection == t.direction && r.1 != SpeedUp && r.1 != SlowDown
  {
    if t.speed > bot.targetSpeed then
      (bot.(targetSpeed := t.speed), if speed < 10 then SpeedUp else ChangeNothing)
    else if t.speed < bot.targetSpeed then
      (bot.(targetSpeed := t.speed), if speed > 1 then SlowDown else ChangeNothing)
    else if t.direction != bot.targetDirection then
      (bot.(targetDirection := t.direction), Observed(bot.targetDirection, t.direction))
    else (bot, ChangeNothing)
  }

  /** A bot heading the same way as its target ends up heading where the target now
      heads after a quarter turn, and keeps its heading when the target did not turn. */
  lemma MirrorCopiesTurns(bot: Bot, me: Player, t: Player)
    requires t.speed == bot.targetSpeed && me.direction == bot.targetDirection
    requires t.direction != Opposite(bot.targetDirection)
    ensures Steer(me, Mirror(bot, me.speed, t).1).direction == t.direction
  {
    ObservedIsTheTurn(bot.targetDirection, t.direction);
  }

  /** The active players other than `you`, in the iteration order. */
  function Others(players: map<int, Player>, you: int, order: seq<int>): (r: seq<int>)
    ensures forall i :: 0 <= i < |r| ==> r[i] in players && r[i] != you && players[r[i]].active
    ensures forall k :: k in order && k in players && k != you && players[k].active ==> k in r
  {
    if |order| == 0 then []
    else
      var rest := Others(players, you, order[1..]);
      var k := order[0];
      if k in players && k != you && players[k].active then [k] + rest else rest
  }

  /** GetState in a running game while active: drop an inactive target, draw a new one
      (the index drawn is `pick`, reduced into range as rand.Intn does) and answer
      change_nothing, or mirror the kept target. Outside that nothing is sent. */
  function GetState(bot: Bot, g: View, order: seq<int>, pick: nat): (r: Result<(Bot, Option<Action>), MirrorError>)
    requires g.you in g.players
    ensures !(g.running && g.players[g.you].active) ==> r == Ok((bot, None))
    ensures r.Ok? && g.running && g.players[g.you].active ==>
              r.value.1.Some? && r.value.0.target in g.players && g.players[r.value.0.target].active
    ensures r.Err? ==> g.running && g.players[g.you].active
    ensures r == Err(TargetMissing) <==>
              g.running && g.players[g.you].active && bot.target != 0 && bot.target !in g.players
  {
    var me := g.players[g.you];
    if !(g.running && me.active) then Ok((bot, None))
    else if bot.target != 0 && bot.target !in g.players then Err(TargetMissing)
    else
      var target := if bot.target != 0 && !g.players[bot.target].active then 0 else bot.target;
      if target == 0 then
        var others := Others(g.players, g.you, order);
        if |others| == 0 then Err(NoTarget)
        else
          var k := others[pick % |others|];
          Ok((Bot(k, g.players[k].speed, g.players[k].direction), Some(ChangeNothing)))
      else
        var (nb, a) := Mirror(bot, me.speed, g.players[target]);
        Ok((nb, Some(a)))
  }

  /** A target is dropped when it is no longer active; a new one is another active
      player, remembered with its current speed and heading, and answered with
      change_nothing. When every player of the map is listed in the order, a draw
      fails only when no other player is active. */
  lemma NewTargetIsAnActiveOpponent(bot: Bot, g: View, order: seq<int>, pick: nat)
    requires g.you in g.players && g.running && g.players[g.you].active
    requires bot.target == 0 || (bot.target in g.players && !g.players[bot.target].active)
    ensures var r := GetState(bot, g, order, pick);
            r.Ok? ==>
              var t := r.value.0.target;
              t != g.you && r.value.1 == Some(ChangeNothing)
              && r.value.0 == Bot(t, g.players[t].speed, g.players[t].direction)
    ensures Engine.Enumerates(g.players, order) ==>
              (GetState(bot, g, order, pick) == Err(NoTarget) <==>
                 forall k :: k in g.players && k != g.you ==> !g.players[k].active)
  {
    if Engine.Enumerates(g.players, order) && GetState(bot, g, order, pick) == Err(NoTarget) {
      forall k | k in g.players && k != g.you ensures !g.players[k].active {
        var i :| 0 <= i < |order| && order[i] == k;
        assert k in order;
      }
    }
  }
}
