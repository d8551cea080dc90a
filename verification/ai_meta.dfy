/** MetaAI: hands the game to one of four simpler bots, drawn at random and dropped
    again with a small chance on every state; while it holds none and is faster than
    speed 1 it answers with the escape ladder instead. */
module MetaAI {
  import opened Wrappers
  import opened Rules
  import opened Lookahead
  import opened Sensing
  import LargestFreeAI
  import SuperSnailAI
  import StupidAI
  import RandomSlowAI

  /** The bot delegated to, with its own state where it has one. */
  datatype Sub = SubLargestFree | SubSuperSnail(snail: SuperSnailAI.Bot) | SubStupid | SubRandomSlow

  /** The bot held, if any. */
  datatype Bot = Bot(ai: Option<Sub>)

  /** The random draws of one state: reset is rand.Float64() < 0.1, pick the index of
      the bot to draw, and the draws of the delegate (the iteration order over the
      players, the coin, the shuffled actions). */
  datatype Chance = Chance(reset: bool, pick: nat, order: seq<int>, heads: bool, shuffled: seq<Action>)

  /** The four bots in the source's order, each fresh. */
  const Fresh: seq<Sub> := [SubLargestFree, SubSuperSnail(SuperSnailAI.Bot(None)), SubStupid, SubRandomSlow]

  /** The delegate's answer and its next state. */
  function Delegate(sub: Sub, g: View, c: Chance): (r: (Sub, Option<Action>))
    requires g.board.Valid() && g.you in g.players && 1 <= g.players[g.you].speed
    requires multiset(c.shuffled) == multiset(RandomSlowAI.SlowActions)
    ensures r.0.SubSuperSnail? <==> sub.SubSuperSnail?
    ensures r.1.Some? ==> r.1.value == ChangeNothing || r.1.value == TurnLeft || r.1.value == TurnRight
    ensures g.running ==> r.1.Some? || sub == SubLargestFree
  {
    match sub
    case SubLargestFree => (sub, LargestFreeAI.GetState(g, c.order))
    case SubSuperSnail(snail) =>
      var (snail', a) := SuperSnailAI.GetState(snail, g, c.heads);
      (SubSuperSnail(snail'), a)
    case SubStupid => (sub, StupidAI.GetState(g, c.heads))
    case SubRandomSlow => (sub, RandomSlowAI.GetState(g, c.order, c.shuffled))
  }

  /** GetState: nothing happens outside a running game. In a running game the bot held
      is dropped when reset comes up; without one, at a speed above 1 the escape
      ladder answers and no bot is drawn, else a fresh bot is drawn and, like a kept
      one, answers. */
  function GetState(bot: Bot, g: View, c: Chance): (r: (Bot, Option<Action>))
    requires g.board.Valid() && g.you in g.players && 1 <= g.players[g.you].speed
    requires multiset(c.shuffled) == multiset(RandomSlowAI.SlowActions)
    ensures !g.running ==> r == (bot, None)
    ensures g.running && (c.reset || bot.ai.None?) && g.players[g.you].speed > 1 ==>
              r == (Bot(None), Some(Escape(g.board, g.players[g.you])))
    ensures g.running && (c.reset || bot.ai.None?) && g.players[g.you].speed <= 1 ==>
              r.0.ai.Some? && r.1 == Delegate(Fresh[c.pick % |Fresh|], g, c).1
    ensures g.running && !c.reset && bot.ai.Some? ==> r.1 == Delegate(bot.ai.value, g, c).1
  {
    if !g.running then (bot, None)
    else
      var held := if c.reset then None else bot.ai;
      var me := g.players[g.you];
      if held.None? && me.speed > 1 then (Bot(None), Some(Escape(g.board, me)))
      else
        var sub := if held.Some? then held.value else Fresh[c.pick % |Fresh|];
        var d := Delegate(sub, g, c);
        (Bot(Some(d.0)), d.1)
  }

  /** A drawn bot is one of the four, fresh, and it is kept on the next state unless
      that state resets. */
  lemma DrawnBotIsKept(bot: Bot, g: View, c: Chance, g': View, c': Chance)
    requires g.board.Valid() && g.you in g.players && 1 <= g.players[g.you].speed && g.running
    requires multiset(c.shuffled) == multiset(RandomSlowAI.SlowActions)
    requires g'.board.Valid() && g'.you in g'.players && 1 <= g'.players[g'.you].speed && g'.running
    requires multiset(c'.shuffled) == multiset(RandomSlowAI.SlowActions)
    requires (c.reset || bot.ai.None?) && g.players[g.you].speed <= 1
    requires !c'.reset
    ensures var b1 := GetState(bot, g, c).0;
            b1.ai.Some? && (b1.ai.value.SubSuperSnail? <==> Fresh[c.pick % |Fresh|].SubSuperSnail?)
            && GetState(b1, g', c').1 == Delegate(b1.ai.value, g', c').1
  {
  }

  /** A bot that starts at speed 1 stays there: no answer of the meta bot speeds up,
      so as long as the engine applies only its answers the escape ladder is never
      reached. */
  lemma NeverFaster(bot: Bot, g: View, c: Chance)
    requires g.board.Valid() && g.you in g.players && 1 <= g.players[g.you].speed
    requires multiset(c.shuffled) == multiset(RandomSlowAI.SlowActions)
    requires GetState(bot, g, c).1.Some?
    ensures Steer(g.players[g.you], GetState(bot, g, c).1.value).speed <= g.players[g.you].speed
  {
    AnswerNotSpeedUp(bot, g, c);
    SteerKeepsOrSlows(g.players[g.you], GetState(bot, g, c).1.value);
  }

  /** No answer of the meta bot is speed_up. */
  lemma AnswerNotSpeedUp(bot: Bot, g: View, c: Chance)
    requires g.board.Valid() && g.you in g.players && 1 <= g.players[g.you].speed
    requires multiset(c.shuffled) == multiset(RandomSlowAI.SlowActions)
    requires GetState(bot, g, c).1.Some?
    ensures GetState(bot, g, c).1.value != SpeedUp
  {
    var me := g.players[g.you];
    var a := GetState(bot, g, c).1.value;
    if (c.reset || bot.ai.None?) && me.speed > 1 {
      var e := Escape(g.board, me);
      assert a == e && e != SpeedUp;
    } else if c.reset || bot.ai.None? {
      var d := Delegate(Fresh[c.pick % |Fresh|], g, c).1;
      assert a == d.value && d.value != SpeedUp;
    } else {
      var d := Delegate(bot.ai.value, g, c).1;
      assert a == d.value && d.value != SpeedUp;
    }
  }

  lemma SteerKeepsOrSlows(p: Player, a: Action)
    requires a != SpeedUp
    ensures Steer(p, a).speed <= p.speed
  {
  }

  /** When the ladder turns or slows down onto a clear stretch, the move survives. */
  lemma EscapeAnswerSurvives(bot: Bot, g: View, c: Chance)
    requires g.board.Valid() && g.you in g.players && g.running
    requires var me := g.players[g.you]; 2 <= me.speed <= MaxSpeed
    requires multiset(c.shuffled) == multiset(RandomSlowAI.SlowActions)
    requires c.reset || bot.ai.None?
    requires var me := g.players[g.you];
             Escape(g.board, me) != SlowDown || ClearRun(g.board, me.x, me.y, me.direction, me.speed - 1)
    ensures Progress(g.board, g.players[g.you], GetState(bot, g, c).1.value).outcome != Crashed
  {
    EscapeSurvives(g.board, g.players[g.you]);
  }
}
