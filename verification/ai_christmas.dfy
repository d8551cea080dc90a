/** ChristmasAI: draws one of four pictures (a tree, a candle, an angel, a shooting
    star) by playing a script of symbols, one per state. */
module ChristmasAI {
  import opened Wrappers
  import opened Rules
  import opened Lookahead

  // The four scripts, in the source's order, written in pieces of twenty symbols.

  const Tree: string :=
    "CRCL+-RRLRLRLRLLCCRR"
    + "LRLRLLCRRLRLRCRLRLRR"
    + "CLLRLRLRRCCLLRLRLRLR"
    + "R+-LCR"

  const Candle: string :=
    "CCCCLCLRLRCCRLRLRLRC"
    + "R+C-RLRLCL+-RR+CC-CL"
    + "L+CC-CRR+CC-CLL+CC-C"
    + "RR+CC-CLL+CC-CRR+CC-"
    + "CLL+CC-CRR+CC-CLL+CC"
    + "-CRR+CC-CLL+CC-CRR+C"
    + "C-CLL+CC-CRR+CC-CLL+"
    + "CC-CRR+CC-CLL+CC-CRR"
    + "+CC-CLL+CC-CRR+CC-CC"

  const Angel: string :=
    "CCCCCCCLLCCCCRCLRCRC"
    + "CCCCCCCCRRCLRLCCLCCL"
    + "RCCRCCRCCRLCCLCCLRLC"
    + "RRCCCCCCCCCRCRLCRCCC"
    + "CLLCCCCCCCLRRCRLLRLR"
    + "LRLLCCCCCCCCLLRLRL"

  const ShootingStar: string :=
    "CCCCLLRLRLRCRLRLRLLC"
    + "CRCCLLRLRLRCRLRLRLLC"
    + "CRCCLLRLRLRCRLRLRLLC"
    + "CCCR+-LR+C-CRL+-CRLC"
    + "CRLLRLRLLRLRCRLRLLRL"
    + "CCRL++--LR+-LRCLR+"

  const Scripts: seq<string> := [Tree, Candle, Angel, ShootingStar]

  /** The symbols the scripts are written in. */
  predicate Known(c: char)
  {
    c == 'C' || c == 'L' || c == 'R' || c == '+' || c == '-'
  }

  /** Every symbol of s is known. */
  predicate AllKnown(s: string)
  {
    forall i :: 0 <= i < |s| ==> Known(s[i])
  }

  lemma JoinKnown(a: string, b: string)
    requires AllKnown(a) && AllKnown(b)
    ensures AllKnown(a + b)
  {
    forall i | 0 <= i < |a + b| ensures Known((a + b)[i]) {
      if i >= |a| {
        assert (a + b)[i] == b[i - |a|];
      }
    }
  }

  lemma TreeIsKnown()
    ensures AllKnown(Tree)
  {
    var tree := "CRCL+-RRLRLRLRLLCCRR";
    assert AllKnown("CRCL+-RRLRLRLRLLCCRR");
    assert AllKnown("LRLRLLCRRLRLRCRLRLRR");
    JoinKnown(tree, "LRLRLLCRRLRLRCRLRLRR");
    tree := tree + "LRLRLLCRRLRLRCRLRLRR";
    assert AllKnown("CLLRLRLRRCCLLRLRLRLR");
    JoinKnown(tree, "CLLRLRLRRCCLLRLRLRLR");
    tree := tree + "CLLRLRLRRCCLLRLRLRLR";
    assert AllKnown("R+-LCR");
    JoinKnown(tree, "R+-LCR");
    tree := tree + "R+-LCR";
    assert tree == Tree;
  }

  lemma CandleIsKnown()
    ensures AllKnown(Candle)
  {
    var candle := "CCCCLCLRLRCCRLRLRLRC";
    assert AllKnown("CCCCLCLRLRCCRLRLRLRC");
    assert AllKnown("R+C-RLRLCL+-RR+CC-CL");
    JoinKnown(candle, "R+C-RLRLCL+-RR+CC-CL");
    candle := candle + "R+C-RLRLCL+-RR+CC-CL";
    assert AllKnown("L+CC-CRR+CC-CLL+CC-C");
    JoinKnown(candle, "L+CC-CRR+CC-CLL+CC-C");
    candle := candle + "L+CC-CRR+CC-CLL+CC-C";
    assert AllKnown("RR+CC-CLL+CC-CRR+CC-");
    JoinKnown(candle, "RR+CC-CLL+CC-CRR+CC-");
    candle := candle + "RR+CC-CLL+CC-CRR+CC-";
    assert AllKnown("CLL+CC-CRR+CC-CLL+CC");
    JoinKnown(candle, "CLL+CC-CRR+CC-CLL+CC");
    candle := candle + "CLL+CC-CRR+CC-CLL+CC";
    assert AllKnown("-CRR+CC-CLL+CC-CRR+C");
    JoinKnown(candle, "-CRR+CC-CLL+CC-CRR+C");
    candle := candle + "-CRR+CC-CLL+CC-CRR+C";
    assert AllKnown("C-CLL+CC-CRR+CC-CLL+");
    JoinKnown(candle, "C-CLL+CC-CRR+CC-CLL+");
    candle := candle + "C-CLL+CC-CRR+CC-CLL+";
    assert AllKnown("CC-CRR+CC-CLL+CC-CRR");
    JoinKnown(candle, "CC-CRR+CC-CLL+CC-CRR");
    candle := candle + "CC-CRR+CC-CLL+CC-CRR";
    assert AllKnown("+CC-CLL+CC-CRR+CC-CC");
    JoinKnown(candle, "+CC-CLL+CC-CRR+CC-CC");
    candle := candle + "+CC-CLL+CC-CRR+CC-CC";
    assert candle == Candle;
  }

  lemma AngelIsKnown()
    ensures AllKnown(Angel)
  {
    var angel := "CCCCCCCLLCCCCRCLRCRC";
    assert AllKnown("CCCCCCCLLCCCCRCLRCRC");
    assert AllKnown("CCCCCCCCRRCLRLCCLCCL");
    JoinKnown(angel, "CCCCCCCCRRCLRLCCLCCL");
    angel := angel + "CCCCCCCCRRCLRLCCLCCL";
    assert AllKnown("RCCRCCRCCRLCCLCCLRLC");
    JoinKnown(angel, "RCCRCCRCCRLCCLCCLRLC");
    angel := angel + "RCCRCCRCCRLCCLCCLRLC";
    assert AllKnown("RRCCCCCCCCCRCRLCRCCC");
    JoinKnown(angel, "RRCCCCCCCCCRCRLCRCCC");
    angel := angel + "RRCCCCCCCCCRCRLCRCCC";
    assert AllKnown("CLLCCCCCCCLRRCRLLRLR");
    JoinKnown(angel, "CLLCCCCCCCLRRCRLLRLR");
    angel := angel + "CLLCCCCCCCLRRCRLLRLR";
    assert AllKnown("LRLLCCCCCCCCLLRLRL");
    JoinKnown(angel, "LRLLCCCCCCCCLLRLRL");
    angel := angel + "LRLLCCCCCCCCLLRLRL";
    assert angel == Angel;
  }

  lemma ShootingStarIsKnown()
    ensures AllKnown(ShootingStar)
  {
    var shootingStar := "CCCCLLRLRLRCRLRLRLLC";
    assert AllKnown("CCCCLLRLRLRCRLRLRLLC");
    assert AllKnown("CRCCLLRLRLRCRLRLRLLC");
    JoinKnown(shootingStar, "CRCCLLRLRLRCRLRLRLLC");
    shootingStar := shootingStar + "CRCCLLRLRLRCRLRLRLLC";
    assert AllKnown("CRCCLLRLRLRCRLRLRLLC");
    JoinKnown(shootingStar, "CRCCLLRLRLRCRLRLRLLC");
    shootingStar := shootingStar + "CRCCLLRLRLRCRLRLRLLC";
    assert AllKnown("CCCR+-LR+C-CRL+-CRLC");
    JoinKnown(shootingStar, "CCCR+-LR+C-CRL+-CRLC");
    shootingStar := shootingStar + "CCCR+-LR+C-CRL+-CRLC";
    assert AllKnown("CRLLRLRLLRLRCRLRLLRL");
    JoinKnown(shootingStar, "CRLLRLRLLRLRCRLRLLRL");
    shootingStar := shootingStar + "CRLLRLRLLRLRCRLRLLRL";
    assert AllKnown("CCRL++--LR+-LRCLR+");
    JoinKnown(shootingStar, "CCRL++--LR+-LRCLR+");
    shootingStar := shootingStar + "CCRL++--LR+-LRCLR+";
    assert shootingStar == ShootingStar;
  }

  /** Every script is non-empty and uses only the known symbols. */
  lemma ScriptsUseKnownSymbols()
    ensures forall k :: 0 <= k < |Scripts| ==> |Scripts[k]| > 0
    ensures forall k :: 0 <= k < |Scripts| ==> AllKnown(Scripts[k])
  {
    TreeIsKnown();
    CandleIsKnown();
    AngelIsKnown();
    ShootingStarIsKnown();
  }

  /** The action a symbol stands for; None for an unknown symbol, which the source
      only logs, so that nothing is sent for it. */
  function SymbolAction(c: char): (r: Option<Action>)
    ensures r == Some(ChangeNothing) <==> c in "CcNn"
    ensures r == Some(TurnLeft) <==> c in "Ll"
    ensures r == Some(TurnRight) <==> c in "Rr"
    ensures r == Some(SpeedUp) <==> c == '+'
    ensures r == Some(SlowDown) <==> c == '-'
  {
    match c
    case 'C' => Some(ChangeNothing)
    case 'c' => Some(ChangeNothing)
    case 'N' => Some(ChangeNothing)
    case 'n' => Some(ChangeNothing)
    case 'L' => Some(TurnLeft)
    case 'l' => Some(TurnLeft)
    case 'R' => Some(TurnRight)
    case 'r' => Some(TurnRight)
    case '+' => Some(SpeedUp)
    case '-' => Some(SlowDown)
    case _ => None
  }

  /** Every known symbol stands for an action. */
  lemma KnownSymbolsAct(c: char)
    ensures Known(c) ==> SymbolAction(c).Some?
  {
  }

  /** The position in the script and the script drawn ("" before the first state). */
  datatype Bot = Bot(counter: nat, selected: string)

  /** The script to play: the one already drawn, or the one at the random index pick
      (reduced into range as rand.Intn does) on the first state. */
  function Select(selected: string, pick: nat): (r: string)
    ensures selected != "" ==> r == selected
    ensures selected == "" ==> r in Scripts && r == Scripts[pick % |Scripts|]
  {
    if selected == "" then Scripts[pick % |Scripts|] else selected
  }

  /** GetState: the script is drawn on the first state, running or not. While running
      and active, past the end of the script the answer is change_nothing; before it,
      the symbol at the counter is answered (nothing for an unknown one) and the counter
      moves on. */
  function GetState(bot: Bot, g: View, pick: nat): (r: (Bot, Option<Action>))
    requires g.you in g.players
    ensures r.0.selected == Select(bot.selected, pick)
    ensures !(g.running && g.players[g.you].active) ==> r.1.None? && r.0.counter == bot.counter
    ensures g.running && g.players[g.you].active ==>
              if bot.counter >= |r.0.selected| then r == (bot.(selected := r.0.selected), Some(ChangeNothing))
              else r.0.counter == bot.counter + 1 && r.1 == SymbolAction(r.0.selected[bot.counter])
  {
    var selected := Select(bot.selected, pick);
    if g.running && g.players[g.you].active then
      if bot.counter >= |selected| then (Bot(bot.counter, selected), Some(ChangeNothing))
      else (Bot(bot.counter + 1, selected), SymbolAction(selected[bot.counter]))
    else (Bot(bot.counter, selected), None)
  }

  /** Once drawn, the script is kept whatever the later draws. */
  lemma ScriptIsKept(bot: Bot, g: View, pick: nat, g': View, pick': nat)
    requires g.you in g.players && g'.you in g'.players
    ensures var b1 := GetState(bot, g, pick).0;
            b1.selected != "" && GetState(b1, g', pick').0.selected == b1.selected
    ensures bot.selected == "" ==> AllKnown(GetState(bot, g, pick).0.selected)
  {
    ScriptsUseKnownSymbols();
  }

  /** The answers to a sequence of states, with the random index drawn for each. */
  function Play(bot: Bot, gs: seq<View>, picks: seq<nat>): (r: (Bot, seq<Option<Action>>))
    requires |picks| == |gs|
    requires forall i :: 0 <= i < |gs| ==> gs[i].you in gs[i].players
    ensures |r.1| == |gs|
    decreases |gs|
  {
    if |gs| == 0 then (bot, [])
    else
      var (b, a) := GetState(bot, gs[0], picks[0]);
      var (b', rest) := Play(b, gs[1..], picks[1..]);
      (b', [a] + rest)
  }

  /** Over states that are all running and active, a bot that has drawn its script
      answers it symbol by symbol from its counter on, and change_nothing once the
      script is done. */
  lemma {:induction false} PlayFollowsScript(bot: Bot, gs: seq<View>, picks: seq<nat>)
    requires bot.selected != ""
    requires |picks| == |gs|
    requires forall i :: 0 <= i < |gs| ==> gs[i].you in gs[i].players
    requires forall i :: 0 <= i < |gs| ==> gs[i].running && gs[i].players[gs[i].you].active
    ensures Play(bot, gs, picks).0.selected == bot.selected
    ensures forall i :: 0 <= i < |gs| ==>
              Play(bot, gs, picks).1[i] ==
                if bot.counter + i < |bot.selected| then SymbolAction(bot.selected[bot.counter + i])
                else Some(ChangeNothing)
    decreases |gs|
  {
    if |gs| > 0 {
      var (b, a) := GetState(bot, gs[0], picks[0]);
      var (b', rest) := Play(b, gs[1..], picks[1..]);
      assert Play(bot, gs, picks) == (b', [a] + rest);
      PlayFollowsScript(b, gs[1..], picks[1..]);
      assert b.selected == bot.selected;
      assert b.counter == bot.counter + 1 || (bot.counter >= |bot.selected| && b.counter == bot.counter);
      forall i | 1 <= i < |gs|
        ensures ([a] + rest)[i] == if bot.counter + i < |bot.selected| then SymbolAction(bot.selected[bot.counter + i])
                                   else Some(ChangeNothing)
      {
        assert ([a] + rest)[i] == rest[i - 1];
      }
    }
  }

  /** With a script of known symbols, every answer over such a run is an action. */
  lemma PlaySendsActions(bot: Bot, gs: seq<View>, picks: seq<nat>)
    requires bot.selected != "" && AllKnown(bot.selected)
    requires |picks| == |gs|
    requires forall i :: 0 <= i < |gs| ==> gs[i].you in gs[i].players
    requires forall i :: 0 <= i < |gs| ==> gs[i].running && gs[i].players[gs[i].you].active
    ensures forall i :: 0 <= i < |gs| ==> Play(bot, gs, picks).1[i].Some?
  {
    PlayFollowsScript(bot, gs, picks);
    forall k | 0 <= k < |bot.selected|
      ensures SymbolAction(bot.selected[k]).Some?
    {
      KnownSymbolsAct(bot.selected[k]);
    }
  }
}
