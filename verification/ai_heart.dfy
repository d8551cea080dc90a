/** HeartAI: plays a fixed script of 25 moves that draws a heart (its last move
    crashes), then answers change_nothing for ever. */
module HeartAI {
  import opened Wrappers
  import opened Rules
  import opened Lookahead

  const HeartActions: seq<Action> :=
    [ChangeNothing, TurnLeft, TurnRight, TurnLeft, TurnRight, TurnLeft, TurnRight,
     ChangeNothing, TurnRight, TurnLeft, TurnRight, TurnRight, TurnLeft, ChangeNothing,
     TurnLeft, TurnRight, TurnRight, TurnLeft, TurnRight, ChangeNothing, TurnRight,
     TurnLeft, TurnRight, TurnLeft, TurnRight]

  /** The script has 25 moves and never changes speed. */
  lemma ScriptShape()
    ensures |HeartActions| == 25
    ensures forall i :: 0 <= i < |HeartActions| ==>
              HeartActions[i] == TurnLeft || HeartActions[i] == TurnRight || HeartActions[i] == ChangeNothing
  {
  }

  /** The move a script prescribes at position n: change_nothing past its end. The
      heart bot runs with script HeartActions. */
  function Scripted(script: seq<Action>, n: nat): (r: Action)
    ensures n < |script| ==> r == script[n]
    ensures n >= |script| ==> r == ChangeNothing
  {
    if n >= |script| then ChangeNothing else script[n]
  }

  /** GetState with the bot's counter: while running and active, the scripted move,
      advancing the counter only while the script lasts; otherwise nothing is sent. */
  function GetState(script: seq<Action>, counter: nat, g: View): (r: (nat, Option<Action>))
    requires g.you in g.players
    ensures r.1.Some? <==> g.running && g.players[g.you].active
    ensures r.1.Some? ==> r.1.value == Scripted(script, counter)
    ensures r.0 == if r.1.Some? && counter < |script| then counter + 1 else counter
  {
    if g.running && g.players[g.you].active then
      if counter >= |script| then (counter, Some(ChangeNothing))
      else (counter + 1, Some(script[counter]))
    else (counter, None)
  }

  /** The answers to a sequence of states, starting from the given counter. */
  function Play(script: seq<Action>, counter: nat, gs: seq<View>): (r: (nat, seq<Option<Action>>))
    requires forall i :: 0 <= i < |gs| ==> gs[i].you in gs[i].players
    ensures |r.1| == |gs|
    decreases |gs|
  {
    if |gs| == 0 then (counter, [])
    else
      var (c, a) := GetState(script, counter, gs[0]);
      var (c', rest) := Play(script, c, gs[1..]);
      (c', [a] + rest)
  }

  /** Over states that are all running and active, the bot plays the script from its
      counter on, one move per state, and change_nothing once the script is done. */
  lemma {:induction false} PlayFollowsScript(script: seq<Action>, counter: nat, gs: seq<View>)
    requires forall i :: 0 <= i < |gs| ==> gs[i].you in gs[i].players
    requires forall i :: 0 <= i < |gs| ==> gs[i].running && gs[i].players[gs[i].you].active
    ensures forall i :: 0 <= i < |gs| ==> Play(script, counter, gs).1[i] == Some(Scripted(script, counter + i))
    decreases |gs|
  {
    if |gs| > 0 {
      var (c, a) := GetState(script, counter, gs[0]);
      var (c', rest) := Play(script, c, gs[1..]);
      assert Play(script, counter, gs) == (c', [a] + rest);
      PlayFollowsScript(script, c, gs[1..]);
      forall i | 1 <= i < |gs| ensures ([a] + rest)[i] == Some(Scripted(script, counter + i)) {
        assert ([a] + rest)[i] == rest[i - 1];
        if c != counter + 1 {
          assert counter >= |script| && c == counter;
        }
      }
    }
  }

  /** Over such states the counter advances once per state until the script ends. */
  lemma {:induction false} PlayCounter(script: seq<Action>, counter: nat, gs: seq<View>)
    requires forall i :: 0 <= i < |gs| ==> gs[i].you in gs[i].players
    requires forall i :: 0 <= i < |gs| ==> gs[i].running && gs[i].players[gs[i].you].active
    ensures Play(script, counter, gs).0 == if counter >= |script| then counter
                                           else Min(counter + |gs|, |script|)
    decreases |gs|
  {
    if |gs| > 0 {
      var (c, a) := GetState(script, counter, gs[0]);
      assert Play(script, counter, gs).0 == Play(script, c, gs[1..]).0;
      PlayCounter(script, c, gs[1..]);
    }
  }

  function Min(a: int, b: int): int
  {
    if a < b then a else b
  }
}
