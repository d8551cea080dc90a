/** The jump bot: it searches, move by move, for a short plan whose last move jumps
    over an occupied cell, keeps the plan while it still works, and otherwise falls
    back to a random answer. Cells that another player can reach next are blocked
    with DeadZone before the search. */
module JumpAI {
  import opened Wrappers
  import opened Rules
  import opened Lookahead
  import Engine

  datatype Bot = Bot(plan: seq<Action>)

  // ---------------------------------------------------------------- executing a plan

  /** The simulated execution of a plan: whether some move crashed, whether some move
      jumped, the marked board and the cells marked. */
  datatype Run = Run(crashed: bool, jumped: bool, board: Board, cells: seq<Cell>)

  /** Simulates the plan move by move and stops at the first crash. */
  function RunPlan(b: Board, p: Player, plan: seq<Action>): (r: Run)
    requires b.Valid()
    ensures r.board.Valid() && r.board.width == b.width && r.board.height == b.height
    ensures forall i :: 0 <= i < |r.cells| ==> b.IsFree(r.cells[i])
    ensures forall x, y :: b.InBoard(x, y) ==>
              r.board.Get(x, y) == if Cell(x, y) in r.cells then Scratch else b.Get(x, y)
    decreases |plan|
  {
    if |plan| == 0 then Run(false, false, b, [])
    else
      var st := Progress(b, p, plan[0]);
      if st.outcome == Crashed then Run(true, false, st.board, st.revert.cells)
      else
        var rest := RunPlan(st.board, st.player, plan[1..]);
        RunCells(b, st.board, st.revert.cells, rest.cells);
        Run(rest.crashed, rest.jumped || st.outcome == Jumped, rest.board, st.revert.cells + rest.cells)
  }

  /** Cells free on a board that marked first with Scratch were free before, too. */
  lemma RunCells(b: Board, b': Board, first: seq<Cell>, later: seq<Cell>)
    requires b.Valid() && b'.Valid() && b'.width == b.width && b'.height == b.height
    requires forall i :: 0 <= i < |first| ==> b.IsFree(first[i])
    requires forall x, y :: b.InBoard(x, y) ==> b'.Get(x, y) == if Cell(x, y) in first then Scratch else b.Get(x, y)
    requires forall i :: 0 <= i < |later| ==> b'.IsFree(later[i])
    ensures forall i :: 0 <= i < |first + later| ==> b.IsFree((first + later)[i])
  {
    forall i | 0 <= i < |first + later| ensures b.IsFree((first + later)[i]) {
      if i >= |first| {
        var c := later[i - |first|];
        assert b'.IsFree(c);
        assert b'.Get(c.x, c.y) == 0;
      }
    }
  }

  /** executePlan: true when the plan runs without a crash and jumps somewhere; the
      cells the run marked are freed again before it returns. */
  function ExecPlan(b: Board, p: Player, plan: seq<Action>): (r: (bool, Board))
    requires b.Valid()
    ensures r.1 == b
  {
    var run := RunPlan(b, p, plan);
    var cleared := ClearCells(run.board, run.cells);
    ClearRestores(b, run.board, run.cells, cleared);
    (!run.crashed && run.jumped, cleared)
  }

  /** Freeing cells that were free before and marked since gives the board back. */
  lemma ClearRestores(b: Board, marked: Board, cs: seq<Cell>, cleared: Board)
    requires b.Valid() && marked.Valid() && cleared.Valid()
    requires marked.width == b.width && marked.height == b.height
    requires cleared.width == b.width && cleared.height == b.height
    requires forall i :: 0 <= i < |cs| ==> b.IsFree(cs[i])
    requires forall x, y :: b.InBoard(x, y) ==>
               cleared.Get(x, y) == if Cell(x, y) in cs then 0 else marked.Get(x, y)
    requires forall x, y :: b.InBoard(x, y) ==>
               marked.Get(x, y) == if Cell(x, y) in cs then Scratch else b.Get(x, y)
    ensures cleared == b
  {
    forall x, y | b.InBoard(x, y) ensures cleared.Get(x, y) == b.Get(x, y) {
      if Cell(x, y) in cs {
        var i :| 0 <= i < |cs| && cs[i] == Cell(x, y);
        assert b.IsFree(cs[i]);
      }
    }
    BoardExt(cleared, b);
  }

  /** A plan that starts with a move that does not crash passes exactly when the rest
      passes from the position that move reaches, or that move itself jumped and the
      rest does not crash. */
  lemma ExecPlanCons(b: Board, p: Player, a: Action, rest: seq<Action>)
    requires b.Valid()
    requires Progress(b, p, a).outcome != Crashed
    ensures var st := Progress(b, p, a);
            var run := RunPlan(st.board, st.player, rest);
            ExecPlan(b, p, [a] + rest).0 <==> !run.crashed && (run.jumped || st.outcome == Jumped)
  {
    assert ([a] + rest)[0] == a && ([a] + rest)[1..] == rest;
  }

  // ---------------------------------------------------------------- the search

  /** The order in which the search tries the five actions at a node; it stands for
      the shuffle the source draws at every node. */
  type Orders = (Board, Player, int) -> seq<Action>

  /** findPlan: depth-first search for a plan of at most length moves whose moves do
      not crash and whose last move jumps. The board and the player come back
      unchanged. */
  function FindPlan(b: Board, p: Player, length: int, orders: Orders): (r: (Option<seq<Action>>, Board, Player))
    requires b.Valid()
    ensures r.1 == b && r.2 == p
    ensures length <= 0 ==> r.0.None?
    ensures r.0.Some? ==> 1 <= |r.0.value| <= length
    decreases if length > 0 then length else 0, 1
  {
    var len := length - 1;
    if len < 0 then (None, b, p)
    else TryActions(b, p, len, orders, orders(b, p, len), 0)
  }

  /** The loop of findPlan over the actions acts[i..]. */
  function TryActions(b: Board, p: Player, len: int, orders: Orders, acts: seq<Action>, i: nat)
    : (r: (Option<seq<Action>>, Board, Player))
    requires b.Valid() && len >= 0
    ensures r.1 == b && r.2 == p
    ensures r.0.Some? ==> 1 <= |r.0.value| <= len + 1
    decreases len + 1, 0, |acts| - i
  {
    if i >= |acts| then (None, b, p)
    else
      var a := acts[i];
      var st := Progress(b, p, a);
      ProgressThenRevert(b, p, a);
      var (b1, p1) := RevertStep(st.board, st.player, st.revert);
      match st.outcome
      case Crashed => TryActions(b1, p1, len, orders, acts, i + 1)
      case Jumped => (Some([a]), b1, p1)
      case Normal =>
        var (plan, b2, p2) := FindPlan(st.board, st.player, len, orders);
        if plan.None? then TryActions(b1, p1, len, orders, acts, i + 1)
        else (Some([a] + plan.value), b1, p1)
  }

  /** The search is sound: a plan it finds passes. */
  lemma {:induction false} FindPlanSound(b: Board, p: Player, length: int, orders: Orders)
    requires b.Valid()
    ensures var r := FindPlan(b, p, length, orders).0;
            r.Some? ==> ExecPlan(b, p, r.value).0
    decreases if length > 0 then length else 0, 1
  {
    if length >= 1 {
      TryActionsSound(b, p, length - 1, orders, orders(b, p, length - 1), 0);
    }
  }

  /** Every plan the loop returns passes. */
  lemma {:induction false} TryActionsSound(b: Board, p: Player, len: int, orders: Orders, acts: seq<Action>, i: nat)
    requires b.Valid() && len >= 0
    ensures var r := TryActions(b, p, len, orders, acts, i).0;
            r.Some? ==> ExecPlan(b, p, r.value).0
    decreases len + 1, 0, |acts| - i
  {
    if i < |acts| {
      var a := acts[i];
      var st := Progress(b, p, a);
      ProgressThenRevert(b, p, a);
      match st.outcome
      case Crashed =>
        TryActionsSound(b, p, len, orders, acts, i + 1);
      case Jumped =>
        ExecPlanCons(b, p, a, []);
        assert [a] + [] == [a];
      case Normal =>
        FindPlanSound(st.board, st.player, len, orders);
        var plan := FindPlan(st.board, st.player, len, orders).0;
        if plan.None? {
          TryActionsSound(b, p, len, orders, acts, i + 1);
        } else {
          ExecPlanCons(b, p, a, plan.value);
        }
    }
  }

  /** Every action appears in acts. */
  predicate AllActions(acts: seq<Action>)
  {
    forall a: Action :: a in acts
  }

  /** Every node of the search tries all five actions, as the shuffle does. */
  ghost predicate Exhaustive(orders: Orders)
  {
    forall b, p, n :: AllActions(orders(b, p, n))
  }

  /** Trying a at a node with len moves left below it finds a plan. */
  ghost predicate Succeeds(b: Board, p: Player, len: int, orders: Orders, a: Action)
    requires b.Valid()
  {
    var st := Progress(b, p, a);
    || st.outcome == Jumped
    || (st.outcome == Normal && FindPlan(st.board, st.player, len, orders).0.Some?)
  }

  /** The first move of a passing plan does not crash, and when it does not jump
      either, the rest of the plan passes from where it ends. */
  lemma ExecPlanFirst(b: Board, p: Player, plan: seq<Action>)
    requires b.Valid() && |plan| >= 1 && ExecPlan(b, p, plan).0
    ensures var st := Progress(b, p, plan[0]);
            && st.outcome != Crashed
            && (st.outcome == Normal ==> |plan| >= 2 && ExecPlan(st.board, st.player, plan[1..]).0)
  {
    var st := Progress(b, p, plan[0]);
    var run := RunPlan(b, p, plan);
    assert !run.crashed && run.jumped;
    if st.outcome != Crashed {
      var rest := RunPlan(st.board, st.player, plan[1..]);
      assert run.crashed == rest.crashed;
      assert run.jumped == (rest.jumped || st.outcome == Jumped);
      if |plan| == 1 {
        assert plan[1..] == [];
        assert !rest.jumped;
      }
    }
  }

  /** The loop finds a plan when the action at a later position j succeeds. */
  lemma {:induction false} TryActionsFinds(b: Board, p: Player, len: int, orders: Orders,
                                           acts: seq<Action>, i: nat, j: nat)
    requires b.Valid() && len >= 0 && i <= j < |acts|
    requires Succeeds(b, p, len, orders, acts[j])
    ensures TryActions(b, p, len, orders, acts, i).0.Some?
    decreases j - i
  {
    var st := Progress(b, p, acts[i]);
    ProgressThenRevert(b, p, acts[i]);
    if i < j {
      match st.outcome
      case Crashed =>
        TryActionsFinds(b, p, len, orders, acts, i + 1, j);
      case Jumped =>
      case Normal =>
        if FindPlan(st.board, st.player, len, orders).0.None? {
          TryActionsFinds(b, p, len, orders, acts, i + 1, j);
        }
    }
  }

  /** Where a sits in a complete order of the actions. */
  lemma IndexOf(acts: seq<Action>, a: Action) returns (j: nat)
    requires AllActions(acts)
    ensures j < |acts| && acts[j] == a
  {
    assert a in acts;
    j :| j < |acts| && acts[j] == a;
  }

  /** The search is complete: when every node tries all five actions, it finds a plan
      whenever some plan of 1..length moves passes. */
  lemma {:induction false} FindPlanComplete(b: Board, p: Player, length: int, orders: Orders,
                                            plan: seq<Action>)
    requires b.Valid() && Exhaustive(orders)
    requires 1 <= |plan| <= length && ExecPlan(b, p, plan).0
    ensures FindPlan(b, p, length, orders).0.Some?
    decreases length, 1
  {
    FirstMoveSucceeds(b, p, length - 1, orders, plan);
    var j := IndexOf(orders(b, p, length - 1), plan[0]);
    SearchFinds(b, p, length, orders, j, plan[0]);
  }

  /** A node at which the action at position j of its order succeeds finds a plan. */
  lemma SearchFinds(b: Board, p: Player, length: int, orders: Orders, j: nat, a: Action)
    requires b.Valid() && length >= 1
    requires j < |orders(b, p, length - 1)| && orders(b, p, length - 1)[j] == a
    requires Succeeds(b, p, length - 1, orders, a)
    ensures FindPlan(b, p, length, orders).0.Some?
  {
    TryActionsFinds(b, p, length - 1, orders, orders(b, p, length - 1), 0, j);
    FindPlanIsLoop(b, p, length, orders);
  }

  /** A search with moves left is its loop over the order drawn at the node. */
  lemma FindPlanIsLoop(b: Board, p: Player, length: int, orders: Orders)
    requires b.Valid() && length >= 1
    ensures FindPlan(b, p, length, orders).0 == TryActions(b, p, length - 1, orders, orders(b, p, length - 1), 0).0
  {
  }

  /** The first move of a passing plan succeeds at the root of the search. */
  lemma {:induction false} FirstMoveSucceeds(b: Board, p: Player, len: int, orders: Orders,
                                             plan: seq<Action>)
    requires b.Valid() && Exhaustive(orders) && len >= 0
    requires 1 <= |plan| <= len + 1 && ExecPlan(b, p, plan).0
    ensures Succeeds(b, p, len, orders, plan[0])
    decreases len + 1, 0
  {
    var st := Progress(b, p, plan[0]);
    ExecPlanFirst(b, p, plan);
    if st.outcome == Normal {
      FindPlanComplete(st.board, st.player, len, orders, plan[1..]);
    }
  }

  /** A move with this step counter may have holes. */
  predicate HoleMove(stepCounter: int)
  {
    stepCounter % HolesEachStep == 0
  }

  /** The number of moves up to and including the next move whose step counter is a
      multiple of HolesEachStep, the only kind of move that can have holes. */
  function Horizon(stepCounter: nat): (r: int)
    ensures 1 <= r <= HolesEachStep
    ensures HoleMove(stepCounter + r)
    ensures forall n :: stepCounter < n < stepCounter + r ==> !HoleMove(n)
  {
    HolesEachStep - stepCounter % HolesEachStep
  }

  // ---------------------------------------------------------------- one answer

  /** The plan the bot follows this round: the kept plan while it still passes on the
      current board, else a newly found one, else the single fallback answer. */
  function NextPlan(b: Board, me: Player, plan: seq<Action>, orders: Orders, fallback: Action)
    : (r: seq<Action>)
    requires b.Valid()
    ensures |r| >= 1
  {
    var kept := if |plan| != 0 && !ExecPlan(b, me, plan).0 then [] else plan;
    if |kept| != 0 then kept
    else match FindPlan(b, me, Horizon(me.stepCounter), orders).0
         case Some(found) => found
         case None => [fallback]
  }

  /** The plan followed passes, unless it is the lone fallback answer. */
  lemma NextPlanPasses(b: Board, me: Player, plan: seq<Action>, orders: Orders, fallback: Action)
    requires b.Valid()
    ensures var r := NextPlan(b, me, plan, orders, fallback);
            ExecPlan(b, me, r).0 || r == [fallback]
  {
    FindPlanSound(b, me, Horizon(me.stepCounter), orders);
  }

  /** GetState: answers only in a running game while the bot is active. A kept plan
      must still pass on the current board; otherwise a new one is searched, and
      without one the fallback (the random bot's answer) is sent. */
  function GetState(bot: Bot, g: View, order: seq<int>, orders: Orders, fallback: Action)
    : (r: (Bot, Option<Action>))
    requires g.board.Valid() && g.you in g.players
    ensures r.1.Some? <==> g.running && g.players[g.you].active
    ensures r.1.None? ==> r.0 == bot
  {
    var me := g.players[g.you];
    if !(g.running && me.active) then (bot, None)
    else
      var plan := NextPlan(DeadZones(g.board, g.players, g.you, order), me, bot.plan, orders, fallback);
      (Bot(plan[1..]), Some(plan[0]))
  }

  /** Every answer the bot sends starts a plan that passes on the board with dead
      zones, and the rest of that plan is what it keeps; the only exception is the
      fallback answer, after which it keeps nothing. */
  lemma AnswerStartsPassingPlan(bot: Bot, g: View, order: seq<int>, orders: Orders, fallback: Action)
    requires g.board.Valid() && g.you in g.players
    requires GetState(bot, g, order, orders, fallback).1.Some?
    ensures var (bot', a) := GetState(bot, g, order, orders, fallback);
            var b := DeadZones(g.board, g.players, g.you, order);
            || ExecPlan(b, g.players[g.you], [a.value] + bot'.plan).0
            || (bot'.plan == [] && a.value == fallback)
  {
    var me := g.players[g.you];
    var b := DeadZones(g.board, g.players, g.you, order);
    var plan := NextPlan(b, me, bot.plan, orders, fallback);
    NextPlanPasses(b, me, bot.plan, orders, fallback);
    assert [plan[0]] + plan[1..] == plan;
  }
}
