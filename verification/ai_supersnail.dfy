/** SuperSnailAI: the snail rule with a dead-end check. When the snail's move would
    leave the player in a small area, each of change_nothing, turn_left and turn_right
    is tried by moving with it and then following the snail rule until a crash; the
    alternative that survives longest is sent. Every trial runs on a scratch board and
    is undone through the stack of revert records. */
module SuperSnailAI {
  import opened Wrappers
  import opened Rules
  import opened Lookahead
  import opened Sensing
  import SnailAI

  /** The hand side; None until the first state arrives. The source also declares a
      round counter that nothing reads. */
  datatype Bot = Bot(hand: Option<Hand>)

  // ---------------------------------------------------------------- free cells

  /** The free cells of a board. */
  function FreeCells(b: Board): set<Cell>
    requires b.Valid()
  {
    set x, y | 0 <= x < b.width && 0 <= y < b.height && b.cells[y][x] == 0 :: Cell(x, y)
  }

  /** A surviving move with speed at least 1 and no speed change marks at least its
      first cell, so the scratch board has strictly fewer free cells. */
  lemma ProgressConsumes(b: Board, p: Player, a: Action)
    requires b.Valid() && 1 <= p.speed && !Overspeed(p, a)
    requires Steer(p, a).speed == p.speed
    requires Progress(b, p, a).outcome != Crashed
    ensures FreeCells(Progress(b, p, a).board) < FreeCells(b)
  {
    var st := Progress(b, p, a);
    var q := Moving(p, a);
    WalkCovers(b, q, 0);
    var c := PathCell(q.x, q.y, q.direction, 0);
    assert c in st.revert.cells;
    var i :| 0 <= i < |st.revert.cells| && st.revert.cells[i] == c;
    assert b.IsFree(st.revert.cells[i]);
    assert c in FreeCells(b);
    assert st.board.Get(c.x, c.y) == Scratch;
    assert c !in FreeCells(st.board);
    forall e | e in FreeCells(st.board) ensures e in FreeCells(b) {
      assert st.board.Get(e.x, e.y) == 0;
    }
  }

  // ---------------------------------------------------------------- the roll-out

  /** The end of a roll-out: the number of snail moves survived, the scratch state it
      left and the revert records in the order the moves were made. */
  datatype Trail = Trail(count: nat, board: Board, player: Player, reverts: seq<Revert>)

  /** Every cell of every record lies inside a w x h board. */
  predicate Fits(w: int, h: int, rs: seq<Revert>)
  {
    forall i, j :: 0 <= i < |rs| && 0 <= j < |rs[i].cells| ==>
      0 <= rs[i].cells[j].x < w && 0 <= rs[i].cells[j].y < h
  }

  /** The inner loop of GetState: moves with the snail's action until a move crashes or
      the snail has nowhere to go (progress of "" fails at once and changes nothing). */
  function RollOut(b: Board, p: Player, hand: Hand): (r: Trail)
    requires b.Valid() && 1 <= p.speed
    ensures r.board.Valid() && r.board.width == b.width && r.board.height == b.height
    ensures |r.reverts| == r.count + 1
    ensures Fits(b.width, b.height, r.reverts)
    decreases FreeCells(b)
  {
    match SnailAction(b, p, hand)
    case None => Trail(0, b, p, [Revert(p.x, p.y, p.speed, p.stepCounter, p.direction, [])])
    case Some(a) =>
      var st := Progress(b, p, a);
      if st.outcome == Crashed then Trail(0, st.board, st.player, [st.revert])
      else
        ProgressConsumes(b, p, a);
        var t := RollOut(st.board, st.player, hand);
        FitsCons(b, st.revert, t.reverts);
        Trail(t.count + 1, t.board, t.player, [st.revert] + t.reverts)
  }

  lemma FitsCons(b: Board, rev: Revert, rs: seq<Revert>)
    requires AllIn(b, rev.cells) && Fits(b.width, b.height, rs)
    ensures Fits(b.width, b.height, [rev] + rs)
  {
    var zs := [rev] + rs;
    forall i, j | 0 <= i < |zs| && 0 <= j < |zs[i].cells|
      ensures 0 <= zs[i].cells[j].x < b.width && 0 <= zs[i].cells[j].y < b.height
    {
      if i > 0 {
        assert zs[i] == rs[i - 1];
      }
    }
  }

  /** A roll-out makes at most as many moves as the board has free cells. */
  lemma {:induction false} RollOutBounded(b: Board, p: Player, hand: Hand)
    requires b.Valid() && 1 <= p.speed
    ensures RollOut(b, p, hand).count <= |FreeCells(b)|
    decreases FreeCells(b)
  {
    match SnailAction(b, p, hand)
    case None =>
    case Some(a) =>
      var st := Progress(b, p, a);
      if st.outcome != Crashed {
        ProgressConsumes(b, p, a);
        RollOutBounded(st.board, st.player, hand);
        SetSmaller(FreeCells(st.board), FreeCells(b));
      }
  }

  lemma SetSmaller(a: set<Cell>, b: set<Cell>)
    requires a < b
    ensures |a| < |b|
  {
    var e :| e in b && e !in a;
    assert a <= b - {e};
    SubsetSize(a, b - {e});
  }

  lemma {:induction false} SubsetSize(a: set<Cell>, b: set<Cell>)
    requires a <= b
    ensures |a| <= |b|
    decreases |a|
  {
    if a != {} {
      var e :| e in a;
      SubsetSize(a - {e}, b - {e});
    }
  }

  // ---------------------------------------------------------------- the revert stack

  /** revertStack: undoes the records from the last to the first. */
  function RevertStack(b: Board, p: Player, rs: seq<Revert>): (r: (Board, Player))
    requires b.Valid() && Fits(b.width, b.height, rs)
    ensures r.0.Valid() && r.0.width == b.width && r.0.height == b.height
    decreases |rs|
  {
    if |rs| == 0 then (b, p)
    else
      assert AllIn(b, rs[|rs| - 1].cells);
      var (b1, p1) := RevertStep(b, p, rs[|rs| - 1]);
      assert forall i :: 0 <= i < |rs| - 1 ==> rs[..|rs| - 1][i] == rs[i];
      RevertStack(b1, p1, rs[..|rs| - 1])
  }

  /** Undoing xs + ys undoes ys first. */
  lemma {:induction false} RevertStackAppend(b: Board, p: Player, xs: seq<Revert>, ys: seq<Revert>)
    requires b.Valid() && Fits(b.width, b.height, xs) && Fits(b.width, b.height, ys)
    requires Fits(b.width, b.height, xs + ys)
    ensures var (b1, p1) := RevertStack(b, p, ys);
            RevertStack(b, p, xs + ys) == RevertStack(b1, p1, xs)
    decreases |ys|
  {
    if |ys| == 0 {
      assert xs + ys == xs;
    } else {
      var zs := xs + ys;
      var ys' := ys[..|ys| - 1];
      var last := ys[|ys| - 1];
      assert zs[|zs| - 1] == last;
      assert zs[..|zs| - 1] == xs + ys';
      assert AllIn(b, last.cells);
      var (b1, p1) := RevertStep(b, p, last);
      assert RevertStack(b, p, zs) == RevertStack(b1, p1, xs + ys');
      assert RevertStack(b, p, ys) == RevertStack(b1, p1, ys');
      FitsPrefix(b.width, b.height, ys);
      FitsPrefix(b.width, b.height, zs);
      RevertStackAppend(b1, p1, xs, ys');
    }
  }

  lemma FitsPrefix(w: int, h: int, rs: seq<Revert>)
    requires Fits(w, h, rs) && |rs| > 0
    ensures Fits(w, h, rs[..|rs| - 1])
  {
    var ps := rs[..|rs| - 1];
    forall i, j | 0 <= i < |ps| && 0 <= j < |ps[i].cells|
      ensures 0 <= ps[i].cells[j].x < w && 0 <= ps[i].cells[j].y < h
    {
      assert ps[i] == rs[i];
    }
  }

  /** Undoing the records of a roll-out in reverse order gives back the state the
      roll-out started from. */
  lemma {:induction false} RollOutReverts(b: Board, p: Player, hand: Hand)
    requires b.Valid() && 1 <= p.speed
    ensures var t := RollOut(b, p, hand);
            RevertStack(t.board, t.player, t.reverts) == (b, p)
    decreases FreeCells(b), 1
  {
    var t := RollOut(b, p, hand);
    match SnailAction(b, p, hand)
    case None =>
      assert t.reverts[..0] == [];
    case Some(a) =>
      var st := Progress(b, p, a);
      if st.outcome == Crashed {
        RollCrashReverts(b, p, hand, a);
      } else {
        RollOnReverts(b, p, hand, a);
      }
  }

  /** The case of RollOutReverts where the snail's move crashes. */
  lemma RollCrashReverts(b: Board, p: Player, hand: Hand, a: Action)
    requires b.Valid() && 1 <= p.speed
    requires SnailAction(b, p, hand) == Some(a) && Progress(b, p, a).outcome == Crashed
    ensures var t := RollOut(b, p, hand);
            RevertStack(t.board, t.player, t.reverts) == (b, p)
  {
    var st := Progress(b, p, a);
    var t := RollOut(b, p, hand);
    ProgressThenRevert(b, p, a);
    assert t.reverts == [st.revert] + [];
    RevertLast(t.board, t.player, st.revert, []);
  }

  /** The case of RollOutReverts where the snail's move survives. */
  lemma {:induction false} RollOnReverts(b: Board, p: Player, hand: Hand, a: Action)
    requires b.Valid() && 1 <= p.speed
    requires SnailAction(b, p, hand) == Some(a) && Progress(b, p, a).outcome != Crashed
    ensures var t := RollOut(b, p, hand);
            RevertStack(t.board, t.player, t.reverts) == (b, p)
    decreases FreeCells(b), 0
  {
    var st := Progress(b, p, a);
    ProgressThenRevert(b, p, a);
    ProgressConsumes(b, p, a);
    var t := RollOut(b, p, hand);
    var t' := RollOut(st.board, st.player, hand);
    RollOutReverts(st.board, st.player, hand);
    assert t.board == t'.board && t.player == t'.player && t.reverts == [st.revert] + t'.reverts;
    RevertLast(t.board, t.player, st.revert, t'.reverts);
  }

  /** Undoing [rev] + rs undoes rs and then rev. */
  lemma RevertLast(b: Board, p: Player, rev: Revert, rs: seq<Revert>)
    requires b.Valid() && Fits(b.width, b.height, [rev] + rs)
    ensures Fits(b.width, b.height, rs)
    ensures var (b1, p1) := RevertStack(b, p, rs);
            AllIn(b1, rev.cells) && RevertStack(b, p, [rev] + rs) == RevertStep(b1, p1, rev)
  {
    var zs := [rev] + rs;
    forall i, j | 0 <= i < |rs| && 0 <= j < |rs[i].cells|
      ensures 0 <= rs[i].cells[j].x < b.width && 0 <= rs[i].cells[j].y < b.height
    {
      assert rs[i] == zs[i + 1];
    }
    assert zs[0] == rev;
    RevertStackAppend(b, p, [rev], rs);
    var (b1, p1) := RevertStack(b, p, rs);
    assert [rev][..0] == [];
    assert RevertStack(b1, p1, [rev]) == RevertStep(b1, p1, rev);
  }

  // ---------------------------------------------------------------- choosing

  /** The alternatives tried when the snail's move leads into a small area. */
  const Alternatives: seq<Action> := [ChangeNothing, TurnLeft, TurnRight]

  /** The value of trying a: 0 when its own move crashes, otherwise one for that move
      and one for every snail move survived after it. */
  function Trial(b: Board, p: Player, hand: Hand, a: Action): (r: nat)
    requires b.Valid() && 1 <= p.speed
    requires a == ChangeNothing || a == TurnLeft || a == TurnRight
    ensures r == 0 <==> Progress(b, p, a).outcome == Crashed
  {
    var st := Progress(b, p, a);
    if st.outcome == Crashed then 0 else 1 + RollOut(st.board, st.player, hand).count
  }

  /** The scan of the alternatives: the best so far is replaced only by a strictly
      larger value, so the winner is the first alternative of maximal value, and
      nothing wins unless some value exceeds test. */
  function FirstBest(values: seq<nat>, test: nat): (r: Option<nat>)
    ensures r.None? <==> forall i :: 0 <= i < |values| ==> values[i] <= test
    ensures r.Some? ==> r.value < |values| && values[r.value] > test
    ensures r.Some? ==> forall i :: 0 <= i < |values| ==> values[i] <= values[r.value]
    ensures r.Some? ==> forall i :: 0 <= i < r.value ==> values[i] < values[r.value]
    decreases |values|
  {
    if |values| == 0 then None
    else
      var rest := FirstBest(values[1..], if values[0] > test then values[0] else test);
      assert forall i :: 1 <= i < |values| ==> values[i] == values[1..][i - 1];
      match rest
      case Some(j) => Some(j + 1)
      case None => if values[0] > test then Some(0) else None
  }

  /** The scan over three values in terms of the values themselves. */
  lemma FirstBestOfThree(x: nat, y: nat, z: nat)
    ensures var r := FirstBest([x, y, z], 0);
            && (r.None? <==> x == 0 && y == 0 && z == 0)
            && (r.Some? ==> r.value < 3)
            && (r == Some(0) ==> x > 0 && y <= x && z <= x)
            && (r == Some(1) ==> y > 0 && x <= y && z <= y)
            && (r == Some(2) ==> z > 0 && x <= z && y <= z)
  {
    var vs := [x, y, z];
    assert vs[0] == x && vs[1] == y && vs[2] == z;
  }

  /** The answer in a small area: the alternative whose trial survives longest, the
      first one on a tie; nothing when each of the three crashes on its own move. */
  function Rescue(b: Board, p: Player, hand: Hand): (r: Option<Action>)
    requires b.Valid() && 1 <= p.speed
    ensures r.None? <==> Progress(b, p, ChangeNothing).outcome == Crashed
                         && Progress(b, p, TurnLeft).outcome == Crashed
                         && Progress(b, p, TurnRight).outcome == Crashed
    ensures r.Some? ==> r.value == ChangeNothing || r.value == TurnLeft || r.value == TurnRight
    ensures r.Some? ==> Progress(b, p, r.value).outcome != Crashed
    ensures r.Some? ==> && Trial(b, p, hand, ChangeNothing) <= Trial(b, p, hand, r.value)
                        && Trial(b, p, hand, TurnLeft) <= Trial(b, p, hand, r.value)
                        && Trial(b, p, hand, TurnRight) <= Trial(b, p, hand, r.value)
  {
    var tn := Trial(b, p, hand, ChangeNothing);
    var tl := Trial(b, p, hand, TurnLeft);
    var tr := Trial(b, p, hand, TurnRight);
    var best := FirstBest([tn, tl, tr], 0);
    FirstBestOfThree(tn, tl, tr);
    match best
    case None => None
    case Some(i) => Some(Alternative(i))
  }

  /** Alternatives[i], case by case. */
  function Alternative(i: nat): (a: Action)
    requires i < 3
    ensures a == Alternatives[i]
    ensures a == ChangeNothing || a == TurnLeft || a == TurnRight
    ensures i == 0 ==> a == ChangeNothing
    ensures i == 1 ==> a == TurnLeft
    ensures i == 2 ==> a == TurnRight
  {
    if i == 0 then ChangeNothing else if i == 1 then TurnLeft else TurnRight
  }

  /** GetState: the hand is fixed on the first state. In a running game: change_nothing
      when the snail has nowhere to go; the snail's action when its move does not end
      in a small area; otherwise the alternative that survives longest, or the snail's
      action when every alternative crashes at once. The own active flag is not read. */
  function GetState(bot: Bot, g: View, heads: bool): (r: (Bot, Option<Action>))
    requires g.board.Valid() && g.you in g.players && 1 <= g.players[g.you].speed
    ensures r.0.hand.Some? && (bot.hand.Some? ==> r.0 == bot)
    ensures r.1.Some? <==> g.running
    ensures r.1.Some? ==> r.1.value == ChangeNothing || r.1.value == TurnLeft || r.1.value == TurnRight
  {
    var hand := ChooseHand(bot.hand, heads);
    var p := g.players[g.you];
    if !g.running then (Bot(Some(hand)), None)
    else
      match SnailAction(g.board, p, hand)
      case None => (Bot(Some(hand)), Some(ChangeNothing))
      case Some(sa) =>
        var st := Progress(g.board, p, sa);
        if !InSmallArea(st.board, st.player.x, st.player.y) then (Bot(Some(hand)), Some(sa))
        else
          match Rescue(g.board, p, hand)
          case Some(a) => (Bot(Some(hand)), Some(a))
          case None => (Bot(Some(hand)), Some(sa))
  }

  /** Outside small areas the super snail answers exactly like the plain snail. */
  lemma AgreesWithSnailOutsideSmallAreas(bot: Bot, g: View, heads: bool)
    requires g.board.Valid() && g.you in g.players && 1 <= g.players[g.you].speed && g.running
    requires var p := g.players[g.you];
             match SnailAction(g.board, p, ChooseHand(bot.hand, heads))
             case None => true
             case Some(sa) =>
               var st := Progress(g.board, p, sa);
               !InSmallArea(st.board, st.player.x, st.player.y)
    ensures GetState(bot, g, heads).1 == SnailAI.GetState(SnailAI.Bot(bot.hand), g, heads).1
  {
    SnailAI.LadderIsSnailAction(g.board, g.players[g.you], ChooseHand(bot.hand, heads));
  }

}
