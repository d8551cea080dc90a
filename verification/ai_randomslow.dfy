/** RandomAISlow: a random bot that never changes its speed. It shuffles two turns
    and eight change_nothing, and sends the first whose move is certainly safe on the
    board with dead zones; failing that the last one that only risks a dead zone;
    failing that the first of the shuffled list. */
module RandomSlowAI {
  import opened Wrappers
  import opened Rules
  import opened Lookahead

  /** The three answers of willCrash. */
  datatype CrashRisk = NoCrash | MaybeCrash | SureCrash

  /** The actions the bot shuffles. */
  const SlowActions: seq<Action> :=
    [TurnLeft, TurnRight, ChangeNothing, ChangeNothing, ChangeNothing, ChangeNothing,
     ChangeNothing, ChangeNothing, ChangeNothing, ChangeNothing]

  // ---------------------------------------------------------------- willCrash

  /** Step k of the next move of q passes: it stays inside the board and is a hole or
      lands on a free cell. The hole rule is applied with the step counter of the next
      round, stepCounter + 1. */
  predicate Clear(b: Board, q: Player, k: int)
    requires b.Valid()
  {
    var c := PathCell(q.x, q.y, q.direction, k);
    b.Contains(c) && (IsHole(q.speed, q.stepCounter + 1, k) || b.At(c) == 0)
  }

  /** How a step that does not pass ends the test: leaving the board or hitting an
      occupied cell is a sure crash, landing in a dead zone only a possible one. */
  function Hit(b: Board, q: Player, k: int): CrashRisk
    requires b.Valid()
  {
    var c := PathCell(q.x, q.y, q.direction, k);
    if b.Contains(c) && b.At(c) == DeadZone then MaybeCrash else SureCrash
  }

  /** willCrash from step s on: the first step that does not pass decides. It only
      reads the board; the player's position is restored by the source on return. */
  function WillCrashFrom(b: Board, q: Player, s: nat): (r: CrashRisk)
    requires b.Valid()
    ensures r == NoCrash <==> forall k :: s <= k < q.speed ==> Clear(b, q, k)
    ensures r != NoCrash ==>
              exists k :: s <= k < q.speed && !Clear(b, q, k) && r == Hit(b, q, k)
                          && forall j :: s <= j < k ==> Clear(b, q, j)
    decreases q.speed - s
  {
    if s >= q.speed then NoCrash
    else if !Clear(b, q, s) then Hit(b, q, s)
    else WillCrashFrom(b, q, s + 1)
  }

  function WillCrash(b: Board, q: Player): (r: CrashRisk)
    requires b.Valid()
    ensures r == NoCrash <==> forall k :: 0 <= k < q.speed ==> Clear(b, q, k)
  {
    WillCrashFrom(b, q, 0)
  }

  /** The test agrees with the simulated move of the look-ahead bots: after a steering
      action, willCrash answers NoCrash exactly when progress does not crash. */
  lemma WillCrashAgreesWithProgress(b: Board, p: Player, a: Action)
    requires b.Valid() && (a == TurnLeft || a == TurnRight || a == ChangeNothing)
    ensures WillCrash(b, Steer(p, a)) == NoCrash <==> Progress(b, p, a).outcome != Crashed
  {
    ProgressOutcome(b, p, a);
    var q := Moving(p, a);
    forall k ensures Clear(b, Steer(p, a), k) <==> !Blocked(b, q, k) {
    }
  }

  // ---------------------------------------------------------------- apply and undo

  /** The "do action" switch: a turn changes the heading; a speed change that would
      leave [1, MaxSpeed] is taken back at once and the action skipped (None). */
  function Apply(p: Player, a: Action): (r: Option<Player>)
    ensures r.None? <==> Overspeed(p, a)
    ensures r.Some? ==> r.value == Steer(p, a)
  {
    match a
    case TurnLeft => Some(p.(direction := RotateLeft(p.direction)))
    case TurnRight => Some(p.(direction := RotateRight(p.direction)))
    case SpeedUp => if p.speed + 1 > MaxSpeed then None else Some(p.(speed := p.speed + 1))
    case SlowDown => if p.speed - 1 < 1 then None else Some(p.(speed := p.speed - 1))
    case ChangeNothing => Some(p)
  }

  /** The "undo action" switch, with the source's own rotation tables. */
  function Undo(q: Player, a: Action): (r: Player)
    ensures r.x == q.x && r.y == q.y && r.active == q.active && r.stepCounter == q.stepCounter
    ensures a.TurnLeft? ==> RotateLeft(r.direction) == q.direction && r.speed == q.speed
    ensures a.TurnRight? ==> RotateRight(r.direction) == q.direction && r.speed == q.speed
    ensures a.SpeedUp? ==> r.speed + 1 == q.speed && r.direction == q.direction
    ensures a.SlowDown? ==> r.speed - 1 == q.speed && r.direction == q.direction
    ensures a.ChangeNothing? ==> r == q
  {
    match a
    case TurnLeft =>
      q.(direction := match q.direction case Left => Up case Right => Down case Up => Right case Down => Left)
    case TurnRight =>
      q.(direction := match q.direction case Left => Down case Right => Up case Up => Left case Down => Right)
    case SpeedUp => q.(speed := q.speed - 1)
    case SlowDown => q.(speed := q.speed + 1)
    case ChangeNothing => q
  }

  /** Undoing an applied action gives back the player it was applied to. */
  lemma UndoApply(p: Player, a: Action)
    requires Apply(p, a).Some?
    ensures Undo(Apply(p, a).value, a) == p
  {
    RotationsInvert(p.direction);
  }

  // ---------------------------------------------------------------- the answer

  /** What the loop learns about one action: a skipped action counts like a sure crash,
      since it neither answers nor becomes the fallback. */
  function Risk(b: Board, p: Player, a: Action): CrashRisk
    requires b.Valid()
  {
    match Apply(p, a)
    case None => SureCrash
    case Some(q) => WillCrash(b, q)
  }

  /** The loop over the shuffled actions from position i, fallback being the last
      action with a possible crash seen so far. */
  function Scan(b: Board, p: Player, acts: seq<Action>, i: nat, fallback: Option<Action>): (r: Action)
    requires b.Valid() && |acts| > 0
    ensures forall k :: (i <= k < |acts| && Risk(b, p, acts[k]) == NoCrash
                         && forall j :: i <= j < k ==> Risk(b, p, acts[j]) != NoCrash) ==> r == acts[k]
    ensures forall k :: (i <= k < |acts| && Risk(b, p, acts[k]) == MaybeCrash
                         && (forall j :: i <= j < |acts| ==> Risk(b, p, acts[j]) != NoCrash)
                         && forall j :: k < j < |acts| ==> Risk(b, p, acts[j]) != MaybeCrash) ==> r == acts[k]
    ensures (forall j :: i <= j < |acts| ==> Risk(b, p, acts[j]) == SureCrash) ==>
              r == if fallback.Some? then fallback.value else acts[0]
    decreases |acts| - i
  {
    if i >= |acts| then (if fallback.Some? then fallback.value else acts[0])
    else
      match Risk(b, p, acts[i])
      case NoCrash => acts[i]
      case MaybeCrash => Scan(b, p, acts, i + 1, Some(acts[i]))
      case SureCrash => Scan(b, p, acts, i + 1, fallback)
  }

  /** GetState: in a running game (the own active flag is not read), the scan of the
      shuffled actions on the board with the other players' dead zones. */
  function GetState(g: View, order: seq<int>, shuffled: seq<Action>): (r: Option<Action>)
    requires g.board.Valid() && g.you in g.players
    requires multiset(shuffled) == multiset(SlowActions)
    ensures r.Some? <==> g.running
    ensures r.Some? ==> r.value == TurnLeft || r.value == TurnRight || r.value == ChangeNothing
  {
    if !g.running then None
    else
      ShuffledIsSlow(shuffled);
      var r := Scan(DeadZones(g.board, g.players, g.you, order), g.players[g.you], shuffled, 0, None);
      ScanPicksFrom(DeadZones(g.board, g.players, g.you, order), g.players[g.you], shuffled, 0, None);
      Some(r)
  }

  /** A shuffle of the ten candidates holds ten turns or change_nothing. */
  lemma ShuffledIsSlow(shuffled: seq<Action>)
    requires multiset(shuffled) == multiset(SlowActions)
    ensures |shuffled| == 10
    ensures forall a :: a in shuffled ==> a == TurnLeft || a == TurnRight || a == ChangeNothing
  {
    assert |shuffled| == |multiset(shuffled)| == 10;
    forall a | a in shuffled
      ensures a == TurnLeft || a == TurnRight || a == ChangeNothing
    {
      assert a in multiset(shuffled);
      assert a in SlowActions;
    }
  }

  /** The answer is one of the scanned actions. */
  lemma {:induction false} ScanPicksFrom(b: Board, p: Player, acts: seq<Action>, i: nat, fallback: Option<Action>)
    requires b.Valid() && |acts| > 0
    requires fallback.Some? ==> fallback.value in acts
    ensures Scan(b, p, acts, i, fallback) in acts
    decreases |acts| - i
  {
    if i < |acts| {
      ScanPicksFrom(b, p, acts, i + 1, if Risk(b, p, acts[i]) == MaybeCrash then Some(acts[i]) else fallback);
    }
  }

  /** A move that the scan reports safe does not crash on the board it looked at. */
  lemma SafeAnswerSurvives(g: View, order: seq<int>, shuffled: seq<Action>, k: nat)
    requires g.board.Valid() && g.you in g.players && g.running
    requires multiset(shuffled) == multiset(SlowActions)
    requires k < |shuffled|
    requires var b := DeadZones(g.board, g.players, g.you, order);
             Risk(b, g.players[g.you], shuffled[k]) == NoCrash
    ensures var b := DeadZones(g.board, g.players, g.you, order);
            Progress(b, g.players[g.you], shuffled[k]).outcome != Crashed
  {
    ShuffledIsSlow(shuffled);
    assert shuffled[k] in shuffled;
    WillCrashAgreesWithProgress(DeadZones(g.board, g.players, g.you, order), g.players[g.you], shuffled[k]);
  }
}
