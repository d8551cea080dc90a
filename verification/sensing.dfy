/** Probes of the board around the own player that several bots share: a free
    neighbour, the free run of a ray, the wall-following rule of the snail bots, the
    small-area test and the escape ladder for high speeds. */
module Sensing {
  import opened Wrappers
  import opened Rules
  import opened Lookahead

  // ---------------------------------------------------------------- rays

  /** No cell of a ray from (x, y) that is this far out or further is inside b. */
  function RayBound(b: Board, x: int, y: int): (r: int)
    ensures r >= 0
    ensures forall d, k :: k >= r ==> !b.Contains(PathCell(x, y, d, k))
  {
    (if x < 0 then -x else x) + (if y < 0 then -y else y) + (if b.width < 0 then 0 else b.width)
      + (if b.height < 0 then 0 else b.height)
  }

  /** The number of free cells a ray from (x, y) heading d passes before it meets an
      occupied cell or the border, counting from step k. */
  function FreeRunFrom(b: Board, x: int, y: int, d: Direction, k: nat): (r: nat)
    requires b.Valid()
    ensures k <= r
    ensures forall j :: k <= j < r ==> b.IsFree(PathCell(x, y, d, j))
    ensures !b.IsFree(PathCell(x, y, d, r))
    decreases RayBound(b, x, y) - k
  {
    if b.IsFree(PathCell(x, y, d, k)) then FreeRunFrom(b, x, y, d, k + 1) else k
  }

  /** GetFree: the length of the free stretch in front of (x, y) heading d. */
  function FreeRun(b: Board, x: int, y: int, d: Direction): (r: nat)
    requires b.Valid()
    ensures forall j :: 0 <= j < r ==> b.IsFree(PathCell(x, y, d, j))
    ensures !b.IsFree(PathCell(x, y, d, r))
  {
    FreeRunFrom(b, x, y, d, 0)
  }

  /** The first n cells of the ray from (x, y) heading d are inside the board and
      free; the probe loop stops at the first cell that is not. */
  function ClearRun(b: Board, x: int, y: int, d: Direction, n: int): (r: bool)
    requires b.Valid()
    ensures r <==> forall k :: 0 <= k < n ==> b.IsFree(PathCell(x, y, d, k))
  {
    n <= FreeRun(b, x, y, d)
  }

  // ---------------------------------------------------------------- the escape ladder

  /** The heading the escape ladder walks to test turn_left, by the source's table. */
  function LeftProbe(d: Direction): (r: Direction)
    ensures r == RotateRight(d)
  {
    match d
    case Left => Up
    case Right => Down
    case Down => Left
    case Up => Right
  }

  /** The heading the escape ladder walks to test turn_right, by the source's table. */
  function RightProbe(d: Direction): (r: Direction)
    ensures r == RotateLeft(d)
  {
    match d
    case Right => Up
    case Left => Down
    case Up => Left
    case Down => Right
  }

  /** The escape ladder of the meta bot and the jumping largest-free bot, as the source
      writes it: the probe for turn_left walks along the heading a right turn gives,
      and the probe for turn_right along the heading a left turn gives. */
  function EscapeAsWritten(b: Board, p: Player): (r: Action)
    requires b.Valid()
    ensures r == SlowDown || r == TurnLeft || r == TurnRight
    ensures r == TurnLeft <==>
              !ClearRun(b, p.x, p.y, p.direction, p.speed - 1)
              && ClearRun(b, p.x, p.y, RotateRight(p.direction), p.speed)
    ensures r == TurnRight <==>
              && !ClearRun(b, p.x, p.y, p.direction, p.speed - 1)
              && !ClearRun(b, p.x, p.y, RotateRight(p.direction), p.speed)
              && ClearRun(b, p.x, p.y, RotateLeft(p.direction), p.speed)
  {
    if ClearRun(b, p.x, p.y, p.direction, p.speed - 1) then SlowDown
    else if ClearRun(b, p.x, p.y, LeftProbe(p.direction), p.speed) then TurnLeft
    else if ClearRun(b, p.x, p.y, RightProbe(p.direction), p.speed) then TurnRight
    else SlowDown
  }

  /** The escape ladder with each turn probing the cells that turn moves over: slow
      down when the shorter move is clear, else turn where the whole move is clear,
      else slow down anyway. */
  function Escape(b: Board, p: Player): (r: Action)
    requires b.Valid()
    ensures r == SlowDown || r == TurnLeft || r == TurnRight
    ensures r == TurnLeft <==>
              !ClearRun(b, p.x, p.y, p.direction, p.speed - 1)
              && ClearRun(b, p.x, p.y, RotateLeft(p.direction), p.speed)
    ensures r == TurnRight <==>
              && !ClearRun(b, p.x, p.y, p.direction, p.speed - 1)
              && !ClearRun(b, p.x, p.y, RotateLeft(p.direction), p.speed)
              && ClearRun(b, p.x, p.y, RotateRight(p.direction), p.speed)
  {
    if ClearRun(b, p.x, p.y, p.direction, p.speed - 1) then SlowDown
    else if ClearRun(b, p.x, p.y, RotateLeft(p.direction), p.speed) then TurnLeft
    else if ClearRun(b, p.x, p.y, RotateRight(p.direction), p.speed) then TurnRight
    else SlowDown
  }

  /** A move whose every step lands on a free cell does not crash. */
  lemma ClearMoveSurvives(b: Board, p: Player, a: Action)
    requires b.Valid() && !Overspeed(p, a)
    requires var q := Moving(p, a); ClearRun(b, p.x, p.y, q.direction, q.speed)
    ensures Progress(b, p, a).outcome != Crashed
  {
    var q := Moving(p, a);
    ProgressOutcome(b, p, a);
    forall k | 0 <= k < q.speed ensures !Blocked(b, q, k) {
      assert b.IsFree(PathCell(q.x, q.y, q.direction, k));
    }
  }

  /** Whatever the corrected ladder picks on one of its first three rungs, the move
      does not crash; only the last rung (slow down with nothing clear) may. */
  lemma EscapeSurvives(b: Board, p: Player)
    requires b.Valid() && 2 <= p.speed <= MaxSpeed
    requires Escape(b, p) != SlowDown || ClearRun(b, p.x, p.y, p.direction, p.speed - 1)
    ensures Progress(b, p, Escape(b, p)).outcome != Crashed
  {
    ClearMoveSurvives(b, p, Escape(b, p));
  }

  /** The ladder as written sends turn_left into a wall: the player at (1, 1) heading
      up at speed 2 on a 4 x 3 board with (1, 0) occupied has room on its right only;
      the probe accepts turn_left, that move leaves the board, and the corrected
      ladder turns right instead. */
  lemma EscapeAsWrittenTurnsIntoWall()
    ensures var b := Board(4, 3, [[0, 1, 0, 0], [0, 1, 0, 0], [0, 0, 0, 0]]);
            var p := Player(1, 1, Up, 2, true, 0);
            && b.Valid()
            && EscapeAsWritten(b, p) == TurnLeft
            && Progress(b, p, TurnLeft).outcome == Crashed
            && Escape(b, p) == TurnRight
            && Progress(b, p, TurnRight).outcome != Crashed
  {
    var b := Board(4, 3, [[0, 1, 0, 0], [0, 1, 0, 0], [0, 0, 0, 0]]);
    var p := Player(1, 1, Up, 2, true, 0);
    assert !b.IsFree(PathCell(1, 1, Up, 0));
    assert !ClearRun(b, 1, 1, Up, 1);
    assert b.IsFree(PathCell(1, 1, Right, 0)) && b.IsFree(PathCell(1, 1, Right, 1));
    assert ClearRun(b, 1, 1, Right, 2);
    assert !b.IsFree(PathCell(1, 1, Left, 1));
    assert !ClearRun(b, 1, 1, Left, 2);
    ProgressOutcome(b, p, TurnLeft);
    assert Blocked(b, Moving(p, TurnLeft), 1);
    ClearMoveSurvives(b, p, TurnRight);
  }

  // ---------------------------------------------------------------- wall following

  /** The side a snail bot keeps its hand on; drawn once per bot. */
  datatype Hand = HandLeft | HandRight

  /** The hand kept so far, or the one a coin picks (heads is rand.Float32() < 0.5);
      the snail bots draw it on the first state they see and keep it. */
  function ChooseHand(kept: Option<Hand>, heads: bool): (r: Hand)
    ensures kept.Some? ==> r == kept.value
    ensures kept.None? ==> (r == HandLeft <==> heads)
  {
    match kept
    case Some(h) => h
    case None => if heads then HandLeft else HandRight
  }

  /** The order in which the snail bots try their actions: the far side first, then
      straight on, then the near side. */
  function Preference(hand: Hand): (r: seq<Action>)
    ensures |r| == 3 && r[1] == ChangeNothing
    ensures forall i, j :: 0 <= i < j < 3 ==> r[i] != r[j]
  {
    match hand
    case HandLeft => [TurnRight, ChangeNothing, TurnLeft]
    case HandRight => [TurnLeft, ChangeNothing, TurnRight]
  }

  /** The neighbour the player faces after the action turns it is free. */
  predicate OpensOnto(b: Board, p: Player, a: Action)
  {
    b.IsFree(Next(p.x, p.y, Steer(p, a).direction))
  }

  /** The first action of acts whose neighbour is free. */
  function FirstOpen(b: Board, p: Player, acts: seq<Action>): (r: Option<Action>)
    ensures r.Some? ==> r.value in acts && OpensOnto(b, p, r.value)
    ensures forall i :: (0 <= i < |acts| && OpensOnto(b, p, acts[i]) &&
                         (forall j :: 0 <= j < i ==> !OpensOnto(b, p, acts[j]))) ==> r == Some(acts[i])
    ensures r.None? <==> forall i :: 0 <= i < |acts| ==> !OpensOnto(b, p, acts[i])
    decreases |acts|
  {
    if |acts| == 0 then None
    else if OpensOnto(b, p, acts[0]) then Some(acts[0])
    else
      var r := FirstOpen(b, p, acts[1..]);
      assert forall i :: 1 <= i < |acts| ==> acts[i] == acts[1..][i - 1];
      r
  }

  /** getSnailAction: the first action in the order of the hand whose next cell is
      free, or nothing when the player is boxed in on all three sides. */
  function SnailAction(b: Board, p: Player, hand: Hand): (r: Option<Action>)
    ensures r.Some? ==> r.value in Preference(hand) && OpensOnto(b, p, r.value)
    ensures r.None? <==> forall a :: a in Preference(hand) ==> !OpensOnto(b, p, a)
  {
    FirstOpen(b, p, Preference(hand))
  }

  /** With the hand on the left the bot turns right whenever it can, and with the hand
      on the right it turns left whenever it can. */
  lemma SnailPrefersFarSide(b: Board, p: Player)
    ensures OpensOnto(b, p, TurnRight) ==> SnailAction(b, p, HandLeft) == Some(TurnRight)
    ensures OpensOnto(b, p, TurnLeft) ==> SnailAction(b, p, HandRight) == Some(TurnLeft)
  {
  }

  /** At speed 1 the snail's action never crashes: the single step lands on the free
      cell the rule looked at. */
  lemma SnailActionSurvivesAtSpeedOne(b: Board, p: Player, hand: Hand)
    requires b.Valid() && p.speed == 1 && SnailAction(b, p, hand).Some?
    ensures Progress(b, p, SnailAction(b, p, hand).value).outcome != Crashed
  {
    var a := SnailAction(b, p, hand).value;
    PathFacts(p.x, p.y, Steer(p, a).direction);
    ClearMoveSurvives(b, p, a);
  }

  // ---------------------------------------------------------------- the small-area test

  /** The four neighbours of (x, y): right, left, below, above. */
  function Neighbours(x: int, y: int): seq<Cell>
  {
    [Cell(x + 1, y), Cell(x - 1, y), Cell(x, y + 1), Cell(x, y - 1)]
  }

  /** A neighbour counts as open when it is outside the board or free. */
  predicate Open(b: Board, c: Cell)
    requires b.Valid()
  {
    !b.Contains(c) || b.At(c) == 0
  }

  /** isInSmallArea: at most one of the four neighbours is open. Cells outside the
      board count as open, as in the source. */
  function InSmallArea(b: Board, x: int, y: int): (r: bool)
    requires b.Valid()
    ensures r <==> forall i, j :: 0 <= i < j < 4 && Open(b, Neighbours(x, y)[i]) ==> !Open(b, Neighbours(x, y)[j])
  {
    var n := Neighbours(x, y);
    var count := (if Open(b, n[0]) then 1 else 0) + (if Open(b, n[1]) then 1 else 0)
                 + (if Open(b, n[2]) then 1 else 0) + (if Open(b, n[3]) then 1 else 0);
    count <= 1
  }
}
