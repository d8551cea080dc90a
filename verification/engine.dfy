/** The round logic of the spe_ed server: answers become actions, every active
    player moves `speed` cells leaving a trail (with holes), players that hit a
    collision are removed, and the game ends when at most one player is left. */
module Engine {
  import opened Wrappers
  import opened Rules

  /** The part of a running game the round logic reads and writes. open[i - 1]
      stands for the (non-nil) input channel of player i. */
  datatype GameState = GameState(board: Board, players: map<int, Player>, open: seq<bool>)

  /** Invariant of a running game: ids are 1..PlayersPerGame and every active
      player sits inside the board with a legal speed. */
  predicate WellFormed(g: GameState)
  {
    && g.board.Valid()
    && |g.open| == PlayersPerGame
    && (forall i :: i in g.players ==> 1 <= i <= PlayersPerGame)
    && (forall i :: i in g.players && g.players[i].active ==>
          g.board.InBoard(g.players[i].x, g.players[i].y) && 1 <= g.players[i].speed <= MaxSpeed)
  }

  /** invalidatePlayer: the player becomes inactive and its input slot is closed;
      an unknown id changes nothing. */
  function Invalidate(g: GameState, id: int): (r: GameState)
    requires |g.open| == PlayersPerGame
    requires id in g.players ==> 1 <= id <= PlayersPerGame
    ensures r.board == g.board && r.players.Keys == g.players.Keys && |r.open| == |g.open|
    ensures id in g.players ==> !r.players[id].active && !r.open[id - 1]
    ensures forall i :: i in g.players && i != id ==> r.players[i] == g.players[i]
    ensures forall j :: 0 <= j < |g.open| && j != id - 1 ==> r.open[j] == g.open[j]
    ensures id !in g.players ==> r == g
  {
    if id !in g.players then g
    else GameState(g.board, g.players[id := g.players[id].(active := false)], g.open[id - 1 := false])
  }

  // ---------------------------------------------------------------------------
  // Processing the answers

  /** One player's answer: the new record and whether the player is invalidated.
      "", an unknown answer, speed_up past MaxSpeed and slow_down below 1 invalidate. */
  function ApplyAnswer(p: Player, answer: string): (r: (Player, bool))
    ensures r.1 <==> ParseAction(answer).None? || Overspeed(p, ParseAction(answer).value)
    ensures r.0.active <==> p.active && !r.1
    ensures r.0.x == p.x && r.0.y == p.y && r.0.stepCounter == p.stepCounter
    ensures ParseAction(answer) == Some(ChangeNothing) ==> r.0 == p
    ensures ParseAction(answer) == Some(TurnLeft) ==>
              r.0.direction == RotateLeft(p.direction) && r.0.speed == p.speed
    ensures ParseAction(answer) == Some(TurnRight) ==>
              r.0.direction == RotateRight(p.direction) && r.0.speed == p.speed
    ensures ParseAction(answer) == Some(SpeedUp) ==> r.0.speed == p.speed + 1
    ensures ParseAction(answer) == Some(SlowDown) ==> r.0.speed == p.speed - 1
    ensures r.0.active && 1 <= p.speed <= MaxSpeed ==> 1 <= r.0.speed <= MaxSpeed
  {
    ApplyParsed(p, ParseAction(answer))
  }

  /** ApplyAnswer once the answer is parsed; None stands for an unknown answer. */
  function ApplyParsed(p: Player, parsed: Option<Action>): (r: (Player, bool))
    ensures r.1 <==> parsed.None? || Overspeed(p, parsed.value)
    ensures r.0.active <==> p.active && !r.1
    ensures r.0.x == p.x && r.0.y == p.y && r.0.stepCounter == p.stepCounter
    ensures parsed == Some(ChangeNothing) ==> r.0 == p
    ensures r.0.active && 1 <= p.speed <= MaxSpeed ==> 1 <= r.0.speed <= MaxSpeed
  {
    match parsed
    case None => (p.(active := false), true)
    case Some(a) =>
      var q := Steer(p, a);
      if Overspeed(p, a) then (q.(active := false), true) else (q, false)
  }

  /** The answers of the input slots, parsed. */
  function ParseAll(answers: seq<string>): (r: seq<Option<Action>>)
    ensures |r| == |answers|
    ensures forall j :: 0 <= j < |answers| ==> r[j] == ParseAction(answers[j])
  {
    seq(|answers|, j requires 0 <= j < |answers| => ParseAction(answers[j]))
  }

  /** The action loop of a round. Each iteration touches only its own player and
      input slot, so the Go map's iteration order does not matter. */
  function ProcessAnswers(g: GameState, parsed: seq<Option<Action>>): (r: GameState)
    requires |g.open| == PlayersPerGame && |parsed| == PlayersPerGame
    requires forall i :: i in g.players ==> 1 <= i <= PlayersPerGame
    ensures r.board == g.board && r.players.Keys == g.players.Keys && |r.open| == PlayersPerGame
    ensures forall i :: i in g.players ==> r.players[i] == ApplyParsed(g.players[i], parsed[i - 1]).0
  {
    GameState(g.board, AnsweredPlayers(g.players, parsed), AnsweredOpen(g, parsed))
  }

  /** Every player record after its own parsed answer. */
  function AnsweredPlayers(players: map<int, Player>, parsed: seq<Option<Action>>): (r: map<int, Player>)
    requires |parsed| == PlayersPerGame
    requires forall i :: i in players ==> 1 <= i <= PlayersPerGame
    ensures r.Keys == players.Keys
    ensures forall i :: i in players ==> r[i] == ApplyParsed(players[i], parsed[i - 1]).0
  {
    map i | i in players :: ApplyParsed(players[i], parsed[i - 1]).0
  }

  /** The input slots after the answers: a slot closes when its player is invalidated. */
  function AnsweredOpen(g: GameState, parsed: seq<Option<Action>>): (r: seq<bool>)
    requires |g.open| == PlayersPerGame && |parsed| == PlayersPerGame
    requires forall i :: i in g.players ==> 1 <= i <= PlayersPerGame
    ensures |r| == PlayersPerGame
  {
    seq(PlayersPerGame, j requires 0 <= j < PlayersPerGame =>
      g.open[j] && !(j + 1 in g.players && ApplyParsed(g.players[j + 1], parsed[j]).1))
  }

  /** After the actions every player still active has a speed in [1, MaxSpeed]. */
  lemma ProcessAnswersKeepsSpeed(g: GameState, parsed: seq<Option<Action>>)
    requires WellFormed(g) && |parsed| == PlayersPerGame
    ensures WellFormed(ProcessAnswers(g, parsed))
    ensures forall i :: i in g.players && ProcessAnswers(g, parsed).players[i].active ==>
              g.players[i].active && 1 <= ProcessAnswers(g, parsed).players[i].speed <= MaxSpeed
    ensures forall i :: i in g.players && parsed[i - 1].None? ==>
              !ProcessAnswers(g, parsed).players[i].active
  {
    var r := ProcessAnswers(g, parsed);
    forall i | i in g.players
      ensures r.players[i].active ==> g.players[i].active && 1 <= r.players[i].speed <= MaxSpeed
      ensures r.players[i].active ==> g.board.InBoard(r.players[i].x, r.players[i].y)
    {
    }
  }

  // ---------------------------------------------------------------------------
  // Movement

  /** A trail mark: a free cell takes the player's id, anything else becomes a collision. */
  function Mark(prev: int, id: int): int
  {
    if prev != 0 then Collision else id
  }

  /** The value a cell has after the steps s.. of the move of q. */
  function TrailValue(b: Board, id: int, q: Player, s: nat, x: int, y: int): int
    requires b.Valid() && b.InBoard(x, y)
  {
    var k := RayIndex(q.x, q.y, q.direction, Cell(x, y));
    if s <= k < q.speed && !IsHole(q.speed, q.stepCounter, k) then Mark(b.Get(x, y), id) else b.Get(x, y)
  }

  /** A cell that some non-hole step s.. of the move lands on takes the trail mark; a
      cell that only hole steps, or no step, land on keeps its value. */
  lemma TrailValueOnPath(b: Board, id: int, q: Player, s: nat, x: int, y: int)
    requires b.Valid() && b.InBoard(x, y)
    ensures (exists k :: s <= k < q.speed && !IsHole(q.speed, q.stepCounter, k)
                         && PathCell(q.x, q.y, q.direction, k) == Cell(x, y))
            ==> TrailValue(b, id, q, s, x, y) == Mark(b.Get(x, y), id)
    ensures (forall k :: s <= k < q.speed && PathCell(q.x, q.y, q.direction, k) == Cell(x, y)
                         ==> IsHole(q.speed, q.stepCounter, k))
            ==> TrailValue(b, id, q, s, x, y) == b.Get(x, y)
  {
    var k := RayIndex(q.x, q.y, q.direction, Cell(x, y));
    if s <= k < q.speed && !IsHole(q.speed, q.stepCounter, k) {
      assert PathCell(q.x, q.y, q.direction, k) == Cell(x, y);
    }
  }

  lemma RayOutAll(b: Board, x: int, y: int, d: Direction, j: int)
    requires b.InBoard(x, y) && 0 <= j && !b.Contains(PathCell(x, y, d, j))
    ensures forall k :: k >= j ==> !b.Contains(PathCell(x, y, d, k))
  {
    forall k | k >= j ensures !b.Contains(PathCell(x, y, d, k)) {
      RayLeavesForGood(b, x, y, d, j, k);
    }
  }

  /** Steps s.. of the move of q, whose step counter is already incremented. The
      cell of step k is PathCell(.., k), reached by k + 1 one-cell steps. Returns
      the board and the step that left the board, if any. */
  function MoveSteps(b: Board, id: int, q: Player, s: nat): (r: (Board, Option<nat>))
    requires b.Valid() && b.InBoard(q.x, q.y)
    ensures r.0.Valid() && r.0.width == b.width && r.0.height == b.height
    ensures r.1.Some? <==> s < q.speed && !b.Contains(PathCell(q.x, q.y, q.direction, q.speed - 1))
    ensures r.1.Some? ==> s <= r.1.value < q.speed && !b.Contains(PathCell(q.x, q.y, q.direction, r.1.value))
    ensures r.1.Some? ==> forall j :: s <= j < r.1.value ==> b.Contains(PathCell(q.x, q.y, q.direction, j))
    decreases q.speed - s
  {
    if s >= q.speed then (b, None)
    else
      var c := PathCell(q.x, q.y, q.direction, s);
      if !b.Contains(c) then
        RayOutAll(b, q.x, q.y, q.direction, s);
        (b, Some(s))
      else if IsHole(q.speed, q.stepCounter, s) then
        MoveSteps(b, id, q, s + 1)
      else
        MoveSteps(b.Set(c.x, c.y, Mark(b.At(c), id)), id, q, s + 1)
  }

  /** Steps s.. of a move write exactly the trail values of those steps. */
  lemma {:induction false} MoveStepsTrail(b: Board, id: int, q: Player, s: nat)
    requires b.Valid() && b.InBoard(q.x, q.y)
    ensures forall x, y :: b.InBoard(x, y) ==> MoveSteps(b, id, q, s).0.Get(x, y) == TrailValue(b, id, q, s, x, y)
    decreases q.speed - s
  {
    if s < q.speed {
      var c := PathCell(q.x, q.y, q.direction, s);
      if !b.Contains(c) {
        RayOutAll(b, q.x, q.y, q.direction, s);
      } else if IsHole(q.speed, q.stepCounter, s) {
        MoveStepsTrail(b, id, q, s + 1);
      } else {
        var b' := b.Set(c.x, c.y, Mark(b.At(c), id));
        MoveStepsTrail(b', id, q, s + 1);
        forall x, y | b.InBoard(x, y)
          ensures MoveSteps(b, id, q, s).0.Get(x, y) == TrailValue(b, id, q, s, x, y)
        {
          if RayIndex(q.x, q.y, q.direction, Cell(x, y)) == s {
            assert Cell(x, y) == c;
          }
        }
      }
    }
  }

  /** The move of one active player in a round: the step counter rises by one, the
      player advances along its heading, and leaving the board makes it inactive. */
  function MovePlayer(b: Board, id: int, p: Player): (r: (Board, Player))
    requires b.Valid() && b.InBoard(p.x, p.y) && p.active
    ensures r.0.Valid() && r.0.width == b.width && r.0.height == b.height
    ensures r.1.stepCounter == p.stepCounter + 1
    ensures r.1.speed == p.speed && r.1.direction == p.direction
    ensures r.1.active <==> p.speed <= 0 || b.Contains(PathCell(p.x, p.y, p.direction, p.speed - 1))
    ensures r.1.active ==> b.InBoard(r.1.x, r.1.y)
    ensures r.1.active && p.speed >= 1 ==> Cell(r.1.x, r.1.y) == PathCell(p.x, p.y, p.direction, p.speed - 1)
  {
    var q := p.(stepCounter := p.stepCounter + 1);
    var (b', exit) := MoveSteps(b, id, q, 0);
    match exit
    case Some(e) =>
      var c := PathCell(q.x, q.y, q.direction, e);
      (b', q.(x := c.x, y := c.y, active := false))
    case None =>
      if q.speed >= 1 then
        var c := PathCell(q.x, q.y, q.direction, q.speed - 1);
        (b', q.(x := c.x, y := c.y))
      else (b', q)
  }

  /** A player that stays on the board advances exactly one cell per unit of speed
      in its heading. */
  lemma MoveAdvancesBySpeed(b: Board, id: int, p: Player)
    requires b.Valid() && b.InBoard(p.x, p.y) && p.active && p.speed >= 0
    ensures var q := MovePlayer(b, id, p).1;
            q.active ==> q.x == p.x + p.speed * Dx(p.direction) && q.y == p.y + p.speed * Dy(p.direction)
  {
  }

  /** The trail of a move: every cell of the path that is not a hole becomes the id if
      it was free and a collision otherwise; every other cell keeps its value. */
  lemma MoveTrail(b: Board, id: int, p: Player)
    requires b.Valid() && b.InBoard(p.x, p.y) && p.active
    ensures forall x, y :: b.InBoard(x, y) ==>
              MovePlayer(b, id, p).0.Get(x, y) ==
                (var k := RayIndex(p.x, p.y, p.direction, Cell(x, y));
                 if 0 <= k < p.speed && !IsHole(p.speed, p.stepCounter + 1, k)
                 then Mark(b.Get(x, y), id) else b.Get(x, y))
  {
    var q := p.(stepCounter := p.stepCounter + 1);
    MoveStepsTrail(b, id, q, 0);
    var b' := MoveSteps(b, id, q, 0).0;
    assert MovePlayer(b, id, p).0 == b';
    forall x, y | b.InBoard(x, y)
      ensures b'.Get(x, y) ==
                (var k := RayIndex(p.x, p.y, p.direction, Cell(x, y));
                 if 0 <= k < p.speed && !IsHole(p.speed, p.stepCounter + 1, k)
                 then Mark(b.Get(x, y), id) else b.Get(x, y))
    {
      assert b'.Get(x, y) == TrailValue(b, id, q, 0, x, y);
    }
  }

  /** The move of player id within the game state; a player that leaves the board
      is invalidated. */
  function MoveOne(g: GameState, id: int): (r: GameState)
    requires WellFormed(g) && id in g.players && g.players[id].active
    ensures WellFormed(r)
    ensures r.players.Keys == g.players.Keys
    ensures r.board.width == g.board.width && r.board.height == g.board.height
    ensures forall i :: i in g.players ==> r.players[i].speed == g.players[i].speed
    ensures forall i :: i in g.players && r.players[i].active ==> g.players[i].active
    ensures forall i :: i in g.players && i != id ==> r.players[i] == g.players[i]
    ensures r.players[id].active ==> Moved(g.players[id], r.players[id], g.board.width, g.board.height)
  {
    var (b', p') := MovePlayer(g.board, id, g.players[id]);
    var open' := if p'.active then g.open else g.open[id - 1 := false];
    GameState(b', g.players[id := p'], open')
  }

  /** q is p after a move that stayed inside a board of width w and height h. */
  predicate Moved(p: Player, q: Player, w: int, h: int)
  {
    var e := PathCell(p.x, p.y, p.direction, p.speed - 1);
    && 0 <= p.x < w && 0 <= p.y < h && 1 <= p.speed
    && 0 <= e.x < w && 0 <= e.y < h
    && q.speed == p.speed && q.direction == p.direction && q.stepCounter == p.stepCounter + 1
    && Cell(q.x, q.y) == e
  }

  /** The movement loop: players move one after another in the map's iteration order,
      which visits every id at most once. */
  function MoveAll(g: GameState, order: seq<int>): (r: GameState)
    requires WellFormed(g) && Distinct(order)
    requires forall i :: 0 <= i < |order| ==> order[i] in g.players
    ensures WellFormed(r)
    ensures r.players.Keys == g.players.Keys
    ensures r.board.width == g.board.width && r.board.height == g.board.height
    ensures forall i :: i in g.players ==> r.players[i].speed == g.players[i].speed
    ensures forall i :: i in g.players && r.players[i].active ==> g.players[i].active
    decreases |order|
  {
    if |order| == 0 then g
    else if !g.players[order[0]].active then MoveAll(g, order[1..])
    else MoveAll(MoveOne(g, order[0]), order[1..])
  }

  /** After the movement loop every player still active has moved by the movement
      rule. */
  lemma {:induction false} MoveAllMoves(g: GameState, order: seq<int>)
    requires WellFormed(g) && Distinct(order)
    requires forall i :: 0 <= i < |order| ==> order[i] in g.players
    ensures var r := MoveAll(g, order);
            forall j :: 0 <= j < |order| && r.players[order[j]].active ==>
              Moved(g.players[order[j]], r.players[order[j]], g.board.width, g.board.height)
    decreases |order|
  {
    if |order| > 0 {
      var id := order[0];
      var rest := order[1..];
      var g' := if g.players[id].active then MoveOne(g, id) else g;
      var r := MoveAll(g, order);
      assert r == MoveAll(g', rest);
      DistinctTail(order);
      MoveAllMoves(g', rest);
      MoveAllUntouched(g', rest);
      forall j | 0 <= j < |order| && r.players[order[j]].active
        ensures Moved(g.players[order[j]], r.players[order[j]], g.board.width, g.board.height)
      {
        if j == 0 {
          assert r.players[id] == g'.players[id];
        } else {
          assert order[j] == rest[j - 1];
          assert g'.players[order[j]] == g.players[order[j]];
        }
      }
    }
  }

  /** The movement loop leaves a player the order does not list untouched. */
  lemma {:induction false} MoveAllUntouched(g: GameState, order: seq<int>)
    requires WellFormed(g) && Distinct(order)
    requires forall i :: 0 <= i < |order| ==> order[i] in g.players
    ensures var r := MoveAll(g, order);
            forall i :: i in g.players && (forall j :: 0 <= j < |order| ==> order[j] != i) ==>
              r.players[i] == g.players[i]
    decreases |order|
  {
    if |order| > 0 {
      var id := order[0];
      var rest := order[1..];
      var g' := if g.players[id].active then MoveOne(g, id) else g;
      var r := MoveAll(g, order);
      assert r == MoveAll(g', rest);
      DistinctTail(order);
      MoveAllUntouched(g', rest);
      forall i | i in g.players && (forall j :: 0 <= j < |order| ==> order[j] != i)
        ensures r.players[i] == g.players[i]
      {
        assert forall j :: 0 <= j < |rest| ==> rest[j] == order[j + 1];
        assert i != id;
      }
    }
  }

  // ---------------------------------------------------------------------------
  // Crash check

  /** The cell s steps back from (x, y) against heading d. */
  function BackCell(x: int, y: int, d: Direction, s: int): Cell
  {
    match d
    case Up => Cell(x, y + s)
    case Down => Cell(x, y - s)
    case Left => Cell(x + s, y)
    case Right => Cell(x - s, y)
  }

  /** Walks back over the cells of the last move from the final position and
      reports a collision on a non-hole cell. */
  function BackWalk(b: Board, p: Player, s: nat): (r: bool)
    requires b.Valid()
    ensures r <==> exists k :: s <= k < p.speed && b.Contains(BackCell(p.x, p.y, p.direction, k))
                              && b.At(BackCell(p.x, p.y, p.direction, k)) == Collision
                              && !IsHole(p.speed, p.stepCounter, k)
    decreases p.speed - s
  {
    if s >= p.speed then false
    else
      var c := BackCell(p.x, p.y, p.direction, s);
      if b.Contains(c) && b.At(c) == Collision && !IsHole(p.speed, p.stepCounter, s) then true
      else BackWalk(b, p, s + 1)
  }

  /** Walking back s steps from the end of a move of `speed` cells visits the cell of
      forward step speed - 1 - s, and the hole rule treats both indices alike. */
  lemma BackCellIsPathCell(x: int, y: int, d: Direction, speed: int, sc: int, s: int)
    requires 0 <= s < speed
    ensures var e := PathCell(x, y, d, speed - 1);
            BackCell(e.x, e.y, d, s) == PathCell(x, y, d, speed - 1 - s)
    ensures IsHole(speed, sc, s) <==> IsHole(speed, sc, speed - 1 - s)
  {
  }

  /** The crash check of a moved player finds a collision exactly when some non-hole
      cell of its move this round holds a collision. */
  lemma {:induction false} BackWalkFindsCollision(b: Board, p: Player, q: Player, s: nat)
    requires b.Valid() && b.InBoard(p.x, p.y) && 1 <= p.speed
    requires b.Contains(PathCell(p.x, p.y, p.direction, p.speed - 1))
    requires q.speed == p.speed && q.direction == p.direction && q.stepCounter == p.stepCounter + 1
    requires Cell(q.x, q.y) == PathCell(p.x, p.y, p.direction, p.speed - 1)
    ensures BackWalk(b, q, s) <==>
              exists k :: 0 <= k < p.speed - s && PathCollision(b, p, k)
    decreases p.speed - s
  {
    if s >= p.speed {
    } else {
      var k0 := p.speed - 1 - s;
      BackCellIsPathCell(p.x, p.y, p.direction, p.speed, q.stepCounter, s);
      assert b.Contains(PathCell(p.x, p.y, p.direction, k0)) by {
        if !b.Contains(PathCell(p.x, p.y, p.direction, k0)) {
          RayLeavesForGood(b, p.x, p.y, p.direction, k0, p.speed - 1);
        }
      }
      BackWalkFindsCollision(b, p, q, s + 1);
      if PathCollision(b, p, k0) {
        assert BackWalk(b, q, s);
      } else {
        assert BackWalk(b, q, s) == BackWalk(b, q, s + 1);
        if exists k :: 0 <= k < p.speed - s && PathCollision(b, p, k) {
          var k :| 0 <= k < p.speed - s && PathCollision(b, p, k);
          assert k != k0;
        }
      }
    }
  }

  /** Step k of the move of p (counter not yet incremented) is a non-hole cell holding a collision. */
  predicate PathCollision(b: Board, p: Player, k: int)
    requires b.Valid()
  {
    var c := PathCell(p.x, p.y, p.direction, k);
    b.Contains(c) && b.At(c) == Collision && !IsHole(p.speed, p.stepCounter + 1, k)
  }

  predicate Crashed(g: GameState, i: int)
    requires g.board.Valid() && i in g.players
  {
    g.players[i].active && BackWalk(g.board, g.players[i], 0)
  }

  /** The crash loop: the board does not change while it runs, so each iteration
      decides its own player independently of the map's iteration order. */
  function CheckCrashes(g: GameState): (r: GameState)
    requires WellFormed(g)
    ensures WellFormed(r)
    ensures r.board == g.board && r.players.Keys == g.players.Keys
    ensures forall i :: i in g.players ==> (r.players[i].active <==> g.players[i].active && !BackWalk(g.board, g.players[i], 0))
  {
    var ps := map i | i in g.players :: if Crashed(g, i) then g.players[i].(active := false) else g.players[i];
    var open := seq(PlayersPerGame, j requires 0 <= j < PlayersPerGame =>
      g.open[j] && !(j + 1 in g.players && Crashed(g, j + 1)));
    GameState(g.board, ps, open)
  }

  // ---------------------------------------------------------------------------
  // End of round, end of game, winner

  /** checkEndRound: every open input slot holds a non-empty answer. */
  method CheckEndRound(open: seq<bool>, answers: seq<string>) returns (r: bool)
    ensures r <==> forall i :: 0 <= i < |open| && i < |answers| ==> (open[i] ==> answers[i] != "")
  {
    var t := |open|;
    if |answers| < t {
      t := |answers|;
    }
    var i := 0;
    while i < t
      invariant 0 <= i <= t
      invariant t == if |answers| < |open| then |answers| else |open|
      invariant forall j :: 0 <= j < i ==> (open[j] ==> answers[j] != "")
    {
      if open[i] && answers[i] == "" {
        return false;
      }
      i := i + 1;
    }
    return true;
  }

  function ActiveIds(players: map<int, Player>): set<int>
  {
    set i | i in players && players[i].active
  }

  /** checkEndGame: at most one player is still active. */
  method CheckEndGame(players: map<int, Player>) returns (r: bool)
    ensures r <==> |ActiveIds(players)| <= 1
  {
    var numberActive := 0;
    var rest := players.Keys;
    while rest != {}
      invariant rest <= players.Keys
      invariant numberActive == |ActiveIds(players) - rest|
      decreases rest
    {
      if forall e :: e !in rest {
        assert false;
      }
      var k :| k in rest;
      if players[k].active {
        assert ActiveIds(players) - (rest - {k}) == (ActiveIds(players) - rest) + {k};
        numberActive := numberActive + 1;
      } else {
        assert ActiveIds(players) - (rest - {k}) == ActiveIds(players) - rest;
      }
      rest := rest - {k};
    }
    assert ActiveIds(players) - rest == ActiveIds(players);
    return numberActive <= 1;
  }

  /** The winner: the first active player in iteration order, or -1. */
  function Winner(players: map<int, Player>, order: seq<int>): (r: int)
    requires forall i :: 0 <= i < |order| ==> order[i] in players && 1 <= order[i]
    ensures r == -1 || r in ActiveIds(players)
    ensures r == -1 ==> forall i :: 0 <= i < |order| ==> !players[order[i]].active
  {
    if |order| == 0 then -1
    else if players[order[0]].active then order[0]
    else Winner(players, order[1..])
  }

  /** When the game has ended the winner is the sole active player, whatever the
      iteration order, and -1 when nobody is left. */
  lemma WinnerIsSoleSurvivor(players: map<int, Player>, order: seq<int>)
    requires forall i :: 0 <= i < |order| ==> order[i] in players && 1 <= order[i]
    requires forall k :: k in players ==> exists i :: 0 <= i < |order| && order[i] == k
    requires |ActiveIds(players)| <= 1
    ensures Winner(players, order) == -1 <==> ActiveIds(players) == {}
    ensures Winner(players, order) != -1 ==> ActiveIds(players) == {Winner(players, order)}
  {
    var w := Winner(players, order);
    if w == -1 && ActiveIds(players) != {} {
      var k := Pick(ActiveIds(players));
    }
    if w != -1 && ActiveIds(players) != {w} {
      var k := Pick(ActiveIds(players) - {w});
      TwoMembers(ActiveIds(players), k, w);
    }
  }

  lemma TwoMembers(s: set<int>, a: int, b: int)
    requires a in s && b in s && a != b
    ensures |s| >= 2
  {
    assert s == (s - {a, b}) + {a, b};
    assert |{a, b}| == 2;
  }

  /** One round after the answers are in: actions, movement, crash check. */
  function Round(g: GameState, answers: seq<string>, order: seq<int>): (r: GameState)
    requires WellFormed(g) && |answers| == PlayersPerGame && Distinct(order)
    requires Enumerates(g.players, order)
    ensures WellFormed(r)
    ensures r.players.Keys == g.players.Keys
    ensures forall i :: i in r.players && r.players[i].active ==>
              g.players[i].active && 1 <= r.players[i].speed <= MaxSpeed
    ensures forall i :: i in g.players && ParseAction(answers[i - 1]).None? ==> !r.players[i].active
  {
    var parsed := ParseAll(answers);
    ProcessAnswersKeepsSpeed(g, parsed);
    var g1 := ProcessAnswers(g, parsed);
    var g2 := MoveAll(g1, order);
    var r := CheckCrashes(g2);
    assert forall i :: i in r.players && r.players[i].active ==> g2.players[i].active;
    r
  }

  /** The crash rule of a round (applied to the state after the actions): a player
      still on the board after the movement loop survives the crash check exactly when
      no non-hole cell of its move this round holds a collision once every player has moved. */
  lemma CrashRule(g: GameState, order: seq<int>, j: int)
    requires WellFormed(g) && Distinct(order)
    requires forall i :: 0 <= i < |order| ==> order[i] in g.players
    requires 0 <= j < |order|
    ensures var moved := MoveAll(g, order);
            var p := g.players[order[j]];
            CheckCrashes(moved).players[order[j]].active <==>
              moved.players[order[j]].active && !exists k :: 0 <= k < p.speed && PathCollision(moved.board, p, k)
  {
    var moved := MoveAll(g, order);
    var id := order[j];
    MoveAllMoves(g, order);
    if moved.players[id].active {
      BackWalkFindsCollision(moved.board, g.players[id], moved.players[id], 0);
    }
  }

  // ---------------------------------------------------------------------------
  // Initial board and start positions

  /** Board side from a draw of rand.Intn(FieldMaxSize - FieldMinSize). */
  function BoardSide(draw: int): (r: int)
    requires 0 <= draw < FieldMaxSize - FieldMinSize
    ensures FieldMinSize < r <= FieldMaxSize
  {
    draw + FieldMinSize + 1
  }

  /** Corner of start quarter n exactly as the source writes it. */
  function QuarterBaseAsWritten(n: int, qw: int, qh: int): (r: Cell)
    ensures 0 <= n < 7 ==> r.x == (n % 4) * qw && r.y == (n / 4) * qh
    ensures n == 7 ==> r.x == qw && r.y == 3 * qh
  {
    if n == 0 then Cell(0, 0)
    else if n == 1 then Cell(qw, 0)
    else if n == 2 then Cell(qw * 2, 0)
    else if n == 3 then Cell(qw * 3, 0)
    else if n == 4 then Cell(0, qh)
    else if n == 5 then Cell(qw, qh)
    else if n == 6 then Cell(qw * 2, qh)
    else if n == 7 then Cell(qw, qh * 3)
    else Cell(0, 0)
  }

  /** Quarter 7 as written lies below the board: any start cell drawn for it is outside. */
  lemma QuarterSevenOutsideBoard(w: int, h: int, ox: int, oy: int)
    requires FieldMinSize < w <= FieldMaxSize && FieldMinSize < h <= FieldMaxSize
    requires 0 <= ox < w / 4 && 0 <= oy < h / 2
    ensures var c := QuarterBaseAsWritten(7, w / 4, h / 2);
            !(0 <= c.x + ox < w && 0 <= c.y + oy < h)
  {
  }

  /** The eight quarters of the board: four on top, four below; quarter 7 is the
      bottom-right one. */
  function QuarterBase(n: int, qw: int, qh: int): (r: Cell)
    requires 0 <= n < 8
    ensures n < 7 ==> r == QuarterBaseAsWritten(n, qw, qh)
    ensures r.x == (n % 4) * qw && r.y == (n / 4) * qh
  {
    if n < 4 then Cell(n * qw, 0) else Cell((n - 4) * qw, qh)
  }

  /** The quarters are disjoint and inside the board. */
  lemma QuartersInsideAndDisjoint(w: int, h: int, n: int, m: int, a: Cell, c: Cell)
    requires FieldMinSize < w <= FieldMaxSize && FieldMinSize < h <= FieldMaxSize
    requires 0 <= n < 8 && 0 <= m < 8
    requires 0 <= a.x < w / 4 && 0 <= a.y < h / 2 && 0 <= c.x < w / 4 && 0 <= c.y < h / 2
    ensures var s := QuarterBase(n, w / 4, h / 2);
            0 <= s.x + a.x < w && 0 <= s.y + a.y < h
    ensures n != m ==>
              var s := QuarterBase(n, w / 4, h / 2);
              var t := QuarterBase(m, w / 4, h / 2);
              (s.x + a.x, s.y + a.y) != (t.x + c.x, t.y + c.y)
  {
    var qw := w / 4;
    var qh := h / 2;
    assert 10 <= qw && 20 <= qh;
    var s := QuarterBase(n, qw, qh);
    var t := QuarterBase(m, qw, qh);
    assert s.x + a.x < w by {
      assert s.x <= 3 * qw;
    }
    assert s.y + a.y < h by {
      assert s.y <= qh;
    }
  }

  /** The starting heading points into the board, away from the nearest edges. */
  function StartDirection(x: int, y: int, w: int, h: int): (d: Direction)
    requires FieldMinSize < w && FieldMinSize < h && 0 <= x < w && 0 <= y < h
    ensures 0 <= Next(x, y, d).x < w && 0 <= Next(x, y, d).y < h
  {
    if x > w / 2 && y > h / 2 then Up
    else if x <= w / 2 && y > h / 2 then Right
    else if x > w / 2 && y <= h / 2 then Left
    else Down
  }

  /** Start record of the n-th player in iteration order. */
  function StartPlayer(p: Player, n: int, w: int, h: int, offset: Cell): (r: Player)
    requires FieldMinSize < w <= FieldMaxSize && FieldMinSize < h <= FieldMaxSize
    requires 0 <= n < 8 && 0 <= offset.x < w / 4 && 0 <= offset.y < h / 2
    ensures r.active && r.speed == 1 && 0 <= r.x < w && 0 <= r.y < h
    ensures 0 <= Next(r.x, r.y, r.direction).x < w && 0 <= Next(r.x, r.y, r.direction).y < h
    ensures r.stepCounter == p.stepCounter
  {
    QuartersInsideAndDisjoint(w, h, n, n, offset, offset);
    var base := QuarterBase(n, w / 4, h / 2);
    var x := base.x + offset.x;
    var y := base.y + offset.y;
    p.(x := x, y := y, speed := 1, active := true, direction := StartDirection(x, y, w, h))
  }

  /** order lists exactly the keys of players. */
  predicate Enumerates<V>(players: map<int, V>, order: seq<int>)
  {
    && (forall i :: 0 <= i < |order| ==> order[i] in players)
    && (forall k :: k in players ==> exists i :: 0 <= i < |order| && order[i] == k)
  }

  predicate Distinct(order: seq<int>)
  {
    forall i, j :: 0 <= i < j < |order| ==> order[i] != order[j]
  }

  lemma DistinctTail(order: seq<int>)
    requires Distinct(order) && |order| > 0
    ensures Distinct(order[1..])
    ensures forall j :: 0 <= j < |order| - 1 ==> order[1..][j] != order[0]
  {
    var rest := order[1..];
    forall i, j | 0 <= i < j < |rest| ensures rest[i] != rest[j] {
      assert rest[i] == order[i + 1] && rest[j] == order[j + 1];
    }
    forall j | 0 <= j < |rest| ensures rest[j] != order[0] {
      assert rest[j] == order[j + 1];
    }
  }

  predicate DistinctCells(ps: seq<Player>)
  {
    forall i, j :: 0 <= i < j < |ps| ==> (ps[i].x, ps[i].y) != (ps[j].x, ps[j].y)
  }

  /** Writes ids[n..] on the start cells of the matching players. */
  function WriteIds(b: Board, starts: seq<Player>, ids: seq<int>, n: nat): (r: Board)
    requires b.Valid() && |starts| == |ids| && n <= |ids| && DistinctCells(starts)
    requires forall i :: 0 <= i < |starts| ==> 0 <= starts[i].x < b.width && 0 <= starts[i].y < b.height
    ensures r.Valid() && r.width == b.width && r.height == b.height
    ensures forall i :: n <= i < |ids| ==> r.Get(starts[i].x, starts[i].y) == ids[i]
    ensures forall x, y ::
              (b.InBoard(x, y) && forall i :: n <= i < |ids| ==> (starts[i].x, starts[i].y) != (x, y)) ==>
              r.Get(x, y) == b.Get(x, y)
    decreases |ids| - n
  {
    if n == |ids| then b
    else
      var b' := WriteIds(b, starts, ids, n + 1);
      b'.Set(starts[n].x, starts[n].y, ids[n])
  }

  /** The start records of the players in iteration order; they lie on distinct cells. */
  function StartPlayers(players: map<int, Player>, order: seq<int>, w: int, h: int, offsets: seq<Cell>)
    : (r: seq<Player>)
    requires FieldMinSize < w <= FieldMaxSize && FieldMinSize < h <= FieldMaxSize
    requires |order| <= 8 && |offsets| == |order|
    requires forall i :: 0 <= i < |order| ==> order[i] in players
    requires forall i :: 0 <= i < |offsets| ==> 0 <= offsets[i].x < w / 4 && 0 <= offsets[i].y < h / 2
    ensures |r| == |order| && DistinctCells(r)
    ensures forall i :: 0 <= i < |r| ==> r[i] == StartPlayer(players[order[i]], i, w, h, offsets[i])
  {
    var r := seq(|order|, i requires 0 <= i < |order| => StartPlayer(players[order[i]], i, w, h, offsets[i]));
    StartsDistinct(players, order, w, h, offsets, r);
    r
  }

  lemma StartsDistinct(players: map<int, Player>, order: seq<int>, w: int, h: int, offsets: seq<Cell>, r: seq<Player>)
    requires FieldMinSize < w <= FieldMaxSize && FieldMinSize < h <= FieldMaxSize
    requires |order| <= 8 && |offsets| == |order| && |r| == |order|
    requires forall i :: 0 <= i < |order| ==> order[i] in players
    requires forall i :: 0 <= i < |offsets| ==> 0 <= offsets[i].x < w / 4 && 0 <= offsets[i].y < h / 2
    requires forall i :: 0 <= i < |r| ==> r[i] == StartPlayer(players[order[i]], i, w, h, offsets[i])
    ensures DistinctCells(r)
  {
    forall i, j | 0 <= i < j < |r|
      ensures (r[i].x, r[i].y) != (r[j].x, r[j].y)
    {
      QuartersInsideAndDisjoint(w, h, i, j, offsets[i], offsets[j]);
    }
  }

  /** The start of a game: a board of side lengths in (FieldMinSize, FieldMaxSize],
      every player active at speed 1 on its own cell inside the board heading to a
      cell inside the board, that cell holding its id and every other cell free. */
  function InitGame(players: map<int, Player>, order: seq<int>, wDraw: int, hDraw: int, offsets: seq<Cell>)
    : (r: GameState)
    requires 0 <= wDraw < FieldMaxSize - FieldMinSize && 0 <= hDraw < FieldMaxSize - FieldMinSize
    requires |order| <= PlayersPerGame && Distinct(order)
    requires Enumerates(players, order)
    requires forall k :: k in players ==> 1 <= k <= PlayersPerGame
    requires |offsets| == |order|
    requires forall i :: 0 <= i < |offsets| ==>
               0 <= offsets[i].x < BoardSide(wDraw) / 4 && 0 <= offsets[i].y < BoardSide(hDraw) / 2
    ensures WellFormed(r)
    ensures FieldMinSize < r.board.width <= FieldMaxSize && FieldMinSize < r.board.height <= FieldMaxSize
    ensures r.players.Keys == players.Keys
    ensures forall j :: 0 <= j < PlayersPerGame ==> (r.open[j] <==> j + 1 in players)
  {
    var w := BoardSide(wDraw);
    var h := BoardSide(hDraw);
    var starts := StartPlayers(players, order, w, h, offsets);
    var b := WriteIds(EmptyBoard(w, h), starts, order, 0);
    var ps := StartMap(players, order, starts);
    StartsOnBoard(players, order, w, h, offsets, starts, b, ps);
    GameState(b, ps, OpenSlots(players))
  }

  /** Input slot j is open exactly when player j + 1 takes part. */
  function OpenSlots(players: map<int, Player>): (r: seq<bool>)
    ensures |r| == PlayersPerGame
    ensures forall j :: 0 <= j < PlayersPerGame ==> (r[j] <==> j + 1 in players)
  {
    seq(PlayersPerGame, j => j + 1 in players)
  }

  /** At the start every player is active at speed 1 on a cell holding its own id and
      faces a cell inside the board. */
  lemma InitGameStarts(players: map<int, Player>, order: seq<int>, wDraw: int, hDraw: int, offsets: seq<Cell>)
    requires 0 <= wDraw < FieldMaxSize - FieldMinSize && 0 <= hDraw < FieldMaxSize - FieldMinSize
    requires |order| <= PlayersPerGame && Distinct(order)
    requires Enumerates(players, order)
    requires forall k :: k in players ==> 1 <= k <= PlayersPerGame
    requires |offsets| == |order|
    requires forall i :: 0 <= i < |offsets| ==>
               0 <= offsets[i].x < BoardSide(wDraw) / 4 && 0 <= offsets[i].y < BoardSide(hDraw) / 2
    ensures var r := InitGame(players, order, wDraw, hDraw, offsets);
            forall k :: k in r.players ==>
              && r.players[k].active && r.players[k].speed == 1
              && r.board.Get(r.players[k].x, r.players[k].y) == k
              && r.board.Contains(Next(r.players[k].x, r.players[k].y, r.players[k].direction))
  {
    var w := BoardSide(wDraw);
    var h := BoardSide(hDraw);
    var starts := StartPlayers(players, order, w, h, offsets);
    StartsOnBoard(players, order, w, h, offsets, starts,
                  WriteIds(EmptyBoard(w, h), starts, order, 0), StartMap(players, order, starts));
  }

  /** At the start no cell is written except the start cells of the players. */
  lemma InitGameCover(players: map<int, Player>, order: seq<int>, wDraw: int, hDraw: int, offsets: seq<Cell>)
    requires 0 <= wDraw < FieldMaxSize - FieldMinSize && 0 <= hDraw < FieldMaxSize - FieldMinSize
    requires |order| <= PlayersPerGame && Distinct(order)
    requires Enumerates(players, order)
    requires forall k :: k in players ==> 1 <= k <= PlayersPerGame
    requires |offsets| == |order|
    requires forall i :: 0 <= i < |offsets| ==>
               0 <= offsets[i].x < BoardSide(wDraw) / 4 && 0 <= offsets[i].y < BoardSide(hDraw) / 2
    ensures var r := InitGame(players, order, wDraw, hDraw, offsets);
            forall x, y :: r.board.InBoard(x, y) && r.board.Get(x, y) != 0 ==>
              exists k :: k in r.players && (r.players[k].x, r.players[k].y) == (x, y)
  {
    var w := BoardSide(wDraw);
    var h := BoardSide(hDraw);
    var starts := StartPlayers(players, order, w, h, offsets);
    StartsCover(players, order, w, h, offsets, starts,
                WriteIds(EmptyBoard(w, h), starts, order, 0), StartMap(players, order, starts));
  }

  /** Every started player is active at speed 1 on a cell holding its id, facing a cell
      of the board. */
  lemma StartsOnBoard(players: map<int, Player>, order: seq<int>, w: int, h: int, offsets: seq<Cell>,
                      starts: seq<Player>, b: Board, ps: map<int, Player>)
    requires FieldMinSize < w <= FieldMaxSize && FieldMinSize < h <= FieldMaxSize
    requires |order| <= PlayersPerGame && Distinct(order) && Enumerates(players, order)
    requires |offsets| == |order|
    requires forall i :: 0 <= i < |offsets| ==> 0 <= offsets[i].x < w / 4 && 0 <= offsets[i].y < h / 2
    requires starts == StartPlayers(players, order, w, h, offsets)
    requires b == WriteIds(EmptyBoard(w, h), starts, order, 0)
    requires ps == StartMap(players, order, starts)
    ensures forall k :: k in ps ==>
              && ps[k].active && ps[k].speed == 1 && b.InBoard(ps[k].x, ps[k].y)
              && b.Get(ps[k].x, ps[k].y) == k && b.Contains(Next(ps[k].x, ps[k].y, ps[k].direction))
  {
    forall k | k in ps
      ensures ps[k].active && ps[k].speed == 1 && b.InBoard(ps[k].x, ps[k].y) && b.Get(ps[k].x, ps[k].y) == k
      ensures b.Contains(Next(ps[k].x, ps[k].y, ps[k].direction))
    {
      var i :| 0 <= i < |order| && order[i] == k;
      assert ps[k] == starts[i];
    }
  }

  /** Every written cell of the start board belongs to a started player. */
  lemma StartsCover(players: map<int, Player>, order: seq<int>, w: int, h: int, offsets: seq<Cell>,
                    starts: seq<Player>, b: Board, ps: map<int, Player>)
    requires FieldMinSize < w <= FieldMaxSize && FieldMinSize < h <= FieldMaxSize
    requires |order| <= PlayersPerGame && Distinct(order) && Enumerates(players, order)
    requires |offsets| == |order|
    requires forall i :: 0 <= i < |offsets| ==> 0 <= offsets[i].x < w / 4 && 0 <= offsets[i].y < h / 2
    requires starts == StartPlayers(players, order, w, h, offsets)
    requires b == WriteIds(EmptyBoard(w, h), starts, order, 0)
    requires ps == StartMap(players, order, starts)
    ensures forall x, y :: b.InBoard(x, y) && b.Get(x, y) != 0 ==>
              exists k :: k in ps && (ps[k].x, ps[k].y) == (x, y)
  {
    forall x, y | b.InBoard(x, y) && b.Get(x, y) != 0
      ensures exists k :: k in ps && (ps[k].x, ps[k].y) == (x, y)
    {
      var i := OwnerIndex(EmptyBoard(w, h), starts, order, x, y);
      assert ps[order[i]] == starts[i];
    }
  }

  /** The map from ids to their start records. */
  function StartMap(players: map<int, Player>, order: seq<int>, starts: seq<Player>): (r: map<int, Player>)
    requires |starts| == |order| && Distinct(order)
    requires Enumerates(players, order)
    ensures r.Keys == players.Keys
    ensures forall i :: 0 <= i < |order| ==> r[order[i]] == starts[i]
  {
    var r := map i | 0 <= i < |order| :: order[i] := starts[i];
    forall k | k in players ensures k in r {
      var i :| 0 <= i < |order| && order[i] == k;
    }
    r
  }

  /** A written cell belongs to one of the start records. */
  lemma OwnerIndex(b: Board, starts: seq<Player>, ids: seq<int>, x: int, y: int) returns (i: int)
    requires b.Valid() && |starts| == |ids| && DistinctCells(starts)
    requires forall i :: 0 <= i < |starts| ==> 0 <= starts[i].x < b.width && 0 <= starts[i].y < b.height
    requires b.InBoard(x, y) && WriteIds(b, starts, ids, 0).Get(x, y) != b.Get(x, y)
    ensures 0 <= i < |ids| && (starts[i].x, starts[i].y) == (x, y)
  {
    if forall j :: 0 <= j < |ids| ==> (starts[j].x, starts[j].y) != (x, y) {
      assert false;
    }
    i :| 0 <= i < |ids| && (starts[i].x, starts[i].y) == (x, y);
  }
}
