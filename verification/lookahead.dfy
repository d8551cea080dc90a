/** One simulated move of a bot's own player on a scratch copy of the game, and its
    undo. The jump, super-random and super-snail bots search by moving, looking and
    reverting; the cells a simulated move passes are marked with Scratch so that a
    deeper simulated move collides with them. */
module Lookahead {
  import opened Wrappers
  import opened Rules
  import Engine

  /** The mark a simulated move leaves on the cells it passes. */
  const Scratch: int := -33

  datatype Outcome = Normal | Jumped | Crashed

  /** What the undo needs: the fields of the player a move changes, and the cells
      the move marked. */
  datatype Revert = Revert(x: int, y: int, speed: int, stepCounter: nat, direction: Direction,
                           cells: seq<Cell>)

  datatype Step = Step(outcome: Outcome, board: Board, player: Player, revert: Revert)

  /** The walk of q ends at step k: it leaves the board there, or lands on an
      occupied cell that is not a hole. */
  predicate Blocked(b: Board, q: Player, k: int)
    requires b.Valid()
  {
    var c := PathCell(q.x, q.y, q.direction, k);
    !b.Contains(c) || (!IsHole(q.speed, q.stepCounter, k) && b.At(c) != 0)
  }

  /** Step k of the walk of q jumps over an occupied cell. */
  predicate JumpsOver(b: Board, q: Player, k: int)
    requires b.Valid()
  {
    var c := PathCell(q.x, q.y, q.direction, k);
    b.Contains(c) && IsHole(q.speed, q.stepCounter, k) && b.At(c) != 0
  }

  /** c is a cell that step s or a later step of the walk of q lands on (no hole). */
  predicate LandsOn(q: Player, s: int, c: Cell)
  {
    var k := RayIndex(q.x, q.y, q.direction, c);
    s <= k < q.speed && !IsHole(q.speed, q.stepCounter, k)
  }

  /** Every listed cell is inside the board. */
  predicate AllIn(b: Board, cs: seq<Cell>)
  {
    forall i :: 0 <= i < |cs| ==> 0 <= cs[i].x < b.width && 0 <= cs[i].y < b.height
  }

  /** The result of the steps s.. of a walk: how it ended, the marked board, the cell
      where it stopped and the cells it marked. */
  datatype Walked = Walked(outcome: Outcome, board: Board, stop: Cell, cells: seq<Cell>)

  /** Steps s.. of the move of q (q already carries the new heading, speed and step
      counter). Holes are skipped and only remembered when they cover an occupied
      cell; a free landing cell is marked. */
  function Walk(b: Board, q: Player, s: nat): (r: Walked)
    requires b.Valid()
    ensures r.board.Valid() && r.board.width == b.width && r.board.height == b.height
    decreases q.speed - s
  {
    if s >= q.speed then
      Walked(Normal, b, if s == 0 then Cell(q.x, q.y) else PathCell(q.x, q.y, q.direction, s - 1), [])
    else
      var c := PathCell(q.x, q.y, q.direction, s);
      if !b.Contains(c) then Walked(Crashed, b, c, [])
      else if IsHole(q.speed, q.stepCounter, s) then
        var r := Walk(b, q, s + 1);
        if r.outcome == Normal && b.At(c) != 0 then r.(outcome := Jumped) else r
      else if b.At(c) != 0 then Walked(Crashed, b, c, [])
      else
        var r := Walk(b.Set(c.x, c.y, Scratch), q, s + 1);
        Walked(r.outcome, r.board, r.stop, [c] + r.cells)
  }

  /** A walk marks with Scratch exactly the cells it lists, each of them free before
      and a landing cell of one of the steps s.. . */
  lemma WalkMarks(b: Board, q: Player, s: nat)
    requires b.Valid()
    ensures var r := Walk(b, q, s);
            && (forall x, y :: b.InBoard(x, y) ==>
                  r.board.Get(x, y) == if Cell(x, y) in r.cells then Scratch else b.Get(x, y))
            && (forall i :: 0 <= i < |r.cells| ==> b.IsFree(r.cells[i]) && LandsOn(q, s, r.cells[i]))
  {
    WalkBoard(b, q, s);
    WalkListsFree(b, q, s);
  }

  /** The board after a walk holds Scratch on the listed cells and nothing new elsewhere. */
  lemma {:induction false} WalkBoard(b: Board, q: Player, s: nat)
    requires b.Valid()
    ensures var r := Walk(b, q, s);
            forall x, y :: b.InBoard(x, y) ==>
              r.board.Get(x, y) == if Cell(x, y) in r.cells then Scratch else b.Get(x, y)
    decreases q.speed - s
  {
    if s < q.speed {
      var c := PathCell(q.x, q.y, q.direction, s);
      if !b.Contains(c) {
      } else if IsHole(q.speed, q.stepCounter, s) {
        WalkBoard(b, q, s + 1);
      } else if b.At(c) == 0 {
        var b' := b.Set(c.x, c.y, Scratch);
        var rest := Walk(b', q, s + 1);
        var r := Walk(b, q, s);
        assert r.board == rest.board && r.cells == [c] + rest.cells;
        WalkBoard(b', q, s + 1);
        forall x, y | b.InBoard(x, y)
          ensures r.board.Get(x, y) == if Cell(x, y) in r.cells then Scratch else b.Get(x, y)
        {
          if Cell(x, y) != c {
            assert b'.Get(x, y) == b.Get(x, y);
          }
        }
      }
    }
  }

  /** Every cell a walk lists was free before it and is a landing cell of a step s.. . */
  lemma {:induction false} WalkListsFree(b: Board, q: Player, s: nat)
    requires b.Valid()
    ensures forall i :: 0 <= i < |Walk(b, q, s).cells| ==>
              b.IsFree(Walk(b, q, s).cells[i]) && LandsOn(q, s, Walk(b, q, s).cells[i])
    decreases q.speed - s
  {
    if s < q.speed {
      var c := PathCell(q.x, q.y, q.direction, s);
      if !b.Contains(c) {
      } else if IsHole(q.speed, q.stepCounter, s) {
        WalkListsFree(b, q, s + 1);
      } else if b.At(c) == 0 {
        var b' := b.Set(c.x, c.y, Scratch);
        var rest := Walk(b', q, s + 1);
        var r := Walk(b, q, s);
        assert r.cells == [c] + rest.cells;
        WalkListsFree(b', q, s + 1);
        forall i | 0 <= i < |r.cells| ensures b.IsFree(r.cells[i]) && LandsOn(q, s, r.cells[i]) {
          if i > 0 {
            var d := rest.cells[i - 1];
            assert r.cells[i] == d;
            assert b'.IsFree(d) && LandsOn(q, s + 1, d);
            assert d != c;
            assert b'.Get(d.x, d.y) == b.Get(d.x, d.y);
          } else {
            assert RayIndex(q.x, q.y, q.direction, c) == s;
          }
        }
      }
    }
  }

  /** A walk crashes exactly when one of its steps s.. is blocked. */
  lemma {:induction false} WalkCrashes(b: Board, q: Player, s: nat)
    requires b.Valid()
    ensures Walk(b, q, s).outcome == Crashed <==> exists k :: s <= k < q.speed && Blocked(b, q, k)
    decreases q.speed - s, 1
  {
    if s < q.speed {
      var c := PathCell(q.x, q.y, q.direction, s);
      if !b.Contains(c) {
        assert Blocked(b, q, s);
      } else if IsHole(q.speed, q.stepCounter, s) {
        WalkCrashes(b, q, s + 1);
        assert !Blocked(b, q, s);
      } else if b.At(c) != 0 {
        assert Blocked(b, q, s);
      } else {
        WalkCrashesMarked(b, q, s);
      }
    }
  }

  /** WalkCrashes for a step that lands on a free cell and marks it. */
  lemma {:induction false} WalkCrashesMarked(b: Board, q: Player, s: nat)
    requires b.Valid() && s < q.speed && !IsHole(q.speed, q.stepCounter, s)
    requires b.IsFree(PathCell(q.x, q.y, q.direction, s))
    ensures Walk(b, q, s).outcome == Crashed <==> exists k :: s <= k < q.speed && Blocked(b, q, k)
    decreases q.speed - s, 0
  {
    var c := PathCell(q.x, q.y, q.direction, s);
    var b' := b.Set(c.x, c.y, Scratch);
    assert Walk(b, q, s).outcome == Walk(b', q, s + 1).outcome;
    WalkCrashes(b', q, s + 1);
    assert !Blocked(b, q, s);
    if Walk(b', q, s + 1).outcome == Crashed {
      var k :| s + 1 <= k < q.speed && Blocked(b', q, k);
      AfterMark(b, q, s, k);
    }
    if exists k :: s <= k < q.speed && Blocked(b, q, k) {
      var k :| s <= k < q.speed && Blocked(b, q, k);
      AfterMark(b, q, s, k);
    }
  }

  /** A walk jumps exactly when it does not crash and one of its steps s.. jumps over
      an occupied cell. */
  lemma {:induction false} WalkJumps(b: Board, q: Player, s: nat)
    requires b.Valid()
    ensures Walk(b, q, s).outcome == Jumped <==>
              Walk(b, q, s).outcome != Crashed && exists k :: s <= k < q.speed && JumpsOver(b, q, k)
    decreases q.speed - s, 1
  {
    if s < q.speed {
      var c := PathCell(q.x, q.y, q.direction, s);
      if !b.Contains(c) {
      } else if IsHole(q.speed, q.stepCounter, s) {
        WalkJumps(b, q, s + 1);
        assert JumpsOver(b, q, s) <==> b.At(c) != 0;
      } else if b.At(c) != 0 {
      } else {
        WalkJumpsMarked(b, q, s);
      }
    }
  }

  /** WalkJumps for a step that lands on a free cell and marks it. */
  lemma {:induction false} WalkJumpsMarked(b: Board, q: Player, s: nat)
    requires b.Valid() && s < q.speed && !IsHole(q.speed, q.stepCounter, s)
    requires b.IsFree(PathCell(q.x, q.y, q.direction, s))
    ensures Walk(b, q, s).outcome == Jumped <==>
              Walk(b, q, s).outcome != Crashed && exists k :: s <= k < q.speed && JumpsOver(b, q, k)
    decreases q.speed - s, 0
  {
    var c := PathCell(q.x, q.y, q.direction, s);
    var b' := b.Set(c.x, c.y, Scratch);
    assert Walk(b, q, s).outcome == Walk(b', q, s + 1).outcome;
    WalkJumps(b', q, s + 1);
    assert !JumpsOver(b, q, s);
    if Walk(b', q, s + 1).outcome == Jumped {
      var k :| s + 1 <= k < q.speed && JumpsOver(b', q, k);
      AfterMark(b, q, s, k);
    }
    if Walk(b', q, s + 1).outcome != Crashed && exists k :: s <= k < q.speed && JumpsOver(b, q, k) {
      var k :| s <= k < q.speed && JumpsOver(b, q, k);
      AfterMark(b, q, s, k);
    }
  }

  /** A walk that does not crash marks every landing cell from step s on. */
  lemma {:induction false} WalkCovers(b: Board, q: Player, s: nat)
    requires b.Valid()
    requires Walk(b, q, s).outcome != Crashed
    ensures forall k :: s <= k < q.speed && !IsHole(q.speed, q.stepCounter, k) ==>
              PathCell(q.x, q.y, q.direction, k) in Walk(b, q, s).cells
    decreases q.speed - s
  {
    if s < q.speed {
      var c := PathCell(q.x, q.y, q.direction, s);
      if IsHole(q.speed, q.stepCounter, s) {
        assert b.Contains(c);
        var rest := Walk(b, q, s + 1);
        assert Walk(b, q, s).cells == rest.cells && rest.outcome != Crashed;
        WalkCovers(b, q, s + 1);
      } else {
        assert b.Contains(c) && b.At(c) == 0;
        var b' := b.Set(c.x, c.y, Scratch);
        var rest := Walk(b', q, s + 1);
        assert Walk(b, q, s).cells == [c] + rest.cells && rest.outcome != Crashed;
        WalkCovers(b', q, s + 1);
      }
    }
  }

  /** A walk that does not crash stops at the end of its path. */
  lemma {:induction false} WalkStops(b: Board, q: Player, s: nat)
    requires b.Valid() && s <= q.speed && 1 <= q.speed
    requires Walk(b, q, s).outcome != Crashed
    ensures Walk(b, q, s).stop == PathCell(q.x, q.y, q.direction, q.speed - 1)
    decreases q.speed - s
  {
    if s < q.speed {
      var c := PathCell(q.x, q.y, q.direction, s);
      WalkStops(if IsHole(q.speed, q.stepCounter, s) then b else b.Set(c.x, c.y, Scratch), q, s + 1);
    }
  }

  /** Marking the landing cell of step s changes nothing that a later step k looks at. */
  lemma AfterMark(b: Board, q: Player, s: nat, k: int)
    requires b.Valid() && k > s
    requires b.IsFree(PathCell(q.x, q.y, q.direction, s))
    ensures var c := PathCell(q.x, q.y, q.direction, s);
            var b' := b.Set(c.x, c.y, Scratch);
            && (Blocked(b', q, k) <==> Blocked(b, q, k))
            && (JumpsOver(b', q, k) <==> JumpsOver(b, q, k))
  {
    PathFacts(q.x, q.y, q.direction);
  }

  /** q after its heading and speed change and before it moves. */
  function Moving(p: Player, a: Action): (r: Player)
    ensures r.x == p.x && r.y == p.y && r.active == p.active
    ensures r.stepCounter == p.stepCounter + 1
  {
    Steer(p, a).(stepCounter := p.stepCounter + 1)
  }

  /** progress: applies the action to the own player and simulates its move. A speed
      out of [1, MaxSpeed] crashes before anything moves. */
  function Progress(b: Board, p: Player, a: Action): (r: Step)
    requires b.Valid()
    ensures r.board.Valid() && r.board.width == b.width && r.board.height == b.height
    ensures AllIn(b, r.revert.cells)
    ensures forall i :: 0 <= i < |r.revert.cells| ==> b.IsFree(r.revert.cells[i])
    ensures forall x, y :: b.InBoard(x, y) ==>
              r.board.Get(x, y) == if Cell(x, y) in r.revert.cells then Scratch else b.Get(x, y)
    ensures r.revert.x == p.x && r.revert.y == p.y && r.revert.speed == p.speed
    ensures r.revert.stepCounter == p.stepCounter && r.revert.direction == p.direction
    ensures r.player.active == p.active
  {
    var rev := Revert(p.x, p.y, p.speed, p.stepCounter, p.direction, []);
    if Overspeed(p, a) then
      Step(Crashed, b, Steer(p, a), rev)
    else
      var q := Moving(p, a);
      var w := Walk(b, q, 0);
      WalkMarks(b, q, 0);
      Step(w.outcome, w.board, q.(x := w.stop.x, y := w.stop.y), rev.(cells := w.cells))
  }

  /** The board with the listed cells freed. */
  function ClearCells(b: Board, cs: seq<Cell>): (r: Board)
    requires b.Valid() && AllIn(b, cs)
    ensures r.Valid() && r.width == b.width && r.height == b.height
    ensures forall x, y :: b.InBoard(x, y) ==> r.Get(x, y) == if Cell(x, y) in cs then 0 else b.Get(x, y)
    decreases |cs|
  {
    if |cs| == 0 then b
    else ClearCells(b.Set(cs[0].x, cs[0].y, 0), cs[1..])
  }

  /** revert: restores the saved fields of the player and frees the marked cells. */
  function RevertStep(b: Board, p: Player, rev: Revert): (r: (Board, Player))
    requires b.Valid() && AllIn(b, rev.cells)
    ensures r.0.Valid() && r.0.width == b.width && r.0.height == b.height
    ensures r.1.x == rev.x && r.1.y == rev.y && r.1.speed == rev.speed
    ensures r.1.stepCounter == rev.stepCounter && r.1.direction == rev.direction
    ensures r.1.active == p.active
    ensures forall x, y :: b.InBoard(x, y) && Cell(x, y) !in rev.cells ==> r.0.Get(x, y) == b.Get(x, y)
  {
    (ClearCells(b, rev.cells),
     p.(x := rev.x, y := rev.y, speed := rev.speed, stepCounter := rev.stepCounter, direction := rev.direction))
  }

  /** Undoing a simulated move gives back exactly the board and the player it started
      from, whatever the outcome. */
  lemma ProgressThenRevert(b: Board, p: Player, a: Action)
    requires b.Valid()
    ensures var st := Progress(b, p, a);
            RevertStep(st.board, st.player, st.revert) == (b, p)
  {
    var st := Progress(b, p, a);
    var (b', p') := RevertStep(st.board, st.player, st.revert);
    if !Overspeed(p, a) {
      var w := Walk(b, Moving(p, a), 0);
      WalkMarks(b, Moving(p, a), 0);
      forall x, y | b.InBoard(x, y) ensures b'.Get(x, y) == b.Get(x, y) {
        if Cell(x, y) in w.cells {
          var i :| 0 <= i < |w.cells| && w.cells[i] == Cell(x, y);
          assert b.IsFree(w.cells[i]);
        }
      }
    }
    BoardExt(b', b);
  }

  /** The outcome of a simulated move: it crashes exactly when the speed leaves
      [1, MaxSpeed] or some step is blocked, and it jumps exactly when it does not crash
      and some hole covers an occupied cell. */
  lemma ProgressOutcome(b: Board, p: Player, a: Action)
    requires b.Valid()
    ensures var q := Moving(p, a);
            Progress(b, p, a).outcome == Crashed <==>
              Overspeed(p, a) || exists k :: 0 <= k < q.speed && Blocked(b, q, k)
    ensures var q := Moving(p, a);
            Progress(b, p, a).outcome == Jumped <==>
              !Overspeed(p, a) && (forall k :: 0 <= k < q.speed ==> !Blocked(b, q, k))
              && exists k :: 0 <= k < q.speed && JumpsOver(b, q, k)
  {
    if !Overspeed(p, a) {
      WalkCrashes(b, Moving(p, a), 0);
      WalkJumps(b, Moving(p, a), 0);
    }
  }

  /** A simulated move that does not crash marks exactly the landing cells of the
      move, all of them free before, and leaves the player at the end of its path. */
  lemma ProgressTrail(b: Board, p: Player, a: Action)
    requires b.Valid() && 1 <= p.speed <= MaxSpeed
    requires Progress(b, p, a).outcome != Crashed
    ensures var st := Progress(b, p, a);
            var q := Moving(p, a);
            && 1 <= q.speed <= MaxSpeed
            && st.player == q.(x := PathCell(p.x, p.y, q.direction, q.speed - 1).x,
                               y := PathCell(p.x, p.y, q.direction, q.speed - 1).y)
            && (forall x, y :: b.InBoard(x, y) ==>
                  st.board.Get(x, y) == if LandsOn(q, 0, Cell(x, y)) then Scratch else b.Get(x, y))
            && (forall x, y :: b.InBoard(x, y) && LandsOn(q, 0, Cell(x, y)) ==> b.Get(x, y) == 0)
  {
    var q := Moving(p, a);
    var w := Walk(b, q, 0);
    WalkMarks(b, q, 0);
    WalkCovers(b, q, 0);
    WalkStops(b, q, 0);
    forall x, y | b.InBoard(x, y) && LandsOn(q, 0, Cell(x, y))
      ensures Cell(x, y) in w.cells && b.Get(x, y) == 0
    {
      var k := RayIndex(q.x, q.y, q.direction, Cell(x, y));
      assert PathCell(q.x, q.y, q.direction, k) in w.cells;
      var i :| 0 <= i < |w.cells| && w.cells[i] == Cell(x, y);
      assert b.IsFree(w.cells[i]);
    }
  }

  /** A simulated move that does not crash predicts the server: the answer is
      accepted, the real move keeps the player active at the same cell, and the
      server writes the player's id exactly where the simulation wrote Scratch. */
  lemma ProgressMatchesEngine(b: Board, id: int, p: Player, a: Action)
    requires b.Valid() && b.InBoard(p.x, p.y) && p.active && 1 <= p.speed <= MaxSpeed
    requires Progress(b, p, a).outcome != Crashed
    ensures var (q, bad) := Engine.ApplyAnswer(p, ActionName(a));
            var (b', p') := Engine.MovePlayer(b, id, q);
            var st := Progress(b, p, a);
            && !bad && p' == st.player
            && (forall x, y :: b.InBoard(x, y) ==>
                  b'.Get(x, y) == if st.board.Get(x, y) == Scratch && b.Get(x, y) == 0 then id else b.Get(x, y))
  {
    AnswerAccepted(p, a);
    EngineMovesLikeProgress(b, id, p, a);
    EngineMarksLikeProgress(b, id, p, a);
  }

  /** Without a crash, the server writes the id exactly where the simulation wrote
      Scratch over a free cell. */
  lemma EngineMarksLikeProgress(b: Board, id: int, p: Player, a: Action)
    requires b.Valid() && b.InBoard(p.x, p.y) && p.active && 1 <= p.speed <= MaxSpeed
    requires Progress(b, p, a).outcome != Crashed
    ensures var b' := Engine.MovePlayer(b, id, Steer(p, a)).0;
            var st := Progress(b, p, a);
            forall x, y :: b.InBoard(x, y) ==>
              b'.Get(x, y) == if st.board.Get(x, y) == Scratch && b.Get(x, y) == 0 then id else b.Get(x, y)
  {
    var q := Steer(p, a);
    var st := Progress(b, p, a);
    var m := Moving(p, a);
    ProgressTrail(b, p, a);
    Engine.MoveTrail(b, id, q);
    var b' := Engine.MovePlayer(b, id, q).0;
    forall x, y | b.InBoard(x, y)
      ensures b'.Get(x, y) == if st.board.Get(x, y) == Scratch && b.Get(x, y) == 0 then id else b.Get(x, y)
    {
      if LandsOn(m, 0, Cell(x, y)) {
        assert b.Get(x, y) == 0;
        assert b'.Get(x, y) == id;
      } else {
        assert b'.Get(x, y) == b.Get(x, y);
      }
    }
  }

  /** An action the simulation does not crash on is one the server accepts. */
  lemma AnswerAccepted(p: Player, a: Action)
    requires p.active && !Overspeed(p, a)
    ensures Engine.ApplyAnswer(p, ActionName(a)) == (Steer(p, a), false)
  {
    ParseActionName(a);
  }

  /** Without a crash, the server's move of the steered player ends where the
      simulated one does. */
  lemma EngineMovesLikeProgress(b: Board, id: int, p: Player, a: Action)
    requires b.Valid() && b.InBoard(p.x, p.y) && p.active && 1 <= p.speed <= MaxSpeed
    requires Progress(b, p, a).outcome != Crashed
    ensures !Overspeed(p, a)
    ensures Engine.MovePlayer(b, id, Steer(p, a)).1 == Progress(b, p, a).player
  {
    var m := Moving(p, a);
    assert !Overspeed(p, a);
    var w := Walk(b, m, 0);
    assert Progress(b, p, a).player == m.(x := w.stop.x, y := w.stop.y);
    WalkCrashes(b, m, 0);
    assert !Blocked(b, m, m.speed - 1);
    WalkStops(b, m, 0);
    var p' := Engine.MovePlayer(b, id, Steer(p, a)).1;
    assert p'.active;
    assert Cell(p'.x, p'.y) == w.stop;
  }

  /** The name of an action parses back to it. */
  lemma ParseActionName(a: Action)
    ensures ParseAction(ActionName(a)) == Some(a)
  {
  }

  // ---------------------------------------------------------------- what a bot sees

  /** What a bot sees of a game: the board, the players, its own id and whether the
      game is running. */
  datatype View = View(board: Board, players: map<int, Player>, you: int, running: bool)

  /** The mark of a cell that another active player may reach in its next move. */
  const DeadZone: int := -100

  /** (x, y) lies on one of the four arms of q, at distance i.. speed + 1. */
  predicate OnArm(q: Player, i: int, x: int, y: int)
  {
    || (y == q.y && i <= x - q.x <= q.speed + 1)
    || (y == q.y && i <= q.x - x <= q.speed + 1)
    || (x == q.x && i <= y - q.y <= q.speed + 1)
    || (x == q.x && i <= q.y - y <= q.speed + 1)
  }

  /** Overwrites (x, y) when it is inside the board. */
  function SetIfIn(b: Board, x: int, y: int, v: int): (r: Board)
    requires b.Valid()
    ensures r.Valid() && r.width == b.width && r.height == b.height
    ensures forall x', y' :: b.InBoard(x', y') ==>
              r.Get(x', y') == if x' == x && y' == y then v else b.Get(x', y')
  {
    if b.InBoard(x, y) then b.Set(x, y, v) else b
  }

  /** Marks the arms of q from distance i on. */
  function MarkArms(b: Board, q: Player, i: int): (r: Board)
    requires b.Valid()
    ensures r.Valid() && r.width == b.width && r.height == b.height
    ensures forall x, y :: b.InBoard(x, y) ==>
              r.Get(x, y) == if OnArm(q, i, x, y) then DeadZone else b.Get(x, y)
    decreases q.speed + 2 - i
  {
    if i > q.speed + 1 then b
    else
      var b1 := SetIfIn(b, q.x + i, q.y, DeadZone);
      var b2 := SetIfIn(b1, q.x - i, q.y, DeadZone);
      var b3 := SetIfIn(b2, q.x, q.y + i, DeadZone);
      var b4 := SetIfIn(b3, q.x, q.y - i, DeadZone);
      MarkArms(b4, q, i + 1)
  }

  /** Player k is another active player whose arms cover (x, y). */
  predicate Threatens(players: map<int, Player>, you: int, k: int, x: int, y: int)
  {
    k in players && k != you && players[k].active && OnArm(players[k], 1, x, y)
  }

  /** Marks the dead zones of the players listed in order, skipping the bot itself
      and inactive players. */
  function DeadZones(b: Board, players: map<int, Player>, you: int, order: seq<int>): (r: Board)
    requires b.Valid()
    ensures r.Valid() && r.width == b.width && r.height == b.height
    ensures forall x, y :: b.InBoard(x, y) ==>
              r.Get(x, y) == if exists j :: 0 <= j < |order| && Threatens(players, you, order[j], x, y)
                             then DeadZone else b.Get(x, y)
    decreases |order|
  {
    if |order| == 0 then b
    else
      var k := order[0];
      var b' := if k in players && k != you && players[k].active then MarkArms(b, players[k], 1) else b;
      var r := DeadZones(b', players, you, order[1..]);
      assert forall j :: 1 <= j < |order| ==> order[j] == order[1..][j - 1];
      r
  }

  /** The dead zones do not depend on the order in which the players are visited:
      every cell an active opponent can reach is marked, every other cell is kept. */
  lemma DeadZonesCoverOpponents(b: Board, players: map<int, Player>, you: int, order: seq<int>)
    requires b.Valid() && Engine.Enumerates(players, order)
    ensures forall x, y :: b.InBoard(x, y) ==>
              DeadZones(b, players, you, order).Get(x, y) ==
                if exists k :: Threatens(players, you, k, x, y) then DeadZone else b.Get(x, y)
  {
    var r := DeadZones(b, players, you, order);
    forall x, y | b.InBoard(x, y)
      ensures r.Get(x, y) == if exists k :: Threatens(players, you, k, x, y) then DeadZone else b.Get(x, y)
    {
      if exists k :: Threatens(players, you, k, x, y) {
        var k :| Threatens(players, you, k, x, y);
        var j :| 0 <= j < |order| && order[j] == k;
        assert Threatens(players, you, order[j], x, y);
      }
    }
  }
}
