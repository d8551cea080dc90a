/** SuperRandomAI: tries every allowed action in a random order and keeps the first
    one with the longest surviving look-ahead of up to PathLength moves, on the board
    with the other players' dead zones. Without any surviving action it falls back to
    the random bot. */
module SuperRandomAI {
  import opened Wrappers
  import opened Rules
  import opened Lookahead

  /** superRandomAIPathLength. */
  const PathLength: int := HolesEachStep * 2

  /** The actions tried from a state: the three steering actions, slow_down above
      speed 1 and speed_up below speed 5, in this order. */
  function Candidates(p: Player): (r: seq<Action>)
    ensures 3 <= |r| && r[..3] == [TurnLeft, TurnRight, ChangeNothing]
    ensures SlowDown in r <==> p.speed > 1
    ensures SpeedUp in r <==> p.speed < 5
    ensures forall i, j :: 0 <= i < j < |r| ==> r[i] != r[j]
  {
    [TurnLeft, TurnRight, ChangeNothing] + (if p.speed > 1 then [SlowDown] else [])
      + (if p.speed < 5 then [SpeedUp] else [])
  }

  /** The result of a look-ahead: the length found and the scratch state left behind. */
  datatype Probe = Probe(length: nat, board: Board, player: Player)

  // ---------------------------------------------------------------- getLength, as written

  /** getLength as the source writes it: max is decremented first and nothing is
      found below 0; each candidate is moved, searched one level deeper and reverted,
      except that the loop breaks before the revert once a path of the full length is
      found. */
  function GetLengthAsWritten(b: Board, p: Player, max: int): (r: Probe)
    requires b.Valid()
    ensures r.board.Valid() && r.board.width == b.width && r.board.height == b.height
    decreases if max < 0 then 0 else max, 2
  {
    var m := max - 1;
    if m < 0 then Probe(0, b, p) else LoopAsWritten(b, p, m, Candidates(p), 0, 0)
  }

  /** One pass of the loop body as written: the value f of the action and the state it
      leaves, which is reverted unless f completes the full length and beats found. */
  function TryAsWritten(b: Board, p: Player, m: nat, a: Action, found: nat): (r: Probe)
    requires b.Valid()
    ensures r.board.Valid() && r.board.width == b.width && r.board.height == b.height
    decreases m + 1, 0, 0
  {
    var st := Progress(b, p, a);
    if st.outcome == Crashed then
      var (b2, p2) := RevertStep(st.board, st.player, st.revert);
      Probe(0, b2, p2)
    else
      var inner := GetLengthAsWritten(st.board, st.player, m);
      var f := 1 + inner.length;
      if f > found && f - 1 == m then Probe(f, inner.board, inner.player)
      else
        var (b2, p2) := RevertStep(inner.board, inner.player, st.revert);
        Probe(f, b2, p2)
  }

  function LoopAsWritten(b: Board, p: Player, m: nat, acts: seq<Action>, i: nat, found: nat): (r: Probe)
    requires b.Valid()
    ensures r.board.Valid() && r.board.width == b.width && r.board.height == b.height
    decreases m + 1, 1, |acts| - i
  {
    if i >= |acts| then Probe(found, b, p)
    else
      var t := TryAsWritten(b, p, m, acts[i], found);
      if t.length > found && t.length - 1 == m then t
      else LoopAsWritten(t.board, t.player, m, acts, i + 1, if t.length > found then t.length else found)
  }

  // ---------------------------------------------------------------- getLength, corrected

  /** getLength with the revert made before the early exit as well, so the search
      leaves the board and the player as it found them. The length is at most max,
      and 0 when max <= 0. */
  function GetLength(b: Board, p: Player, max: int): (r: Probe)
    requires b.Valid()
    ensures r.board == b && r.player == p
    ensures r.length <= if max < 0 then 0 else max
    decreases if max < 0 then 0 else max, 2
  {
    var m := max - 1;
    if m < 0 then Probe(0, b, p) else LengthLoop(b, p, m, Candidates(p), 0, 0)
  }

  /** One pass of the loop body, always reverted: 0 when the move crashes, else one
      more than the length found after it. */
  function Try(b: Board, p: Player, m: nat, a: Action): (r: Probe)
    requires b.Valid()
    ensures r.board == b && r.player == p
    ensures r.length <= m + 1
    ensures r.length == 0 <==> Progress(b, p, a).outcome == Crashed
    decreases m + 1, 0, 0
  {
    var st := Progress(b, p, a);
    ProgressThenRevert(b, p, a);
    var f := if st.outcome != Crashed then 1 + GetLength(st.board, st.player, m).length else 0;
    var (b2, p2) := RevertStep(st.board, st.player, st.revert);
    Probe(f, b2, p2)
  }

  function LengthLoop(b: Board, p: Player, m: nat, acts: seq<Action>, i: nat, found: nat): (r: Probe)
    requires b.Valid() && found <= m + 1
    ensures r.board == b && r.player == p
    ensures found <= r.length <= m + 1
    decreases m + 1, 1, |acts| - i
  {
    if i >= |acts| then Probe(found, b, p)
    else
      var t := Try(b, p, m, acts[i]);
      if t.length > found && t.length - 1 == m then t
      else LengthLoop(b, p, m, acts, i + 1, if t.length > found then t.length else found)
  }

  /** The loop returns the largest value of its candidates acts[i..], or found when
      none is larger. */
  lemma {:induction false} LoopIsMax(b: Board, p: Player, m: nat, acts: seq<Action>, i: nat, found: nat)
    requires b.Valid() && found <= m + 1
    ensures forall k :: i <= k < |acts| ==>
              Try(b, p, m, acts[k]).length <= LengthLoop(b, p, m, acts, i, found).length
    ensures var r := LengthLoop(b, p, m, acts, i, found).length;
            r == found || exists k :: i <= k < |acts| && r == Try(b, p, m, acts[k]).length
    decreases |acts| - i
  {
    if i < |acts| {
      var t := Try(b, p, m, acts[i]);
      var r := LengthLoop(b, p, m, acts, i, found);
      if t.length > found && t.length - 1 == m {
        assert r == t;
        forall k | i <= k < |acts| ensures Try(b, p, m, acts[k]).length <= r.length {
          assert Try(b, p, m, acts[k]).length <= m + 1;
        }
      } else {
        var found' := if t.length > found then t.length else found;
        assert r == LengthLoop(b, p, m, acts, i + 1, found');
        LoopIsMax(b, p, m, acts, i + 1, found');
        assert found' <= r.length;
        forall k | i <= k < |acts| ensures Try(b, p, m, acts[k]).length <= r.length {
          if k == i {
            assert Try(b, p, m, acts[k]).length == t.length;
          } else {
            assert i + 1 <= k < |acts|;
          }
        }
      }
    }
  }

  /** The candidate whose value the loop returns, or -1 when it returns found. */
  lemma {:induction false} LoopAttains(b: Board, p: Player, m: nat, acts: seq<Action>, i: nat, found: nat)
    returns (k: int)
    requires b.Valid() && found <= m + 1
    ensures k == -1 || i <= k < |acts|
    ensures k == -1 ==> LengthLoop(b, p, m, acts, i, found).length == found
    ensures k >= 0 ==> LengthLoop(b, p, m, acts, i, found).length == Try(b, p, m, acts[k]).length
    decreases |acts| - i
  {
    if i >= |acts| {
      k := -1;
    } else {
      var t := Try(b, p, m, acts[i]);
      if t.length > found && t.length - 1 == m {
        k := i;
      } else {
        var found' := if t.length > found then t.length else found;
        k := LoopAttains(b, p, m, acts, i + 1, found');
        if k == -1 && t.length > found {
          k := i;
        }
      }
    }
  }

  /** getLength returns the longest look-ahead over all candidates: no candidate goes
      further. */
  lemma GetLengthIsBest(b: Board, p: Player, max: int, cs: seq<Action>)
    requires b.Valid() && 1 <= max && cs == Candidates(p)
    ensures forall k :: 0 <= k < |cs| ==> Try(b, p, max - 1, cs[k]).length <= GetLength(b, p, max).length
  {
    GetLengthUnfolds(b, p, max);
    var r := LengthLoop(b, p, max - 1, cs, 0, 0);
    LoopIsMax(b, p, max - 1, cs, 0, 0);
    forall k | 0 <= k < |cs| ensures Try(b, p, max - 1, cs[k]).length <= GetLength(b, p, max).length {
      assert Try(b, p, max - 1, cs[k]).length <= r.length;
    }
  }

  /** The length getLength returns is 0 or the look-ahead of some candidate; k names
      that candidate, or is -1. */
  lemma GetLengthIsAttained(b: Board, p: Player, max: int, cs: seq<Action>) returns (k: int)
    requires b.Valid() && 1 <= max && cs == Candidates(p)
    ensures -1 <= k < |cs|
    ensures k == -1 ==> GetLength(b, p, max).length == 0
    ensures k >= 0 ==> GetLength(b, p, max).length == Try(b, p, max - 1, cs[k]).length
  {
    GetLengthUnfolds(b, p, max);
    k := LoopAttains(b, p, max - 1, cs, 0, 0);
  }

  lemma GetLengthUnfolds(b: Board, p: Player, max: int)
    requires b.Valid() && 1 <= max
    ensures GetLength(b, p, max) == LengthLoop(b, p, max - 1, Candidates(p), 0, 0)
  {
  }

  /** The missing revert does not change the lengths found, and the state is left
      dirty only when the search reached the full length max. */
  lemma {:induction false} AsWrittenFindsSameLength(b: Board, p: Player, max: int)
    requires b.Valid()
    ensures var w := GetLengthAsWritten(b, p, max);
            && w.length == GetLength(b, p, max).length
            && ((w.board, w.player) != (b, p) ==> w.length == max)
    decreases if max < 0 then 0 else max, 2
  {
    if max - 1 >= 0 {
      LoopAgrees(b, p, max - 1, Candidates(p), 0, 0);
    }
  }

  lemma {:induction false} TryAgrees(b: Board, p: Player, m: nat, a: Action, found: nat)
    requires b.Valid() && found <= m
    ensures var w := TryAsWritten(b, p, m, a, found);
            && w.length == Try(b, p, m, a).length
            && ((w.board, w.player) != (b, p) ==> w.length == m + 1 && m + 1 > found)
    decreases m + 1, 0, 0
  {
    var st := Progress(b, p, a);
    ProgressThenRevert(b, p, a);
    if st.outcome != Crashed {
      AsWrittenFindsSameLength(st.board, st.player, m);
    }
  }

  lemma {:induction false} LoopAgrees(b: Board, p: Player, m: nat, acts: seq<Action>, i: nat, found: nat)
    requires b.Valid() && found <= m
    ensures var w := LoopAsWritten(b, p, m, acts, i, found);
            && w.length == LengthLoop(b, p, m, acts, i, found).length
            && ((w.board, w.player) != (b, p) ==> w.length == m + 1)
    decreases m + 1, 1, |acts| - i
  {
    if i < |acts| {
      TryAgrees(b, p, m, acts[i], found);
      var t := TryAsWritten(b, p, m, acts[i], found);
      if !(t.length > found && t.length - 1 == m) {
        LoopAgrees(b, p, m, acts, i + 1, if t.length > found then t.length else found);
      }
    }
  }

  /** The source's getLength does not restore the board: from the middle of an empty
      3 x 3 board at speed 1, getLength(1) moves with turn_left, reaches the full
      length at once and breaks with the cell it moved to still marked. */
  lemma GetLengthLeavesMarks()
    ensures var b := EmptyBoard(3, 3);
            var p := Player(1, 1, Up, 1, true, 0);
            && GetLengthAsWritten(b, p, 1).board.Get(0, 1) == Scratch
            && GetLengthAsWritten(b, p, 1).board != b
            && GetLength(b, p, 1).board == b
  {
    var b := EmptyBoard(3, 3);
    var p := Player(1, 1, Up, 1, true, 0);
    var st := Progress(b, p, TurnLeft);
    var q := Moving(p, TurnLeft);
    assert q.direction == Left && q.speed == 1;
    assert PathCell(1, 1, Left, 0) == Cell(0, 1);
    assert Walk(b, q, 0).cells == [Cell(0, 1)];
    assert st.outcome == Normal;
    assert GetLengthAsWritten(st.board, st.player, 0) == Probe(0, st.board, st.player);
    assert Candidates(p)[0] == TurnLeft;
    assert TryAsWritten(b, p, 0, TurnLeft, 0) == Probe(1, st.board, st.player);
    assert GetLengthAsWritten(b, p, 1) == LoopAsWritten(b, p, 0, Candidates(p), 0, 0);
    assert st.board.Get(0, 1) == Scratch;
  }

  // ---------------------------------------------------------------- the answer

  /** The look-ahead value of an action: 0 when its own move crashes, else the length
      of the longest path of PathLength moves after it. */
  function Score(b: Board, p: Player, a: Action): (r: nat)
    requires b.Valid()
    ensures r <= PathLength
  {
    var st := Progress(b, p, a);
    if st.outcome == Crashed then 0 else GetLength(st.board, st.player, PathLength).length
  }

  /** The loop of GetState from position i over the look-ahead values of the shuffled
      actions: an action replaces the best so far only with a strictly longer
      look-ahead, and a look-ahead of PathLength ends the loop. Since no look-ahead is
      longer, the winner is the first action of maximal value. */
  function Select(values: seq<nat>, i: nat, best: nat, chosen: Option<nat>): (r: Option<nat>)
    requires forall k :: 0 <= k < |values| ==> values[k] <= PathLength
    requires chosen.Some? ==> chosen.value < i && chosen.value < |values|
    ensures r.Some? ==> r.value < |values|
    ensures r == chosen ==> forall k :: i <= k < |values| ==> values[k] <= best
    ensures r != chosen ==>
              && r.Some? && i <= r.value && best < values[r.value]
              && (forall k :: i <= k < r.value ==> values[k] < values[r.value])
              && (forall k :: i <= k < |values| ==> values[k] <= values[r.value])
    decreases |values| - i
  {
    if i >= |values| then chosen
    else if values[i] > best then
      if values[i] == PathLength then Some(i) else Select(values, i + 1, values[i], Some(i))
    else Select(values, i + 1, best, chosen)
  }

  /** The look-ahead values of a sequence of actions. */
  function Scores(b: Board, p: Player, acts: seq<Action>): (r: seq<nat>)
    requires b.Valid()
    ensures |r| == |acts|
    ensures forall k :: 0 <= k < |acts| ==> r[k] == Score(b, p, acts[k]) && r[k] <= PathLength
  {
    seq(|acts|, k requires 0 <= k < |acts| => Score(b, p, acts[k]))
  }

  /** GetState: in a running game while active, the first action of the shuffled
      candidates with the longest look-ahead on the board with dead zones; the random
      bot's answer, fallback, when no action survives its own move. */
  function GetState(g: View, order: seq<int>, shuffled: seq<Action>, fallback: Action): (r: Option<Action>)
    requires g.board.Valid() && g.you in g.players
    requires multiset(shuffled) == multiset(Candidates(g.players[g.you]))
    ensures r.Some? <==> g.running && g.players[g.you].active
    ensures r.Some? ==> r.value in shuffled || r.value == fallback
  {
    var p := g.players[g.you];
    if !(g.running && p.active) then None
    else
      match Select(Scores(DeadZones(g.board, g.players, g.you, order), p, shuffled), 0, 0, None)
      case Some(j) => Some(shuffled[j])
      case None => Some(fallback)
  }

  /** The answer survives its own move and looks ahead at least as far as every
      candidate, unless no candidate survives its own move, in which case it is the
      fallback. */
  lemma AnswerLooksFurthest(g: View, order: seq<int>, shuffled: seq<Action>, fallback: Action)
    requires g.board.Valid() && g.you in g.players && g.running && g.players[g.you].active
    requires multiset(shuffled) == multiset(Candidates(g.players[g.you]))
    ensures var b := DeadZones(g.board, g.players, g.you, order);
            var p := g.players[g.you];
            var a := GetState(g, order, shuffled, fallback).value;
            || (&& a in Candidates(p)
                && Progress(b, p, a).outcome != Crashed
                && forall c :: c in Candidates(p) ==> Score(b, p, c) <= Score(b, p, a))
            || (&& a == fallback
                && forall c :: c in Candidates(p) ==> Progress(b, p, c).outcome == Crashed
                                                      || Score(b, p, c) == 0)
  {
    var b := DeadZones(g.board, g.players, g.you, order);
    var p := g.players[g.you];
    var values := Scores(b, p, shuffled);
    var sel := Select(values, 0, 0, None);
    forall c | c in Candidates(p) ensures c in shuffled {
      assert c in multiset(Candidates(p));
    }
    match sel
    case Some(j) =>
      assert shuffled[j] in multiset(shuffled);
      forall c | c in Candidates(p) ensures Score(b, p, c) <= Score(b, p, shuffled[j]) {
        var k :| 0 <= k < |shuffled| && shuffled[k] == c;
        assert values[k] <= values[j];
      }
    case None =>
      forall c | c in Candidates(p) ensures Score(b, p, c) == 0 {
        var k :| 0 <= k < |shuffled| && shuffled[k] == c;
        assert values[k] <= 0;
      }
  }
}
