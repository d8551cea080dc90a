/** JumpingLargestFreeAI: measures the free region around the own player with a
    flood fill that stops early; in a small region it hands the game to the jumping
    bot, otherwise it escapes at high speed or heads for the longest free ray. */
module JumpingLargestFreeAI {
  import opened Wrappers
  import opened Rules
  import opened Lookahead
  import opened Sensing
  import JumpAI
  import LargestFreeAI
  import SuperSnailAI

  /** Below this many connected free cells the jumping bot takes over. */
  const JumpAtLessThanFree: int := 50

  // ---------------------------------------------------------------- the board's cells

  /** The cells of a board with the given width and height. */
  function Cells(w: int, h: int): set<Cell>
  {
    set x, y | 0 <= x < w && 0 <= y < h :: Cell(x, y)
  }

  function Row(w: int, y: int): set<Cell>
  {
    set x | 0 <= x < w :: Cell(x, y)
  }

  lemma {:induction false} RowSize(w: nat, y: int)
    ensures |Row(w, y)| == w
  {
    if w > 0 {
      RowSize(w - 1, y);
      assert Row(w, y) == Row(w - 1, y) + {Cell(w - 1, y)};
    } else {
      assert Row(w, y) == {};
    }
  }

  /** A board has width * height cells. */
  lemma {:induction false} CellsSize(w: nat, h: nat)
    ensures |Cells(w, h)| == w * h
  {
    if h > 0 {
      CellsSize(w, h - 1);
      RowSize(w, h - 1);
      CellsSplit(w, h);
      assert |Cells(w, h)| == |Cells(w, h - 1)| + |Row(w, h - 1)|;
      assert w * h == w * (h - 1) + w;
    } else {
      assert Cells(w, h) == {};
    }
  }

  /** The cells of h rows are those of the first h - 1 rows and the last row. */
  lemma CellsSplit(w: nat, h: nat)
    requires h > 0
    ensures Cells(w, h) == Cells(w, h - 1) + Row(w, h - 1)
    ensures Cells(w, h - 1) !! Row(w, h - 1)
  {
    forall e | e in Cells(w, h) ensures e in Cells(w, h - 1) + Row(w, h - 1) {
      if e.y < h - 1 {
        assert e == Cell(e.x, e.y) && 0 <= e.x < w && 0 <= e.y < h - 1;
      } else {
        assert e == Cell(e.x, h - 1) && 0 <= e.x < w;
      }
    }
    forall e | e in Cells(w, h - 1) + Row(w, h - 1) ensures e in Cells(w, h) {
      assert e == Cell(e.x, e.y) && 0 <= e.x < w && 0 <= e.y < h;
    }
  }

  lemma InCells(b: Board, c: Cell)
    requires b.Contains(c)
    ensures c in Cells(b.width, b.height)
  {
    assert c == Cell(c.x, c.y);
  }

  // ---------------------------------------------------------------- the flood fill

  /** The state of a fill: the running count, the cells marked visited (the source's
      slice indexed by y * width + x, one entry per cell), and the cells counted. */
  datatype Fill = Fill(count: nat, seen: set<Cell>, counted: set<Cell>)

  /** The four neighbours in the order the fill visits them. */
  function Around(c: Cell): seq<Cell>
  {
    [Cell(c.x - 1, c.y), Cell(c.x + 1, c.y), Cell(c.x, c.y - 1), Cell(c.x, c.y + 1)]
  }

  /** freeSpaceConnectedInternal: stop once the count is past the cutoff (-1 for none),
      at a cell outside the board or visited before; mark the cell; count it and go on
      to its four neighbours when it is 0. */
  function Internal(b: Board, c: Cell, cutoff: int, current: nat, seen: set<Cell>): (r: Fill)
    requires b.Valid()
    ensures seen <= r.seen
    decreases Cells(b.width, b.height) - seen, 0
  {
    if cutoff != -1 && current > cutoff then Fill(current, seen, {})
    else if !b.Contains(c) || c in seen then Fill(current, seen, {})
    else if b.At(c) != 0 then Fill(current, seen + {c}, {})
    else
      var r := Spread(b, Around(c), cutoff, Fill(current + 1, seen + {c}, {}), seen + {c});
      Fill(r.count, r.seen, {c} + r.counted)
  }

  /** The fills from each of the starts in turn, each continuing from the last; used
      for the four neighbours of a counted cell and for the five starts of the whole
      fill. `floor` is the visited set before the first of them. */
  function Spread(b: Board, starts: seq<Cell>, cutoff: int, acc: Fill, floor: set<Cell>): (r: Fill)
    requires b.Valid()
    requires floor <= acc.seen
    ensures acc.seen <= r.seen
    decreases Cells(b.width, b.height) - floor, 1, |starts|
  {
    if |starts| == 0 then acc
    else
      var f := Internal(b, starts[0], cutoff, acc.count, acc.seen);
      var next := Fill(f.count, f.seen, acc.counted + f.counted);
      Spread(b, starts[1..], cutoff, next, floor)
  }

  /** What a fill from one cell does: it marks only cells of the board, counts only
      free cells it newly marks, each once, and with a cutoff c it does not count past
      c + 1. */
  lemma {:induction false} InternalFacts(b: Board, c: Cell, cutoff: int, current: nat, seen: set<Cell>)
    requires b.Valid()
    ensures forall e :: e in Internal(b, c, cutoff, current, seen).seen - seen ==> b.Contains(e)
    ensures Internal(b, c, cutoff, current, seen).counted <= Internal(b, c, cutoff, current, seen).seen - seen
    ensures forall e :: e in Internal(b, c, cutoff, current, seen).counted ==> b.IsFree(e)
    ensures Internal(b, c, cutoff, current, seen).count == current + |Internal(b, c, cutoff, current, seen).counted|
    ensures cutoff != -1 && current <= cutoff + 1 ==> Internal(b, c, cutoff, current, seen).count <= cutoff + 1
    decreases Cells(b.width, b.height) - seen, 0
  {
    var r := Internal(b, c, cutoff, current, seen);
    if cutoff != -1 && current > cutoff {
      assert r == Fill(current, seen, {});
    } else if !b.Contains(c) || c in seen {
      assert r == Fill(current, seen, {});
    } else if b.At(c) != 0 {
      assert r == Fill(current, seen + {c}, {});
    } else {
      var acc := Fill(current + 1, seen + {c}, {});
      InCells(b, c);
      SpreadFacts(b, Around(c), cutoff, acc, seen + {c});
      var sp := Spread(b, Around(c), cutoff, acc, seen + {c});
      assert r == Fill(sp.count, sp.seen, {c} + sp.counted);
      assert c !in sp.counted;
      assert |{c} + sp.counted| == 1 + |sp.counted|;
    }
  }

  lemma {:induction false} SpreadFacts(b: Board, starts: seq<Cell>, cutoff: int, acc: Fill, floor: set<Cell>)
    requires b.Valid() && floor <= acc.seen && acc.counted <= acc.seen
    ensures var r := Spread(b, starts, cutoff, acc, floor);
            && (forall e :: e in r.seen - acc.seen ==> b.Contains(e))
            && acc.counted <= r.counted && r.counted <= r.seen
            && r.counted - acc.counted <= r.seen - acc.seen
            && ((forall e :: e in acc.counted ==> b.IsFree(e)) ==> forall e :: e in r.counted ==> b.IsFree(e))
            && r.count == acc.count + |r.counted - acc.counted|
            && (cutoff != -1 && acc.count <= cutoff + 1 ==> r.count <= cutoff + 1)
    decreases Cells(b.width, b.height) - floor, 1, |starts|
  {
    if |starts| > 0 {
      InternalFacts(b, starts[0], cutoff, acc.count, acc.seen);
      var f := Internal(b, starts[0], cutoff, acc.count, acc.seen);
      var next := Fill(f.count, f.seen, acc.counted + f.counted);
      SpreadFacts(b, starts[1..], cutoff, next, floor);
      var r := Spread(b, starts[1..], cutoff, next, floor);
      assert acc.counted !! f.counted;
      assert r.counted - acc.counted == f.counted + (r.counted - next.counted);
      assert f.counted !! (r.counted - next.counted);
    }
  }

  /** A spread that starts past the cutoff counts nothing more. */
  lemma {:induction false} SpreadSaturated(b: Board, starts: seq<Cell>, cutoff: int, acc: Fill, floor: set<Cell>)
    requires b.Valid() && floor <= acc.seen && cutoff != -1 && acc.count > cutoff
    ensures Spread(b, starts, cutoff, acc, floor).count == acc.count
    decreases |starts|
  {
    if |starts| > 0 {
      var f := Internal(b, starts[0], cutoff, acc.count, acc.seen);
      assert f == Fill(acc.count, acc.seen, {});
      SpreadSaturated(b, starts[1..], cutoff, Fill(f.count, f.seen, acc.counted + f.counted), floor);
    }
  }

  /** A fill with cutoff k counts min(n, k + 1), n being what the fill without cutoff
      counts; when n <= k the two fills are the same in every respect. */
  lemma {:induction false} InternalCutoff(b: Board, c: Cell, k: int, current: nat, seen: set<Cell>)
    requires b.Valid() && k >= 0 && current <= k + 1
    ensures var full := Internal(b, c, -1, current, seen);
            var cut := Internal(b, c, k, current, seen);
            && (full.count <= k ==> cut == full)
            && cut.count == if full.count <= k then full.count else k + 1
    decreases Cells(b.width, b.height) - seen, 0
  {
    InternalFacts(b, c, -1, current, seen);
    if current > k {
    } else if !b.Contains(c) || c in seen {
    } else if b.At(c) != 0 {
    } else {
      var acc := Fill(current + 1, seen + {c}, {});
      InCells(b, c);
      SpreadCutoff(b, Around(c), k, acc, seen + {c});
    }
  }

  lemma {:induction false} SpreadCutoff(b: Board, starts: seq<Cell>, k: int, acc: Fill, floor: set<Cell>)
    requires b.Valid() && k >= 0 && acc.count <= k + 1 && floor <= acc.seen
    ensures var full := Spread(b, starts, -1, acc, floor);
            var cut := Spread(b, starts, k, acc, floor);
            && (full.count <= k ==> cut == full)
            && cut.count == if full.count <= k then full.count else k + 1
    decreases Cells(b.width, b.height) - floor, 1, |starts|
  {
    if |starts| > 0 {
      var ff := Internal(b, starts[0], -1, acc.count, acc.seen);
      var fc := Internal(b, starts[0], k, acc.count, acc.seen);
      InternalCutoff(b, starts[0], k, acc.count, acc.seen);
      var nf := Fill(ff.count, ff.seen, acc.counted + ff.counted);
      var nc := Fill(fc.count, fc.seen, acc.counted + fc.counted);
      SpreadMonotone(b, starts[1..], -1, nf, floor);
      if ff.count <= k {
        assert nc == nf;
        SpreadCutoff(b, starts[1..], k, nf, floor);
      } else {
        SpreadSaturated(b, starts[1..], k, nc, floor);
      }
    }
  }

  /** A spread never lowers the count. */
  lemma {:induction false} SpreadMonotone(b: Board, starts: seq<Cell>, cutoff: int, acc: Fill, floor: set<Cell>)
    requires b.Valid() && floor <= acc.seen
    ensures Spread(b, starts, cutoff, acc, floor).count >= acc.count
    decreases |starts|
  {
    if |starts| > 0 {
      InternalFacts(b, starts[0], cutoff, acc.count, acc.seen);
      var f := Internal(b, starts[0], cutoff, acc.count, acc.seen);
      SpreadMonotone(b, starts[1..], cutoff, Fill(f.count, f.seen, acc.counted + f.counted), floor);
    }
  }

  // ---------------------------------------------------------------- connectedness

  /** Two cells that share a side. */
  predicate Adjacent(a: Cell, c: Cell)
  {
    || (a.x == c.x && (a.y - c.y == 1 || c.y - a.y == 1))
    || (a.y == c.y && (a.x - c.x == 1 || c.x - a.x == 1))
  }

  /** A route through the cells of S, each step to an adjacent cell. */
  predicate Route(p: seq<Cell>, s: set<Cell>)
  {
    && |p| > 0
    && (forall i :: 0 <= i < |p| ==> p[i] in s)
    && (forall i :: 0 <= i < |p| - 1 ==> Adjacent(p[i], p[i + 1]))
  }

  /** e can be reached from a by a route through S. */
  ghost predicate Joined(s: set<Cell>, a: Cell, e: Cell)
  {
    exists p :: Route(p, s) && p[0] == a && p[|p| - 1] == e
  }

  /** A route through S is one through any larger set, and a cell adjacent to its
      start and in that set can go first. */
  lemma JoinedExtend(s: set<Cell>, t: set<Cell>, c: Cell, n: Cell, e: Cell)
    requires s <= t && Joined(s, n, e) && c in t && Adjacent(c, n)
    ensures Joined(t, c, e)
  {
    var p :| Route(p, s) && p[0] == n && p[|p| - 1] == e;
    var q := [c] + p;
    assert forall i :: 1 <= i < |q| ==> q[i] == p[i - 1];
    assert Route(q, t);
  }

  lemma JoinedGrows(s: set<Cell>, t: set<Cell>, a: Cell, e: Cell)
    requires s <= t && Joined(s, a, e)
    ensures Joined(t, a, e)
  {
    var p :| Route(p, s) && p[0] == a && p[|p| - 1] == e;
    assert Route(p, t);
  }

  /** e is reached from one of the starts through S. */
  ghost predicate FromSome(s: set<Cell>, starts: seq<Cell>, e: Cell)
  {
    exists i :: 0 <= i < |starts| && Joined(s, starts[i], e)
  }

  /** A spread keeps what was counted before it. */
  lemma {:induction false} SpreadKeeps(b: Board, starts: seq<Cell>, cutoff: int, acc: Fill, floor: set<Cell>)
    requires b.Valid() && floor <= acc.seen
    ensures acc.counted <= Spread(b, starts, cutoff, acc, floor).counted
    decreases |starts|
  {
    if |starts| > 0 {
      var f := Internal(b, starts[0], cutoff, acc.count, acc.seen);
      SpreadKeeps(b, starts[1..], cutoff, Fill(f.count, f.seen, acc.counted + f.counted), floor);
    }
  }

  /** Every cell a fill from c counts is reached from c through counted cells. */
  lemma {:induction false} InternalConnected(b: Board, c: Cell, cutoff: int, current: nat, seen: set<Cell>)
    requires b.Valid()
    ensures var r := Internal(b, c, cutoff, current, seen);
            forall e :: e in r.counted ==> Joined(r.counted, c, e)
    decreases Cells(b.width, b.height) - seen, 0, 1
  {
    var r := Internal(b, c, cutoff, current, seen);
    if cutoff != -1 && current > cutoff {
      assert r.counted == {};
    } else if !b.Contains(c) || c in seen {
      assert r.counted == {};
    } else if b.At(c) != 0 {
      assert r.counted == {};
    } else {
      CountedConnected(b, c, cutoff, current, seen);
    }
  }

  /** The case of InternalConnected where c is counted and the fill spreads on. */
  lemma {:induction false} CountedConnected(b: Board, c: Cell, cutoff: int, current: nat, seen: set<Cell>)
    requires b.Valid() && (cutoff == -1 || current <= cutoff)
    requires b.Contains(c) && c !in seen && b.At(c) == 0
    ensures var r := Internal(b, c, cutoff, current, seen);
            forall e :: e in r.counted ==> Joined(r.counted, c, e)
    decreases Cells(b.width, b.height) - seen, 0, 0
  {
    var r := Internal(b, c, cutoff, current, seen);
    var acc := Fill(current + 1, seen + {c}, {});
    InCells(b, c);
    SpreadConnected(b, Around(c), cutoff, acc, seen + {c});
    var sp := Spread(b, Around(c), cutoff, acc, seen + {c});
    assert r.counted == {c} + sp.counted;
    forall e | e in r.counted ensures Joined(r.counted, c, e) {
      if e == c {
        assert Route([c], r.counted);
      } else {
        assert e in sp.counted && e !in acc.counted;
        assert FromSome(sp.counted, Around(c), e);
        var i :| 0 <= i < 4 && Joined(sp.counted, Around(c)[i], e);
        JoinedExtend(sp.counted, r.counted, c, Around(c)[i], e);
      }
    }
  }

  /** Every cell a spread adds is reached from one of its starts through counted
      cells. */
  lemma {:induction false} SpreadConnected(b: Board, starts: seq<Cell>, cutoff: int, acc: Fill, floor: set<Cell>)
    requires b.Valid() && floor <= acc.seen
    ensures var r := Spread(b, starts, cutoff, acc, floor);
            forall e :: e in r.counted && e !in acc.counted ==> FromSome(r.counted, starts, e)
    decreases Cells(b.width, b.height) - floor, 1, |starts|
  {
    if |starts| > 0 {
      var f := Internal(b, starts[0], cutoff, acc.count, acc.seen);
      var next := Fill(f.count, f.seen, acc.counted + f.counted);
      InternalConnected(b, starts[0], cutoff, acc.count, acc.seen);
      assert var r0 := Internal(b, starts[0], cutoff, acc.count, acc.seen);
            forall e :: e in r0.counted ==> Joined(r0.counted, starts[0], e);
      assert forall e :: e in f.counted ==> Joined(f.counted, starts[0], e);
      SpreadConnected(b, starts[1..], cutoff, next, floor);
      SpreadKeeps(b, starts[1..], cutoff, next, floor);
      var r := Spread(b, starts[1..], cutoff, next, floor);
      assert r == Spread(b, starts, cutoff, acc, floor);
      forall e | e in r.counted && e !in acc.counted
        ensures FromSome(r.counted, starts, e)
      {
        if e in f.counted {
          assert Joined(f.counted, starts[0], e);
          assert f.counted <= r.counted;
          JoinedGrows(f.counted, r.counted, starts[0], e);
          assert Joined(r.counted, starts[0], e);
        } else {
          assert FromSome(r.counted, starts[1..], e);
          var i :| 0 <= i < |starts[1..]| && Joined(r.counted, starts[1..][i], e);
          assert starts[1..][i] == starts[i + 1];
        }
      }
    }
  }

  // ---------------------------------------------------------------- completeness

  /** The free cells of the board. */
  function FreeCells(b: Board): (r: set<Cell>)
    requires b.Valid()
    ensures forall e :: e in r <==> b.IsFree(e)
  {
    var r := set e | e in Cells(b.width, b.height) && b.IsFree(e);
    forall e | b.IsFree(e) ensures e in r {
      InCells(b, e);
    }
    r
  }

  /** Every neighbour on the board of a counted cell has been visited. */
  ghost predicate NeighboursSeen(b: Board, counted: set<Cell>, seen: set<Cell>)
  {
    forall e, n :: e in counted && n in Around(e) && b.Contains(n) ==> n in seen
  }

  /** The cells adjacent to a are its four neighbours. */
  lemma AdjacentAround(a: Cell, n: Cell)
    requires Adjacent(a, n)
    ensures n in Around(a)
  {
    if n.x == a.x - 1 {
      assert n == Around(a)[0];
    } else if n.x == a.x + 1 {
      assert n == Around(a)[1];
    } else if n.y == a.y - 1 {
      assert n == Around(a)[2];
    } else {
      assert n == Around(a)[3];
    }
  }

  /** Without a cutoff a fill from c visits c when it is on the board, counts every
      free cell it newly visits, and leaves no counted cell with an unvisited
      neighbour. */
  lemma {:induction false} InternalComplete(b: Board, c: Cell, current: nat, seen: set<Cell>)
    requires b.Valid()
    ensures var r := Internal(b, c, -1, current, seen);
            && (b.Contains(c) ==> c in r.seen)
            && (forall e :: e in r.seen - seen && b.IsFree(e) ==> e in r.counted)
            && NeighboursSeen(b, r.counted, r.seen)
    decreases Cells(b.width, b.height) - seen, 0
  {
    var r := Internal(b, c, -1, current, seen);
    if !b.Contains(c) || c in seen {
      assert r == Fill(current, seen, {});
    } else if b.At(c) != 0 {
      assert r == Fill(current, seen + {c}, {});
    } else {
      var acc := Fill(current + 1, seen + {c}, {});
      InCells(b, c);
      SpreadComplete(b, Around(c), acc, seen + {c});
      var sp := Spread(b, Around(c), -1, acc, seen + {c});
      assert r == Fill(sp.count, sp.seen, {c} + sp.counted);
      forall n | n in Around(c) && b.Contains(n) ensures n in sp.seen {
        var i :| 0 <= i < 4 && Around(c)[i] == n;
      }
    }
  }

  /** The same for a spread: each start on the board is visited, newly visited free
      cells are counted, and the neighbour property carries over. */
  lemma {:induction false} SpreadComplete(b: Board, starts: seq<Cell>, acc: Fill, floor: set<Cell>)
    requires b.Valid() && floor <= acc.seen
    ensures var r := Spread(b, starts, -1, acc, floor);
            && (forall i :: 0 <= i < |starts| && b.Contains(starts[i]) ==> starts[i] in r.seen)
            && (forall e :: e in r.seen - acc.seen && b.IsFree(e) ==> e in r.counted)
            && (NeighboursSeen(b, acc.counted, acc.seen) ==> NeighboursSeen(b, r.counted, r.seen))
    decreases Cells(b.width, b.height) - floor, 1, |starts|
  {
    if |starts| > 0 {
      var f := Internal(b, starts[0], -1, acc.count, acc.seen);
      var next := Fill(f.count, f.seen, acc.counted + f.counted);
      InternalComplete(b, starts[0], acc.count, acc.seen);
      SpreadComplete(b, starts[1..], next, floor);
      SpreadKeeps(b, starts[1..], -1, next, floor);
      var r := Spread(b, starts[1..], -1, next, floor);
      assert r == Spread(b, starts, -1, acc, floor);
      forall i | 0 <= i < |starts| && b.Contains(starts[i]) ensures starts[i] in r.seen {
        if i > 0 {
          assert starts[1..][i - 1] == starts[i];
        }
      }
    }
  }

  /** Along a route of free cells that starts at a counted cell, every cell is counted
      once no counted cell has an unvisited neighbour and every visited free cell is
      counted. */
  lemma {:induction false} RouteCounted(b: Board, counted: set<Cell>, seen: set<Cell>, p: seq<Cell>)
    requires b.Valid() && Route(p, FreeCells(b)) && p[0] in counted
    requires NeighboursSeen(b, counted, seen)
    requires forall e :: e in seen && b.IsFree(e) ==> e in counted
    ensures p[|p| - 1] in counted
    decreases |p|
  {
    if |p| > 1 {
      assert p[1] in FreeCells(b) && Adjacent(p[0], p[1]);
      AdjacentAround(p[0], p[1]);
      assert p[1] in seen;
      assert Route(p[1..], FreeCells(b)) by {
        forall i | 0 <= i < |p[1..]| - 1 ensures Adjacent(p[1..][i], p[1..][i + 1]) {
          assert p[1..][i] == p[i + 1] && p[1..][i + 1] == p[i + 2];
        }
      }
      RouteCounted(b, counted, seen, p[1..]);
    }
  }

  // ---------------------------------------------------------------- the whole fill

  /** freeSpaceConnected: a fresh visited set, then fills from the cell itself and from
      its left, right, upper and lower neighbours, the count carried from one to the
      next. The cell itself is normally the player's own, not free, so that the count
      is the free region around it. */
  function FreeSpaceConnected(b: Board, x: int, y: int, cutoff: int): (r: Fill)
    requires b.Valid()
    ensures r.count == |r.counted|
    ensures forall e :: e in r.counted ==> b.IsFree(e)
    ensures r.count <= b.width * b.height
    ensures cutoff >= 0 ==> r.count <= cutoff + 1
  {
    var start := Fill(0, {}, {});
    var starts := [Cell(x, y)] + Around(Cell(x, y));
    SpreadFacts(b, starts, cutoff, start, {});
    var r := Spread(b, starts, cutoff, start, {});
    assert r.counted - {} == r.counted;
    assert r.counted <= Cells(b.width, b.height) by {
      forall e | e in r.counted ensures e in Cells(b.width, b.height) {
        InCells(b, e);
      }
    }
    SuperSnailAI.SubsetSize(r.counted, Cells(b.width, b.height));
    CellsSize(b.width, b.height);
    r
  }

  /** Every counted cell is reached, through counted cells, from the start cell or
      one of its four neighbours. */
  lemma CountedCellsAreConnected(b: Board, x: int, y: int, cutoff: int)
    requires b.Valid()
    ensures var r := FreeSpaceConnected(b, x, y, cutoff);
            forall e :: e in r.counted ==>
              exists s :: s in [Cell(x, y)] + Around(Cell(x, y)) && Joined(r.counted, s, e)
  {
    var starts := [Cell(x, y)] + Around(Cell(x, y));
    SpreadConnected(b, starts, cutoff, Fill(0, {}, {}), {});
    var r := FreeSpaceConnected(b, x, y, cutoff);
    forall e | e in r.counted
      ensures exists s :: s in starts && Joined(r.counted, s, e)
    {
      assert e !in Fill(0, {}, {}).counted;
      assert FromSome(r.counted, starts, e);
      var i :| 0 <= i < |starts| && Joined(r.counted, starts[i], e);
      assert starts[i] in starts;
    }
  }

  /** The free region around (x, y): the free cells reached through free cells from the
      cell itself or one of its four neighbours. */
  ghost function Region(b: Board, x: int, y: int): set<Cell>
    requires b.Valid()
  {
    set e | e in FreeCells(b) && exists s :: s in [Cell(x, y)] + Around(Cell(x, y)) && Joined(FreeCells(b), s, e)
  }

  /** Without a cutoff the fill counts exactly the free region around the cell, so the
      count is that region's size. */
  lemma FreeSpaceIsRegion(b: Board, x: int, y: int)
    requires b.Valid()
    ensures FreeSpaceConnected(b, x, y, -1).counted == Region(b, x, y)
    ensures FreeSpaceConnected(b, x, y, -1).count == |Region(b, x, y)|
  {
    CountedInRegion(b, x, y);
    RegionCounted(b, x, y);
  }

  /** Every counted cell is in the free region. */
  lemma CountedInRegion(b: Board, x: int, y: int)
    requires b.Valid()
    ensures FreeSpaceConnected(b, x, y, -1).counted <= Region(b, x, y)
  {
    var starts := [Cell(x, y)] + Around(Cell(x, y));
    var r := FreeSpaceConnected(b, x, y, -1);
    CountedCellsAreConnected(b, x, y, -1);
    forall e | e in r.counted ensures e in Region(b, x, y) {
      var s :| s in starts && Joined(r.counted, s, e);
      JoinedGrows(r.counted, FreeCells(b), s, e);
    }
  }

  /** Every cell of the free region is counted. */
  lemma RegionCounted(b: Board, x: int, y: int)
    requires b.Valid()
    ensures Region(b, x, y) <= FreeSpaceConnected(b, x, y, -1).counted
  {
    var starts := [Cell(x, y)] + Around(Cell(x, y));
    var r := FreeSpaceConnected(b, x, y, -1);
    SpreadComplete(b, starts, Fill(0, {}, {}), {});
    assert r == Spread(b, starts, -1, Fill(0, {}, {}), {});
    assert r.seen - {} == r.seen;
    forall e | e in Region(b, x, y) ensures e in r.counted {
      var s :| s in starts && Joined(FreeCells(b), s, e);
      var p :| Route(p, FreeCells(b)) && p[0] == s && p[|p| - 1] == e;
      var i :| 0 <= i < |starts| && starts[i] == s;
      assert s in FreeCells(b);
      RouteCounted(b, r.counted, r.seen, p);
    }
  }

  /** The cutoff only shortens the count: with cutoff k >= 0 the fill counts the full
      region when it has at most k cells, and k + 1 otherwise. */
  lemma CutoffCountsTheSmallRegion(b: Board, x: int, y: int, k: int)
    requires b.Valid() && k >= 0
    ensures var full := FreeSpaceConnected(b, x, y, -1);
            var cut := FreeSpaceConnected(b, x, y, k);
            && (full.count <= k ==> cut == full)
            && cut.count == if full.count <= k then full.count else k + 1
  {
    SpreadCutoff(b, [Cell(x, y)] + Around(Cell(x, y)), k, Fill(0, {}, {}), {});
  }

  /** The decision of GetState, with its cutoff of 51, is the decision it would take
      on the full count, that is on the size of the free region. */
  lemma ThresholdSeesTheFullCount(b: Board, x: int, y: int)
    requires b.Valid()
    ensures FreeSpaceConnected(b, x, y, JumpAtLessThanFree + 1).count < JumpAtLessThanFree
            <==> FreeSpaceConnected(b, x, y, -1).count < JumpAtLessThanFree
    ensures FreeSpaceConnected(b, x, y, JumpAtLessThanFree + 1).count < JumpAtLessThanFree
            <==> |Region(b, x, y)| < JumpAtLessThanFree
  {
    CutoffCountsTheSmallRegion(b, x, y, JumpAtLessThanFree + 1);
    FreeSpaceIsRegion(b, x, y);
  }

  // ---------------------------------------------------------------- the answer

  /** The jumping bot once created; the largest-free bot it also holds has no state. */
  datatype Bot = Bot(jump: Option<JumpAI.Bot>)

  /** GetState, in a running game while active: with fewer than 50 free cells around
      (counted with cutoff 51) the jumping bot, created on first use, answers; else
      above speed 1 the escape ladder on the plain board; else the jumping bot is
      dropped and the largest-free bot answers. The arguments after g are the draws
      the delegates need. */
  function GetState(bot: Bot, g: View, order: seq<int>, orders: JumpAI.Orders, fallback: Action)
    : (r: (Bot, Option<Action>))
    requires g.board.Valid() && g.you in g.players
    ensures r.1.Some? <==> g.running && g.players[g.you].active
    ensures !(g.running && g.players[g.you].active) ==> r.0 == bot
    ensures g.running && g.players[g.you].active ==>
              var me := g.players[g.you];
              var jb := if bot.jump.Some? then bot.jump.value else JumpAI.Bot([]);
              if FreeSpaceConnected(g.board, me.x, me.y, -1).count < JumpAtLessThanFree then
                var (jb', a) := JumpAI.GetState(jb, g, order, orders, fallback);
                r == (Bot(Some(jb')), a)
              else if me.speed > 1 then r == (bot, Some(Escape(g.board, me)))
              else r == (Bot(None), LargestFreeAI.GetState(g, order))
  {
    var me := g.players[g.you];
    if !(g.running && me.active) then (bot, None)
    else
      ThresholdSeesTheFullCount(g.board, me.x, me.y);
      if FreeSpaceConnected(g.board, me.x, me.y, JumpAtLessThanFree + 1).count < JumpAtLessThanFree then
        var jb := if bot.jump.Some? then bot.jump.value else JumpAI.Bot([]);
        var (jb', a) := JumpAI.GetState(jb, g, order, orders, fallback);
        (Bot(Some(jb')), a)
      else if me.speed > 1 then (bot, Some(Escape(g.board, me)))
      else (Bot(None), LargestFreeAI.GetState(g, order))
  }
}
