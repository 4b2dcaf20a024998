/** What a distance field is meant to hold: the length of the shortest
    four-connected walk through empty cells from the nearest source. */
module Paths {
  import opened Grid

  /** `p` walks from one of `srcs` to `c`, one side-sharing step at a time,
      entering only empty in-bounds cells (the start itself may be any source).
      Its length, the number of steps, is `|p| - 1`. */
  ghost predicate IsPathTo(b: Board, srcs: seq<Cell>, p: seq<Cell>, c: Cell) {
    |p| > 0 && p[0] in srcs && p[|p| - 1] == c
    && forall i :: 0 <= i < |p| - 1 ==> Open4(b, p[i], p[i + 1])
  }

  ghost predicate Reachable(b: Board, srcs: seq<Cell>, c: Cell) {
    exists p :: IsPathTo(b, srcs, p, c)
  }

  /** `d` is the length of a shortest walk from `srcs` to `c`. */
  ghost predicate IsShortest(b: Board, srcs: seq<Cell>, c: Cell, d: int) {
    (exists p {:trigger IsPathTo(b, srcs, p, c)} :: IsPathTo(b, srcs, p, c) && |p| == d + 1)
    && forall p {:trigger IsPathTo(b, srcs, p, c)} :: IsPathTo(b, srcs, p, c) ==> d + 1 <= |p|
  }

  /** A walk extended by one open step is a walk. */
  lemma ExtendPath(b: Board, srcs: seq<Cell>, p: seq<Cell>, c: Cell, n: Cell)
    requires IsPathTo(b, srcs, p, c) && Open4(b, c, n)
    ensures IsPathTo(b, srcs, p + [n], n)
  {
    var q := p + [n];
    forall i | 0 <= i < |q| - 1 ensures Open4(b, q[i], q[i + 1]) {
      if i < |p| - 1 {
        assert q[i] == p[i] && q[i + 1] == p[i + 1];
      }
    }
  }

  /** A cell one open step from a reachable cell is reachable, and its
      shortest distance is at most one more. */
  lemma ShortestStep(b: Board, srcs: seq<Cell>, a: Cell, n: Cell, da: int)
    requires IsShortest(b, srcs, a, da) && Open4(b, a, n)
    ensures Reachable(b, srcs, n)
    ensures forall dn :: IsShortest(b, srcs, n, dn) ==> dn <= da + 1
  {
    var p :| IsPathTo(b, srcs, p, a) && |p| == da + 1;
    ExtendPath(b, srcs, p, a, n);
  }

  /** A walk of at least one step, less its last cell, is a walk to the cell before. */
  lemma PrefixPath(b: Board, srcs: seq<Cell>, p: seq<Cell>, c: Cell)
    requires IsPathTo(b, srcs, p, c) && |p| >= 2
    ensures IsPathTo(b, srcs, p[..|p| - 1], p[|p| - 2])
    ensures Open4(b, p[|p| - 2], c)
  {
    var q := p[..|p| - 1];
    forall i | 0 <= i < |q| - 1 ensures Open4(b, q[i], q[i + 1]) {
      assert q[i] == p[i] && q[i + 1] == p[i + 1];
    }
    assert Open4(b, p[|p| - 2], p[|p| - 1]);
  }

  /** A walk of at least two cells starts with an open step. */
  lemma FirstStep(b: Board, srcs: seq<Cell>, p: seq<Cell>, c: Cell)
    requires IsPathTo(b, srcs, p, c) && |p| >= 2
    ensures Open4(b, p[0], p[1])
  {
    assert 0 < |p| - 1;
  }

  /** Every source is at distance zero. */
  lemma SourceAtZero(b: Board, srcs: seq<Cell>, s: Cell)
    requires s in srcs
    ensures IsShortest(b, srcs, s, 0)
  {
    assert IsPathTo(b, srcs, [s], s);
  }

  /** The shortest distance, when there is one, is unique. */
  lemma ShortestUnique(b: Board, srcs: seq<Cell>, c: Cell, d1: int, d2: int)
    requires IsShortest(b, srcs, c, d1) && IsShortest(b, srcs, c, d2)
    ensures d1 == d2
  {
    var p1 :| IsPathTo(b, srcs, p1, c) && |p1| == d1 + 1;
    var p2 :| IsPathTo(b, srcs, p2, c) && |p2| == d2 + 1;
  }

  /** Walks never enter an obstacle, so an obstacle that is not itself a
      source cannot be reached. */
  lemma ObstacleUnreachable(b: Board, srcs: seq<Cell>, c: Cell)
    requires c in b.obstacles && c !in srcs
    ensures !Reachable(b, srcs, c)
  {
    forall p | IsPathTo(b, srcs, p, c) ensures false {
      assert p[0] != c;
      PrefixPath(b, srcs, p, c);
    }
  }

  /** A walk from the union of two source lists starts in one of them. */
  lemma PathFromUnion(b: Board, srcsA: seq<Cell>, srcsB: seq<Cell>, p: seq<Cell>, c: Cell)
    ensures IsPathTo(b, srcsA + srcsB, p, c) <==> IsPathTo(b, srcsA, p, c) || IsPathTo(b, srcsB, p, c)
  {
    if |p| > 0 {
      assert p[0] in srcsA + srcsB <==> p[0] in srcsA || p[0] in srcsB;
    }
  }

  /** A cell is reachable from two source lists together exactly when it is
      reachable from one of them. */
  lemma ReachableFromUnion(b: Board, srcsA: seq<Cell>, srcsB: seq<Cell>, c: Cell)
    ensures Reachable(b, srcsA + srcsB, c) <==> Reachable(b, srcsA, c) || Reachable(b, srcsB, c)
  {
    forall p ensures IsPathTo(b, srcsA + srcsB, p, c) <==> IsPathTo(b, srcsA, p, c) || IsPathTo(b, srcsB, p, c) {
      PathFromUnion(b, srcsA, srcsB, p, c);
    }
  }

  function Min(x: int, y: int): int {
    if x <= y then x else y
  }

  /** With two source lists together, the distance is the smaller of the
      distances from each list alone. */
  lemma ShortestFromUnion(b: Board, srcsA: seq<Cell>, srcsB: seq<Cell>, c: Cell, dA: int, dB: int)
    requires IsShortest(b, srcsA, c, dA) && IsShortest(b, srcsB, c, dB)
    ensures IsShortest(b, srcsA + srcsB, c, Min(dA, dB))
  {
    forall p ensures IsPathTo(b, srcsA + srcsB, p, c) <==> IsPathTo(b, srcsA, p, c) || IsPathTo(b, srcsB, p, c) {
      PathFromUnion(b, srcsA, srcsB, p, c);
    }
    if dA <= dB {
      var p :| IsPathTo(b, srcsA, p, c) && |p| == dA + 1;
      assert IsPathTo(b, srcsA + srcsB, p, c);
    } else {
      var p :| IsPathTo(b, srcsB, p, c) && |p| == dB + 1;
      assert IsPathTo(b, srcsA + srcsB, p, c);
    }
  }

  /** When only the first list reaches the cell, the union keeps its distance. */
  lemma ShortestFromUnionOneSide(b: Board, srcsA: seq<Cell>, srcsB: seq<Cell>, c: Cell, dA: int)
    requires IsShortest(b, srcsA, c, dA) && !Reachable(b, srcsB, c)
    ensures IsShortest(b, srcsA + srcsB, c, dA)
  {
    forall p ensures IsPathTo(b, srcsA + srcsB, p, c) <==> IsPathTo(b, srcsA, p, c) || IsPathTo(b, srcsB, p, c) {
      PathFromUnion(b, srcsA, srcsB, p, c);
    }
    var p :| IsPathTo(b, srcsA, p, c) && |p| == dA + 1;
    assert IsPathTo(b, srcsA + srcsB, p, c);
  }

  function Manhattan(a: Cell, c: Cell): nat {
    Abs(a.0 - c.0) + Abs(a.1 - c.1)
  }

  /** Each step changes the Manhattan distance from the start by at most one. */
  lemma {:induction false} PathAtLeastManhattan(b: Board, s: Cell, p: seq<Cell>, c: Cell)
    requires IsPathTo(b, [s], p, c)
    ensures Manhattan(s, c) <= |p| - 1
    decreases |p|
  {
    if |p| >= 2 {
      PrefixPath(b, [s], p, c);
      PathAtLeastManhattan(b, s, p[..|p| - 1], p[|p| - 2]);
    }
  }

  /** One step from `a` toward `c`: rows first, then columns. */
  function Toward(a: Cell, c: Cell): (t: Cell)
    requires a != c
    ensures Adjacent4(a, t) && Manhattan(t, c) + 1 == Manhattan(a, c)
  {
    if a.0 < c.0 then (a.0 + 1, a.1)
    else if a.0 > c.0 then (a.0 - 1, a.1)
    else if a.1 < c.1 then (a.0, a.1 + 1)
    else (a.0, a.1 - 1)
  }

  /** The staircase walk from `a` to `c`. */
  function Walk(a: Cell, c: Cell): seq<Cell>
    decreases Manhattan(a, c)
  {
    if a == c then [a] else [a] + Walk(Toward(a, c), c)
  }

  /** On a board with no obstacles the staircase walk between two in-bounds
      cells is an open walk of Manhattan length. */
  lemma {:induction false} WalkIsOpen(b: Board, a: Cell, c: Cell)
    requires b.obstacles == {}
    requires InBounds(a, b.height, b.width) && InBounds(c, b.height, b.width)
    ensures IsPathTo(b, [a], Walk(a, c), c) && |Walk(a, c)| == Manhattan(a, c) + 1
    decreases Manhattan(a, c)
  {
    if a != c {
      var t := Toward(a, c);
      WalkIsOpen(b, t, c);
      var w, rest := Walk(a, c), Walk(t, c);
      assert w == [a] + rest;
      forall i | 0 <= i < |w| - 1 ensures Open4(b, w[i], w[i + 1]) {
        if i > 0 {
          assert w[i] == rest[i - 1] && w[i + 1] == rest[i];
        }
      }
    }
  }

  /** Without obstacles, four-way distance from a single source is Manhattan distance. */
  lemma OpenBoardIsManhattan(b: Board, s: Cell, c: Cell)
    requires b.obstacles == {}
    requires InBounds(s, b.height, b.width) && InBounds(c, b.height, b.width)
    ensures IsShortest(b, [s], c, Manhattan(s, c))
  {
    WalkIsOpen(b, s, c);
    forall p | IsPathTo(b, [s], p, c) ensures Manhattan(s, c) + 1 <= |p| {
      PathAtLeastManhattan(b, s, p, c);
    }
  }

  /** On an empty 5 by 5 board a source at one corner is 8 steps from the opposite corner. */
  lemma OpenFiveByFiveCorner()
    ensures IsShortest(Board(5, 5, {}), [(0, 0)], (4, 4), 8)
  {
    OpenBoardIsManhattan(Board(5, 5, {}), (0, 0), (4, 4));
  }
}
