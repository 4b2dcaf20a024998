/** The invariant of the multi-source breadth-first search that fills a
    distance field, stated over ghost values: the queue `q`, the distances
    recorded so far `dm` (its keys are the visited cells) and the set `done`
    of cells whose neighbours have been expanded. Each lemma carries the
    invariant across one step of the loop in `Apocalypse.ComputeDistanceField`. */
module Bfs {
  import opened Grid
  import opened Paths

  /** Every walk to a recorded cell is at least as long as its distance. */
  ghost predicate NoShortcut(b: Board, srcs: seq<Cell>, dm: map<Cell, int>) {
    forall c, p {:trigger IsPathTo(b, srcs, p, c)} :: c in dm && IsPathTo(b, srcs, p, c) ==> dm[c] + 1 <= |p|
  }

  /** Every recorded distance is the length of some walk. */
  ghost predicate Witnessed(b: Board, srcs: seq<Cell>, dm: map<Cell, int>) {
    forall c :: c in dm ==> exists p {:trigger IsPathTo(b, srcs, p, c)} :: IsPathTo(b, srcs, p, c) && |p| == dm[c] + 1
  }

  /** Every recorded distance is below the number of visited cells. */
  ghost predicate Bounded(dm: map<Cell, int>) {
    forall c :: c in dm ==> 0 <= dm[c] < |dm.Keys|
  }

  /** What holds of the recorded distances at every point of the search:
      they name board cells, sources are at zero, each is the length of a
      walk no walk undercuts, and each is below the number of visited cells. */
  ghost predicate Sound(b: Board, srcs: seq<Cell>, dm: map<Cell, int>) {
    (forall c {:trigger c in dm} :: c in dm ==> InBounds(c, b.height, b.width))
    && (forall i :: 0 <= i < |srcs| ==> srcs[i] in dm && dm[srcs[i]] == 0)
    && Witnessed(b, srcs, dm)
    && NoShortcut(b, srcs, dm)
    && Bounded(dm)
  }

  /** The first `k` cells of the queue are at distance `lo`, the rest at `lo + 1`. */
  ghost predicate SplitAt(q: seq<Cell>, dm: map<Cell, int>, lo: int, k: int) {
    0 <= k <= |q| && forall i :: 0 <= i < |q| ==> q[i] in dm && dm[q[i]] == if i < k then lo else lo + 1
  }

  /** The queue holds visited cells in non-decreasing order of distance,
      all within `lo` and `lo + 1`. */
  ghost predicate Layered(q: seq<Cell>, dm: map<Cell, int>, lo: int) {
    exists k :: SplitAt(q, dm, lo, k)
  }

  /** Every walk to a cell not yet visited is longer than `m` steps. */
  ghost predicate BeyondFrontier(b: Board, srcs: seq<Cell>, dm: map<Cell, int>, m: int) {
    forall c, p {:trigger IsPathTo(b, srcs, p, c)} :: c !in dm && IsPathTo(b, srcs, p, c) ==> m + 1 < |p|
  }

  /** Every empty four-neighbour of an expanded cell has been visited. */
  ghost predicate Closed(b: Board, done: set<Cell>, dm: map<Cell, int>) {
    forall d, n :: d in done && Open4(b, d, n) ==> n in dm
  }

  /** The invariant at the head of the outer loop. */
  ghost predicate Inv(b: Board, srcs: seq<Cell>, q: seq<Cell>, dm: map<Cell, int>, done: set<Cell>) {
    Sound(b, srcs, dm)
    && (forall i :: 0 <= i < |q| ==> q[i] in dm)
    && (forall c {:trigger c in dm} :: c in dm ==> c in done || c in q)
    && done <= dm.Keys
    && Closed(b, done, dm)
    && (|q| > 0 ==> Layered(q, dm, dm[q[0]]) && BeyondFrontier(b, srcs, dm, dm[q[0]]))
  }

  /** The invariant of the inner loop: `cur` has been dequeued and the
      first `j` of its four-neighbours have been looked at. */
  ghost predicate Expanding(b: Board, srcs: seq<Cell>, q: seq<Cell>, dm: map<Cell, int>, done: set<Cell>, cur: Cell, j: int) {
    Sound(b, srcs, dm)
    && InBounds(cur, b.height, b.width) && cur in dm
    && Layered(q, dm, dm[cur])
    && (forall c {:trigger c in dm} :: c in dm ==> c in done || c == cur || c in q)
    && done <= dm.Keys
    && Closed(b, done, dm)
    && BeyondFrontier(b, srcs, dm, dm[cur])
    && LookedAt(b, dm, cur, j)
  }

  /** Each of the first `j` four-neighbours of `cur` is visited or an obstacle. */
  ghost predicate LookedAt(b: Board, dm: map<Cell, int>, cur: Cell, j: int)
    requires InBounds(cur, b.height, b.width)
  {
    var nbrs := FourNeighbors(cur, b.height, b.width);
    0 <= j <= |nbrs| && forall k :: 0 <= k < j ==> nbrs[k] in dm || nbrs[k] in b.obstacles
  }

  /** After seeding: every source visited at distance zero, and queued. */
  lemma Seeded(b: Board, srcs: seq<Cell>, dm: map<Cell, int>)
    requires forall i :: 0 <= i < |srcs| ==> InBounds(srcs[i], b.height, b.width)
    requires forall c :: c in dm <==> c in srcs
    requires forall c :: c in dm ==> dm[c] == 0
    ensures Inv(b, srcs, srcs, dm, {})
  {
    forall c | c in dm ensures exists p :: IsPathTo(b, srcs, p, c) && |p| == dm[c] + 1 {
      assert IsPathTo(b, srcs, [c], c);
    }
    forall c | c in dm ensures 0 <= dm[c] < |dm.Keys| {
      assert c in dm.Keys;
    }
    forall c, p | c !in dm && IsPathTo(b, srcs, p, c) ensures 1 < |p| {
      assert p[0] in dm;
    }
    assert SplitAt(srcs, dm, 0, |srcs|);
  }

  /** Dequeuing the head starts its expansion. */
  /** The head of a non-empty queue is a recorded board cell. */
  lemma HeadRecorded(b: Board, srcs: seq<Cell>, q: seq<Cell>, dm: map<Cell, int>, done: set<Cell>)
    requires Inv(b, srcs, q, dm, done) && |q| > 0
    ensures q[0] in dm && InBounds(q[0], b.height, b.width)
  {
  }

  lemma StartExpanding(b: Board, srcs: seq<Cell>, q: seq<Cell>, dm: map<Cell, int>, done: set<Cell>)
    requires Inv(b, srcs, q, dm, done) && |q| > 0
    ensures Expanding(b, srcs, q[1..], dm, done, q[0], 0)
  {
    var rest := q[1..];
    forall c | c in dm ensures c in done || c == q[0] || c in rest {
      if c in q && c != q[0] {
        var i :| 0 <= i < |q| && q[i] == c;
        assert rest[i - 1] == c;
      }
    }
    var k :| SplitAt(q, dm, dm[q[0]], k);
    assert SplitAt(rest, dm, dm[q[0]], k - 1) by {
      forall i | 0 <= i < |rest| ensures rest[i] in dm && dm[rest[i]] == if i < k - 1 then dm[q[0]] else dm[q[0]] + 1 {
        assert rest[i] == q[i + 1];
      }
    }
  }

  /** A neighbour that is visited already, or an obstacle, is passed over. */
  lemma ExpandSkip(b: Board, srcs: seq<Cell>, q: seq<Cell>, dm: map<Cell, int>, done: set<Cell>, cur: Cell, j: int, n: Cell)
    requires Expanding(b, srcs, q, dm, done, cur, j)
    requires j < |FourNeighbors(cur, b.height, b.width)| && n == FourNeighbors(cur, b.height, b.width)[j]
    requires n in dm || n in b.obstacles
    ensures Expanding(b, srcs, q, dm, done, cur, j + 1)
  {
  }

  lemma WitnessedAfterVisit(b: Board, srcs: seq<Cell>, dm: map<Cell, int>, cur: Cell, n: Cell)
    requires Witnessed(b, srcs, dm) && cur in dm && Open4(b, cur, n)
    ensures Witnessed(b, srcs, dm[n := dm[cur] + 1])
  {
    var dm' := dm[n := dm[cur] + 1];
    var p :| IsPathTo(b, srcs, p, cur) && |p| == dm[cur] + 1;
    ExtendPath(b, srcs, p, cur, n);
    forall c | c in dm' ensures exists p :: IsPathTo(b, srcs, p, c) && |p| == dm'[c] + 1 {
      if c == n {
        assert IsPathTo(b, srcs, p + [n], n) && |p + [n]| == dm'[n] + 1;
      } else {
        assert c in dm;
      }
    }
  }

  lemma BoundedAfterVisit(dm: map<Cell, int>, cur: Cell, n: Cell)
    requires Bounded(dm) && cur in dm && n !in dm
    ensures Bounded(dm[n := dm[cur] + 1])
  {
    var dm' := dm[n := dm[cur] + 1];
    assert dm'.Keys == dm.Keys + {n};
    assert |dm'.Keys| == |dm.Keys| + 1;
  }

  /** Recording a new cell one step beyond a visited cell `cur` keeps the
      distances sound, provided no walk reaches it in fewer steps. */
  lemma SoundAfterVisit(b: Board, srcs: seq<Cell>, dm: map<Cell, int>, cur: Cell, n: Cell)
    requires Sound(b, srcs, dm) && cur in dm && n !in dm && Open4(b, cur, n)
    requires forall p :: IsPathTo(b, srcs, p, n) ==> dm[cur] + 2 <= |p|
    ensures Sound(b, srcs, dm[n := dm[cur] + 1])
  {
    WitnessedAfterVisit(b, srcs, dm, cur, n);
    BoundedAfterVisit(dm, cur, n);
  }

  lemma LayeredAfterVisit(q: seq<Cell>, dm: map<Cell, int>, cur: Cell, n: Cell)
    requires cur in dm && n !in dm && Layered(q, dm, dm[cur])
    ensures Layered(q + [n], dm[n := dm[cur] + 1], dm[cur])
  {
    var dm', q' := dm[n := dm[cur] + 1], q + [n];
    var k :| SplitAt(q, dm, dm[cur], k);
    forall i | 0 <= i < |q'| ensures q'[i] in dm' && dm'[q'[i]] == if i < k then dm[cur] else dm[cur] + 1 {
      if i < |q| {
        assert q'[i] == q[i];
      }
    }
    assert SplitAt(q', dm', dm[cur], k);
  }

  lemma GrowVisited(b: Board, srcs: seq<Cell>, done: set<Cell>, dm: map<Cell, int>, dm': map<Cell, int>, m: int)
    requires dm.Keys <= dm'.Keys
    requires Closed(b, done, dm) && BeyondFrontier(b, srcs, dm, m)
    ensures Closed(b, done, dm') && BeyondFrontier(b, srcs, dm', m)
  {
  }

  /** An unvisited empty neighbour is visited at one more than `cur` and queued;
      no walk reaches it in fewer steps, since it lay beyond the frontier. */
  lemma ExpandVisit(b: Board, srcs: seq<Cell>, q: seq<Cell>, dm: map<Cell, int>, done: set<Cell>, cur: Cell, j: int, n: Cell, d: int)
    requires Expanding(b, srcs, q, dm, done, cur, j)
    requires j < |FourNeighbors(cur, b.height, b.width)| && n == FourNeighbors(cur, b.height, b.width)[j]
    requires n !in dm && n !in b.obstacles && d == dm[cur] + 1
    ensures Expanding(b, srcs, q + [n], dm[n := d], done, cur, j + 1)
  {
    var nbrs := FourNeighbors(cur, b.height, b.width);
    var dm' := dm[n := d];
    assert n in nbrs;
    SoundAfterVisit(b, srcs, dm, cur, n);
    LayeredAfterVisit(q, dm, cur, n);
    GrowVisited(b, srcs, done, dm, dm', dm[cur]);
    forall c | c in dm' ensures c in done || c == cur || c in q + [n] {
      if c != n {
        assert c in dm;
      }
    }
    LookedAtNext(b, dm, dm', cur, j);
  }

  lemma LookedAtNext(b: Board, dm: map<Cell, int>, dm': map<Cell, int>, cur: Cell, j: int)
    requires InBounds(cur, b.height, b.width) && LookedAt(b, dm, cur, j)
    requires dm.Keys <= dm'.Keys && j < |FourNeighbors(cur, b.height, b.width)|
    requires FourNeighbors(cur, b.height, b.width)[j] in dm' || FourNeighbors(cur, b.height, b.width)[j] in b.obstacles
    ensures LookedAt(b, dm', cur, j + 1)
  {
  }

  /** When every neighbour of `cur` has been looked at, `cur` is expanded;
      if the new head of the queue lies one layer further out, so does the frontier. */
  lemma FinishExpanding(b: Board, srcs: seq<Cell>, q: seq<Cell>, dm: map<Cell, int>, done: set<Cell>, cur: Cell)
    requires InBounds(cur, b.height, b.width)
    requires Expanding(b, srcs, q, dm, done, cur, |FourNeighbors(cur, b.height, b.width)|)
    ensures Inv(b, srcs, q, dm, done + {cur})
  {
    var nbrs := FourNeighbors(cur, b.height, b.width);
    var done' := done + {cur};
    var m := dm[cur];
    forall d, n | d in done' && Open4(b, d, n) ensures n in dm {
      if d == cur {
        assert n in nbrs;
        var k :| 0 <= k < |nbrs| && nbrs[k] == n;
      }
    }
    if |q| > 0 {
      var k :| SplitAt(q, dm, m, k);
      var front := dm[q[0]];
      if k == 0 {
        assert SplitAt(q, dm, front, |q|);
      }
      forall c, p | c !in dm && IsPathTo(b, srcs, p, c) ensures front + 1 < |p| {
        if |p| <= front + 1 {
          // then `|p| == m + 2`: the cell before `c` on the walk is at most
          // `m` away, hence not queued behind a head at `m + 1`, hence expanded
          PrefixPath(b, srcs, p, c);
          assert false;
        }
      }
    }
  }

  /** Every walk ends in a visited cell once the queue is empty and every
      visited cell has been expanded. */
  lemma {:induction false} WalkStaysVisited(b: Board, srcs: seq<Cell>, dm: map<Cell, int>, done: set<Cell>, p: seq<Cell>, c: Cell)
    requires forall i :: 0 <= i < |srcs| ==> srcs[i] in dm
    requires Closed(b, done, dm) && dm.Keys <= done
    requires IsPathTo(b, srcs, p, c)
    ensures c in dm
    decreases |p|
  {
    if |p| == 1 {
      var i :| 0 <= i < |srcs| && srcs[i] == p[0];
    } else {
      PrefixPath(b, srcs, p, c);
      WalkStaysVisited(b, srcs, dm, done, p[..|p| - 1], p[|p| - 2]);
    }
  }

  /** When the queue runs dry the recorded distances are exactly the
      reachable cells, each at its shortest distance, below `height * width`. */
  lemma Complete(b: Board, srcs: seq<Cell>, dm: map<Cell, int>, done: set<Cell>)
    requires Inv(b, srcs, [], dm, done)
    ensures forall c :: Reachable(b, srcs, c) <==> c in dm
    ensures forall c :: c in dm ==> IsShortest(b, srcs, c, dm[c]) && dm[c] < b.height * b.width
  {
    ReachedAll(b, srcs, dm, done);
    InBoundsCard(dm.Keys, b.height, b.width);
    forall c | c in dm ensures IsShortest(b, srcs, c, dm[c]) {
      assert Witnessed(b, srcs, dm) && NoShortcut(b, srcs, dm);
    }
  }

  lemma ReachedAll(b: Board, srcs: seq<Cell>, dm: map<Cell, int>, done: set<Cell>)
    requires forall i :: 0 <= i < |srcs| ==> srcs[i] in dm
    requires Closed(b, done, dm) && dm.Keys <= done
    ensures forall c :: Reachable(b, srcs, c) ==> c in dm
  {
    forall c | Reachable(b, srcs, c) ensures c in dm {
      var p :| IsPathTo(b, srcs, p, c);
      WalkStaysVisited(b, srcs, dm, done, p, c);
    }
  }

  /** `log` lists every cell ever queued, in order: the sources, one entry
      per occurrence, then each newly visited cell exactly once (`pos` gives
      the entry of each such cell); the first `head` entries have been
      dequeued and the rest are the queue. */
  ghost predicate Logged(srcs: seq<Cell>, log: seq<Cell>, pos: map<Cell, int>, head: int, q: seq<Cell>, dm: map<Cell, int>) {
    |srcs| <= |log| && log[..|srcs|] == srcs
    && 0 <= head <= |log| && q == log[head..]
    && (forall k :: 0 <= k < |log| ==> log[k] in dm)
    && (forall c {:trigger c in dm} :: c in dm ==> c in log)
    && (forall i :: |srcs| <= i < |log| ==> log[i] in pos && pos[log[i]] == i)
    && (forall i :: 0 <= i < |srcs| ==> srcs[i] !in pos)
  }

  /** Past the sources, no cell is logged twice and none is a source. */
  lemma LoggedOnce(srcs: seq<Cell>, log: seq<Cell>, pos: map<Cell, int>, head: int, q: seq<Cell>, dm: map<Cell, int>)
    requires Logged(srcs, log, pos, head, q, dm)
    ensures forall i, j :: |srcs| <= i < j < |log| ==> log[i] != log[j]
    ensures forall i :: |srcs| <= i < |log| ==> log[i] !in srcs
  {
  }

  lemma LoggedSeeded(srcs: seq<Cell>, dm: map<Cell, int>)
    requires forall c :: c in dm <==> c in srcs
    ensures Logged(srcs, srcs, map[], 0, srcs, dm)
  {
    assert srcs[..|srcs|] == srcs;
    assert srcs[0..] == srcs;
  }

  lemma LoggedDequeue(srcs: seq<Cell>, log: seq<Cell>, pos: map<Cell, int>, head: int, q: seq<Cell>, dm: map<Cell, int>)
    requires Logged(srcs, log, pos, head, q, dm) && |q| > 0
    ensures Logged(srcs, log, pos, head + 1, q[1..], dm)
  {
    assert log[head + 1..] == log[head..][1..];
  }

  /** The log is in order of recorded distance: no cell is logged before a
      nearer one. */
  ghost predicate Ordered(log: seq<Cell>, dm: map<Cell, int>) {
    (forall k :: 0 <= k < |log| ==> log[k] in dm)
    && forall i, j {:trigger log[i], log[j]} :: 0 <= i && j == i + 1 && j < |log| ==> dm[log[i]] <= dm[log[j]]
  }

  /** While `cur` is expanded, the last logged cell is at most one step
      farther than `cur`. */
  ghost predicate TailWithin(log: seq<Cell>, dm: map<Cell, int>, cur: Cell) {
    |log| > 0 && log[|log| - 1] in dm && cur in dm && dm[log[|log| - 1]] <= dm[cur] + 1
  }

  /** The sources are all at distance zero, so seeding logs them in order. */
  lemma OrderedSeeded(srcs: seq<Cell>, dm: map<Cell, int>)
    requires forall c :: c in dm <==> c in srcs
    requires forall c :: c in dm ==> dm[c] == 0
    ensures Ordered(srcs, dm)
  {
  }

  /** When the head of the queue is dequeued, the last logged cell is the
      head itself or a queued cell at most one step farther. */
  lemma LastLogged(srcs: seq<Cell>, log: seq<Cell>, pos: map<Cell, int>, head: int, q: seq<Cell>, dm: map<Cell, int>)
    requires Logged(srcs, log, pos, head, q, dm) && |q| > 0 && q[0] in dm && Layered(q, dm, dm[q[0]])
    ensures TailWithin(log, dm, q[0])
  {
    var k :| SplitAt(q, dm, dm[q[0]], k);
    assert log[|log| - 1] == q[|q| - 1];
  }

  /** `dm'` keeps every distance of `dm` and records each cell of `added`,
      none of which `dm` held, at distance `d`. */
  ghost predicate Extends(dm: map<Cell, int>, dm': map<Cell, int>, added: seq<Cell>, d: int) {
    (forall i :: 0 <= i < |added| ==> added[i] !in dm && added[i] in dm' && dm'[added[i]] == d)
    && (forall c {:trigger c in dm} :: c in dm ==> c in dm' && dm'[c] == dm[c])
  }

  /** `dm'` is `dm` with exactly the cells of `added` recorded anew, at `d`. */
  ghost predicate RecordsNew(dm: map<Cell, int>, dm': map<Cell, int>, added: seq<Cell>, d: int) {
    Extends(dm, dm', added, d)
    && (forall c {:trigger c in dm'} :: c in dm' ==> c in dm || c in added)
  }

  /** Every cell of `added` is one of `near` and not an obstacle. */
  ghost predicate AddedAmong(added: seq<Cell>, near: seq<Cell>, obstacles: set<Cell>) {
    forall i :: 0 <= i < |added| ==> added[i] in near && added[i] !in obstacles
  }

  /** No cell appears twice in `s`. */
  ghost predicate Distinct(s: seq<Cell>) {
    forall i, j :: 0 <= i < j < |s| ==> s[i] != s[j]
  }

  /** `s` holds no cell twice, stated one appended cell at a time. */
  ghost predicate NoRepeats(s: seq<Cell>) {
    |s| == 0 || (s[|s| - 1] !in s[..|s| - 1] && NoRepeats(s[..|s| - 1]))
  }

  lemma {:induction false} NoRepeatsDistinct(s: seq<Cell>)
    requires NoRepeats(s)
    ensures Distinct(s)
  {
    if |s| > 0 {
      var init := s[..|s| - 1];
      NoRepeatsDistinct(init);
      forall i, j | 0 <= i < j < |s| ensures s[i] != s[j] {
        if j == |s| - 1 {
          assert s[i] == init[i];
        } else {
          assert s[i] == init[i] && s[j] == init[j];
        }
      }
    }
  }

  /** The distances after looking, in order, at the first `k` cells of
      `near`: each one neither recorded nor an obstacle is recorded at `d`. */
  ghost function LookDist(dm: map<Cell, int>, near: seq<Cell>, k: nat, obstacles: set<Cell>, d: int): map<Cell, int>
    requires k <= |near|
  {
    if k == 0 then dm
    else
      var dm0 := LookDist(dm, near, k - 1, obstacles, d);
      var n := near[k - 1];
      if n !in dm0 && n !in obstacles then dm0[n := d] else dm0
  }

  /** The queue after looking, in order, at the first `k` cells of `near`:
      each one that `LookDist` records is queued. */
  ghost function LookQueue(q: seq<Cell>, dm: map<Cell, int>, near: seq<Cell>, k: nat, obstacles: set<Cell>, d: int): seq<Cell>
    requires k <= |near|
  {
    if k == 0 then q
    else
      var q0 := LookQueue(q, dm, near, k - 1, obstacles, d);
      var n := near[k - 1];
      if n !in LookDist(dm, near, k - 1, obstacles, d) && n !in obstacles then q0 + [n] else q0
  }

  /** Looking appends to whatever queue it starts from: the cells it queues
      do not depend on that queue. */
  lemma {:induction false} LookQueues(q: seq<Cell>, dm: map<Cell, int>, near: seq<Cell>, k: nat, obstacles: set<Cell>, d: int)
    requires k <= |near|
    ensures LookQueue(q, dm, near, k, obstacles, d) == q + LookQueue([], dm, near, k, obstacles, d)
  {
    if k > 0 {
      LookQueues(q, dm, near, k - 1, obstacles, d);
      var a := LookQueue([], dm, near, k - 1, obstacles, d);
      assert (q + a) + [near[k - 1]] == q + (a + [near[k - 1]]);
    }
  }

  /** The cells looking queues are new cells of `near` that are not
      obstacles, each once, and each recorded at distance `d`; nothing
      recorded before changes. */
  lemma {:induction false} LookAdds(dm: map<Cell, int>, near: seq<Cell>, k: nat, obstacles: set<Cell>, d: int)
    requires k <= |near|
    ensures Extends(dm, LookDist(dm, near, k, obstacles, d), LookQueue([], dm, near, k, obstacles, d), d)
    ensures AddedAmong(LookQueue([], dm, near, k, obstacles, d), near, obstacles)
    ensures NoRepeats(LookQueue([], dm, near, k, obstacles, d))
  {
    if k > 0 {
      LookAdds(dm, near, k - 1, obstacles, d);
      var added, dm0 := LookQueue([], dm, near, k - 1, obstacles, d), LookDist(dm, near, k - 1, obstacles, d);
      var n := near[k - 1];
      if n !in dm0 && n !in obstacles {
        var added', dm' := added + [n], dm0[n := d];
        assert n !in dm;
        forall i | 0 <= i < |added'|
          ensures added'[i] !in dm && added'[i] in dm' && dm'[added'[i]] == d
          ensures added'[i] in near && added'[i] !in obstacles
        {
          if i < |added| {
            assert added'[i] == added[i] && added[i] in dm0;
          }
        }
        assert added'[..|added|] == added;
      }
    }
  }

  /** Looking at the first `k` four-neighbours of the dequeued cell, from a
      state where the search may expand it, reaches a state where the
      search has looked at those `k`. */
  lemma {:induction false} LookExpanding(b: Board, srcs: seq<Cell>, q: seq<Cell>, dm: map<Cell, int>, done: set<Cell>, cur: Cell,
                                         near: seq<Cell>, d: int, k: nat, q': seq<Cell>, dm': map<Cell, int>)
    requires Expanding(b, srcs, q, dm, done, cur, 0)
    requires near == FourNeighbors(cur, b.height, b.width) && d == dm[cur] + 1 && k <= |near|
    requires q' == LookQueue(q, dm, near, k, b.obstacles, d) && dm' == LookDist(dm, near, k, b.obstacles, d)
    ensures Expanding(b, srcs, q', dm', done, cur, k)
  {
    if k > 0 {
      var q0, dm0 := LookQueue(q, dm, near, k - 1, b.obstacles, d), LookDist(dm, near, k - 1, b.obstacles, d);
      LookExpanding(b, srcs, q, dm, done, cur, near, d, k - 1, q0, dm0);
      LookAdds(dm, near, k - 1, b.obstacles, d);
      assert dm0[cur] == dm[cur];
      var n := near[k - 1];
      if n !in dm0 && n !in b.obstacles {
        ExpandVisit(b, srcs, q0, dm0, done, cur, k - 1, n, d);
      } else {
        ExpandSkip(b, srcs, q0, dm0, done, cur, k - 1, n);
      }
    }
  }

  /** Dequeuing the head of the queue and looking at all its
      four-neighbours keeps the invariant, with the head done; every cell
      recorded then is done, the head, or queued. */
  lemma ExpandedHead(b: Board, srcs: seq<Cell>, q: seq<Cell>, dm: map<Cell, int>, done: set<Cell>,
                     near: seq<Cell>, d: int, q': seq<Cell>, dm': map<Cell, int>)
    requires |q| > 0 && Inv(b, srcs, q, dm, done)
    requires q[0] in dm && InBounds(q[0], b.height, b.width)
    requires near == FourNeighbors(q[0], b.height, b.width) && d == dm[q[0]] + 1
    requires q' == LookQueue(q[1..], dm, near, |near|, b.obstacles, d)
    requires dm' == LookDist(dm, near, |near|, b.obstacles, d)
    ensures Inv(b, srcs, q', dm', done + {q[0]})
    ensures forall c {:trigger c in dm'} :: c in dm' ==> c in done || c == q[0] || c in q'
  {
    StartExpanding(b, srcs, q, dm, done);
    LookExpanding(b, srcs, q[1..], dm, done, q[0], near, d, |near|, q', dm');
    FinishExpanding(b, srcs, q', dm', done, q[0]);
  }

  /** After an expansion every recorded cell was recorded before, or added:
      the cells held are those done, the one expanded and those queued. */
  lemma ExtendsOnly(dm: map<Cell, int>, dm': map<Cell, int>, added: seq<Cell>, d: int,
                    done: set<Cell>, cur: Cell, q: seq<Cell>, q': seq<Cell>)
    requires Extends(dm, dm', added, d) && q' == q + added
    requires forall c {:trigger c in dm'} :: c in dm' ==> c in done || c == cur || c in q'
    requires done <= dm.Keys && cur in dm && forall i :: 0 <= i < |q| ==> q[i] in dm
    ensures RecordsNew(dm, dm', added, d)
  {
    forall c | c in dm' ensures c in dm || c in added {
      if c in q' && c !in added {
        var i :| 0 <= i < |q'| && q'[i] == c;
        if i >= |q| {
          assert q'[i] == added[i - |q|];
        }
      }
    }
  }

  /** Cells recorded anew make the map grow; when none were, it is unchanged. */
  lemma RecordsNewGrows(dm: map<Cell, int>, dm': map<Cell, int>, added: seq<Cell>, d: int)
    requires RecordsNew(dm, dm', added, d)
    ensures |dm| <= |dm'|
    ensures |added| > 0 ==> |dm| < |dm'|
    ensures |added| == 0 ==> dm' == dm
  {
    assert |dm| == |dm.Keys| && |dm'| == |dm'.Keys|;
    SubsetCard(dm.Keys, dm'.Keys);
    if |added| > 0 {
      SubsetCard(dm.Keys + {added[0]}, dm'.Keys);
    }
  }

  /** Appending cells recorded at a distance no smaller than the last
      logged one keeps the log ordered by distance. */
  lemma OrderedRecords(dm: map<Cell, int>, log: seq<Cell>, dm': map<Cell, int>, added: seq<Cell>, d: int)
    requires Ordered(log, dm) && Extends(dm, dm', added, d)
    requires |log| > 0 ==> log[|log| - 1] in dm && dm[log[|log| - 1]] <= d
    ensures Ordered(log + added, dm')
  {
    var log' := log + added;
    forall k | 0 <= k < |log'| ensures log'[k] in dm' && (k < |log| ==> dm'[log'[k]] == dm[log[k]]) && (k >= |log| ==> dm'[log'[k]] == d) {
      if k < |log| {
        assert log'[k] == log[k] && log[k] in dm;
      } else {
        assert log'[k] == added[k - |log|];
      }
    }
    forall i | 0 < i < |log'| ensures dm'[log'[i - 1]] <= dm'[log'[i]] {
      if i < |log| {
        assert dm[log[i - 1]] <= dm[log[i]];
      }
    }
  }

  /** `pos` with the cells of `added` placed at `base`, `base + 1`, and so on. */
  ghost function PosAfter(pos: map<Cell, int>, base: int, added: seq<Cell>): map<Cell, int>
    decreases |added|
  {
    if added == [] then pos
    else PosAfter(pos, base, added[..|added| - 1])[added[|added| - 1] := base + |added| - 1]
  }

  lemma {:induction false} PosAfterFacts(pos: map<Cell, int>, base: int, added: seq<Cell>)
    requires Distinct(added)
    ensures forall j :: 0 <= j < |added| ==> added[j] in PosAfter(pos, base, added) && PosAfter(pos, base, added)[added[j]] == base + j
    ensures forall c :: c in pos && c !in added ==> c in PosAfter(pos, base, added) && PosAfter(pos, base, added)[c] == pos[c]
    ensures forall c :: c in PosAfter(pos, base, added) ==> c in pos || c in added
    decreases |added|
  {
    if added != [] {
      var init, n := added[..|added| - 1], added[|added| - 1];
      assert forall i :: 0 <= i < |init| ==> init[i] == added[i];
      PosAfterFacts(pos, base, init);
      assert added == init + [n];
    }
  }

  /** Appending the newly added cells keeps the log the record of exactly
      the cells visited, sources first and the queue at its end. */
  lemma AppendLogCells(srcs: seq<Cell>, log: seq<Cell>, pos: map<Cell, int>, head: int, q: seq<Cell>,
                       dm: map<Cell, int>, dm': map<Cell, int>, added: seq<Cell>, d: int)
    requires Logged(srcs, log, pos, head, q, dm) && RecordsNew(dm, dm', added, d)
    ensures (log + added)[..|srcs|] == srcs && (log + added)[head..] == q + added
    ensures forall k :: 0 <= k < |log + added| ==> (log + added)[k] in dm'
    ensures forall c {:trigger c in dm'} :: c in dm' ==> c in log + added
  {
    var log' := log + added;
    assert log'[..|srcs|] == log[..|srcs|];
    assert log'[head..] == log[head..] + added;
    forall k | 0 <= k < |log'| ensures log'[k] in dm' {
      if k < |log| {
        assert log'[k] == log[k] && log[k] in dm;
      } else {
        assert log'[k] == added[k - |log|];
      }
    }
    forall c | c in dm' ensures c in log' {
      if c in dm {
        var k :| 0 <= k < |log| && log[k] == c;
        assert log'[k] == c;
      } else {
        var j :| 0 <= j < |added| && added[j] == c;
        assert log'[|log| + j] == c;
      }
    }
  }

  /** The positions after appending the newly added cells: each logged cell
      past the sources at its own index, and no source. */
  lemma AppendLogPositions(srcs: seq<Cell>, log: seq<Cell>, pos: map<Cell, int>, head: int, q: seq<Cell>,
                           dm: map<Cell, int>, added: seq<Cell>)
    requires Logged(srcs, log, pos, head, q, dm) && NoRepeats(added)
    requires forall i :: 0 <= i < |added| ==> added[i] !in dm
    ensures forall i :: |srcs| <= i < |log + added| ==>
              (log + added)[i] in PosAfter(pos, |log|, added) && PosAfter(pos, |log|, added)[(log + added)[i]] == i
    ensures forall i :: 0 <= i < |srcs| ==> srcs[i] !in PosAfter(pos, |log|, added)
  {
    var log', pos' := log + added, PosAfter(pos, |log|, added);
    NoRepeatsDistinct(added);
    PosAfterFacts(pos, |log|, added);
    forall i | |srcs| <= i < |log'| ensures log'[i] in pos' && pos'[log'[i]] == i {
      if i < |log| {
        assert log'[i] == log[i] && log[i] in dm;
      } else {
        assert log'[i] == added[i - |log|];
      }
    }
    forall i | 0 <= i < |srcs| ensures srcs[i] !in pos' {
      assert log[i] == srcs[i] && log[i] in dm;
    }
  }

  /** Appending the newly recorded cells of an expansion to the log keeps it
      a log of the search, with those cells queued at its end. */
  lemma LoggedAppend(srcs: seq<Cell>, log: seq<Cell>, pos: map<Cell, int>, head: int, q: seq<Cell>,
                     dm: map<Cell, int>, dm': map<Cell, int>, added: seq<Cell>, d: int)
    requires Logged(srcs, log, pos, head, q, dm) && RecordsNew(dm, dm', added, d) && NoRepeats(added)
    ensures Logged(srcs, log + added, PosAfter(pos, |log|, added), head, q + added, dm')
  {
    AppendLogCells(srcs, log, pos, head, q, dm, dm', added, d);
    AppendLogPositions(srcs, log, pos, head, q, dm, added);
  }
}
