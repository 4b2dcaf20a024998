/** The simulation state: an obstacle grid and two ordered populations, the
    distance fields computed from either population, and the moves that
    update each population from a field. */
module Simulation {
  import opened Grid
  import opened Paths
  import opened Bfs
  import opened Policies

  /** Which population seeds a distance field. */
  datatype EntityKind = Human | Zombie

  /** An optional constructor argument (absent stands for Python's `None`). */
  datatype Option<T> = None | Some(value: T)

  predicate AllInBounds(cs: seq<Cell>, height: int, width: int) {
    forall i :: 0 <= i < |cs| ==> InBounds(cs[i], height, width)
  }

  /** The distance array and the visited array of a search agree with the
      ghost map of recorded distances; cells not recorded hold the sentinel. */
  ghost predicate Mirrors(field: array2<int>, visited: array2<bool>, dm: map<Cell, int>, height: int, width: int)
    reads field, visited
  {
    field.Length0 == height && field.Length1 == width
    && visited.Length0 == height && visited.Length1 == width
    && forall r, c :: 0 <= r < height && 0 <= c < width ==>
         (visited[r, c] <==> (r, c) in dm)
         && field[r, c] == if (r, c) in dm then dm[(r, c)] else height * width
  }

  /** No more cells are visited than the grid has. */
  lemma VisitedCount(b: Board, srcs: seq<Cell>, dm: map<Cell, int>)
    requires Sound(b, srcs, dm)
    ensures |dm| <= b.height * b.width
  {
    InBoundsCard(dm.Keys, b.height, b.width);
    assert |dm| == |dm.Keys|;
  }

  /** One expansion of the search on values: dequeuing the head of `q` and
      looking at its four-neighbours keeps the invariant with the head done,
      records exactly the cells it queues, and either records more cells or
      leaves a shorter queue. */
  lemma ExpandSearch(b: Board, srcs: seq<Cell>, q: seq<Cell>, dm: map<Cell, int>, done: set<Cell>,
                     near: seq<Cell>, d: int, q': seq<Cell>, dm': map<Cell, int>, added: seq<Cell>)
    requires |q| > 0 && Inv(b, srcs, q, dm, done)
    requires q[0] in dm && InBounds(q[0], b.height, b.width)
    requires near == FourNeighbors(q[0], b.height, b.width) && d == dm[q[0]] + 1
    requires added == LookQueue([], dm, near, |near|, b.obstacles, d)
    requires dm' == LookDist(dm, near, |near|, b.obstacles, d) && q' == q[1..] + added
    ensures Inv(b, srcs, q', dm', done + {q[0]})
    ensures RecordsNew(dm, dm', added, d) && NoRepeats(added)
    ensures |dm'| <= b.height * b.width
    ensures |dm| <= |dm'| && (|dm'| == |dm| ==> |q'| < |q|)
  {
    LookQueues(q[1..], dm, near, |near|, b.obstacles, d);
    ExpandedHead(b, srcs, q, dm, done, near, d, q', dm');
    LookAdds(dm, near, |near|, b.obstacles, d);
    ExtendsOnly(dm, dm', added, d, done, q[0], q[1..], q');
    VisitedCount(b, srcs, dm');
    RecordsNewGrows(dm, dm', added, d);
  }

  /** One expansion keeps the log: the head moves past the dequeued cell,
      the newly recorded cells are logged and queued at the end, and the
      log stays in order of distance. */
  lemma ExpandLog(b: Board, srcs: seq<Cell>, q: seq<Cell>, dm: map<Cell, int>, done: set<Cell>,
                  log: seq<Cell>, pos: map<Cell, int>, head: int, q': seq<Cell>, dm': map<Cell, int>, added: seq<Cell>)
    requires |q| > 0 && Inv(b, srcs, q, dm, done)
    requires Logged(srcs, log, pos, head, q, dm) && Ordered(log, dm)
    requires q[0] in dm && RecordsNew(dm, dm', added, dm[q[0]] + 1) && NoRepeats(added) && q' == q[1..] + added
    ensures Logged(srcs, log + added, PosAfter(pos, |log|, added), head + 1, q', dm')
    ensures Ordered(log + added, dm')
  {
    var d := dm[q[0]] + 1;
    LoggedDequeue(srcs, log, pos, head, q, dm);
    LastLogged(srcs, log, pos, head, q, dm);
    LoggedAppend(srcs, log, pos, head + 1, q[1..], dm, dm', added, d);
    OrderedRecords(dm, log, dm', added, d);
  }

  /** `field` is the distance field of `srcs` on `b`: it has the board's
      shape, every source holds 0, every cell reachable from a source holds
      the length of a shortest walk (below the sentinel) and every other
      cell holds the sentinel `height * width`. */
  ghost predicate DistanceField(b: Board, srcs: seq<Cell>, field: array2<int>)
    reads field
  {
    Fits(field, b)
    && (forall i :: 0 <= i < |srcs| ==> InField(field, srcs[i]) && At(field, srcs[i]) == 0)
    && forall r, c :: 0 <= r < b.height && 0 <= c < b.width ==>
         if Reachable(b, srcs, (r, c))
         then IsShortest(b, srcs, (r, c), field[r, c]) && field[r, c] < b.height * b.width
         else field[r, c] == b.height * b.width
  }

  /** No cell of `log` after its first `k` entries occurs twice, and none
      of them is among the first `k`. */
  ghost predicate OnceAfter(log: seq<Cell>, k: nat) {
    (forall i, j :: k <= i < j < |log| ==> log[i] != log[j])
    && forall i :: k <= i < |log| ==> log[i] !in log[..k]
  }

  /** `log` lists the cells in the order a breadth-first search from `srcs`
      queues them: the sources first (once per occurrence), then every other
      reachable cell exactly once, and nothing else. */
  ghost predicate EnqueueOrder(b: Board, srcs: seq<Cell>, log: seq<Cell>) {
    |srcs| <= |log| && log[..|srcs|] == srcs
    && OnceAfter(log, |srcs|)
    && forall c :: c in log <==> Reachable(b, srcs, c)
  }

  /** An obstacle that is not itself a source keeps the sentinel, since the
      search never enters a full cell. */
  lemma ObstacleKeepsSentinel(b: Board, srcs: seq<Cell>, field: array2<int>, c: Cell)
    requires DistanceField(b, srcs, field)
    requires InBounds(c, b.height, b.width) && c in b.obstacles && c !in srcs
    ensures At(field, c) == b.height * b.width
  {
    ObstacleUnreachable(b, srcs, c);
    assert c == (c.0, c.1);
  }

  /** A source with no empty four-neighbour reaches only itself. */
  lemma SealedSource(b: Board, s: Cell)
    requires forall n :: !Open4(b, s, n)
    ensures forall c :: Reachable(b, [s], c) <==> c == s
  {
    assert IsPathTo(b, [s], [s], s);
    forall c, p | IsPathTo(b, [s], p, c) ensures c == s {
      if |p| >= 2 {
        FirstStep(b, [s], p, c);
        assert false;
      }
    }
  }

  /** No cell of a distance field exceeds the sentinel. */
  lemma AtMostSentinel(b: Board, srcs: seq<Cell>, field: array2<int>, c: Cell)
    requires DistanceField(b, srcs, field) && InBounds(c, b.height, b.width)
    ensures At(field, c) <= b.height * b.width
  {
    assert c == (c.0, c.1);
  }

  /** The 3 by 3 grid with obstacles at (0, 1), (1, 2) and (2, 1), one zombie
      at (0, 2) and one human at (1, 1): the zombie is sealed in, so every
      other cell holds the sentinel 9, the human has nothing better than its
      own cell and stays, and the zombie has no empty neighbour and stays. */
  /** The sealed-in zombie of the sample run stays put whatever field it
      is given, since it has no empty four-neighbour to move to. */
  lemma SealedZombieStays(f: array2<int>)
    requires Fits(f, Board(3, 3, {(0, 1), (1, 2), (2, 1)}))
    ensures forall n :: !Open4(Board(3, 3, {(0, 1), (1, 2), (2, 1)}), (0, 2), n)
    ensures forall to :: PursueMove(Board(3, 3, {(0, 1), (1, 2), (2, 1)}), f, (0, 2), to) <==> to == (0, 2)
  {
    var b := Board(3, 3, {(0, 1), (1, 2), (2, 1)});
    forall n ensures !Open4(b, (0, 2), n) {
    }
  }

  lemma SealedZombieScenario(field: array2<int>)
    requires DistanceField(Board(3, 3, {(0, 1), (1, 2), (2, 1)}), [(0, 2)], field)
    ensures At(field, (0, 2)) == 0 && At(field, (1, 1)) == 9
    ensures forall to :: FleeMove(Board(3, 3, {(0, 1), (1, 2), (2, 1)}), field, (1, 1), to) <==> to == (1, 1)
    ensures forall to :: PursueMove(Board(3, 3, {(0, 1), (1, 2), (2, 1)}), field, (0, 2), to) <==> to == (0, 2)
  {
    var b := Board(3, 3, {(0, 1), (1, 2), (2, 1)});
    SealedZombieStays(field);
    SealedSource(b, (0, 2));
    assert !Reachable(b, [(0, 2)], (1, 1));
    forall n | Open8(b, (1, 1), n) ensures At(field, n) <= At(field, (1, 1)) {
      AtMostSentinel(b, [(0, 2)], field, n);
    }
  }

  /** The cells of `log` were queued nearest first: the field value never
      decreases along the log. */
  ghost predicate ByDistance(field: array2<int>, log: seq<Cell>)
    reads field
  {
    (forall i :: 0 <= i < |log| ==> InField(field, log[i]))
    && forall i, j {:trigger log[i], log[j]} :: 0 <= i && j == i + 1 && j < |log| ==> At(field, log[i]) <= At(field, log[j])
  }

  lemma {:induction false} ByDistanceMono(field: array2<int>, log: seq<Cell>, i: int, j: int)
    requires ByDistance(field, log) && 0 <= i <= j < |log|
    ensures At(field, log[i]) <= At(field, log[j])
    decreases j - i
  {
    if i < j {
      ByDistanceMono(field, log, i, j - 1);
    }
  }

  /** A reachable cell of a distance field holds its shortest distance. */
  lemma FieldIsShortest(b: Board, srcs: seq<Cell>, field: array2<int>, c: Cell)
    requires DistanceField(b, srcs, field) && InBounds(c, b.height, b.width) && Reachable(b, srcs, c)
    ensures IsShortest(b, srcs, c, At(field, c)) && At(field, c) < b.height * b.width
  {
    assert c == (c.0, c.1);
  }

  /** Breadth-first order: a cell queued later is never nearer the sources
      than a cell queued earlier. */
  lemma QueuedNearestFirst(b: Board, srcs: seq<Cell>, field: array2<int>, log: seq<Cell>, i: int, j: int, di: int, dj: int)
    requires DistanceField(b, srcs, field) && EnqueueOrder(b, srcs, log) && ByDistance(field, log)
    requires 0 <= i <= j < |log|
    requires IsShortest(b, srcs, log[i], di) && IsShortest(b, srcs, log[j], dj)
    ensures di <= dj
  {
    ByDistanceMono(field, log, i, j);
    FieldIsShortest(b, srcs, field, log[i]);
    FieldIsShortest(b, srcs, field, log[j]);
    ShortestUnique(b, srcs, log[i], di, At(field, log[i]));
    ShortestUnique(b, srcs, log[j], dj, At(field, log[j]));
  }

  /** On a clear 1 by 3 strip, the middle is 1 step and the far end 2 steps
      from the left end. */
  lemma StripDistances()
    ensures IsShortest(Board(1, 3, {}), [(0, 0)], (0, 1), 1)
    ensures IsShortest(Board(1, 3, {}), [(0, 0)], (0, 2), 2)
  {
    var b := Board(1, 3, {});
    OpenBoardIsManhattan(b, (0, 0), (0, 1));
    OpenBoardIsManhattan(b, (0, 0), (0, 2));
    assert Manhattan((0, 0), (0, 1)) == 1 && Manhattan((0, 0), (0, 2)) == 2;
  }

  /** On a clear 1 by 3 strip searched from its left end, the cells hold
      0, 1 and 2 from left to right. */
  lemma StripField(field: array2<int>)
    requires DistanceField(Board(1, 3, {}), [(0, 0)], field)
    ensures At(field, (0, 0)) == 0 && At(field, (0, 1)) == 1 && At(field, (0, 2)) == 2
  {
    var b, srcs := Board(1, 3, {}), [(0, 0)];
    assert srcs[0] == (0, 0);
    StripDistances();
    FieldIsShortest(b, srcs, field, (0, 1));
    FieldIsShortest(b, srcs, field, (0, 2));
    ShortestUnique(b, srcs, (0, 1), 1, At(field, (0, 1)));
    ShortestUnique(b, srcs, (0, 2), 2, At(field, (0, 2)));
  }

  /** So queuing the far end of the strip before the middle is not in
      distance order, while left to right is. */
  lemma StripOrder(field: array2<int>)
    requires DistanceField(Board(1, 3, {}), [(0, 0)], field)
    ensures !ByDistance(field, [(0, 0), (0, 2), (0, 1)])
    ensures ByDistance(field, [(0, 0), (0, 1), (0, 2)])
  {
    StripField(field);
    var bad: seq<Cell> := [(0, 0), (0, 2), (0, 1)];
    assert At(field, bad[1]) > At(field, bad[2]);
    var good: seq<Cell> := [(0, 0), (0, 1), (0, 2)];
    assert good[0] == (0, 0) && good[1] == (0, 1) && good[2] == (0, 2);
  }

  /** An empty side-neighbour of a reachable cell is reachable, and at most
      one step farther from the sources. */
  lemma NeighbourWithinOne(b: Board, srcs: seq<Cell>, field: array2<int>, a: Cell, n: Cell)
    requires DistanceField(b, srcs, field)
    requires InBounds(a, b.height, b.width) && Reachable(b, srcs, a) && Open4(b, a, n)
    ensures Reachable(b, srcs, n) && At(field, n) <= At(field, a) + 1
  {
    FieldIsShortest(b, srcs, field, a);
    ShortestStep(b, srcs, a, n, At(field, a));
    FieldIsShortest(b, srcs, field, n);
  }

  /** Side-neighbours need not differ by exactly one: two neighbouring
      sources both hold 0. */
  lemma NeighbouringSourcesTie(field: array2<int>)
    requires DistanceField(Board(1, 2, {}), [(0, 0), (0, 1)], field)
    ensures Open4(Board(1, 2, {}), (0, 0), (0, 1))
    ensures At(field, (0, 0)) == 0 && At(field, (0, 1)) == 0
  {
    var srcs: seq<Cell> := [(0, 0), (0, 1)];
    assert srcs[0] == (0, 0) && srcs[1] == (0, 1);
    assert At(field, srcs[0]) == 0 && At(field, srcs[1]) == 0;
  }

  /** Once the search is complete, the distance array lists the log nearest first. */
  lemma OrderDone(b: Board, srcs: seq<Cell>, field: array2<int>, visited: array2<bool>, dm: map<Cell, int>, log: seq<Cell>)
    requires Sound(b, srcs, dm) && Ordered(log, dm) && Mirrors(field, visited, dm, b.height, b.width)
    ensures ByDistance(field, log)
  {
    forall i | 0 <= i < |log| ensures InField(field, log[i]) && At(field, log[i]) == dm[log[i]] {
      assert log[i] in dm && log[i] == (log[i].0, log[i].1);
    }
  }

  /** Once the search is complete, the arrays show its result. */
  lemma FieldDone(b: Board, srcs: seq<Cell>, field: array2<int>, visited: array2<bool>, dm: map<Cell, int>, done: set<Cell>)
    requires Inv(b, srcs, [], dm, done)
    requires Mirrors(field, visited, dm, b.height, b.width)
    ensures DistanceField(b, srcs, field)
  {
    Complete(b, srcs, dm, done);
    forall i | 0 <= i < |srcs| ensures InField(field, srcs[i]) && At(field, srcs[i]) == 0 {
      assert srcs[i] == (srcs[i].0, srcs[i].1);
    }
  }

  /** Past the sources, the log holds each cell once. */
  lemma LogOnce(srcs: seq<Cell>, log: seq<Cell>, pos: map<Cell, int>, head: int, q: seq<Cell>, dm: map<Cell, int>)
    requires Logged(srcs, log, pos, head, q, dm)
    ensures |srcs| <= |log| && log[..|srcs|] == srcs && OnceAfter(log, |srcs|)
  {
    LoggedOnce(srcs, log, pos, head, q, dm);
  }

  /** Once the search is complete, the log lists exactly the reachable cells. */
  lemma LogCovers(b: Board, srcs: seq<Cell>, dm: map<Cell, int>, done: set<Cell>,
                  log: seq<Cell>, pos: map<Cell, int>, head: int)
    requires Inv(b, srcs, [], dm, done) && Logged(srcs, log, pos, head, [], dm)
    ensures forall c :: c in log <==> Reachable(b, srcs, c)
  {
    Complete(b, srcs, dm, done);
    forall c ensures c in log <==> Reachable(b, srcs, c) {
      if c in log {
        var k :| 0 <= k < |log| && log[k] == c;
      }
    }
  }

  /** Once the search is complete, the log is the order of a breadth-first search. */
  lemma LogDone(b: Board, srcs: seq<Cell>, dm: map<Cell, int>, done: set<Cell>,
                log: seq<Cell>, pos: map<Cell, int>, head: int)
    requires Inv(b, srcs, [], dm, done) && Logged(srcs, log, pos, head, [], dm)
    ensures EnqueueOrder(b, srcs, log)
  {
    LogOnce(srcs, log, pos, head, [], dm);
    LogCovers(b, srcs, dm, done, log, pos, head);
  }

  /** The state a round of the search starts and ends in: the search
      invariant, the log of enqueued cells with the queue as its tail, the log
      nearest first, and no more cells visited than the grid has. */
  ghost predicate Searching(b: Board, srcs: seq<Cell>, q: seq<Cell>, dm: map<Cell, int>, done: set<Cell>,
                            log: seq<Cell>, pos: map<Cell, int>, head: int) {
    Inv(b, srcs, q, dm, done) && Logged(srcs, log, pos, head, q, dm) && Ordered(log, dm)
    && |dm| <= b.height * b.width
  }

  /** Seeding every source at 0, queued and logged in order, starts the
      search in its round state. */
  lemma SearchSeeded(b: Board, srcs: seq<Cell>, dm: map<Cell, int>)
    requires AllInBounds(srcs, b.height, b.width)
    requires forall c :: c in dm <==> c in srcs
    requires forall c :: c in dm ==> dm[c] == 0
    ensures Searching(b, srcs, srcs, dm, {}, srcs, map[], 0)
  {
    Seeded(b, srcs, dm);
    LoggedSeeded(srcs, dm);
    OrderedSeeded(srcs, dm);
    VisitedCount(b, srcs, dm);
  }

  /** When the queue runs empty the search is complete: the distance array
      is the distance field, the log is an enqueue order of the search, and
      the array lists the log nearest first. */
  lemma SearchDone(b: Board, srcs: seq<Cell>, field: array2<int>, visited: array2<bool>, dm: map<Cell, int>, done: set<Cell>,
                   log: seq<Cell>, pos: map<Cell, int>, head: int)
    requires Searching(b, srcs, [], dm, done, log, pos, head)
    requires Mirrors(field, visited, dm, b.height, b.width)
    ensures DistanceField(b, srcs, field) && EnqueueOrder(b, srcs, log) && ByDistance(field, log)
  {
    FieldDone(b, srcs, field, visited, dm, done);
    LogDone(b, srcs, dm, done, log, pos, head);
    OrderDone(b, srcs, field, visited, dm, log);
  }

  class Apocalypse {
    const height: nat
    const width: nat
    /** The obstacle grid: `cells[r, c]` is true when the cell is FULL. */
    var cells: array2<bool>
    /** The obstacle cells, as a set. */
    ghost var obstacles: set<Cell>
    var zombieList: seq<Cell>
    var humanList: seq<Cell>

    ghost predicate Valid()
      reads this, cells
    {
      cells.Length0 == height && cells.Length1 == width
      && (forall c {:trigger c in obstacles} :: c in obstacles ==> InBounds(c, height, width))
      && forall r, c :: 0 <= r < height && 0 <= c < width ==> (cells[r, c] <==> (r, c) in obstacles)
    }

    ghost function Layout(): Board
      reads this
    {
      Board(height, width, obstacles)
    }

    /** A `gridHeight` by `gridWidth` grid, empty except for the listed
        obstacles, with the given populations (absent lists are empty). */
    constructor (gridHeight: nat, gridWidth: nat, obstacleList: Option<seq<Cell>>,
                 initialZombies: Option<seq<Cell>>, initialHumans: Option<seq<Cell>>)
      requires obstacleList.Some? ==> AllInBounds(obstacleList.value, gridHeight, gridWidth)
      ensures Valid() && fresh(cells)
      ensures height == gridHeight && width == gridWidth
      ensures obstacles == if obstacleList.Some? then set c | c in obstacleList.value else {}
      ensures zombieList == if initialZombies.Some? then initialZombies.value else []
      ensures humanList == if initialHumans.Some? then initialHumans.value else []
    {
      height, width := gridHeight, gridWidth;
      cells := new bool[gridHeight, gridWidth]((r, c) => false);
      obstacles := {};
      zombieList := if initialZombies.Some? then initialZombies.value else [];
      humanList := if initialHumans.Some? then initialHumans.value else [];
      new;
      if obstacleList.Some? {
        var list := obstacleList.value;
        for i := 0 to |list|
          invariant Valid() && height == gridHeight && width == gridWidth && fresh(cells)
          invariant obstacles == set c | c in list[..i]
          invariant zombieList == (if initialZombies.Some? then initialZombies.value else [])
          invariant humanList == (if initialHumans.Some? then initialHumans.value else [])
        {
          SetFull(list[i].0, list[i].1);
          assert list[..i + 1] == list[..i] + [list[i]];
        }
        assert list[..|list|] == list;
      }
    }

    /** Marks one in-bounds cell as an obstacle. */
    method SetFull(row: int, col: int)
      requires Valid() && InBounds((row, col), height, width)
      modifies this`obstacles, cells
      ensures Valid()
      ensures obstacles == old(obstacles) + {(row, col)}
    {
      cells[row, col] := true;
      obstacles := obstacles + {(row, col)};
    }

    /** Whether an in-bounds cell is free of obstacles. */
    function IsEmpty(row: int, col: int): (empty: bool)
      reads this, cells
      requires Valid() && InBounds((row, col), height, width)
      ensures empty <==> (row, col) !in obstacles
    {
      !cells[row, col]
    }

    /** Empties the obstacle grid and both populations; the size stays. */
    method Clear()
      requires Valid()
      modifies this
      ensures Valid() && fresh(cells)
      ensures obstacles == {} && zombieList == [] && humanList == []
      ensures NumZombies() == 0 && NumHumans() == 0
    {
      cells := new bool[height, width]((r, c) => false);
      obstacles := {};
      zombieList := [];
      humanList := [];
    }

    method AddZombie(row: int, col: int)
      modifies this`zombieList
      ensures zombieList == old(zombieList) + [(row, col)]
      ensures NumZombies() == old(NumZombies()) + 1
      ensures humanList == old(humanList) && obstacles == old(obstacles)
    {
      zombieList := zombieList + [(row, col)];
    }

    /** How many zombies there are. */
    function NumZombies(): (n: nat)
      reads this
      ensures n == |zombieList|
    {
      |zombieList|
    }

    /** The zombies, in the order they were added. */
    method Zombies() returns (yielded: seq<Cell>)
      ensures yielded == zombieList && |yielded| == NumZombies()
    {
      yielded := [];
      for i := 0 to |zombieList|
        invariant yielded == zombieList[..i]
      {
        yielded := yielded + [zombieList[i]];
      }
    }

    method AddHuman(row: int, col: int)
      modifies this`humanList
      ensures humanList == old(humanList) + [(row, col)]
      ensures NumHumans() == old(NumHumans()) + 1
      ensures zombieList == old(zombieList) && obstacles == old(obstacles)
    {
      humanList := humanList + [(row, col)];
    }

    /** How many humans there are. */
    function NumHumans(): (n: nat)
      reads this
      ensures n == |humanList|
    {
      |humanList|
    }

    /** The humans, in the order they were added. */
    method Humans() returns (yielded: seq<Cell>)
      ensures yielded == humanList && |yielded| == NumHumans()
    {
      yielded := [];
      for i := 0 to |humanList|
        invariant yielded == humanList[..i]
      {
        yielded := yielded + [humanList[i]];
      }
    }

    /** The population that seeds a distance field of the given kind. */
    function Entities(kind: EntityKind): (r: seq<Cell>)
      reads this
      ensures kind == Human ==> r == humanList
      ensures kind != Human ==> r == zombieList
    {
      if kind == Human then humanList else zombieList
    }

    /** Breadth-first search from every member of the chosen population at
        once. Each cell of the result holds the number of steps of a shortest
        four-connected walk through empty cells from the nearest member, or the
        sentinel `height * width` when no such walk exists. `enqueued` lists
        the cells in the order they entered the queue: the members (once per
        occurrence), then every other reachable cell exactly once, nearest first. */
    method ComputeDistanceField(kind: EntityKind) returns (field: array2<int>, ghost enqueued: seq<Cell>)
      requires Valid() && AllInBounds(Entities(kind), height, width)
      ensures fresh(field)
      ensures DistanceField(Layout(), Entities(kind), field)
      ensures EnqueueOrder(Layout(), Entities(kind), enqueued)
      ensures ByDistance(field, enqueued)
    {
      var entities := Entities(kind);
      var visited, boundary;
      ghost var dm;
      field, visited, boundary, dm := SeedField(entities);
      enqueued := RunSearch(Layout(), field, visited, entities, boundary, dm, {}, entities, map[], 0);
    }

    /** Marks every member of `entities` visited at distance zero and queues
        each occurrence, in order; every other cell holds the sentinel. */
    method SeedField(entities: seq<Cell>)
      returns (field: array2<int>, visited: array2<bool>, boundary: seq<Cell>, ghost dm: map<Cell, int>)
      requires AllInBounds(entities, height, width)
      ensures fresh(field) && fresh(visited)
      ensures boundary == entities
      ensures forall c :: c in dm <==> c in entities
      ensures forall c :: c in dm ==> dm[c] == 0
      ensures Mirrors(field, visited, dm, height, width)
      ensures Searching(Layout(), entities, boundary, dm, {}, entities, map[], 0)
    {
      visited := new bool[height, width]((r, c) => false);
      field := new int[height, width]((r, c) => width * height);
      boundary := [];
      dm := map[];
      for i := 0 to |entities|
        invariant boundary == entities[..i]
        invariant forall c :: c in dm <==> c in entities[..i]
        invariant forall c :: c in dm ==> dm[c] == 0
        invariant Mirrors(field, visited, dm, height, width)
      {
        var entity := entities[i];
        boundary := boundary + [entity];
        visited[entity.0, entity.1] := true;
        field[entity.0, entity.1] := 0;
        dm := dm[entity := 0];
        assert entities[..i + 1] == entities[..i] + [entity];
      }
      assert entities[..|entities|] == entities;
      SearchSeeded(Layout(), entities, dm);
    }

    /** The search loop: expands the head of the queue until the queue is
        empty, and then the arrays and the log show the search's result. */
    method RunSearch(ghost b: Board, field: array2<int>, visited: array2<bool>, ghost srcs: seq<Cell>,
                     boundary: seq<Cell>, ghost dm: map<Cell, int>, ghost done: set<Cell>,
                     ghost log: seq<Cell>, ghost pos: map<Cell, int>, ghost head: int)
      returns (ghost log': seq<Cell>)
      requires Valid() && b == Layout() && visited != cells
      requires Searching(b, srcs, boundary, dm, done, log, pos, head)
      requires Mirrors(field, visited, dm, height, width)
      modifies field, visited
      ensures log <= log'
      ensures DistanceField(b, srcs, field)
      ensures EnqueueOrder(b, srcs, log')
      ensures ByDistance(field, log')
    {
      var queue := boundary;
      ghost var dm', done', pos', head' := dm, done, pos, head;
      log' := log;
      while |queue| > 0
        invariant Searching(b, srcs, queue, dm', done', log', pos', head')
        invariant Mirrors(field, visited, dm', height, width)
        invariant log <= log'
        decreases height * width - |dm'|, |queue|
      {
        ghost var added;
        queue, dm', done', log', pos', head', added := ExpandHead(b, field, visited, srcs, queue, dm', done', log', pos', head');
      }
      SearchDone(b, srcs, field, visited, dm', done', log', pos', head');
    }

    /** One round of the search: dequeues the head of the queue and looks at
        its four-neighbours, visiting and queuing exactly those it finds
        unvisited and empty (`added`), one step farther than the head. Either
        more cells are visited or the queue is shorter, so the search ends. */
    method ExpandHead(ghost b: Board, field: array2<int>, visited: array2<bool>, ghost srcs: seq<Cell>,
                      boundary: seq<Cell>, ghost dm: map<Cell, int>, ghost done: set<Cell>,
                      ghost log: seq<Cell>, ghost pos: map<Cell, int>, ghost head: int)
      returns (boundary': seq<Cell>, ghost dm': map<Cell, int>, ghost done': set<Cell>,
               ghost log': seq<Cell>, ghost pos': map<Cell, int>, ghost head': int, ghost added: seq<Cell>)
      requires Valid() && b == Layout() && visited != cells
      requires |boundary| > 0 && Searching(b, srcs, boundary, dm, done, log, pos, head)
      requires Mirrors(field, visited, dm, height, width)
      modifies field, visited
      ensures Searching(b, srcs, boundary', dm', done', log', pos', head')
      ensures Mirrors(field, visited, dm', height, width)
      ensures head' == head + 1 && done' == done + {boundary[0]}
      ensures RecordsNew(dm, dm', added, dm[boundary[0]] + 1)
      ensures var near := FourNeighbors(boundary[0], b.height, b.width);
        added == LookQueue([], dm, near, |near|, b.obstacles, dm[boundary[0]] + 1)
        && dm' == LookDist(dm, near, |near|, b.obstacles, dm[boundary[0]] + 1)
      ensures boundary' == boundary[1..] + added && log' == log + added
      ensures |dm| <= |dm'| && (|dm'| == |dm| ==> |boundary'| < |boundary|)
    {
      HeadRecorded(b, srcs, boundary, dm, done);
      var current := boundary[0];
      ghost var d := dm[current] + 1;
      ghost var near := FourNeighbors(current, b.height, b.width);
      boundary', dm' := ExpandNeighbors(b, field, visited, current, boundary[1..], dm);
      added := LookQueue([], dm, near, |near|, b.obstacles, d);
      LookQueues(boundary[1..], dm, near, |near|, b.obstacles, d);
      assert boundary' == boundary[1..] + added;
      ExpandSearch(b, srcs, boundary, dm, done, near, d, boundary', dm', added);
      ExpandLog(b, srcs, boundary, dm, done, log, pos, head, boundary', dm', added);
      done', head' := done + {current}, head + 1;
      log', pos' := log + added, PosAfter(pos, |log|, added);
    }

    /** Looks at the four-neighbours of `current` in order, visiting and
        queuing each one that is unvisited and empty at one more than the
        distance of `current`. */
    method ExpandNeighbors(ghost b: Board, field: array2<int>, visited: array2<bool>, current: Cell,
                           boundary: seq<Cell>, ghost dm: map<Cell, int>)
      returns (boundary': seq<Cell>, ghost dm': map<Cell, int>)
      requires Valid() && b == Layout() && visited != cells
      requires InBounds(current, height, width) && current in dm
      requires Mirrors(field, visited, dm, height, width)
      modifies field, visited
      ensures Mirrors(field, visited, dm', height, width)
      ensures var near := FourNeighbors(current, b.height, b.width);
        boundary' == LookQueue(boundary, dm, near, |near|, b.obstacles, dm[current] + 1)
        && dm' == LookDist(dm, near, |near|, b.obstacles, dm[current] + 1)
    {
      boundary', dm' := boundary, dm;
      var neighbors := FourNeighbors(current, height, width);
      assert neighbors == FourNeighbors(current, b.height, b.width);
      for k := 0 to |neighbors|
        invariant Mirrors(field, visited, dm', height, width)
        invariant current in dm' && dm'[current] == dm[current]
        invariant boundary' == LookQueue(boundary, dm, neighbors, k, b.obstacles, dm[current] + 1)
        invariant dm' == LookDist(dm, neighbors, k, b.obstacles, dm[current] + 1)
      {
        boundary', dm' := LookAtNeighbor(b, field, visited, current, k, boundary', dm');
      }
    }

    /** Looks at the `k`-th four-neighbour of `current`: when it is unvisited
        and empty it is visited at one more than the distance of `current`
        and queued; otherwise nothing changes. */
    method LookAtNeighbor(ghost b: Board, field: array2<int>, visited: array2<bool>, current: Cell, k: int,
                          boundary: seq<Cell>, ghost dm: map<Cell, int>)
      returns (boundary': seq<Cell>, ghost dm': map<Cell, int>)
      requires Valid() && b == Layout() && visited != cells
      requires InBounds(current, height, width) && current in dm
      requires 0 <= k < |FourNeighbors(current, height, width)|
      requires Mirrors(field, visited, dm, height, width)
      modifies field, visited
      ensures Mirrors(field, visited, dm', height, width)
      ensures var n := FourNeighbors(current, b.height, b.width)[k];
        if n !in dm && n !in b.obstacles
        then dm' == dm[n := dm[current] + 1] && boundary' == boundary + [n]
        else dm' == dm && boundary' == boundary
    {
      var neighbors := FourNeighbors(current, height, width);
      var neighbor := neighbors[k];
      assert neighbor in neighbors && neighbor == (neighbor.0, neighbor.1);
      if !visited[neighbor.0, neighbor.1] && IsEmpty(neighbor.0, neighbor.1) {
        boundary', dm' := VisitNeighbor(field, visited, current, neighbor, boundary, dm);
      } else {
        boundary', dm' := boundary, dm;
      }
    }

    /** Visits the in-bounds cell `n` at one more than the distance of
        `current`, and queues it. */
    method VisitNeighbor(field: array2<int>, visited: array2<bool>, current: Cell, n: Cell,
                         boundary: seq<Cell>, ghost dm: map<Cell, int>)
      returns (boundary': seq<Cell>, ghost dm': map<Cell, int>)
      requires InBounds(current, height, width) && current in dm && InBounds(n, height, width)
      requires Mirrors(field, visited, dm, height, width)
      modifies field, visited
      ensures Mirrors(field, visited, dm', height, width)
      ensures dm' == dm[n := dm[current] + 1] && boundary' == boundary + [n]
    {
      var distance := field[current.0, current.1] + 1;
      assert current == (current.0, current.1);
      MarkVisited(field, visited, dm, n, distance);
      boundary', dm' := boundary + [n], dm[n := distance];
    }

    /** Records distance `d` for the in-bounds cell `n`. */
    method MarkVisited(field: array2<int>, visited: array2<bool>, ghost dm: map<Cell, int>, n: Cell, d: int)
      requires Mirrors(field, visited, dm, height, width) && InBounds(n, height, width)
      modifies field, visited
      ensures Mirrors(field, visited, dm[n := d], height, width)
    {
      visited[n.0, n.1] := true;
      field[n.0, n.1] := d;
    }

    /** Every human moves, in list order, to an empty eight-neighbour of
        largest zombie distance when that beats its own cell, and otherwise
        stays. A human with no empty eight-neighbour makes the move fail
        (`ok` is false) and leaves the list as it was. */
    method MoveHumans(field: array2<int>) returns (ok: bool)
      requires Valid() && Fits(field, Layout()) && AllInBounds(humanList, height, width)
      modifies this`humanList
      ensures ok <==> forall i :: 0 <= i < |old(humanList)| ==> HasOpen8(Layout(), old(humanList)[i])
      ensures !ok ==> humanList == old(humanList)
      ensures ok ==> |humanList| == |old(humanList)| && AllInBounds(humanList, height, width)
      ensures ok ==> forall i :: 0 <= i < |humanList| ==> FleeMove(Layout(), field, old(humanList)[i], humanList[i])
    {
      var humans := humanList;
      var newLocation: seq<Cell> := [];
      for i := 0 to |humans|
        invariant |newLocation| == i && humanList == humans
        invariant forall k :: 0 <= k < i ==> HasOpen8(Layout(), humans[k])
        invariant forall k :: 0 <= k < i ==> InBounds(newLocation[k], height, width)
        invariant forall k :: 0 <= k < i ==> FleeMove(Layout(), field, humans[k], newLocation[k])
      {
        var found, target := FleeTarget(field, humans[i]);
        if !found {
          ok := false;
          return;
        }
        newLocation := newLocation + [target];
      }
      humanList := newLocation;
      ok := true;
    }

    /** Where one human at `human` goes: `found` is false exactly when it has
        no empty eight-neighbour, which is where taking the maximum of an
        empty list raises. */
    method FleeTarget(field: array2<int>, human: Cell) returns (found: bool, target: Cell)
      requires Valid() && Fits(field, Layout()) && InBounds(human, height, width)
      ensures found <==> HasOpen8(Layout(), human)
      ensures found ==> InBounds(target, height, width) && FleeMove(Layout(), field, human, target)
    {
      var locations := EightNeighbors(human, height, width);
      var currDist := field[human.0, human.1];
      var candidates := EmptyAmong(locations);
      assert forall x :: x in candidates <==> Open8(Layout(), human, x);
      if |candidates| == 0 {
        return false, human;
      }
      found := true;
      var maxDist := MaxOver(field, candidates);
      if maxDist > currDist {
        var maxLocations := Ties(field, candidates, maxDist);
        target :| target in maxLocations;
      } else {
        target := human;
      }
    }

    /** Every zombie moves, in list order, to an empty four-neighbour of
        smallest human distance when that beats its own cell, and otherwise
        stays, in particular when it has no empty four-neighbour. */
    method MoveZombies(field: array2<int>)
      requires Valid() && Fits(field, Layout()) && AllInBounds(zombieList, height, width)
      modifies this`zombieList
      ensures |zombieList| == |old(zombieList)| && AllInBounds(zombieList, height, width)
      ensures forall i :: 0 <= i < |zombieList| ==> PursueMove(Layout(), field, old(zombieList)[i], zombieList[i])
    {
      var zombies := zombieList;
      var newLocation: seq<Cell> := [];
      for i := 0 to |zombies|
        invariant |newLocation| == i
        invariant forall k :: 0 <= k < i ==> InBounds(newLocation[k], height, width)
        invariant forall k :: 0 <= k < i ==> PursueMove(Layout(), field, zombies[k], newLocation[k])
      {
        var target := PursueTarget(field, zombies[i]);
        newLocation := newLocation + [target];
      }
      zombieList := newLocation;
    }

    /** Where one zombie at `zombie` goes; with no empty four-neighbour the
        minimum of an empty list raises and the zombie stays. */
    method PursueTarget(field: array2<int>, zombie: Cell) returns (target: Cell)
      requires Valid() && Fits(field, Layout()) && InBounds(zombie, height, width)
      ensures InBounds(target, height, width) && PursueMove(Layout(), field, zombie, target)
    {
      var locations := FourNeighbors(zombie, height, width);
      var currDist := field[zombie.0, zombie.1];
      var candidates := EmptyAmong(locations);
      assert forall x :: x in candidates <==> Open4(Layout(), zombie, x);
      if |candidates| == 0 {
        return zombie;
      }
      var minDist := MinOver(field, candidates);
      if minDist < currDist {
        var minLocations := Ties(field, candidates, minDist);
        target :| target in minLocations;
      } else {
        target := zombie;
      }
    }

    /** The listed in-bounds cells that are free of obstacles, in order. */
    function EmptyAmong(locs: seq<Cell>): (r: seq<Cell>)
      reads this, cells
      requires Valid() && AllInBounds(locs, height, width)
      ensures forall x :: x in r <==> x in locs && x !in obstacles
    {
      if |locs| == 0 then []
      else (if IsEmpty(locs[0].0, locs[0].1) then [locs[0]] else []) + EmptyAmong(locs[1..])
    }
  }
}
