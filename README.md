# Zombie Apocalypse simulation, modelled in Dafny

The `Apocalypse` class of `main.py` keeps three pieces of state:

- a grid of cells, each either empty or full (an obstacle);
- an ordered list of zombies;
- an ordered list of humans.

Each tick of the simulation does two things:

- It computes a distance field from one population, using a multi-source breadth-first search over empty, side-sharing cells. Each cell gets the number of steps to the nearest member of that population, or the sentinel `height * width` if no member can reach it.
- It moves the other population greedily along that field:
  - humans flee to the best empty eight-neighbour;
  - zombies pursue through the best empty four-neighbour;
  - an agent only moves when the move strictly improves its value.

The model has five modules:

- `grid.dfy` (`Grid`) models the grid primitive the class inherits from, as far as `main.py` uses it:
  - coordinates and bounds;
  - neighbour enumeration in four and eight directions, clipped to the grid;
  - the value-level view `Board` of an obstacle layout;
  - the fact that a grid has `height * width` cells.
- `paths.dfy` (`Paths`) says what a distance field should hold:
  - walks through empty cells;
  - reachability;
  - shortest walk length.

  It also proves the facts the search relies on: sources are at zero, shortest lengths are unique, obstacles are unreachable, several sources act as their union, and distance on an open board is Manhattan distance.
- `bfs.dfy` (`Bfs`) holds the breadth-first search invariant, over ghost values:
  - the map of recorded distances;
  - the queue;
  - the set of expanded cells;
  - the log of every queued cell.

  It also holds one lemma per step of the loop, and the final lemma: when the queue is empty, the recorded distances are exactly the shortest distances of exactly the reachable cells.
- `policies.dfy` (`Policies`) holds the movement rules:
  - the maximum, minimum and ties over the field values of a list of cells;
  - `FleeMove` and `PursueMove`, which say where one agent may end up.
- `apocalypse.dfy` (`Simulation`) holds the class itself:
  - `cells` is an `array2<bool>` obstacle grid, tied to a ghost obstacle set by `Valid()`;
  - the populations are `seq<Cell>` fields the methods reassign;
  - the search is a `while` loop over a queue, filling a fresh `array2<int>` and a separate visited `array2<bool>` in place;
  - the two moves are `for` loops that build a new list and then replace the population.

  The search's result is stated by three predicates:
  - `DistanceField`: sources hold 0; every reachable cell holds its shortest distance, which is below the sentinel; every other cell holds the sentinel.
  - `EnqueueOrder`: the queue saw each source occurrence first, then every other reachable cell exactly once, and nothing else. It says which cells were queued, not in what order.
  - `ByDistance`: the cells were queued nearest first, so the distance array never decreases along the enqueue order. This is the breadth-first order; `QueuedNearestFirst` restates it in terms of shortest distances.

## Model

| member | source | states |
|---|---|---|
| Grid.FourNeighbors | main.py:124 | the cells listed are exactly the in-bounds cells sharing a side with the given cell |
| Grid.EightNeighbors | main.py:147 | the cells listed are exactly the in-bounds cells sharing a side or a corner with the given cell |
| Grid.AllCellsCard | main.py:108-109 | a `height` by `width` grid has exactly `height * width` cells |
| Grid.InBoundsCard | main.py:121-132 | any set of in-bounds cells has at most `height * width` members, which bounds how many cells the search can visit |
| Paths.ShortestStep | main.py:124-132 | a cell one open step from a cell at shortest distance `d` is reachable, and its shortest distance is at most `d + 1` |
| Paths.SourceAtZero | main.py:98 | every member of the source list is at shortest distance 0 |
| Paths.ShortestUnique | main.py:96-99 | a cell has at most one shortest distance |
| Paths.ObstacleUnreachable | main.py:128 | no walk enters an obstacle, so an obstacle that is not a source is unreachable |
| Paths.ReachableFromUnion | main.py:113-118 | a cell is reachable from two source lists together iff it is reachable from one of them |
| Paths.ShortestFromUnion | main.py:96-99 | with several sources the distance is the one to the nearest source: the minimum of the two lists' distances |
| Paths.ShortestFromUnionOneSide | main.py:96-99 | when only one list reaches a cell, the union keeps that list's distance |
| Paths.PathAtLeastManhattan | main.py:99 | a four-way walk is at least as long as the Manhattan distance between its ends |
| Paths.WalkIsOpen | main.py:99 | on an obstacle-free grid, the staircase walk between two in-bounds cells is an open walk of Manhattan length |
| Paths.OpenBoardIsManhattan | main.py:99 | on an obstacle-free grid, the four-way distance from one source is the Manhattan distance |
| Paths.OpenFiveByFiveCorner | main.py:99 | on an empty 5 by 5 grid, opposite corners are 8 steps apart |
| Bfs.Seeded | main.py:113-118 | after seeding, with every source at 0 and queued, the search invariant holds |
| Bfs.HeadRecorded | main.py:123 | the head of a non-empty queue is a visited, in-bounds cell, so its distance can be read |
| Bfs.StartExpanding | main.py:123 | dequeuing the head keeps the invariant, with the head's neighbours still to be looked at |
| Bfs.ExpandVisit | main.py:128-132 | visiting an unvisited empty neighbour at the head's distance plus one, and queuing it, keeps the invariant: that distance is shortest and the queue stays in two layers |
| Bfs.ExpandSkip | main.py:128 | skipping a neighbour that is visited or full keeps the invariant |
| Bfs.WitnessedAfterVisit | main.py:132 | recording a neighbour at the head's distance plus one keeps every recorded distance backed by a walk of that length |
| Bfs.SoundAfterVisit | main.py:128-132 | recording a neighbour that no shorter walk reaches keeps every recorded distance shortest |
| Bfs.LayeredAfterVisit | main.py:131 | appending a cell one farther than the head keeps the queue in at most two consecutive layers |
| Bfs.FinishExpanding | main.py:126-132 | once all of the head's four-neighbours are looked at, the head counts as expanded and the invariant holds again |
| Bfs.LookQueues | main.py:126-131 | looking at the neighbours only appends to the queue: the new queue is the old one followed by the cells queued in this round |
| Bfs.LookAdds | main.py:126-132 | the cells queued in one round are four-neighbours of the head that were unvisited and empty, each recorded at the head's distance plus one, none twice, and every earlier distance is kept |
| Bfs.LookExpanding | main.py:126-132 | looking at the first `k` neighbours in order, as the inner loop does, keeps the invariant with those `k` looked at |
| Bfs.ExpandedHead | main.py:121-132 | one whole round (dequeue, then look at every four-neighbour) keeps the invariant with the head expanded, and every recorded cell is expanded, the head, or still queued |
| Bfs.ExtendsOnly | main.py:126-132 | a round records exactly the cells it queues |
| Bfs.RecordsNewGrows | main.py:121-132 | a round that queues a cell visits strictly more cells, and one that queues none changes no distance |
| Bfs.WalkStaysVisited | main.py:121-132 | when every visited cell is expanded, every walk from a source stays among visited cells |
| Bfs.Complete | main.py:121-135 | when the queue is empty, a cell is visited iff it is reachable, and its recorded distance is its shortest distance and below the sentinel |
| Bfs.LoggedSeeded | main.py:113-114 | after seeding, the log of queued cells is exactly the source list |
| Bfs.LoggedDequeue | main.py:123 | dequeuing advances the head of the log and leaves the log unchanged |
| Bfs.LastLogged | main.py:123-131 | the last queued cell is at most one farther than the head being expanded |
| Bfs.OrderedRecords | main.py:131-132 | appending cells recorded at a distance no smaller than the last queued one keeps the log nearest first |
| Bfs.NoRepeatsDistinct | main.py:131 | a list with no repeated last element at any prefix has pairwise distinct members |
| Bfs.AppendLogCells | main.py:131 | after queuing a round's cells, the log still starts with the sources, its tail is the queue, and it holds exactly the visited cells |
| Bfs.AppendLogPositions | main.py:131 | after queuing new distinct cells, each non-source entry of the log has a unique recorded position and no source has one |
| Bfs.LoggedAppend | main.py:131 | queuing a round's new cells appends them to the log and keeps the log's invariant |
| Bfs.LoggedOnce | main.py:113-131 | past the sources, no cell is logged twice and none is a source |
| Policies.MaxOver | main.py:151-152 | the result is the value of one of the listed cells and no listed cell has a larger value |
| Policies.MinOver | main.py:178-179 | the result is the value of one of the listed cells and no listed cell has a smaller value |
| Policies.Ties | main.py:156-157 | the result holds exactly the listed cells whose value equals the given one |
| Simulation.VisitedCount | main.py:121-132 | the search never records more cells than the grid has, which bounds the loop |
| Simulation.ExpandSearch | main.py:121-132 | one round keeps the invariant with the head expanded, records exactly the new cells at the head's distance plus one, and either visits more cells or shortens the queue |
| Simulation.ExpandLog | main.py:123-131 | one round appends exactly its new cells to the log, advances the head, and keeps the log nearest first |
| Simulation.SearchSeeded | main.py:113-118 | seeding starts the search in its round state with the log equal to the source list |
| Simulation.SearchDone | main.py:121-135 | once the queue is empty, the array is the distance field, the log is the enqueue order, and the log is nearest first |
| Simulation.FieldDone | main.py:121-135 | when the queue is empty, the distance array is the distance field of the sources |
| Simulation.LogOnce | main.py:113-131 | the log starts with the source list, and each later cell occurs once and is not a source |
| Simulation.LogCovers | main.py:121-132 | when the queue is empty, the log holds exactly the reachable cells |
| Simulation.LogDone | main.py:113-132 | when the queue is empty, the log holds the sources first, then every other reachable cell exactly once, and nothing else |
| Simulation.OrderDone | main.py:121-132 | when the search is done, the distance array never decreases along the log: cells were queued nearest first |
| Simulation.ByDistanceMono | main.py:121-132 | along a log in distance order, any later cell holds a distance at least that of any earlier one |
| Simulation.FieldIsShortest | main.py:96-99 | in a distance field, a reachable cell holds its shortest distance, below the sentinel |
| Simulation.QueuedNearestFirst | main.py:121-132 | in the search's enqueue order, a cell queued later is never nearer the sources than one queued earlier |
| Simulation.StripDistances | main.py:99 | on a clear 1 by 3 strip, the middle is 1 step and the far end 2 steps from the left end |
| Simulation.StripField | main.py:96-99 | on that strip searched from its left end, the distance field is 0, 1, 2 |
| Simulation.StripOrder | main.py:121-132 | queuing the far end before the middle breaks distance order, and left to right keeps it |
| Simulation.NeighbourWithinOne | main.py:124-132 | an empty side-neighbour of a reachable cell is reachable and holds at most one more than that cell |
| Simulation.NeighbouringSourcesTie | main.py:113-118 | side-neighbours need not differ by exactly one: two neighbouring sources both hold 0 |
| Simulation.ObstacleKeepsSentinel | main.py:128-132 | in a distance field, an obstacle that is not a source holds the sentinel |
| Simulation.SealedSource | main.py:121-132 | a source with no empty four-neighbour reaches only itself |
| Simulation.AtMostSentinel | main.py:108 | no value of a distance field exceeds the sentinel |
| Simulation.SealedZombieStays | main.py:172-182 | on the 3 by 3 grid of the sample run, the sealed-in zombie has no empty four-neighbour and stays put whatever field it is given |
| Simulation.SealedZombieScenario | main.py:197 | on the 3 by 3 grid of the sample run, the sealed-in zombie's field is 0 at the zombie and 9 at the human; the human stays and so does the zombie |
| Simulation.Apocalypse.constructor | main.py:26-43 | the grid is a fresh array of the given size with exactly the listed obstacles; each absent list is empty, and each given list is copied |
| Simulation.Apocalypse.SetFull | main.py:35 | one in-bounds cell becomes an obstacle and no other cell changes |
| Simulation.Apocalypse.IsEmpty | main.py:128 | a cell is empty iff it is not an obstacle |
| Simulation.Apocalypse.Clear | main.py:45-52 | a fresh grid with no obstacles, both populations empty so both counts are 0; the size is kept |
| Simulation.Apocalypse.AddZombie | main.py:54-58 | appends exactly the given cell to the zombies, so the count grows by one; the humans and the obstacles are unchanged |
| Simulation.Apocalypse.NumZombies | main.py:60-64 | the count is the length of the zombie list |
| Simulation.Apocalypse.Zombies | main.py:66-73 | yields the zombies in the order they were added, as many as the count, without changing state |
| Simulation.Apocalypse.AddHuman | main.py:75-79 | appends exactly the given cell to the humans, so the count grows by one; the zombies and the obstacles are unchanged |
| Simulation.Apocalypse.NumHumans | main.py:81-85 | the count is the length of the human list |
| Simulation.Apocalypse.Humans | main.py:87-93 | yields the humans in the order they were added, as many as the count, without changing state |
| Simulation.Apocalypse.Entities | main.py:101-104 | the humans for `Human` and the zombies for any other kind |
| Simulation.Apocalypse.ComputeDistanceField | main.py:95-135 | the result is a fresh array holding the distance field of the chosen population; the cells were queued sources first, then each other reachable cell exactly once, nearest first |
| Simulation.Apocalypse.SeedField | main.py:106-118 | the arrays are fresh; every source is visited at 0, every other cell is unvisited and holds the sentinel, the queue is the source list, and the search starts in its round state |
| Simulation.Apocalypse.RunSearch | main.py:121-132 | the loop runs until the queue is empty; the log only grows, and at the end the array is the distance field and the log is the enqueue order, nearest first |
| Simulation.Apocalypse.ExpandHead | main.py:122-132 | one dequeue and expansion: the new queue is the old tail followed by the round's new cells, the log grows by exactly those cells, the recorded distances are the old ones plus those cells at the head's distance plus one; the round state is kept and either more cells are visited or the queue is shorter |
| Simulation.Apocalypse.ExpandNeighbors | main.py:124-132 | after the inner loop over the four-neighbours in order, the queue and the recorded distances are the old ones with each unvisited empty neighbour queued and recorded at the head's distance plus one |
| Simulation.Apocalypse.LookAtNeighbor | main.py:126-132 | an unvisited empty neighbour is recorded at one more than the head and appended to the queue; any other neighbour leaves the queue and the distances unchanged |
| Simulation.Apocalypse.VisitNeighbor | main.py:130-132 | the neighbour is recorded at the head's distance plus one and appended to the queue, and the arrays agree with the new distances |
| Simulation.Apocalypse.MarkVisited | main.py:130-132 | the arrays now record the new cell as visited at its distance |
| Simulation.Apocalypse.MoveHumans | main.py:138-163 | it succeeds iff every human has an empty eight-neighbour, and on failure the humans are unchanged; on success the list keeps its length and order, and human `i` ends where `FleeMove` allows |
| Simulation.Apocalypse.FleeTarget | main.py:146-162 | a target exists iff the human has an empty eight-neighbour; it is the human's own cell when no empty neighbour is farther from the zombies, and otherwise an empty eight-neighbour of largest distance |
| Simulation.Apocalypse.MoveZombies | main.py:165-192 | the list keeps its length and order, and zombie `i` ends where `PursueMove` allows |
| Simulation.Apocalypse.PursueTarget | main.py:172-191 | a zombie with no empty four-neighbour, or none nearer the humans, stays; otherwise it moves to an empty four-neighbour of smallest distance |
| Simulation.Apocalypse.EmptyAmong | main.py:151-152 | the result holds exactly the listed cells that are not obstacles |

## Left out

- The animation front end and the commented-out calls that start it (main.py:8, 196-197). The sample grid of main.py:197 is stated as `SealedZombieScenario` instead.
- `print(self)` in the constructor (main.py:44), which is console output.
- The grid and queue primitives. `poc_grid.py` and `poc_queue.py` are not part of this model. They are modelled from their use in `main.py`:
  - the obstacle grid and the visited grid are `array2<bool>`;
  - the neighbour lists are clipped to the grid, in the order up, down, left, right, then the four diagonals;
  - the queue is a `seq` that is dequeued at the front and appended at the back.
- The random-number source behind `random.choice` (main.py:160, 189). The tie-break is a nondeterministic choice (`:|`) from the tie set, and its uniformity is not modelled.
- Coordinates outside the grid. The following are required to be in bounds:
  - the constructor's obstacles;
  - the members of the population used by `ComputeDistanceField`;
  - the agents moved by `MoveHumans` and `MoveZombies`.

  Python would raise `IndexError` for these, or wrap around for negative indices. `AddZombie` and `AddHuman` check nothing, as in the source.
- MoveHumans: a human with no empty eight-neighbour makes the whole move fail, as `max` of an empty list raises `ValueError` at main.py:151; the model does not make that human stay put. It returns `ok == false` with the humans unchanged, which is the state the exception leaves behind. The exception itself, and what a caller does with it, is not modelled.
- ComputeDistanceField: the field is returned as a fresh `array2<int>` rather than a list of lists. The order in which cells were queued is returned as a ghost value only.
- ComputeDistanceField: the source treats any `entity_type` other than `HUMAN` as zombies. The model has a two-valued `EntityKind`.
- Clear: a fresh obstacle array replaces the old one rather than being reset in place, so aliases of the old grid are not modelled.
- Zombies and Humans: the generators yield lazily in the source. The model returns the whole sequence at once, so a list mutated between two yields is not modelled.
- `None` arguments to the constructor are modelled by `Option`. The copy made by `list(...)` is a value copy, which `seq` gives for free.
- ComputeDistanceField: a cell listed twice in the population is queued twice, because seeding does not check the visited grid (main.py:113-118). `EnqueueOrder` therefore promises "at most once" only for cells beyond the sources.
