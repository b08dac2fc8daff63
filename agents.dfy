/** The player agent (agent.py): its moves through the maze and its two path
    searches over unlocked doors, breadth-first and best-first. */
module Agents {
  import opened Wrappers
  import opened RoomGraph
  import opened Env
  import opened Bayes

  /** One best-first queue entry `(f_score, g_score, room, path)`. */
  datatype Entry = Entry(fScore: real, gScore: int, room: int, path: seq<int>)

  /** Python's `<` on lists of ints: lexicographic, a proper prefix first. */
  predicate SeqBefore(a: seq<int>, b: seq<int>) {
    if a == [] then b != []
    else b != [] && (a[0] < b[0] || (a[0] == b[0] && SeqBefore(a[1..], b[1..])))
  }

  /** Python's `<` on the entry tuples, field by field. */
  predicate Before(x: Entry, y: Entry) {
    x.fScore < y.fScore ||
    (x.fScore == y.fScore &&
      (x.gScore < y.gScore ||
        (x.gScore == y.gScore &&
          (x.room < y.room || (x.room == y.room && SeqBefore(x.path, y.path))))))
  }

  /** The entry holds a walk from `s` to its room that ends at the breadth-first
      level of its own length. */
  ghost predicate Reached(g: Adjacency, s: int, e: (int, seq<int>)) {
    WalkFromTo(g, e.1, s, e.0) && AtLevel(g, s, e.0, |e.1| - 1)
  }

  /** Every queue entry is `Reached`. */
  ghost predicate LevelQueue(g: Adjacency, s: int, q: seq<(int, seq<int>)>)
    decreases |q|
  {
    |q| == 0 || (LevelQueue(g, s, q[..|q| - 1]) && Reached(g, s, q[|q| - 1]))
  }

  lemma {:induction false} LevelQueueAt(g: Adjacency, s: int, q: seq<(int, seq<int>)>, i: int)
    requires LevelQueue(g, s, q) && 0 <= i < |q|
    ensures Reached(g, s, q[i])
    decreases |q|
  {
    if i < |q| - 1 {
      LevelQueueAt(g, s, q[..|q| - 1], i);
    }
  }

  /** When every entry from `h` on lies at level `L + 1`, the rooms up to level
      `L` that the queue holds all come before `h`. */
  lemma LevelComplete(g: Adjacency, s: int, q: seq<(int, seq<int>)>, h: int, L: nat)
    requires LevelQueue(g, s, q) && 0 <= h <= |q|
    requires forall i :: h <= i < |q| ==> |q[i].1| == L + 2
    requires Within(g, s, L) <= QueueRooms(q)
    ensures Within(g, s, L) <= QueueRooms(q[..h])
  {
    forall r | r in Within(g, s, L) ensures r in QueueRooms(q[..h]) {
      var i := QueueIndex(q, r);
      if i >= h {
        LevelQueueAt(g, s, q, i);
        assert false;
      }
      assert q[..h][i].0 == r;
      QueueRoomsHas(q[..h], i);
    }
  }

  /** A walk to `v` followed by an unlocked door of `v` is a walk to the far side. */
  lemma WalkExtend(g: Adjacency, p: seq<int>, s: int, v: int, w: int)
    requires WellFormed(g) && WalkFromTo(g, p, s, v) && w in Unlocked(g[v])
    ensures WalkFromTo(g, p + [w], s, w)
  {
    NeighborIsRoom(g, v, w);
  }

  /** The inner loop of the breadth-first search: scan the neighbours of the
      room a queue entry reached, stopping at the goal, and enqueue each room
      not seen before together with the walk extended by it. */
  method EnqueueNeighbors(goal: int, walk: seq<int>, neighbors: seq<int>,
                          queue: seq<(int, seq<int>)>, visited: set<int>)
    returns (queue': seq<(int, seq<int>)>, visited': set<int>, found: Option<seq<int>>)
    requires visited == QueueRooms(queue) && |queue| == |visited| && goal !in visited
    ensures found.Some? ==> goal in neighbors && found.value == walk + [goal]
    ensures found.None? ==> |queue| <= |queue'| && queue'[..|queue|] == queue
    ensures found.None? ==> forall i :: |queue| <= i < |queue'| ==>
              queue'[i].0 in neighbors && queue'[i].0 !in visited && queue'[i].1 == walk + [queue'[i].0]
    ensures found.None? ==> visited <= visited' == QueueRooms(queue') && |queue'| == |visited'|
    ensures found.None? ==> forall w :: w in neighbors ==> w in visited'
    ensures found.None? ==> forall w :: w in visited' ==> w in visited || w in neighbors
    ensures found.None? ==> goal !in visited'
  {
    queue', visited' := queue, visited;
    var j := 0;
    while j < |neighbors|
      invariant 0 <= j <= |neighbors| && |queue| <= |queue'| && queue'[..|queue|] == queue
      invariant forall i :: |queue| <= i < |queue'| ==>
                  queue'[i].0 in neighbors && queue'[i].0 !in visited && queue'[i].1 == walk + [queue'[i].0]
      invariant visited <= visited' == QueueRooms(queue') && |queue'| == |visited'|
      invariant forall t :: 0 <= t < j ==> neighbors[t] in visited'
      invariant forall w :: w in visited' ==> w in visited || w in neighbors
      invariant goal !in visited'
    {
      var neighbor := neighbors[j];
      if neighbor == goal {
        return queue', visited', Some(walk + [goal]);
      }
      if neighbor !in visited' {
        QueueRoomsAppend(queue', (neighbor, walk + [neighbor]));
        assert (queue' + [(neighbor, walk + [neighbor])])[..|queue|] == queue'[..|queue|];
        visited' := visited' + {neighbor};
        queue' := queue' + [(neighbor, walk + [neighbor])];
      }
      j := j + 1;
    }
    found := None;
  }

  /** The entries the inner loop appends, one step beyond a room at level
      `level` and outside a set that holds every room up to that level, all
      lie at level `level + 1`. */
  lemma {:induction false} EnqueueKeepsLevels(g: Adjacency, s: int, level: nat, current: int, walk: seq<int>,
                                              seen: set<int>, q: seq<(int, seq<int>)>, q': seq<(int, seq<int>)>)
    requires WellFormed(g) && IsRoom(g, current) && Reached(g, s, (current, walk)) && |walk| == level + 1
    requires Within(g, s, level) <= seen && LevelQueue(g, s, q)
    requires |q| <= |q'| && q'[..|q|] == q
    requires forall i :: |q| <= i < |q'| ==>
               q'[i].0 in Unlocked(g[current]) && q'[i].0 !in seen && q'[i].1 == walk + [q'[i].0]
    ensures LevelQueue(g, s, q')
    decreases |q'|
  {
    if |q'| == |q| {
      assert q' == q'[..|q|];
    } else {
      var last := q'[|q'| - 1];
      assert q'[..|q'| - 1][..|q|] == q;
      EnqueueKeepsLevels(g, s, level, current, walk, seen, q, q'[..|q'| - 1]);
      StepLevel(g, s, level, current, last.0);
      WalkExtend(g, walk, s, current, last.0);
    }
  }

  /** Some unlocked walk leads from `s` to `t`. */
  ghost predicate Reachable(g: Adjacency, s: int, t: int) {
    exists p :: WalkFromTo(g, p, s, t)
  }

  /** The breadth-first search invariant: `queue[head..]` holds walks of level
      `level` up to `mid` and of level `level + 1` after it, every room below
      `level` is expanded (`done`), expanded rooms have all their unlocked
      neighbours seen, and the goal has not been seen. */
  ghost predicate Searching(g: Adjacency, s: int, goal: int, queue: seq<(int, seq<int>)>, head: int,
                            visited: set<int>, done: set<int>, level: nat, mid: int)
  {
    0 <= head <= mid <= |queue| == |visited| && s in visited &&
    LevelQueue(g, s, queue) &&
    (forall i :: head <= i < mid ==> |queue[i].1| == level + 1) &&
    (forall i :: mid <= i < |queue| ==> |queue[i].1| == level + 2) &&
    (level > 0 ==> Within(g, s, level - 1) <= done) &&
    visited == QueueRooms(queue) && done == QueueRooms(queue[..head]) &&
    done <= visited && (forall w :: w in visited ==> IsRoom(g, w)) &&
    Expanded(g, done, visited) && goal !in visited
  }

  lemma SearchStart(g: Adjacency, s: int, goal: int)
    requires IsRoom(g, s) && s != goal
    ensures Searching(g, s, goal, [(s, [s])], 0, {s}, {}, 0, 1)
  {
    var q := [(s, [s])];
    assert q[..0] == [];
    assert QueueRooms(q) == {s};
    assert Reached(g, s, (s, [s]));
  }

  /** The walks the inner loop appends lie one level out, after the rest. */
  lemma ExpandLevels(g: Adjacency, s: int, goal: int, queue: seq<(int, seq<int>)>, head: int,
                     visited: set<int>, done: set<int>, level: nat, mid: int,
                     current: int, walk: seq<int>, queue': seq<(int, seq<int>)>)
    requires WellFormed(g) && Searching(g, s, goal, queue, head, visited, done, level, mid) && head < mid
    requires queue[head] == (current, walk) && IsRoom(g, current)
    requires |queue| <= |queue'| && queue'[..|queue|] == queue
    requires forall i :: |queue| <= i < |queue'| ==>
               queue'[i].0 in Unlocked(g[current]) && queue'[i].0 !in visited && queue'[i].1 == walk + [queue'[i].0]
    ensures LevelQueue(g, s, queue')
    ensures forall i :: head + 1 <= i < mid ==> |queue'[i].1| == level + 1
    ensures forall i :: mid <= i < |queue'| ==> |queue'[i].1| == level + 2
  {
    LevelQueueAt(g, s, queue, head);
    LevelSeen(g, s, level, done, visited);
    EnqueueKeepsLevels(g, s, level, current, walk, visited, queue, queue');
    assert forall i :: 0 <= i < |queue| ==> queue'[i] == queue[i] by { assert queue'[..|queue|] == queue; }
  }

  /** Expanding the entry at `head` marks its room done, with every unlocked
      neighbour of it seen. */
  lemma ExpandSets(g: Adjacency, s: int, goal: int, queue: seq<(int, seq<int>)>, head: int,
                   visited: set<int>, done: set<int>, level: nat, mid: int,
                   current: int, walk: seq<int>, queue': seq<(int, seq<int>)>, visited': set<int>)
    requires WellFormed(g) && Searching(g, s, goal, queue, head, visited, done, level, mid) && head < mid
    requires queue[head] == (current, walk) && IsRoom(g, current)
    requires |queue| <= |queue'| && queue'[..|queue|] == queue
    requires visited <= visited'
    requires forall w :: w in Unlocked(g[current]) ==> w in visited'
    requires forall w :: w in visited' ==> w in visited || w in Unlocked(g[current])
    ensures done + {current} == QueueRooms(queue'[..head + 1]) && done + {current} <= visited'
    ensures Expanded(g, done + {current}, visited')
    ensures forall w :: w in visited' ==> IsRoom(g, w)
    ensures Within(g, s, level) <= visited'
  {
    LevelSeen(g, s, level, done, visited);
    forall w | w in visited' ensures IsRoom(g, w) {
      if w !in visited {
        NeighborIsRoom(g, current, w);
      }
    }
    assert queue'[..head + 1] == queue[..head] + [queue[head]] by { assert queue'[..|queue|] == queue; }
    QueueRoomsAppend(queue[..head], queue[head]);
    QueueRoomsHas(queue, head);
  }

  /** Expanding the entry at `head` with the inner loop keeps the invariant. */
  lemma SearchExpand(g: Adjacency, s: int, goal: int, queue: seq<(int, seq<int>)>, head: int,
                     visited: set<int>, done: set<int>, level: nat, mid: int,
                     current: int, walk: seq<int>, queue': seq<(int, seq<int>)>, visited': set<int>)
    requires WellFormed(g) && Searching(g, s, goal, queue, head, visited, done, level, mid) && head < mid
    requires queue[head] == (current, walk) && IsRoom(g, current)
    requires |queue| <= |queue'| && queue'[..|queue|] == queue
    requires forall i :: |queue| <= i < |queue'| ==>
               queue'[i].0 in Unlocked(g[current]) && queue'[i].0 !in visited && queue'[i].1 == walk + [queue'[i].0]
    requires visited <= visited' == QueueRooms(queue') && |queue'| == |visited'|
    requires forall w :: w in Unlocked(g[current]) ==> w in visited'
    requires forall w :: w in visited' ==> w in visited || w in Unlocked(g[current])
    requires goal !in visited'
    ensures Searching(g, s, goal, queue', head + 1, visited', done + {current}, level, mid)
    ensures Within(g, s, level) <= visited'
  {
    ExpandLevels(g, s, goal, queue, head, visited, done, level, mid, current, walk, queue');
    ExpandSets(g, s, goal, queue, head, visited, done, level, mid, current, walk, queue', visited');
  }

  /** Once every entry of the current level is expanded, the search moves one level out. */
  lemma SearchNextLevel(g: Adjacency, s: int, goal: int, queue: seq<(int, seq<int>)>, head: int,
                        visited: set<int>, done: set<int>, level: nat)
    requires WellFormed(g) && Searching(g, s, goal, queue, head, visited, done, level, head) && 0 < head
    requires Within(g, s, level) <= visited
    ensures Searching(g, s, goal, queue, head, visited, done, level + 1, |queue|)
  {
    LevelComplete(g, s, queue, head, level);
  }

  /** The goal one unlocked door from the entry at `head` is reached by a shortest walk. */
  lemma SearchFound(g: Adjacency, s: int, goal: int, queue: seq<(int, seq<int>)>, head: int,
                    visited: set<int>, done: set<int>, level: nat, mid: int, current: int, walk: seq<int>)
    requires WellFormed(g) && Searching(g, s, goal, queue, head, visited, done, level, mid) && head < mid
    requires queue[head] == (current, walk) && IsRoom(g, current) && goal in Unlocked(g[current])
    ensures WalkFromTo(g, walk + [goal], s, goal) && Distinct(walk + [goal]) &&
            |walk + [goal]| == Distance(g, s, goal) + 1
    ensures forall p :: WalkFromTo(g, p, s, goal) ==> |walk + [goal]| <= |p|
  {
    LevelQueueAt(g, s, queue, head);
    LevelSeen(g, s, level, done, visited);
    StepLevel(g, s, level, current, goal);
    WalkExtend(g, walk, s, current, goal);
    ShortestWalk(g, s, goal, walk + [goal]);
  }

  /** An exhausted queue leaves the goal unreachable. */
  lemma SearchExhausted(g: Adjacency, s: int, goal: int, queue: seq<(int, seq<int>)>,
                        visited: set<int>, done: set<int>, level: nat, mid: int)
    requires WellFormed(g) && IsRoom(g, s) && Searching(g, s, goal, queue, |queue|, visited, done, level, mid)
    ensures forall p :: !WalkFromTo(g, p, s, goal)
  {
    assert queue[..|queue|] == queue;
    NoWalkOut(g, s, goal, visited);
  }

  lemma {:induction false} SeqBeforeIrreflexive(a: seq<int>)
    ensures !SeqBefore(a, a)
    decreases |a|
  {
    if a != [] {
      SeqBeforeIrreflexive(a[1..]);
    }
  }

  lemma {:induction false} SeqBeforeTransitive(a: seq<int>, b: seq<int>, c: seq<int>)
    requires SeqBefore(a, b) && SeqBefore(b, c)
    ensures SeqBefore(a, c)
    decreases |a|
  {
    if a != [] && a[0] == b[0] && b[0] == c[0] {
      SeqBeforeTransitive(a[1..], b[1..], c[1..]);
    }
  }

  /** `Before` is a strict order: no entry precedes itself, and it chains. */
  lemma BeforeStrictOrder(x: Entry, y: Entry, z: Entry)
    ensures !Before(x, x)
    ensures Before(x, y) && Before(y, z) ==> Before(x, z)
  {
    SeqBeforeIrreflexive(x.path);
    if Before(x, y) && Before(y, z) && x.fScore == y.fScore == z.fScore && x.gScore == y.gScore == z.gScore &&
       x.room == y.room == z.room {
      SeqBeforeTransitive(x.path, y.path, z.path);
    }
  }

  /** The rooms of the best-first queue entries. */
  ghost function OpenRooms(q: seq<Entry>): set<int> {
    if |q| == 0 then {} else OpenRooms(q[..|q| - 1]) + {q[|q| - 1].room}
  }

  lemma {:induction false} OpenRoomsConcat(a: seq<Entry>, b: seq<Entry>)
    ensures OpenRooms(a + b) == OpenRooms(a) + OpenRooms(b)
    decreases |b|
  {
    if |b| > 0 {
      assert (a + b)[..|a + b| - 1] == a + b[..|b| - 1];
      OpenRoomsConcat(a, b[..|b| - 1]);
    } else {
      assert a + b == a;
    }
  }

  /** `heapq.heappop`: takes out an entry that no remaining entry precedes in
      Python's tuple order. The heap's array layout is not modelled, only which
      entry comes out and what remains. */
  method PopMin(open: seq<Entry>) returns (e: Entry, rest: seq<Entry>)
    requires |open| > 0
    ensures multiset(rest) + multiset{e} == multiset(open) && |rest| == |open| - 1
    ensures forall x :: x in rest ==> !Before(x, e)
    ensures OpenRooms(rest) + {e.room} == OpenRooms(open)
  {
    var best := 0;
    var i := 1;
    BeforeStrictOrder(open[0], open[0], open[0]);
    while i < |open|
      invariant 0 <= best < i <= |open|
      invariant forall k :: 0 <= k < i ==> !Before(open[k], open[best])
    {
      if Before(open[i], open[best]) {
        forall k | 0 <= k < i ensures !Before(open[k], open[i]) {
          BeforeStrictOrder(open[k], open[i], open[best]);
        }
        BeforeStrictOrder(open[i], open[i], open[i]);
        best := i;
      }
      i := i + 1;
    }
    e := open[best];
    rest := open[..best] + open[best + 1..];
    RemoveAt(open, best);
  }

  /** Taking out the entry at `i` leaves the others, with their rooms. */
  lemma RemoveAt(open: seq<Entry>, i: int)
    requires 0 <= i < |open|
    ensures var rest := open[..i] + open[i + 1..];
      multiset(rest) + multiset{open[i]} == multiset(open) && |rest| == |open| - 1 &&
      OpenRooms(rest) + {open[i].room} == OpenRooms(open) &&
      forall x :: x in rest ==> exists k :: 0 <= k < |open| && k != i && open[k] == x
  {
    var e := open[i];
    assert open == open[..i] + [e] + open[i + 1..];
    OpenRoomsConcat(open[..i], [e]);
    OpenRoomsConcat(open[..i] + [e], open[i + 1..]);
    OpenRoomsConcat(open[..i], open[i + 1..]);
    assert OpenRooms([e]) == {e.room} by { assert [e][..0] == []; }
    var rest := open[..i] + open[i + 1..];
    forall x | x in rest ensures exists k :: 0 <= k < |open| && k != i && open[k] == x {
      var j :| 0 <= j < |rest| && rest[j] == x;
      if j < i {
        assert open[j] == x;
      } else {
        assert open[j + 1] == x;
      }
    }
  }

  /** The entry's path is a walk from `s` to its room that repeats no room,
      its `g` score counts the path's doors, and every room before the last
      has been expanded. */
  ghost predicate Sound(g: Adjacency, s: int, visited: set<int>, e: Entry) {
    WalkFromTo(g, e.path, s, e.room) && Distinct(e.path) && e.gScore == |e.path| - 1 &&
    forall k :: 0 <= k < |e.path| - 1 ==> e.path[k] in visited
  }

  /** The best-first search invariant: queued entries are `Sound`, the start
      room is expanded or queued, and every unlocked neighbour of an expanded
      room is expanded or queued. */
  ghost predicate Exploring(g: Adjacency, s: int, goal: int, open: seq<Entry>, visited: set<int>) {
    (forall x :: x in open ==> Sound(g, s, visited, x)) &&
    (forall v :: v in visited ==> IsRoom(g, v)) && goal !in visited &&
    (s in visited || s in OpenRooms(open)) &&
    Expanded(g, visited, visited + OpenRooms(open))
  }

  lemma ExploreStart(g: Adjacency, s: int, goal: int, f: real)
    requires IsRoom(g, s) && s != goal
    ensures Exploring(g, s, goal, [Entry(f, 0, s, [s])], {})
  {
    assert [Entry(f, 0, s, [s])][..0] == [];
  }

  /** Dropping an entry whose room is already expanded keeps the invariant. */
  lemma ExploreSkip(g: Adjacency, s: int, goal: int, open: seq<Entry>, visited: set<int>, e: Entry, rest: seq<Entry>)
    requires Exploring(g, s, goal, open, visited) && e.room in visited
    requires multiset(rest) + multiset{e} == multiset(open) && OpenRooms(rest) + {e.room} == OpenRooms(open)
    ensures Exploring(g, s, goal, rest, visited)
  {
    assert forall x :: x in rest ==> x in multiset(open);
    assert visited + OpenRooms(rest) == visited + OpenRooms(open);
  }

  /** A popped entry carries a walk to its room that repeats no room. */
  lemma ExplorePopped(g: Adjacency, s: int, goal: int, open: seq<Entry>, visited: set<int>, e: Entry)
    requires Exploring(g, s, goal, open, visited) && e in multiset(open)
    ensures WalkFromTo(g, e.path, s, e.room) && Distinct(e.path) && IsRoom(g, e.room)
  {
    assert e in open;
  }

  /** Expanding a popped entry and pushing its unexpanded unlocked neighbours
      keeps the invariant. */
  lemma ExploreExpand(g: Adjacency, s: int, goal: int, open: seq<Entry>, visited: set<int>, e: Entry,
                      rest: seq<Entry>, open': seq<Entry>)
    requires WellFormed(g) && Exploring(g, s, goal, open, visited) && e.room !in visited && e.room != goal
    requires multiset(rest) + multiset{e} == multiset(open) && OpenRooms(rest) + {e.room} == OpenRooms(open)
    requires IsRoom(g, e.room)
    requires OpenRooms(rest) <= OpenRooms(open')
    requires forall x :: x in open' ==>
               (x in rest ||
                (x.room in Unlocked(g[e.room]) && x.room !in visited + {e.room} &&
                 x.path == e.path + [x.room] && x.gScore == e.gScore + 1))
    requires forall w :: w in Unlocked(g[e.room]) ==> w in visited + {e.room} || w in OpenRooms(open')
    ensures Exploring(g, s, goal, open', visited + {e.room})
  {
    var visited' := visited + {e.room};
    assert e in multiset(open);
    forall x | x in open' ensures Sound(g, s, visited', x) {
      if x in rest {
        assert x in multiset(open);
        assert x in open;
        assert Sound(g, s, visited, x);
      } else {
        SoundStep(g, s, visited, e, x);
      }
    }
    assert visited + OpenRooms(open) <= visited' + OpenRooms(open');
  }

  /** One door beyond a sound entry, to a room not yet expanded, is a sound entry
      once that entry's room is expanded. */
  lemma SoundStep(g: Adjacency, s: int, visited: set<int>, e: Entry, x: Entry)
    requires WellFormed(g) && Sound(g, s, visited, e) && x.room in Unlocked(g[e.room])
    requires x.room !in visited + {e.room} && x.path == e.path + [x.room] && x.gScore == e.gScore + 1
    ensures Sound(g, s, visited + {e.room}, x)
  {
    WalkExtend(g, e.path, s, e.room, x.room);
    DistinctAppend(e.path, x.room, visited + {e.room});
  }

  /** A walk that repeats no room stays so when extended by a room outside a
      set that holds all of it. */
  lemma DistinctAppend(p: seq<int>, w: int, S: set<int>)
    requires Distinct(p) && (forall k :: 0 <= k < |p| - 1 ==> p[k] in S) && |p| >= 1 && p[|p| - 1] in S && w !in S
    ensures Distinct(p + [w])
  {
    assert forall k :: 0 <= k < |p| ==> p[k] in S;
  }

  /** An exhausted queue leaves the goal unreachable. */
  lemma ExploreExhausted(g: Adjacency, s: int, goal: int, visited: set<int>)
    requires WellFormed(g) && IsRoom(g, s) && Exploring(g, s, goal, [], visited)
    ensures forall p :: !WalkFromTo(g, p, s, goal)
  {
    NoWalkOut(g, s, goal, visited);
  }

  /** The choice `find_nearest_key` makes over the candidate rooms `cands`, given
      what the search returned for each (`found[t]` for `cands[t]`): a candidate
      replaces the best so far only when its path is strictly shorter. So the
      chosen path is strictly shorter than every earlier candidate's path and no
      longer than any later one's, and there is no choice exactly when no
      candidate has a path. */
  ghost predicate EarliestShortest(cands: seq<int>, found: seq<Option<seq<int>>>, r: Option<(int, seq<int>)>)
    requires |found| == |cands|
  {
    (r.None? <==> forall t :: 0 <= t < |found| ==> found[t].None?) &&
    (r.Some? ==> exists bi :: 0 <= bi < |cands| && cands[bi] == r.value.0 && found[bi] == Some(r.value.1) &&
                   (forall t :: 0 <= t < bi && found[t].Some? ==> |r.value.1| < |found[t].value|) &&
                   (forall t :: bi < t < |cands| && found[t].Some? ==> |r.value.1| <= |found[t].value|))
  }

  /** When every path found is a shortest walk (breadth-first search), the
      earliest strictly shortest candidate is a nearest reachable one, and among
      the nearest the lowest numbered when the candidates come in room order. */
  lemma {:induction false} NearestByDistance(g: Adjacency, cur: int, cands: seq<int>,
                                             found: seq<Option<seq<int>>>, r: Option<(int, seq<int>)>)
    requires |found| == |cands|
    requires forall a, b :: 0 <= a < b < |cands| ==> cands[a] < cands[b]
    requires forall t :: 0 <= t < |cands| ==>
               (found[t].None? <==> !Reachable(g, cur, cands[t])) &&
               (found[t].Some? ==> |found[t].value| == Distance(g, cur, cands[t]) + 1)
    requires EarliestShortest(cands, found, r)
    ensures r.Some? ==>
              |r.value.1| == Distance(g, cur, r.value.0) + 1 &&
              forall t :: 0 <= t < |cands| && Reachable(g, cur, cands[t]) ==>
                Distance(g, cur, r.value.0) <= Distance(g, cur, cands[t]) &&
                (cands[t] < r.value.0 ==> Distance(g, cur, r.value.0) < Distance(g, cur, cands[t]))
  {
    if r.Some? {
      var bi :| 0 <= bi < |cands| && cands[bi] == r.value.0 && found[bi] == Some(r.value.1) &&
                (forall t :: 0 <= t < bi && found[t].Some? ==> |r.value.1| < |found[t].value|) &&
                (forall t :: bi < t < |cands| && found[t].Some? ==> |r.value.1| <= |found[t].value|);
      forall t | 0 <= t < |cands| && Reachable(g, cur, cands[t])
        ensures Distance(g, cur, r.value.0) <= Distance(g, cur, cands[t])
        ensures cands[t] < r.value.0 ==> Distance(g, cur, r.value.0) < Distance(g, cur, cands[t])
      {
        if t < bi {
          assert |r.value.1| < |found[t].value|;
        } else if t > bi {
          assert |r.value.1| <= |found[t].value|;
          assert !(cands[t] < r.value.0);
        }
      }
    }
  }

  class Agent {
    const env: Environment
    const belief: BeliefSystem
    /** The configuration: starting health, damage per trap, and the search algorithm name. */
    const maxHealth: int
    const trapDamage: int
    const searchAlgorithm: string
    var currentRoom: int
    var health: int
    var keysCollected: set<int>
    var roomsVisited: set<int>
    var movesMade: int
    var trapsTriggered: int

    /** The agent stands in a room it has visited; each move visits at most one new
        room; health is what the fired traps left; the agent's keys were taken
        from the map; the beliefs cover exactly the rooms. */
    ghost predicate Valid()
      reads this, env, belief
    {
      0 <= currentRoom < env.roomCount && currentRoom in roomsVisited &&
      (forall r :: r in roomsVisited ==> 0 <= r < env.roomCount) &&
      |roomsVisited| <= movesMade + 1 &&
      trapsTriggered >= 0 && health == maxHealth - trapDamage * trapsTriggered &&
      keysCollected <= env.keysCollected &&
      (forall r :: r in belief.trapBeliefs <==> 0 <= r < env.roomCount)
    }

    /** The agent starts in the start room with full health, no keys, and a belief
        system at the prior for every room. */
    constructor (environment: Environment, agentHealth: int, damage: int, algorithm: string,
                 prior: real, reliable: real)
      requires environment.Valid()
      ensures env == environment && fresh(belief)
      ensures maxHealth == agentHealth && trapDamage == damage && searchAlgorithm == algorithm
      ensures currentRoom == environment.startRoomId && health == agentHealth
      ensures keysCollected == {} && roomsVisited == {currentRoom}
      ensures movesMade == 0 && trapsTriggered == 0
      ensures belief.initialProbability == prior && belief.reliability == reliable
      ensures belief.observations == map[]
      ensures forall r :: r in belief.trapBeliefs <==> 0 <= r < environment.roomCount
      ensures forall r :: 0 <= r < environment.roomCount ==> belief.trapBeliefs[r] == prior
      ensures Valid()
      ensures 0.05 <= prior <= 0.95 && 0.0 <= reliable <= 1.0 ==> belief.Valid()
    {
      env := environment;
      maxHealth := agentHealth;
      trapDamage := damage;
      searchAlgorithm := algorithm;
      currentRoom := environment.startRoomId;
      health := agentHealth;
      keysCollected := {};
      roomsVisited := {environment.startRoomId};
      belief := new BeliefSystem(environment.roomCount, prior, reliable);
      movesMade := 0;
      trapsTriggered := 0;
    }

    /** Moves through an unlocked door of the current room, or refuses and changes
        nothing. On a move: the room is visited, its trap fires at most once and costs
        `trapDamage` health, the belief system hears "trap" or "safe", and a key not
        yet collected is taken. */
    method MoveTo(roomId: int) returns (moved: bool)
      requires env.Valid() && belief.Valid() && Valid()
      modifies this, env`keysCollected, RoomAt(roomId)`visited, RoomAt(roomId)`trapTriggered,
               belief`trapBeliefs, belief`observations
      ensures belief.Valid() && Valid()
      ensures moved <==> roomId in Unlocked(env.graph[old(currentRoom)])
      ensures !moved ==> unchanged(this, env, belief) && unchanged(RoomAt(roomId))
      ensures moved ==>
                currentRoom == roomId && movesMade == old(movesMade) + 1 &&
                roomsVisited == old(roomsVisited) + {roomId} && env.rooms[roomId].visited
      ensures moved ==>
                var fired := old(env.rooms[roomId].hasTrap && !env.rooms[roomId].trapTriggered);
                env.rooms[roomId].trapTriggered == (fired || old(env.rooms[roomId].trapTriggered)) &&
                health == old(health) - (if fired then trapDamage else 0) &&
                trapsTriggered == old(trapsTriggered) + (if fired then 1 else 0) &&
                var obs := if fired then Trap else Safe;
                belief.observations == old(belief.observations)[roomId := obs] &&
                belief.trapBeliefs == Observe(old(belief.trapBeliefs), old(belief.observations), roomId, obs, belief.reliability)
      ensures moved ==>
                var key := env.rooms[roomId].keyId;
                var isNew := key.Some? && key.value !in old(env.keysCollected);
                env.keysCollected == (if isNew then old(env.keysCollected) + {key.value} else old(env.keysCollected)) &&
                keysCollected == (if isNew then old(keysCollected) + {key.value} else old(keysCollected))
    {
      if roomId !in env.GetUnlockedNeighbors(currentRoom) {
        return false;
      }
      NeighborIsRoom(env.graph, currentRoom, roomId);
      currentRoom, movesMade, roomsVisited := roomId, movesMade + 1, roomsVisited + {roomId};
      var room := env.rooms[roomId];
      ghost var armed := room.hasTrap && !room.trapTriggered;
      env.MarkVisited(roomId);
      assert armed == (room.hasTrap && !room.trapTriggered);
      var fired := CheckTrap(roomId);
      var collected := CheckKey(roomId);
      moved := true;
    }

    /** Springs the room's trap if it is armed: a fired trap costs `trapDamage` health
        and is reported to the belief system as "trap", otherwise it hears "safe". */
    method CheckTrap(roomId: int) returns (fired: bool)
      requires belief.Valid() && Valid() && 0 <= roomId < |env.rooms| == env.roomCount
      modifies `health, `trapsTriggered, (env.rooms[roomId] as Room)`trapTriggered,
               belief`trapBeliefs, belief`observations
      ensures belief.Valid() && Valid()
      ensures fired <==> old(env.rooms[roomId].hasTrap && !env.rooms[roomId].trapTriggered)
      ensures env.rooms[roomId].trapTriggered == (fired || old(env.rooms[roomId].trapTriggered))
      ensures health == old(health) - (if fired then trapDamage else 0)
      ensures trapsTriggered == old(trapsTriggered) + (if fired then 1 else 0)
      ensures var obs := if fired then Trap else Safe;
              belief.observations == old(belief.observations)[roomId := obs] &&
              belief.trapBeliefs == Observe(old(belief.trapBeliefs), old(belief.observations), roomId, obs, belief.reliability)
    {
      fired := env.TriggerTrap(roomId);
      belief.UpdateBelief(roomId, if fired then Trap else Safe);
      DamageStep(trapDamage, trapsTriggered);
      health, trapsTriggered := health - (if fired then trapDamage else 0), trapsTriggered + (if fired then 1 else 0);
    }

    /** Takes the room's key if the map still holds it, and adds its id to the agent's keys. */
    method CheckKey(roomId: int) returns (collected: bool)
      requires belief.Valid() && Valid() && 0 <= roomId < |env.rooms|
      modifies `keysCollected, env`keysCollected
      ensures belief.Valid() && Valid()
      ensures var key := env.rooms[roomId].keyId;
              collected == (key.Some? && key.value !in old(env.keysCollected)) &&
              env.keysCollected == (if collected then old(env.keysCollected) + {key.value} else old(env.keysCollected)) &&
              keysCollected == (if collected then old(keysCollected) + {key.value} else old(keysCollected))
    {
      collected := env.CollectKey(roomId);
      if collected {
        keysCollected := keysCollected + {env.rooms[roomId].keyId.value};
      }
    }

    /** The room `roomId` names, as a set of at most one room. */
    function RoomAt(roomId: int): set<Room>
      reads env
    {
      if 0 <= roomId < |env.rooms| then {env.rooms[roomId]} else {}
    }

    /** Breadth-first search over unlocked doors, testing each neighbour against
        the goal as it is generated. A returned path is a shortest unlocked walk,
        which repeats no room; no path is returned exactly when none exists. */
    method FindPathBfs(start: int, goal: int) returns (path: Option<seq<int>>)
      requires env.Valid() && (start == goal || 0 <= start < env.roomCount)
      ensures start == goal ==> path == Some([start])
      ensures start != goal && path.Some? ==>
                WalkFromTo(env.graph, path.value, start, goal) && Distinct(path.value) &&
                |path.value| == Distance(env.graph, start, goal) + 1
      ensures start != goal && path.Some? ==>
                forall p :: WalkFromTo(env.graph, p, start, goal) ==> |path.value| <= |p|
      ensures start != goal ==> (path.None? <==> forall p :: !WalkFromTo(env.graph, p, start, goal))
    {
      if start == goal {
        return Some([start]);
      }
      ghost var g := env.graph;
      var queue: seq<(int, seq<int>)> := [(start, [start])];
      var head := 0;
      var visited := {start};
      ghost var done: set<int> := {};
      ghost var level: nat := 0;
      ghost var mid := 1;
      SearchStart(g, start, goal);
      while head < |queue|
        invariant Searching(g, start, goal, queue, head, visited, done, level, mid)
        invariant head == mid ==> head == |queue|
        decreases |g| - head
      {
        RoomsBound(g, visited);
        var current := queue[head].0;
        var walk := queue[head].1;
        QueueRoomsHas(queue, head);
        var neighbors := env.GetUnlockedNeighbors(current);
        var queue', visited', found := EnqueueNeighbors(goal, walk, neighbors, queue, visited);
        if found.Some? {
          SearchFound(g, start, goal, queue, head, visited, done, level, mid, current, walk);
          return found;
        }
        SearchExpand(g, start, goal, queue, head, visited, done, level, mid, current, walk, queue', visited');
        queue, visited := queue', visited';
        done := done + {current};
        head := head + 1;
        if head == mid {
          SearchNextLevel(g, start, goal, queue, head, visited, done, level);
          level := level + 1;
          mid := |queue|;
        }
      }
      SearchExhausted(g, start, goal, queue, visited, done, level, mid);
      return None;
    }

    /** The best-first heuristic: how far apart the room numbers are, plus ten
        times the believed trap probability. */
    function Heuristic(goal: int, roomId: int): (h: real)
      reads belief
      ensures belief.Valid() ==> Abs(roomId - goal) as real <= h <= Abs(roomId - goal) as real + 10.0
      ensures roomId !in belief.trapBeliefs ==> h == Abs(roomId - goal) as real
    {
      Abs(roomId - goal) as real + belief.GetTrapProbability(roomId) * 10.0
    }

    /** The inner loop of the best-first search: push each neighbour not yet
        expanded, with the path extended by it, a `g` score one more and an
        `f` score of that plus the heuristic. */
    method PushNeighbors(goal: int, e: Entry, neighbors: seq<int>, visited: set<int>, open: seq<Entry>)
      returns (open': seq<Entry>)
      ensures OpenRooms(open) <= OpenRooms(open')
      ensures forall x :: x in open' ==>
                (x in open ||
                 (x.room in neighbors && x.room !in visited && x.path == e.path + [x.room] &&
                  x.gScore == e.gScore + 1 && x.fScore == (e.gScore + 1) as real + Heuristic(goal, x.room)))
      ensures forall w :: w in neighbors ==> w in visited || w in OpenRooms(open')
    {
      open' := open;
      var j := 0;
      while j < |neighbors|
        invariant 0 <= j <= |neighbors| && OpenRooms(open) <= OpenRooms(open')
        invariant forall x :: x in open' ==>
                    (x in open ||
                     (x.room in neighbors && x.room !in visited && x.path == e.path + [x.room] &&
                      x.gScore == e.gScore + 1 && x.fScore == (e.gScore + 1) as real + Heuristic(goal, x.room)))
        invariant forall t :: 0 <= t < j ==> neighbors[t] in visited || neighbors[t] in OpenRooms(open')
      {
        var neighbor := neighbors[j];
        if neighbor !in visited {
          var gScore := e.gScore + 1;
          var fScore := gScore as real + Heuristic(goal, neighbor);
          var entry := Entry(fScore, gScore, neighbor, e.path + [neighbor]);
          assert OpenRooms(open' + [entry]) == OpenRooms(open') + {neighbor} by {
            assert (open' + [entry])[..|open'|] == open';
          }
          open' := open' + [entry];
        }
        j := j + 1;
      }
    }

    /** Best-first search over unlocked doors ordered by `f` score, skipping
        rooms already expanded and stopping when the goal is popped. A returned
        path is an unlocked walk to the goal that repeats no room; no path is
        returned exactly when none exists. The heuristic is not a lower bound
        on the remaining doors, so the path need not be a shortest one. */
    method FindPathAstar(start: int, goal: int) returns (path: Option<seq<int>>)
      requires env.Valid() && (start == goal || 0 <= start < env.roomCount)
      ensures start == goal ==> path == Some([start])
      ensures start != goal && path.Some? ==> WalkFromTo(env.graph, path.value, start, goal) && Distinct(path.value)
      ensures start != goal ==> (path.None? <==> forall p :: !WalkFromTo(env.graph, p, start, goal))
    {
      if start == goal {
        return Some([start]);
      }
      ghost var g := env.graph;
      var open := [Entry(Heuristic(goal, start), 0, start, [start])];
      var visited: set<int> := {};
      ExploreStart(g, start, goal, Heuristic(goal, start));
      while |open| > 0
        invariant Exploring(g, start, goal, open, visited)
        decreases |g| - |visited|, |open|
      {
        RoomsBound(g, visited);
        var e, rest := PopMin(open);
        if e.room in visited {
          ExploreSkip(g, start, goal, open, visited, e, rest);
          open := rest;
          continue;
        }
        ExplorePopped(g, start, goal, open, visited, e);
        if e.room == goal {
          return Some(e.path);
        }
        var neighbors := env.GetUnlockedNeighbors(e.room);
        var open' := PushNeighbors(goal, e, neighbors, visited + {e.room}, rest);
        ExploreExpand(g, start, goal, open, visited, e, rest, open');
        visited := visited + {e.room};
        open := open';
        RoomsBound(g, visited);
      }
      ExploreExhausted(g, start, goal, visited);
      return None;
    }

    /** The configured search: breadth-first for "bfs", best-first for "astar",
        breadth-first for any other name. */
    method FindPath(start: int, goal: int) returns (path: Option<seq<int>>)
      requires env.Valid() && (start == goal || 0 <= start < env.roomCount)
      ensures start == goal ==> path == Some([start])
      ensures start != goal && path.Some? ==> WalkFromTo(env.graph, path.value, start, goal) && Distinct(path.value)
      ensures start != goal ==> (path.None? <==> forall p :: !WalkFromTo(env.graph, p, start, goal))
      ensures searchAlgorithm != "astar" && start != goal && path.Some? ==>
                |path.value| == Distance(env.graph, start, goal) + 1
    {
      if searchAlgorithm == "bfs" {
        path := FindPathBfs(start, goal);
      } else if searchAlgorithm == "astar" {
        path := FindPathAstar(start, goal);
      } else {
        path := FindPathBfs(start, goal);
      }
    }

    /** The room holds a key the agent has not collected. */
    predicate HoldsNewKey(roomId: int)
      reads this, env, env.rooms
    {
      0 <= roomId < |env.rooms| && env.rooms[roomId].keyId.Some? &&
      env.rooms[roomId].keyId.value !in keysCollected
    }

    /** The rooms, in increasing order, that hold a key the agent lacks. */
    method UncollectedKeyRooms() returns (keyRooms: seq<int>)
      ensures forall k :: k in keyRooms <==> HoldsNewKey(k)
      ensures forall a, b :: 0 <= a < b < |keyRooms| ==> keyRooms[a] < keyRooms[b]
    {
      keyRooms := [];
      var i := 0;
      while i < |env.rooms|
        invariant 0 <= i <= |env.rooms|
        invariant forall k :: k in keyRooms <==> k < i && HoldsNewKey(k)
        invariant forall a, b :: 0 <= a < b < |keyRooms| ==> keyRooms[a] < keyRooms[b]
        invariant forall t :: 0 <= t < |keyRooms| ==> keyRooms[t] < i
      {
        if env.rooms[i].keyId.Some? && env.rooms[i].keyId.value !in keysCollected {
          keyRooms := keyRooms + [i];
        }
        i := i + 1;
      }
    }

    /** What the configured search may return for a path from `cur` to key room
        `k`, as `FindPath` promises it. */
    ghost predicate Searched(cur: int, k: int, p: Option<seq<int>>)
      reads this, env
    {
      (p.Some? ==> WalkFromTo(env.graph, p.value, cur, k) && Distinct(p.value)) &&
      (p.None? <==> !Reachable(env.graph, cur, k)) &&
      (searchAlgorithm != "astar" && p.Some? ==> |p.value| == Distance(env.graph, cur, k) + 1)
    }

    /** The scan over the key rooms: searches a path to each in turn and keeps a
        room only when its path is strictly shorter than the best so far.
        `found` holds what each search returned. */
    method ScanKeyRooms(keyRooms: seq<int>) returns (r: Option<(int, seq<int>)>, ghost found: seq<Option<seq<int>>>)
      requires env.Valid() && Valid()
      ensures |found| == |keyRooms|
      ensures forall t :: 0 <= t < |keyRooms| ==> Searched(currentRoom, keyRooms[t], found[t])
      ensures EarliestShortest(keyRooms, found, r)
    {
      r := None;
      found := [];
      ghost var bi := 0;
      var j := 0;
      while j < |keyRooms|
        invariant 0 <= j <= |keyRooms| && |found| == j
        invariant forall t :: 0 <= t < j ==> Searched(currentRoom, keyRooms[t], found[t])
        invariant r.None? ==> forall t :: 0 <= t < j ==> found[t].None?
        invariant r.Some? ==> 0 <= bi < j && keyRooms[bi] == r.value.0 && found[bi] == Some(r.value.1) &&
                              (forall t :: 0 <= t < bi && found[t].Some? ==> |r.value.1| < |found[t].value|) &&
                              (forall t :: bi < t < j && found[t].Some? ==> |r.value.1| <= |found[t].value|)
      {
        var path := FindPath(currentRoom, keyRooms[j]);
        if keyRooms[j] == currentRoom {
          assert WalkFromTo(env.graph, [currentRoom], currentRoom, currentRoom);
        }
        if path.Some? && (r.None? || |path.value| < |r.value.1|) {
          r := Some((keyRooms[j], path.value));
          bi := j;
        }
        found := found + [path];
        j := j + 1;
      }
    }

    /** The nearest room holding a key the agent lacks, with the path the
        configured search finds to it. For every search the choice is the
        earliest candidate, in room order, whose path is strictly shortest;
        under breadth-first search that is the nearest room, the lowest
        numbered one winning ties. `cands` and `found` are the candidate rooms
        and what the search returned for each. */
    method FindNearestKey() returns (r: Option<(int, seq<int>)>, ghost cands: seq<int>,
                                     ghost found: seq<Option<seq<int>>>)
      requires env.Valid() && Valid()
      ensures forall k :: k in cands <==> HoldsNewKey(k)
      ensures forall a, b :: 0 <= a < b < |cands| ==> cands[a] < cands[b]
      ensures |found| == |cands| && forall t :: 0 <= t < |cands| ==> Searched(currentRoom, cands[t], found[t])
      ensures EarliestShortest(cands, found, r)
      ensures r.Some? ==> HoldsNewKey(r.value.0) && Distinct(r.value.1) &&
                          WalkFromTo(env.graph, r.value.1, currentRoom, r.value.0)
      ensures r.None? <==> forall k :: HoldsNewKey(k) ==> !Reachable(env.graph, currentRoom, k)
      ensures searchAlgorithm != "astar" && r.Some? ==>
                |r.value.1| == Distance(env.graph, currentRoom, r.value.0) + 1 &&
                forall k :: HoldsNewKey(k) && Reachable(env.graph, currentRoom, k) ==>
                  Distance(env.graph, currentRoom, r.value.0) <= Distance(env.graph, currentRoom, k) &&
                  (k < r.value.0 ==> Distance(env.graph, currentRoom, r.value.0) < Distance(env.graph, currentRoom, k))
    {
      var keyRooms := UncollectedKeyRooms();
      cands := keyRooms;
      if keyRooms == [] {
        return None, cands, [];
      }
      r, found := ScanKeyRooms(keyRooms);
      ChoiceFound(cands, found, r);
      if searchAlgorithm != "astar" {
        ChoiceNearest(cands, found, r);
      }
    }

    /** The scan's choice is a reachable key room when one exists, and none otherwise. */
    lemma ChoiceFound(cands: seq<int>, found: seq<Option<seq<int>>>, r: Option<(int, seq<int>)>)
      requires forall k :: k in cands <==> HoldsNewKey(k)
      requires |found| == |cands| && forall t :: 0 <= t < |cands| ==> Searched(currentRoom, cands[t], found[t])
      requires EarliestShortest(cands, found, r)
      ensures r.Some? ==> HoldsNewKey(r.value.0) && Distinct(r.value.1) &&
                          WalkFromTo(env.graph, r.value.1, currentRoom, r.value.0)
      ensures r.None? <==> forall k :: HoldsNewKey(k) ==> !Reachable(env.graph, currentRoom, k)
    {
      if r.Some? {
        var bi :| 0 <= bi < |cands| && cands[bi] == r.value.0 && found[bi] == Some(r.value.1);
        assert Searched(currentRoom, cands[bi], found[bi]);
      }
      forall k | HoldsNewKey(k) && Reachable(env.graph, currentRoom, k)
        ensures r.Some?
      {
        var t :| 0 <= t < |cands| && cands[t] == k;
        assert Searched(currentRoom, cands[t], found[t]);
      }
    }

    /** Under breadth-first search the scan's choice is a nearest key room, the
        lowest numbered among the nearest. */
    lemma ChoiceNearest(cands: seq<int>, found: seq<Option<seq<int>>>, r: Option<(int, seq<int>)>)
      requires searchAlgorithm != "astar"
      requires forall k :: k in cands <==> HoldsNewKey(k)
      requires forall a, b :: 0 <= a < b < |cands| ==> cands[a] < cands[b]
      requires |found| == |cands| && forall t :: 0 <= t < |cands| ==> Searched(currentRoom, cands[t], found[t])
      requires EarliestShortest(cands, found, r)
      ensures r.Some? ==>
                |r.value.1| == Distance(env.graph, currentRoom, r.value.0) + 1 &&
                forall k :: HoldsNewKey(k) && Reachable(env.graph, currentRoom, k) ==>
                  Distance(env.graph, currentRoom, r.value.0) <= Distance(env.graph, currentRoom, k) &&
                  (k < r.value.0 ==> Distance(env.graph, currentRoom, r.value.0) < Distance(env.graph, currentRoom, k))
    {
      NearestByDistance(env.graph, currentRoom, cands, found, r);
      forall k | HoldsNewKey(k) && Reachable(env.graph, currentRoom, k) && r.Some?
        ensures Distance(env.graph, currentRoom, r.value.0) <= Distance(env.graph, currentRoom, k)
        ensures k < r.value.0 ==> Distance(env.graph, currentRoom, r.value.0) < Distance(env.graph, currentRoom, k)
      {
        var t :| 0 <= t < |cands| && cands[t] == k;
      }
    }

    /** One more fired trap costs exactly one more `damage`. */
    static lemma DamageStep(damage: int, count: int)
      ensures damage * (count + 1) == damage * count + damage
    {
    }

    /** The agent is alive exactly while the fired traps have cost less than its starting health. */
    function IsAlive(): (alive: bool)
      reads this, env, belief
      ensures Valid() ==> (alive <==> trapDamage * trapsTriggered < maxHealth)
    {
      health > 0
    }

    /** The agent has won when it stands in the exit, the last room of the map. */
    function HasWon(): (won: bool)
      reads this, env, env.rooms, belief
      ensures env.Valid() ==> (won <==> currentRoom == env.roomCount - 1)
    {
      currentRoom == env.exitRoomId
    }
  }
}
