/** The room graph of the maze as a value (environment.py): room `r`'s
    neighbour list is `g[r]`, an ordered list of (neighbour id, locked)
    entries. This module gives the meaning of the queries on that graph,
    the walks over unlocked doors, and the breadth-first levels that the
    path searches and the guard's distance are proved against. */
module RoomGraph {

  /** One neighbour entry: the neighbour's id and whether the door to it is locked. */
  datatype Edge = Edge(to: int, locked: bool)

  /** `g[r]` is the neighbour list of room `r`; room ids are `0 .. |g| - 1`. */
  type Adjacency = seq<seq<Edge>>

  predicate IsRoom(g: Adjacency, r: int) {
    0 <= r < |g|
  }

  /** Every neighbour entry names a room of the graph. */
  ghost predicate WellFormed(g: Adjacency) {
    forall r, i :: 0 <= r < |g| && 0 <= i < |g[r]| ==> IsRoom(g, g[r][i].to)
  }

  /** The ids of the unlocked entries of a neighbour list, in list order. */
  function Unlocked(es: seq<Edge>): (ids: seq<int>)
    ensures |ids| <= |es|
    ensures forall x {:trigger x in ids} :: x in ids <==> Edge(x, false) in es
  {
    if es == [] then []
    else if !es[0].locked then [es[0].to] + Unlocked(es[1..])
    else Unlocked(es[1..])
  }

  /** Some entry of the list, locked or not, names `id`. */
  predicate HasEntry(es: seq<Edge>, id: int) {
    exists i :: 0 <= i < |es| && es[i].to == id
  }

  /** The list after clearing the lock flag of every entry that names `id`. */
  function Unlock(es: seq<Edge>, id: int): seq<Edge> {
    seq(|es|, i requires 0 <= i < |es| => if es[i].to == id then Edge(id, false) else es[i])
  }

  /** Unlocking the door between `a` and `b` on both endpoints, `a`'s side first. */
  function UnlockBetween(g: Adjacency, a: int, b: int): Adjacency
    requires IsRoom(g, a) && IsRoom(g, b)
  {
    var g1 := g[a := Unlock(g[a], b)];
    g1[b := Unlock(g1[b], a)]
  }

  /** Every entry `a -> b` with lock flag `l` names a room and is mirrored by
      an entry `b -> a` with the same lock flag. */
  ghost predicate Symmetric(g: Adjacency) {
    forall a, b, l :: 0 <= a < |g| && Edge(b, l) in g[a] ==> IsRoom(g, b) && Edge(a, l) in g[b]
  }

  /** The chain `i <-> i + 1` is present in both directions and never locked. */
  ghost predicate Backbone(g: Adjacency) {
    forall i :: 0 <= i < |g| - 1 ==> BackboneAt(g, i)
  }

  ghost predicate BackboneAt(g: Adjacency, i: int)
    requires 0 <= i < |g| - 1
  {
    Edge(i + 1, false) in g[i] && Edge(i, false) in g[i + 1] &&
    Edge(i + 1, true) !in g[i] && Edge(i, true) !in g[i + 1]
  }

  /** No room lists itself, and no room lists the same neighbour twice. */
  ghost predicate Simple(g: Adjacency) {
    (forall r, i :: 0 <= r < |g| && 0 <= i < |g[r]| ==> g[r][i].to != r) &&
    (forall r, i, j :: 0 <= r < |g| && 0 <= i < j < |g[r]| ==> g[r][i].to != g[r][j].to)
  }

  // ---------------------------------------------------------------------
  // Neighbour lists and unlocking
  // ---------------------------------------------------------------------

  lemma NeighborIsRoom(g: Adjacency, r: int, x: int)
    requires WellFormed(g) && IsRoom(g, r) && x in Unlocked(g[r])
    ensures IsRoom(g, x)
  {
    var i :| 0 <= i < |g[r]| && g[r][i] == Edge(x, false);
  }

  /** What `Unlock` keeps, clears and never adds: entries for other ids stay as
      they are, and `id` appears exactly when it did before, now unlocked. */
  lemma UnlockMembership(es: seq<Edge>, id: int, y: int, l: bool)
    ensures Edge(y, l) in Unlock(es, id) <==>
              (y != id && Edge(y, l) in es) || (y == id && !l && HasEntry(es, id))
  {
    var u := Unlock(es, id);
    if Edge(y, l) in u {
      var i :| 0 <= i < |u| && u[i] == Edge(y, l);
      if es[i].to != id {
        assert es[i] == Edge(y, l);
      }
    }
    if y != id && Edge(y, l) in es {
      var i :| 0 <= i < |es| && es[i] == Edge(y, l);
      assert u[i] == Edge(y, l);
    }
    if y == id && !l && HasEntry(es, id) {
      var i :| 0 <= i < |es| && es[i].to == id;
      assert u[i] == Edge(y, l);
    }
  }

  lemma UnlockTwice(es: seq<Edge>, id: int)
    ensures Unlock(Unlock(es, id), id) == Unlock(es, id)
  {
  }

  /** Room by room: `a`'s list loses the locks towards `b`, `b`'s list the locks
      towards `a`, every other list is unchanged (also when `a == b`). */
  lemma UnlockBetweenAt(g: Adjacency, a: int, b: int, r: int)
    requires IsRoom(g, a) && IsRoom(g, b) && IsRoom(g, r)
    ensures |UnlockBetween(g, a, b)| == |g|
    ensures UnlockBetween(g, a, b)[r] ==
              if r == a then Unlock(g[a], b) else if r == b then Unlock(g[b], a) else g[r]
  {
    if a == b {
      UnlockTwice(g[a], a);
    }
  }

  lemma {:induction false} UnlockBetweenWellFormed(g: Adjacency, a: int, b: int)
    requires WellFormed(g) && IsRoom(g, a) && IsRoom(g, b)
    ensures WellFormed(UnlockBetween(g, a, b))
  {
    var h: Adjacency := UnlockBetween(g, a, b);
    forall r: int, i: int | 0 <= r < |h| && 0 <= i < |h[r]| ensures IsRoom(h, h[r][i].to) {
      UnlockBetweenAt(g, a, b, r);
    }
  }

  /** An entry `x -> y` after two-sided unlocking was there before, with the
      same lock flag unless it is the door between `a` and `b`, now open. */
  lemma UnlockEntryBefore(g: Adjacency, a: int, b: int, x: int, y: int, l: bool) returns (l0: bool)
    requires IsRoom(g, a) && IsRoom(g, b) && IsRoom(g, x)
    requires Edge(y, l) in UnlockBetween(g, a, b)[x]
    ensures Edge(y, l0) in g[x]
    ensures l == (l0 && !((x == a && y == b) || (x == b && y == a)))
  {
    UnlockBetweenAt(g, a, b, x);
    l0 := l;
    if x == a || x == b {
      var other := if x == a then b else a;
      UnlockMembership(g[x], other, y, l);
      if y == other {
        var i :| 0 <= i < |g[x]| && g[x][i].to == other;
        l0 := g[x][i].locked;
        assert g[x][i] == Edge(y, l0);
      }
    }
  }

  /** An entry `y -> x` before two-sided unlocking is still there after it,
      open if it is the door between `a` and `b`. */
  lemma UnlockEntryAfter(g: Adjacency, a: int, b: int, x: int, y: int, l0: bool)
    requires IsRoom(g, a) && IsRoom(g, b) && IsRoom(g, y)
    requires Edge(x, l0) in g[y]
    ensures |UnlockBetween(g, a, b)| == |g|
    ensures Edge(x, l0 && !((y == a && x == b) || (y == b && x == a))) in UnlockBetween(g, a, b)[y]
  {
    UnlockBetweenAt(g, a, b, y);
    if y == a || y == b {
      var other := if y == a then b else a;
      var l := l0 && x != other;
      UnlockMembership(g[y], other, x, l);
      if x == other {
        var i :| 0 <= i < |g[y]| && g[y][i] == Edge(x, l0);
      }
    }
  }

  /** Two-sided unlocking keeps the adjacency symmetric in presence and lock state. */
  lemma {:induction false} UnlockBetweenSymmetric(g: Adjacency, a: int, b: int)
    requires Symmetric(g) && IsRoom(g, a) && IsRoom(g, b)
    ensures Symmetric(UnlockBetween(g, a, b))
  {
    var h: Adjacency := UnlockBetween(g, a, b);
    forall x, y, l | 0 <= x < |h| && Edge(y, l) in h[x]
      ensures IsRoom(h, y) && Edge(x, l) in h[y]
    {
      UnlockBetweenAt(g, a, b, x);
      var l0 := UnlockEntryBefore(g, a, b, x, y, l);
      UnlockEntryAfter(g, a, b, x, y, l0);
    }
  }

  /** Unlocking never locks anything, so the backbone stays present and unlocked. */
  lemma {:induction false} UnlockBetweenBackbone(g: Adjacency, a: int, b: int)
    requires Backbone(g) && IsRoom(g, a) && IsRoom(g, b)
    ensures Backbone(UnlockBetween(g, a, b))
  {
    var h: Adjacency := UnlockBetween(g, a, b);
    forall i | 0 <= i < |h| - 1 ensures BackboneAt(h, i) {
      assert BackboneAt(g, i);
      UnlockBetweenAt(g, a, b, i);
      UnlockBetweenAt(g, a, b, i + 1);
      UnlockMembership(g[i], b, i + 1, false);
      UnlockMembership(g[i], b, i + 1, true);
      UnlockMembership(g[i + 1], a, i, false);
      UnlockMembership(g[i + 1], a, i, true);
      UnlockMembership(g[i], a, i + 1, false);
      UnlockMembership(g[i], a, i + 1, true);
      UnlockMembership(g[i + 1], b, i, false);
      UnlockMembership(g[i + 1], b, i, true);
      assert HasEntry(g[i], i + 1) by {
        var k :| 0 <= k < |g[i]| && g[i][k] == Edge(i + 1, false);
      }
      assert HasEntry(g[i + 1], i) by {
        var k :| 0 <= k < |g[i + 1]| && g[i + 1][k] == Edge(i, false);
      }
    }
  }

  lemma UnlockBetweenSimple(g: Adjacency, a: int, b: int)
    requires Simple(g) && IsRoom(g, a) && IsRoom(g, b)
    ensures Simple(UnlockBetween(g, a, b))
  {
    var h: Adjacency := UnlockBetween(g, a, b);
    forall r | 0 <= r < |h| ensures |h[r]| == |g[r]| && forall i :: 0 <= i < |h[r]| ==> h[r][i].to == g[r][i].to {
      UnlockBetweenAt(g, a, b, r);
    }
  }

  /** After the call no entry between `a` and `b` is locked, every other room's list
      is unchanged, and a second call changes nothing. */
  lemma UnlockBetweenEffect(g: Adjacency, a: int, b: int)
    requires IsRoom(g, a) && IsRoom(g, b)
    ensures var h := UnlockBetween(g, a, b);
      |h| == |g| &&
      Edge(b, true) !in h[a] && Edge(a, true) !in h[b] &&
      (HasEntry(g[a], b) ==> b in Unlocked(h[a])) &&
      (HasEntry(g[b], a) ==> a in Unlocked(h[b])) &&
      (forall r :: 0 <= r < |g| && r != a && r != b ==> h[r] == g[r]) &&
      UnlockBetween(h, a, b) == h
  {
    var h: Adjacency := UnlockBetween(g, a, b);
    UnlockBetweenAt(g, a, b, a);
    UnlockBetweenAt(g, a, b, b);
    UnlockMembership(g[a], b, b, true);
    UnlockMembership(g[b], a, a, true);
    UnlockMembership(g[a], b, b, false);
    UnlockMembership(g[b], a, a, false);
    if a == b {
      UnlockTwice(g[a], a);
    }
    forall r | 0 <= r < |g| && r != a && r != b ensures h[r] == g[r] {
      UnlockBetweenAt(g, a, b, r);
    }
    var h2 := UnlockBetween(h, a, b);
    forall r | 0 <= r < |h| ensures h2[r] == h[r] {
      UnlockBetweenAt(h, a, b, r);
      UnlockBetweenAt(g, a, b, r);
      if r == a && r != b {
        UnlockTwice(g[a], b);
      } else if r == b && r != a {
        UnlockTwice(g[b], a);
      } else if r == a {
        UnlockTwice(g[a], a);
      }
    }
    UnlockBetweenAt(h, a, b, a);
  }

  // ---------------------------------------------------------------------
  // Walks over unlocked doors and breadth-first levels
  // ---------------------------------------------------------------------

  /** A sequence of rooms in which each consecutive pair is joined by an unlocked entry. */
  ghost predicate IsWalk(g: Adjacency, p: seq<int>) {
    |p| >= 1 &&
    (forall i :: 0 <= i < |p| ==> IsRoom(g, p[i])) &&
    (forall i :: 0 <= i < |p| - 1 ==> p[i + 1] in Unlocked(g[p[i]]))
  }

  ghost predicate WalkFromTo(g: Adjacency, p: seq<int>, s: int, t: int) {
    IsWalk(g, p) && p[0] == s && p[|p| - 1] == t
  }

  /** No room repeats. */
  ghost predicate Distinct(p: seq<int>) {
    forall i, j :: 0 <= i < j < |p| ==> p[i] != p[j]
  }

  /** The rooms one unlocked step away from some room of `S`. */
  function Next(g: Adjacency, S: set<int>): set<int> {
    NextFrom(g, S, 0)
  }

  /** The unlocked neighbours of the rooms of `S` numbered `v` and above. */
  function NextFrom(g: Adjacency, S: set<int>, v: nat): set<int>
    decreases |g| - v
  {
    if v >= |g| then {}
    else (if v in S then set x | x in Unlocked(g[v]) else {}) + NextFrom(g, S, v + 1)
  }

  /** The rooms reachable from `s` in at most `m` unlocked steps. */
  function Within(g: Adjacency, s: int, m: nat): set<int> {
    if m == 0 then {s} else Grow(g, Within(g, s, m - 1))
  }

  /** One breadth-first round: the set together with its unlocked neighbours. */
  function Grow(g: Adjacency, S: set<int>): set<int> {
    S + Next(g, S)
  }

  /** Every unlocked neighbour of a room of `S` is in `S`. */
  ghost predicate Closed(g: Adjacency, S: set<int>) {
    forall v, w :: v in S && IsRoom(g, v) && w in Unlocked(g[v]) ==> w in S
  }

  /** The breadth-first edge distance from `s` to `t`, or 999 when `t` cannot be reached. */
  function Distance(g: Adjacency, s: int, t: int): (d: int)
    ensures d == 0 <==> s == t
    ensures 0 <= d
  {
    if s == t then 0 else DistanceFrom(g, s, t, 0)
  }

  /** The first level from `m` on that holds `t`, or 999 when none below `|g|` does. */
  function DistanceFrom(g: Adjacency, s: int, t: int, m: nat): (d: int)
    requires m <= |g|
    ensures d == 999 || (m <= d < |g| && t in Within(g, s, d))
    decreases |g| - m
  {
    if m == |g| then 999
    else if t in Within(g, s, m) then m
    else DistanceFrom(g, s, t, m + 1)
  }

  lemma NextMember(g: Adjacency, S: set<int>, w: int)
    ensures w in Next(g, S) <==> exists v :: v in S && IsRoom(g, v) && w in Unlocked(g[v])
  {
    NextFromMember(g, S, 0, w);
  }

  lemma {:induction false} NextFromMember(g: Adjacency, S: set<int>, v: nat, w: int)
    ensures w in NextFrom(g, S, v) <==>
              exists u :: v <= u < |g| && u in S && w in Unlocked(g[u])
    decreases |g| - v
  {
    if v < |g| {
      NextFromMember(g, S, v + 1, w);
    }
  }

  lemma {:induction false} WithinMono(g: Adjacency, s: int, a: nat, b: nat)
    requires a <= b
    ensures Within(g, s, a) <= Within(g, s, b)
    decreases b
  {
    if a < b {
      WithinMono(g, s, a, b - 1);
    }
  }

  /** A walk of `|p| - 1` steps ends in the level of that many steps. */
  lemma {:induction false} WalkEndWithin(g: Adjacency, p: seq<int>)
    requires IsWalk(g, p)
    ensures p[|p| - 1] in Within(g, p[0], |p| - 1)
    decreases |p|
  {
    if |p| > 1 {
      var q := p[..|p| - 1];
      assert IsWalk(g, q);
      WalkEndWithin(g, q);
      assert p[|p| - 1] in Unlocked(g[q[|q| - 1]]);
      NextMember(g, Within(g, p[0], |p| - 2), p[|p| - 1]);
    }
  }

  /** A closed set that holds the start holds every level. */
  lemma {:induction false} WithinInClosed(g: Adjacency, s: int, S: set<int>, m: nat)
    requires s in S && Closed(g, S)
    ensures Within(g, s, m) <= S
  {
    if m > 0 {
      WithinInClosed(g, s, S, m - 1);
      forall w | w in Next(g, Within(g, s, m - 1)) ensures w in S {
        NextMember(g, Within(g, s, m - 1), w);
      }
    }
  }

  /** A closed set that holds the start of a walk holds its end. */
  lemma WalkStaysInClosed(g: Adjacency, p: seq<int>, S: set<int>)
    requires IsWalk(g, p) && p[0] in S && Closed(g, S)
    ensures p[|p| - 1] in S
  {
    WalkEndWithin(g, p);
    WithinInClosed(g, p[0], S, |p| - 1);
  }

  /** Every room of level `m` is the end of a walk of at most `m` steps. */
  lemma {:induction false} WithinHasWalk(g: Adjacency, s: int, m: nat, v: int)
    requires WellFormed(g) && IsRoom(g, s) && v in Within(g, s, m)
    ensures exists p :: WalkFromTo(g, p, s, v) && |p| <= m + 1
  {
    if m == 0 {
      assert WalkFromTo(g, [s], s, v);
    } else if v in Within(g, s, m - 1) {
      WithinHasWalk(g, s, m - 1, v);
    } else {
      NextMember(g, Within(g, s, m - 1), v);
      var u :| u in Within(g, s, m - 1) && IsRoom(g, u) && v in Unlocked(g[u]);
      WithinHasWalk(g, s, m - 1, u);
      var p :| WalkFromTo(g, p, s, u) && |p| <= m;
      NeighborIsRoom(g, u, v);
      var q := p + [v];
      assert forall i :: 0 <= i < |q| - 1 ==> q[i + 1] in Unlocked(g[q[i]]) by {
        forall i | 0 <= i < |q| - 1 ensures q[i + 1] in Unlocked(g[q[i]]) {
          if i < |p| - 1 {
            assert q[i] == p[i] && q[i + 1] == p[i + 1];
          }
        }
      }
      assert WalkFromTo(g, q, s, v);
    }
  }

  /** The ids `0 .. n - 1`. */
  function RoomSet(n: nat): set<int> {
    if n == 0 then {} else RoomSet(n - 1) + {n - 1}
  }

  lemma {:induction false} RoomSetSize(n: nat)
    ensures |RoomSet(n)| == n
    ensures forall x :: x in RoomSet(n) <==> 0 <= x < n
  {
    if n > 0 {
      RoomSetSize(n - 1);
    }
  }

  lemma SubsetSize(A: set<int>, B: set<int>)
    requires A <= B
    ensures |A| <= |B|
    ensures A != B ==> |A| < |B|
  {
    var D := B - A;
    assert B == A + D;
    assert A * D == {};
    if A != B {
      assert D != {};
    }
  }

  /** Cutting out the rooms between two visits of the same room leaves a shorter walk
      with the same ends. */
  lemma WalkShortcut(g: Adjacency, p: seq<int>, i: int, j: int)
    requires IsWalk(g, p) && 0 <= i < j < |p| && p[i] == p[j]
    ensures var q := p[..i] + p[j..];
      IsWalk(g, q) && q[0] == p[0] && q[|q| - 1] == p[|p| - 1] && |q| == |p| - (j - i)
  {
    var q := p[..i] + p[j..];
    assert forall k :: 0 <= k < i ==> q[k] == p[k];
    assert forall k :: i <= k < |q| ==> q[k] == p[k + j - i];
    forall k | 0 <= k < |q| - 1 ensures q[k + 1] in Unlocked(g[q[k]]) {
      if k + 1 == i {
        assert q[k + 1] == p[i];
      }
    }
  }

  /** The rooms of a sequence. */
  function Elements(p: seq<int>): set<int> {
    set x | x in p
  }

  lemma {:induction false} DistinctElements(p: seq<int>)
    requires Distinct(p)
    ensures |Elements(p)| == |p|
  {
    if p != [] {
      var q := p[..|p| - 1];
      DistinctElements(q);
      assert Elements(p) == Elements(q) + {p[|p| - 1]};
    }
  }

  /** A walk that repeats no room visits at most every room once. */
  lemma DistinctRoomsBound(g: Adjacency, p: seq<int>)
    requires Distinct(p) && forall i :: 0 <= i < |p| ==> IsRoom(g, p[i])
    ensures |p| <= |g|
  {
    DistinctElements(p);
    RoomSetSize(|g|);
    SubsetSize(Elements(p), RoomSet(|g|));
  }

  /** A shortest walk to the first level that holds `t` repeats no room. */
  lemma FirstLevelWalk(g: Adjacency, s: int, t: int, m: nat)
    requires WellFormed(g) && IsRoom(g, s)
    requires t in Within(g, s, m) && (m == 0 || t !in Within(g, s, m - 1))
    ensures exists p :: WalkFromTo(g, p, s, t) && |p| == m + 1 && Distinct(p)
  {
    WithinHasWalk(g, s, m, t);
    var p :| WalkFromTo(g, p, s, t) && |p| <= m + 1;
    WalkEndWithin(g, p);
    if |p| < m + 1 {
      WithinMono(g, s, |p| - 1, m - 1);
      assert false;
    }
    ShortestIsDistinct(g, s, t, m, p);
  }

  lemma ShortestIsDistinct(g: Adjacency, s: int, t: int, m: nat, p: seq<int>)
    requires WalkFromTo(g, p, s, t) && |p| == m + 1
    requires m == 0 || t !in Within(g, s, m - 1)
    ensures Distinct(p)
  {
    if !Distinct(p) {
      var i, j :| 0 <= i < j < |p| && p[i] == p[j];
      WalkShortcut(g, p, i, j);
      var q := p[..i] + p[j..];
      WalkEndWithin(g, q);
      WithinMono(g, s, |q| - 1, m - 1);
      assert false;
    }
  }

  /** The first level that holds a room is below the number of rooms. */
  lemma LevelBound(g: Adjacency, s: int, t: int, m: nat)
    requires WellFormed(g) && IsRoom(g, s)
    requires t in Within(g, s, m) && (m == 0 || t !in Within(g, s, m - 1))
    ensures m < |g|
  {
    FirstLevelWalk(g, s, t, m);
    var p :| WalkFromTo(g, p, s, t) && |p| == m + 1 && Distinct(p);
    DistinctRoomsBound(g, p);
  }

  lemma {:induction false} DistanceFromLevel(g: Adjacency, s: int, t: int, m: nat, k: nat)
    requires k <= m < |g|
    requires t in Within(g, s, m) && (m == 0 || t !in Within(g, s, m - 1))
    ensures DistanceFrom(g, s, t, k) == m
    decreases m - k
  {
    if k < m {
      WithinMono(g, s, k, m - 1);
      DistanceFromLevel(g, s, t, m, k + 1);
    }
  }

  /** `Distance` is the first breadth-first level that holds `t`. */
  lemma DistanceIsLevel(g: Adjacency, s: int, t: int, m: nat)
    requires WellFormed(g) && IsRoom(g, s)
    requires t in Within(g, s, m) && (m == 0 || t !in Within(g, s, m - 1))
    ensures Distance(g, s, t) == m
  {
    LevelBound(g, s, t, m);
    DistanceFromLevel(g, s, t, m, 0);
    if m > 0 {
      WithinMono(g, s, 0, m - 1);
    }
  }

  lemma {:induction false} DistanceFromUnreached(g: Adjacency, s: int, t: int, k: nat)
    requires k <= |g| && t !in Within(g, s, |g|)
    ensures DistanceFrom(g, s, t, k) == 999
    decreases |g| - k
  {
    if k < |g| {
      WithinMono(g, s, k, |g|);
      DistanceFromUnreached(g, s, t, k + 1);
    }
  }

  lemma DistanceUnreached(g: Adjacency, s: int, t: int)
    requires t !in Within(g, s, |g|)
    ensures Distance(g, s, t) == 999
  {
    WithinMono(g, s, 0, |g|);
    DistanceFromUnreached(g, s, t, 0);
  }

  /** The distance is the number of steps of a shortest unlocked walk when one
      exists, and the sentinel 999 when none does. */
  lemma DistanceIsShortestWalk(g: Adjacency, s: int, t: int)
    requires WellFormed(g) && IsRoom(g, s)
    ensures (exists p :: WalkFromTo(g, p, s, t)) ==>
              (exists p :: WalkFromTo(g, p, s, t) && |p| == Distance(g, s, t) + 1) &&
              (forall p :: WalkFromTo(g, p, s, t) ==> Distance(g, s, t) + 1 <= |p|)
    ensures (forall p :: !WalkFromTo(g, p, s, t)) ==> Distance(g, s, t) == 999
  {
    if exists p :: WalkFromTo(g, p, s, t) {
      var p :| WalkFromTo(g, p, s, t);
      WalkEndWithin(g, p);
      var m: nat := 0;
      while t !in Within(g, s, m)
        invariant m <= |p| - 1
        invariant forall k: nat :: k < m ==> t !in Within(g, s, k)
        decreases |p| - 1 - m
      {
        if m == |p| - 1 {
          assert false;
        }
        m := m + 1;
      }
      DistanceIsLevel(g, s, t, m);
      WithinHasWalk(g, s, m, t);
      forall q | WalkFromTo(g, q, s, t) ensures Distance(g, s, t) + 1 <= |q| {
        WalkEndWithin(g, q);
        if |q| - 1 < m {
          assert false;
        }
      }
    } else {
      if t in Within(g, s, |g|) {
        WithinHasWalk(g, s, |g|, t);
        assert false;
      }
      DistanceUnreached(g, s, t);
    }
  }

  // ---------------------------------------------------------------------
  // Breadth-first bookkeeping shared by the path search and the guard's distance
  // ---------------------------------------------------------------------

  /** `v` is first reached at level `d`: within `d` steps and not within fewer. */
  ghost predicate AtLevel(g: Adjacency, s: int, v: int, d: nat) {
    v in Within(g, s, d) && (d == 0 || v !in Within(g, s, d - 1))
  }

  /** Every unlocked neighbour of an expanded room has been seen. */
  ghost predicate Expanded(g: Adjacency, done: set<int>, seen: set<int>) {
    forall v, w :: v in done && IsRoom(g, v) && w in Unlocked(g[v]) ==> w in seen
  }

  /** Once every room below level `k` is expanded, every room up to level `k` has been seen. */
  lemma LevelSeen(g: Adjacency, s: int, k: nat, done: set<int>, seen: set<int>)
    requires s in seen && done <= seen && Expanded(g, done, seen)
    requires k > 0 ==> Within(g, s, k - 1) <= done
    ensures Within(g, s, k) <= seen
  {
    if k > 0 {
      forall w | w in Next(g, Within(g, s, k - 1)) ensures w in seen {
        NextMember(g, Within(g, s, k - 1), w);
      }
    }
  }

  /** A neighbour of a level-`k` room that is not within `k` steps is at level `k + 1`. */
  lemma StepLevel(g: Adjacency, s: int, k: nat, v: int, w: int)
    requires AtLevel(g, s, v, k) && IsRoom(g, v) && w in Unlocked(g[v]) && w !in Within(g, s, k)
    ensures AtLevel(g, s, w, k + 1)
  {
    NextMember(g, Within(g, s, k), w);
  }

  /** A walk that ends at the level of its own length is a shortest walk: it repeats
      no room, its step count is the distance, and no walk between the same rooms is shorter. */
  lemma ShortestWalk(g: Adjacency, s: int, t: int, p: seq<int>)
    requires WellFormed(g) && WalkFromTo(g, p, s, t) && AtLevel(g, s, t, |p| - 1)
    ensures Distinct(p) && |p| == Distance(g, s, t) + 1
    ensures forall q :: WalkFromTo(g, q, s, t) ==> |p| <= |q|
  {
    ShortestIsDistinct(g, s, t, |p| - 1, p);
    DistanceIsLevel(g, s, t, |p| - 1);
    forall q | WalkFromTo(g, q, s, t) ensures |p| <= |q| {
      WalkEndWithin(g, q);
      if |q| < |p| {
        WithinMono(g, s, |q| - 1, |p| - 2);
      }
    }
  }

  /** A closed set holding `s` but not `t` rules out every walk from `s` to `t`. */
  lemma NoWalkOut(g: Adjacency, s: int, t: int, S: set<int>)
    requires WellFormed(g) && IsRoom(g, s) && Closed(g, S) && s in S && t !in S
    ensures forall p :: !WalkFromTo(g, p, s, t)
    ensures Distance(g, s, t) == 999
  {
    forall p | WalkFromTo(g, p, s, t) ensures false {
      WalkStaysInClosed(g, p, S);
    }
    DistanceIsShortestWalk(g, s, t);
  }

  /** The rooms of the breadth-first queue entries (room first, then what the search carries). */
  ghost function QueueRooms<T>(q: seq<(int, T)>): set<int> {
    if |q| == 0 then {} else QueueRooms(q[..|q| - 1]) + {q[|q| - 1].0}
  }

  lemma QueueRoomsAppend<T>(q: seq<(int, T)>, e: (int, T))
    ensures QueueRooms(q + [e]) == QueueRooms(q) + {e.0}
  {
    assert (q + [e])[..|q|] == q;
  }

  lemma {:induction false} QueueRoomsHas<T>(q: seq<(int, T)>, i: int)
    requires 0 <= i < |q|
    ensures q[i].0 in QueueRooms(q)
    decreases |q|
  {
    if i < |q| - 1 {
      QueueRoomsHas(q[..|q| - 1], i);
    }
  }

  lemma {:induction false} QueueIndex<T>(q: seq<(int, T)>, r: int) returns (i: int)
    requires r in QueueRooms(q)
    ensures 0 <= i < |q| && q[i].0 == r
    decreases |q|
  {
    if q[|q| - 1].0 == r {
      i := |q| - 1;
    } else {
      i := QueueIndex(q[..|q| - 1], r);
    }
  }

  /** A set of rooms has at most as many members as there are rooms. */
  lemma RoomsBound(g: Adjacency, S: set<int>)
    requires forall w :: w in S ==> IsRoom(g, w)
    ensures |S| <= |g|
  {
    RoomSetSize(|g|);
    forall w | w in S ensures w in RoomSet(|g|) {
      assert IsRoom(g, w);
    }
    SubsetSize(S, RoomSet(|g|));
  }

  // ---------------------------------------------------------------------
  // The backbone chain
  // ---------------------------------------------------------------------

  /** Every room can be reached from room 0 over unlocked doors along the chain. */
  lemma BackboneReachable(g: Adjacency, r: int)
    requires Backbone(g) && IsRoom(g, r)
    ensures exists p :: WalkFromTo(g, p, 0, r) && Distinct(p)
  {
    var p := seq(r + 1, i requires 0 <= i <= r => i);
    forall i | 0 <= i < |p| - 1 ensures p[i + 1] in Unlocked(g[p[i]]) {
      assert BackboneAt(g, i);
    }
    assert WalkFromTo(g, p, 0, r);
  }

  /** With at least two rooms, every room has an unlocked neighbour. */
  lemma BackboneHasExits(g: Adjacency, r: int)
    requires Backbone(g) && |g| >= 2 && IsRoom(g, r)
    ensures Unlocked(g[r]) != []
  {
    if r < |g| - 1 {
      assert BackboneAt(g, r);
      assert r + 1 in Unlocked(g[r]);
    } else {
      assert BackboneAt(g, r - 1);
      assert r - 1 in Unlocked(g[r]);
    }
  }

  // ---------------------------------------------------------------------
  // Building the graph: the chain, then the extra doors
  // ---------------------------------------------------------------------

  /** The lists after the first `k` rounds of the chain loop: round `i` appends
      `i + 1` to room `i` and `i` to room `i + 1`, both unlocked. */
  function ChainUpTo(n: nat, k: nat): Adjacency {
    seq(n, r => ChainRow(k, r))
  }

  /** Room `r`'s list after `k` rounds: `r - 1` from round `r - 1`, then `r + 1` from round `r`. */
  function ChainRow(k: nat, r: int): seq<Edge> {
    (if 0 < r <= k then [Edge(r - 1, false)] else []) + (if 0 <= r < k then [Edge(r + 1, false)] else [])
  }

  /** Round `k` appends `k + 1` to room `k`'s list and `k` to room `k + 1`'s. */
  lemma ChainStep(n: nat, k: nat)
    requires k + 1 < n
    ensures var g := ChainUpTo(n, k);
      ChainUpTo(n, k + 1) == g[k := g[k] + [Edge(k + 1, false)]][k + 1 := g[k + 1] + [Edge(k, false)]]
  {
    var g := ChainUpTo(n, k);
    var h := g[k := g[k] + [Edge(k + 1, false)]][k + 1 := g[k + 1] + [Edge(k, false)]];
    forall r | 0 <= r < n ensures ChainUpTo(n, k + 1)[r] == h[r] {
    }
  }

  /** The complete chain `0 <-> 1 <-> ... <-> n - 1`. */
  function Chain(n: nat): Adjacency {
    ChainUpTo(n, if n == 0 then 0 else n - 1)
  }

  /** Adding an extra door: skipped when both ends are the same room or `a`
      already lists `b`; otherwise appended to both lists with the same lock flag. */
  function AddDoor(g: Adjacency, a: int, b: int, locked: bool): Adjacency
    requires IsRoom(g, a) && IsRoom(g, b)
  {
    if a == b || HasEntry(g[a], b) then g
    else g[a := g[a] + [Edge(b, locked)]][b := g[b] + [Edge(a, locked)]]
  }

  /** Extra-door draws: two room ids and a lock flag each. */
  type Door = (int, int, bool)

  predicate DoorsInRange(n: int, ds: seq<Door>) {
    forall k :: 0 <= k < |ds| ==> 0 <= ds[k].0 < n && 0 <= ds[k].1 < n
  }

  /** The graph after adding the extra doors in order. */
  function AddDoors(g: Adjacency, ds: seq<Door>): (h: Adjacency)
    requires DoorsInRange(|g|, ds)
    ensures |h| == |g|
  {
    if ds == [] then g
    else
      var d := ds[|ds| - 1];
      AddDoor(AddDoors(g, ds[..|ds| - 1]), d.0, d.1, d.2)
  }

  /** Room `a` of the chain lists exactly its two numeric neighbours, unlocked. */
  lemma ChainEntry(n: nat, a: int, b: int, l: bool)
    requires 0 <= a < n
    ensures Edge(b, l) in Chain(n)[a] <==> !l && ((b == a - 1 && a > 0) || (b == a + 1 && a + 1 < n))
  {
    var e := Chain(n)[a];
    if a > 0 {
      assert e[0] == Edge(a - 1, false);
    }
    if a + 1 < n {
      assert e[|e| - 1] == Edge(a + 1, false);
    }
  }

  lemma ChainShape(n: nat)
    ensures var g := Chain(n);
      WellFormed(g) && Symmetric(g) && Backbone(g) && Simple(g)
  {
    ChainSymmetric(n);
    ChainBackbone(n);
    ChainSimple(n);
  }

  lemma ChainSymmetric(n: nat)
    ensures Symmetric(Chain(n))
  {
    var g: Adjacency := Chain(n);
    forall a, b, l | 0 <= a < |g| && Edge(b, l) in g[a] ensures IsRoom(g, b) && Edge(a, l) in g[b] {
      ChainReciprocal(n, a, b, l);
    }
  }

  lemma ChainReciprocal(n: nat, a: int, b: int, l: bool)
    requires 0 <= a < n && Edge(b, l) in Chain(n)[a]
    ensures 0 <= b < n && Edge(a, l) in Chain(n)[b]
  {
    ChainEntry(n, a, b, l);
    ChainEntry(n, b, a, l);
  }

  lemma ChainBackbone(n: nat)
    ensures Backbone(Chain(n))
  {
    var g: Adjacency := Chain(n);
    forall i | 0 <= i < |g| - 1 ensures BackboneAt(g, i) {
      ChainEntry(n, i, i + 1, false);
      ChainEntry(n, i, i + 1, true);
      ChainEntry(n, i + 1, i, false);
      ChainEntry(n, i + 1, i, true);
    }
  }

  lemma ChainSimple(n: nat)
    ensures WellFormed(Chain(n)) && Simple(Chain(n))
  {
    var g: Adjacency := Chain(n);
    forall r: int, k: int | 0 <= r < |g| && 0 <= k < |g[r]| ensures IsRoom(g, g[r][k].to) && g[r][k].to != r {
      assert Edge(g[r][k].to, g[r][k].locked) in g[r];
      ChainEntry(n, r, g[r][k].to, g[r][k].locked);
    }
  }

  lemma AddDoorWellFormed(g: Adjacency, a: int, b: int, locked: bool)
    requires IsRoom(g, a) && IsRoom(g, b) && WellFormed(g)
    ensures WellFormed(AddDoor(g, a, b, locked))
  {
  }

  /** `b` lists `a` exactly when `a` lists `b`. */
  lemma SymmetricHasEntry(g: Adjacency, a: int, b: int)
    requires Symmetric(g) && IsRoom(g, a) && IsRoom(g, b)
    ensures HasEntry(g[a], b) <==> HasEntry(g[b], a)
  {
    if HasEntry(g[a], b) {
      var i :| 0 <= i < |g[a]| && g[a][i].to == b;
      assert Edge(b, g[a][i].locked) in g[a];
      var j :| 0 <= j < |g[b]| && g[b][j] == Edge(a, g[a][i].locked);
    }
    if HasEntry(g[b], a) {
      var i :| 0 <= i < |g[b]| && g[b][i].to == a;
      assert Edge(a, g[b][i].locked) in g[b];
      var j :| 0 <= j < |g[a]| && g[a][j] == Edge(b, g[b][i].locked);
    }
  }

  /** Row by row: the two ends gain one entry each at the back, nothing else changes. */
  lemma AddDoorAt(g: Adjacency, a: int, b: int, locked: bool, x: int)
    requires IsRoom(g, a) && IsRoom(g, b) && IsRoom(g, x) && a != b && !HasEntry(g[a], b)
    ensures |AddDoor(g, a, b, locked)| == |g|
    ensures AddDoor(g, a, b, locked)[x] ==
              if x == a then g[a] + [Edge(b, locked)]
              else if x == b then g[b] + [Edge(a, locked)]
              else g[x]
  {
  }

  lemma AddDoorSymmetric(g: Adjacency, a: int, b: int, locked: bool)
    requires IsRoom(g, a) && IsRoom(g, b) && Symmetric(g)
    ensures Symmetric(AddDoor(g, a, b, locked))
  {
    if a != b && !HasEntry(g[a], b) {
      NewDoorSymmetric(g, a, b, locked);
    }
  }

  lemma NewDoorSymmetric(g: Adjacency, a: int, b: int, locked: bool)
    requires IsRoom(g, a) && IsRoom(g, b) && a != b && !HasEntry(g[a], b) && Symmetric(g)
    ensures Symmetric(AddDoor(g, a, b, locked))
  {
    var h := AddDoor(g, a, b, locked);
    AddDoorAt(g, a, b, locked, a);
    forall x, y, l | 0 <= x < |h| && Edge(y, l) in h[x] ensures IsRoom(h, y) && Edge(x, l) in h[y] {
      AddDoorEntry(g, a, b, locked, x, y, l);
    }
  }

  lemma AddDoorEntry(g: Adjacency, a: int, b: int, locked: bool, x: int, y: int, l: bool)
    requires IsRoom(g, a) && IsRoom(g, b) && a != b && !HasEntry(g[a], b) && Symmetric(g)
    requires 0 <= x < |g| && Edge(y, l) in AddDoor(g, a, b, locked)[x]
    ensures IsRoom(AddDoor(g, a, b, locked), y) && Edge(x, l) in AddDoor(g, a, b, locked)[y]
  {
    AddDoorAt(g, a, b, locked, x);
    var row := AddDoor(g, a, b, locked)[x];
    if Edge(y, l) in g[x] {
      assert IsRoom(g, y) && Edge(x, l) in g[y];
      AddDoorAt(g, a, b, locked, y);
    } else {
      assert row[|row| - 1] == Edge(y, l);
      AddDoorAt(g, a, b, locked, y);
    }
  }

  lemma AddDoorBackbone(g: Adjacency, a: int, b: int, locked: bool)
    requires IsRoom(g, a) && IsRoom(g, b) && Backbone(g)
    ensures Backbone(AddDoor(g, a, b, locked))
  {
    if a != b && !HasEntry(g[a], b) {
      var h := AddDoor(g, a, b, locked);
      forall i | 0 <= i < |h| - 1 ensures BackboneAt(h, i) {
        assert BackboneAt(g, i);
        AddDoorAt(g, a, b, locked, i);
        AddDoorAt(g, a, b, locked, i + 1);
      }
    }
  }

  lemma AddDoorSimple(g: Adjacency, a: int, b: int, locked: bool)
    requires IsRoom(g, a) && IsRoom(g, b) && Symmetric(g) && Simple(g)
    ensures Simple(AddDoor(g, a, b, locked))
  {
    if a != b && !HasEntry(g[a], b) {
      SymmetricHasEntry(g, a, b);
    }
  }

  /** The built graph is well formed, symmetric, simple and keeps the unlocked chain. */
  lemma {:induction false} AddDoorsShape(g: Adjacency, ds: seq<Door>)
    requires DoorsInRange(|g|, ds)
    requires WellFormed(g) && Symmetric(g) && Backbone(g) && Simple(g)
    ensures var h := AddDoors(g, ds);
      WellFormed(h) && Symmetric(h) && Backbone(h) && Simple(h)
  {
    if ds != [] {
      AddDoorsShape(g, ds[..|ds| - 1]);
      var d := ds[|ds| - 1];
      var h := AddDoors(g, ds[..|ds| - 1]);
      AddDoorWellFormed(h, d.0, d.1, d.2);
      AddDoorSymmetric(h, d.0, d.1, d.2);
      AddDoorBackbone(h, d.0, d.1, d.2);
      AddDoorSimple(h, d.0, d.1, d.2);
    }
  }
}
