/** The escape-room environment (environment.py): rooms holding keys, traps
    and puzzle flags, joined by doors that may be locked. Rooms are objects
    whose fields change in place. The ghost field `graph` mirrors the rooms'
    neighbour lists as a `RoomGraph.Adjacency` value, against which the graph
    properties are stated. */
module Env {
  import opened Wrappers
  import opened RoomGraph

  /** One room. Its id never changes; the rest is updated in place.
      `keyId` is `Some(k)` exactly when the room holds key `k`: it stands for
      the pair of fields `has_key` and `key_id`, which are always set together. */
  class Room {
    const id: int
    var neighbors: seq<Edge>
    var keyId: Option<int>
    var hasTrap: bool
    var trapTriggered: bool
    var hasPuzzle: bool
    var visited: bool
    var isExit: bool

    predicate HasKey()
      reads this
    {
      keyId.Some?
    }

    /** No trap, puzzle or visit yet. */
    ghost predicate Unplaced()
      reads this
    {
      !hasTrap && !trapTriggered && !hasPuzzle && !visited
    }

    constructor (roomId: int)
      ensures id == roomId && neighbors == [] && keyId == None && Unplaced() && !isExit
    {
      id := roomId;
      neighbors := [];
      keyId := None;
      hasTrap := false;
      trapTriggered := false;
      hasPuzzle := false;
      visited := false;
      isExit := false;
    }

    /** Appends one neighbour entry; earlier entries keep their order. */
    method AddNeighbor(roomId: int, isLocked: bool)
      modifies `neighbors
      ensures neighbors == old(neighbors) + [Edge(roomId, isLocked)]
    {
      neighbors := neighbors + [Edge(roomId, isLocked)];
    }

    /** Clears, in place, the lock flag of every entry that names `neighborId`. */
    method UnlockDoor(neighborId: int)
      modifies `neighbors
      ensures neighbors == Unlock(old(neighbors), neighborId)
    {
      var i := 0;
      while i < |neighbors|
        invariant 0 <= i <= |neighbors| == |old(neighbors)|
        invariant forall k :: 0 <= k < i ==> neighbors[k] == Unlock(old(neighbors), neighborId)[k]
        invariant forall k :: i <= k < |neighbors| ==> neighbors[k] == old(neighbors)[k]
      {
        if neighbors[i].to == neighborId {
          neighbors := neighbors[i := Edge(neighbors[i].to, false)];
        }
        i := i + 1;
      }
    }
  }

  /** Some entry of the list is locked. */
  predicate HasLockedDoor(es: seq<Edge>) {
    exists k :: 0 <= k < |es| && es[k].locked
  }

  /** How many entries of a shuffled room list receive an item: `min(count, len)`,
      and none for a negative count. */
  function Placed(count: int, order: seq<int>): (k: nat)
    ensures k <= |order|
    ensures count >= 0 ==> k == if count < |order| then count else |order|
  {
    if count <= 0 then 0 else if count < |order| then count else |order|
  }

  /** A shuffle of the rooms other than the start and the exit, `1 .. n - 2`. */
  predicate IsShuffle(order: seq<int>, n: int) {
    |order| == (if n >= 2 then n - 2 else 0) &&
    (forall k :: 0 <= k < |order| ==> 1 <= order[k] <= n - 2) &&
    (forall i, j :: 0 <= i < j < |order| ==> order[i] != order[j])
  }

  class Environment {
    var rooms: seq<Room>
    const roomCount: int
    const startRoomId: int
    const exitRoomId: int
    var keysCollected: set<int>
    const totalKeys: int
    /** The rooms' neighbour lists, `graph[i] == rooms[i].neighbors`. */
    ghost var graph: Adjacency
    /** Where each key was placed: key `k` lies in room `keyHome[k]`. */
    ghost var keyHome: seq<int>

    /** Room `i` sits at position `i` and its list is `graph[i]`. */
    ghost predicate Coupled()
      reads this`rooms, this`graph, (set r | r in rooms)`neighbors
    {
      |rooms| == roomCount && |graph| == roomCount &&
      forall i :: 0 <= i < |rooms| ==> rooms[i].id == i && rooms[i].neighbors == graph[i]
    }

    /** Room `i`'s item fields agree with how keys and traps are laid out. */
    ghost predicate ItemsOk(i: int)
      requires 0 <= i < |rooms|
      reads this`rooms, (set r | r in rooms)`keyId, (set r | r in rooms)`hasTrap, (set r | r in rooms)`isExit
    {
      var r := rooms[i];
      (r.isExit <==> i == exitRoomId) &&
      (r.keyId.Some? ==> 0 <= r.keyId.value < totalKeys && 0 < i < roomCount - 1) &&
      (r.hasTrap ==> r.keyId.None? && 0 < i < roomCount - 1)
    }

    ghost predicate Valid()
      reads this`rooms, this`graph, this`keyHome, (set r | r in rooms)`neighbors,
            (set r | r in rooms)`keyId, (set r | r in rooms)`hasTrap, (set r | r in rooms)`isExit
    {
      Coupled() && roomCount >= 1 && startRoomId == 0 && exitRoomId == roomCount - 1 &&
      (forall i :: 0 <= i < |rooms| ==> ItemsOk(i)) &&
      (forall i :: 0 <= i < |rooms| && rooms[i].keyId.Some? ==>
         0 <= rooms[i].keyId.value < |keyHome| && keyHome[rooms[i].keyId.value] == i) &&
      WellFormed(graph)
    }

    /** The doors are mirrored with equal lock state, the backbone chain is
        unlocked, and no room lists itself or a neighbour twice. */
    ghost predicate Shaped()
      reads this`graph
    {
      Symmetric(graph) && Backbone(graph) && Simple(graph)
    }

    /** Items are laid out as the placement steps leave them: key `k` in room
        `keyOrder[k]` for the first `numKeys` entries and no key elsewhere, a
        trap on each of the first `numTraps` rooms of `trapOrder` that holds no
        key and nowhere else, and a puzzle flag exactly on the rooms with a
        locked door. */
    ghost predicate Laid(keyOrder: seq<int>, numKeys: int, trapOrder: seq<int>, numTraps: int)
      requires Coupled() && IsShuffle(keyOrder, roomCount)
      reads this`rooms, this`graph, (set r | r in rooms)`neighbors, (set r | r in rooms)`keyId,
            (set r | r in rooms)`hasTrap, (set r | r in rooms)`hasPuzzle
    {
      (forall k :: 0 <= k < Placed(numKeys, keyOrder) ==> rooms[keyOrder[k]].keyId == Some(k)) &&
      (forall r :: 0 <= r < |rooms| && r !in keyOrder[..Placed(numKeys, keyOrder)] ==> rooms[r].keyId == None) &&
      (forall r :: 0 <= r < |rooms| ==>
         (rooms[r].hasTrap <==> r in trapOrder[..Placed(numTraps, trapOrder)] && rooms[r].keyId == None)) &&
      (forall r :: 0 <= r < |rooms| ==> (rooms[r].hasPuzzle <==> HasLockedDoor(graph[r])))
    }

    /** Builds the map: `n` rooms, the unlocked chain, the extra doors drawn in
        `doors`, keys on the first `numKeys` rooms of `keyOrder`, traps on the
        first `numTraps` rooms of `trapOrder` that hold no key, and a puzzle flag
        on every room with a locked door. The draws stand for the random choices. */
    constructor (n: int, numKeys: int, numTraps: int, doors: seq<Door>, keyOrder: seq<int>, trapOrder: seq<int>)
      requires n >= 1
      requires |doors| == n / 3 && DoorsInRange(n, doors)
      requires IsShuffle(keyOrder, n) && IsShuffle(trapOrder, n)
      ensures Valid() && Shaped()
      ensures roomCount == n && totalKeys == numKeys && keysCollected == {}
      ensures graph == AddDoors(Chain(n), doors)
      ensures keyHome == keyOrder && Laid(keyOrder, numKeys, trapOrder, numTraps)
    {
      roomCount := n;
      startRoomId := 0;
      exitRoomId := n - 1;
      totalKeys := numKeys;
      keysCollected := {};
      rooms := [];
      graph := [];
      keyHome := keyOrder;
      new;
      GenerateRooms();
      ConnectRooms(doors);
      PlaceItems(keyOrder, numKeys, trapOrder, numTraps);
      ChainShape(n);
      AddDoorsShape(Chain(n), doors);
    }

    /** Keys, then traps, then puzzle flags, on rooms that hold none yet. */
    method PlaceItems(keyOrder: seq<int>, numKeys: int, trapOrder: seq<int>, numTraps: int)
      requires Coupled() && roomCount >= 1 && exitRoomId == roomCount - 1 && totalKeys == numKeys
      requires IsShuffle(keyOrder, roomCount) && IsShuffle(trapOrder, roomCount)
      requires forall i :: 0 <= i < |rooms| ==>
                 rooms[i].keyId == None && rooms[i].Unplaced() && (rooms[i].isExit <==> i == exitRoomId)
      modifies (set r | r in rooms)`keyId, (set r | r in rooms)`hasTrap, (set r | r in rooms)`hasPuzzle
      ensures Coupled()
      ensures forall i :: 0 <= i < |rooms| ==> ItemsOk(i)
      ensures forall i :: 0 <= i < |rooms| && rooms[i].keyId.Some? ==>
                0 <= rooms[i].keyId.value < |keyOrder| && keyOrder[rooms[i].keyId.value] == i
      ensures Laid(keyOrder, numKeys, trapOrder, numTraps)
    {
      PlaceKeys(keyOrder, numKeys);
      PlaceTraps(trapOrder, numTraps);
      PlacePuzzles();
    }

    /** Rooms `0 .. roomCount - 1`, fresh, without doors or items; the last one is the exit. */
    method GenerateRooms()
      requires roomCount >= 1 && exitRoomId == roomCount - 1
      modifies `rooms, `graph
      ensures Coupled() && graph == seq(roomCount, i => [])
      ensures forall i :: 0 <= i < |rooms| ==> fresh(rooms[i])
      ensures forall i :: 0 <= i < |rooms| ==>
                rooms[i].keyId == None && rooms[i].Unplaced() && (rooms[i].isExit <==> i == exitRoomId)
    {
      rooms := [];
      graph := [];
      var i := 0;
      while i < roomCount
        invariant 0 <= i <= roomCount && |rooms| == i && |graph| == i
        invariant forall k :: 0 <= k < i ==> fresh(rooms[k])
        invariant forall k :: 0 <= k < i ==>
                    rooms[k].id == k && rooms[k].neighbors == [] && graph[k] == [] &&
                    rooms[k].keyId == None && rooms[k].Unplaced() && !rooms[k].isExit
      {
        var room := new Room(i);
        rooms := rooms + [room];
        graph := graph + [[]];
        i := i + 1;
      }
      rooms[exitRoomId].isExit := true;
    }

    /** The chain `i <-> i + 1` first, then the extra doors in draw order. */
    method ConnectRooms(doors: seq<Door>)
      requires Coupled() && roomCount >= 1 && graph == seq(roomCount, i => [])
      requires |doors| == roomCount / 3 && DoorsInRange(roomCount, doors)
      modifies `graph, (set r | r in rooms)`neighbors
      ensures Coupled() && graph == AddDoors(Chain(roomCount), doors)
    {
      ConnectChain();
      AddExtraDoors(doors);
    }

    /** First loop of the connection step: an unlocked door between `i` and `i + 1`. */
    method ConnectChain()
      requires Coupled() && roomCount >= 1 && graph == seq(roomCount, i => [])
      modifies `graph, (set r | r in rooms)`neighbors
      ensures Coupled() && graph == Chain(roomCount)
    {
      var n := roomCount;
      var i := 0;
      assert forall r :: 0 <= r < n ==> ChainRow(0, r) == [];
      assert graph == ChainUpTo(n, 0);
      while i < n - 1
        invariant 0 <= i <= n - 1 && Coupled()
        invariant graph == ChainUpTo(n, i)
      {
        Join(i, i + 1, false);
        ChainStep(n, i);
        i := i + 1;
      }
    }

    /** One door on both ends: `b` is appended to `a`'s list, then `a` to `b`'s,
        with the same lock flag. */
    method Join(a: int, b: int, locked: bool)
      requires Coupled() && 0 <= a < roomCount && 0 <= b < roomCount && a != b
      modifies `graph, (rooms[a] as Room)`neighbors, (rooms[b] as Room)`neighbors
      ensures Coupled()
      ensures graph == old(graph)[a := old(graph)[a] + [Edge(b, locked)]][b := old(graph)[b] + [Edge(a, locked)]]
    {
      rooms[a].AddNeighbor(b, locked);
      rooms[b].AddNeighbor(a, locked);
      graph := graph[a := graph[a] + [Edge(b, locked)]][b := graph[b] + [Edge(a, locked)]];
    }

    /** Second loop of the connection step: each drawn pair of distinct rooms
        that are not yet neighbours gets a door, with the drawn lock flag. */
    method AddExtraDoors(doors: seq<Door>)
      requires Coupled() && DoorsInRange(roomCount, doors)
      modifies `graph, (set r | r in rooms)`neighbors
      ensures Coupled() && graph == AddDoors(old(graph), doors)
    {
      var k := 0;
      while k < |doors|
        invariant 0 <= k <= |doors| && Coupled()
        invariant graph == AddDoors(old(graph), doors[..k])
      {
        var (room1, room2, isLocked) := doors[k];
        if room1 != room2 && !AreNeighbors(room1, room2) {
          Join(room1, room2, isLocked);
        }
        assert doors[..k + 1][..k] == doors[..k];
        k := k + 1;
      }
      assert doors[..|doors|] == doors;
    }

    /** Key `k` goes to room `keyOrder[k]`, for the first `numKeys` entries. */
    method PlaceKeys(keyOrder: seq<int>, numKeys: int)
      requires Coupled() && IsShuffle(keyOrder, roomCount)
      requires forall i :: 0 <= i < |rooms| ==> rooms[i].keyId == None
      modifies (set r | r in rooms)`keyId
      ensures forall k :: 0 <= k < Placed(numKeys, keyOrder) ==> rooms[keyOrder[k]].keyId == Some(k)
      ensures forall r :: 0 <= r < |rooms| && r !in keyOrder[..Placed(numKeys, keyOrder)] ==>
                rooms[r].keyId == None
      ensures forall r :: 0 <= r < |rooms| && rooms[r].keyId.Some? ==>
                rooms[r].keyId.value < Placed(numKeys, keyOrder) && r == keyOrder[rooms[r].keyId.value] &&
                0 < r < roomCount - 1
    {
      var count := Placed(numKeys, keyOrder);
      var i := 0;
      while i < count
        invariant 0 <= i <= count
        invariant forall k :: 0 <= k < i ==> rooms[keyOrder[k]].keyId == Some(k)
        invariant forall r :: 0 <= r < |rooms| && r !in keyOrder[..i] ==> rooms[r].keyId == None
        invariant forall r :: 0 <= r < |rooms| && rooms[r].keyId.Some? ==>
                    rooms[r].keyId.value < i && r == keyOrder[rooms[r].keyId.value]
      {
        var roomId := keyOrder[i];
        rooms[roomId].keyId := Some(i);
        assert keyOrder[..i + 1] == keyOrder[..i] + [roomId];
        i := i + 1;
      }
    }

    /** A trap goes to each of the first `numTraps` rooms of `trapOrder` that holds no key. */
    method PlaceTraps(trapOrder: seq<int>, numTraps: int)
      requires Coupled() && IsShuffle(trapOrder, roomCount)
      requires forall i :: 0 <= i < |rooms| ==> !rooms[i].hasTrap
      modifies (set r | r in rooms)`hasTrap
      ensures forall r :: 0 <= r < |rooms| ==>
                (rooms[r].hasTrap <==> r in trapOrder[..Placed(numTraps, trapOrder)] && rooms[r].keyId == None)
      ensures forall r :: 0 <= r < |rooms| && rooms[r].hasTrap ==> 0 < r < roomCount - 1
    {
      var count := Placed(numTraps, trapOrder);
      var i := 0;
      while i < count
        invariant 0 <= i <= count
        invariant forall r :: 0 <= r < |rooms| ==>
                    (rooms[r].hasTrap <==> r in trapOrder[..i] && rooms[r].keyId == None)
      {
        var roomId := trapOrder[i];
        if !rooms[roomId].HasKey() {
          rooms[roomId].hasTrap := true;
        }
        assert trapOrder[..i + 1] == trapOrder[..i] + [roomId];
        i := i + 1;
      }
    }

    /** Every room with a locked door gets a puzzle flag (one per room). */
    method PlacePuzzles()
      requires Coupled() && forall i :: 0 <= i < |rooms| ==> !rooms[i].hasPuzzle
      modifies (set r | r in rooms)`hasPuzzle
      ensures forall r :: 0 <= r < |rooms| ==> (rooms[r].hasPuzzle <==> HasLockedDoor(graph[r]))
    {
      var i := 0;
      while i < |rooms|
        invariant 0 <= i <= |rooms|
        invariant forall r :: 0 <= r < i ==> (rooms[r].hasPuzzle <==> HasLockedDoor(graph[r]))
        invariant forall r :: i <= r < |rooms| ==> !rooms[r].hasPuzzle
      {
        MarkPuzzle(i);
        i := i + 1;
      }
    }

    /** The inner loop of the puzzle placement: stop at the first locked entry. */
    method MarkPuzzle(i: int)
      requires Coupled() && 0 <= i < |rooms| && !rooms[i].hasPuzzle
      modifies (rooms[i] as Room)`hasPuzzle
      ensures rooms[i].hasPuzzle <==> HasLockedDoor(graph[i])
    {
      var room := rooms[i];
      var j := 0;
      while j < |room.neighbors|
        invariant 0 <= j <= |room.neighbors|
        invariant !room.hasPuzzle
        invariant forall k :: 0 <= k < j ==> !room.neighbors[k].locked
      {
        if room.neighbors[j].locked {
          room.hasPuzzle := true;
          return;
        }
        j := j + 1;
      }
    }

    /** The room with that id, if there is one. */
    function GetRoom(roomId: int): (r: Option<Room>)
      requires Valid()
      reads this, rooms
      ensures r.Some? <==> 0 <= roomId < roomCount
      ensures r.Some? ==> r.value.id == roomId && r.value in rooms
    {
      if 0 <= roomId < |rooms| then Some(rooms[roomId]) else None
    }

    /** The ids of the room's unlocked entries, in list order. */
    function GetUnlockedNeighbors(roomId: int): (ids: seq<int>)
      requires Valid() && 0 <= roomId < roomCount
      reads this, rooms
      ensures ids == Unlocked(graph[roomId])
    {
      Unlocked(rooms[roomId].neighbors)
    }

    /** Each unlocked neighbour is another room whose own list holds the door back, also unlocked. */
    lemma UnlockedNeighborsMutual(roomId: int)
      requires Valid() && Shaped() && 0 <= roomId < roomCount
      ensures forall x :: x in GetUnlockedNeighbors(roomId) ==>
                0 <= x < roomCount && x != roomId && roomId in Unlocked(graph[x])
    {
    }

    /** The room's entries with their lock flags; each names a room. */
    function GetAllNeighbors(roomId: int): (es: seq<Edge>)
      requires Valid() && 0 <= roomId < roomCount
      reads this, rooms
      ensures es == graph[roomId]
      ensures forall i :: 0 <= i < |es| ==> 0 <= es[i].to < roomCount
    {
      rooms[roomId].neighbors
    }

    /** Every entry names another room whose list holds the door back with the
        same flag, and no room is named twice. */
    lemma AllNeighborsMutual(roomId: int)
      requires Valid() && Shaped() && 0 <= roomId < roomCount
      ensures forall e :: e in GetAllNeighbors(roomId) ==> e.to != roomId && Edge(roomId, e.locked) in graph[e.to]
      ensures forall i, j :: 0 <= i < j < |GetAllNeighbors(roomId)| ==>
                GetAllNeighbors(roomId)[i].to != GetAllNeighbors(roomId)[j].to
    {
    }

    /** Room `a` lists `b`, locked or not. */
    predicate AreNeighbors(a: int, b: int)
      requires Coupled() && 0 <= a < roomCount
      reads this, rooms
    {
      HasEntry(rooms[a].neighbors, b)
    }

    /** Adjacency is mutual: `a` lists `b` exactly when `b` lists `a`. */
    lemma AreNeighborsSymmetric(a: int, b: int)
      requires Valid() && Shaped() && 0 <= a < roomCount && 0 <= b < roomCount
      ensures AreNeighbors(a, b) <==> AreNeighbors(b, a)
    {
      SymmetricHasEntry(graph, a, b);
    }

    /** Unlocks the door on both sides: `a`'s entries for `b`, then `b`'s entries for `a`. */
    method UnlockDoorBetween(a: int, b: int)
      requires Valid() && Shaped() && 0 <= a < roomCount && 0 <= b < roomCount
      modifies `graph, (rooms[a] as Room)`neighbors, (rooms[b] as Room)`neighbors
      ensures Valid() && Shaped() && graph == UnlockBetween(old(graph), a, b)
    {
      ghost var g := graph;
      rooms[a].UnlockDoor(b);
      graph := graph[a := Unlock(graph[a], b)];
      rooms[b].UnlockDoor(a);
      graph := graph[b := Unlock(graph[b], a)];
      UnlockBetweenWellFormed(g, a, b);
      UnlockBetweenSymmetric(g, a, b);
      UnlockBetweenBackbone(g, a, b);
      UnlockBetweenSimple(g, a, b);
      forall i | 0 <= i < |rooms|
        ensures ItemsOk(i)
      {
        assert old(ItemsOk(i));
      }
    }

    /** Takes the room's key if it has one not yet collected; reports whether it did. */
    method CollectKey(roomId: int) returns (collected: bool)
      requires 0 <= roomId < |rooms|
      modifies `keysCollected
      ensures collected <==> rooms[roomId].keyId.Some? && rooms[roomId].keyId.value !in old(keysCollected)
      ensures keysCollected == if collected then old(keysCollected) + {rooms[roomId].keyId.value}
                               else old(keysCollected)
      ensures rooms[roomId].keyId.Some? ==> rooms[roomId].keyId.value in keysCollected
    {
      var room := rooms[roomId];
      collected := false;
      if room.HasKey() && room.keyId.value !in keysCollected {
        keysCollected := keysCollected + {room.keyId.value};
        collected := true;
      }
    }

    /** Marks the room as visited (the agent's `room.visited = True` on entering it). */
    method MarkVisited(roomId: int)
      requires 0 <= roomId < |rooms|
      modifies (rooms[roomId] as Room)`visited
      ensures rooms[roomId].visited
    {
      rooms[roomId].visited := true;
    }

    /** Fires the room's trap if it has one that has not fired; reports whether it did. */
    method TriggerTrap(roomId: int) returns (fired: bool)
      requires 0 <= roomId < |rooms|
      modifies (rooms[roomId] as Room)`trapTriggered
      ensures fired <==> rooms[roomId].hasTrap && !old(rooms[roomId].trapTriggered)
      ensures rooms[roomId].trapTriggered == (old(rooms[roomId].trapTriggered) || fired)
      ensures rooms[roomId].hasTrap ==> rooms[roomId].trapTriggered
    {
      var room := rooms[roomId];
      fired := false;
      if room.hasTrap && !room.trapTriggered {
        room.trapTriggered := true;
        fired := true;
      }
    }
  }
}
