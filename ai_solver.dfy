/** The automatic player (ai_solver.py): which doors it considers safe, where
    the keys lie, which room it heads for next, and when the game ends. */
module Autopilot {
  import opened Wrappers
  import opened RoomGraph
  import opened Env
  import opened Bayes
  import opened Agents
  import opened Guards

  /** The ids among `ids` whose trap belief is below `tolerance`, in list order;
      a room without a belief counts as probability 0. */
  function SafeAmong(ids: seq<int>, beliefs: map<int, real>, tolerance: real): seq<int> {
    if ids == [] then []
    else
      var last := ids[|ids| - 1];
      SafeAmong(ids[..|ids| - 1], beliefs, tolerance) +
        (if GetOr(beliefs, last, 0.0) < tolerance then [last] else [])
  }

  /** A room is kept exactly when it is in the list and believed safe enough. */
  lemma {:induction false} SafeAmongMembers(ids: seq<int>, beliefs: map<int, real>, tolerance: real)
    ensures forall x :: x in SafeAmong(ids, beliefs, tolerance) <==>
              x in ids && GetOr(beliefs, x, 0.0) < tolerance
  {
    if ids != [] {
      var init := ids[..|ids| - 1];
      SafeAmongMembers(init, beliefs, tolerance);
      assert ids == init + [ids[|ids| - 1]];
    }
  }

  /** Filtering keeps every room when every room is below the tolerance. */
  lemma {:induction false} SafeAmongAll(ids: seq<int>, beliefs: map<int, real>, tolerance: real)
    requires forall i :: 0 <= i < |ids| ==> GetOr(beliefs, ids[i], 0.0) < tolerance
    ensures SafeAmong(ids, beliefs, tolerance) == ids
  {
    if ids != [] {
      var init := ids[..|ids| - 1];
      SafeAmongAll(init, beliefs, tolerance);
      assert ids == init + [ids[|ids| - 1]];
    }
  }

  /** The first room from position `i` on whose key is `k`. */
  function RoomWithKeyFrom(keyIds: seq<Option<int>>, k: int, i: nat): (r: Option<int>)
    decreases |keyIds| - i
    ensures r.Some? ==> i <= r.value < |keyIds| && keyIds[r.value] == Some(k) &&
                        forall j :: i <= j < r.value ==> keyIds[j] != Some(k)
    ensures r.None? ==> forall j :: i <= j < |keyIds| ==> keyIds[j] != Some(k)
  {
    if i >= |keyIds| then None
    else if keyIds[i] == Some(k) then Some(i)
    else RoomWithKeyFrom(keyIds, k, i + 1)
  }

  /** Key `k` lies in some room. */
  predicate OnMap(keyIds: seq<Option<int>>, k: int) {
    exists i :: 0 <= i < |keyIds| && keyIds[i] == Some(k)
  }

  lemma OnMapFound(keyIds: seq<Option<int>>, k: int)
    ensures OnMap(keyIds, k) <==> RoomWithKeyFrom(keyIds, k, 0).Some?
  {
    var r := RoomWithKeyFrom(keyIds, k, 0);
    if r.Some? {
      assert keyIds[r.value] == Some(k);
    }
  }

  /** The room of the first key in `k .. hi - 1` that is not held and lies on the map. */
  function KeyTarget(keyIds: seq<Option<int>>, held: set<int>, k: int, hi: int): Option<int>
    decreases hi - k
  {
    if k >= hi then None
    else if k !in held && RoomWithKeyFrom(keyIds, k, 0).Some? then RoomWithKeyFrom(keyIds, k, 0)
    else KeyTarget(keyIds, held, k + 1, hi)
  }

  /** The key step finds a room exactly when some key of the range is missing and
      placed, and then it is the room of the smallest such key. */
  lemma {:induction false} KeyTargetLeast(keyIds: seq<Option<int>>, held: set<int>, k: int, hi: int)
    decreases hi - k
    ensures KeyTarget(keyIds, held, k, hi).None? <==>
              forall key :: k <= key < hi && key !in held ==> !OnMap(keyIds, key)
    ensures KeyTarget(keyIds, held, k, hi).Some? ==>
              exists key :: k <= key < hi && key !in held && OnMap(keyIds, key) &&
                KeyTarget(keyIds, held, k, hi) == RoomWithKeyFrom(keyIds, key, 0) &&
                forall j :: k <= j < key && j !in held ==> !OnMap(keyIds, j)
  {
    OnMapFound(keyIds, k);
    if k < hi && !(k !in held && RoomWithKeyFrom(keyIds, k, 0).Some?) {
      KeyTargetLeast(keyIds, held, k + 1, hi);
      var r := KeyTarget(keyIds, held, k, hi);
      if r.Some? {
        var key :| k + 1 <= key < hi && key !in held && OnMap(keyIds, key) &&
                   r == RoomWithKeyFrom(keyIds, key, 0) &&
                   forall j :: k + 1 <= j < key && j !in held ==> !OnMap(keyIds, j);
        assert forall j :: k <= j < key && j !in held ==> !OnMap(keyIds, j);
      }
    }
  }

  /** What the target choice looks at: each room's key, the keys held, the key
      count, the exit, the room count, the rooms visited, the trap beliefs and the
      risk tolerance. */
  datatype Situation = Situation(keyIds: seq<Option<int>>, held: set<int>, totalKeys: int,
                                 exitRoom: int, roomCount: int, visited: set<int>,
                                 beliefs: map<int, real>, tolerance: real)

  /** Room `i` is worth exploring: not visited and believed safe enough. */
  predicate Unexplored(s: Situation, i: int) {
    i !in s.visited && GetOr(s.beliefs, i, 0.0) < s.tolerance
  }

  /** The first room from `i` on, below the room count, that is worth exploring. */
  function ExploreTarget(s: Situation, i: nat): (r: Option<int>)
    decreases s.roomCount - i
    ensures r.Some? ==> i <= r.value < s.roomCount && Unexplored(s, r.value) &&
                        forall j :: i <= j < r.value ==> !Unexplored(s, j)
    ensures r.None? ==> forall j :: i <= j < s.roomCount ==> !Unexplored(s, j)
  {
    if i >= s.roomCount then None
    else if Unexplored(s, i) then Some(i)
    else ExploreTarget(s, i + 1)
  }

  /** Keys first (ids `firstKey .. firstKey + totalKeys - 1`), then the exit once
      as many keys are held as there are, then the first room worth exploring. */
  function PriorityFrom(s: Situation, firstKey: int): Option<int> {
    var k := KeyTarget(s.keyIds, s.held, firstKey, firstKey + s.totalKeys);
    if k.Some? then k
    else if |s.held| >= s.totalKeys then Some(s.exitRoom)
    else ExploreTarget(s, 0)
  }

  /** The choice as the source writes it: key ids `1 .. totalKeys`. */
  function PriorityAsWritten(s: Situation): Option<int> {
    PriorityFrom(s, 1)
  }

  /** The choice over the key ids the map hands out, `0 .. totalKeys - 1`. */
  function Priority(s: Situation): Option<int> {
    PriorityFrom(s, 0)
  }

  /** Key 0 lies in room 1 and is not held; room 1 is believed risky. The source's
      range never asks for key 0, so it heads for the exit room 2 as an unexplored
      room, while the intended choice goes for the key. */
  lemma AsWrittenSkipsKeyZero()
    ensures var s := Situation([None, Some(0), None], {}, 1, 2, 3, {0},
                               map[0 := 0.2, 1 := 0.5, 2 := 0.2], 0.3);
            PriorityAsWritten(s) == Some(2) && Priority(s) == Some(1)
  {
    var s := Situation([None, Some(0), None], {}, 1, 2, 3, {0},
                       map[0 := 0.2, 1 := 0.5, 2 := 0.2], 0.3);
    assert RoomWithKeyFrom(s.keyIds, 1, 0).None?;
    assert KeyTarget(s.keyIds, s.held, 1, 2).None?;
    assert !Unexplored(s, 0) && !Unexplored(s, 1) && Unexplored(s, 2);
    assert ExploreTarget(s, 0) == Some(2);
    assert RoomWithKeyFrom(s.keyIds, 0, 0) == Some(1);
  }

  /** With key ids drawn from `0 .. totalKeys - 1`: while some key lies on the map
      and is not held, the choice is a room holding the smallest such key. */
  lemma PriorityChasesKeys(s: Situation)
    requires forall i :: 0 <= i < |s.keyIds| && s.keyIds[i].Some? ==>
               0 <= s.keyIds[i].value < s.totalKeys
    requires exists key :: key !in s.held && OnMap(s.keyIds, key)
    ensures Priority(s).Some? && 0 <= Priority(s).value < |s.keyIds|
    ensures var r := Priority(s).value;
            s.keyIds[r].Some? && s.keyIds[r].value !in s.held &&
            forall j :: 0 <= j < s.keyIds[r].value && j !in s.held ==> !OnMap(s.keyIds, j)
  {
    var key :| key !in s.held && OnMap(s.keyIds, key);
    var i :| 0 <= i < |s.keyIds| && s.keyIds[i] == Some(key);
    assert 0 <= key < s.totalKeys;
    KeyTargetLeast(s.keyIds, s.held, 0, s.totalKeys);
  }

  /** The key ids `0 .. n - 1`. */
  function KeyRange(n: int): (r: set<int>)
    ensures forall k :: k in r <==> 0 <= k < n
    ensures n >= 0 ==> |r| == n
  {
    if n <= 0 then {} else KeyRange(n - 1) + {n - 1}
  }

  /** With key ids drawn from `0 .. total - 1`, holding `total` of them means
      holding every one: the victory test's count is the whole set. */
  lemma AllKeysHeld(held: set<int>, total: nat)
    requires held <= KeyRange(total)
    requires |held| >= total
    ensures held == KeyRange(total)
  {
    var rest := KeyRange(total) - held;
    assert KeyRange(total) == held + rest;
    assert |rest| == 0;
  }

  class AISolver {
    const env: Environment
    const agent: Agent
    const guard: Guard
    const maxTurns: int
    /** Rooms believed at least this likely to hold a trap are avoided. */
    const riskTolerance: real
    const useAstar: bool
    var turn: int
    var gameOver: bool
    var victory: bool

    /** A fresh game over the given map, player and guard. */
    constructor (environment: Environment, player: Agent, hunter: Guard, turns: int)
      ensures env == environment && agent == player && guard == hunter && maxTurns == turns
      ensures riskTolerance == 0.3 && useAstar
      ensures turn == 0 && !gameOver && !victory
    {
      env := environment;
      agent := player;
      guard := hunter;
      maxTurns := turns;
      riskTolerance := 0.3;
      useAstar := true;
      turn := 0;
      gameOver := false;
      victory := false;
    }

    /** Each room's key, in room order. */
    function KeyIds(): (ks: seq<Option<int>>)
      reads this, env, env.rooms
      ensures |ks| == |env.rooms|
      ensures forall i :: 0 <= i < |env.rooms| ==> ks[i] == env.rooms[i].keyId
    {
      seq(|env.rooms|, i reads env, env.rooms requires 0 <= i < |env.rooms| => env.rooms[i].keyId)
    }

    /** The state the target choice reads. */
    function Current(): Situation
      reads this, env, env.rooms, agent, agent.belief
    {
      Situation(KeyIds(), agent.keysCollected, env.totalKeys, env.exitRoomId, env.roomCount,
                agent.roomsVisited, agent.belief.trapBeliefs, riskTolerance)
    }

    /** The unlocked neighbours of `roomId` believed safe enough, in door order. */
    method GetSafeNeighbors(roomId: int) returns (safe: seq<int>)
      requires env.Valid() && 0 <= roomId < env.roomCount
      ensures safe == SafeAmong(Unlocked(env.graph[roomId]), agent.belief.trapBeliefs, riskTolerance)
      ensures forall x :: x in safe <==>
                x in Unlocked(env.graph[roomId]) && agent.belief.GetTrapProbability(x) < riskTolerance
    {
      var neighbors := env.GetUnlockedNeighbors(roomId);
      ghost var beliefs := agent.belief.trapBeliefs;
      safe := [];
      var i := 0;
      while i < |neighbors|
        invariant 0 <= i <= |neighbors|
        invariant safe == SafeAmong(neighbors[..i], beliefs, riskTolerance)
      {
        assert neighbors[..i + 1][..i] == neighbors[..i];
        var trapProb := agent.belief.GetTrapProbability(neighbors[i]);
        if trapProb < riskTolerance {
          safe := safe + [neighbors[i]];
        }
        i := i + 1;
      }
      assert neighbors[..i] == neighbors;
      SafeAmongMembers(neighbors, beliefs, riskTolerance);
    }

    /** The first room, in room order, that holds key `keyId`; on a valid map it
        is the room the key was placed in. */
    method FindRoomWithKey(keyId: int) returns (roomId: Option<int>)
      ensures roomId == RoomWithKeyFrom(KeyIds(), keyId, 0)
      ensures env.Valid() && roomId.Some? ==> roomId.value == env.keyHome[keyId]
    {
      var i := 0;
      while i < |env.rooms|
        invariant 0 <= i <= |env.rooms|
        invariant RoomWithKeyFrom(KeyIds(), keyId, i) == RoomWithKeyFrom(KeyIds(), keyId, 0)
      {
        if env.rooms[i].HasKey() && env.rooms[i].keyId.value == keyId {
          return Some(i);
        }
        i := i + 1;
      }
      return None;
    }

    /** The key step over ids `lo .. hi - 1`. */
    method FindKeyTarget(lo: int, hi: int) returns (target: Option<int>)
      ensures target == KeyTarget(KeyIds(), agent.keysCollected, lo, hi)
    {
      var keyId := lo;
      while keyId < hi
        invariant KeyTarget(KeyIds(), agent.keysCollected, keyId, hi) ==
                  KeyTarget(KeyIds(), agent.keysCollected, lo, hi)
        decreases hi - keyId
      {
        if keyId !in agent.keysCollected {
          var keyRoom := FindRoomWithKey(keyId);
          if keyRoom.Some? {
            return keyRoom;
          }
        }
        keyId := keyId + 1;
      }
      return None;
    }

    /** The exploration step: the first unvisited room below the tolerance. */
    method FindExploreTarget() returns (target: Option<int>)
      ensures target == ExploreTarget(Current(), 0)
    {
      ghost var s := Current();
      var roomId := 0;
      while roomId < env.roomCount
        invariant 0 <= roomId
        invariant ExploreTarget(s, roomId) == ExploreTarget(s, 0)
        decreases env.roomCount - roomId
      {
        if roomId !in agent.roomsVisited {
          var trapProb := agent.belief.GetTrapProbability(roomId);
          if trapProb < riskTolerance {
            return Some(roomId);
          }
        }
        roomId := roomId + 1;
      }
      return None;
    }

    /** The next target as the source chooses it: keys `1 .. totalKeys`, then the
        exit, then exploration. */
    method FindPriorityTarget() returns (target: Option<int>)
      ensures target == PriorityAsWritten(Current())
    {
      target := FindKeyTarget(1, env.totalKeys + 1);
      if target.Some? {
        return;
      }
      if |agent.keysCollected| >= env.totalKeys {
        return Some(env.exitRoomId);
      }
      target := FindExploreTarget();
    }

    /** The next target over the key ids the map hands out, `0 .. totalKeys - 1`. */
    method FindPriorityTargetCorrected() returns (target: Option<int>)
      ensures target == Priority(Current())
    {
      target := FindKeyTarget(0, env.totalKeys);
      if target.Some? {
        return;
      }
      if |agent.keysCollected| >= env.totalKeys {
        return Some(env.exitRoomId);
      }
      target := FindExploreTarget();
    }

    /** Victory: as many keys held as there are, standing on the exit; it ends the
        game. Otherwise health at or below zero ends it. A finished game stays
        finished and a victory stays a victory. */
    method CheckVictory() returns (over: bool)
      modifies this`victory, this`gameOver
      ensures var won := |agent.keysCollected| >= env.totalKeys && agent.currentRoom == env.exitRoomId;
              over == (won || agent.health <= 0) &&
              victory == (old(victory) || won) &&
              gameOver == (old(gameOver) || over)
      ensures old(victory ==> gameOver) ==> (victory ==> gameOver)
    {
      if |agent.keysCollected| >= env.totalKeys && agent.currentRoom == env.exitRoomId {
        victory := true;
        gameOver := true;
        return true;
      }
      if agent.health <= 0 {
        gameOver := true;
        return true;
      }
      return false;
    }
  }
}
