/** The adversarial guard (guard.py): its breadth-first distance to a room, the
    utility of a position, depth-limited minimax over unlocked doors, the move it
    makes with it, and the separate alpha-beta variant. */
module Guards {
  import opened Wrappers
  import opened RoomGraph
  import opened Env

  // ---------------------------------------------------------------------
  // Utility of a position and the game value
  // ---------------------------------------------------------------------

  /** Stand-ins for Python's `float('-inf')` and `float('inf')`: every utility lies
      in [-50, 100], well inside these. */
  const NegInf: real := -1000.0
  const PosInf: real := 1000.0

  function Max(a: real, b: real): real { if a >= b then a else b }
  function Min(a: real, b: real): real { if a <= b then a else b }

  /** The unlocked neighbours of a room, and none for an id that is not a room. */
  function Moves(g: Adjacency, r: int): seq<int> {
    if IsRoom(g, r) then Unlocked(g[r]) else []
  }

  /** The guard's utility: 100 on the player's room, -50 when no unlocked walk
      joins the rooms (the 999 sentinel), otherwise `50 / (d + 1)` for distance `d`. */
  function Evaluate(g: Adjacency, guardRoom: int, playerRoom: int): (u: real)
    ensures u == 100.0 <==> guardRoom == playerRoom
    ensures -50.0 <= u <= 100.0
    ensures guardRoom != playerRoom && Distance(g, guardRoom, playerRoom) != 999 ==> 0.0 < u <= 25.0
  {
    if guardRoom == playerRoom then 100.0
    else
      var d := Distance(g, guardRoom, playerRoom);
      if d == 999 then -50.0
      else assert 2.0 <= (d + 1) as real; 50.0 / (d + 1) as real
  }

  /** Closer is better for the guard: a strictly shorter distance gives a strictly
      higher utility. */
  lemma EvaluateCloser(g: Adjacency, near: int, far: int, playerRoom: int)
    requires near != playerRoom && far != playerRoom
    requires Distance(g, near, playerRoom) < Distance(g, far, playerRoom)
    requires Distance(g, near, playerRoom) != 999
    ensures Evaluate(g, near, playerRoom) > Evaluate(g, far, playerRoom)
  {
    var d1 := Distance(g, near, playerRoom);
    var d2 := Distance(g, far, playerRoom);
    if d2 != 999 {
      ShareShrinks((d1 + 1) as real, (d2 + 1) as real);
    }
  }

  /** Fifty shared among more is less each. */
  lemma ShareShrinks(x1: real, x2: real)
    requires 0.0 < x1 < x2
    ensures 50.0 / x1 > 50.0 / x2
  {
    var a := 50.0 / x1;
    var b := 50.0 / x2;
    assert a * x1 == 50.0 && b * x2 == 50.0 && b > 0.0;
    calc {
      b * x1;
    < b * x2;
    == a * x1;
    }
  }

  /** The minimax value of a simulated position with `depth` plies left: the
      utility at depth 0, on capture, or when the side to move has no unlocked
      neighbour; otherwise the maximum over the guard's moves on the guard's ply
      and the minimum over the player's moves on the player's ply. */
  function GameValue(g: Adjacency, guardRoom: int, playerRoom: int, depth: nat, isMaximizing: bool): real
    decreases depth, 1, 0
  {
    if depth == 0 || guardRoom == playerRoom then Evaluate(g, guardRoom, playerRoom)
    else if isMaximizing then
      (if Moves(g, guardRoom) == [] then Evaluate(g, guardRoom, playerRoom)
       else MaxOver(g, Moves(g, guardRoom), playerRoom, depth, NegInf))
    else
      (if Moves(g, playerRoom) == [] then Evaluate(g, guardRoom, playerRoom)
       else MinOver(g, guardRoom, Moves(g, playerRoom), depth, PosInf))
  }

  /** The running maximum `max_value` over the guard's moves `ns`, from `acc`. */
  function MaxOver(g: Adjacency, ns: seq<int>, playerRoom: int, depth: nat, acc: real): real
    requires depth > 0
    decreases depth, 0, |ns|
  {
    if ns == [] then acc
    else MaxOver(g, ns[1..], playerRoom, depth, Max(acc, GameValue(g, ns[0], playerRoom, depth - 1, false)))
  }

  /** The running minimum `min_value` over the player's moves `ns`, from `acc`. */
  function MinOver(g: Adjacency, guardRoom: int, ns: seq<int>, depth: nat, acc: real): real
    requires depth > 0
    decreases depth, 0, |ns|
  {
    if ns == [] then acc
    else MinOver(g, guardRoom, ns[1..], depth, Min(acc, GameValue(g, guardRoom, ns[0], depth - 1, true)))
  }

  /** The fold over the guard's moves is the larger of its start and the largest move value. */
  lemma {:induction false} MaxOverBounds(g: Adjacency, ns: seq<int>, playerRoom: int, depth: nat, acc: real)
    requires depth > 0
    ensures acc <= MaxOver(g, ns, playerRoom, depth, acc)
    ensures forall j :: 0 <= j < |ns| ==>
              GameValue(g, ns[j], playerRoom, depth - 1, false) <= MaxOver(g, ns, playerRoom, depth, acc)
    ensures MaxOver(g, ns, playerRoom, depth, acc) == acc ||
            exists j :: 0 <= j < |ns| && MaxOver(g, ns, playerRoom, depth, acc) == GameValue(g, ns[j], playerRoom, depth - 1, false)
    decreases |ns|
  {
    if ns != [] {
      var v := GameValue(g, ns[0], playerRoom, depth - 1, false);
      MaxOverBounds(g, ns[1..], playerRoom, depth, Max(acc, v));
      var r := MaxOver(g, ns, playerRoom, depth, acc);
      forall j | 0 < j < |ns| ensures GameValue(g, ns[j], playerRoom, depth - 1, false) <= r {
        assert ns[j] == ns[1..][j - 1];
      }
      if r != acc && r != v {
        var k :| 0 <= k < |ns[1..]| && r == GameValue(g, ns[1..][k], playerRoom, depth - 1, false);
        assert ns[1..][k] == ns[k + 1];
      }
    }
  }

  /** The fold over the player's moves is the smaller of its start and the smallest move value. */
  lemma {:induction false} MinOverBounds(g: Adjacency, guardRoom: int, ns: seq<int>, depth: nat, acc: real)
    requires depth > 0
    ensures MinOver(g, guardRoom, ns, depth, acc) <= acc
    ensures forall j :: 0 <= j < |ns| ==>
              MinOver(g, guardRoom, ns, depth, acc) <= GameValue(g, guardRoom, ns[j], depth - 1, true)
    ensures MinOver(g, guardRoom, ns, depth, acc) == acc ||
            exists j :: 0 <= j < |ns| && MinOver(g, guardRoom, ns, depth, acc) == GameValue(g, guardRoom, ns[j], depth - 1, true)
    decreases |ns|
  {
    if ns != [] {
      var v := GameValue(g, guardRoom, ns[0], depth - 1, true);
      MinOverBounds(g, guardRoom, ns[1..], depth, Min(acc, v));
      var r := MinOver(g, guardRoom, ns, depth, acc);
      forall j | 0 < j < |ns| ensures r <= GameValue(g, guardRoom, ns[j], depth - 1, true) {
        assert ns[j] == ns[1..][j - 1];
      }
      if r != acc && r != v {
        var k :| 0 <= k < |ns[1..]| && r == GameValue(g, guardRoom, ns[1..][k], depth - 1, true);
        assert ns[1..][k] == ns[k + 1];
      }
    }
  }

  /** Every game value is a utility: it lies in [-50, 100], so the infinite
      starting values never survive a non-empty fold. */
  lemma {:induction false} GameValueRange(g: Adjacency, guardRoom: int, playerRoom: int, depth: nat, isMaximizing: bool)
    ensures -50.0 <= GameValue(g, guardRoom, playerRoom, depth, isMaximizing) <= 100.0
    decreases depth
  {
    if depth > 0 && guardRoom != playerRoom {
      if isMaximizing && Moves(g, guardRoom) != [] {
        var ns := Moves(g, guardRoom);
        forall j | 0 <= j < |ns|
          ensures -50.0 <= GameValue(g, ns[j], playerRoom, depth - 1, false) <= 100.0
        {
          GameValueRange(g, ns[j], playerRoom, depth - 1, false);
        }
        MaxOverBounds(g, ns, playerRoom, depth, NegInf);
      } else if !isMaximizing && Moves(g, playerRoom) != [] {
        var ns := Moves(g, playerRoom);
        forall j | 0 <= j < |ns|
          ensures -50.0 <= GameValue(g, guardRoom, ns[j], depth - 1, true) <= 100.0
        {
          GameValueRange(g, guardRoom, ns[j], depth - 1, true);
        }
        MinOverBounds(g, guardRoom, ns, depth, PosInf);
      }
    }
  }

  /** Move `ns[i]` is the first among `ns` whose value is the largest, as the strict
      `>` of the decision loop picks it. */
  ghost predicate FirstBest(g: Adjacency, ns: seq<int>, playerRoom: int, depth: nat, i: int) {
    0 <= i < |ns| &&
    (forall k :: 0 <= k < |ns| ==> GameValue(g, ns[k], playerRoom, depth, false) <= GameValue(g, ns[i], playerRoom, depth, false)) &&
    (forall k :: 0 <= k < i ==> GameValue(g, ns[k], playerRoom, depth, false) < GameValue(g, ns[i], playerRoom, depth, false))
  }

  /** Scanning one more move keeps the first best: the new move takes over when
      it is the first, or when its value is strictly larger. */
  lemma FirstBestStep(g: Adjacency, ns: seq<int>, playerRoom: int, depth: nat, j: int, prev: int, i: int)
    requires 0 <= j < |ns| && (j > 0 ==> FirstBest(g, ns[..j], playerRoom, depth, prev))
    requires i == if j == 0 || GameValue(g, ns[j], playerRoom, depth, false) > GameValue(g, ns[prev], playerRoom, depth, false)
                  then j else prev
    ensures FirstBest(g, ns[..j + 1], playerRoom, depth, i)
  {
    assert forall k :: 0 <= k < j ==> ns[..j][k] == ns[k];
    assert forall k :: 0 <= k <= j ==> ns[..j + 1][k] == ns[k];
  }

  /** The first best move of the guard carries the minimax value of its position. */
  lemma FirstBestIsGameValue(g: Adjacency, guardRoom: int, playerRoom: int, depth: nat, i: int)
    requires depth > 0 && guardRoom != playerRoom && FirstBest(g, Moves(g, guardRoom), playerRoom, depth - 1, i)
    ensures GameValue(g, Moves(g, guardRoom)[i], playerRoom, depth - 1, false) == GameValue(g, guardRoom, playerRoom, depth, true)
  {
    var ns := Moves(g, guardRoom);
    MaxOverBounds(g, ns, playerRoom, depth, NegInf);
    GameValueRange(g, ns[i], playerRoom, depth - 1, false);
  }

  /** The player's room is a room wherever the recursion reads its neighbours: on
      every player ply with depth left, which a guard ply of depth 1 never reaches. */
  predicate PlayerOk(g: Adjacency, playerRoom: int, depth: nat, isMaximizing: bool) {
    IsRoom(g, playerRoom) || depth == 0 || (isMaximizing && depth == 1)
  }

  // ---------------------------------------------------------------------
  // Alpha-beta pruning
  // ---------------------------------------------------------------------

  /** Minimax with alpha-beta pruning. With `stuckEvaluates` false it is the code
      as written, which has no case for a side with no unlocked neighbour and so
      returns the untouched infinite start there; with it true the stuck side is
      evaluated as in minimax. */
  function AlphaBeta(g: Adjacency, guardRoom: int, playerRoom: int, depth: nat, alpha: real, beta: real,
                     isMaximizing: bool, stuckEvaluates: bool): real
    decreases depth, 1, 0
  {
    if depth == 0 || guardRoom == playerRoom then Evaluate(g, guardRoom, playerRoom)
    else if isMaximizing then
      (if stuckEvaluates && Moves(g, guardRoom) == [] then Evaluate(g, guardRoom, playerRoom)
       else PruneMax(g, Moves(g, guardRoom), playerRoom, depth, alpha, beta, NegInf, stuckEvaluates))
    else
      (if stuckEvaluates && Moves(g, playerRoom) == [] then Evaluate(g, guardRoom, playerRoom)
       else PruneMin(g, guardRoom, Moves(g, playerRoom), depth, alpha, beta, PosInf, stuckEvaluates))
  }

  /** The guard's loop: raise `max_value` and `alpha` by each move's value, and
      stop once `beta <= alpha`. */
  function PruneMax(g: Adjacency, ns: seq<int>, playerRoom: int, depth: nat, alpha: real, beta: real,
                    best: real, stuckEvaluates: bool): real
    requires depth > 0
    decreases depth, 0, |ns|
  {
    if ns == [] then best
    else
      var v := AlphaBeta(g, ns[0], playerRoom, depth - 1, alpha, beta, false, stuckEvaluates);
      if beta <= Max(alpha, v) then Max(best, v)
      else PruneMax(g, ns[1..], playerRoom, depth, Max(alpha, v), beta, Max(best, v), stuckEvaluates)
  }

  /** The player's loop: lower `min_value` and `beta` by each move's value, and
      stop once `beta <= alpha`. */
  function PruneMin(g: Adjacency, guardRoom: int, ns: seq<int>, depth: nat, alpha: real, beta: real,
                    best: real, stuckEvaluates: bool): real
    requires depth > 0
    decreases depth, 0, |ns|
  {
    if ns == [] then best
    else
      var v := AlphaBeta(g, guardRoom, ns[0], depth - 1, alpha, beta, true, stuckEvaluates);
      if Min(beta, v) <= alpha then Min(best, v)
      else PruneMin(g, guardRoom, ns[1..], depth, alpha, Min(beta, v), Min(best, v), stuckEvaluates)
  }

  /** What a fail-soft search with window `(alpha, beta)` promises about its
      result `r` and the true value `v`: a result at or below the window bounds
      the value from above, one at or above it bounds it from below, and one
      inside it is exact. */
  predicate FailSoft(r: real, v: real, alpha: real, beta: real) {
    (r <= alpha ==> v <= r) && (r >= beta ==> r <= v) && (alpha < r < beta ==> r == v)
  }

  /** With the stuck case evaluated, alpha-beta is a fail-soft search for the game value. */
  lemma {:induction false} AlphaBetaSound(g: Adjacency, guardRoom: int, playerRoom: int, depth: nat,
                                          alpha: real, beta: real, isMaximizing: bool)
    requires NegInf <= alpha < beta <= PosInf
    ensures FailSoft(AlphaBeta(g, guardRoom, playerRoom, depth, alpha, beta, isMaximizing, true),
                     GameValue(g, guardRoom, playerRoom, depth, isMaximizing), alpha, beta)
    decreases depth, 1, 0
  {
    if depth > 0 && guardRoom != playerRoom {
      if isMaximizing && Moves(g, guardRoom) != [] {
        PruneMaxSound(g, Moves(g, guardRoom), playerRoom, depth, alpha, alpha, beta, NegInf, NegInf);
      } else if !isMaximizing && Moves(g, playerRoom) != [] {
        PruneMinSound(g, guardRoom, Moves(g, playerRoom), depth, alpha, beta, beta, PosInf, PosInf);
      }
    }
  }

  /** The guard's loop keeps `alpha` at the larger of its start `alpha0` and the
      results so far, every true value so far at most `best`, and equal to it once
      `best` has passed `alpha0`. */
  lemma {:induction false} PruneMaxSound(g: Adjacency, ns: seq<int>, playerRoom: int, depth: nat,
                                         alpha0: real, alpha: real, beta: real, best: real, acc: real)
    requires depth > 0 && NegInf <= alpha0 && alpha < beta <= PosInf
    requires alpha == Max(alpha0, best) && acc <= best && (best > alpha0 ==> acc == best)
    ensures FailSoft(PruneMax(g, ns, playerRoom, depth, alpha, beta, best, true),
                     MaxOver(g, ns, playerRoom, depth, acc), alpha0, beta)
    decreases depth, 0, |ns|
  {
    if ns != [] {
      var v := AlphaBeta(g, ns[0], playerRoom, depth - 1, alpha, beta, false, true);
      var w := GameValue(g, ns[0], playerRoom, depth - 1, false);
      AlphaBetaSound(g, ns[0], playerRoom, depth - 1, alpha, beta, false);
      if beta <= Max(alpha, v) {
        MaxOverBounds(g, ns[1..], playerRoom, depth, Max(acc, w));
      } else {
        PruneMaxSound(g, ns[1..], playerRoom, depth, alpha0, Max(alpha, v), beta, Max(best, v), Max(acc, w));
      }
    }
  }

  /** The player's loop, the mirror image: `beta` is the smaller of its start
      `beta0` and the results so far. */
  lemma {:induction false} PruneMinSound(g: Adjacency, guardRoom: int, ns: seq<int>, depth: nat,
                                         alpha: real, beta0: real, beta: real, best: real, acc: real)
    requires depth > 0 && NegInf <= alpha < beta && beta0 <= PosInf
    requires beta == Min(beta0, best) && best <= acc && (best < beta0 ==> acc == best)
    ensures FailSoft(PruneMin(g, guardRoom, ns, depth, alpha, beta, best, true),
                     MinOver(g, guardRoom, ns, depth, acc), alpha, beta0)
    decreases depth, 0, |ns|
  {
    if ns != [] {
      var v := AlphaBeta(g, guardRoom, ns[0], depth - 1, alpha, beta, true, true);
      var w := GameValue(g, guardRoom, ns[0], depth - 1, true);
      AlphaBetaSound(g, guardRoom, ns[0], depth - 1, alpha, beta, true);
      if Min(beta, v) <= alpha {
        MinOverBounds(g, guardRoom, ns[1..], depth, Min(acc, w));
      } else {
        PruneMinSound(g, guardRoom, ns[1..], depth, alpha, beta0, Min(beta, v), Min(best, v), Min(acc, w));
      }
    }
  }

  /** Called with the infinite window, the corrected alpha-beta returns the minimax value. */
  lemma AlphaBetaCorrectedIsMinimax(g: Adjacency, guardRoom: int, playerRoom: int, depth: nat, isMaximizing: bool)
    ensures AlphaBeta(g, guardRoom, playerRoom, depth, NegInf, PosInf, isMaximizing, true) ==
            GameValue(g, guardRoom, playerRoom, depth, isMaximizing)
  {
    AlphaBetaSound(g, guardRoom, playerRoom, depth, NegInf, PosInf, isMaximizing);
    GameValueRange(g, guardRoom, playerRoom, depth, isMaximizing);
  }

  /** Every side to move in the search tree has an unlocked neighbour. */
  ghost predicate HasMoves(g: Adjacency, guardRoom: int, playerRoom: int, depth: nat, isMaximizing: bool)
    decreases depth
  {
    depth == 0 || guardRoom == playerRoom ||
    (isMaximizing && Moves(g, guardRoom) != [] &&
      forall n :: n in Moves(g, guardRoom) ==> HasMoves(g, n, playerRoom, depth - 1, false)) ||
    (!isMaximizing && Moves(g, playerRoom) != [] &&
      forall n :: n in Moves(g, playerRoom) ==> HasMoves(g, guardRoom, n, depth - 1, true))
  }

  /** Where no side is ever stuck, the missing case is never reached and both
      versions agree on every window. */
  lemma {:induction false} StuckCaseUnused(g: Adjacency, guardRoom: int, playerRoom: int, depth: nat,
                                           alpha: real, beta: real, isMaximizing: bool)
    requires HasMoves(g, guardRoom, playerRoom, depth, isMaximizing)
    ensures AlphaBeta(g, guardRoom, playerRoom, depth, alpha, beta, isMaximizing, false) ==
            AlphaBeta(g, guardRoom, playerRoom, depth, alpha, beta, isMaximizing, true)
    decreases depth, 1, 0
  {
    if depth > 0 && guardRoom != playerRoom {
      if isMaximizing {
        assert forall k :: 0 <= k < |Moves(g, guardRoom)| ==> Moves(g, guardRoom)[k] in Moves(g, guardRoom);
        PruneMaxSame(g, Moves(g, guardRoom), playerRoom, depth, alpha, beta, NegInf);
      } else {
        assert forall k :: 0 <= k < |Moves(g, playerRoom)| ==> Moves(g, playerRoom)[k] in Moves(g, playerRoom);
        PruneMinSame(g, guardRoom, Moves(g, playerRoom), depth, alpha, beta, PosInf);
      }
    }
  }

  lemma {:induction false} PruneMaxSame(g: Adjacency, ns: seq<int>, playerRoom: int, depth: nat,
                                        alpha: real, beta: real, best: real)
    requires depth > 0 && forall k :: 0 <= k < |ns| ==> HasMoves(g, ns[k], playerRoom, depth - 1, false)
    ensures PruneMax(g, ns, playerRoom, depth, alpha, beta, best, false) ==
            PruneMax(g, ns, playerRoom, depth, alpha, beta, best, true)
    decreases depth, 0, |ns|
  {
    if ns != [] {
      StuckCaseUnused(g, ns[0], playerRoom, depth - 1, alpha, beta, false);
      var v := AlphaBeta(g, ns[0], playerRoom, depth - 1, alpha, beta, false, true);
      if beta > Max(alpha, v) {
        assert forall k :: 0 <= k < |ns[1..]| ==> ns[1..][k] == ns[k + 1];
        PruneMaxSame(g, ns[1..], playerRoom, depth, Max(alpha, v), beta, Max(best, v));
      }
    }
  }

  lemma {:induction false} PruneMinSame(g: Adjacency, guardRoom: int, ns: seq<int>, depth: nat,
                                        alpha: real, beta: real, best: real)
    requires depth > 0 && forall k :: 0 <= k < |ns| ==> HasMoves(g, guardRoom, ns[k], depth - 1, true)
    ensures PruneMin(g, guardRoom, ns, depth, alpha, beta, best, false) ==
            PruneMin(g, guardRoom, ns, depth, alpha, beta, best, true)
    decreases depth, 0, |ns|
  {
    if ns != [] {
      StuckCaseUnused(g, guardRoom, ns[0], depth - 1, alpha, beta, true);
      var v := AlphaBeta(g, guardRoom, ns[0], depth - 1, alpha, beta, true, true);
      if Min(beta, v) > alpha {
        assert forall k :: 0 <= k < |ns[1..]| ==> ns[1..][k] == ns[k + 1];
        PruneMinSame(g, guardRoom, ns[1..], depth, alpha, Min(beta, v), Min(best, v));
      }
    }
  }

  /** Called with the infinite window, alpha-beta as written returns the minimax
      value wherever every side to move has an unlocked neighbour. */
  lemma AlphaBetaAgreesWhenNeverStuck(g: Adjacency, guardRoom: int, playerRoom: int, depth: nat, isMaximizing: bool)
    requires HasMoves(g, guardRoom, playerRoom, depth, isMaximizing)
    ensures AlphaBeta(g, guardRoom, playerRoom, depth, NegInf, PosInf, isMaximizing, false) ==
            GameValue(g, guardRoom, playerRoom, depth, isMaximizing)
  {
    StuckCaseUnused(g, guardRoom, playerRoom, depth, NegInf, PosInf, isMaximizing);
    AlphaBetaCorrectedIsMinimax(g, guardRoom, playerRoom, depth, isMaximizing);
  }

  /** On a map with an unlocked backbone chain and two or more rooms, which is
      every map the environment builds, no side to move is ever stuck. */
  lemma {:induction false} BackboneNeverStuck(g: Adjacency, guardRoom: int, playerRoom: int, depth: nat,
                                              isMaximizing: bool)
    requires WellFormed(g) && Backbone(g) && |g| >= 2 && IsRoom(g, guardRoom) && IsRoom(g, playerRoom)
    ensures HasMoves(g, guardRoom, playerRoom, depth, isMaximizing)
    decreases depth, 1
  {
    if depth > 0 && guardRoom != playerRoom {
      if isMaximizing {
        GuardNeverStuck(g, guardRoom, playerRoom, depth);
      } else {
        PlayerNeverStuck(g, guardRoom, playerRoom, depth);
      }
    }
  }

  /** The guard's ply of `BackboneNeverStuck`. */
  lemma {:induction false} GuardNeverStuck(g: Adjacency, guardRoom: int, playerRoom: int, depth: nat)
    requires WellFormed(g) && Backbone(g) && |g| >= 2 && IsRoom(g, guardRoom) && IsRoom(g, playerRoom) && depth > 0
    ensures Moves(g, guardRoom) != []
    ensures forall n :: n in Moves(g, guardRoom) ==> HasMoves(g, n, playerRoom, depth - 1, false)
    decreases depth, 0
  {
    BackboneHasExits(g, guardRoom);
    forall n | n in Moves(g, guardRoom)
      ensures HasMoves(g, n, playerRoom, depth - 1, false)
    {
      NeighborIsRoom(g, guardRoom, n);
      BackboneNeverStuck(g, n, playerRoom, depth - 1, false);
    }
  }

  /** The player's ply of `BackboneNeverStuck`. */
  lemma {:induction false} PlayerNeverStuck(g: Adjacency, guardRoom: int, playerRoom: int, depth: nat)
    requires WellFormed(g) && Backbone(g) && |g| >= 2 && IsRoom(g, guardRoom) && IsRoom(g, playerRoom) && depth > 0
    ensures Moves(g, playerRoom) != []
    ensures forall n :: n in Moves(g, playerRoom) ==> HasMoves(g, guardRoom, n, depth - 1, true)
    decreases depth, 0
  {
    BackboneHasExits(g, playerRoom);
    forall n | n in Moves(g, playerRoom)
      ensures HasMoves(g, guardRoom, n, depth - 1, true)
    {
      NeighborIsRoom(g, playerRoom, n);
      BackboneNeverStuck(g, guardRoom, n, depth - 1, true);
    }
  }

  /** So on every map the environment builds, alpha-beta as written equals minimax. */
  lemma AlphaBetaAgreesOnBackbone(g: Adjacency, guardRoom: int, playerRoom: int, depth: nat, isMaximizing: bool)
    requires WellFormed(g) && Backbone(g) && |g| >= 2 && IsRoom(g, guardRoom) && IsRoom(g, playerRoom)
    ensures AlphaBeta(g, guardRoom, playerRoom, depth, NegInf, PosInf, isMaximizing, false) ==
            GameValue(g, guardRoom, playerRoom, depth, isMaximizing)
  {
    BackboneNeverStuck(g, guardRoom, playerRoom, depth, isMaximizing);
    AlphaBetaAgreesWhenNeverStuck(g, guardRoom, playerRoom, depth, isMaximizing);
  }

  /** Two rooms and no doors, the guard to move with one ply left: minimax
      evaluates the stuck guard at -50, alpha-beta as written returns its
      untouched start, minus infinity. */
  lemma AlphaBetaStuckGuard()
    ensures var g: Adjacency := [[], []];
      AlphaBeta(g, 0, 1, 1, NegInf, PosInf, true, false) == NegInf &&
      GameValue(g, 0, 1, 1, true) == -50.0
  {
    var g: Adjacency := [[], []];
    assert Moves(g, 0) == [];
    assert Within(g, 0, 0) == {0};
    assert NextFrom(g, {0}, 2) == {};
    assert NextFrom(g, {0}, 1) == {};
    assert NextFrom(g, {0}, 0) == {};
    assert Within(g, 0, 1) == {0};
    assert DistanceFrom(g, 0, 1, 2) == 999;
    assert Distance(g, 0, 1) == 999;
  }

  // ---------------------------------------------------------------------
  // Breadth-first distance bookkeeping
  // ---------------------------------------------------------------------

  /** Every queue entry `(room, d)` lies at breadth-first level `d`. */
  ghost predicate LevelEntries(g: Adjacency, s: int, q: seq<(int, int)>)
    decreases |q|
  {
    |q| == 0 ||
    (LevelEntries(g, s, q[..|q| - 1]) && q[|q| - 1].1 >= 0 && AtLevel(g, s, q[|q| - 1].0, q[|q| - 1].1))
  }

  lemma {:induction false} LevelEntriesAt(g: Adjacency, s: int, q: seq<(int, int)>, i: int)
    requires LevelEntries(g, s, q) && 0 <= i < |q|
    ensures q[i].1 >= 0 && AtLevel(g, s, q[i].0, q[i].1)
    decreases |q|
  {
    if i < |q| - 1 {
      LevelEntriesAt(g, s, q[..|q| - 1], i);
    }
  }

  /** When every entry from `h` on lies at level `L + 1`, the rooms up to level `L`
      that the queue holds all come before `h`. */
  lemma LevelEntriesComplete(g: Adjacency, s: int, q: seq<(int, int)>, h: int, L: nat)
    requires LevelEntries(g, s, q) && 0 <= h <= |q|
    requires forall i :: h <= i < |q| ==> q[i].1 == L + 1
    requires Within(g, s, L) <= QueueRooms(q)
    ensures Within(g, s, L) <= QueueRooms(q[..h])
  {
    forall r | r in Within(g, s, L) ensures r in QueueRooms(q[..h]) {
      var i := QueueIndex(q, r);
      if i >= h {
        LevelEntriesAt(g, s, q, i);
        assert false;
      }
      assert q[..h][i].0 == r;
      QueueRoomsHas(q[..h], i);
    }
  }

  /** The inner loop of the distance search: scan the neighbours of a room at
      distance `dist`, stopping at the target, and enqueue each room not seen
      before at distance `dist + 1`. */
  method EnqueueLevel(target: int, dist: int, neighbors: seq<int>, queue: seq<(int, int)>, visited: set<int>)
    returns (queue': seq<(int, int)>, visited': set<int>, found: bool)
    requires visited == QueueRooms(queue) && |queue| == |visited| && target !in visited
    ensures found ==> target in neighbors
    ensures !found ==> |queue| <= |queue'| && queue'[..|queue|] == queue
    ensures !found ==> forall i :: |queue| <= i < |queue'| ==>
              queue'[i].0 in neighbors && queue'[i].0 !in visited && queue'[i].1 == dist + 1
    ensures !found ==> visited <= visited' == QueueRooms(queue') && |queue'| == |visited'|
    ensures !found ==> forall w :: w in neighbors ==> w in visited'
    ensures !found ==> forall w :: w in visited' ==> w in visited || w in neighbors
    ensures !found ==> target !in visited'
  {
    queue', visited' := queue, visited;
    var j := 0;
    while j < |neighbors|
      invariant 0 <= j <= |neighbors| && |queue| <= |queue'| && queue'[..|queue|] == queue
      invariant forall i :: |queue| <= i < |queue'| ==>
                  queue'[i].0 in neighbors && queue'[i].0 !in visited && queue'[i].1 == dist + 1
      invariant visited <= visited' == QueueRooms(queue') && |queue'| == |visited'|
      invariant forall t :: 0 <= t < j ==> neighbors[t] in visited'
      invariant forall w :: w in visited' ==> w in visited || w in neighbors
      invariant target !in visited'
    {
      var neighbor := neighbors[j];
      if neighbor == target {
        return queue', visited', true;
      }
      if neighbor !in visited' {
        QueueRoomsAppend(queue', (neighbor, dist + 1));
        assert (queue' + [(neighbor, dist + 1)])[..|queue|] == queue'[..|queue|];
        visited' := visited' + {neighbor};
        queue' := queue' + [(neighbor, dist + 1)];
      }
      j := j + 1;
    }
    found := false;
  }

  /** The entries the inner loop appends, one step beyond a room at level `level`
      and outside a set that holds every room up to that level, lie at level `level + 1`. */
  lemma {:induction false} EnqueueAtLevel(g: Adjacency, s: int, level: nat, current: int,
                                          seen: set<int>, q: seq<(int, int)>, q': seq<(int, int)>)
    requires IsRoom(g, current) && AtLevel(g, s, current, level)
    requires Within(g, s, level) <= seen && LevelEntries(g, s, q)
    requires |q| <= |q'| && q'[..|q|] == q
    requires forall i :: |q| <= i < |q'| ==>
               q'[i].0 in Unlocked(g[current]) && q'[i].0 !in seen && q'[i].1 == level + 1
    ensures LevelEntries(g, s, q')
    decreases |q'|
  {
    if |q'| == |q| {
      assert q' == q'[..|q|];
    } else {
      assert q'[..|q'| - 1][..|q|] == q;
      EnqueueAtLevel(g, s, level, current, seen, q, q'[..|q'| - 1]);
      StepLevel(g, s, level, current, q'[|q'| - 1].0);
    }
  }

  /** The distance search invariant: `queue[head..]` holds rooms at distance
      `level` up to `mid` and `level + 1` after it, every room below `level` is
      expanded (`done`), expanded rooms have all their unlocked neighbours seen,
      and the target has not been seen. */
  ghost predicate Scanning(g: Adjacency, s: int, t: int, queue: seq<(int, int)>, head: int,
                           visited: set<int>, done: set<int>, level: nat, mid: int)
  {
    0 <= head <= mid <= |queue| == |visited| && s in visited &&
    LevelEntries(g, s, queue) &&
    (forall i :: head <= i < mid ==> queue[i].1 == level) &&
    (forall i :: mid <= i < |queue| ==> queue[i].1 == level + 1) &&
    (level > 0 ==> Within(g, s, level - 1) <= done) &&
    visited == QueueRooms(queue) && done == QueueRooms(queue[..head]) &&
    done <= visited && (forall w :: w in visited ==> IsRoom(g, w)) &&
    Expanded(g, done, visited) && t !in visited
  }

  lemma ScanStart(g: Adjacency, s: int, t: int)
    requires IsRoom(g, s) && s != t
    ensures Scanning(g, s, t, [(s, 0)], 0, {s}, {}, 0, 1)
  {
    var q := [(s, 0)];
    assert q[..0] == [];
    assert QueueRooms(q) == {s};
    assert LevelEntries(g, s, q[..0]);
  }

  /** The rooms the inner loop appends lie one level out, after the rest. */
  lemma ScanLevels(g: Adjacency, s: int, t: int, queue: seq<(int, int)>, head: int,
                   visited: set<int>, done: set<int>, level: nat, mid: int, current: int, queue': seq<(int, int)>)
    requires Scanning(g, s, t, queue, head, visited, done, level, mid) && head < mid
    requires queue[head].0 == current && IsRoom(g, current)
    requires |queue| <= |queue'| && queue'[..|queue|] == queue
    requires forall i :: |queue| <= i < |queue'| ==>
               queue'[i].0 in Unlocked(g[current]) && queue'[i].0 !in visited && queue'[i].1 == queue[head].1 + 1
    ensures LevelEntries(g, s, queue')
    ensures forall i :: head + 1 <= i < mid ==> queue'[i].1 == level
    ensures forall i :: mid <= i < |queue'| ==> queue'[i].1 == level + 1
  {
    LevelEntriesAt(g, s, queue, head);
    LevelSeen(g, s, level, done, visited);
    EnqueueAtLevel(g, s, level, current, visited, queue, queue');
    assert forall i :: 0 <= i < |queue| ==> queue'[i] == queue[i] by { assert queue'[..|queue|] == queue; }
  }

  /** Expanding the entry at `head` marks its room done, with every unlocked neighbour seen. */
  lemma ScanSets(g: Adjacency, s: int, t: int, queue: seq<(int, int)>, head: int,
                 visited: set<int>, done: set<int>, level: nat, mid: int,
                 current: int, queue': seq<(int, int)>, visited': set<int>)
    requires WellFormed(g) && Scanning(g, s, t, queue, head, visited, done, level, mid) && head < mid
    requires queue[head].0 == current && IsRoom(g, current)
    requires |queue| <= |queue'| && queue'[..|queue|] == queue
    requires visited <= visited'
    requires forall w :: w in Unlocked(g[current]) ==> w in visited'
    requires forall w :: w in visited' ==> w in visited || w in Unlocked(g[current])
    ensures done + {current} == QueueRooms(queue'[..head + 1]) && done + {current} <= visited'
    ensures Expanded(g, done + {current}, visited')
    ensures forall w :: w in visited' ==> IsRoom(g, w)
    ensures Within(g, s, level) <= visited'
  {
    LevelSeen(g, s, level, done, visited);
    forall w | w in visited' ensures IsRoom(g, w) {
      if w !in visited {
        NeighborIsRoom(g, current, w);
      }
    }
    assert queue'[..head + 1] == queue[..head] + [queue[head]] by { assert queue'[..|queue|] == queue; }
    QueueRoomsAppend(queue[..head], queue[head]);
    QueueRoomsHas(queue, head);
  }

  /** Expanding the entry at `head` with the inner loop keeps the invariant. */
  lemma ScanExpand(g: Adjacency, s: int, t: int, queue: seq<(int, int)>, head: int,
                   visited: set<int>, done: set<int>, level: nat, mid: int,
                   current: int, queue': seq<(int, int)>, visited': set<int>)
    requires WellFormed(g) && Scanning(g, s, t, queue, head, visited, done, level, mid) && head < mid
    requires queue[head].0 == current && IsRoom(g, current)
    requires |queue| <= |queue'| && queue'[..|queue|] == queue
    requires forall i :: |queue| <= i < |queue'| ==>
               queue'[i].0 in Unlocked(g[current]) && queue'[i].0 !in visited && queue'[i].1 == queue[head].1 + 1
    requires visited <= visited' == QueueRooms(queue') && |queue'| == |visited'|
    requires forall w :: w in Unlocked(g[current]) ==> w in visited'
    requires forall w :: w in visited' ==> w in visited || w in Unlocked(g[current])
    requires t !in visited'
    ensures Scanning(g, s, t, queue', head + 1, visited', done + {current}, level, mid)
    ensures Within(g, s, level) <= visited'
  {
    ScanLevels(g, s, t, queue, head, visited, done, level, mid, current, queue');
    ScanSets(g, s, t, queue, head, visited, done, level, mid, current, queue', visited');
  }

  /** One expanded entry: the scan invariant holds for the next head, moving one
      level out when the current level is used up. */
  lemma ScanAdvance(g: Adjacency, s: int, t: int, queue: seq<(int, int)>, head: int,
                    visited: set<int>, done: set<int>, level: nat, mid: int,
                    current: int, queue': seq<(int, int)>, visited': set<int>) returns (level': nat, mid': int)
    requires WellFormed(g) && Scanning(g, s, t, queue, head, visited, done, level, mid) && head < mid
    requires queue[head].0 == current && IsRoom(g, current)
    requires |queue| <= |queue'| && queue'[..|queue|] == queue
    requires forall i :: |queue| <= i < |queue'| ==>
               queue'[i].0 in Unlocked(g[current]) && queue'[i].0 !in visited && queue'[i].1 == queue[head].1 + 1
    requires visited <= visited' == QueueRooms(queue') && |queue'| == |visited'|
    requires forall w :: w in Unlocked(g[current]) ==> w in visited'
    requires forall w :: w in visited' ==> w in visited || w in Unlocked(g[current])
    requires t !in visited'
    ensures Scanning(g, s, t, queue', head + 1, visited', done + {current}, level', mid')
    ensures head + 1 == mid' ==> head + 1 == |queue'|
  {
    ScanExpand(g, s, t, queue, head, visited, done, level, mid, current, queue', visited');
    if head + 1 == mid {
      ScanNextLevel(g, s, t, queue', head + 1, visited', done + {current}, level);
      level', mid' := level + 1, |queue'|;
    } else {
      level', mid' := level, mid;
    }
  }

  /** Once every entry of the current level is expanded, the scan moves one level out. */
  lemma ScanNextLevel(g: Adjacency, s: int, t: int, queue: seq<(int, int)>, head: int,
                      visited: set<int>, done: set<int>, level: nat)
    requires Scanning(g, s, t, queue, head, visited, done, level, head) && 0 < head
    requires Within(g, s, level) <= visited
    ensures Scanning(g, s, t, queue, head, visited, done, level + 1, |queue|)
  {
    LevelEntriesComplete(g, s, queue, head, level);
  }

  /** The target one unlocked door from the entry at `head` is at distance one more. */
  lemma ScanFound(g: Adjacency, s: int, t: int, queue: seq<(int, int)>, head: int,
                  visited: set<int>, done: set<int>, level: nat, mid: int, current: int)
    requires WellFormed(g) && IsRoom(g, s) && Scanning(g, s, t, queue, head, visited, done, level, mid) && head < mid
    requires queue[head].0 == current && IsRoom(g, current) && t in Unlocked(g[current])
    ensures queue[head].1 + 1 == Distance(g, s, t)
  {
    LevelEntriesAt(g, s, queue, head);
    assert queue[head].1 == level;
    assert AtLevel(g, s, current, level);
    LevelSeen(g, s, level, done, visited);
    assert t !in Within(g, s, level);
    StepLevel(g, s, level, current, t);
    assert AtLevel(g, s, t, level + 1);
    DistanceIsLevel(g, s, t, level + 1);
  }

  /** An exhausted queue leaves the target out of reach. */
  lemma ScanExhausted(g: Adjacency, s: int, t: int, queue: seq<(int, int)>,
                      visited: set<int>, done: set<int>, level: nat, mid: int)
    requires WellFormed(g) && IsRoom(g, s) && Scanning(g, s, t, queue, |queue|, visited, done, level, mid)
    ensures Distance(g, s, t) == 999
  {
    assert queue[..|queue|] == queue;
    NoWalkOut(g, s, t, visited);
  }

  // ---------------------------------------------------------------------
  // The guard
  // ---------------------------------------------------------------------

  class Guard {
    const env: Environment
    /** The configuration: whether the guard moves, its look-ahead, and how far it sees. */
    const guardEnabled: bool
    const minimaxDepth: int
    const visionRange: int
    var currentRoom: int
    var movesMade: int
    var playerCaught: bool

    /** The guard stands in a room. */
    ghost predicate Valid()
      reads this
    {
      0 <= currentRoom < env.roomCount
    }

    /** The guard starts in room `pick`, drawn from `2 .. roomCount - 3`, or in
        room 1 when that range is empty. */
    constructor (environment: Environment, enabled: bool, depth: int, vision: int, pick: int)
      requires environment.roomCount > 4 ==> 2 <= pick < environment.roomCount - 2
      ensures env == environment && guardEnabled == enabled && minimaxDepth == depth && visionRange == vision
      ensures currentRoom == (if environment.roomCount > 4 then pick else 1)
      ensures movesMade == 0 && !playerCaught
      ensures environment.roomCount >= 2 ==> Valid()
    {
      env := environment;
      guardEnabled := enabled;
      minimaxDepth := depth;
      visionRange := vision;
      currentRoom := if environment.roomCount > 4 then pick else 1;
      movesMade := 0;
      playerCaught := false;
    }

    /** The guard sees the player within its vision range of unlocked steps. */
    method CanSeePlayer(playerRoom: int) returns (seen: bool)
      requires env.Valid() && Valid()
      ensures seen <==> Distance(env.graph, currentRoom, playerRoom) <= visionRange
    {
      var distance := DistanceToRoom(currentRoom, playerRoom);
      seen := distance <= visionRange;
    }

    /** Breadth-first distance over unlocked doors, 0 to the room itself and 999
        when the target cannot be reached. */
    method DistanceToRoom(fromRoom: int, toRoom: int) returns (d: int)
      requires env.Valid() && (fromRoom == toRoom || 0 <= fromRoom < env.roomCount)
      ensures d == Distance(env.graph, fromRoom, toRoom)
    {
      if fromRoom == toRoom {
        return 0;
      }
      ghost var g := env.graph;
      var queue: seq<(int, int)> := [(fromRoom, 0)];
      var head := 0;
      var visited := {fromRoom};
      ghost var done: set<int> := {};
      ghost var level: nat := 0;
      ghost var mid := 1;
      ScanStart(g, fromRoom, toRoom);
      while head < |queue|
        invariant Scanning(g, fromRoom, toRoom, queue, head, visited, done, level, mid)
        invariant head == mid ==> head == |queue|
        decreases |g| - head
      {
        RoomsBound(g, visited);
        var (current, dist) := queue[head];
        QueueRoomsHas(queue, head);
        var neighbors := env.GetUnlockedNeighbors(current);
        var queue', visited', found := EnqueueLevel(toRoom, dist, neighbors, queue, visited);
        if found {
          ScanFound(g, fromRoom, toRoom, queue, head, visited, done, level, mid, current);
          return dist + 1;
        }
        level, mid := ScanAdvance(g, fromRoom, toRoom, queue, head, visited, done, level, mid, current, queue', visited');
        queue, visited := queue', visited';
        done := done + {current};
        head := head + 1;
      }
      ScanExhausted(g, fromRoom, toRoom, queue, visited, done, level, mid);
      return 999;
    }

    /** The utility of a position, with the distance found by breadth-first search. */
    method EvaluatePosition(guardRoom: int, playerRoom: int) returns (u: real)
      requires env.Valid() && (guardRoom == playerRoom || 0 <= guardRoom < env.roomCount)
      ensures u == Evaluate(env.graph, guardRoom, playerRoom)
    {
      if guardRoom == playerRoom {
        return 100.0;
      }
      var distance := DistanceToRoom(guardRoom, playerRoom);
      if distance == 999 {
        return -50.0;
      }
      u := 50.0 / (distance + 1) as real;
    }

    /** Depth-limited minimax from a simulated position. */
    method Minimax(guardRoom: int, playerRoom: int, depth: nat, isMaximizing: bool) returns (value: real)
      requires env.Valid() && 0 <= guardRoom < env.roomCount && PlayerOk(env.graph, playerRoom, depth, isMaximizing)
      ensures value == GameValue(env.graph, guardRoom, playerRoom, depth, isMaximizing)
      decreases depth, 1
    {
      if depth == 0 || guardRoom == playerRoom {
        value := EvaluatePosition(guardRoom, playerRoom);
      } else if isMaximizing {
        var neighbors := env.GetUnlockedNeighbors(guardRoom);
        if neighbors == [] {
          value := EvaluatePosition(guardRoom, playerRoom);
        } else {
          value := GuardPly(guardRoom, neighbors, playerRoom, depth);
        }
      } else {
        var neighbors := env.GetUnlockedNeighbors(playerRoom);
        if neighbors == [] {
          value := EvaluatePosition(guardRoom, playerRoom);
        } else {
          value := PlayerPly(guardRoom, playerRoom, neighbors, depth);
        }
      }
    }

    /** The guard's ply: the largest value over its unlocked neighbours, from minus infinity. */
    method GuardPly(guardRoom: int, neighbors: seq<int>, playerRoom: int, depth: nat) returns (value: real)
      requires env.Valid() && 0 <= guardRoom < env.roomCount && neighbors == Unlocked(env.graph[guardRoom])
      requires depth > 0 && PlayerOk(env.graph, playerRoom, depth, true)
      ensures value == MaxOver(env.graph, neighbors, playerRoom, depth, NegInf)
      decreases depth, 0
    {
      ghost var g := env.graph;
      value := NegInf;
      var j := 0;
      while j < |neighbors|
        invariant 0 <= j <= |neighbors|
        invariant MaxOver(g, neighbors, playerRoom, depth, NegInf) == MaxOver(g, neighbors[j..], playerRoom, depth, value)
      {
        NeighborIsRoom(g, guardRoom, neighbors[j]);
        var v := Minimax(neighbors[j], playerRoom, depth - 1, false);
        assert neighbors[j..][1..] == neighbors[j + 1..];
        value := Max(value, v);
        j := j + 1;
      }
    }

    /** The player's ply: the smallest value over the player's unlocked neighbours, from plus infinity. */
    method PlayerPly(guardRoom: int, playerRoom: int, neighbors: seq<int>, depth: nat) returns (value: real)
      requires env.Valid() && 0 <= guardRoom < env.roomCount && 0 <= playerRoom < env.roomCount
      requires neighbors == Unlocked(env.graph[playerRoom]) && depth > 0
      ensures value == MinOver(env.graph, guardRoom, neighbors, depth, PosInf)
      decreases depth, 0
    {
      ghost var g := env.graph;
      value := PosInf;
      var j := 0;
      while j < |neighbors|
        invariant 0 <= j <= |neighbors|
        invariant MinOver(g, guardRoom, neighbors, depth, PosInf) == MinOver(g, guardRoom, neighbors[j..], depth, value)
      {
        NeighborIsRoom(g, playerRoom, neighbors[j]);
        var v := Minimax(guardRoom, neighbors[j], depth - 1, true);
        assert neighbors[j..][1..] == neighbors[j + 1..];
        value := Min(value, v);
        j := j + 1;
      }
    }

    /** The guard's choice: no move when it has no unlocked neighbour, otherwise the
        first neighbour whose minimax value is the largest (which, by
        `FirstBestIsGameValue`, carries the minimax value of the guard's own position). */
    method MinimaxDecision(playerRoom: int) returns (best: Option<int>)
      requires env.Valid() && Valid() && minimaxDepth >= 1
      requires PlayerOk(env.graph, playerRoom, minimaxDepth - 1, false)
      ensures best.None? <==> Moves(env.graph, currentRoom) == []
      ensures best.Some? ==> exists i :: FirstBest(env.graph, Moves(env.graph, currentRoom), playerRoom, minimaxDepth - 1, i) &&
                                         Moves(env.graph, currentRoom)[i] == best.value
    {
      ghost var g := env.graph;
      var neighbors := env.GetUnlockedNeighbors(currentRoom);
      if neighbors == [] {
        return None;
      }
      best := None;
      var bestValue := NegInf;
      ghost var bi := 0;
      var j := 0;
      while j < |neighbors|
        invariant 0 <= j <= |neighbors| && (best.None? <==> j == 0)
        invariant j == 0 ==> bestValue == NegInf
        invariant j > 0 ==> FirstBest(g, neighbors[..j], playerRoom, minimaxDepth - 1, bi) &&
                            best.value == neighbors[bi] &&
                            bestValue == GameValue(g, neighbors[bi], playerRoom, minimaxDepth - 1, false)
      {
        NeighborIsRoom(g, currentRoom, neighbors[j]);
        var value := Minimax(neighbors[j], playerRoom, minimaxDepth - 1, false);
        GameValueRange(g, neighbors[j], playerRoom, minimaxDepth - 1, false);
        ghost var prev := bi;
        if value > bestValue {
          bestValue := value;
          best := Some(neighbors[j]);
          bi := j;
        }
        FirstBestStep(g, neighbors, playerRoom, minimaxDepth - 1, j, prev, bi);
        j := j + 1;
      }
      assert neighbors[..|neighbors|] == neighbors;
      assert FirstBest(g, neighbors, playerRoom, minimaxDepth - 1, bi);
    }

    /** One guard turn: nothing changes when the guard is disabled or has no move;
        otherwise it steps to the minimax choice, counts the move, and marks the
        player caught when it lands on the player's room. */
    method MakeMove(playerRoom: int) returns (newRoom: int)
      requires guardEnabled ==> env.Valid() && Valid() && minimaxDepth >= 1 &&
                                PlayerOk(env.graph, playerRoom, minimaxDepth - 1, false)
      modifies this
      ensures newRoom == currentRoom
      ensures !guardEnabled || Moves(env.graph, old(currentRoom)) == [] ==>
                currentRoom == old(currentRoom) && movesMade == old(movesMade) && playerCaught == old(playerCaught)
      ensures guardEnabled && Moves(env.graph, old(currentRoom)) != [] ==>
                (exists i :: FirstBest(env.graph, Moves(env.graph, old(currentRoom)), playerRoom, minimaxDepth - 1, i) &&
                             Moves(env.graph, old(currentRoom))[i] == currentRoom) &&
                movesMade == old(movesMade) + 1 &&
                playerCaught == (old(playerCaught) || currentRoom == playerRoom)
      ensures guardEnabled ==> Valid()
    {
      if !guardEnabled {
        return currentRoom;
      }
      var bestMove := MinimaxDecision(playerRoom);
      if bestMove.Some? {
        NeighborIsRoom(env.graph, currentRoom, bestMove.value);
        currentRoom := bestMove.value;
        movesMade := movesMade + 1;
        if currentRoom == playerRoom {
          playerCaught := true;
        }
      }
      newRoom := currentRoom;
    }
  }
}
