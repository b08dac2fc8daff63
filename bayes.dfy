/** Trap beliefs (bayesian_reasoning.py): one trap probability per room,
    revised by Bayes' rule when a room is entered and nudged for rooms whose
    ids lie within two of it. Probabilities are exact reals. */
module Bayes {

  /** What entering a room showed: the trap fired, or nothing happened. */
  datatype Observation = Safe | Trap

  function Min(a: real, b: real): real { if a <= b then a else b }
  function Max(a: real, b: real): real { if a >= b then a else b }
  function Abs(x: int): nat { if x < 0 then -x else x }

  /** `m.get(k, d)`. */
  function GetOr(m: map<int, real>, k: int, d: real): real {
    if k in m then m[k] else d
  }

  /** Bayes' rule for a trap with likelihoods `likelyTrap` (trap present) and
      `likelyNoTrap` (trap absent); zero evidence gives zero. */
  function BayesRule(likelyTrap: real, likelyNoTrap: real, prior: real): real {
    var evidence := likelyTrap * prior + likelyNoTrap * (1.0 - prior);
    if evidence > 0.0 then likelyTrap * prior / evidence else 0.0
  }

  /** The belief after observing `obs`: likelihoods `(1, 0)` for a fired trap
      and `(1 - reliability, reliability)` for a safe entry. */
  function Posterior(prior: real, obs: Observation, reliability: real): real {
    match obs
    case Trap => BayesRule(1.0, 0.0, prior)
    case Safe => BayesRule(1.0 - reliability, reliability, prior)
  }

  /** A fired trap makes the room certain to be trapped, unless the prior
      ruled a trap out; then the belief is zero. */
  lemma PosteriorTrap(prior: real, reliability: real)
    ensures prior > 0.0 ==> Posterior(prior, Trap, reliability) == 1.0
    ensures prior <= 0.0 ==> Posterior(prior, Trap, reliability) == 0.0
  {
    assert 1.0 * prior + 0.0 * (1.0 - prior) == prior;
    if prior > 0.0 {
      assert BayesRule(1.0, 0.0, prior) == prior / prior;
    }
  }

  /** A belief and a reliability that are probabilities give a probability. */
  lemma PosteriorBounds(prior: real, obs: Observation, reliability: real)
    requires 0.0 <= prior <= 1.0 && 0.0 <= reliability <= 1.0
    ensures 0.0 <= Posterior(prior, obs, reliability) <= 1.0
  {
    match obs
    case Trap => BayesRuleBounds(1.0, 0.0, prior);
    case Safe => BayesRuleBounds(1.0 - reliability, reliability, prior);
  }

  /** For an unsure prior, a safe entry lowers the belief exactly when the
      observation is more reliable than a coin toss. */
  lemma PosteriorSafeLowers(prior: real, reliability: real)
    requires 0.0 < prior < 1.0 && 0.0 <= reliability <= 1.0
    ensures Posterior(prior, Safe, reliability) < prior <==> reliability > 0.5
  {
    if reliability == 0.0 {
      assert 1.0 * prior + 0.0 * (1.0 - prior) == prior;
      assert BayesRule(1.0, 0.0, prior) == prior / prior == 1.0;
    } else {
      BayesRuleBelow(1.0 - reliability, reliability, prior);
    }
  }

  lemma BayesRuleBounds(lt: real, ln: real, prior: real)
    requires 0.0 <= lt && 0.0 <= ln && 0.0 <= prior <= 1.0
    ensures 0.0 <= BayesRule(lt, ln, prior) <= 1.0
  {
    var a := lt * prior;
    var b := ln * (1.0 - prior);
    NonNegProduct(lt, prior);
    NonNegProduct(ln, 1.0 - prior);
    if a + b > 0.0 {
      RatioNonNeg(a, a + b);
      RatioBelow(a, a + b, 1.0);
    }
  }

  /** The rule lowers an unsure prior exactly when a trap explains the
      observation less well than its absence. */
  lemma BayesRuleBelow(lt: real, ln: real, prior: real)
    requires 0.0 <= lt && 0.0 < ln && 0.0 < prior < 1.0
    ensures BayesRule(lt, ln, prior) < prior <==> lt < ln
  {
    var a := lt * prior;
    var b := ln * (1.0 - prior);
    var c := prior * (1.0 - prior);
    assert 0.0 <= a by { NonNegProduct(lt, prior); }
    assert 0.0 < b by { PositiveProduct(ln, 1.0 - prior); }
    assert 0.0 < c by { PositiveProduct(prior, 1.0 - prior); }
    var e := a + b;
    assert BayesRule(lt, ln, prior) == a / e;
    RatioBelow(a, e, prior);
    // a < p e  <==>  a (1 - p) < p b  <==>  lt c < ln c
    assert prior * e - a == prior * b - a * (1.0 - prior) by {
      assert prior * e == prior * a + prior * b;
    }
    assert a * (1.0 - prior) == lt * c by {
      assert a * (1.0 - prior) == lt * (prior * (1.0 - prior));
    }
    assert prior * b == ln * c by {
      assert prior * (ln * (1.0 - prior)) == ln * (prior * (1.0 - prior));
    }
    CompareScaled(lt, ln, c);
  }

  lemma NonNegProduct(a: real, b: real)
    requires 0.0 <= a && 0.0 <= b
    ensures 0.0 <= a * b
  {
  }

  lemma PositiveProduct(a: real, b: real)
    requires 0.0 < a && 0.0 < b
    ensures 0.0 < a * b
  {
  }

  /** Scaling by a positive factor keeps the order of two reals. */
  lemma CompareScaled(x: real, y: real, c: real)
    requires c > 0.0
    ensures x < y <==> x * c < y * c
  {
    if x < y {
      PositiveProduct(y - x, c);
    } else {
      NonNegProduct(x - y, c);
    }
  }

  lemma RatioBelow(a: real, e: real, p: real)
    requires e > 0.0
    ensures a / e < p <==> a < p * e
    ensures a / e <= p <==> a <= p * e
  {
    var q := a / e;
    assert q * e == a;
    CompareScaled(q, p, e);
    CompareScaled(p, q, e);
  }

  lemma RatioNonNeg(a: real, e: real)
    requires e > 0.0 && a >= 0.0
    ensures a / e >= 0.0
  {
    var q := a / e;
    assert q * e == a;
    if q < 0.0 { PositiveProduct(-q, e); }
  }

  /** The nudge of a nearby unobserved room at id distance `d`: up by `0.1 / d`
      capped at 0.95 after a trap, down by `0.05 / d` floored at 0.05 when safe. */
  function Nudge(b: real, obs: Observation, d: int): real
    requires d >= 1
  {
    match obs
    case Trap => Min(0.95, b + 0.1 * (1.0 / d as real))
    case Safe => Max(0.05, b - 0.05 * (1.0 / d as real))
  }

  /** A nudged belief that started in `[0.05, 0.95]` stays there. */
  lemma NudgeBounds(b: real, obs: Observation, d: int)
    requires d >= 1 && 0.05 <= b <= 0.95
    ensures 0.05 <= Nudge(b, obs, d) <= 0.95
  {
    RatioNonNeg(1.0, d as real);
  }

  /** Room `r` takes part in the spread from `observed`: it is another room, not
      observed itself, at id distance at most two. */
  predicate Affected(r: int, observed: int, observations: map<int, Observation>) {
    r != observed && r !in observations && Abs(r - observed) <= 2
  }

  /** A room's belief after the spread from `observed`. */
  function Adjusted(b: real, r: int, observations: map<int, Observation>, observed: int, obs: Observation): real {
    if Affected(r, observed, observations) then Nudge(b, obs, Abs(r - observed)) else b
  }

  /** The beliefs after the spread from `observed`: every room is adjusted. */
  function Spread(beliefs: map<int, real>, observations: map<int, Observation>,
                  observed: int, obs: Observation): map<int, real>
  {
    map r | r in beliefs :: Adjusted(beliefs[r], r, observations, observed, obs)
  }

  /** For any beliefs at all, the spread keeps the rooms and leaves every room
      outside the neighbourhood of `observed` as it was; in particular observed
      rooms never move. */
  lemma SpreadFrame(beliefs: map<int, real>, observations: map<int, Observation>, observed: int, obs: Observation)
    ensures Spread(beliefs, observations, observed, obs).Keys == beliefs.Keys
    ensures forall r :: r in beliefs && !Affected(r, observed, observations) ==>
              Spread(beliefs, observations, observed, obs)[r] == beliefs[r]
    ensures forall r :: r in observations && r in beliefs ==>
              Spread(beliefs, observations, observed, obs)[r] == beliefs[r]
  {
  }

  /** The spread keeps the rooms, leaves every room outside the neighbourhood
      (observed rooms included) as it was, and keeps beliefs of unobserved rooms
      in `[0.05, 0.95]`. */
  lemma SpreadEffect(beliefs: map<int, real>, observations: map<int, Observation>, observed: int, obs: Observation)
    requires forall r :: r in beliefs && r !in observations ==> 0.05 <= beliefs[r] <= 0.95
    ensures Spread(beliefs, observations, observed, obs).Keys == beliefs.Keys
    ensures forall r :: r in beliefs && !Affected(r, observed, observations) ==>
              Spread(beliefs, observations, observed, obs)[r] == beliefs[r]
    ensures forall r :: r in beliefs && r !in observations ==>
              0.05 <= Spread(beliefs, observations, observed, obs)[r] <= 0.95
  {
    var m := Spread(beliefs, observations, observed, obs);
    forall r | r in beliefs && r !in observations
      ensures 0.05 <= m[r] <= 0.95
    {
      if Affected(r, observed, observations) {
        NudgeBounds(beliefs[r], obs, Abs(r - observed));
      }
    }
  }

  /** The beliefs after observing `obs` in `roomId`: Bayes' rule there, then the spread. */
  function Observe(beliefs: map<int, real>, observations: map<int, Observation>, roomId: int,
                   obs: Observation, reliability: real): map<int, real>
    requires roomId in beliefs
  {
    Spread(beliefs[roomId := Posterior(beliefs[roomId], obs, reliability)], observations[roomId := obs], roomId, obs)
  }

  /** An observation keeps the rooms, gives the observed room its posterior, and
      keeps every belief a probability and every unobserved belief in
      `[0.05, 0.95]`; the observed rooms stay among the rooms with a belief. */
  lemma ObservePreserves(beliefs: map<int, real>, observations: map<int, Observation>, roomId: int,
                         obs: Observation, reliability: real)
    requires roomId in beliefs && 0.0 <= reliability <= 1.0
    requires observations.Keys <= beliefs.Keys
    requires forall r :: r in beliefs ==> 0.0 <= beliefs[r] <= 1.0
    requires forall r :: r in beliefs && r !in observations ==> 0.05 <= beliefs[r] <= 0.95
    ensures Observe(beliefs, observations, roomId, obs, reliability).Keys == beliefs.Keys
    ensures Observe(beliefs, observations, roomId, obs, reliability)[roomId] ==
            Posterior(beliefs[roomId], obs, reliability)
    ensures forall r :: r in beliefs ==> 0.0 <= Observe(beliefs, observations, roomId, obs, reliability)[r] <= 1.0
    ensures forall r :: r in beliefs && r != roomId && r !in observations ==>
              0.05 <= Observe(beliefs, observations, roomId, obs, reliability)[r] <= 0.95
  {
    var o := observations[roomId := obs];
    var b := beliefs[roomId := Posterior(beliefs[roomId], obs, reliability)];
    PosteriorBounds(beliefs[roomId], obs, reliability);
    SpreadEffect(b, o, roomId, obs);
    var m := Spread(b, o, roomId, obs);
    forall r | r in beliefs
      ensures 0.0 <= m[r] <= 1.0
    {
      if r !in o {
        assert 0.05 <= m[r] <= 0.95;
      } else {
        assert m[r] == b[r];
      }
    }
  }

  /** `xs[:n]` with Python's slice rules: a negative `n` drops that many from the end. */
  function Prefix(xs: seq<int>, n: int): (r: seq<int>)
    ensures |r| <= |xs| && r == xs[..|r|]
    ensures n >= 0 ==> |r| == if n < |xs| then n else |xs|
    ensures n < 0 ==> |r| == if |xs| + n > 0 then |xs| + n else 0
  {
    if n >= 0 then (if n < |xs| then xs[..n] else xs)
    else if |xs| + n > 0 then xs[..|xs| + n] else []
  }

  /** Inserts `x` after every element whose key is not larger. */
  function InsertBy(x: int, s: seq<int>, key: int -> real): seq<int>
  {
    if s == [] then [x]
    else if key(x) < key(s[0]) then [x] + s
    else [s[0]] + InsertBy(x, s[1..], key)
  }

  /** Python's stable `sorted(xs, key=key)`, as an insertion sort. */
  function SortBy(xs: seq<int>, key: int -> real): seq<int>
  {
    if xs == [] then []
    else InsertBy(xs[|xs| - 1], SortBy(xs[..|xs| - 1], key), key)
  }

  ghost predicate Ordered(s: seq<int>, key: int -> real) {
    forall i, j :: 0 <= i < j < |s| ==> key(s[i]) <= key(s[j])
  }

  /** The elements whose key is `k`, in order. */
  function WithKey(s: seq<int>, key: int -> real, k: real): seq<int>
  {
    if s == [] then []
    else (if key(s[0]) == k then [s[0]] else []) + WithKey(s[1..], key, k)
  }

  lemma {:induction false} WithKeyAppend(s: seq<int>, t: seq<int>, key: int -> real, k: real)
    ensures WithKey(s + t, key, k) == WithKey(s, key, k) + WithKey(t, key, k)
  {
    if s == [] {
      assert s + t == t;
    } else {
      var u := s + t;
      assert u[0] == s[0] && u[1..] == s[1..] + t;
      WithKeyAppend(s[1..], t, key, k);
      var head := if key(s[0]) == k then [s[0]] else [];
      assert WithKey(u, key, k) == head + (WithKey(s[1..], key, k) + WithKey(t, key, k));
      assert WithKey(s, key, k) == head + WithKey(s[1..], key, k);
    }
  }

  /** Inserting adds exactly `x`. */
  lemma {:induction false} InsertByMultiset(x: int, s: seq<int>, key: int -> real)
    ensures multiset(InsertBy(x, s, key)) == multiset(s) + multiset{x}
    decreases |s|
  {
    if s != [] && key(x) >= key(s[0]) {
      assert s == [s[0]] + s[1..];
      InsertByMultiset(x, s[1..], key);
    }
  }

  /** Inserting into an ordered list keeps it ordered. */
  lemma {:induction false} InsertByOrdered(x: int, s: seq<int>, key: int -> real)
    requires Ordered(s, key)
    ensures Ordered(InsertBy(x, s, key), key)
    decreases |s|
  {
    if s != [] && key(x) >= key(s[0]) {
      var t := s[1..];
      InsertByOrdered(x, t, key);
      InsertByAbove(x, t, key, key(s[0]));
    }
  }

  /** A lower bound of `x` and of every element bounds the result too. */
  lemma {:induction false} InsertByAbove(x: int, s: seq<int>, key: int -> real, lo: real)
    requires lo <= key(x) && forall i :: 0 <= i < |s| ==> lo <= key(s[i])
    ensures forall i :: 0 <= i < |InsertBy(x, s, key)| ==> lo <= key(InsertBy(x, s, key)[i])
    decreases |s|
  {
    if s != [] && key(x) >= key(s[0]) {
      InsertByAbove(x, s[1..], key, lo);
    }
  }

  /** Inserting into an ordered list puts `x` after the elements of its key. */
  lemma {:induction false} InsertByStable(x: int, s: seq<int>, key: int -> real, k: real)
    requires Ordered(s, key)
    ensures WithKey(InsertBy(x, s, key), key, k) == WithKey(s, key, k) + WithKey([x], key, k)
    decreases |s|
  {
    WithKeySingle(x, key, k);
    if s == [] {
    } else if key(x) < key(s[0]) {
      var r := [x] + s;
      assert r[1..] == s;
      if key(x) == k {
        NoKey(s, key, k);
      }
    } else {
      var t := s[1..];
      InsertByStable(x, t, key, k);
      var r := [s[0]] + InsertBy(x, t, key);
      assert r[1..] == InsertBy(x, t, key);
    }
  }

  lemma WithKeySingle(x: int, key: int -> real, k: real)
    ensures WithKey([x], key, k) == if key(x) == k then [x] else []
  {
    assert [x][1..] == [];
  }

  /** No element of an ordered list lying strictly above `k` has key `k`. */
  lemma {:induction false} NoKey(s: seq<int>, key: int -> real, k: real)
    requires forall i :: 0 <= i < |s| ==> key(s[i]) > k
    ensures WithKey(s, key, k) == []
  {
    if s != [] {
      NoKey(s[1..], key, k);
    }
  }

  /** The sort is ordered by key, a permutation, and stable: the elements of
      any one key appear in their original order. */
  lemma {:induction false} SortByCorrect(xs: seq<int>, key: int -> real)
    ensures Ordered(SortBy(xs, key), key)
    ensures multiset(SortBy(xs, key)) == multiset(xs)
    ensures forall k :: WithKey(SortBy(xs, key), key, k) == WithKey(xs, key, k)
  {
    if xs != [] {
      var init := xs[..|xs| - 1];
      var x := xs[|xs| - 1];
      SortByCorrect(init, key);
      assert xs == init + [x];
      forall k
        ensures WithKey(SortBy(xs, key), key, k) == WithKey(xs, key, k)
      {
        InsertByStable(x, SortBy(init, key), key, k);
        WithKeyAppend(init, [x], key, k);
      }
      InsertByOrdered(x, SortBy(init, key), key);
      InsertByMultiset(x, SortBy(init, key), key);
    }
  }

  /** A prefix of a sorted permutation is as small as it can be: it is ordered,
      drawn from `xs`, and no element left out has a smaller key than one taken. */
  lemma PrefixSmallest(xs: seq<int>, key: int -> real, n: int)
    ensures Ordered(Prefix(SortBy(xs, key), n), key)
    ensures multiset(Prefix(SortBy(xs, key), n)) <= multiset(xs)
    ensures forall x, i ::
              (0 <= i < |Prefix(SortBy(xs, key), n)| && multiset(Prefix(SortBy(xs, key), n))[x] < multiset(xs)[x]) ==>
              key(Prefix(SortBy(xs, key), n)[i]) <= key(x)
  {
    var s := SortBy(xs, key);
    SortByCorrect(xs, key);
    var r := Prefix(s, n);
    var rest := s[|r|..];
    assert s == r + rest;
    assert multiset(s) == multiset(r) + multiset(rest);
    forall x, i | 0 <= i < |r| && multiset(r)[x] < multiset(xs)[x]
      ensures key(r[i]) <= key(x)
    {
      LeftOutNotSmaller(s, key, |r|, x, i);
    }
  }

  /** In an ordered list, an element after position `k` has a key no smaller
      than any element before it. */
  lemma LeftOutNotSmaller(s: seq<int>, key: int -> real, k: nat, x: int, i: int)
    requires Ordered(s, key) && 0 <= i < k <= |s| && x in multiset(s[k..])
    ensures key(s[i]) <= key(x)
  {
    var j :| k <= j < |s| && s[j] == x by {
      assert x in s[k..];
      var t :| 0 <= t < |s[k..]| && s[k..][t] == x;
      assert s[k + t] == x;
    }
  }

  /** The beliefs of the path's unobserved rooms, summed; unknown rooms add 0. */
  function PathRisk(path: seq<int>, beliefs: map<int, real>, observations: map<int, Observation>): real
  {
    if path == [] then 0.0
    else PathRisk(path[..|path| - 1], beliefs, observations) +
         (if path[|path| - 1] !in observations then GetOr(beliefs, path[|path| - 1], 0.0) else 0.0)
  }

  /** With probabilities as beliefs, a path's risk lies between 0 and its length. */
  lemma {:induction false} PathRiskBounds(path: seq<int>, beliefs: map<int, real>, observations: map<int, Observation>)
    requires forall r :: r in beliefs ==> 0.0 <= beliefs[r] <= 1.0
    ensures 0.0 <= PathRisk(path, beliefs, observations) <= |path| as real
  {
    if path != [] {
      PathRiskBounds(path[..|path| - 1], beliefs, observations);
    }
  }

  /** The belief system: a belief per room id and the last observation per room. */
  class BeliefSystem {
    const numRooms: int
    /** The prior every room starts with, and the reliability of a safe entry. */
    const initialProbability: real
    const reliability: real
    var trapBeliefs: map<int, real>
    var observations: map<int, Observation>

    /** Beliefs are probabilities; unobserved ones stay within `[0.05, 0.95]`;
        only rooms with a belief are ever observed. */
    ghost predicate Valid()
      reads this
    {
      0.0 <= reliability <= 1.0 &&
      observations.Keys <= trapBeliefs.Keys &&
      (forall r :: r in trapBeliefs ==> 0.0 <= trapBeliefs[r] <= 1.0) &&
      (forall r :: r in trapBeliefs && r !in observations ==> 0.05 <= trapBeliefs[r] <= 0.95)
    }

    /** Every room `0 .. n - 1` starts at the prior, with no observation. */
    constructor (n: int, prior: real, reliable: real)
      ensures numRooms == n && initialProbability == prior && reliability == reliable
      ensures forall r :: r in trapBeliefs <==> 0 <= r < n
      ensures forall r :: 0 <= r < n ==> trapBeliefs[r] == prior
      ensures observations == map[]
      ensures 0.05 <= prior <= 0.95 && 0.0 <= reliable <= 1.0 ==> Valid()
    {
      numRooms := n;
      initialProbability := prior;
      reliability := reliable;
      observations := map[];
      trapBeliefs := map[];
      new;
      var roomId := 0;
      while roomId < n
        invariant (n >= 0 ==> roomId <= n) && (n < 0 ==> roomId == 0)
        invariant forall r :: r in trapBeliefs <==> 0 <= r < roomId
        invariant forall r :: 0 <= r < roomId ==> trapBeliefs[r] == prior
        invariant observations == map[]
      {
        trapBeliefs := trapBeliefs[roomId := prior];
        roomId := roomId + 1;
      }
    }

    /** Records the observation, applies Bayes' rule to the room, then spreads
        the change to its neighbourhood. A room without a belief is ignored. */
    method UpdateBelief(roomId: int, obs: Observation)
      modifies `trapBeliefs, `observations
      ensures roomId !in old(trapBeliefs) ==> trapBeliefs == old(trapBeliefs) && observations == old(observations)
      ensures roomId in old(trapBeliefs) ==>
                observations == old(observations)[roomId := obs] &&
                trapBeliefs == Observe(old(trapBeliefs), old(observations), roomId, obs, reliability)
      ensures roomId in old(trapBeliefs) ==> trapBeliefs[roomId] == Posterior(old(trapBeliefs)[roomId], obs, reliability)
      ensures trapBeliefs.Keys == old(trapBeliefs).Keys
      ensures old(Valid()) ==> Valid()
    {
      if roomId !in trapBeliefs {
        return;
      }
      observations := observations[roomId := obs];
      var prior := trapBeliefs[roomId];
      var likelyTrap, likelyNoTrap;
      if obs == Trap {
        likelyTrap, likelyNoTrap := 1.0, 0.0;
      } else {
        likelyTrap, likelyNoTrap := 1.0 - reliability, reliability;
      }
      var evidence := likelyTrap * prior + likelyNoTrap * (1.0 - prior);
      var posterior;
      if evidence > 0.0 {
        posterior := likelyTrap * prior / evidence;
      } else {
        posterior := 0.0;
      }
      assert posterior == Posterior(prior, obs, reliability);
      trapBeliefs := trapBeliefs[roomId := posterior];
      PropagateBeliefs(roomId, obs);
      assert !Affected(roomId, roomId, observations);
      if old(Valid()) {
        ObservePreserves(old(trapBeliefs), old(observations), roomId, obs, reliability);
      }
    }

    /** Visits every room of the belief map once and nudges the affected ones. */
    method PropagateBeliefs(observedRoom: int, obs: Observation)
      modifies `trapBeliefs
      ensures trapBeliefs == Spread(old(trapBeliefs), observations, observedRoom, obs)
    {
      ghost var start := trapBeliefs;
      ghost var seen := observations;
      var todo := trapBeliefs.Keys;
      while todo != {}
        invariant todo <= start.Keys && trapBeliefs.Keys == start.Keys
        invariant forall r :: r in start ==>
                    trapBeliefs[r] == if r in todo then start[r] else Adjusted(start[r], r, seen, observedRoom, obs)
        invariant observations == seen
        decreases |todo|
      {
        assert (forall r :: r !in todo) ==> todo == {};
        var roomId :| roomId in todo;
        assert trapBeliefs[roomId] == start[roomId];
        if roomId != observedRoom && roomId !in observations {
          var distance := Abs(roomId - observedRoom);
          if distance <= 2 {
            trapBeliefs := trapBeliefs[roomId := Nudge(trapBeliefs[roomId], obs, distance)];
          }
        }
        todo := todo - {roomId};
      }
      var spread := Spread(start, seen, observedRoom, obs);
      assert trapBeliefs.Keys == spread.Keys;
      assert forall r :: r in start ==> trapBeliefs[r] == spread[r];
    }

    /** `trap_beliefs.get(room_id, 0.0)`. */
    function GetTrapProbability(roomId: int): (p: real)
      reads this
      ensures roomId !in trapBeliefs ==> p == 0.0
      ensures Valid() ==> 0.0 <= p <= 1.0
      ensures Valid() && roomId in trapBeliefs && roomId !in observations ==> 0.05 <= p <= 0.95
    {
      GetOr(trapBeliefs, roomId, 0.0)
    }

    /** The first `topN` rooms by ascending belief, unknown rooms counting as 1.0,
        ties kept in list order. */
    function GetSafestRooms(roomIds: seq<int>, topN: int): (r: seq<int>)
      reads this
      ensures multiset(r) <= multiset(roomIds)
      ensures topN >= 0 ==> |r| == if topN < |roomIds| then topN else |roomIds|
      ensures forall i, j :: 0 <= i < j < |r| ==> GetOr(trapBeliefs, r[i], 1.0) <= GetOr(trapBeliefs, r[j], 1.0)
      ensures forall x, i :: 0 <= i < |r| && multiset(r)[x] < multiset(roomIds)[x] ==>
                GetOr(trapBeliefs, r[i], 1.0) <= GetOr(trapBeliefs, x, 1.0)
    {
      var beliefs := trapBeliefs;
      var key := rid => GetOr(beliefs, rid, 1.0);
      PrefixSmallest(roomIds, key, topN);
      SortByCorrect(roomIds, key);
      Prefix(SortBy(roomIds, key), topN)
    }

    /** The first `topN` rooms by descending belief, unknown rooms counting as 0.0,
        ties kept in list order. */
    function GetRiskiestRooms(roomIds: seq<int>, topN: int): (r: seq<int>)
      reads this
      ensures multiset(r) <= multiset(roomIds)
      ensures topN >= 0 ==> |r| == if topN < |roomIds| then topN else |roomIds|
      ensures forall i, j :: 0 <= i < j < |r| ==> GetOr(trapBeliefs, r[i], 0.0) >= GetOr(trapBeliefs, r[j], 0.0)
      ensures forall x, i :: 0 <= i < |r| && multiset(r)[x] < multiset(roomIds)[x] ==>
                GetOr(trapBeliefs, r[i], 0.0) >= GetOr(trapBeliefs, x, 0.0)
    {
      var beliefs := trapBeliefs;
      var key := rid => -GetOr(beliefs, rid, 0.0);
      PrefixSmallest(roomIds, key, topN);
      SortByCorrect(roomIds, key);
      Prefix(SortBy(roomIds, key), topN)
    }

    /** Sums the beliefs of the path's unobserved rooms. */
    method EstimatePathRisk(path: seq<int>) returns (totalRisk: real)
      ensures totalRisk == PathRisk(path, trapBeliefs, observations)
      ensures Valid() ==> 0.0 <= totalRisk <= |path| as real
    {
      totalRisk := 0.0;
      var i := 0;
      while i < |path|
        invariant 0 <= i <= |path|
        invariant totalRisk == PathRisk(path[..i], trapBeliefs, observations)
      {
        var roomId := path[i];
        if roomId !in observations {
          totalRisk := totalRisk + GetOr(trapBeliefs, roomId, 0.0);
        }
        assert path[..i + 1][..i] == path[..i];
        i := i + 1;
      }
      assert path[..|path|] == path;
      if Valid() {
        PathRiskBounds(path, trapBeliefs, observations);
      }
    }
  }
}
