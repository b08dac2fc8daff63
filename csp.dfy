/** The door-puzzle constraint solver (csp_solver.py): puzzles over named
    variables with finite domains and constraints on partial assignments, a
    chronological backtracking search, and a checker for proposed solutions. */
module Csp {
  import opened Wrappers

  /** A partial assignment: the variables assigned so far and their values. */
  type Assignment = map<string, int>

  /** The constraints the three puzzle families use. Each is checked on a partial
      assignment and holds as long as a variable it names is unassigned;
      `AllDiff` looks at every value assigned so far. */
  datatype Constraint =
    | SumEq(names: seq<string>, target: int)
    | Ne(a: string, b: string)
    | AllDiff
    | Lt(a: string, b: string)
    | Le(a: string, b: string)
    | ProdEqAndSumEq(w: string, x: string, y: string, z: string, product: int, sum: int)

  datatype Puzzle = Puzzle(variables: seq<string>, domains: map<string, seq<int>>, constraints: seq<Constraint>)

  /** The sum of the values of `names`, all assigned. */
  function SumOf(names: seq<string>, asg: Assignment): int
    requires forall v :: v in names ==> v in asg
  {
    if names == [] then 0 else asg[names[0]] + SumOf(names[1..], asg)
  }

  predicate Holds(c: Constraint, asg: Assignment) {
    match c
    case SumEq(names, target) => (forall v :: v in names ==> v in asg) ==> SumOf(names, asg) == target
    case Ne(a, b) => a in asg && b in asg ==> asg[a] != asg[b]
    case AllDiff => forall u, v :: u in asg && v in asg && u != v ==> asg[u] != asg[v]
    case Lt(a, b) => a in asg && b in asg ==> asg[a] < asg[b]
    case Le(a, b) => a in asg && b in asg ==> asg[a] <= asg[b]
    case ProdEqAndSumEq(w, x, y, z, product, sum) =>
      w in asg && x in asg && y in asg && z in asg ==> asg[w] * asg[x] == product && asg[y] + asg[z] == sum
  }

  /** Every constraint holds. */
  predicate Consistent(cs: seq<Constraint>, asg: Assignment) {
    forall i :: 0 <= i < |cs| ==> Holds(cs[i], asg)
  }

  /** `b` extends `a`: it keeps every assignment of `a`. */
  ghost predicate Extends(b: Assignment, a: Assignment) {
    forall v :: v in a ==> v in b && b[v] == a[v]
  }

  lemma {:induction false} SumOfExtends(names: seq<string>, a: Assignment, b: Assignment)
    requires Extends(b, a) && forall v :: v in names ==> v in a
    ensures SumOf(names, a) == SumOf(names, b)
    decreases |names|
  {
    if names != [] {
      assert forall v :: v in names[1..] ==> v in names;
      SumOfExtends(names[1..], a, b);
    }
  }

  /** A violated constraint stays violated however the assignment is extended,
      so a search may stop at the first violation. */
  lemma HoldsMonotone(c: Constraint, a: Assignment, b: Assignment)
    requires Extends(b, a) && Holds(c, b)
    ensures Holds(c, a)
  {
    if c.SumEq? && forall v :: v in c.names ==> v in a {
      SumOfExtends(c.names, a, b);
    }
  }

  lemma ConsistentMonotone(cs: seq<Constraint>, a: Assignment, b: Assignment)
    requires Extends(b, a) && Consistent(cs, b)
    ensures Consistent(cs, a)
  {
    forall i | 0 <= i < |cs| ensures Holds(cs[i], a) {
      HoldsMonotone(cs[i], a, b);
    }
  }

  // ---------------------------------------------------------------------
  // Puzzles
  // ---------------------------------------------------------------------

  /** No name occurs twice. */
  ghost predicate DistinctNames(vars: seq<string>) {
    vars == [] || (vars[|vars| - 1] !in vars[..|vars| - 1] && DistinctNames(vars[..|vars| - 1]))
  }

  lemma {:induction false} DistinctPrefix(vars: seq<string>, n: int)
    requires DistinctNames(vars) && 0 <= n < |vars|
    ensures forall i :: 0 <= i < n ==> vars[i] != vars[n]
    decreases |vars|
  {
    var m := |vars| - 1;
    assert forall i :: 0 <= i < m ==> vars[..m][i] == vars[i];
    if n < m {
      DistinctPrefix(vars[..m], n);
    }
  }

  /** The variables are distinct and each has a domain. */
  ghost predicate WellFormed(p: Puzzle) {
    DistinctNames(p.variables) && forall v :: v in p.variables ==> v in p.domains
  }

  /** What the solution checker accepts: exactly the puzzle's variables are
      assigned, each a value of its domain, and every constraint holds. */
  ghost predicate Verified(p: Puzzle, sol: Assignment) {
    (forall v :: v in sol <==> v in p.variables) &&
    (forall v :: v in sol ==> v in p.domains && sol[v] in p.domains[v]) &&
    Consistent(p.constraints, sol)
  }

  /** The two-variable family: `X + Y = target`, `X != Y`, both in 1..4. */
  function EasyPuzzle(target: int): Puzzle
  {
    Puzzle(["X", "Y"], map["X" := [1, 2, 3, 4], "Y" := [1, 2, 3, 4]],
           [SumEq(["X", "Y"], target), Ne("X", "Y")])
  }

  /** The three-variable family: `A + B + C = target`, all different, `A < B`, all in 1..5. */
  function MediumPuzzle(target: int): Puzzle
  {
    Puzzle(["A", "B", "C"], map["A" := [1, 2, 3, 4, 5], "B" := [1, 2, 3, 4, 5], "C" := [1, 2, 3, 4, 5]],
           [SumEq(["A", "B", "C"], target), AllDiff, Lt("A", "B")])
  }

  /** The hard family's draws `(W, X, Y, Z, W * X, Y + Z)`. */
  const HardCombinations: seq<(int, int, int, int, int, int)> :=
    [(2, 6, 1, 5, 12, 6), (3, 4, 1, 5, 12, 6), (2, 5, 1, 6, 10, 7), (3, 5, 1, 4, 15, 5), (4, 5, 1, 3, 20, 4)]

  /** The four-variable family: `W * X` and `Y + Z` fixed by the drawn combination,
      all different, `W <= X`, all in 1..6. */
  function HardPuzzle(choice: int): Puzzle
    requires 0 <= choice < |HardCombinations|
  {
    var (_, _, _, _, product, sum) := HardCombinations[choice];
    var d := [1, 2, 3, 4, 5, 6];
    Puzzle(["W", "X", "Y", "Z"], map["W" := d, "X" := d, "Y" := d, "Z" := d],
           [ProdEqAndSumEq("W", "X", "Y", "Z", product, sum), AllDiff, Le("W", "X")])
  }

  /** The random draw each family makes: a target in 4..7, a target in 8..12, or
      one of the hard combinations. */
  predicate DrawOk(difficulty: string, draw: int) {
    if difficulty == "medium" then 8 <= draw <= 12
    else if difficulty == "hard" then 0 <= draw < |HardCombinations|
    else 4 <= draw <= 7
  }

  /** The puzzle for a difficulty name; an unknown name gives the easy family. */
  function GeneratePuzzle(difficulty: string, draw: int): Puzzle
    requires DrawOk(difficulty, draw)
  {
    if difficulty == "medium" then MediumPuzzle(draw)
    else if difficulty == "hard" then HardPuzzle(draw)
    else EasyPuzzle(draw)
  }

  lemma SumOfSmall(a: string, b: string, c: string, m: Assignment)
    requires a in m && b in m && c in m
    ensures SumOf([a, b], m) == m[a] + m[b] && SumOf([a, b, c], m) == m[a] + m[b] + m[c]
  {
    assert [a, b, c][1..] == [b, c] && [b, c][1..] == [c] && [c][1..] == [];
    assert [a, b][1..] == [b] && [b][1..] == [];
    assert SumOf([c], m) == m[c] + SumOf([], m);
    assert SumOf([b], m) == m[b] + SumOf([], m);
    assert SumOf([b, c], m) == m[b] + SumOf([c], m);
  }

  /** An easy solution: two different values of 1..4 adding up to the target. */
  lemma EasyWitness(target: int, x: int, y: int)
    requires 1 <= x <= 4 && 1 <= y <= 4 && x != y && x + y == target
    ensures Verified(EasyPuzzle(target), map["X" := x, "Y" := y])
  {
    var sol := map["X" := x, "Y" := y];
    InDomain(x);
    InDomain(y);
    SumOfSmall("X", "Y", "Y", sol);
  }

  /** Each easy target in 4..7 has a solution. */
  lemma EasySolvable(target: int)
    requires 4 <= target <= 7
    ensures exists sol :: Verified(EasyPuzzle(target), sol)
  {
    if target == 4 {
      EasyWitness(target, 1, 3);
    } else if target == 5 {
      EasyWitness(target, 1, 4);
    } else if target == 6 {
      EasyWitness(target, 2, 4);
    } else {
      EasyWitness(target, 3, 4);
    }
  }

  /** A medium solution: three different values of 1..5, the first below the
      second, adding up to the target. */
  lemma MediumWitness(target: int, a: int, b: int, c: int)
    requires 1 <= a <= 5 && 1 <= b <= 5 && 1 <= c <= 5 && a < b && a != c && b != c && a + b + c == target
    ensures Verified(MediumPuzzle(target), map["A" := a, "B" := b, "C" := c])
  {
    var sol := map["A" := a, "B" := b, "C" := c];
    AllDiffFour("A", "B", "C", "D", a, b, c, 0);
    InDomain(a);
    InDomain(b);
    InDomain(c);
    SumOfSmall("A", "B", "C", sol);
    var p := MediumPuzzle(target);
    assert Holds(p.constraints[0], sol) && Holds(p.constraints[2], sol);
    assert Consistent(p.constraints, sol);
    assert forall v :: v in sol ==> v in p.domains && sol[v] in p.domains[v];
  }

  /** Each medium target in 8..12 has a solution. */
  lemma MediumSolvable(target: int)
    requires 8 <= target <= 12
    ensures exists sol :: Verified(MediumPuzzle(target), sol)
  {
    var a, b := if target <= 10 then 1 else target - 9, if target <= 10 then target - 6 else 4;
    MediumWitness(target, a, b, 5);
  }

  /** A hard solution: four different values of 1..6 with `W <= X` meeting the
      drawn product and sum. */
  lemma HardWitness(choice: int, w: int, x: int, y: int, z: int)
    requires 0 <= choice < |HardCombinations|
    requires 1 <= w <= 6 && 1 <= x <= 6 && 1 <= y <= 6 && 1 <= z <= 6
    requires w != x && w != y && w != z && x != y && x != z && y != z && w <= x
    requires w * x == HardCombinations[choice].4 && y + z == HardCombinations[choice].5
    ensures Verified(HardPuzzle(choice), map["W" := w, "X" := x, "Y" := y, "Z" := z])
  {
    var p := HardPuzzle(choice);
    var sol := map["W" := w, "X" := x, "Y" := y, "Z" := z];
    AllDiffFour("W", "X", "Y", "Z", w, x, y, z);
    assert Holds(p.constraints[0], sol) && Holds(p.constraints[2], sol);
    assert Consistent(p.constraints, sol);
    InDomain(w);
    InDomain(x);
    InDomain(y);
    InDomain(z);
    assert forall v :: v in sol ==> v in p.domains && sol[v] in p.domains[v];
  }

  /** The literal domains hold exactly the values of their ranges. */
  lemma InDomain(v: int)
    ensures 1 <= v <= 4 ==> v in [1, 2, 3, 4]
    ensures 1 <= v <= 5 ==> v in [1, 2, 3, 4, 5]
    ensures 1 <= v <= 6 ==> v in [1, 2, 3, 4, 5, 6]
  {
    var d := [1, 2, 3, 4, 5, 6];
    if v == 1 {
      assert d[0] == v && d[..4][0] == v && d[..5][0] == v;
    } else if v == 2 {
      assert d[1] == v && d[..4][1] == v && d[..5][1] == v;
    } else if v == 3 {
      assert d[2] == v && d[..4][2] == v && d[..5][2] == v;
    } else if v == 4 {
      assert d[3] == v && d[..4][3] == v && d[..5][3] == v;
    } else if v == 5 {
      assert d[4] == v && d[..5][4] == v;
    } else if v == 6 {
      assert d[5] == v;
    }
  }

  /** Four different names bound to four different values break no `AllDiff`. */
  lemma AllDiffFour(a: string, b: string, c: string, d: string, va: int, vb: int, vc: int, vd: int)
    requires a != b && a != c && a != d && b != c && b != d && c != d
    requires va != vb && va != vc && va != vd && vb != vc && vb != vd && vc != vd
    ensures Holds(AllDiff, map[a := va, b := vb, c := vc, d := vd])
    ensures Holds(AllDiff, map[a := va, b := vb, c := vc])
  {
  }

  /** Each hard combination is itself a solution of its puzzle. */
  lemma HardSolvable(choice: int)
    requires 0 <= choice < |HardCombinations|
    ensures exists sol :: Verified(HardPuzzle(choice), sol)
  {
    var (w, x, y, z, _, _) := HardCombinations[choice];
    HardWitness(choice, w, x, y, z);
  }

  lemma DistinctSnoc(vars: seq<string>, v: string)
    requires DistinctNames(vars) && v !in vars
    ensures DistinctNames(vars + [v])
  {
    assert (vars + [v])[..|vars|] == vars;
  }

  lemma DistinctFour(a: string, b: string, c: string, d: string)
    requires a != b && a != c && a != d && b != c && b != d && c != d
    ensures DistinctNames([a, b]) && DistinctNames([a, b, c]) && DistinctNames([a, b, c, d])
  {
    DistinctSnoc([], a);
    assert [] + [a] == [a];
    DistinctSnoc([a], b);
    assert [a] + [b] == [a, b];
    DistinctSnoc([a, b], c);
    assert [a, b] + [c] == [a, b, c];
    DistinctSnoc([a, b, c], d);
    assert [a, b, c] + [d] == [a, b, c, d];
  }

  /** Every drawn puzzle names distinct variables, each with a domain. */
  lemma GeneratedWellFormed(difficulty: string, draw: int)
    requires DrawOk(difficulty, draw)
    ensures WellFormed(GeneratePuzzle(difficulty, draw))
  {
    if difficulty == "medium" {
      DistinctFour("A", "B", "C", "D");
      assert GeneratePuzzle(difficulty, draw) == MediumPuzzle(draw);
    } else if difficulty == "hard" {
      DistinctFour("W", "X", "Y", "Z");
      assert GeneratePuzzle(difficulty, draw) == HardPuzzle(draw);
    } else {
      DistinctFour("X", "Y", "Z", "W");
      assert GeneratePuzzle(difficulty, draw) == EasyPuzzle(draw);
    }
  }

  /** Every drawn puzzle has a solution the checker accepts. */
  lemma GeneratedSolvable(difficulty: string, draw: int)
    requires DrawOk(difficulty, draw)
    ensures exists sol :: Verified(GeneratePuzzle(difficulty, draw), sol)
  {
    if difficulty == "medium" {
      assert GeneratePuzzle(difficulty, draw) == MediumPuzzle(draw);
      MediumSolvable(draw);
    } else if difficulty == "hard" {
      assert GeneratePuzzle(difficulty, draw) == HardPuzzle(draw);
      HardSolvable(draw);
    } else {
      assert GeneratePuzzle(difficulty, draw) == EasyPuzzle(draw);
      EasySolvable(draw);
    }
  }

  // ---------------------------------------------------------------------
  // The search space
  // ---------------------------------------------------------------------

  /** The assignment of `vals[i]` to `vars[i]` for every position the two share. */
  function AsMap(vars: seq<string>, vals: seq<int>): Assignment {
    if vals == [] then map[]
    else if |vals| > |vars| then AsMap(vars, vals[..|vals| - 1])
    else AsMap(vars, vals[..|vals| - 1])[vars[|vals| - 1] := vals[|vals| - 1]]
  }

  lemma {:induction false} AsMapAt(vars: seq<string>, vals: seq<int>)
    requires |vals| <= |vars| && DistinctNames(vars)
    ensures forall v :: v in AsMap(vars, vals) <==> exists i :: 0 <= i < |vals| && vars[i] == v
    ensures forall i :: 0 <= i < |vals| ==> vars[i] in AsMap(vars, vals) && AsMap(vars, vals)[vars[i]] == vals[i]
    ensures |AsMap(vars, vals)| == |vals|
    decreases |vals|
  {
    if vals != [] {
      var n := |vals| - 1;
      AsMapAt(vars, vals[..n]);
      DistinctPrefix(vars, n);
      assert forall i :: 0 <= i < n ==> vals[..n][i] == vals[i];
    }
  }

  /** A longer value sequence extends the assignment of a shorter prefix. */
  lemma AsMapExtends(vars: seq<string>, pre: seq<int>, t: seq<int>)
    requires |pre| + |t| <= |vars| && DistinctNames(vars)
    ensures Extends(AsMap(vars, pre + t), AsMap(vars, pre))
  {
    AsMapAt(vars, pre);
    AsMapAt(vars, pre + t);
  }

  /** The domains of the variables, in declaration order. */
  function Doms(p: Puzzle): (ds: seq<seq<int>>)
    requires forall v :: v in p.variables ==> v in p.domains
    ensures |ds| == |p.variables| && forall i :: 0 <= i < |ds| ==> ds[i] == p.domains[p.variables[i]]
  {
    seq(|p.variables|, i requires 0 <= i < |p.variables| => p.domains[p.variables[i]])
  }

  /** `v` put in front of every sequence of `ts`. */
  function Prepend(v: int, ts: seq<seq<int>>): (r: seq<seq<int>>)
    ensures |r| == |ts| && forall i :: 0 <= i < |ts| ==> r[i] == [v] + ts[i]
  {
    seq(|ts|, i requires 0 <= i < |ts| => [v] + ts[i])
  }

  /** For each value of `vs` in order, that value followed by each sequence of `ts`. */
  function Blocks(vs: seq<int>, ts: seq<seq<int>>): seq<seq<int>> {
    if vs == [] then [] else Prepend(vs[0], ts) + Blocks(vs[1..], ts)
  }

  /** The domain product in lexicographic order: the first variable's values in
      domain order, each followed by the product of the rest. */
  function Tuples(ds: seq<seq<int>>): seq<seq<int>> {
    if ds == [] then [[]] else Blocks(ds[0], Tuples(ds[1..]))
  }

  /** The sequence is a complete assignment that satisfies every constraint. */
  ghost predicate Sat(p: Puzzle, s: seq<int>) {
    |s| == |p.variables| && Consistent(p.constraints, AsMap(p.variables, s))
  }

  /** The first `t` of `ts` that completes `pre` to a satisfying assignment. */
  ghost function FirstSat(p: Puzzle, pre: seq<int>, ts: seq<seq<int>>): (r: Option<seq<int>>)
    ensures r.Some? ==> r.value in ts && Sat(p, pre + r.value)
  {
    if ts == [] then None
    else if Sat(p, pre + ts[0]) then Some(ts[0])
    else FirstSat(p, pre, ts[1..])
  }

  /** The result of the search below the prefix `pre`: the first completion, in
      lexicographic order, that satisfies every constraint. */
  ghost function Search(p: Puzzle, pre: seq<int>): (r: Option<seq<int>>)
    requires WellFormed(p) && |pre| <= |p.variables|
    ensures r.Some? ==> |pre| + |r.value| == |p.variables| && Sat(p, pre + r.value)
  {
    FirstSat(p, pre, Tuples(Doms(p)[|pre|..]))
  }

  /** Every tuple of the product takes each value from its variable's domain. */
  lemma {:induction false} TupleInDomains(ds: seq<seq<int>>, t: seq<int>)
    requires t in Tuples(ds)
    ensures |t| == |ds| && forall i :: 0 <= i < |ds| ==> t[i] in ds[i]
    decreases |ds|
  {
    if ds != [] {
      BlockParts(ds[0], Tuples(ds[1..]), t);
      TupleInDomains(ds[1..], t[1..]);
      assert forall i :: 1 <= i < |ds| ==> t[i] == t[1..][i - 1] && ds[i] == ds[1..][i - 1];
    }
  }

  /** Every choice of a value from each domain appears in the product. */
  lemma {:induction false} TupleEnumerated(ds: seq<seq<int>>, t: seq<int>)
    requires |t| == |ds| && forall i :: 0 <= i < |ds| ==> t[i] in ds[i]
    ensures t in Tuples(ds)
    decreases |ds|
  {
    if ds != [] {
      assert forall i :: 0 <= i < |ds| - 1 ==> t[1..][i] == t[i + 1] && ds[1..][i] == ds[i + 1];
      TupleEnumerated(ds[1..], t[1..]);
      BlockHas(ds[0], Tuples(ds[1..]), t);
    }
  }

  lemma {:induction false} BlockParts(vs: seq<int>, ts: seq<seq<int>>, s: seq<int>)
    requires s in Blocks(vs, ts)
    ensures |s| >= 1 && s[0] in vs && s[1..] in ts
    decreases |vs|
  {
    if s in Prepend(vs[0], ts) {
      var i :| 0 <= i < |ts| && Prepend(vs[0], ts)[i] == s;
      assert s[1..] == ts[i];
    } else {
      BlockParts(vs[1..], ts, s);
    }
  }

  lemma {:induction false} BlockHas(vs: seq<int>, ts: seq<seq<int>>, s: seq<int>)
    requires |s| >= 1 && s[0] in vs && s[1..] in ts
    ensures s in Blocks(vs, ts)
    decreases |vs|
  {
    if s[0] == vs[0] {
      var i :| 0 <= i < |ts| && ts[i] == s[1..];
      assert Prepend(vs[0], ts)[i] == s;
    } else {
      BlockHas(vs[1..], ts, s);
    }
  }

  lemma {:induction false} FirstSatConcat(p: Puzzle, pre: seq<int>, a: seq<seq<int>>, b: seq<seq<int>>)
    ensures FirstSat(p, pre, a + b) == if FirstSat(p, pre, a).Some? then FirstSat(p, pre, a) else FirstSat(p, pre, b)
    decreases |a|
  {
    if a != [] {
      assert (a + b)[0] == a[0] && (a + b)[1..] == a[1..] + b;
      FirstSatConcat(p, pre, a[1..], b);
    } else {
      assert a + b == b;
    }
  }

  /** Searching the block of `v` is searching below `pre + [v]`, with `v` put back in front. */
  lemma {:induction false} FirstSatPrepend(p: Puzzle, pre: seq<int>, v: int, ts: seq<seq<int>>)
    ensures FirstSat(p, pre, Prepend(v, ts)) ==
            if FirstSat(p, pre + [v], ts).Some? then Some([v] + FirstSat(p, pre + [v], ts).value) else None
    decreases |ts|
  {
    if ts != [] {
      assert pre + ([v] + ts[0]) == (pre + [v]) + ts[0];
      assert Prepend(v, ts)[1..] == Prepend(v, ts[1..]);
      FirstSatPrepend(p, pre, v, ts[1..]);
    }
  }

  /** Below a prefix that already violates a constraint there is nothing to find. */
  lemma {:induction false} Pruned(p: Puzzle, pre: seq<int>, ts: seq<seq<int>>)
    requires WellFormed(p) && |pre| <= |p.variables| && !Consistent(p.constraints, AsMap(p.variables, pre))
    ensures FirstSat(p, pre, ts) == None
    decreases |ts|
  {
    if ts != [] {
      if Sat(p, pre + ts[0]) {
        AsMapExtends(p.variables, pre, ts[0]);
        ConsistentMonotone(p.constraints, AsMap(p.variables, pre), AsMap(p.variables, pre + ts[0]));
      }
      Pruned(p, pre, ts[1..]);
    }
  }

  /** One value of the loop: the block of `vs[i]` decides the search if it holds a
      completion, and the later blocks do otherwise. */
  lemma SearchStep(p: Puzzle, pre: seq<int>, vs: seq<int>, i: int, ts: seq<seq<int>>)
    requires 0 <= i < |vs|
    ensures FirstSat(p, pre, Blocks(vs[i..], ts)) ==
            if FirstSat(p, pre + [vs[i]], ts).Some? then Some([vs[i]] + FirstSat(p, pre + [vs[i]], ts).value)
            else FirstSat(p, pre, Blocks(vs[i + 1..], ts))
  {
    assert vs[i..][1..] == vs[i + 1..];
    FirstSatConcat(p, pre, Prepend(vs[i], ts), Blocks(vs[i + 1..], ts));
    FirstSatPrepend(p, pre, vs[i], ts);
  }

  /** The search below `pre` is the loop over the next variable's domain. */
  lemma SearchUnfold(p: Puzzle, pre: seq<int>)
    requires WellFormed(p) && |pre| < |p.variables|
    ensures Search(p, pre) ==
            FirstSat(p, pre, Blocks(p.domains[p.variables[|pre|]], Tuples(Doms(p)[|pre| + 1..])))
  {
    var ds := Doms(p)[|pre|..];
    assert ds[0] == p.domains[p.variables[|pre|]] && ds[1..] == Doms(p)[|pre| + 1..];
  }

  /** One value of the domain loop, when the search below it succeeds: the
      search from `pre` succeeds with that value in front. */
  lemma TryFound(p: Puzzle, pre: seq<int>, domain: seq<int>, i: int, rest: seq<seq<int>>, t: seq<int>)
    requires WellFormed(p) && |pre| < |p.variables| && 0 <= i < |domain|
    requires rest == Tuples(Doms(p)[|pre| + 1..])
    requires Search(p, pre) == FirstSat(p, pre, Blocks(domain[i..], rest))
    requires Search(p, pre + [domain[i]]) == Some(t)
    ensures Search(p, pre) == Some([domain[i]] + t)
    ensures (pre + [domain[i]]) + t == pre + ([domain[i]] + t)
  {
    var next := pre + [domain[i]];
    assert Doms(p)[|next|..] == Doms(p)[|pre| + 1..];
    assert FirstSat(p, next, rest) == Some(t);
    SearchStep(p, pre, domain, i, rest);
    Regroup(pre, domain[i], t);
  }

  /** One value of the domain loop, when the search below it fails: the search
      from `pre` is the one over the remaining values. */
  lemma TryMissed(p: Puzzle, pre: seq<int>, domain: seq<int>, i: int, rest: seq<seq<int>>)
    requires WellFormed(p) && |pre| < |p.variables| && 0 <= i < |domain|
    requires rest == Tuples(Doms(p)[|pre| + 1..])
    requires Search(p, pre) == FirstSat(p, pre, Blocks(domain[i..], rest))
    requires Search(p, pre + [domain[i]]).None?
    ensures Search(p, pre) == FirstSat(p, pre, Blocks(domain[i + 1..], rest))
  {
    var next := pre + [domain[i]];
    assert Doms(p)[|next|..] == Doms(p)[|pre| + 1..];
    assert FirstSat(p, next, rest).None?;
    SearchStep(p, pre, domain, i, rest);
  }

  /** The first completion is a satisfying tuple of the product with no
      satisfying tuple before it. */
  lemma {:induction false} FirstSatIsFirst(p: Puzzle, pre: seq<int>, ts: seq<seq<int>>)
    ensures FirstSat(p, pre, ts).Some? ==>
              exists i :: 0 <= i < |ts| && ts[i] == FirstSat(p, pre, ts).value && Sat(p, pre + ts[i]) &&
                          forall j :: 0 <= j < i ==> !Sat(p, pre + ts[j])
    ensures FirstSat(p, pre, ts).None? ==> forall j :: 0 <= j < |ts| ==> !Sat(p, pre + ts[j])
    decreases |ts|
  {
    if ts != [] && !Sat(p, pre + ts[0]) {
      FirstSatIsFirst(p, pre, ts[1..]);
      if FirstSat(p, pre, ts).Some? {
        var i :| 0 <= i < |ts[1..]| && ts[1..][i] == FirstSat(p, pre, ts[1..]).value && Sat(p, pre + ts[1..][i]) &&
                 forall j :: 0 <= j < i ==> !Sat(p, pre + ts[1..][j]);
        assert forall j :: 1 <= j < i + 1 ==> ts[j] == ts[1..][j - 1];
        assert ts[i + 1] == ts[1..][i];
      } else {
        assert forall j :: 1 <= j < |ts| ==> ts[j] == ts[1..][j - 1];
      }
    }
  }

  /** The values of a complete assignment, in declaration order. */
  function ValuesOf(vars: seq<string>, sol: Assignment): seq<int>
    requires forall v :: v in vars ==> v in sol
  {
    seq(|vars|, i requires 0 <= i < |vars| => sol[vars[i]])
  }

  /** The whole search finds a solution exactly when the checker accepts some
      assignment; what it finds is accepted, and it is the first tuple of the
      domain product that the constraints allow. */
  lemma SearchMeaning(p: Puzzle)
    requires WellFormed(p)
    ensures Search(p, []).Some? ==> Verified(p, AsMap(p.variables, Search(p, []).value))
    ensures Search(p, []).None? <==> forall sol :: !Verified(p, sol)
    ensures Search(p, []).Some? ==>
              exists i :: 0 <= i < |Tuples(Doms(p))| && Tuples(Doms(p))[i] == Search(p, []).value &&
                          forall j :: 0 <= j < i ==> !Verified(p, AsMap(p.variables, Tuples(Doms(p))[j]))
  {
    if Search(p, []).Some? {
      SearchFoundMeaning(p);
    } else {
      SearchMissedMeaning(p);
    }
  }

  /** A completion found from the empty prefix is a solution, and the first
      of the enumeration that the checker accepts. */
  lemma SearchFoundMeaning(p: Puzzle)
    requires WellFormed(p) && Search(p, []).Some?
    ensures Verified(p, AsMap(p.variables, Search(p, []).value))
    ensures exists i :: 0 <= i < |Tuples(Doms(p))| && Tuples(Doms(p))[i] == Search(p, []).value &&
                        forall j :: 0 <= j < i ==> !Verified(p, AsMap(p.variables, Tuples(Doms(p))[j]))
  {
    var ts := Tuples(Doms(p));
    assert Doms(p)[0..] == Doms(p);
    FirstSatIsFirst(p, [], ts);
    assert forall t: seq<int> :: [] + t == t;
    TupleVerified(p, Search(p, []).value);
    forall j | 0 <= j < |ts| ensures Verified(p, AsMap(p.variables, ts[j])) ==> Sat(p, ts[j]) {
      TupleVerified(p, ts[j]);
    }
  }

  /** No completion from the empty prefix means no assignment is a solution. */
  lemma SearchMissedMeaning(p: Puzzle)
    requires WellFormed(p) && Search(p, []).None?
    ensures forall sol :: !Verified(p, sol)
  {
    var ts := Tuples(Doms(p));
    assert Doms(p)[0..] == Doms(p);
    FirstSatIsFirst(p, [], ts);
    assert forall t: seq<int> :: [] + t == t;
    forall sol ensures !Verified(p, sol) {
      if Verified(p, sol) {
        var t := SolutionTuple(p, sol);
      }
    }
  }

  /** A tuple of the domain product is accepted by the checker exactly when it satisfies every constraint. */
  lemma TupleVerified(p: Puzzle, t: seq<int>)
    requires WellFormed(p) && t in Tuples(Doms(p))
    ensures |t| == |p.variables| && (Verified(p, AsMap(p.variables, t)) <==> Sat(p, t))
  {
    TupleInDomains(Doms(p), t);
    TupleAssigns(p, t);
  }

  /** The assignment of a tuple of domain values assigns exactly the puzzle's
      variables, each a value of its domain. */
  lemma TupleAssigns(p: Puzzle, t: seq<int>)
    requires WellFormed(p) && |t| == |p.variables|
    requires forall i :: 0 <= i < |t| ==> t[i] in Doms(p)[i]
    ensures forall v :: v in AsMap(p.variables, t) <==> v in p.variables
    ensures forall v :: v in AsMap(p.variables, t) ==> AsMap(p.variables, t)[v] in p.domains[v]
  {
    AsMapAt(p.variables, t);
    var m := AsMap(p.variables, t);
    forall v | v in m ensures m[v] in p.domains[v] {
      var i :| 0 <= i < |t| && p.variables[i] == v;
    }
  }

  /** Every accepted solution is the assignment of a tuple of the domain product. */
  lemma SolutionTuple(p: Puzzle, sol: Assignment) returns (t: seq<int>)
    requires WellFormed(p) && Verified(p, sol)
    ensures t in Tuples(Doms(p)) && AsMap(p.variables, t) == sol && Sat(p, t)
  {
    t := ValuesOf(p.variables, sol);
    TupleEnumerated(Doms(p), t);
    ValuesRebuild(p.variables, sol);
  }

  /** A map on exactly the distinct names `vars` is rebuilt from its values. */
  lemma ValuesRebuild(vars: seq<string>, sol: Assignment)
    requires DistinctNames(vars) && forall v :: v in sol <==> v in vars
    ensures AsMap(vars, ValuesOf(vars, sol)) == sol
  {
    var t := ValuesOf(vars, sol);
    AsMapAt(vars, t);
    var m := AsMap(vars, t);
    forall v ensures v in m <==> v in sol {
      if v in sol {
        var i :| 0 <= i < |vars| && vars[i] == v;
      }
    }
    forall v | v in m ensures m[v] == sol[v] {
      var i :| 0 <= i < |t| && vars[i] == v;
    }
  }

  /** Assigning the next variable extends the prefix by one value, and deleting
      it again gives back the prefix's assignment. */
  lemma AssignNext(vars: seq<string>, pre: seq<int>, value: int)
    requires DistinctNames(vars) && |pre| < |vars|
    ensures AsMap(vars, pre)[vars[|pre|] := value] == AsMap(vars, pre + [value])
    ensures AsMap(vars, pre + [value]) - {vars[|pre|]} == AsMap(vars, pre)
  {
    assert (pre + [value])[..|pre|] == pre;
    NotYetAssigned(vars, pre, |pre|);
    var m := AsMap(vars, pre);
    assert m[vars[|pre|] := value] - {vars[|pre|]} == m;
  }

  /** A variable after the assigned prefix is not in the prefix's assignment. */
  lemma {:induction false} NotYetAssigned(vars: seq<string>, vals: seq<int>, n: int)
    requires DistinctNames(vars) && |vals| <= n < |vars|
    ensures vars[n] !in AsMap(vars, vals)
    decreases |vals|
  {
    if vals != [] {
      NotYetAssigned(vars, vals[..|vals| - 1], n);
      DistinctPrefix(vars, n);
      assert vars[|vals| - 1] != vars[n];
    }
  }

  lemma AsMapSize(vars: seq<string>, vals: seq<int>)
    requires |vals| <= |vars| && DistinctNames(vars)
    ensures |AsMap(vars, vals)| == |vals|
  {
    AsMapAt(vars, vals);
  }

  lemma Regroup(pre: seq<int>, v: int, t: seq<int>)
    ensures (pre + [v]) + t == pre + ([v] + t)
  {
  }

  /** With every variable assigned, the search only checks the constraints. */
  lemma SearchComplete(p: Puzzle, pre: seq<int>)
    requires WellFormed(p) && |pre| == |p.variables|
    ensures Search(p, pre) == if Sat(p, pre) then Some([]) else None
    ensures AsMap(p.variables, pre + []) == AsMap(p.variables, pre)
  {
    assert Doms(p)[|pre|..] == [];
    assert pre + [] == pre;
  }

  /** The variable the solver picks next is the one after the assigned prefix. */
  lemma SelectNext(vars: seq<string>, pre: seq<int>)
    requires DistinctNames(vars) && |pre| < |vars|
    ensures SelectUnassigned(vars, AsMap(vars, pre)) == Some(vars[|pre|])
  {
    AsMapAt(vars, pre);
    DistinctPrefix(vars, |pre|);
    var asg := AsMap(vars, pre);
    var name := SelectUnassigned(vars, asg);
    assert vars[|pre|] !in asg;
    var i :| 0 <= i < |vars| && vars[i] == name.value && name.value !in asg &&
             forall j :: 0 <= j < i ==> vars[j] in asg;
    assert i == |pre|;
  }

  // ---------------------------------------------------------------------
  // The solver
  // ---------------------------------------------------------------------

  /** The first variable, in declaration order, that the assignment leaves unassigned. */
  function SelectUnassigned(vars: seq<string>, asg: Assignment): (r: Option<string>)
    ensures r.None? <==> forall v :: v in vars ==> v in asg
    ensures r.Some? ==> exists i :: 0 <= i < |vars| && vars[i] == r.value && r.value !in asg &&
                                    forall j :: 0 <= j < i ==> vars[j] in asg
  {
    if vars == [] then None
    else if vars[0] !in asg then Some(vars[0])
    else
      var r := SelectUnassigned(vars[1..], asg);
      if r.Some? then
        var i :| 0 <= i < |vars[1..]| && vars[1..][i] == r.value && r.value !in asg &&
                 forall j :: 0 <= j < i ==> vars[1..][j] in asg;
        assert vars[i + 1] == r.value && forall j :: 1 <= j < i + 1 ==> vars[j] == vars[1..][j - 1];
        r
      else r
  }

  /** What a search below `pre` leaves behind: a result exactly when the search
      specification finds one, that result being the assignment in place and the
      assignment of `pre` followed by the completion found; on failure the
      assignment as it was. */
  ghost predicate Outcome(p: Puzzle, pre: seq<int>, result: Option<Assignment>, asg: Assignment, before: Assignment)
    requires WellFormed(p) && |pre| <= |p.variables|
  {
    match Search(p, pre)
    case None => result.None? && asg == before
    case Some(t) => result == Some(asg) && asg == AsMap(p.variables, pre + t)
  }

  class Solver {
    const puzzle: Puzzle
    /** The assignment dictionary `solve` creates and `_backtrack` changes in place. */
    var assignment: Assignment
    var backtracks: int
    var nodesExpanded: int

    constructor (p: Puzzle)
      ensures puzzle == p && backtracks == 0 && nodesExpanded == 0 && assignment == map[]
    {
      puzzle := p;
      backtracks := 0;
      nodesExpanded := 0;
      assignment := map[];
    }

    /** Solve from the empty assignment; the counters start again at zero. */
    method Solve() returns (result: Option<Assignment>)
      requires WellFormed(puzzle)
      modifies this
      ensures result.Some? ==> Search(puzzle, []).Some? && result.value == AsMap(puzzle.variables, Search(puzzle, []).value)
      ensures result.Some? ==> Verified(puzzle, result.value)
      ensures result.None? <==> forall sol :: !Verified(puzzle, sol)
    {
      backtracks := 0;
      nodesExpanded := 0;
      assignment := map[];
      result := Backtrack([]);
      if result.Some? {
        assert [] + Search(puzzle, []).value == Search(puzzle, []).value;
      }
      SearchMeaning(puzzle);
    }

    /** Chronological backtracking from the assignment of `pre`: on success the
        assignment is the first satisfying completion in lexicographic order; on
        failure it is as it was on entry. */
    method Backtrack(ghost pre: seq<int>) returns (result: Option<Assignment>)
      requires WellFormed(puzzle) && |pre| <= |puzzle.variables| && assignment == AsMap(puzzle.variables, pre)
      modifies this
      ensures Outcome(puzzle, pre, result, assignment, old(assignment))
      decreases |puzzle.variables| - |pre|, 1
    {
      nodesExpanded := nodesExpanded + 1;
      AsMapSize(puzzle.variables, pre);
      if |assignment| == |puzzle.variables| {
        var ok := IsConsistent(assignment);
        SearchComplete(puzzle, pre);
        if ok {
          return Some(assignment);
        }
        return None;
      }
      var name := SelectUnassigned(puzzle.variables, assignment);
      SelectNext(puzzle.variables, pre);
      result := TryValues(pre, name.value, puzzle.domains[name.value]);
    }

    /** The loop of `Backtrack` over the domain of the variable `name` it picked:
        each value is assigned, kept for the recursive search while every
        constraint still holds, and deleted again when that search fails. */
    method TryValues(ghost pre: seq<int>, name: string, domain: seq<int>) returns (result: Option<Assignment>)
      requires WellFormed(puzzle) && |pre| < |puzzle.variables| && assignment == AsMap(puzzle.variables, pre)
      requires name == puzzle.variables[|pre|] && domain == puzzle.domains[name]
      modifies this
      ensures Outcome(puzzle, pre, result, assignment, old(assignment))
      decreases |puzzle.variables| - |pre|, 0
    {
      ghost var rest := Tuples(Doms(puzzle)[|pre| + 1..]);
      SearchUnfold(puzzle, pre);
      var i := 0;
      while i < |domain|
        invariant i <= |domain| && assignment == old(assignment)
        invariant Search(puzzle, pre) == FirstSat(puzzle, pre, Blocks(domain[i..], rest))
      {
        var value := domain[i];
        AssignNext(puzzle.variables, pre, value);
        assignment := assignment[name := value];
        var ok := IsConsistent(assignment);
        if ok {
          result := Backtrack(pre + [value]);
          if result.Some? {
            TryFound(puzzle, pre, domain, i, rest, Search(puzzle, pre + [value]).value);
            return result;
          }
        } else {
          assert Doms(puzzle)[|pre + [value]|..] == Doms(puzzle)[|pre| + 1..];
          Pruned(puzzle, pre + [value], rest);
        }
        TryMissed(puzzle, pre, domain, i, rest);
        backtracks := backtracks + 1;
        assignment := assignment - {name};
        i := i + 1;
      }
      assert domain[i..] == [];
      return None;
    }

    /** Every constraint holds for the assignment. */
    method IsConsistent(asg: Assignment) returns (ok: bool)
      ensures ok == Consistent(puzzle.constraints, asg)
    {
      var i := 0;
      while i < |puzzle.constraints|
        invariant 0 <= i <= |puzzle.constraints|
        invariant forall k :: 0 <= k < i ==> Holds(puzzle.constraints[k], asg)
      {
        if !Holds(puzzle.constraints[i], asg) {
          return false;
        }
        i := i + 1;
      }
      return true;
    }

    /** A proposed solution is accepted when it assigns exactly the puzzle's
        variables, every value lies in its domain, and every constraint holds. */
    method VerifySolution(sol: Assignment) returns (ok: bool)
      requires WellFormed(puzzle)
      ensures ok == Verified(puzzle, sol)
    {
      if sol.Keys != (set v | v in puzzle.variables) {
        return false;
      }
      var pending := sol.Keys;
      while pending != {}
        invariant pending <= sol.Keys
        invariant forall v :: v in sol && v !in pending ==> sol[v] in puzzle.domains[v]
        decreases |pending|
      {
        var name :| name in pending;
        if sol[name] !in puzzle.domains[name] {
          return false;
        }
        pending := pending - {name};
      }
      ok := IsConsistent(sol);
    }
  }
}
