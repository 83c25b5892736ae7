/** One search worker: the occurrence index it builds, the delta evaluator, the Novelty++-style
    variable choice, the flip step that keeps the cached clause states exact, and the
    restart/step loop that publishes improvements to the shared best result. */
module Search {
  import opened Clauses
  import opened Occurrences
  import opened Deltas
  import opened Ranking
  import opened Coordinator

  /** The random draws one search step consumes: the index drawn among the unsatisfied
      clauses, whether the draw fell under the diversification threshold, whether the
      anti-thrash draw fell under its threshold, and whether the deadline had passed. */
  datatype Draw = Draw(clausePick: nat, diversify: bool, antiThrash: bool, pastDeadline: bool)

  /** One restart: its random assignment and the draws of its MAX_STEPS steps. */
  datatype Round = Round(assignment: seq<bool>, draws: seq<Draw>)

  datatype Outcome = Solved | TimedOut | RoundsExhausted

  const MAX_STEPS: nat := 10000

  /** The flip counts after one more flip of variable v. */
  function CountFlip(flips: seq<int>, v: int): seq<int>
    requires 1 <= v <= |flips|
  {
    flips[v - 1 := flips[v - 1] + 1]
  }

  /** The deadline check of step j: on every hundredth step, whether the deadline had passed. */
  predicate DeadlineHit(draw: Draw, j: int)
  {
    j % 100 == 0 && draw.pastDeadline
  }

  /** None of the first n steps of draws meets the deadline check. */
  predicate NoDeadline(draws: seq<Draw>, n: int)
    requires n <= |draws|
  {
    forall j :: 0 <= j < n ==> !DeadlineHit(draws[j], j)
  }

  /** A step that misses the deadline check extends a prefix that misses it. */
  lemma NoDeadlineStep(draws: seq<Draw>, n: int)
    requires 0 <= n < |draws| && NoDeadline(draws, n) && !DeadlineHit(draws[n], n)
    ensures NoDeadline(draws, n + 1)
  {
  }

  /** Every draw fits clauses of the given width: a greedy draw needs two literals. */
  predicate DrawsFit(width: nat, draws: seq<Draw>)
  {
    forall j :: 0 <= j < |draws| ==> width >= (if draws[j].diversify then 1 else 2)
  }

  /** Positions of the false entries of states, in order. */
  function Unsatisfied(states: seq<bool>): seq<nat>
  {
    if states == [] then []
    else
      var k := |states| - 1;
      Unsatisfied(states[..k]) + (if states[k] then [] else [k])
  }

  /** Unsatisfied lists exactly the positions of the false entries. */
  lemma {:induction false} UnsatisfiedMembers(states: seq<bool>)
    ensures var r := Unsatisfied(states);
      && (forall i :: 0 <= i < |r| ==> r[i] < |states| && !states[r[i]])
      && (forall c :: 0 <= c < |states| && !states[c] ==> c in r)
  {
    if states != [] {
      var k := |states| - 1;
      UnsatisfiedMembers(states[..k]);
      assert forall c :: 0 <= c < k ==> states[..k][c] == states[c];
    }
  }

  /** The diversification order: fewest flips first. */
  function DiversifyEntries(vars: seq<int>, flips: seq<int>): seq<Entry>
    requires forall i :: 0 <= i < |vars| ==> 1 <= vars[i] <= |flips|
  {
    seq(|vars|, i requires 0 <= i < |vars| => Entry(vars[i], Rank(flips[vars[i] - 1], 0)))
  }

  /** vars[i] has the fewest flips among vars, and every earlier variable has more. */
  predicate FewestFlips(vars: seq<int>, flips: seq<int>, i: int)
    requires 0 <= i < |vars| && forall k :: 0 <= k < |vars| ==> 1 <= vars[k] <= |flips|
  {
    && (forall j :: 0 <= j < |vars| ==> flips[vars[i] - 1] <= flips[vars[j] - 1])
    && (forall j :: 0 <= j < i ==> flips[vars[j] - 1] > flips[vars[i] - 1])
  }

  /** The head of the diversification order is the earliest variable with fewest flips. */
  lemma DiversifyChoice(vars: seq<int>, flips: seq<int>)
    requires |vars| > 0 && forall i :: 0 <= i < |vars| ==> 1 <= vars[i] <= |flips|
    ensures var e := DiversifyEntries(vars, flips);
      var i := FirstMin(e);
      && i < |vars| && StableSort(e)[0].variable == vars[i] && FewestFlips(vars, flips, i)
  {
    var e := DiversifyEntries(vars, flips);
    var i := FirstMin(e);
    SortHead(e);
    forall j | 0 <= j < |vars|
      ensures flips[vars[i] - 1] <= flips[vars[j] - 1]
    {
      assert RankLe(e[i].rank, e[j].rank);
    }
    forall j | 0 <= j < i
      ensures flips[vars[j] - 1] > flips[vars[i] - 1]
    {
      assert !RankLe(e[j].rank, e[i].rank);
    }
  }

  /** m and m0 have the same keys and the same lists outside the variables vars. */
  ghost predicate AgreeOutside(m: map<int, seq<nat>>, m0: map<int, seq<nat>>, vars: seq<int>)
  {
    forall v :: v !in vars ==> (v in m <==> v in m0) && (v in m ==> m[v] == m0[v])
  }

  /** m with the entry of each variable of vars, in order, set to that variable's list under f. */
  function Overwrite(m: map<int, seq<nat>>, vars: seq<int>, f: int -> seq<nat>): map<int, seq<nat>>
  {
    if vars == [] then m
    else
      var k := |vars| - 1;
      Overwrite(m, vars[..k], f)[vars[k] := f(vars[k])]
  }

  /** Every variable of vars ends with its list under f, and no other entry changes. */
  lemma {:induction false} OverwriteMeaning(m: map<int, seq<nat>>, vars: seq<int>, f: int -> seq<nat>)
    ensures var r := Overwrite(m, vars, f);
      && (forall i :: 0 <= i < |vars| ==> vars[i] in r && r[vars[i]] == f(vars[i]))
      && AgreeOutside(r, m, vars)
  {
    if vars != [] {
      var k := |vars| - 1;
      var prefix := vars[..k];
      OverwriteMeaning(m, prefix, f);
      var p := Overwrite(m, prefix, f);
      var r := p[vars[k] := f(vars[k])];
      forall i | 0 <= i < |vars|
        ensures vars[i] in r && r[vars[i]] == f(vars[i])
      {
        if vars[i] != vars[k] {
          assert prefix[i] == vars[i];
        }
      }
      forall v | v !in vars
        ensures (v in r <==> v in m) && (v in r ==> r[v] == m[v])
      {
        assert v !in prefix && v != vars[k];
      }
    }
  }

  /** getScore: newly satisfied minus newly unsatisfied for the variable of a literal, read
      from the delta maps ns (newly satisfied) and nu (newly unsatisfied). */
  function Score(ns: map<int, seq<nat>>, nu: map<int, seq<nat>>, variable: int): (r: int)
    requires Abs(variable) in ns && Abs(variable) in nu
    ensures -|nu[Abs(variable)]| <= r <= |ns[Abs(variable)]|
  {
    |ns[Abs(variable)]| - |nu[Abs(variable)]|
  }

  /** Every variable of vars is a valid index into flips and has both delta lists. */
  predicate Ranked(vars: seq<int>, flips: seq<int>, ns: map<int, seq<nat>>, nu: map<int, seq<nat>>)
  {
    forall i :: 0 <= i < |vars| ==> 1 <= vars[i] <= |flips| && vars[i] in ns && vars[i] in nu
  }

  /** The greedy order: highest score first, then fewest flips. */
  function GreedyEntries(vars: seq<int>, flips: seq<int>, ns: map<int, seq<nat>>, nu: map<int, seq<nat>>): (r: seq<Entry>)
    requires Ranked(vars, flips, ns, nu)
    ensures |r| == |vars|
    ensures forall i :: 0 <= i < |vars| ==> r[i] == Entry(vars[i], Rank(-Score(ns, nu, vars[i]), flips[vars[i] - 1]))
  {
    if vars == [] then []
    else [Entry(vars[0], Rank(-Score(ns, nu, vars[0]), flips[vars[0] - 1]))] + GreedyEntries(vars[1..], flips, ns, nu)
  }

  /** vars[i] ranks no worse than vars[j] in the greedy order: a higher score, or the same
      score and no more flips. */
  predicate NoWorse(vars: seq<int>, flips: seq<int>, ns: map<int, seq<nat>>, nu: map<int, seq<nat>>, i: int, j: int)
    requires Ranked(vars, flips, ns, nu) && 0 <= i < |vars| && 0 <= j < |vars|
  {
    || Score(ns, nu, vars[j]) < Score(ns, nu, vars[i])
    || (Score(ns, nu, vars[j]) == Score(ns, nu, vars[i]) && flips[vars[i] - 1] <= flips[vars[j] - 1])
  }

  /** vars[t] ranks no worse than every variable, and strictly better than every earlier one. */
  predicate GreedyBest(vars: seq<int>, flips: seq<int>, ns: map<int, seq<nat>>, nu: map<int, seq<nat>>, t: int)
    requires Ranked(vars, flips, ns, nu) && 0 <= t < |vars|
  {
    && (forall j :: 0 <= j < |vars| ==> NoWorse(vars, flips, ns, nu, t, j))
    && (forall j :: 0 <= j < t ==> !NoWorse(vars, flips, ns, nu, j, t))
  }

  /** vars[u], at a position other than t, ranks no worse than every position but t, and
      strictly better than every earlier position but t. */
  predicate GreedyNext(vars: seq<int>, flips: seq<int>, ns: map<int, seq<nat>>, nu: map<int, seq<nat>>, t: int, u: int)
    requires Ranked(vars, flips, ns, nu) && 0 <= t < |vars| && 0 <= u < |vars|
  {
    && u != t
    && (forall j :: 0 <= j < |vars| && j != t ==> NoWorse(vars, flips, ns, nu, u, j))
    && (forall j :: 0 <= j < u && j != t ==> !NoWorse(vars, flips, ns, nu, j, u))
  }

  /** The greedy order on entries is the order NoWorse on variables. */
  lemma GreedyOrder(vars: seq<int>, flips: seq<int>, ns: map<int, seq<nat>>, nu: map<int, seq<nat>>, i: int, j: int)
    requires Ranked(vars, flips, ns, nu) && 0 <= i < |vars| && 0 <= j < |vars|
    ensures var e := GreedyEntries(vars, flips, ns, nu);
      RankLe(e[i].rank, e[j].rank) <==> NoWorse(vars, flips, ns, nu, i, j)
  {
    var e := GreedyEntries(vars, flips, ns, nu);
    assert e[i].rank == Rank(-Score(ns, nu, vars[i]), flips[vars[i] - 1]);
    assert e[j].rank == Rank(-Score(ns, nu, vars[j]), flips[vars[j] - 1]);
  }

  /** The top of the greedy order is a variable of highest score, with the fewest flips among
      those of highest score, and the earliest such variable in literal order. */
  lemma GreedyTop(vars: seq<int>, flips: seq<int>, ns: map<int, seq<nat>>, nu: map<int, seq<nat>>)
    requires |vars| > 0 && Ranked(vars, flips, ns, nu)
    ensures var i := FirstMin(GreedyEntries(vars, flips, ns, nu));
      i < |vars| && GreedyBest(vars, flips, ns, nu, i)
  {
    var e := GreedyEntries(vars, flips, ns, nu);
    var i := FirstMin(e);
    forall j | 0 <= j < |vars|
      ensures NoWorse(vars, flips, ns, nu, i, j)
    {
      GreedyOrder(vars, flips, ns, nu, i, j);
    }
    forall j | 0 <= j < i
      ensures !NoWorse(vars, flips, ns, nu, j, i)
    {
      GreedyOrder(vars, flips, ns, nu, j, i);
    }
  }

  /** The entry at the next position of the greedy order: with the top (position t) removed,
      the first minimum of the rest sits at a position u with GreedyNext. vars[u] is the top's
      own variable when the clause repeats it. */
  lemma GreedyRunnerUp(vars: seq<int>, flips: seq<int>, ns: map<int, seq<nat>>, nu: map<int, seq<nat>>) returns (u: int)
    requires |vars| >= 2 && Ranked(vars, flips, ns, nu)
    ensures var e := GreedyEntries(vars, flips, ns, nu);
      var t := FirstMin(e);
      var rest := RemoveAt(e, t);
      && 0 <= u < |vars| && rest[FirstMin(rest)].variable == vars[u]
      && GreedyNext(vars, flips, ns, nu, t, u)
  {
    var e := GreedyEntries(vars, flips, ns, nu);
    var t := FirstMin(e);
    u := NextMin(e, t);
    assert e[u].variable == vars[u];
    forall j | 0 <= j < |vars| && j != t
      ensures NoWorse(vars, flips, ns, nu, u, j)
    {
      GreedyOrder(vars, flips, ns, nu, u, j);
    }
    forall j | 0 <= j < u && j != t
      ensures !NoWorse(vars, flips, ns, nu, j, u)
    {
      GreedyOrder(vars, flips, ns, nu, j, u);
    }
  }

  /** heuristic's pick among the variables of clause, given the flip counts flips, the delta
      maps ns and nu, the two draws and the variable flipped last: on the diversification draw
      the head of the flip-count order; otherwise the head of the greedy order, or the
      next entry when the head is the variable flipped last and the anti-thrash draw holds. */
  function Pick(clause: Clause, flips: seq<int>, ns: map<int, seq<nat>>, nu: map<int, seq<nat>>,
                diversify: bool, antiThrash: bool, last: int): int
    requires ClauseValid(clause, |flips|) && |clause.literals| >= (if diversify then 1 else 2)
    requires !diversify ==> Ranked(clause.absoluteLiterals, flips, ns, nu)
  {
    if diversify then StableSort(DiversifyEntries(clause.absoluteLiterals, flips))[0].variable
    else
      var sorted := StableSort(GreedyEntries(clause.absoluteLiterals, flips, ns, nu));
      if sorted[0].variable != last || !antiThrash then sorted[0].variable else sorted[1].variable
  }

  /** What the pick means. It is a variable of the clause. On the diversification draw it is the
      earliest variable with fewest flips. Otherwise, with t the earliest variable of highest
      score and fewest flips: it is vars[t], unless vars[t] is the variable flipped last and the
      anti-thrash draw holds, in which case it is vars[u] for the position u of GreedyNext: other
      than t, no worse than every position but t and strictly better than every earlier position
      but t (the same variable when the clause repeats it). */
  lemma PickMeaning(clause: Clause, flips: seq<int>, ns: map<int, seq<nat>>, nu: map<int, seq<nat>>,
                    diversify: bool, antiThrash: bool, last: int)
    requires ClauseValid(clause, |flips|) && |clause.literals| >= (if diversify then 1 else 2)
    requires !diversify ==> Ranked(clause.absoluteLiterals, flips, ns, nu)
    ensures var v := Pick(clause, flips, ns, nu, diversify, antiThrash, last);
      var vars := clause.absoluteLiterals;
      && v in vars && 1 <= v <= |flips|
      && (diversify ==> exists i :: 0 <= i < |vars| && v == vars[i] && FewestFlips(vars, flips, i))
      && (!diversify ==> exists t :: (0 <= t < |vars| && GreedyBest(vars, flips, ns, nu, t) &&
            (vars[t] != last || !antiThrash ==> v == vars[t]) &&
            (vars[t] == last && antiThrash ==>
               exists u :: 0 <= u < |vars| && v == vars[u] && GreedyNext(vars, flips, ns, nu, t, u))))
  {
    var vars := clause.absoluteLiterals;
    var v := Pick(clause, flips, ns, nu, diversify, antiThrash, last);
    if diversify {
      DiversifyChoice(vars, flips);
      var i := FirstMin(DiversifyEntries(vars, flips));
      assert v == vars[i];
    } else {
      var e := GreedyEntries(vars, flips, ns, nu);
      var t := FirstMin(e);
      GreedyTop(vars, flips, ns, nu);
      var u := GreedyRunnerUp(vars, flips, ns, nu);
      SortFirstTwo(e);
      assert e[t].variable == vars[t];
      assert v == vars[t] || v == vars[u];
    }
  }

  /** The position of the pick among the clause's variables. */
  lemma PickIndex(clause: Clause, flips: seq<int>, ns: map<int, seq<nat>>, nu: map<int, seq<nat>>,
                  diversify: bool, antiThrash: bool, last: int) returns (k: int)
    requires ClauseValid(clause, |flips|) && |clause.literals| >= (if diversify then 1 else 2)
    requires !diversify ==> Ranked(clause.absoluteLiterals, flips, ns, nu)
    ensures 0 <= k < |clause.literals| && clause.absoluteLiterals[k] == Pick(clause, flips, ns, nu, diversify, antiThrash, last)
  {
    PickMeaning(clause, flips, ns, nu, diversify, antiThrash, last);
    var v := Pick(clause, flips, ns, nu, diversify, antiThrash, last);
    k :| 0 <= k < |clause.literals| && clause.absoluteLiterals[k] == v;
  }

  /** A clause that repeats its top-ranked variable: the entry at the next position of the greedy
      order is that same variable, so the anti-thrash draw flips again the variable flipped last.
      In (1 ∨ 1 ∨ ¬2) under x1 = false, x2 = true, after flipping 1: the what-if pass lists the
      clause twice under variable 1 (score 2) and once under variable 2 (score 1). */
  lemma RepeatedTopReflips()
    ensures var clause := Clause([1, 1, -2], [1, 1, 2]);
      var ns, nu := map[1 := [0, 0], 2 := [0]], map[1 := [], 2 := []];
      && Ranked(clause.absoluteLiterals, [0, 0], ns, nu)
      && Pick(clause, [0, 0], ns, nu, false, true, 1) == 1
  {
    var ns, nu := map[1 := [0, 0], 2 := [0]], map[1 := [], 2 := []];
    var e := GreedyEntries([1, 1, 2], [0, 0], ns, nu);
    var top, low := Entry(1, Rank(-2, 0)), Entry(2, Rank(-1, 0));
    assert e == [top, top, low];
    assert StableSort([low]) == [low];
    assert StableSort(e[1..]) == [top, low] by { assert e[1..] == [top, low]; assert [top, low][1..] == [low]; }
    assert StableSort(e) == [top, top, low];
  }

  /** selectClauseFromUnsatisfiedClauses's choice: the drawn position, reduced below their
      number, among the clauses cached as unsatisfied. */
  function PickClause(states: seq<bool>, pick: nat): (c: nat)
    requires false in states
    ensures c < |states| && !states[c]
  {
    UnsatisfiedMembers(states);
    var unsatisfied := Unsatisfied(states);
    unsatisfied[pick % |unsatisfied|]
  }

  class Solver {
    const variableCount: nat
    const literalCountPerClause: nat
    const clauseCount: nat
    const clauses: seq<Clause>
    /** Variable id to the indices of the clauses that mention it, once per literal. */
    const occurrences: map<int, seq<nat>>
    /** The cached satisfaction state of each clause. */
    const clauseState: array<bool>
    /** Per variable of the last selected clause: the clauses its flip would newly satisfy. */
    var newlySatisfied: map<int, seq<nat>>
    /** Per variable of the last selected clause: the clauses its flip would newly unsatisfy. */
    var newlyUnsatisfied: map<int, seq<nat>>
    var recentlyFlipped: int

    ghost predicate Valid()
    {
      && |clauses| == clauseCount == clauseState.Length
      && WellFormed(clauses, variableCount)
      && (forall k :: 0 <= k < clauseCount ==> |clauses[k].literals| == literalCountPerClause)
      && (forall v :: v in occurrences <==> 1 <= v <= variableCount)
      && (forall v :: 1 <= v <= variableCount ==> occurrences[v] == Occ(clauses, v))
    }

    /** The worker's constructor: copies the clauses and builds the occurrence index. */
    constructor (variableCount: nat, literalCountPerClause: nat, literals: seq<seq<int>>)
      requires forall k :: 0 <= k < |literals| ==>
        |literals[k]| == literalCountPerClause && LiteralsInRange(literals[k], variableCount)
      ensures Valid()
      ensures this.variableCount == variableCount && this.literalCountPerClause == literalCountPerClause
      ensures clauseCount == |literals| && forall k :: 0 <= k < |literals| ==> clauses[k].literals == literals[k]
      ensures fresh(clauseState)
      ensures newlySatisfied == map[] && newlyUnsatisfied == map[] && recentlyFlipped == 1
    {
      var cs: seq<Clause> := [];
      for k := 0 to |literals|
        invariant |cs| == k
        invariant forall i :: 0 <= i < k ==> cs[i].literals == literals[i] && ClauseValid(cs[i], variableCount)
      {
        var c := NewClause(literals[k]);
        cs := cs + [c];
      }
      var occ := BuildOccurrences(cs, variableCount);
      this.variableCount := variableCount;
      this.literalCountPerClause := literalCountPerClause;
      clauseCount := |literals|;
      clauses := cs;
      occurrences := occ;
      clauseState := new bool[|literals|];
      newlySatisfied := map[];
      newlyUnsatisfied := map[];
      recentlyFlipped := 1;
    }

    /** In the delta maps ns and nu, the lists of variable v are the ones the cached states st
        and the assignment a give. */
    ghost predicate DeltasIn(ns: map<int, seq<nat>>, nu: map<int, seq<nat>>, v: int, a: seq<bool>, st: seq<bool>)
      requires Valid() && |a| == variableCount && |st| == clauseCount && 1 <= v <= variableCount
    {
      && v in ns && v in nu
      && ns[v] == Gains(clauses, st, Flip(a, v), occurrences[v])
      && nu[v] == Losses(clauses, st, Flip(a, v), occurrences[v])
    }

    /** The delta lists of variable v are the ones the current cached states and assignment a give. */
    ghost predicate DeltasFor(v: int, a: seq<bool>)
      reads this, clauseState
      requires Valid() && |a| == variableCount && 1 <= v <= variableCount
    {
      DeltasIn(newlySatisfied, newlyUnsatisfied, v, a, clauseState[..])
    }

    /** The what-if list of variable v under assignment a and cached states st: the clauses of
        its occurrence list that flipping v newly satisfies (gains) or newly unsatisfies (not gains). */
    ghost function WhatIf(v: int, a: seq<bool>, st: seq<bool>, gains: bool): seq<nat>
      requires Valid() && |a| == variableCount && |st| == clauseCount && 1 <= v <= variableCount
    {
      if gains then Gains(clauses, st, Flip(a, v), occurrences[v]) else Losses(clauses, st, Flip(a, v), occurrences[v])
    }

    /** The what-if lists under assignment a and cached states st, as a function of the variable
        (empty outside the variables). */
    ghost function WhatIfOf(a: seq<bool>, st: seq<bool>, gains: bool): int -> seq<nat>
      requires Valid() && |a| == variableCount && |st| == clauseCount
    {
      v => if 1 <= v <= variableCount then WhatIf(v, a, st, gains) else []
    }

    /** The delta maps after the what-if evaluation of the variables vars under assignment a and
        cached states st: each variable's entry, in order, replaced by its newly satisfied
        (gains) or newly unsatisfied (not gains) clause list. */
    ghost function Refreshed(m: map<int, seq<nat>>, vars: seq<int>, a: seq<bool>, st: seq<bool>, gains: bool): map<int, seq<nat>>
      requires Valid() && |a| == variableCount && |st| == clauseCount
    {
      Overwrite(m, vars, WhatIfOf(a, st, gains))
    }

    /** Every variable of vars has its fresh list, and no other entry of the map changes. */
    lemma RefreshedMeaning(m: map<int, seq<nat>>, vars: seq<int>, a: seq<bool>, st: seq<bool>, gains: bool)
      requires Valid() && |a| == variableCount && |st| == clauseCount
      requires forall i :: 0 <= i < |vars| ==> 1 <= vars[i] <= variableCount
      ensures var r := Refreshed(m, vars, a, st, gains);
        && (forall i :: 0 <= i < |vars| ==> vars[i] in r && r[vars[i]] == WhatIf(vars[i], a, st, gains))
        && AgreeOutside(r, m, vars)
    {
      OverwriteMeaning(m, vars, WhatIfOf(a, st, gains));
    }

    /** Every variable of vars has an entry after the evaluation. */
    lemma RefreshedKeys(m: map<int, seq<nat>>, vars: seq<int>, a: seq<bool>, st: seq<bool>, gains: bool)
      requires Valid() && |a| == variableCount && |st| == clauseCount
      ensures forall i :: 0 <= i < |vars| ==> vars[i] in Refreshed(m, vars, a, st, gains)
    {
      OverwriteMeaning(m, vars, WhatIfOf(a, st, gains));
    }

    /** The entry of the i-th variable of vars after the evaluation. */
    lemma RefreshedAt(m: map<int, seq<nat>>, vars: seq<int>, a: seq<bool>, st: seq<bool>, gains: bool, i: int)
      requires Valid() && |a| == variableCount && |st| == clauseCount
      requires forall i :: 0 <= i < |vars| ==> 1 <= vars[i] <= variableCount
      requires 0 <= i < |vars|
      ensures var v := vars[i];
        v in Refreshed(m, vars, a, st, gains) &&
        Refreshed(m, vars, a, st, gains)[v] ==
          if gains then Gains(clauses, st, Flip(a, v), occurrences[v]) else Losses(clauses, st, Flip(a, v), occurrences[v])
    {
      RefreshedMeaning(m, vars, a, st, gains);
    }

    /** The what-if evaluation of one variable: flips it in a copy of the assignment and
        re-evaluates each clause of its occurrence list against the cached state. */
    method VariableDeltas(globalState: seq<bool>, variable: int) returns (sat: seq<nat>, unsat: seq<nat>)
      requires Valid() && |globalState| == variableCount && 1 <= variable <= variableCount
      ensures sat == Gains(clauses, clauseState[..], Flip(globalState, variable), occurrences[variable])
      ensures unsat == Losses(clauses, clauseState[..], Flip(globalState, variable), occurrences[variable])
    {
      var mutatedState := Flip(globalState, variable);
      var occ := occurrences[variable];
      sat, unsat := [], [];
      for k := 0 to |occ|
        invariant sat == Gains(clauses, clauseState[..], mutatedState, occ[..k])
        invariant unsat == Losses(clauses, clauseState[..], mutatedState, occ[..k])
      {
        assert occ[..k + 1][..k] == occ[..k];
        var c := occ[k];
        var potentialState := EvaluateState(clauses[c], mutatedState);
        if !clauseState[c] && potentialState {
          sat := sat + [c];
        } else if clauseState[c] && !potentialState {
          unsat := unsat + [c];
        }
      }
      assert occ[..|occ|] == occ;
    }

    /** What-if evaluation: for each variable of the selected clause, flips it in a copy of the
        assignment and records which of its clauses would go false to true and true to false.
        Neither the cached states nor the assignment change. */
    method UpdateSatisfactionMaps(globalState: seq<bool>, selectedClause: Clause)
      requires Valid() && |globalState| == variableCount && ClauseValid(selectedClause, variableCount)
      modifies this`newlySatisfied, this`newlyUnsatisfied
      ensures newlySatisfied ==
        Refreshed(old(newlySatisfied), selectedClause.absoluteLiterals, globalState, clauseState[..], true)
      ensures newlyUnsatisfied ==
        Refreshed(old(newlyUnsatisfied), selectedClause.absoluteLiterals, globalState, clauseState[..], false)
    {
      var variables := selectedClause.absoluteLiterals;
      ghost var st := clauseState[..];
      var ns, nu := newlySatisfied, newlyUnsatisfied;
      for i := 0 to |variables|
        invariant ns == Refreshed(newlySatisfied, variables[..i], globalState, st, true)
        invariant nu == Refreshed(newlyUnsatisfied, variables[..i], globalState, st, false)
        invariant newlySatisfied == old(newlySatisfied) && newlyUnsatisfied == old(newlyUnsatisfied)
      {
        assert variables[..i + 1][..i] == variables[..i];
        var variable := variables[i];
        var sat, unsat := VariableDeltas(globalState, variable);
        ns := ns[variable := sat];
        nu := nu[variable := unsat];
      }
      assert variables[..|variables|] == variables;
      newlySatisfied, newlyUnsatisfied := ns, nu;
      assert clauseState[..] == st;
    }

    /** What a score means once the delta lists are fresh: the net change of the clauses
        mentioning v, each weighted by its number of literals of v; when no clause repeats a
        variable, exactly the change in the number of satisfied clauses. */
    lemma ScoreMeaning(v: int, a: seq<bool>)
      requires Valid() && |a| == variableCount && 1 <= v <= variableCount
      requires Consistent(clauses, clauseState[..], a) && DeltasFor(v, a)
      ensures Score(newlySatisfied, newlyUnsatisfied, v) == WeightedGain(clauses, a, v)
      ensures (forall k, i, j :: 0 <= k < clauseCount && 0 <= i < j < |clauses[k].literals| ==>
                 Abs(clauses[k].literals[i]) != Abs(clauses[k].literals[j])) ==>
              Score(newlySatisfied, newlyUnsatisfied, v) == CountSatisfied(clauses, Flip(a, v)) - CountSatisfied(clauses, a)
    {
      ScoreIsWeightedGain(clauses, clauseState[..], a, v);
      if forall k, i, j :: 0 <= k < clauseCount && 0 <= i < j < |clauses[k].literals| ==>
           Abs(clauses[k].literals[i]) != Abs(clauses[k].literals[j])
      {
        WeightedGainIsNetChange(clauses, a, v);
      }
    }

    /** evaluateAssignment: the number of clauses the assignment satisfies. */
    method EvaluateAssignment(state: seq<bool>) returns (count: nat)
      requires Valid() && |state| == variableCount
      ensures count == CountSatisfied(clauses, state)
    {
      count := 0;
      for k := 0 to clauseCount
        invariant count == CountSatisfied(clauses[..k], state)
      {
        assert clauses[..k + 1][..k] == clauses[..k];
        var satisfied := EvaluateState(clauses[k], state);
        if satisfied {
          count := count + 1;
        }
      }
      assert clauses[..clauseCount] == clauses;
    }

    /** getSatisfiedClauseCount: the number of clauses cached as satisfied. */
    method GetSatisfiedClauseCount() returns (count: nat)
      requires Valid()
      ensures count == CountTrue(clauseState[..])
    {
      count := 0;
      for k := 0 to clauseCount
        invariant count == CountTrue(clauseState[..k])
      {
        assert clauseState[..k + 1][..k] == clauseState[..k];
        if clauseState[k] {
          count := count + 1;
        }
      }
      assert clauseState[..clauseCount] == clauseState[..];
    }

    /** selectClauseFromUnsatisfiedClauses: collects the clauses cached as unsatisfied and
        returns the one at the drawn position (nextInt(size) is pick reduced below size). */
    method SelectUnsatisfiedClause(pick: nat) returns (c: nat)
      requires Valid() && false in clauseState[..]
      ensures c == PickClause(clauseState[..], pick)
    {
      var unsatisfiedClauses: seq<nat> := [];
      for k := 0 to clauseCount
        invariant unsatisfiedClauses == Unsatisfied(clauseState[..k])
      {
        assert clauseState[..k + 1][..k] == clauseState[..k];
        if !clauseState[k] {
          unsatisfiedClauses := unsatisfiedClauses + [k];
        }
      }
      assert clauseState[..clauseCount] == clauseState[..];
      UnsatisfiedMembers(clauseState[..]);
      c := unsatisfiedClauses[pick % |unsatisfiedClauses|];
    }

    /** heuristic: builds the clause's variable list, sorts it by the drawn order and picks. */
    method Heuristic(clause: Clause, lastFlipped: seq<int>, diversify: bool, antiThrash: bool) returns (v: int)
      requires Valid() && ClauseValid(clause, variableCount) && |lastFlipped| == variableCount
      requires |clause.literals| >= (if diversify then 1 else 2)
      requires !diversify ==> Ranked(clause.absoluteLiterals, lastFlipped, newlySatisfied, newlyUnsatisfied)
      ensures v == Pick(clause, lastFlipped, newlySatisfied, newlyUnsatisfied, diversify, antiThrash, recentlyFlipped)
    {
      var variables: seq<int> := [];
      for k := 0 to |clause.literals|
        invariant variables == clause.absoluteLiterals[..k]
      {
        assert clause.absoluteLiterals[..k + 1] == clause.absoluteLiterals[..k] + [clause.absoluteLiterals[k]];
        variables := variables + [Abs(clause.literals[k])];
      }
      assert variables == clause.absoluteLiterals;
      if diversify {
        var entries := DiversifyEntries(variables, lastFlipped);
        var sorted := StableSort(entries);
        v := sorted[0].variable;
      } else {
        var entries := GreedyEntries(variables, lastFlipped, newlySatisfied, newlyUnsatisfied);
        var sorted := StableSort(entries);
        var firstVar, secondVar := sorted[0].variable, sorted[1].variable;
        if firstVar != recentlyFlipped {
          v := firstVar;
        } else if antiThrash {
          v := secondVar;
        } else {
          v := firstVar;
        }
      }
    }

    /** Applies the recorded deltas of the variable just flipped: its newly satisfied clauses
        are marked true, then its newly unsatisfied clauses false; no other clause is touched. */
    method ApplyDeltas()
      requires Valid() && recentlyFlipped in newlySatisfied && recentlyFlipped in newlyUnsatisfied
      requires forall i :: 0 <= i < |newlySatisfied[recentlyFlipped]| ==> newlySatisfied[recentlyFlipped][i] < clauseCount
      requires forall i :: 0 <= i < |newlyUnsatisfied[recentlyFlipped]| ==> newlyUnsatisfied[recentlyFlipped][i] < clauseCount
      modifies clauseState
      ensures clauseState[..] ==
        SetAll(SetAll(old(clauseState[..]), newlySatisfied[recentlyFlipped], true), newlyUnsatisfied[recentlyFlipped], false)
    {
      var sat := newlySatisfied[recentlyFlipped];
      for k := 0 to |sat|
        invariant clauseState[..] == SetAll(old(clauseState[..]), sat[..k], true)
      {
        assert sat[..k + 1][..k] == sat[..k];
        clauseState[sat[k]] := true;
      }
      assert sat[..|sat|] == sat;
      ghost var mid := clauseState[..];
      var unsat := newlyUnsatisfied[recentlyFlipped];
      for k := 0 to |unsat|
        invariant clauseState[..] == SetAll(mid, unsat[..k], false)
      {
        assert unsat[..k + 1][..k] == unsat[..k];
        clauseState[unsat[k]] := false;
      }
      assert unsat[..|unsat|] == unsat;
    }

    /** The start of a restart: the drawn assignment, zero flip counts, and every clause's
        cached state evaluated against the assignment. */
    method Restart(assignment: seq<bool>) returns (currentState: array<bool>, lastFlipped: array<int>)
      requires Valid() && |assignment| == variableCount
      modifies clauseState
      ensures fresh(currentState) && fresh(lastFlipped)
      ensures currentState[..] == assignment
      ensures lastFlipped.Length == variableCount && forall i :: 0 <= i < variableCount ==> lastFlipped[i] == 0
      ensures Consistent(clauses, clauseState[..], assignment)
    {
      currentState := new bool[variableCount](i requires 0 <= i < variableCount => assignment[i]);
      lastFlipped := new int[variableCount](i => 0);
      for k := 0 to clauseCount
        invariant currentState[..] == assignment
        invariant forall i :: 0 <= i < variableCount ==> lastFlipped[i] == 0
        invariant forall i :: 0 <= i < k ==> clauseState[i] == Satisfied(clauses[i].literals, assignment)
      {
        var state := EvaluateState(clauses[k], assignment);
        clauseState[k] := state;
      }
    }

    /** Flips the chosen variable, counts the flip, records it as the last flipped variable and
        applies its delta lists to the cached clause states. */
    method FlipVariable(currentState: array<bool>, lastFlipped: array<int>, selectedVar: int)
      requires Valid() && currentState.Length == variableCount && lastFlipped.Length == variableCount
      requires currentState != clauseState && 1 <= selectedVar <= variableCount
      requires Consistent(clauses, clauseState[..], currentState[..])
      requires DeltasFor(selectedVar, currentState[..])
      modifies this`recentlyFlipped, clauseState, currentState, lastFlipped
      ensures currentState[..] == Flip(old(currentState[..]), selectedVar)
      ensures lastFlipped[..] == CountFlip(old(lastFlipped[..]), selectedVar)
      ensures recentlyFlipped == selectedVar
      ensures clauseState[..] == AfterFlip(clauses, old(clauseState[..]), old(currentState[..]), selectedVar)
      ensures Consistent(clauses, clauseState[..], currentState[..])
      ensures forall c :: 0 <= c < clauseCount && c !in occurrences[selectedVar] ==> clauseState[c] == old(clauseState[c])
    {
      ghost var a0 := currentState[..];
      ghost var s0 := clauseState[..];
      currentState[selectedVar - 1] := !currentState[selectedVar - 1];
      lastFlipped[selectedVar - 1] := lastFlipped[selectedVar - 1] + 1;
      recentlyFlipped := selectedVar;
      ApplyDeltas();
      FlipPreservesConsistency(clauses, s0, a0, selectedVar);
      assert currentState[..] == Flip(a0, selectedVar);
    }

    /** Counts the cached satisfied clauses, publishes the count when it beats the best score,
        and reports whether the best score now covers every clause. */
    method Publish(coord: BestResult, currentState: array<bool>) returns (solved: bool)
      requires Valid() && coord.Sound(clauses, variableCount) && currentState.Length == variableCount
      requires Consistent(clauses, clauseState[..], currentState[..])
      modifies coord
      ensures coord.Sound(clauses, variableCount) && coord.bestScore >= old(coord.bestScore)
      ensures var n := CountSatisfied(clauses, currentState[..]);
        if n > old(coord.bestScore) then coord.bestScore == n && coord.bestResult == Some(currentState[..])
        else coord.bestScore == old(coord.bestScore) && coord.bestResult == old(coord.bestResult)
      ensures solved <==> coord.bestScore == clauseCount
    {
      var count := GetSatisfiedClauseCount();
      ConsistentCount(clauses, clauseState[..], currentState[..]);
      if coord.GetBestScore() < count {
        coord.SetBest(currentState, count);
      }
      solved := coord.GetBestScore() == clauseCount;
    }

    /** The choice a step makes from cached states st, assignment a, flip counts flips, last
        flipped variable last and delta maps ns0, nu0: clause is the unsatisfied clause the draw
        picks, ns and nu are ns0 and nu0 with the what-if lists of that clause's variables
        refreshed, and selectedVar is the heuristic's pick among those variables. */
    ghost predicate Chosen(draw: Draw, st: seq<bool>, a: seq<bool>, flips: seq<int>, last: int,
                           ns0: map<int, seq<nat>>, nu0: map<int, seq<nat>>,
                           clause: nat, selectedVar: int, ns: map<int, seq<nat>>, nu: map<int, seq<nat>>)
      requires Valid() && |st| == clauseCount && |a| == variableCount && |flips| == variableCount
      requires literalCountPerClause >= (if draw.diversify then 1 else 2)
    {
      && false in st
      && clause == PickClause(st, draw.clausePick)
      && ns == Refreshed(ns0, clauses[clause].absoluteLiterals, a, st, true)
      && nu == Refreshed(nu0, clauses[clause].absoluteLiterals, a, st, false)
      && Ranked(clauses[clause].absoluteLiterals, flips, ns, nu)
      && selectedVar == Pick(clauses[clause], flips, ns, nu, draw.diversify, draw.antiThrash, last)
    }

    /** The choice half of a step: an unsatisfied clause drawn at random, the delta lists of its
        variables, and the heuristic's pick among them. */
    method ChooseVariable(state: seq<bool>, flips: seq<int>, draw: Draw)
      returns (clause: nat, selectedVar: int)
      requires Valid() && |state| == variableCount && |flips| == variableCount
      requires false in clauseState[..]
      requires literalCountPerClause >= (if draw.diversify then 1 else 2)
      modifies this`newlySatisfied, this`newlyUnsatisfied
      ensures Chosen(draw, clauseState[..], state, flips, recentlyFlipped, old(newlySatisfied), old(newlyUnsatisfied),
                     clause, selectedVar, newlySatisfied, newlyUnsatisfied)
      ensures 1 <= selectedVar <= variableCount && DeltasFor(selectedVar, state)
    {
      clause := SelectUnsatisfiedClause(draw.clausePick);
      ghost var vars := clauses[clause].absoluteLiterals;
      ghost var st := clauseState[..];
      assert forall i :: 0 <= i < |vars| ==> 1 <= vars[i] <= variableCount;
      UpdateSatisfactionMaps(state, clauses[clause]);
      assert clauseState[..] == st;
      RefreshedKeys(old(newlySatisfied), vars, state, st, true);
      RefreshedKeys(old(newlyUnsatisfied), vars, state, st, false);
      assert ClauseValid(clauses[clause], variableCount);
      assert Ranked(vars, flips, newlySatisfied, newlyUnsatisfied);
      selectedVar := Heuristic(clauses[clause], flips, draw.diversify, draw.antiThrash);
      ghost var k := PickIndex(clauses[clause], flips, newlySatisfied, newlyUnsatisfied,
                               draw.diversify, draw.antiThrash, recentlyFlipped);
      RefreshedAt(old(newlySatisfied), vars, state, st, true, k);
      RefreshedAt(old(newlyUnsatisfied), vars, state, st, false, k);
    }

    /** The flip half of a step: flips the chosen variable, brings the cached states up to date,
        and publishes the new count when it beats the best score. best says whether the best
        score now covers every clause; when it does not, some clause is still unsatisfied. */
    method FlipAndPublish(coord: BestResult, currentState: array<bool>, lastFlipped: array<int>, selectedVar: int)
      returns (best: bool)
      requires Valid() && coord.Sound(clauses, variableCount)
      requires currentState.Length == variableCount && lastFlipped.Length == variableCount
      requires currentState != clauseState && 1 <= selectedVar <= variableCount
      requires Consistent(clauses, clauseState[..], currentState[..])
      requires DeltasFor(selectedVar, currentState[..])
      modifies this`recentlyFlipped, clauseState, currentState, lastFlipped, coord
      ensures currentState[..] == Flip(old(currentState[..]), selectedVar)
      ensures lastFlipped[..] == CountFlip(old(lastFlipped[..]), selectedVar)
      ensures recentlyFlipped == selectedVar
      ensures clauseState[..] == AfterFlip(clauses, old(clauseState[..]), old(currentState[..]), selectedVar)
      ensures Consistent(clauses, clauseState[..], currentState[..])
      ensures coord.Sound(clauses, variableCount) && coord.bestScore >= old(coord.bestScore)
      ensures var n := CountSatisfied(clauses, currentState[..]);
        if n > old(coord.bestScore) then coord.bestScore == n && coord.bestResult == Some(currentState[..])
        else coord.bestScore == old(coord.bestScore) && coord.bestResult == old(coord.bestResult)
      ensures best <==> coord.bestScore == clauseCount
      ensures !best ==> false in clauseState[..]
    {
      FlipVariable(currentState, lastFlipped, selectedVar);
      best := Publish(coord, currentState);
      ConsistentCount(clauses, clauseState[..], currentState[..]);
    }

    /** One pass of solve's inner loop body: the choice, then the flip and the publication of an
        improvement. best says whether the best score now covers every clause; when it does
        not, some clause is still unsatisfied. */
    method Step(coord: BestResult, currentState: array<bool>, lastFlipped: array<int>, draw: Draw)
      returns (clause: nat, selectedVar: int, best: bool)
      requires Valid() && coord.Sound(clauses, variableCount)
      requires currentState.Length == variableCount && lastFlipped.Length == variableCount
      requires currentState != clauseState
      requires Consistent(clauses, clauseState[..], currentState[..]) && false in clauseState[..]
      requires literalCountPerClause >= (if draw.diversify then 1 else 2)
      modifies this`newlySatisfied, this`newlyUnsatisfied, this`recentlyFlipped, clauseState, currentState, lastFlipped, coord
      ensures Chosen(draw, old(clauseState[..]), old(currentState[..]), old(lastFlipped[..]), old(recentlyFlipped),
                     old(newlySatisfied), old(newlyUnsatisfied), clause, selectedVar, newlySatisfied, newlyUnsatisfied)
      ensures 1 <= selectedVar <= variableCount
      ensures currentState[..] == Flip(old(currentState[..]), selectedVar)
      ensures lastFlipped[..] == CountFlip(old(lastFlipped[..]), selectedVar)
      ensures recentlyFlipped == selectedVar
      ensures clauseState[..] == AfterFlip(clauses, old(clauseState[..]), old(currentState[..]), selectedVar)
      ensures Consistent(clauses, clauseState[..], currentState[..])
      ensures coord.Sound(clauses, variableCount) && coord.bestScore >= old(coord.bestScore)
      ensures var n := CountSatisfied(clauses, currentState[..]);
        if n > old(coord.bestScore) then coord.bestScore == n && coord.bestResult == Some(currentState[..])
        else coord.bestScore == old(coord.bestScore) && coord.bestResult == old(coord.bestResult)
      ensures best <==> coord.bestScore == clauseCount
      ensures !best ==> false in clauseState[..]
    {
      clause, selectedVar := ChooseVariable(currentState[..], lastFlipped[..], draw);
      assert clauseState[..] == old(clauseState[..]) && recentlyFlipped == old(recentlyFlipped);
      ghost var ns, nu := newlySatisfied, newlyUnsatisfied;
      assert Chosen(draw, old(clauseState[..]), old(currentState[..]), old(lastFlipped[..]), old(recentlyFlipped),
                    old(newlySatisfied), old(newlyUnsatisfied), clause, selectedVar, ns, nu);
      best := FlipAndPublish(coord, currentState, lastFlipped, selectedVar);
    }

    /** One step of the inner loop, stated by what the loop keeps: the cached states stay
        consistent, the coordinator's best only improves, and best tells whether every clause
        is now satisfied. Step says which clause, which variable and which new state. */
    method Advance(coord: BestResult, currentState: array<bool>, lastFlipped: array<int>, draw: Draw)
      returns (best: bool)
      requires Valid() && coord.Sound(clauses, variableCount)
      requires currentState.Length == variableCount && lastFlipped.Length == variableCount
      requires currentState != clauseState
      requires Consistent(clauses, clauseState[..], currentState[..]) && false in clauseState[..]
      requires literalCountPerClause >= (if draw.diversify then 1 else 2)
      modifies this`newlySatisfied, this`newlyUnsatisfied, this`recentlyFlipped, clauseState, currentState, lastFlipped, coord
      ensures Consistent(clauses, clauseState[..], currentState[..])
      ensures coord.Sound(clauses, variableCount) && coord.bestScore >= old(coord.bestScore)
      ensures best <==> coord.bestScore == clauseCount
      ensures !best ==> false in clauseState[..]
    {
      var clause, selectedVar;
      clause, selectedVar, best := Step(coord, currentState, lastFlipped, draw);
    }

    /** solve's inner loop: up to MAX_STEPS steps from the current assignment, stopping when
        the best score reaches the clause count or, on every hundredth step, when the deadline
        has passed. steps is the number of steps taken. */
    method RunSteps(coord: BestResult, currentState: array<bool>, lastFlipped: array<int>, draws: seq<Draw>)
      returns (solved: bool, timedOut: bool, ghost steps: nat)
      requires Valid() && coord.Sound(clauses, variableCount)
      requires currentState.Length == variableCount && lastFlipped.Length == variableCount
      requires currentState != clauseState
      requires Consistent(clauses, clauseState[..], currentState[..]) && false in clauseState[..]
      requires |draws| == MAX_STEPS && DrawsFit(literalCountPerClause, draws)
      modifies this`newlySatisfied, this`newlyUnsatisfied, this`recentlyFlipped, clauseState, currentState, lastFlipped, coord
      ensures Consistent(clauses, clauseState[..], currentState[..])
      ensures coord.Sound(clauses, variableCount) && coord.bestScore >= old(coord.bestScore)
      ensures solved <==> coord.bestScore == clauseCount
      ensures solved ==> !timedOut
      ensures 0 < steps <= MAX_STEPS && NoDeadline(draws, steps - 1)
      ensures timedOut ==> DeadlineHit(draws[steps - 1], steps - 1)
      ensures !solved && !timedOut ==> steps == MAX_STEPS && NoDeadline(draws, MAX_STEPS)
    {
      solved, timedOut, steps := false, false, 0;
      for j := 0 to MAX_STEPS
        invariant Consistent(clauses, clauseState[..], currentState[..])
        invariant false in clauseState[..]
        invariant coord.Sound(clauses, variableCount) && coord.bestScore >= old(coord.bestScore)
        invariant j > 0 ==> coord.bestScore < clauseCount
        invariant NoDeadline(draws, j)
        invariant !solved && !timedOut && steps == j
      {
        var draw := draws[j];
        assert literalCountPerClause >= (if draw.diversify then 1 else 2);
        var best := Advance(coord, currentState, lastFlipped, draw);
        steps := j + 1;
        if best {
          solved := true;
          return;
        }
        if j % 100 == 0 && draw.pastDeadline {
          timedOut := true;
          assert DeadlineHit(draws[j], j);
          return;
        }
        NoDeadlineStep(draws, j);
      }
    }

    /** One pass of solve's restart loop: restart from the round's assignment and stop at once
        if every clause holds; otherwise run the inner loop on the round's draws. steps is the
        number of steps taken. */
    method RunRound(coord: BestResult, round: Round) returns (solved: bool, timedOut: bool, ghost steps: nat)
      requires Valid() && coord.Sound(clauses, variableCount)
      requires |round.assignment| == variableCount && |round.draws| == MAX_STEPS
      requires DrawsFit(literalCountPerClause, round.draws)
      modifies this`newlySatisfied, this`newlyUnsatisfied, this`recentlyFlipped, clauseState, coord
      ensures coord.Sound(clauses, variableCount) && coord.bestScore >= old(coord.bestScore)
      ensures solved <==> coord.bestScore == clauseCount
      ensures solved ==> !timedOut
      ensures steps <= MAX_STEPS
      ensures steps == 0 <==> CountSatisfied(clauses, round.assignment) == clauseCount
      ensures steps == 0 ==> solved
      ensures 0 < steps ==> NoDeadline(round.draws, steps - 1)
      ensures timedOut ==> 0 < steps && DeadlineHit(round.draws[steps - 1], steps - 1)
      ensures !solved && !timedOut ==> steps == MAX_STEPS && NoDeadline(round.draws, MAX_STEPS)
    {
      var currentState, lastFlipped := Restart(round.assignment);
      var count := GetSatisfiedClauseCount();
      ConsistentCount(clauses, clauseState[..], currentState[..]);
      if count == clauseCount {
        coord.SetBest(currentState, count);
        solved, timedOut, steps := true, false, 0;
        return;
      }
      assert false in clauseState[..];
      solved, timedOut, steps := RunSteps(coord, currentState, lastFlipped, round.draws);
    }

    /** solve, with its unbounded restart loop cut to the given rounds: Solved when a round
        reaches every clause, TimedOut when a round hits the deadline check, and RoundsExhausted
        when every round ran all its steps. */
    method Solve(coord: BestResult, rounds: seq<Round>) returns (outcome: Outcome)
      requires Valid() && coord.Sound(clauses, variableCount)
      requires forall r :: 0 <= r < |rounds| ==>
        && |rounds[r].assignment| == variableCount && |rounds[r].draws| == MAX_STEPS
        && DrawsFit(literalCountPerClause, rounds[r].draws)
      modifies this`newlySatisfied, this`newlyUnsatisfied, this`recentlyFlipped, clauseState, coord
      ensures coord.Sound(clauses, variableCount) && coord.bestScore >= old(coord.bestScore)
      ensures outcome == Solved ==> coord.bestScore == clauseCount
      ensures outcome == Solved && clauseCount > 0 ==>
        coord.bestResult.Some? && CountSatisfied(clauses, coord.bestResult.value) == clauseCount
      ensures outcome != Solved && |rounds| > 0 ==> coord.bestScore < clauseCount
      ensures outcome == TimedOut ==> exists r :: (0 <= r < |rounds| && !NoDeadline(rounds[r].draws, MAX_STEPS) &&
        CountSatisfied(clauses, rounds[r].assignment) < clauseCount &&
        forall q :: 0 <= q < r ==>
          NoDeadline(rounds[q].draws, MAX_STEPS) && CountSatisfied(clauses, rounds[q].assignment) < clauseCount)
      ensures outcome == RoundsExhausted ==> forall r :: 0 <= r < |rounds| ==>
        NoDeadline(rounds[r].draws, MAX_STEPS) && CountSatisfied(clauses, rounds[r].assignment) < clauseCount
      ensures |rounds| > 0 && CountSatisfied(clauses, rounds[0].assignment) == clauseCount ==> outcome == Solved
    {
      for r := 0 to |rounds|
        invariant coord.Sound(clauses, variableCount) && coord.bestScore >= old(coord.bestScore)
        invariant r > 0 ==> coord.bestScore < clauseCount
        invariant forall q :: 0 <= q < r ==>
          NoDeadline(rounds[q].draws, MAX_STEPS) && CountSatisfied(clauses, rounds[q].assignment) < clauseCount
      {
        var solved, timedOut, steps := RunRound(coord, rounds[r]);
        if solved {
          return Solved;
        }
        if timedOut {
          return TimedOut;
        }
      }
      return RoundsExhausted;
    }
  }
}
