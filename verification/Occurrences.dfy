/** The occurrence index: for each variable, the clauses that mention it. */
module Occurrences {
  import opened Clauses

  /** k copies of clause index x. */
  function Repeat(x: nat, k: nat): (r: seq<nat>)
    ensures |r| == k && forall i :: 0 <= i < k ==> r[i] == x
  {
    if k == 0 then [] else Repeat(x, k - 1) + [x]
  }

  /** The occurrence list of variable v: the clauses in order, each index repeated once per literal of v. */
  function Occ(clauses: seq<Clause>, v: int): (r: seq<nat>)
    ensures forall i :: 0 <= i < |r| ==> r[i] < |clauses|
  {
    if clauses == [] then []
    else
      var k := |clauses| - 1;
      Occ(clauses[..k], v) + Repeat(k, CountVar(clauses[k].literals, v))
  }

  /** The occurrence list is in clause order. */
  lemma {:induction false} OccOrdered(clauses: seq<Clause>, v: int)
    ensures forall i, j :: 0 <= i <= j < |Occ(clauses, v)| ==> Occ(clauses, v)[i] <= Occ(clauses, v)[j]
  {
    if clauses != [] {
      var k := |clauses| - 1;
      OccOrdered(clauses[..k], v);
      var p := Occ(clauses[..k], v);
      var q := Repeat(k, CountVar(clauses[k].literals, v));
      var r := p + q;
      assert Occ(clauses, v) == r;
      forall i, j | 0 <= i <= j < |r|
        ensures r[i] <= r[j]
      {
        if j >= |p| {
          assert r[j] == q[j - |p|] == k;
          if i < |p| {
            assert r[i] == p[i];
            assert p[i] < k;
          } else {
            assert r[i] == q[i - |p|];
          }
        } else {
          assert r[i] == p[i] && r[j] == p[j];
          assert p[i] <= p[j];
        }
      }
    }
  }

  lemma RepeatMultiplicity(x: nat, k: nat, c: nat)
    ensures multiset(Repeat(x, k))[c] == if c == x then k else 0
  {
    if k > 0 {
      RepeatMultiplicity(x, k - 1, c);
    }
  }

  /** Clause c is listed under v once per literal of v in it, and nothing else is listed. */
  lemma {:induction false} OccMultiplicity(clauses: seq<Clause>, v: int, c: nat)
    ensures multiset(Occ(clauses, v))[c] == if c < |clauses| then CountVar(clauses[c].literals, v) else 0
  {
    if clauses != [] {
      var k := |clauses| - 1;
      OccMultiplicity(clauses[..k], v, c);
      RepeatMultiplicity(k, CountVar(clauses[k].literals, v), c);
    }
  }

  /** Clause c is listed under v exactly when one of its literals has variable v. */
  lemma OccMembership(clauses: seq<Clause>, v: int, c: nat)
    ensures c in Occ(clauses, v) <==>
      c < |clauses| && exists i :: 0 <= i < |clauses[c].literals| && Abs(clauses[c].literals[i]) == v
  {
    OccMultiplicity(clauses, v, c);
    if c < |clauses| {
      CountVarZero(clauses[c].literals, v);
    }
  }

  /** The occurrence list of a longer prefix extends that of the shorter one. */
  lemma OccSnoc(clauses: seq<Clause>, v: int, k: nat)
    requires k < |clauses|
    ensures Occ(clauses[..k + 1], v) == Occ(clauses[..k], v) + Repeat(k, CountVar(clauses[k].literals, v))
  {
    assert clauses[..k + 1][..k] == clauses[..k];
  }

  /** Appending [x] to k copies of x gives k + 1 copies. */
  lemma RepeatSnoc(x: nat, k: nat)
    ensures Repeat(x, k + 1) == Repeat(x, k) + [x]
  {
  }

  /** One clause's pass of the index construction: each literal of the clause appends the
      clause index i to its variable's list. */
  method AppendClause(occ: map<int, seq<nat>>, i: nat, literals: seq<int>, variableCount: nat)
    returns (r: map<int, seq<nat>>)
    requires LiteralsInRange(literals, variableCount)
    requires forall v :: v in occ <==> 1 <= v <= variableCount
    ensures forall v :: v in r <==> 1 <= v <= variableCount
    ensures forall v :: 1 <= v <= variableCount ==> r[v] == occ[v] + Repeat(i, CountVar(literals, v))
  {
    r := occ;
    for k := 0 to |literals|
      invariant forall v :: v in r <==> 1 <= v <= variableCount
      invariant forall v :: 1 <= v <= variableCount ==> r[v] == occ[v] + Repeat(i, CountVar(literals[..k], v))
    {
      var x := Abs(literals[k]);
      assert literals[..k + 1][..k] == literals[..k];
      RepeatSnoc(i, CountVar(literals[..k], x));
      r := r[x := r[x] + [i]];
    }
    assert literals[..|literals|] == literals;
  }

  /** The index construction of the solver's copy constructor: an empty list per variable,
      then every literal of every clause appends that clause to its variable's list. */
  method BuildOccurrences(clauses: seq<Clause>, variableCount: nat) returns (occ: map<int, seq<nat>>)
    requires forall k :: 0 <= k < |clauses| ==> LiteralsInRange(clauses[k].literals, variableCount)
    ensures forall v :: v in occ <==> 1 <= v <= variableCount
    ensures forall v :: 1 <= v <= variableCount ==> occ[v] == Occ(clauses, v)
  {
    occ := map[];
    for v := 1 to variableCount + 1
      invariant forall w :: w in occ <==> 1 <= w < v
      invariant forall w :: w in occ ==> occ[w] == []
    {
      occ := occ[v := []];
    }
    for i := 0 to |clauses|
      invariant forall w :: w in occ <==> 1 <= w <= variableCount
      invariant forall w :: 1 <= w <= variableCount ==> occ[w] == Occ(clauses[..i], w)
    {
      occ := AppendClause(occ, i, clauses[i].literals, variableCount);
      forall w | 1 <= w <= variableCount
        ensures occ[w] == Occ(clauses[..i + 1], w)
      {
        OccSnoc(clauses, w, i);
      }
    }
    assert clauses[..|clauses|] == clauses;
  }
}
