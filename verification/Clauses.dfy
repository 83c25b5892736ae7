/** Literals, clauses and their evaluation under a boolean assignment.
    Variable v (1-based) is stored at index v-1 of an assignment. */
module Clauses {

  /** Math.abs on a literal: its variable id. */
  function Abs(x: int): nat
  {
    if x < 0 then -x else x
  }

  /** A literal names one of the variables 1..n. */
  predicate InRange(l: int, n: int)
  {
    1 <= Abs(l) <= n
  }

  predicate LiteralsInRange(lits: seq<int>, n: int)
  {
    forall i :: 0 <= i < |lits| ==> InRange(lits[i], n)
  }

  /** Literal l holds under a: a positive literal needs its variable true, a negative one false. */
  predicate LiteralHolds(l: int, a: seq<bool>)
    requires InRange(l, |a|)
  {
    a[Abs(l) - 1] == (l > 0)
  }

  /** A clause is a disjunction: it is satisfied when one of its literals holds. */
  predicate Satisfied(lits: seq<int>, a: seq<bool>)
    requires LiteralsInRange(lits, |a|)
  {
    exists i :: 0 <= i < |lits| && LiteralHolds(lits[i], a)
  }

  /** The assignment a with variable v toggled. */
  function Flip(a: seq<bool>, v: int): seq<bool>
    requires 1 <= v <= |a|
  {
    a[v - 1 := !a[v - 1]]
  }

  /** A clause as the solver keeps it: its literals and, position by position, their variables. */
  datatype Clause = Clause(literals: seq<int>, absoluteLiterals: seq<int>)

  predicate ClauseValid(c: Clause, n: int)
  {
    && |c.absoluteLiterals| == |c.literals|
    && (forall i :: 0 <= i < |c.literals| ==> c.absoluteLiterals[i] == Abs(c.literals[i]))
    && LiteralsInRange(c.literals, n)
  }

  /** Every clause of an instance over n variables is valid. */
  predicate WellFormed(clauses: seq<Clause>, n: int)
  {
    forall k :: 0 <= k < |clauses| ==> ClauseValid(clauses[k], n)
  }

  /** Number of literals of variable v in lits (either polarity). */
  function CountVar(lits: seq<int>, v: int): nat
  {
    if lits == [] then 0
    else CountVar(lits[..|lits| - 1], v) + (if Abs(lits[|lits| - 1]) == v then 1 else 0)
  }

  /** Number of clauses satisfied by a. */
  function CountSatisfied(clauses: seq<Clause>, a: seq<bool>): (r: nat)
    requires WellFormed(clauses, |a|)
    ensures r <= |clauses|
  {
    if clauses == [] then 0
    else
      var k := |clauses| - 1;
      CountSatisfied(clauses[..k], a) + (if Satisfied(clauses[k].literals, a) then 1 else 0)
  }

  /** The Clause constructor: records the literals and computes their variables. */
  method NewClause(literals: seq<int>) returns (c: Clause)
    ensures c.literals == literals
    ensures |c.absoluteLiterals| == |literals|
    ensures forall i :: 0 <= i < |literals| ==> c.absoluteLiterals[i] == Abs(literals[i])
  {
    var absoluteLiterals: seq<int> := [];
    for i := 0 to |literals|
      invariant |absoluteLiterals| == i
      invariant forall k :: 0 <= k < i ==> absoluteLiterals[k] == Abs(literals[k])
    {
      absoluteLiterals := absoluteLiterals + [Abs(literals[i])];
    }
    c := Clause(literals, absoluteLiterals);
  }

  /** Clause.evaluateState: scans the literals and returns on the first one that holds. */
  method EvaluateState(c: Clause, globalState: seq<bool>) returns (r: bool)
    requires LiteralsInRange(c.literals, |globalState|)
    ensures r <==> exists i :: 0 <= i < |c.literals| && LiteralHolds(c.literals[i], globalState)
  {
    for i := 0 to |c.literals|
      invariant forall k :: 0 <= k < i ==> !LiteralHolds(c.literals[k], globalState)
    {
      var variable := c.literals[i];
      var assignedValue := globalState[Abs(variable) - 1];
      if assignedValue && variable > 0 {
        return true;
      } else if !assignedValue && variable < 0 {
        return true;
      }
    }
    return false;
  }

  /** CountVar is zero exactly when no literal mentions v. */
  lemma {:induction false} CountVarZero(lits: seq<int>, v: int)
    ensures CountVar(lits, v) == 0 <==> forall i :: 0 <= i < |lits| ==> Abs(lits[i]) != v
  {
    if lits != [] {
      var k := |lits| - 1;
      CountVarZero(lits[..k], v);
      assert forall i :: 0 <= i < k ==> lits[..k][i] == lits[i];
    }
  }

  /** When no literal repeats a variable, each variable occurs at most once. */
  lemma {:induction false} CountVarAtMostOne(lits: seq<int>, v: int)
    requires forall i, j :: 0 <= i < j < |lits| ==> Abs(lits[i]) != Abs(lits[j])
    ensures CountVar(lits, v) <= 1
  {
    if lits != [] {
      var k := |lits| - 1;
      CountVarAtMostOne(lits[..k], v);
      if Abs(lits[k]) == v {
        CountVarZero(lits[..k], v);
      }
    }
  }

  /** Flipping a variable a clause does not mention leaves its truth value alone. */
  lemma FlipUnmentioned(lits: seq<int>, a: seq<bool>, v: int)
    requires LiteralsInRange(lits, |a|) && 1 <= v <= |a|
    requires forall i :: 0 <= i < |lits| ==> Abs(lits[i]) != v
    ensures Satisfied(lits, Flip(a, v)) == Satisfied(lits, a)
  {
    forall i | 0 <= i < |lits|
      ensures LiteralHolds(lits[i], Flip(a, v)) == LiteralHolds(lits[i], a)
    {
    }
  }
}
