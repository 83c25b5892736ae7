/** What the delta evaluator computes: which clauses a flip would newly satisfy or
    unsatisfy, how applying those lists updates the cached clause states, and what the
    resulting score means. */
module Deltas {
  import opened Clauses
  import opened Occurrences

  /** Every cached clause state equals the clause evaluated under assignment a. */
  ghost predicate Consistent(clauses: seq<Clause>, states: seq<bool>, a: seq<bool>)
    requires WellFormed(clauses, |a|)
  {
    |states| == |clauses| &&
    forall c :: 0 <= c < |clauses| ==> states[c] == Satisfied(clauses[c].literals, a)
  }

  /** Preconditions shared by the delta functions: cached states for every clause and
      candidate clause indices in range. */
  predicate Candidates(clauses: seq<Clause>, states: seq<bool>, mutated: seq<bool>, cs: seq<nat>)
  {
    WellFormed(clauses, |mutated|) && |states| == |clauses| &&
    forall i :: 0 <= i < |cs| ==> cs[i] < |clauses|
  }

  /** Clause c is cached false but holds under the mutated assignment. */
  predicate Gained(clauses: seq<Clause>, states: seq<bool>, mutated: seq<bool>, c: nat)
    requires WellFormed(clauses, |mutated|) && |states| == |clauses| && c < |clauses|
  {
    !states[c] && Satisfied(clauses[c].literals, mutated)
  }

  /** Clause c is cached true but fails under the mutated assignment. */
  predicate Lost(clauses: seq<Clause>, states: seq<bool>, mutated: seq<bool>, c: nat)
    requires WellFormed(clauses, |mutated|) && |states| == |clauses| && c < |clauses|
  {
    states[c] && !Satisfied(clauses[c].literals, mutated)
  }

  /** The entries of cs (in order, with repetitions) that the mutation newly satisfies. */
  function Gains(clauses: seq<Clause>, states: seq<bool>, mutated: seq<bool>, cs: seq<nat>): (r: seq<nat>)
    requires Candidates(clauses, states, mutated, cs)
    ensures forall i :: 0 <= i < |r| ==> r[i] < |clauses|
  {
    if cs == [] then []
    else
      var k := |cs| - 1;
      Gains(clauses, states, mutated, cs[..k]) + (if Gained(clauses, states, mutated, cs[k]) then [cs[k]] else [])
  }

  /** The entries of cs (in order, with repetitions) that the mutation newly unsatisfies. */
  function Losses(clauses: seq<Clause>, states: seq<bool>, mutated: seq<bool>, cs: seq<nat>): (r: seq<nat>)
    requires Candidates(clauses, states, mutated, cs)
    ensures forall i :: 0 <= i < |r| ==> r[i] < |clauses|
  {
    if cs == [] then []
    else
      var k := |cs| - 1;
      Losses(clauses, states, mutated, cs[..k]) + (if Lost(clauses, states, mutated, cs[k]) then [cs[k]] else [])
  }

  /** A clause is a newly satisfied entry exactly when it is a candidate that the mutation satisfies,
      and a newly unsatisfied entry exactly when it is a candidate that the mutation falsifies. */
  lemma {:induction false} GainsMembership(clauses: seq<Clause>, states: seq<bool>, mutated: seq<bool>, cs: seq<nat>, c: nat)
    requires Candidates(clauses, states, mutated, cs) && c < |clauses|
    ensures c in Gains(clauses, states, mutated, cs) <==> c in cs && Gained(clauses, states, mutated, c)
    ensures c in Losses(clauses, states, mutated, cs) <==> c in cs && Lost(clauses, states, mutated, c)
  {
    if cs != [] {
      var k := |cs| - 1;
      GainsMembership(clauses, states, mutated, cs[..k], c);
      assert cs == cs[..k] + [cs[k]];
    }
  }

  /** The states s with every index listed in cs set to b. */
  function SetAll(s: seq<bool>, cs: seq<nat>, b: bool): (r: seq<bool>)
    requires forall i :: 0 <= i < |cs| ==> cs[i] < |s|
    ensures |r| == |s|
    ensures forall c :: 0 <= c < |s| ==> r[c] == if c in cs then b else s[c]
  {
    if cs == [] then s
    else
      var k := |cs| - 1;
      SetAll(s, cs[..k], b)[cs[k] := b]
  }

  /** Cached states after flipping v: newly satisfied clauses set true, then newly
      unsatisfied ones set false. */
  function AfterFlip(clauses: seq<Clause>, states: seq<bool>, a: seq<bool>, v: int): seq<bool>
    requires WellFormed(clauses, |a|) && |states| == |clauses| && 1 <= v <= |a|
  {
    var occ := Occ(clauses, v);
    var mutated := Flip(a, v);
    SetAll(SetAll(states, Gains(clauses, states, mutated, occ), true), Losses(clauses, states, mutated, occ), false)
  }

  /** One clause after the flip: its new cached state is its value under the flipped assignment. */
  lemma FlipOneClause(clauses: seq<Clause>, states: seq<bool>, a: seq<bool>, v: int, c: nat)
    requires WellFormed(clauses, |a|) && 1 <= v <= |a| && Consistent(clauses, states, a) && c < |clauses|
    ensures AfterFlip(clauses, states, a, v)[c] == Satisfied(clauses[c].literals, Flip(a, v))
    ensures c !in Occ(clauses, v) ==> AfterFlip(clauses, states, a, v)[c] == states[c]
  {
    var occ := Occ(clauses, v);
    var mutated := Flip(a, v);
    var gains := Gains(clauses, states, mutated, occ);
    var losses := Losses(clauses, states, mutated, occ);
    var mid := SetAll(states, gains, true);
    var after := SetAll(mid, losses, false);
    assert after == AfterFlip(clauses, states, a, v);
    assert after[c] == if c in losses then false else mid[c];
    assert mid[c] == if c in gains then true else states[c];
    GainsMembership(clauses, states, mutated, occ, c);
    OccMembership(clauses, v, c);
    if c !in occ {
      FlipUnmentioned(clauses[c].literals, a, v);
    }
  }

  /** The central invariant: a flip followed by its two delta lists keeps every cached state
      equal to the clause's true value, and only clauses listed under v can change. */
  lemma FlipPreservesConsistency(clauses: seq<Clause>, states: seq<bool>, a: seq<bool>, v: int)
    requires WellFormed(clauses, |a|) && 1 <= v <= |a|
    requires Consistent(clauses, states, a)
    ensures Consistent(clauses, AfterFlip(clauses, states, a, v), Flip(a, v))
    ensures forall c :: 0 <= c < |clauses| && c !in Occ(clauses, v) ==> AfterFlip(clauses, states, a, v)[c] == states[c]
  {
    forall c | 0 <= c < |clauses|
      ensures AfterFlip(clauses, states, a, v)[c] == Satisfied(clauses[c].literals, Flip(a, v))
      ensures c !in Occ(clauses, v) ==> AfterFlip(clauses, states, a, v)[c] == states[c]
    {
      FlipOneClause(clauses, states, a, v, c);
    }
  }

  /** Number of true entries. */
  function CountTrue(s: seq<bool>): (r: nat)
    ensures r <= |s|
    ensures r == |s| <==> false !in s
  {
    if s == [] then 0
    else
      var k := |s| - 1;
      assert s == s[..k] + [s[k]];
      CountTrue(s[..k]) + (if s[k] then 1 else 0)
  }

  /** Counting cached true states gives the number of clauses the assignment satisfies. */
  lemma {:induction false} ConsistentCount(clauses: seq<Clause>, states: seq<bool>, a: seq<bool>)
    requires WellFormed(clauses, |a|) && Consistent(clauses, states, a)
    ensures CountTrue(states) == CountSatisfied(clauses, a)
  {
    if clauses != [] {
      var k := |clauses| - 1;
      ConsistentCount(clauses[..k], states[..k], a);
    }
  }

  /** Net change of clause k when v flips: +1, 0 or -1. */
  function Delta(clauses: seq<Clause>, a: seq<bool>, v: int, k: nat): int
    requires WellFormed(clauses, |a|) && 1 <= v <= |a| && k < |clauses|
  {
    (if Satisfied(clauses[k].literals, Flip(a, v)) then 1 else 0) -
    (if Satisfied(clauses[k].literals, a) then 1 else 0)
  }

  /** Sum over the clauses of (literals of v in the clause) * (net change of the clause). */
  function WeightedGain(clauses: seq<Clause>, a: seq<bool>, v: int): int
    requires WellFormed(clauses, |a|) && 1 <= v <= |a|
  {
    if clauses == [] then 0
    else
      var k := |clauses| - 1;
      WeightedGain(clauses[..k], a, v) + CountVar(clauses[k].literals, v) * Delta(clauses, a, v, k)
  }

  lemma {:induction false} GainsAppend(clauses: seq<Clause>, states: seq<bool>, mutated: seq<bool>, xs: seq<nat>, ys: seq<nat>)
    requires Candidates(clauses, states, mutated, xs) && Candidates(clauses, states, mutated, ys)
    ensures Candidates(clauses, states, mutated, xs + ys)
    ensures Gains(clauses, states, mutated, xs + ys) == Gains(clauses, states, mutated, xs) + Gains(clauses, states, mutated, ys)
    ensures Losses(clauses, states, mutated, xs + ys) == Losses(clauses, states, mutated, xs) + Losses(clauses, states, mutated, ys)
    decreases |ys|
  {
    if ys == [] {
      assert xs + ys == xs;
    } else {
      var k := |ys| - 1;
      var zs := xs + ys;
      assert zs[..|zs| - 1] == xs + ys[..k];
      assert zs[|zs| - 1] == ys[k];
      GainsAppend(clauses, states, mutated, xs, ys[..k]);
    }
  }

  /** Under consistent cached states, gaining or losing a clause is its net change. */
  lemma GainedLostDelta(clauses: seq<Clause>, states: seq<bool>, a: seq<bool>, v: int, c: nat)
    requires WellFormed(clauses, |a|) && 1 <= v <= |a| && |states| == |clauses| && c < |clauses|
    requires states[c] == Satisfied(clauses[c].literals, a)
    ensures (if Gained(clauses, states, Flip(a, v), c) then 1 else 0) - (if Lost(clauses, states, Flip(a, v), c) then 1 else 0)
      == Delta(clauses, a, v, c)
  {
  }

  /** A clause listed n times is listed n times among the gains if it is gained, and not at all otherwise. */
  lemma {:induction false} RepeatGains(clauses: seq<Clause>, states: seq<bool>, mutated: seq<bool>, c: nat, n: nat)
    requires WellFormed(clauses, |mutated|) && |states| == |clauses| && c < |clauses|
    ensures Candidates(clauses, states, mutated, Repeat(c, n))
    ensures |Gains(clauses, states, mutated, Repeat(c, n))| == if Gained(clauses, states, mutated, c) then n else 0
    ensures |Losses(clauses, states, mutated, Repeat(c, n))| == if Lost(clauses, states, mutated, c) then n else 0
  {
    if n > 0 {
      RepeatGains(clauses, states, mutated, c, n - 1);
      var cs := Repeat(c, n);
      assert cs[..n - 1] == Repeat(c, n - 1);
      assert cs[n - 1] == c;
    }
  }

  /** n times a net change of +1, 0 or -1. */
  lemma ScaleUnit(n: nat, d: int, gained: bool, lost: bool)
    requires !(gained && lost) && d == (if gained then 1 else 0) - (if lost then 1 else 0)
    ensures (if gained then n else 0) - (if lost then n else 0) == n * d
  {
  }

  /** A clause listed n times contributes n times its net change. */
  lemma NetGainRepeat(clauses: seq<Clause>, states: seq<bool>, a: seq<bool>, v: int, c: nat, n: nat)
    requires WellFormed(clauses, |a|) && 1 <= v <= |a| && |states| == |clauses| && c < |clauses|
    requires states[c] == Satisfied(clauses[c].literals, a)
    ensures Candidates(clauses, states, Flip(a, v), Repeat(c, n))
    ensures |Gains(clauses, states, Flip(a, v), Repeat(c, n))| - |Losses(clauses, states, Flip(a, v), Repeat(c, n))|
      == n * Delta(clauses, a, v, c)
  {
    var mutated := Flip(a, v);
    RepeatGains(clauses, states, mutated, c, n);
    GainedLostDelta(clauses, states, a, v, c);
    ScaleUnit(n, Delta(clauses, a, v, c), Gained(clauses, states, mutated, c), Lost(clauses, states, mutated, c));
  }

  /** The weighted gain of a longer prefix adds the contribution of its last clause. */
  lemma WeightedGainSnoc(clauses: seq<Clause>, a: seq<bool>, v: int, k: nat)
    requires WellFormed(clauses, |a|) && 1 <= v <= |a| && k < |clauses|
    ensures WeightedGain(clauses[..k + 1], a, v)
      == WeightedGain(clauses[..k], a, v) + CountVar(clauses[k].literals, v) * Delta(clauses, a, v, k)
  {
    var pre := clauses[..k + 1];
    assert pre[..k] == clauses[..k];
    assert pre[k] == clauses[k];
    assert Delta(pre, a, v, k) == Delta(clauses, a, v, k);
  }

  lemma {:induction false} NetGainPrefix(clauses: seq<Clause>, states: seq<bool>, a: seq<bool>, v: int, k: nat)
    requires WellFormed(clauses, |a|) && 1 <= v <= |a| && Consistent(clauses, states, a)
    requires k <= |clauses|
    ensures Candidates(clauses, states, Flip(a, v), Occ(clauses[..k], v))
    ensures |Gains(clauses, states, Flip(a, v), Occ(clauses[..k], v))| - |Losses(clauses, states, Flip(a, v), Occ(clauses[..k], v))|
      == WeightedGain(clauses[..k], a, v)
  {
    if k > 0 {
      var j := k - 1;
      var mutated := Flip(a, v);
      var head := Occ(clauses[..j], v);
      var n := CountVar(clauses[j].literals, v);
      var tail := Repeat(j, n);
      NetGainPrefix(clauses, states, a, v, j);
      NetGainRepeat(clauses, states, a, v, j, n);
      OccSnoc(clauses, v, j);
      WeightedGainSnoc(clauses, a, v, j);
      GainsAppend(clauses, states, mutated, head, tail);
    }
  }

  /** getScore's meaning: |newly satisfied| - |newly unsatisfied| over v's occurrence list is
      the net change of each clause weighted by how many literals of v it holds. */
  lemma ScoreIsWeightedGain(clauses: seq<Clause>, states: seq<bool>, a: seq<bool>, v: int)
    requires WellFormed(clauses, |a|) && 1 <= v <= |a| && Consistent(clauses, states, a)
    ensures |Gains(clauses, states, Flip(a, v), Occ(clauses, v))| - |Losses(clauses, states, Flip(a, v), Occ(clauses, v))|
      == WeightedGain(clauses, a, v)
  {
    NetGainPrefix(clauses, states, a, v, |clauses|);
    assert clauses[..|clauses|] == clauses;
  }

  /** With no clause listing a variable twice, the weighted gain is the change in the
      number of satisfied clauses. */
  lemma {:induction false} WeightedGainIsNetChange(clauses: seq<Clause>, a: seq<bool>, v: int)
    requires WellFormed(clauses, |a|) && 1 <= v <= |a|
    requires forall k, i, j :: 0 <= k < |clauses| && 0 <= i < j < |clauses[k].literals| ==>
      Abs(clauses[k].literals[i]) != Abs(clauses[k].literals[j])
    ensures WeightedGain(clauses, a, v) == CountSatisfied(clauses, Flip(a, v)) - CountSatisfied(clauses, a)
  {
    if clauses != [] {
      var k := |clauses| - 1;
      WeightedGainIsNetChange(clauses[..k], a, v);
      var m := CountVar(clauses[k].literals, v);
      var d := Delta(clauses, a, v, k);
      CountVarAtMostOne(clauses[k].literals, v);
      if m == 0 {
        CountVarZero(clauses[k].literals, v);
        FlipUnmentioned(clauses[k].literals, a, v);
        assert m * d == 0;
      } else {
        assert m * d == d;
      }
      assert WeightedGain(clauses, a, v) == WeightedGain(clauses[..k], a, v) + m * d;
    }
  }

  /** A clause listing variable 1 twice is counted twice: the score of flipping 1 is 2,
      while the number of satisfied clauses only grows by 1. */
  lemma DuplicateLiteralCountsTwice()
    ensures var clauses := [Clause([1, 1], [1, 1])];
      && |Gains(clauses, [false], [true], Occ(clauses, 1))| - |Losses(clauses, [false], [true], Occ(clauses, 1))| == 2
      && CountSatisfied(clauses, Flip([false], 1)) - CountSatisfied(clauses, [false]) == 1
  {
    var clauses := [Clause([1, 1], [1, 1])];
    assert Flip([false], 1) == [true];
    assert LiteralHolds(1, [true]);
    assert !LiteralHolds(clauses[0].literals[0], [false]) && !LiteralHolds(clauses[0].literals[1], [false]);
    assert Satisfied(clauses[0].literals, [true]);
    assert !Satisfied(clauses[0].literals, [false]);
    assert Consistent(clauses, [false], [false]);
    ScoreIsWeightedGain(clauses, [false], [false], 1);
    assert [1, 1][..1] == [1];
    assert CountVar([1, 1], 1) == 2;
    assert clauses[..0] == [];
  }
}
