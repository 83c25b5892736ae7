# MaxSAT by stochastic local search — a Dafny model

This project models one search worker of `MaxSATSolver`, a multi-threaded MaxSAT solver built on
stochastic local search. An instance has `VARIABLE_COUNT` boolean variables and `CLAUSE_COUNT`
clauses. Each clause has `LITERAL_COUNT_PER_CLAUSE` signed literals; literal `l` names variable
`|l|`, which is stored at index `|l| - 1` of an assignment. The goal is an assignment that
satisfies as many clauses as possible.

The worker keeps three kinds of state:

- a cached truth value (`state`) per clause;
- an occurrence index from each variable to the clauses that mention it, once per literal;
- two delta maps (`newlySatisfiedClausesMap`, `newlyUnsatisfiedClausesMap`).

Each step picks a random unsatisfied clause. For each of its variables, the worker evaluates a
hypothetical flip and records which clauses would go false→true and true→false. A Novelty++-style
heuristic then picks a variable by flip count or by score (|newly satisfied| − |newly
unsatisfied|), avoiding the variable flipped last. The worker flips it and applies the two
recorded lists to the cached states. Improvements go to a shared best-result record that only
accepts strictly higher scores.

Module layout:

- `Clauses.dfy` — literals, clauses, `evaluateState`, the clause constructor, the count of
  satisfied clauses.
- `Occurrences.dfy` — the occurrence index (`Occ`) and its construction from the copy
  constructor.
- `Deltas.dfy` — what the delta lists are (`Gains`/`Losses`), how applying them changes the cached
  states (`AfterFlip`), the central invariant `Consistent`, and what the score means.
- `Ranking.dfy` — the comparator ranks and `Collections.sort` as a stable sort.
- `Coordinator.dfy` — the best-result record with `setBest`/`getBestScore`.
- `Search.dfy` — the worker class: delta evaluation, scoring, clause selection, the heuristic,
  the flip step, restarts and `solve`.

The central result is `Deltas.FlipPreservesConsistency`. If every cached clause state equals the
clause's value under the assignment, the same holds after one flip plus its delta lists. Only
clauses listed under the flipped variable can change.

Each step of the inner loop is pinned down exactly. `Search.Solver.Step` says which clause the
draw selects (`PickClause`), what the two delta maps become (`Refreshed`), which variable the
heuristic picks (`Pick`, explained by `Search.PickMeaning`), and what the new assignment, flip
counts, cached states and best-result record are. `Search.Solver.RunSteps`,
`Search.Solver.RunRound` and `Search.Solver.Solve` then say when the loops stop: on a full
score (at once when a round's restart assignment satisfies every clause), on a deadline check
that fires (every hundredth step), or after every step of every round, when no restart
assignment satisfied every clause.

Behaviour of the code the model keeps:

- `recentlyFlippedVariable` starts at 1, not at a sentinel, and is not reset on restart
  (maxSatSolver.java:33, 47, 288-297).
- The delta evaluator walks the clause's literal positions, not its distinct variables. A
  repeated variable is evaluated again with the same result.
- A clause that lists a variable twice appears twice in that variable's occurrence list and
  counts twice in its score. `Deltas.DuplicateLiteralCountsTwice` exhibits this.
  `Search.Solver.ScoreMeaning` proves that the score is the exact change in satisfied clauses
  when no clause repeats a variable.
- The greedy branch reads the second sorted variable, so a greedy draw needs clauses of at least
  two literals. `DrawsFit` asks this of the greedy draws only; a diversification draw works on
  one-literal clauses.
- When a clause repeats its top-ranked variable, the second sorted entry is that same variable,
  so on the anti-thrash draw the code flips again the variable it flipped last.
  `Search.RepeatedTopReflips` exhibits this for (1 ∨ 1 ∨ ¬2).
- The deadline check comes after the publication and the full-score check, so a step that
  reaches every clause reports `Solved` even when its deadline check would also fire.

## Model

| member | source | states |
|---|---|---|
| Clauses.NewClause | maxSatSolver.java:76-82 | the clause keeps its literals, and `absoluteLiterals[i] == |literals[i]|` at every position |
| Clauses.EvaluateState | maxSatSolver.java:88-97 | true exactly when some literal `l` has `assignment[|l|-1] == (l > 0)`, for literals whose variables lie in 1..n |
| Clauses.CountSatisfied | maxSatSolver.java:182-189 | the number of clauses an assignment satisfies never exceeds the number of clauses |
| Occurrences.Occ | maxSatSolver.java:57-67 | every entry of a variable's occurrence list is a clause index |
| Occurrences.OccOrdered | maxSatSolver.java:62-67 | a variable's occurrence list is in clause order, because the clauses are walked in index order |
| Occurrences.OccMultiplicity | maxSatSolver.java:57-67 | clause c appears in v's list exactly as many times as c has literals of variable v, and no other index appears |
| Occurrences.OccMembership | maxSatSolver.java:57-67 | clause c is in v's list exactly when one of its literals has variable v |
| Occurrences.AppendClause | maxSatSolver.java:62-66 | one clause's pass adds clause index i to each variable's list once per literal of that variable and changes nothing else |
| Occurrences.BuildOccurrences | maxSatSolver.java:57-67 | the index has exactly the keys 1..VARIABLE_COUNT, and each list is `Occ` of the clauses |
| Deltas.Gains | maxSatSolver.java:153-159 | every newly-satisfied entry is a clause index |
| Deltas.Losses | maxSatSolver.java:160-163 | every newly-unsatisfied entry is a clause index |
| Deltas.GainsMembership | maxSatSolver.java:153-163 | a clause is in the newly-satisfied list iff it is a candidate cached false that holds after the flip; likewise newly-unsatisfied for cached true that fails |
| Deltas.SetAll | maxSatSolver.java:317-323 | marking a list of clauses sets exactly the listed clauses to the value and leaves the others |
| Deltas.FlipOneClause | maxSatSolver.java:312-323 | after flip plus deltas, a clause's cached state is its value under the flipped assignment, and a clause not listed under v keeps its state |
| Deltas.FlipPreservesConsistency | maxSatSolver.java:312-323 | the cached states stay equal to the clause values after a flip and its two delta lists, and only clauses in `occurences[v]` can change |
| Deltas.CountTrue | maxSatSolver.java:191-198 | the cached count is at most the number of clauses, and equals it exactly when no clause is cached false |
| Deltas.ConsistentCount | maxSatSolver.java:191-198 | under the invariant, `getSatisfiedClauseCount` equals the number of clauses the assignment satisfies (`evaluateAssignment`) |
| Deltas.GainedLostDelta | maxSatSolver.java:157-163 | under the invariant, being newly satisfied minus being newly unsatisfied is the clause's net change |
| Deltas.RepeatGains | maxSatSolver.java:64-66 | a clause listed n times is listed n times among the gains if gained, otherwise not at all; likewise the losses |
| Deltas.NetGainRepeat | maxSatSolver.java:64-66 | a clause listed n times contributes n times its net change to the score |
| Deltas.NetGainPrefix | maxSatSolver.java:153-163 | over the occurrence list of any clause prefix, gains minus losses is the weighted net change of that prefix |
| Deltas.ScoreIsWeightedGain | maxSatSolver.java:225-229 | the score is the sum over clauses of (literals of v in the clause) × (net change of the clause) |
| Deltas.WeightedGainIsNetChange | maxSatSolver.java:225-229 | with no variable repeated in a clause, that weighted sum is the change in the number of satisfied clauses |
| Deltas.DuplicateLiteralCountsTwice | maxSatSolver.java:64-66 | for the clause (1 ∨ 1) under v1 = false, flipping 1 scores 2 while the satisfied count grows by 1 |
| Ranking.FirstMin | maxSatSolver.java:245-250 | the returned position holds a minimal rank, and every earlier position has a strictly larger rank |
| Ranking.NextMin | maxSatSolver.java:253-266 | with the minimum at t removed, the first minimum of the rest is an entry other than t that ranks no worse than every entry except t, and strictly better than every earlier entry except t, so it is the earliest of any tie |
| Ranking.InsertPermutation | maxSatSolver.java:245-266 | inserting adds exactly the one entry |
| Ranking.SortPermutation | maxSatSolver.java:245-266 | the sort is a permutation of its input |
| Ranking.InsertSorted | maxSatSolver.java:245-266 | inserting into a sorted sequence keeps it sorted |
| Ranking.SortSorted | maxSatSolver.java:245-266 | the sort's output is ordered by the comparator |
| Ranking.SortHead | maxSatSolver.java:245-266 | stability: the output starts with the earliest minimal entry, then the rest sorted the same way |
| Ranking.SortFirstTwo | maxSatSolver.java:253-266 | the first two sorted entries are the earliest minimum, then the earliest minimum of what remains |
| Search.UnsatisfiedMembers | maxSatSolver.java:204-211 | the collected list holds exactly the clauses cached false: each entry is a position cached false, and each such position is listed |
| Search.PickClause | maxSatSolver.java:204-222 | when some clause is cached false, the drawn clause is a clause index cached false |
| Search.DiversifyChoice | maxSatSolver.java:244-250 | the head of the flip-count sort is the earliest variable with the fewest flips |
| Search.Score | maxSatSolver.java:225-229 | `getScore` lies between minus the length of the newly-unsatisfied list and the length of the newly-satisfied list of the literal's variable |
| Search.GreedyOrder | maxSatSolver.java:253-264 | the greedy comparator ranks variable i no later than j exactly when i has the higher score, or the same score and no more flips |
| Search.GreedyTop | maxSatSolver.java:253-266 | the top of the greedy order has the highest score, the fewest flips among those, and is the earliest such variable |
| Search.GreedyRunnerUp | maxSatSolver.java:253-266 | the second sorted entry is the entry at the next position of the order: a position other than the top's that ranks no worse than every position except the top's and strictly better than every earlier one, so the earliest of tied runners-up (the same variable when the clause repeats it) |
| Search.RepeatedTopReflips | maxSatSolver.java:266-272 | for (1 ∨ 1 ∨ ¬2) under x1 = false, x2 = true, with the delta maps the what-if pass builds (variable 1 scoring 2, variable 2 scoring 1) and variable 1 flipped last, the anti-thrash pick is variable 1 again |
| Search.PickMeaning | maxSatSolver.java:235-279 | the heuristic's pick is a variable of the clause; on the diversification draw the earliest variable with fewest flips; otherwise the greedy top, or, when the top was flipped last and the anti-thrash draw holds, the variable at the next position of the order, which ranks no worse than every position except the top's and strictly better than every earlier one (the same variable when the clause repeats it) |
| Search.Solver.constructor | maxSatSolver.java:36-69 | the worker copies the clauses, builds a well-formed occurrence index, starts with empty delta maps and `recentlyFlippedVariable == 1` |
| Search.Solver.RefreshedMeaning | maxSatSolver.java:144-168 | after the what-if pass over a list of variables, each of them maps to its newly-satisfied (or newly-unsatisfied) list for the flip, and every other entry, key included, is unchanged |
| Search.Solver.VariableDeltas | maxSatSolver.java:144-167 | the two lists built for one variable are the newly-satisfied and newly-unsatisfied clauses of its occurrence list, in order |
| Search.Solver.UpdateSatisfactionMaps | maxSatSolver.java:133-169 | both maps become the old maps refreshed over the selected clause's variables (`Refreshed`, explained by `RefreshedMeaning`); the cached states and the assignment do not change |
| Search.Solver.ScoreMeaning | maxSatSolver.java:225-229 | under the invariant, `getScore(v)` is the weighted net change of flipping v, and the exact change in satisfied clauses when no clause repeats a variable |
| Search.Solver.EvaluateAssignment | maxSatSolver.java:182-189 | returns the number of clauses the assignment satisfies |
| Search.Solver.GetSatisfiedClauseCount | maxSatSolver.java:191-198 | returns the number of clauses cached as satisfied |
| Search.Solver.SelectUnsatisfiedClause | maxSatSolver.java:204-223 | when some clause is unsatisfied, returns `PickClause` of the cached states: entry `pick mod size` of the clauses cached false, in clause order |
| Search.Solver.Heuristic | maxSatSolver.java:235-279 | returns `Pick` of the clause, the flip counts, the current delta maps, the two draws and the last flipped variable (what that pick is: `Search.PickMeaning`) |
| Search.Solver.ApplyDeltas | maxSatSolver.java:317-323 | the newly satisfied clauses of the flipped variable become true, then its newly unsatisfied ones false; nothing else changes |
| Search.Solver.Restart | maxSatSolver.java:288-297 | fresh assignment equal to the draw, all flip counts zero, every cached state equal to its clause's value |
| Search.Solver.FlipVariable | maxSatSolver.java:312-323 | flips the variable, adds exactly 1 to its flip count, records it as last flipped, and keeps the invariant; only clauses listed under it change |
| Search.Solver.Publish | maxSatSolver.java:325-331 | when the current count beats the best score the record becomes that count and a copy of the assignment, otherwise it is unchanged; the record stays sound; the result says whether the best score equals the clause count |
| Search.Solver.ChooseVariable | maxSatSolver.java:306-310 | `Chosen`: the clause is `PickClause` of the cached states and the draw, both delta maps are `Refreshed` over that clause's variables, and the variable is `Pick` of them with the last flipped variable; that variable's delta lists are fresh for the flip |
| Search.Solver.FlipAndPublish | maxSatSolver.java:312-331 | the new assignment is the old one with the variable flipped, its flip count grows by 1, it is recorded as last flipped, the cached states are the old ones after its delta lists, the invariant holds, and the record is updated exactly as `Publish` says |
| Search.Solver.Step | maxSatSolver.java:306-331 | one step: `Chosen` on the state before the step (which clause, which delta maps, which variable), then exactly the flip, flip count, last-flipped, cached-state and best-record updates of `FlipAndPublish`; when the best score is below the clause count some clause is still cached false |
| Search.Solver.Advance | maxSatSolver.java:306-331 | a step keeps the invariant and a sound, non-decreasing record, and reports whether the best score equals the clause count |
| Search.Solver.RunSteps | maxSatSolver.java:304-340 | the inner loop keeps the cached states equal to the clause values under the assignment; it reports solved exactly when the best score equals the clause count; it times out only on step j with `j % 100 == 0` whose deadline had passed, after no earlier step met the check; otherwise it ran all MAX_STEPS steps, none meeting the check |
| Search.Solver.RunRound | maxSatSolver.java:286-340 | a round stops before any step exactly when the restart assignment satisfies every clause, and then reports solved; otherwise it ends as `RunSteps` says; the record stays sound and monotone |
| Search.Solver.Solve | maxSatSolver.java:281-343 | `Solved` leaves a stored assignment satisfying every clause when there is at least one clause; when there is at least one round, any other outcome leaves the best score below the clause count; a first round whose restart assignment satisfies every clause ends the run `Solved`; `TimedOut` means some round with an unsatisfying restart assignment met the deadline check after every earlier round ran all its steps without meeting it and without a satisfying restart assignment; `RoundsExhausted` means no round met the check and no restart assignment satisfied every clause |
| Coordinator.BestResult.constructor | maxSatSolver.java:398-399 | the record starts with score 0 and no assignment |
| Coordinator.BestResult.GetBestScore | maxSatSolver.java:349-351 | returns the best score recorded so far |
| Coordinator.BestResult.SetBest | maxSatSolver.java:353-358 | a strictly higher score replaces the score and stores a copy of the assignment; otherwise nothing changes; the score never decreases |

## Left out

- Threads, `run`, `synchronized`, the static shared fields and the driver in `main`
  (maxSatSolver.java:345-347, 397-461) are not modelled. The best-result record is a sequential
  object passed to the worker.
- `init` reads the instance from standard input (maxSatSolver.java:362-395). The worker's
  constructor takes the literals as a parameter, and the index build is modelled once, from the
  copy constructor.
- All printing is left out.
- `java.util.Random` is replaced by inputs. The random assignments (`generateRandomAssignment`)
  and the per-step draws are the `Round` and `Draw` values given to `Solve`. `nextInt(size)`
  becomes a natural number reduced modulo `size`.
- The float comparisons against `DP_CONST` and `P_CONST` (maxSatSolver.java:244, 271) become the
  booleans `diversify` and `antiThrash` of each draw.
- The wall clock (`System.currentTimeMillis`, `startTime`, `bestTime`, `computeStart`) is left
  out. Each draw carries a boolean saying whether the deadline had passed; it is consulted on
  every hundredth step, as the code does.
- Search.Solver.Solve: the `Long.MAX_VALUE` restart loop runs over a finite sequence of rounds,
  so termination after unboundedly many restarts is not modelled.
- Search.Solver.Advance, Search.Solver.RunSteps, Search.Solver.RunRound, Search.Solver.Solve:
  they do not restate which clause and variable each step takes, nor the assignment, flip counts
  and cached states it leaves behind; every step is pinned by `Search.Solver.Step`. Advance and
  RunSteps state the invariant, the best record and when the loop stops; RunRound and Solve
  hold the assignment in a local, so they state only the best record and when the loops stop.
- The unused `bestState` and `maxSatisfiedCount` locals at the start of `solve`
  (maxSatSolver.java:283-284) have no effect and are left out.
- `Clause.potentialState` is a field in the code but is written and read at once
  (maxSatSolver.java:154-161). It is a local of `VariableDeltas`. `setState` and
  `setPotentialState` are inlined at their call sites.
- Clause objects are identified by their index in the clause list. Their `state` fields are one
  boolean array of the worker. Each clause is a distinct object in the code, so this loses no
  aliasing.
- Search.Solver.Heuristic: the in-place `Collections.sort` of a local list is modelled as a
  stable sort over a sequence. The method takes the flip counts as a sequence, since it only
  reads them.
- Java's 32-bit `int` is not modelled. Scores, flip counts and comparator differences are
  unbounded integers; flip counts stay below `MAX_STEPS` within a restart, so no wrap-around
  occurs at the modelled sizes.
- Search.Solver.Solve, Search.Solver.RunRound, Search.Solver.RunSteps, Search.Solver.Step: a
  greedy draw requires clauses of at least two literals (`DrawsFit`), because
  `variables.get(1)` fails on a one-literal clause; the failure itself is not modelled.
  `DrawsFit` constrains every draw of a round, including draws after the step that solves or
  times out, which the code never reaches.
