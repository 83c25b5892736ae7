/** The best-result record shared by all workers: best score and the assignment that reached it. */
module Coordinator {
  import opened Clauses

  datatype Option<T> = None | Some(value: T)

  class BestResult {
    var bestScore: int
    /** None until the first improvement (a null list in the Java program). */
    var bestResult: Option<seq<bool>>

    /** The record the driver creates before the workers start: score 0, no assignment. */
    constructor ()
      ensures bestScore == 0 && bestResult == None
    {
      bestScore := 0;
      bestResult := None;
    }

    /** The stored assignment, if any, is over n variables and satisfies exactly bestScore clauses. */
    ghost predicate Sound(clauses: seq<Clause>, n: nat)
      reads this
      requires WellFormed(clauses, n)
    {
      && (bestResult.None? ==> bestScore == 0)
      && (bestResult.Some? ==> |bestResult.value| == n && CountSatisfied(clauses, bestResult.value) == bestScore)
    }

    /** getBestScore: the best score recorded so far. */
    function GetBestScore(): (r: int)
      reads this
      ensures r == bestScore
    {
      bestScore
    }

    /** Improve-if-better: only a strictly higher score replaces the record, and the stored
        assignment is a copy, unaffected by later changes to result. */
    method SetBest(result: array<bool>, score: int)
      modifies this
      ensures score > old(bestScore) ==> bestScore == score && bestResult == Some(result[..])
      ensures score <= old(bestScore) ==> bestScore == old(bestScore) && bestResult == old(bestResult)
      ensures bestScore >= old(bestScore)
    {
      if score > bestScore {
        bestScore := score;
        bestResult := Some(result[..]);
      }
    }
  }
}
