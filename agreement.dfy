/**
 * What the two solvers have in common: for two different words, the
 * breadth-first and the A* solver reject the same inputs for the same
 * reason, find a ladder for the same inputs, and report the same number of
 * moves. Their enqueue counts and the ladders they print may differ.
 */
module Agreement {

  import opened Ladders
  import opened Game
  import opened Exhaustive
  import opened AStar

  /** Two shortest ladders between the same words have the same length. */
  lemma ShortestUnique(bucket: seq<string>, start: string, end: string, p: seq<string>, q: seq<string>)
    requires IsShortestLadder(p, bucket, start, end) && IsShortestLadder(q, bucket, start, end)
    ensures |p| == |q|
  {
    assert |p| <= |q|;
    assert |q| <= |p|;
  }

  /** For two different words, both solvers agree on the verdict and on the moves of a ladder. */
  lemma SolversAgree(dictionary: seq<seq<string>>, start: string, end: string, r1: Outcome, r2: Outcome)
    requires start != end
    requires ExhaustiveOutcome(dictionary, start, end, r1) && AStarOutcome(dictionary, start, end, r2)
    ensures r1.Invalid? <==> r2.Invalid?
    ensures r1.Invalid? ==> r1 == r2
    ensures r1.Found? <==> r2.Found?
    ensures r1.Found? && r2.Found? ==> r1.moves == r2.moves && |r1.path| == |r2.path|
  {
    if |start| == |end| && |start| < |dictionary| && start in dictionary[|start|] && end in dictionary[|start|] {
      var bucket := dictionary[|start|];
      if r1.Found? && r2.Found? {
        ShortestUnique(bucket, start, end, r1.path, r2.path);
      }
    }
  }

  /**
   * For the same word the solvers differ: the breadth-first solver answers
   * before consulting the dictionary, with the one-word ladder, while the A*
   * solver answers only for a word of the dictionary, with that word printed
   * twice. Both report no moves.
   */
  lemma SameWordAnswers(dictionary: seq<seq<string>>, w: string, r1: Outcome, r2: Outcome)
    requires ExhaustiveOutcome(dictionary, w, w, r1) && AStarOutcome(dictionary, w, w, r2)
    ensures r1 == Found([w], 0, 0)
    ensures r2.Found? <==> |w| < |dictionary| && w in dictionary[|w|]
    ensures r2.Found? ==> r2 == Found([w, w], 0, 0)
  {
  }

}
