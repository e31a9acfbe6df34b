/**
 * `WordInfoPriority`: a ladder node with the A* priority `moves + estimatedWork`,
 * ordered by priority and then by word.
 */
module PriorityInfo {

  import opened Ladders

  datatype WordInfoPriority = WordInfoPriority(word: string, moves: nat, history: seq<string>, priority: int)

  /** The constructor without a history: the history is the word alone. */
  function NewWordInfoPriority(word: string, moves: nat, estimatedWork: int): (r: WordInfoPriority)
    ensures r.word == word && r.moves == moves && r.history == [word]
    ensures r.priority - r.moves == estimatedWork
  {
    WordInfoPriority(word, moves, [word], estimatedWork + moves)
  }

  /** The constructor with an explicit history. */
  function NewWordInfoPriorityWithHistory(word: string, moves: nat, estimatedWork: int, history: seq<string>): (r: WordInfoPriority)
    ensures r.word == word && r.moves == moves && r.history == history
    ensures r.priority - r.moves == estimatedWork
  {
    WordInfoPriority(word, moves, history, estimatedWork + moves)
  }

  /** With a non-negative estimate (as a distance always is) the priority is at least the moves. */
  lemma PriorityAtLeastMoves(word: string, moves: nat, estimatedWork: int, history: seq<string>)
    requires estimatedWork >= 0
    ensures NewWordInfoPriority(word, moves, estimatedWork).priority >= moves
    ensures NewWordInfoPriorityWithHistory(word, moves, estimatedWork, history).priority >= moves
  {
  }

  /** Java's `Integer.compare`. */
  function IntegerCompare(x: int, y: int): (r: int)
    ensures r < 0 <==> x < y
    ensures r == 0 <==> x == y
  {
    if x < y then -1 else if x == y then 0 else 1
  }

  /** `compareTo`: by priority first, then by word. */
  function CompareTo(a: WordInfoPriority, b: WordInfoPriority): (r: int)
    ensures a.priority < b.priority ==> r < 0
    ensures a.priority > b.priority ==> r > 0
    ensures a.priority == b.priority ==> r == CompareStrings(a.word, b.word)
  {
    var res := IntegerCompare(a.priority, b.priority);
    if res != 0 then res else CompareStrings(a.word, b.word)
  }

  /** Two records compare equal exactly when they have the same priority and the same word. */
  lemma CompareToZeroIff(a: WordInfoPriority, b: WordInfoPriority)
    ensures CompareTo(a, b) == 0 <==> a.priority == b.priority && a.word == b.word
  {
    CompareStringsZeroIff(a.word, b.word);
  }

  /** Swapping the operands negates the comparison. */
  lemma CompareToAntisymmetric(a: WordInfoPriority, b: WordInfoPriority)
    ensures CompareTo(a, b) == -CompareTo(b, a)
  {
    CompareStringsAntisymmetric(a.word, b.word);
  }

  /** The strict order is transitive. */
  lemma CompareToTransitive(a: WordInfoPriority, b: WordInfoPriority, c: WordInfoPriority)
    requires CompareTo(a, b) < 0 && CompareTo(b, c) < 0
    ensures CompareTo(a, c) < 0
  {
    if a.priority == b.priority == c.priority {
      CompareStringsTransitive(a.word, b.word, c.word);
    }
  }

  /** The non-strict order is transitive too, so `compareTo` is a total preorder on records. */
  lemma CompareToAtMostTransitive(a: WordInfoPriority, b: WordInfoPriority, c: WordInfoPriority)
    requires CompareTo(a, b) <= 0 && CompareTo(b, c) <= 0
    ensures CompareTo(a, c) <= 0
  {
    CompareToZeroIff(a, b);
    CompareToZeroIff(b, c);
    CompareToZeroIff(a, c);
    if CompareTo(a, b) < 0 && CompareTo(b, c) < 0 {
      CompareToTransitive(a, b, c);
    }
  }

}
