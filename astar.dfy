/**
 * The A* solver of `LadderGamePriority`: records wait in the priority tree,
 * least `moves + diff(word, end)` first, and the visited tree keeps for each
 * word the fewest moves with which it was inserted. The working copy of the
 * dictionary is only read, never trimmed, and the enqueue count is the
 * game's `totalEnqueues` field.
 */
module AStar {

  import opened Wrappers
  import opened Ladders
  import opened PriorityInfo
  import opened OrderedTree
  import opened Game
  import opened AStarInvariant

  /**
   * What `LadderGamePriority.play` reports for `start` and `end` over the
   * dictionary index `dictionary`: `validateInput` first; then the same word,
   * printed as the two-word ladder `[start end]` with no enqueues; otherwise a
   * shortest ladder, or none.
   */
  ghost predicate AStarOutcome(dictionary: seq<seq<string>>, start: string, end: string, r: Outcome)
  {
    if |start| != |end| then r == Invalid(UnequalLength)
    else if |start| >= |dictionary| then r == Invalid(NoSuchBucket)
    else if start !in dictionary[|start|] || end !in dictionary[|start|] then r == Invalid(NotInDictionary)
    else if start == end then r == Found([start, end], 0, 0)
    else SolvedCorrectly(dictionary[|start|], start, end, r)
  }

  /**
   * The insertion for a neighbour `x` of the popped record `m` reached in
   * fewer moves than known: a new record goes into the tree, the visited map
   * records the moves, and the insertion is counted.
   */
  method Record(game: LadderGame, ghost bucket: seq<string>, start: string, end: string,
                queue: set<WordInfoPriority>, visited: map<string, nat>, m: WordInfoPriority,
                ghost done: seq<string>, x: string)
      returns (queue': set<WordInfoPriority>, visited': map<string, nat>)
    requires ExpandInv(bucket, start, end, queue, visited, m, done)
    requires x in bucket && OneApart(m.word, x) && x != end
    requires x !in visited || m.moves + 1 < visited[x]
    modifies game`totalEnqueues
    ensures ExpandInv(bucket, start, end, queue', visited', m, done + [x])
    ensures visited' == visited[x := m.moves + 1] && queue' == queue + {Child(m, x, end)}
    ensures |queue'| == |queue| + 1 && game.totalEnqueues == old(game.totalEnqueues) + 1
  {
    var currentMoves := m.moves + 1;
    var estimate := Diff(x, end);
    InsertAllowed(bucket, start, end, queue, visited, m, x);
    ExpandRelax(bucket, start, end, queue, visited, m, done, x);
    queue' := Insert(queue, NewWordInfoPriorityWithHistory(x, currentMoves, estimate, m.history + [x]));
    visited' := visited[x := currentMoves];
    game.totalEnqueues := game.totalEnqueues + 1;
  }

  /**
   * The `else` branch of the inner loop for a neighbour `x` of the popped
   * record `m`: a word seen before is inserted again only when it is now
   * reached in fewer moves, and an unseen word is inserted and recorded; each
   * insertion is counted.
   */
  method Visit(game: LadderGame, ghost bucket: seq<string>, start: string, end: string,
               queue: set<WordInfoPriority>, visited: map<string, nat>, m: WordInfoPriority,
               ghost done: seq<string>, x: string,
               ghost visited0: map<string, nat>, ghost queue0: set<WordInfoPriority>)
      returns (queue': set<WordInfoPriority>, visited': map<string, nat>)
    requires ExpandInv(bucket, start, end, queue, visited, m, done)
    requires NoGrowth(bucket, visited0, queue0, visited, queue)
    requires x in bucket && OneApart(m.word, x) && x != end
    modifies game`totalEnqueues
    ensures ExpandInv(bucket, start, end, queue', visited', m, done + [x])
    ensures NoGrowth(bucket, visited0, queue0, visited', queue')
    ensures queue <= queue' && game.totalEnqueues == old(game.totalEnqueues) + |queue'| - |queue|
    ensures if x !in visited || m.moves + 1 < visited[x]
            then visited' == visited[x := m.moves + 1] && queue' == queue + {Child(m, x, end)} &&
                 game.totalEnqueues == old(game.totalEnqueues) + 1
            else visited' == visited && queue' == queue && game.totalEnqueues == old(game.totalEnqueues)
  {
    var currentMoves := m.moves + 1;
    if x in visited {
      if currentMoves < visited[x] {
        VisitBetter(bucket, visited, x, currentMoves);
        queue', visited' := Record(game, bucket, start, end, queue, visited, m, done, x);
      } else {
        ExpandSkip(bucket, start, end, queue, visited, m, done, x);
        queue', visited' := queue, visited;
      }
    } else {
      VisitNew(bucket, visited, x, currentMoves);
      queue', visited' := Record(game, bucket, start, end, queue, visited, m, done, x);
    }
  }

  /**
   * The `for` loop over the neighbours of the popped record `m`: it stops at
   * the end word; otherwise every neighbour is visited, after which the word
   * of `m` is expanded.
   */
  method Expand(game: LadderGame, ghost bucket: seq<string>, start: string, end: string,
                queue: set<WordInfoPriority>, visited: map<string, nat>, m: WordInfoPriority,
                oneAwayWords: seq<string>)
      returns (found: bool, queue': set<WordInfoPriority>, visited': map<string, nat>)
    requires ExpandInv(bucket, start, end, queue, visited, m, [])
    requires forall x :: x in oneAwayWords <==> x in bucket && OneApart(m.word, x)
    modifies game`totalEnqueues
    ensures found <==> end in oneAwayWords
    ensures !found ==> AStarInv(bucket, start, end, queue', visited') && NoGrowth(bucket, visited, queue, visited', queue')
    ensures queue <= queue' && game.totalEnqueues == old(game.totalEnqueues) + |queue'| - |queue|
  {
    queue', visited' := queue, visited;
    for i := 0 to |oneAwayWords|
      invariant ExpandInv(bucket, start, end, queue', visited', m, oneAwayWords[..i])
      invariant NoGrowth(bucket, visited, queue, visited', queue')
      invariant end !in oneAwayWords[..i]
      invariant queue <= queue' && game.totalEnqueues == old(game.totalEnqueues) + |queue'| - |queue|
    {
      var word := oneAwayWords[i];
      if word == end {
        return true, queue', visited';
      }
      queue', visited' := Visit(game, bucket, start, end, queue', visited', m, oneAwayWords[..i], word, visited, queue);
      TakeOneMore(oneAwayWords, i);
    }
    assert oneAwayWords[..|oneAwayWords|] == oneAwayWords;
    ExpandEnd(bucket, start, end, queue', visited', m, oneAwayWords);
    found := false;
  }

  /** `deleteMin` on the priority tree: a least record comes out, and its expansion can begin. */
  method Pop(ghost bucket: seq<string>, start: string, end: string,
             queue: set<WordInfoPriority>, visited: map<string, nat>)
      returns (currentBest: WordInfoPriority, rest: set<WordInfoPriority>)
    requires AStarInv(bucket, start, end, queue, visited) && queue != {}
    ensures IsLeast(currentBest, queue) && rest == queue - {currentBest} && |rest| == |queue| - 1
    ensures |currentBest.word| == |end|
    ensures ExpandInv(bucket, start, end, rest, visited, currentBest, [])
  {
    var next;
    next, rest := DeleteMin(queue);
    currentBest := next.value;
    assert EntryOk(bucket, start, end, visited, currentBest);
    ExpandBegin(bucket, start, end, queue, visited, currentBest);
  }

  /**
   * One round of the `while` loop: take a least record out of the tree and
   * expand it. The round either reports a shortest ladder or keeps the
   * invariant with a smaller measure.
   */
  method Round(game: LadderGame, ghost bucket: seq<string>, start: string, end: string,
               queue: set<WordInfoPriority>, visited: map<string, nat>)
      returns (r: Option<Outcome>, queue': set<WordInfoPriority>, visited': map<string, nat>)
    requires game.Valid() && |start| == |end| && |start| < |game.dictionary|
    requires bucket == game.dictionaryCopy[|start|] && end in bucket
    requires AStarInv(bucket, start, end, queue, visited) && queue != {}
    requires game.totalEnqueues >= |queue|
    modifies game`dictionaryCopy, game`totalEnqueues
    ensures game.Valid() && game.dictionaryCopy == old(game.dictionaryCopy)
    ensures game.totalEnqueues == old(game.totalEnqueues) + |queue'| - (|queue| - 1)
    ensures r.Some? ==> r.value.Found? && SolvedCorrectly(bucket, start, end, r.value) && r.value.enqueues == game.totalEnqueues
    ensures r.None? ==> AStarInv(bucket, start, end, queue', visited') && Decreased(bucket, visited, queue, visited', queue')
  {
    var currentBest, rest := Pop(bucket, start, end, queue, visited);
    var oneAwayWords := game.OneAway(currentBest.word, false);
    NeighboursMembers(currentBest.word, bucket);
    var found;
    found, queue', visited' := Expand(game, bucket, start, end, rest, visited, currentBest, oneAwayWords);
    if found {
      PoppedSolves(bucket, start, end, queue, visited, currentBest, game.totalEnqueues);
      return Some(Found(currentBest.history + [end], currentBest.moves + 1, game.totalEnqueues)), queue', visited';
    }
    RoundDecreases(bucket, visited, queue, currentBest, visited', queue');
    r := None;
  }

  /**
   * The search of `play` once the input is valid and the words differ: the
   * start record is inserted and counted, then rounds run until a ladder is
   * found or the tree is empty.
   */
  method Search(game: LadderGame, start: string, end: string) returns (r: Outcome)
    requires game.Valid() && |start| == |end| && |start| < |game.dictionary|
    requires game.dictionaryCopy[|start|] == game.dictionary[|start|]
    requires start != end && start in game.dictionary[|start|] && end in game.dictionary[|start|]
    requires game.totalEnqueues == 0
    modifies game`dictionaryCopy, game`totalEnqueues
    ensures game.Valid() && game.dictionaryCopy == old(game.dictionaryCopy)
    ensures SolvedCorrectly(game.dictionary[|start|], start, end, r) && r.enqueues == game.totalEnqueues
    ensures 1 <= r.enqueues
  {
    ghost var bucket := game.dictionary[|start|];
    var estimate := Diff(start, end);
    var priorityQueue := Insert({}, NewWordInfoPriority(start, 0, estimate));
    var previousWords: map<string, nat> := map[start := 0];
    game.totalEnqueues := game.totalEnqueues + 1;
    AStarInit(bucket, start, end);

    while priorityQueue != {}
      invariant game.Valid() && game.dictionaryCopy == old(game.dictionaryCopy)
      invariant AStarInv(bucket, start, end, priorityQueue, previousWords)
      invariant game.totalEnqueues >= 1 && game.totalEnqueues >= |priorityQueue|
      decreases Unvisited(bucket, previousWords), Slots(previousWords), |priorityQueue|
    {
      var done;
      done, priorityQueue, previousWords := Round(game, bucket, start, end, priorityQueue, previousWords);
      if done.Some? {
        return done.value;
      }
    }
    AStarExhausted(bucket, start, end, previousWords);
    return NoLadder(game.totalEnqueues);
  }

  /**
   * `LadderGamePriority.play`: reset the working copy and the enqueue count,
   * validate the input, answer the same word at once, otherwise search.
   */
  method Play(game: LadderGame, start: string, end: string) returns (r: Outcome)
    requires Bucketed(game.dictionary)
    modifies game`dictionaryCopy, game`totalEnqueues
    ensures game.Valid() && game.dictionaryCopy == game.dictionary
    ensures AStarOutcome(game.dictionary, start, end, r)
    ensures r.Invalid? || r.enqueues == game.totalEnqueues
    ensures r.Invalid? || start == end ==> game.totalEnqueues == 0
    ensures start != end && !r.Invalid? ==> 1 <= r.enqueues
  {
    game.Reset();
    var error := game.ValidateInput(start, end);
    if error.Some? {
      return Invalid(error.value);
    }
    if start == end {
      return Found([start, end], 0, 0);
    }
    r := Search(game, start, end);
  }

}
