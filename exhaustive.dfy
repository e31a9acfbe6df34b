/** The solver of LadderGameExhaustive. */
module Exhaustive {

  import opened Wrappers
  import opened Ladders
  import opened Fifo
  import opened Game
  import opened Bfs


  /**
   * What `LadderGameExhaustive.play` reports for `start` and `end` over the
   * dictionary index `dictionary`: the three input errors, checked in the
   * Java order; the same word as a ladder of 0 moves, checked before the
   * dictionary is consulted; otherwise a shortest ladder, or none.
   */
  ghost predicate ExhaustiveOutcome(dictionary: seq<seq<string>>, start: string, end: string, r: Outcome)
  {
    if |start| != |end| then r == Invalid(UnequalLength)
    else if start == end then r == Found([start], 0, 0)
    else if |start| >= |dictionary| then r == Invalid(NoSuchBucket)
    else if start !in dictionary[|start|] || end !in dictionary[|start|] then r == Invalid(NotInDictionary)
    else SolvedCorrectly(dictionary[|start|], start, end, r) && 1 <= r.enqueues <= |dictionary[|start|]| + 1
  }

  /**
   * The inner loop stopped at the end word, the `k`-th of `ws` and its first
   * occurrence: the children of the `k` words before it were enqueued, in
   * order, and counted.
   */
  ghost predicate StoppedAtEnd(q0: seq<WordInfo>, q: seq<WordInfo>, u: WordInfo, ws: seq<string>,
                               end: string, e0: nat, e: nat)
  {
    exists k :: 0 <= k < |ws| && ws[k] == end && end !in ws[..k] && e == e0 + k && q == q0 + Extend(u, ws[..k])
  }

  /**
   * The inner loop of `play` over the neighbours `oneAway` returned: each one
   * either completes the ladder (the loop stops there, with the neighbours
   * before it already enqueued) or is enqueued one move further on.
   */
  method EnqueueChildren(solutionQueue: Queue<WordInfo>, currentShortest: WordInfo, moves: nat,
                         oneAwayWords: seq<string>, end: string, totalEnqueues: nat)
      returns (found: bool, enqueues: nat)
    requires solutionQueue.Valid() && currentShortest.moves == moves
    modifies solutionQueue.Repr
    ensures solutionQueue.Valid() && fresh(solutionQueue.Repr - old(solutionQueue.Repr))
    ensures found <==> end in oneAwayWords
    ensures found ==> StoppedAtEnd(old(solutionQueue.Contents), solutionQueue.Contents, currentShortest,
                                   oneAwayWords, end, totalEnqueues, enqueues)
    ensures !found ==> enqueues == totalEnqueues + |oneAwayWords|
    ensures !found ==> solutionQueue.Contents == old(solutionQueue.Contents) + Extend(currentShortest, oneAwayWords)
  {
    ghost var queue := solutionQueue.Contents;
    enqueues := totalEnqueues;
    for j := 0 to |oneAwayWords|
      invariant solutionQueue.Valid() && fresh(solutionQueue.Repr - old(solutionQueue.Repr))
      invariant solutionQueue.Contents == queue + Extend(currentShortest, oneAwayWords[..j])
      invariant end !in oneAwayWords[..j]
      invariant enqueues == totalEnqueues + j
    {
      var w := oneAwayWords[j];
      if w == end {
        return true, enqueues;
      }
      solutionQueue.Enqueue(WordInfo(w, moves + 1, currentShortest.history + [w]));
      enqueues := enqueues + 1;
      assert oneAwayWords[..j + 1][..j] == oneAwayWords[..j];
    }
    assert oneAwayWords[..|oneAwayWords|] == oneAwayWords;
    found := false;
  }

  /**
   * One expansion of the dequeued node: `oneAway` with removal on its word,
   * then the inner loop over the neighbours it returned.
   */
  method ExpandNode(game: LadderGame, n: nat, solutionQueue: Queue<WordInfo>, currentShortest: WordInfo,
                    moves: nat, end: string, totalEnqueues: nat)
      returns (found: bool, enqueues: nat)
    requires game.Valid() && n < |game.dictionary| && |currentShortest.word| == n
    requires currentShortest.moves == moves
    requires solutionQueue.Valid() && game !in solutionQueue.Repr
    modifies game`dictionaryCopy, solutionQueue.Repr
    ensures game.Valid() && solutionQueue.Valid() && fresh(solutionQueue.Repr - old(solutionQueue.Repr))
    ensures var nbrs := Neighbours(currentShortest.word, old(game.dictionaryCopy[n]));
      && game.dictionaryCopy == old(game.dictionaryCopy)[n := Without(old(game.dictionaryCopy[n]), nbrs)]
      && (found <==> end in nbrs)
      && (!found ==> solutionQueue.Contents == old(solutionQueue.Contents) + Extend(currentShortest, nbrs))
      && (found ==> StoppedAtEnd(old(solutionQueue.Contents), solutionQueue.Contents, currentShortest, nbrs, end,
                                 totalEnqueues, enqueues))
      && (!found ==> enqueues == totalEnqueues + |nbrs|)
  {
    var oneAwayWords := game.OneAway(currentShortest.word, true);
    found, enqueues := EnqueueChildren(solutionQueue, currentShortest, moves, oneAwayWords, end, totalEnqueues);
  }

  /**
   * `play`: a fresh working copy, then the input checks in the Java order;
   * the search itself is `Search`.
   */
  method Play(game: LadderGame, start: string, end: string) returns (r: Outcome)
    requires Bucketed(game.dictionary)
    modifies game`dictionaryCopy
    ensures game.Valid()
    ensures ExhaustiveOutcome(game.dictionary, start, end, r)
    ensures r.Invalid? || start == end ==> game.dictionaryCopy == game.dictionary
    ensures |start| < |game.dictionary| ==>
      game.dictionaryCopy == game.dictionary[|start| := game.dictionaryCopy[|start|]] &&
      (forall w :: w in game.dictionaryCopy[|start|] ==> w in game.dictionary[|start|]) &&
      |game.dictionaryCopy[|start|]| <= |game.dictionary[|start|]|
  {
    game.ResetDictionaryCopy();
    if |start| != |end| {
      return Invalid(UnequalLength);
    }
    if start == end {
      return Found([start], 0, 0);
    }
    var wordsOfSameLength := game.WordsOfLength(|start|);
    if wordsOfSameLength.None? {
      return Invalid(NoSuchBucket);
    }
    if start !in wordsOfSameLength.value || end !in wordsOfSameLength.value {
      return Invalid(NotInDictionary);
    }
    r := Search(game, |start|, start, end);
  }

  /**
   * The head of the `play` loop: dequeue the current shortest partial ladder
   * and move the level up when it is one move longer than the level. The
   * `AssertionError` branch, a node more than one move beyond the level,
   * cannot be taken.
   */
  method TakeFront(solutionQueue: Queue<WordInfo>, ghost bucket: seq<string>, start: string, end: string,
                   ghost copy: seq<string>, moves: nat, ghost processed: set<string>)
      returns (currentShortest: WordInfo, moves': nat)
    requires solutionQueue.Valid() && solutionQueue.Contents != []
    requires BfsInv(bucket, start, end, copy, solutionQueue.Contents, processed, moves)
    modifies solutionQueue.Repr
    ensures solutionQueue.Valid() && solutionQueue.Repr == old(solutionQueue.Repr)
    ensures currentShortest == old(solutionQueue.Contents[0]) && solutionQueue.Contents == old(solutionQueue.Contents[1..])
    ensures moves' == currentShortest.moves && (moves' == moves || moves' == moves + 1)
    ensures BfsInv(bucket, start, end, copy, old(solutionQueue.Contents), processed, moves')
  {
    ghost var queue := solutionQueue.Contents;
    var next := solutionQueue.Dequeue();
    currentShortest := next.value;
    moves' := moves;
    if currentShortest.moves == moves + 1 {
      BfsBump(bucket, start, end, copy, queue, processed, moves);
      moves' := moves + 1;
    } else if currentShortest.moves > moves + 1 {
      assert false;
    }
  }

  /**
   * One round of the `play` loop: take the front node, then expand it. The
   * round either reports a shortest ladder or keeps the invariant with a
   * smaller total of words left in the copy and nodes queued.
   */
  method Round(game: LadderGame, n: nat, solutionQueue: Queue<WordInfo>, ghost bucket: seq<string>,
               start: string, end: string, moves: nat, totalEnqueues: nat, ghost processed: set<string>)
      returns (r: Option<Outcome>, moves': nat, totalEnqueues': nat, ghost processed': set<string>)
    requires game.Valid() && n < |game.dictionary| && bucket == game.dictionary[n]
    requires solutionQueue.Valid() && game !in solutionQueue.Repr && solutionQueue.Contents != []
    requires BfsInv(bucket, start, end, game.dictionaryCopy[n], solutionQueue.Contents, processed, moves)
    modifies game`dictionaryCopy, solutionQueue.Repr
    ensures game.Valid() && solutionQueue.Valid() && fresh(solutionQueue.Repr - old(solutionQueue.Repr))
    ensures game.dictionaryCopy == old(game.dictionaryCopy)[n := game.dictionaryCopy[n]]
    ensures forall w :: w in game.dictionaryCopy[n] ==> w in old(game.dictionaryCopy[n])
    ensures r.Some? ==> r.value.Found? && SolvedCorrectly(bucket, start, end, r.value) && r.value.enqueues == totalEnqueues'
    ensures totalEnqueues <= totalEnqueues'
    ensures r.Some? ==> totalEnqueues' + |game.dictionaryCopy[n]| < totalEnqueues + old(|game.dictionaryCopy[n]|)
    ensures r.None? ==> totalEnqueues' + |game.dictionaryCopy[n]| == totalEnqueues + old(|game.dictionaryCopy[n]|)
    ensures r.None? ==>
      && BfsInv(bucket, start, end, game.dictionaryCopy[n], solutionQueue.Contents, processed', moves')
      && |game.dictionaryCopy[n]| + |solutionQueue.Contents| < old(|game.dictionaryCopy[n]| + |solutionQueue.Contents|)
  {
    ghost var copy := game.dictionaryCopy[n];
    ghost var queue := solutionQueue.Contents;
    var currentShortest;
    currentShortest, moves' := TakeFront(solutionQueue, bucket, start, end, copy, moves, processed);
    assert NodeOk(bucket, start, end, queue[0]);

    var found;
    found, totalEnqueues' := ExpandNode(game, n, solutionQueue, currentShortest, moves', end, totalEnqueues);
    ghost var nbrs := Neighbours(currentShortest.word, copy);
    assert game.dictionaryCopy[n] == Without(copy, nbrs);
    WithoutMembers(copy, nbrs);
    SplitSizes(currentShortest.word, copy);
    assert |game.dictionaryCopy[n]| + |nbrs| == |copy|;
    if found {
      BfsFound(bucket, start, end, copy, queue, processed, moves');
      return Some(Found(currentShortest.history + [end], moves' + 1, totalEnqueues')), moves', totalEnqueues', processed;
    }
    assert solutionQueue.Contents == queue[1..] + Extend(currentShortest, nbrs);
    BfsStep(bucket, start, end, copy, queue, processed, moves');
    r, processed' := None, processed + {currentShortest.word};
  }

  /**
   * The search of `play`: breadth-first through the FIFO queue, removing each
   * word from the working copy as it is first reached; the reported enqueue
   * count is the local `totalEnqueues`, which every enqueue after the first
   * pays for with one word taken out of the copy.
   */
  method Search(game: LadderGame, n: nat, start: string, end: string) returns (r: Outcome)
    requires game.Valid() && n < |game.dictionary| && game.dictionaryCopy[n] == game.dictionary[n]
    requires start != end && start in game.dictionary[n] && end in game.dictionary[n]
    modifies game`dictionaryCopy
    ensures game.Valid()
    ensures SolvedCorrectly(game.dictionary[n], start, end, r)
    ensures 1 <= r.enqueues <= |game.dictionary[n]| + 1
    ensures game.dictionaryCopy == old(game.dictionaryCopy)[n := game.dictionaryCopy[n]]
    ensures forall w :: w in game.dictionaryCopy[n] ==> w in game.dictionary[n]
    ensures |game.dictionaryCopy[n]| <= |game.dictionary[n]|
  {
    var moves: nat := 0;
    var totalEnqueues: nat := 0;
    var solutionQueue := new Queue<WordInfo>();
    solutionQueue.Enqueue(WordInfo(start, moves, [start]));
    totalEnqueues := totalEnqueues + 1;
    BfsInit(game.dictionary[n], start, end);
    assert solutionQueue.Contents == [WordInfo(start, 0, [start])];
    r := Drain(game, n, solutionQueue, start, end, moves, totalEnqueues);
  }

  /** Two updates of the same bucket amount to the last one. */
  lemma UpdateTwice(d: seq<seq<string>>, n: nat, a: seq<string>, b: seq<string>)
    requires n < |d|
    ensures d[n := a][n := b] == d[n := b]
  {
  }

  /** The `while` loop of `play`, run until a ladder is found or the queue is empty. */
  method Drain(game: LadderGame, n: nat, solutionQueue: Queue<WordInfo>, start: string, end: string,
               moves: nat, totalEnqueues: nat) returns (r: Outcome)
    requires game.Valid() && n < |game.dictionary|
    requires solutionQueue.Valid() && game !in solutionQueue.Repr
    requires BfsInv(game.dictionary[n], start, end, game.dictionaryCopy[n], solutionQueue.Contents, {}, moves)
    requires 1 <= totalEnqueues && totalEnqueues + |game.dictionaryCopy[n]| == |game.dictionary[n]| + 1
    modifies game`dictionaryCopy, solutionQueue.Repr
    ensures game.Valid()
    ensures SolvedCorrectly(game.dictionary[n], start, end, r)
    ensures 1 <= r.enqueues <= |game.dictionary[n]| + 1
    ensures game.dictionaryCopy == old(game.dictionaryCopy)[n := game.dictionaryCopy[n]]
    ensures forall w :: w in game.dictionaryCopy[n] ==> w in game.dictionary[n]
    ensures |game.dictionaryCopy[n]| <= |game.dictionary[n]|
  {
    ghost var bucket := game.dictionary[n];
    ghost var processed: set<string> := {};
    var moves: nat, totalEnqueues: nat := moves, totalEnqueues;
    while !solutionQueue.IsEmpty()
      invariant game.Valid()
      invariant game.dictionaryCopy == old(game.dictionaryCopy)[n := game.dictionaryCopy[n]]
      invariant solutionQueue.Valid() && game !in solutionQueue.Repr
      invariant fresh(solutionQueue.Repr - old(solutionQueue.Repr))
      invariant BfsInv(bucket, start, end, game.dictionaryCopy[n], solutionQueue.Contents, processed, moves)
      invariant 1 <= totalEnqueues && totalEnqueues + |game.dictionaryCopy[n]| == |bucket| + 1
      decreases |game.dictionaryCopy[n]| + |solutionQueue.Contents|
    {
      var done;
      ghost var before := game.dictionaryCopy;
      done, moves, totalEnqueues, processed := Round(game, n, solutionQueue, bucket, start, end, moves, totalEnqueues, processed);
      UpdateTwice(old(game.dictionaryCopy), n, before[n], game.dictionaryCopy[n]);
      if done.Some? {
        return done.value;
      }
    }
    BfsExhausted(bucket, start, end, game.dictionaryCopy[n], processed, moves);
    return NoLadder(totalEnqueues);
  }

}
