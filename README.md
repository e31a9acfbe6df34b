# Word ladders, modelled in Dafny

A word ladder turns a start word into an end word of the same length. Each
step changes exactly one letter, and every intermediate word must be in the
dictionary. This project models the search engine of a Java word-ladder
solver and proves what its two solvers report:

- the breadth-first solver (`LadderGameExhaustive`) reports a shortest ladder;
- the A* solver (`LadderGamePriority`) reports a shortest ladder too;
- "no ladder" is reported only when none exists;
- input errors are reported in the order the code checks them.

Modules, one per part of the program:

- `Ladders` (ladders.dfy)
  - `diff` as the Hamming distance `Hamming` with a counting loop `Diff`.
  - `String.compareTo` as `CompareStrings`.
  - `WordInfo(word, moves, history)`, the partial-ladder record.
  - What a ladder, a shortest ladder and reachability within `k` moves are.
- `Fifo` (queue.dfy): the hand-rolled doubly linked `Queue<E>` as a class
  over linked `Item`s.
  - The ghost `nodes` and `Contents` list the items and their values, oldest
    first.
  - `Valid` is the link invariant.
- `PriorityInfo` (priority.dfy): `WordInfoPriority`, its two constructors
  and `compareTo`.
- `OrderedTree` (ordered_tree.dfy): the two AVL trees of the A* solver, by
  what they hold.
  - The priority tree is a finite set of records, with `Insert` and a
    `DeleteMin` under `compareTo`.
  - The visited tree of `PreviousWord`s is keyed by word alone, so the
    solver holds it as a `map<string, nat>`.
- `Game` (ladder_game.dfy): the `LadderGame` class.
  - Fields: the dictionary index (bucket `n` holds the words of length `n`),
    the per-run working copy and `totalEnqueues`.
  - Members: the bucketing of `readDictionary`, `reset`,
    `resetDictionaryCopy`, `getWordsOfLength`, `validateInput` and `oneAway`.
  - The `Outcome` datatype stands for what a solve call prints:
    `Found(path, moves, enqueues)`, `NoLadder(enqueues)` or
    `Invalid(error)`.
- `Bfs` (bfs.dfy): the loop invariant of the breadth-first search and the
  lemmas that keep it.
- `Exhaustive` (exhaustive.dfy): `LadderGameExhaustive.play`.
  - The FIFO loop, split into methods: dequeue and level update, then
    expansion, then the inner enqueue loop.
  - The search destructively removes words from the working copy.
- `AStarInvariant` (astar_invariant.dfy): the loop invariant of the A*
  search and its termination measure.
- `AStar` (astar.dfy): `LadderGamePriority.play`.
  - The priority-tree loop, with relaxation of the visited map.
  - The enqueue counter is the game's `totalEnqueues` field.
- `Agreement` (agreement.dfy): the two solvers agree on verdicts and move
  counts for different words. They differ on the same word.

The exceptions the Java code throws become values:

- `IllegalArgumentException` for unequal lengths is
  `Invalid(UnequalLength)`.
- `IllegalArgumentException` for a word missing from the dictionary is
  `Invalid(NotInDictionary)`.
- `IndexOutOfBoundsException` from `getWordsOfLength` for a length longer
  than any dictionary word is `Invalid(NoSuchBucket)`.
- `NoSuchElementException` from `dequeue` on an empty queue is `None`.

The word list that `readDictionary` reads from a file is a parameter of the
`LadderGame` constructor.

Both solvers are module-level methods taking the `LadderGame` object, not
subclasses of it:

- `LadderGameExhaustive` carries its own copies of `oneAway`, `diff`,
  `readDictionary` and `resetDictionaryCopy`. They are identical to those of
  `LadderGame`, so they are modelled once.
- The breadth-first solver counts enqueues in a local variable and leaves
  the field alone. `Exhaustive.Play` therefore does not modify
  `totalEnqueues`.

## Model

| member | source | states |
|---|---|---|
| Ladders.Diff | src/LadderGame.java:71-81 | the counting loop returns the number of positions at which the two equal-length words differ |
| Ladders.HammingBound | src/LadderGame.java:71-81 | the distance is at most the word length |
| Ladders.HammingZeroIff | src/LadderGame.java:71-81 | the distance is 0 exactly for equal words, so a word is never one letter away from itself |
| Ladders.HammingSymmetric | src/LadderGame.java:71-81 | the distance does not depend on the order of the words |
| Ladders.HammingTriangle | src/LadderGame.java:71-81 | the distance obeys the triangle inequality |
| Ladders.HammingConsistent | src/LadderGamePriority.java:61-67 | between neighbours, the estimate `diff(word, end)` changes by at most one, so the A* estimate is consistent |
| Ladders.CompareStrings | src/WordInfoPriority.java:20 | `String.compareTo`: when one word is a prefix of the other, the result is the difference of their lengths |
| Ladders.CompareStringsFirstDifference | src/WordInfoPriority.java:20 | where two words first differ, `String.compareTo` is the difference of those two characters |
| Ladders.CompareStringsZeroIff | src/WordInfoPriority.java:20 | `String.compareTo` is zero exactly for equal words |
| Ladders.CompareStringsAntisymmetric | src/WordInfoPriority.java:20 | swapping the words negates `String.compareTo` |
| Ladders.CompareStringsTransitive | src/WordInfoPriority.java:20 | `String.compareTo` is a transitive strict order |
| Ladders.LadderHamming | src/LadderGamePriority.java:35 | along a ladder, the distance from the i-th word to the last is at most the moves left, so `diff` never overestimates |
| Ladders.LadderExtend | src/LadderGameExhaustive.java:81 | appending a bucket word one letter from the last word of a ladder gives a ladder with the same first word, ending at the new word |
| Ladders.LadderWithin | src/LadderGameExhaustive.java:57-86 | the last word of a ladder of n words is reachable from its first word within n - 1 moves |
| Fifo.Item.constructor | src/Queue.java:72-76 | a new item holds its value and `next` link, with no `prev` link |
| Fifo.Queue.constructor | src/Queue.java:8-11 | a new queue is empty and satisfies the link invariant |
| Fifo.Queue.IsEmpty | src/Queue.java:57-59 | `beginning == null` exactly when nothing is queued |
| Fifo.Queue.Enqueue | src/Queue.java:16-27 | the value goes to the back, after the old contents; the link invariant is kept; only a fresh item is added |
| Fifo.Queue.Dequeue | src/Queue.java:32-52 | on an empty queue: no value and nothing changes; otherwise the oldest value comes out and the rest keep their order; with a single item, `beginning` and `end` both become null; the link invariant is kept |
| Fifo.EnqueueAllThenDequeueAll | src/Queue.java:16-52 | N enqueues then N dequeues give the values back in enqueue order |
| PriorityInfo.NewWordInfoPriority | src/WordInfoPriority.java:3-6 | a record of the word alone, with priority `estimatedWork + moves` |
| PriorityInfo.NewWordInfoPriorityWithHistory | src/WordInfoPriority.java:8-11 | a record with the given history, with priority `estimatedWork + moves` |
| PriorityInfo.PriorityAtLeastMoves | src/WordInfoPriority.java:3-11 | with a non-negative estimate, both constructors give a priority of at least the moves |
| PriorityInfo.IntegerCompare | src/WordInfoPriority.java:17 | `Integer.compare` is negative, zero or positive as the first value is below, equal to or above the second |
| PriorityInfo.CompareTo | src/WordInfoPriority.java:16-21 | records compare by priority first; equal priorities compare by word |
| PriorityInfo.CompareToZeroIff | src/WordInfoPriority.java:16-21 | two records compare equal exactly when their priorities and words are equal |
| PriorityInfo.CompareToAntisymmetric | src/WordInfoPriority.java:16-21 | swapping the records negates the comparison |
| PriorityInfo.CompareToTransitive | src/WordInfoPriority.java:16-21 | the strict order is transitive |
| PriorityInfo.CompareToAtMostTransitive | src/WordInfoPriority.java:16-21 | the non-strict order is transitive, so the records are totally preordered |
| OrderedTree.LeastExists | src/LadderGamePriority.java:40 | every non-empty priority tree holds a least record under `compareTo` |
| OrderedTree.Insert | src/LadderGamePriority.java:61-67 | inserting a record equal to none held adds exactly that record, one more than before |
| OrderedTree.DeleteMin | src/LadderGamePriority.java:40 | on a non-empty tree, a least record comes out and the rest stays, one fewer; on an empty tree, no record and the tree unchanged |
| OrderedTree.ComparePreviousWords | src/LadderGamePriority.java:96-98 | visited records compare by word alone: zero exactly for the same word, whatever the moves |
| Game.OfLengthMembers | src/LadderGame.java:130-132 | the bucket of length n holds exactly the listed words of length n, and no more words than the list |
| Game.OfLengthPrefix | src/LadderGame.java:130-132 | one more listed word is appended to the bucket of its own length and to no other |
| Game.MaxLength | src/LadderGame.java:112-120 | the longest length is at least every word's length and is attained by some word; 0 for no words |
| Game.MaxLengthAppend | src/LadderGame.java:119 | one more word raises the longest length to that word's length when it is longer (`Math.max`) |
| Game.LongestLength | src/LadderGame.java:112-120 | the first pass over the word list finds the longest length |
| Game.EmptyBuckets | src/LadderGame.java:123-126 | `longestWord + 1` empty buckets are created |
| Game.BucketWords | src/LadderGame.java:122-132 | `longest + 1` buckets; bucket n is the list's words of length n, in input order; every word sits in the bucket indexed by its length |
| Game.BucketAppend | src/LadderGame.java:131 | appending the next word to the bucket of its length keeps every bucket equal to the words of its length so far |
| Game.BucketsBucketed | src/LadderGame.java:130-132 | buckets filled by length hold only words of their index's length |
| Game.NeighboursMembers | src/LadderGame.java:36-46 | the neighbours are exactly the bucket's words one letter away from the word, never the word itself |
| Game.WithoutMembers | src/LadderGame.java:49-51 | `removeAll` keeps exactly the bucket's words that were not returned |
| Game.SplitSizesFrom | src/LadderGame.java:49-51 | within any part of the bucket, the neighbours and what `removeAll` keeps add up to that part |
| Game.SplitSizes | src/LadderGame.java:49-51 | the neighbours and what `removeAll` leaves add up to the bucket, so the bucket shrinks by exactly the number of words returned |
| Game.LadderGame.constructor | src/LadderGame.java:7-10 | the index is the bucketing of the word list, the working copy equals it, and the enqueue count is 0 |
| Game.LadderGame.ResetDictionaryCopy | src/LadderGame.java:143-155 | the working copy equals the index bucket by bucket: same bucket count, same contents and sizes |
| Game.LadderGame.Reset | src/LadderGame.java:56-59 | a fresh working copy and a zero enqueue count; the index is a constant |
| Game.LadderGame.WordsOfLength | src/LadderGame.java:64-66 | the working-copy bucket for the length, whose words all have that length; nothing where Java throws `IndexOutOfBoundsException` |
| Game.LadderGame.ValidateInput | src/LadderGame.java:86-98 | unequal lengths are rejected first, then a length with no bucket, then a start or end word missing from its bucket; the input passes exactly when none applies; nothing changes |
| Game.LadderGame.OneAway | src/LadderGame.java:36-54 | returns the bucket's words one letter away, in bucket order; with removal, that bucket becomes what `removeAll` leaves and the other buckets are untouched; without removal, nothing changes |
| Bfs.Extend | src/LadderGameExhaustive.java:79-82 | the enqueued children of a node: one per neighbour, in order, each one move further with the neighbour appended to the history |
| Bfs.BfsInit | src/LadderGameExhaustive.java:48-54 | the queue holding only the start node at level 0 satisfies the search invariant |
| Bfs.BfsBump | src/LadderGameExhaustive.java:62-65 | when the front node is one move past the level, raising the level keeps the invariant |
| Bfs.StepQueueOk | src/LadderGameExhaustive.java:71-83 | after expanding the front node, queued nodes stay sound partial ladders, in level order, within the level and the next |
| Bfs.StepCovered | src/LadderGameExhaustive.java:71-83 | after expanding the front node, every word taken out of the copy is processed or queued, and no processed word has a neighbour left in the copy |
| Bfs.StepFrontier | src/LadderGameExhaustive.java:71-83 | after expanding the front node, no word left in the copy is reachable within the level, and those reachable one move further neighbour a queued node of the level |
| Bfs.BfsStep | src/LadderGameExhaustive.java:57-86 | a round that does not meet the end word keeps the whole invariant |
| Bfs.BfsFound | src/LadderGameExhaustive.java:74-76 | when the end word is a neighbour of the front node, its history plus the end word is a shortest ladder of level + 1 moves, as the doc comment promises |
| Bfs.BfsExhausted | src/LadderGameExhaustive.java:87 | an empty queue means that no ladder from start to end exists |
| Bfs.ProcessedAlong | src/LadderGameExhaustive.java:87 | once the queue is empty, every word of a ladder from the start has been processed |
| Exhaustive.EnqueueChildren | src/LadderGameExhaustive.java:72-85 | the inner loop stops exactly when the end word is among the neighbours, after enqueueing the children of the neighbours before its first occurrence, in order, and counting them; otherwise every neighbour is enqueued as a child, in order, and counted |
| Exhaustive.ExpandNode | src/LadderGameExhaustive.java:71-85 | `oneAway` with removal, then the inner loop. The bucket becomes what `removeAll` leaves. When the end word is found, the queue grew by the children of exactly the neighbours before its first occurrence, in order, and the count by their number. Otherwise the queue grows by the children of all neighbours, in order, and the count by their number |
| Exhaustive.TakeFront | src/LadderGameExhaustive.java:60-68 | the oldest node comes out; the level becomes its moves, which are the level or one more, so the `AssertionError` branch cannot be taken |
| Exhaustive.Round | src/LadderGameExhaustive.java:57-86 | one loop round either reports a shortest ladder, or keeps the invariant with fewer words in the copy plus nodes in the queue. Each enqueue is paid for by a word taken out of the copy. Only the bucket being searched changes, and it only loses words |
| Exhaustive.Search | src/LadderGameExhaustive.java:48-88 | reports a shortest ladder with its moves, or no ladder only when none exists, with between 1 and the bucket size + 1 enqueues. Only the bucket being searched changes in the working copy, and it only loses words: each word it keeps was in the index's bucket, and it is no larger than that bucket |
| Exhaustive.Drain | src/LadderGameExhaustive.java:57-87 | the `while` loop terminates with a correct verdict and keeps the enqueue bound. Buckets other than the searched one are untouched; the searched one keeps only words of the index's bucket and is no larger |
| Exhaustive.Play | src/LadderGameExhaustive.java:22-89 | unequal lengths are rejected. The same word is a ladder of 0 moves and 0 enqueues, even when it is not in the dictionary. Then a missing bucket or word is rejected. Otherwise the search verdict, with between 1 and the bucket size + 1 enqueues. The working copy equals the index, except that the bucket of the start length may have lost words in a search: it holds only words of the index's bucket and is no larger |
| AStarInvariant.Child | src/LadderGamePriority.java:61-67 | the record inserted for a neighbour: that word, one move more, the history extended by it, and priority moves + `diff(word, end)` |
| AStarInvariant.AStarInit | src/LadderGamePriority.java:35-37 | the tree holding the start record with priority `diff(start, end)` and the visited map `{start: 0}` satisfy the invariant |
| AStarInvariant.ExpandBegin | src/LadderGamePriority.java:40 | removing a record from the tree starts its expansion with the invariant held for every other word |
| AStarInvariant.ExpandSkip | src/LadderGamePriority.java:57-59 | a neighbour already visited with no more moves changes nothing, and the expansion invariant holds for it |
| AStarInvariant.InsertAllowed | src/LadderGamePriority.java:59-67 | a new or relaxed record never compares equal to a queued one, so the tree's duplicate handling is never used |
| AStarInvariant.ExpandRelax | src/LadderGamePriority.java:55-70 | inserting the child of the popped record and recording its moves keeps the expansion invariant |
| AStarInvariant.RelaxEntries | src/LadderGamePriority.java:55-70 | after relaxation, start stays at 0 moves, the end word is never visited, and every queued record, the child included, is a sound partial ladder with its priority |
| AStarInvariant.RelaxSettled | src/LadderGamePriority.java:55-70 | after relaxation, every visited word still has a live record or has been expanded |
| AStarInvariant.ExpandEnd | src/LadderGamePriority.java:45-74 | once every neighbour has been handled, the popped word counts as expanded and the loop invariant holds again |
| AStarInvariant.LiveOnLadder | src/LadderGamePriority.java:39-40 | while the invariant holds, any ladder to the end word has a queued record whose priority is at most the ladder's moves |
| AStarInvariant.PoppedShortest | src/LadderGamePriority.java:48-51 | when the end word neighbours a least record, its history plus the end word is a shortest ladder |
| AStarInvariant.PoppedSolves | src/LadderGamePriority.java:48-51 | that ladder, reported with moves + 1, is a correct verdict |
| AStarInvariant.AStarExhausted | src/LadderGamePriority.java:78 | an empty tree means that no ladder from start to end exists |
| AStarInvariant.VisitNew | src/LadderGamePriority.java:66-70 | visiting a new word strictly shrinks the set of unvisited bucket words |
| AStarInvariant.VisitBetter | src/LadderGamePriority.java:59-62 | lowering a word's stored moves keeps the unvisited words and strictly shrinks the stored move slots |
| AStarInvariant.RoundDecreases | src/LadderGamePriority.java:39-76 | a round that pops a record and adds nothing to the measure lowers the lexicographic termination measure |
| AStar.Record | src/LadderGamePriority.java:59-69 | an insertion for a neighbour reached in fewer moves than known: the tree gains its record, the visited map holds the new moves, the count grows by one, and the expansion invariant is kept |
| AStar.Visit | src/LadderGamePriority.java:53-71 | a new word, or a known word now reached in fewer moves, gets a record and those moves in the visited map, and is counted once; otherwise nothing changes |
| AStar.Expand | src/LadderGamePriority.java:43-74 | the neighbour loop stops exactly when the end word is among the neighbours; otherwise the loop invariant holds again and the measure did not grow; every insert is counted |
| AStar.Pop | src/LadderGamePriority.java:40 | `deleteMin` yields a least record and the rest of the tree, and its expansion can begin |
| AStar.Round | src/LadderGamePriority.java:39-76 | one loop round either reports a shortest ladder with the current count, or keeps the invariant with a lower measure; the working copy is never modified |
| AStar.Search | src/LadderGamePriority.java:28-79 | reports a shortest ladder with its moves, or no ladder only when none exists, with the game's enqueue count, which is at least 1 for the start record. The working copy is unchanged |
| AStar.Play | src/LadderGamePriority.java:13-80 | resets, then validates: unequal lengths, no bucket, missing word, in that order. The same word is answered with `[start end]`, 0 moves and 0 enqueues. Otherwise it searches and reports at least 1 enqueue. Afterwards the working copy equals the index, and the counter is 0 on rejected input and for the same word |
| Agreement.ShortestUnique | src/LadderGameExhaustive.java:16-19 | two shortest ladders between the same words have the same length |
| Agreement.SolversAgree | src/LadderGamePriority.java:13-80 | for different words, both solvers reject the same inputs for the same reason, find a ladder for the same inputs, and report the same moves |
| Agreement.SameWordAnswers | src/LadderGamePriority.java:17-26 | for the same word, the breadth-first solver answers `[w]` unconditionally; the A* solver answers `[w w]` exactly when the word is in the dictionary |

## Left out

- File reading (`File`, `Scanner`, the `IOException` handler): I/O. The word list is a constructor parameter; only the bucketing is modelled.
- All printing and string formatting of results. A solve call returns an `Outcome` instead.
- `listWords`: it only prints.
- `toString` methods: they only format.
- `toLowerCase` (locale-dependent case mapping): words are taken as given.
- Ladders.CompareStrings: Java's `String.compareTo` and the `charAt` in `diff` work on UTF-16 code units, while a Dafny `string` is a sequence of Unicode characters. For text outside the Basic Multilingual Plane, Java's order, its length difference and its `diff` count (`Ladders.Hamming`) can differ from the model's. The lowercase words the program expects lie inside that plane, where the two agree.
- `WordInfo` is not part of this model's source files. It is modelled as the record `Ladders.WordInfo(word, moves, history)`, inferred from its uses.
- The space-joined history string: a `seq<string>` of words stands for it.
- `getPriority`: it is the `priority` field of the `WordInfoPriority` datatype.
- AVL tree internals (rotations, heights, `contains`/`find` search): the trees are modelled by their contents.
  - The priority tree is a set.
  - The visited tree is a map from word to moves.
- OrderedTree.Insert: requires that no held record compares equal to the new one, instead of modelling the tree's duplicate handling. `AStarInvariant.InsertAllowed` proves that every call meets this.
- Java `assert` statements (`diff`'s equal-length check, the deep-copy size checks): they are proved, not modelled as behaviour. `Ladders.Diff` requires equal lengths.
- Java `int` overflow of `moves`, `priority` and `totalEnqueues`: the counters are unbounded integers.
- Inheritance (`extends LadderGame`, the narrowed private `getWordsOfLength`): the solvers are module-level methods over a `LadderGame` object.
- Exhaustive.Search: "every non-start word is enqueued at most once" is stated as a count bound, not per word. The bound is one enqueue for the start plus one per word taken out of the working copy, so at most the bucket size + 1.
- AStar.Search: the reported count is only bounded below, by 1 for the start record. Each round states its exact change: one per insert, in `AStar.Round` and `AStar.Record`. Across the whole loop the count is not tied to a total number of inserts, because the loop keeps no ghost record of them.
- AStar.Play: the same lower bound on the count, for the same reason as `AStar.Search`.
- Exhaustive.Drain: `NoLadder` carries the local enqueue count, although the Java code prints no count in that case.
- The A* shortcut for `start == end` prints `[start end]`. It is modelled as the path `[start, start]` with 0 moves, not as a ladder.
