/**
 * Why the A* search of `LadderGamePriority` is right. The priority tree is a
 * set of records and the visited tree a map from word to the fewest moves
 * known to reach it. Every visited word is either live (a record with its
 * best moves is still queued) or expanded (all its neighbours were visited
 * with at most one move more). The Hamming estimate never overshoots, so a
 * least record whose word neighbours the end word already carries a shortest
 * ladder, and an empty tree means that there is none. A lexicographic measure
 * over the unvisited words, the freed move counts and the tree size shows
 * that the search stops.
 */
module AStarInvariant {

  import opened Ladders
  import opened PriorityInfo
  import opened OrderedTree
  import opened Game

  /**
   * A queued record: a ladder from `start` to its word, one word per move,
   * not at `end`, prioritised by moves plus the Hamming estimate, and its word
   * visited with at most its moves.
   */
  ghost predicate EntryOk(bucket: seq<string>, start: string, end: string, visited: map<string, nat>, e: WordInfoPriority)
  {
    |e.word| == |end| && e.word != end &&
    LadderFromTo(e.history, bucket, start, e.word) && |e.history| == e.moves + 1 &&
    e.priority == e.moves + Hamming(e.word, end) &&
    e.word in visited && visited[e.word] <= e.moves
  }

  /** A record for `w` with its best-known moves is still queued. */
  ghost predicate Live(queue: set<WordInfoPriority>, visited: map<string, nat>, w: string)
  {
    w in visited && exists e :: e in queue && e.word == w && e.moves == visited[w]
  }

  /** Every neighbour of `w` has been visited with at most one move more than `w`. */
  ghost predicate Expanded(bucket: seq<string>, visited: map<string, nat>, w: string)
  {
    w in visited && forall x :: x in bucket && OneApart(w, x) ==> x in visited && visited[x] <= visited[w] + 1
  }

  ghost predicate Settled(bucket: seq<string>, queue: set<WordInfoPriority>, visited: map<string, nat>, w: string)
  {
    Live(queue, visited, w) || Expanded(bucket, visited, w)
  }

  /** The start word is visited with 0 moves, the end word never, and only bucket words are. */
  ghost predicate VisitedOk(bucket: seq<string>, start: string, end: string, visited: map<string, nat>)
  {
    start in visited && visited[start] == 0 && end !in visited &&
    forall w :: w in visited ==> w in bucket
  }

  /** Every queued record is sound. */
  ghost predicate EntriesOk(bucket: seq<string>, start: string, end: string,
                            queue: set<WordInfoPriority>, visited: map<string, nat>)
  {
    forall e :: e in queue ==> EntryOk(bucket, start, end, visited, e)
  }

  /** The invariant at the head of the `while` loop. */
  ghost predicate AStarInv(bucket: seq<string>, start: string, end: string,
                           queue: set<WordInfoPriority>, visited: map<string, nat>)
  {
    VisitedOk(bucket, start, end, visited) &&
    EntriesOk(bucket, start, end, queue, visited) &&
    (forall w :: w in visited ==> Settled(bucket, queue, visited, w))
  }

  /**
   * While the popped record `m` is expanded, with the neighbours `done`
   * handled: every visited word is settled, except that the word of `m`, if
   * `m` was its live record, may be only partly expanded, through `done`.
   */
  ghost predicate SettledBut(bucket: seq<string>, queue: set<WordInfoPriority>, visited: map<string, nat>,
                             m: WordInfoPriority, done: seq<string>)
  {
    forall w :: w in visited ==>
      Settled(bucket, queue, visited, w) ||
      (w == m.word && visited[w] == m.moves &&
       forall x :: x in done ==> x in visited && visited[x] <= m.moves + 1)
  }

  /** The invariant of the `for` loop over the neighbours of the popped record `m`. */
  ghost predicate ExpandInv(bucket: seq<string>, start: string, end: string,
                            queue: set<WordInfoPriority>, visited: map<string, nat>,
                            m: WordInfoPriority, done: seq<string>)
  {
    VisitedOk(bucket, start, end, visited) &&
    EntryOk(bucket, start, end, visited, m) &&
    EntriesOk(bucket, start, end, queue, visited) &&
    SettledBut(bucket, queue, visited, m, done)
  }

  /** The record of a neighbour `x` of the popped record `m`, one move further on. */
  ghost function Child(m: WordInfoPriority, x: string, end: string): (r: WordInfoPriority)
    requires |x| == |end|
    ensures r.word == x && r.moves == m.moves + 1 && r.history == m.history + [x]
    ensures r.priority - r.moves == Hamming(x, end)
  {
    NewWordInfoPriorityWithHistory(x, m.moves + 1, Hamming(x, end), m.history + [x])
  }

  /** The bucket words not visited yet. */
  ghost function Unvisited(bucket: seq<string>, visited: map<string, nat>): set<string>
  {
    set w | w in bucket && w !in visited
  }

  /** One slot per visited word and per move count below its best: lowering a best count frees slots. */
  ghost function Slots(visited: map<string, nat>): set<(string, nat)>
  {
    set w, j: nat | w in visited && j < visited[w] :: (w, j)
  }

  /** Since `visited0` and `queue0` the measure has not grown, and where it is unchanged so is the tree. */
  ghost predicate NoGrowth(bucket: seq<string>, visited0: map<string, nat>, queue0: set<WordInfoPriority>,
                           visited: map<string, nat>, queue: set<WordInfoPriority>)
  {
    Unvisited(bucket, visited) <= Unvisited(bucket, visited0) &&
    (Unvisited(bucket, visited) == Unvisited(bucket, visited0) ==>
       Slots(visited) <= Slots(visited0) &&
       (Slots(visited) == Slots(visited0) ==> queue == queue0))
  }

  /** The termination measure of the `while` loop went down, lexicographically. */
  ghost predicate Decreased(bucket: seq<string>, visited0: map<string, nat>, queue0: set<WordInfoPriority>,
                            visited: map<string, nat>, queue: set<WordInfoPriority>)
  {
    Unvisited(bucket, visited) < Unvisited(bucket, visited0) ||
    (Unvisited(bucket, visited) == Unvisited(bucket, visited0) &&
     (Slots(visited) < Slots(visited0) ||
      (Slots(visited) == Slots(visited0) && |queue| < |queue0|)))
  }

  /** The tree holding the start record and the visited tree holding the start word establish the invariant. */
  lemma AStarInit(bucket: seq<string>, start: string, end: string)
    requires start in bucket && end in bucket && start != end && |start| == |end|
    ensures AStarInv(bucket, start, end, {NewWordInfoPriority(start, 0, Hamming(start, end))}, map[start := 0])
  {
    var e := NewWordInfoPriority(start, 0, Hamming(start, end));
    assert LadderFromTo(e.history, bucket, start, start);
    assert Live({e}, map[start := 0], start);
  }

  /** Popping `m` keeps every word settled, except that the word of a live `m` is now partly expanded. */
  lemma ExpandBegin(bucket: seq<string>, start: string, end: string,
                    queue: set<WordInfoPriority>, visited: map<string, nat>, m: WordInfoPriority)
    requires AStarInv(bucket, start, end, queue, visited) && m in queue
    ensures ExpandInv(bucket, start, end, queue - {m}, visited, m, [])
  {
    forall w | w in visited
      ensures Settled(bucket, queue - {m}, visited, w) || (w == m.word && visited[w] == m.moves)
    {
      if !Expanded(bucket, visited, w) {
        var e :| e in queue && e.word == w && e.moves == visited[w];
        if e != m {
          assert e in queue - {m};
        }
      }
    }
  }

  /** A neighbour already visited with at most the child's moves is skipped. */
  lemma ExpandSkip(bucket: seq<string>, start: string, end: string,
                   queue: set<WordInfoPriority>, visited: map<string, nat>,
                   m: WordInfoPriority, done: seq<string>, x: string)
    requires ExpandInv(bucket, start, end, queue, visited, m, done)
    requires x in visited && visited[x] <= m.moves + 1
    ensures ExpandInv(bucket, start, end, queue, visited, m, done + [x])
  {
    forall w | w in visited && !Settled(bucket, queue, visited, w)
      ensures forall y :: y in done + [x] ==> y in visited && visited[y] <= m.moves + 1
    {
      forall y | y in done + [x] ensures y in visited && visited[y] <= m.moves + 1 {
        if y != x {
          assert y in done;
        }
      }
    }
  }

  /** No queued record compares equal to the child record of a neighbour the search is about to insert. */
  lemma InsertAllowed(bucket: seq<string>, start: string, end: string,
                      queue: set<WordInfoPriority>, visited: map<string, nat>,
                      m: WordInfoPriority, x: string)
    requires EntriesOk(bucket, start, end, queue, visited)
    requires |x| == |end| && (x !in visited || m.moves + 1 < visited[x])
    ensures forall y :: y in queue ==> CompareTo(y, Child(m, x, end)) != 0
  {
    forall y | y in queue ensures CompareTo(y, Child(m, x, end)) != 0 {
      CompareToZeroIff(y, Child(m, x, end));
    }
  }

  /**
   * Inserting the child record of a neighbour that is new or reached in fewer
   * moves than before, and recording those moves, keeps the invariant: the
   * neighbour becomes live.
   */
  lemma ExpandRelax(bucket: seq<string>, start: string, end: string,
                    queue: set<WordInfoPriority>, visited: map<string, nat>,
                    m: WordInfoPriority, done: seq<string>, x: string)
    requires ExpandInv(bucket, start, end, queue, visited, m, done)
    requires x in bucket && OneApart(m.word, x) && x != end
    requires x !in visited || m.moves + 1 < visited[x]
    ensures ExpandInv(bucket, start, end, queue + {Child(m, x, end)}, visited[x := m.moves + 1], m, done + [x])
  {
    HammingZeroIff(m.word, m.word);
    RelaxEntries(bucket, start, end, queue, visited, m, x);
    RelaxSettled(bucket, queue, visited, m, done, x, Child(m, x, end));
  }

  /** The child record is sound, and lowering the neighbour's moves keeps the other records sound. */
  lemma RelaxEntries(bucket: seq<string>, start: string, end: string,
                     queue: set<WordInfoPriority>, visited: map<string, nat>, m: WordInfoPriority, x: string)
    requires VisitedOk(bucket, start, end, visited) && EntryOk(bucket, start, end, visited, m)
    requires EntriesOk(bucket, start, end, queue, visited)
    requires x in bucket && OneApart(m.word, x) && x != end && x != m.word
    requires x !in visited || m.moves + 1 < visited[x]
    ensures VisitedOk(bucket, start, end, visited[x := m.moves + 1])
    ensures EntryOk(bucket, start, end, visited[x := m.moves + 1], m)
    ensures EntriesOk(bucket, start, end, queue + {Child(m, x, end)}, visited[x := m.moves + 1])
  {
    var c, visited' := Child(m, x, end), visited[x := m.moves + 1];
    LadderExtend(m.history, bucket, x);
    assert EntryOk(bucket, start, end, visited', c);
    forall e | e in queue ensures EntryOk(bucket, start, end, visited', e) {
    }
  }

  /** With the child record `c` of `x` queued, `x` is live and every other word keeps its status. */
  lemma RelaxSettled(bucket: seq<string>, queue: set<WordInfoPriority>, visited: map<string, nat>,
                     m: WordInfoPriority, done: seq<string>, x: string, c: WordInfoPriority)
    requires SettledBut(bucket, queue, visited, m, done)
    requires c.word == x && c.moves == m.moves + 1 && x != m.word
    requires x !in visited || m.moves + 1 < visited[x]
    ensures SettledBut(bucket, queue + {c}, visited[x := m.moves + 1], m, done + [x])
  {
    var queue', visited' := queue + {c}, visited[x := m.moves + 1];
    assert Live(queue', visited', x);
    forall w | w in visited'
      ensures Settled(bucket, queue', visited', w) ||
        (w == m.word && visited'[w] == m.moves &&
         forall y :: y in done + [x] ==> y in visited' && visited'[y] <= m.moves + 1)
    {
      if w != x {
        assert visited'[w] == visited[w];
        if Live(queue, visited, w) {
          var e :| e in queue && e.word == w && e.moves == visited[w];
          assert e in queue';
        } else if Expanded(bucket, visited, w) {
          assert Expanded(bucket, visited', w);
        } else {
          forall y | y in done + [x] ensures y in visited' && visited'[y] <= m.moves + 1 {
            if y != x {
              assert y in done;
            }
          }
        }
      }
    }
  }

  /** Once every neighbour is handled, the popped word is expanded and the loop invariant is back. */
  lemma ExpandEnd(bucket: seq<string>, start: string, end: string,
                  queue: set<WordInfoPriority>, visited: map<string, nat>,
                  m: WordInfoPriority, done: seq<string>)
    requires ExpandInv(bucket, start, end, queue, visited, m, done)
    requires forall x :: x in bucket && OneApart(m.word, x) ==> x in done
    ensures AStarInv(bucket, start, end, queue, visited)
  {
    forall w | w in visited ensures Settled(bucket, queue, visited, w) {
      if !Settled(bucket, queue, visited, w) {
        assert Expanded(bucket, visited, w);
      }
    }
  }

  /**
   * Walking a ladder from `start` to `end` from a word visited within its
   * position meets a live record whose priority is at most the ladder's
   * moves, because the Hamming estimate of a ladder word is at most the moves
   * left.
   */
  lemma {:induction false} LiveOnLadder(bucket: seq<string>, start: string, end: string,
                                        queue: set<WordInfoPriority>, visited: map<string, nat>,
                                        p: seq<string>, j: nat)
    requires AStarInv(bucket, start, end, queue, visited)
    requires LadderFromTo(p, bucket, start, end)
    requires j < |p| && p[j] in visited && visited[p[j]] <= j
    ensures exists e :: e in queue && e.priority <= |p| - 1
    decreases |p| - j
  {
    if Live(queue, visited, p[j]) {
      var e :| e in queue && e.word == p[j] && e.moves == visited[p[j]];
      LadderHamming(p, bucket, j);
      assert e.priority <= |p| - 1;
    } else {
      assert Expanded(bucket, visited, p[j]);
      assert j < |p| - 1;
      assert p[j + 1] in bucket && OneApart(p[j], p[j + 1]);
      LiveOnLadder(bucket, start, end, queue, visited, p, j + 1);
    }
  }

  /** A least record whose word neighbours `end` completes a shortest ladder. */
  lemma PoppedShortest(bucket: seq<string>, start: string, end: string,
                       queue: set<WordInfoPriority>, visited: map<string, nat>, m: WordInfoPriority)
    requires AStarInv(bucket, start, end, queue, visited)
    requires IsLeast(m, queue) && end in bucket && OneApart(m.word, end)
    ensures IsShortestLadder(m.history + [end], bucket, start, end)
    ensures |m.history + [end]| - 1 == m.moves + 1
  {
    assert EntryOk(bucket, start, end, visited, m);
    LadderExtend(m.history, bucket, end);
    forall p | LadderFromTo(p, bucket, start, end) ensures |m.history + [end]| <= |p| {
      LiveOnLadder(bucket, start, end, queue, visited, p, 0);
      var e :| e in queue && e.priority <= |p| - 1;
      assert CompareTo(m, e) <= 0;
    }
  }

  /** The ladder reported when a least record's word neighbours `end` is a shortest one, with its moves. */
  lemma PoppedSolves(bucket: seq<string>, start: string, end: string,
                     queue: set<WordInfoPriority>, visited: map<string, nat>, m: WordInfoPriority, enqueues: nat)
    requires AStarInv(bucket, start, end, queue, visited)
    requires IsLeast(m, queue) && end in bucket && OneApart(m.word, end)
    ensures SolvedCorrectly(bucket, start, end, Found(m.history + [end], m.moves + 1, enqueues))
  {
    PoppedShortest(bucket, start, end, queue, visited, m);
  }

  /** With the tree empty, no ladder from `start` to `end` exists. */
  lemma AStarExhausted(bucket: seq<string>, start: string, end: string, visited: map<string, nat>)
    requires AStarInv(bucket, start, end, {}, visited)
    ensures forall p :: !LadderFromTo(p, bucket, start, end)
  {
    forall p | LadderFromTo(p, bucket, start, end) ensures false {
      LiveOnLadder(bucket, start, end, {}, visited, p, 0);
    }
  }

  /** Visiting a new bucket word shrinks the unvisited words. */
  lemma VisitNew(bucket: seq<string>, visited: map<string, nat>, x: string, k: nat)
    requires x in bucket && x !in visited
    ensures Unvisited(bucket, visited[x := k]) < Unvisited(bucket, visited)
  {
    assert x in Unvisited(bucket, visited);
    assert x !in Unvisited(bucket, visited[x := k]);
  }

  /** Lowering the best moves of a visited word frees slots and leaves the unvisited words alone. */
  lemma VisitBetter(bucket: seq<string>, visited: map<string, nat>, x: string, k: nat)
    requires x in visited && k < visited[x]
    ensures Unvisited(bucket, visited[x := k]) == Unvisited(bucket, visited)
    ensures Slots(visited[x := k]) < Slots(visited)
  {
    assert (x, k) in Slots(visited);
    assert (x, k) !in Slots(visited[x := k]);
  }

  /** The next prefix of a sequence is one element longer. */
  lemma TakeOneMore<T>(s: seq<T>, i: nat)
    requires i < |s|
    ensures s[..i + 1] == s[..i] + [s[i]]
  {
  }

  /** Popping one record and then not growing the measure makes it go down. */
  lemma RoundDecreases(bucket: seq<string>, visited0: map<string, nat>, queue0: set<WordInfoPriority>,
                       m: WordInfoPriority, visited: map<string, nat>, queue: set<WordInfoPriority>)
    requires m in queue0 && NoGrowth(bucket, visited0, queue0 - {m}, visited, queue)
    ensures Decreased(bucket, visited0, queue0, visited, queue)
  {
    assert |queue0 - {m}| == |queue0| - 1;
  }

}
