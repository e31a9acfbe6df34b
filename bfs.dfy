/**
 * The breadth-first solver of `LadderGameExhaustive`: partial ladders wait in
 * the FIFO queue, and every word is taken out of the working copy of the
 * dictionary the first time it is reached, so it is enqueued at most once per
 * occurrence. The invariant `BfsInv` says why the first ladder reaching the
 * end word is a shortest one, and why an empty queue means that there is none.
 */
module Bfs {

  import opened Ladders
  import opened Game

  /** A queued partial ladder: a ladder from `start` to its word, one word per move, not yet at `end`. */
  ghost predicate NodeOk(bucket: seq<string>, start: string, end: string, u: WordInfo)
  {
    LadderFromTo(u.history, bucket, start, u.word) && |u.history| == u.moves + 1 && u.word != end
  }

  /** The partial ladder extended by `w`, one move longer. */
  function Child(u: WordInfo, w: string): WordInfo
  {
    WordInfo(w, u.moves + 1, u.history + [w])
  }

  /** The children of `u` for each word of `ws`, in order. */
  ghost function Extend(u: WordInfo, ws: seq<string>): (r: seq<WordInfo>)
    ensures |r| == |ws| && forall k :: 0 <= k < |ws| ==> r[k] == Child(u, ws[k])
  {
    if ws == [] then [] else Extend(u, ws[..|ws| - 1]) + [Child(u, Last(ws))]
  }

  /** Every queued node is a sound partial ladder at the current level or the next, in level order. */
  ghost predicate QueueOk(bucket: seq<string>, start: string, end: string, queue: seq<WordInfo>, level: nat)
  {
    (forall i :: 0 <= i < |queue| ==> NodeOk(bucket, start, end, queue[i])) &&
    (forall i :: 0 <= i < |queue| ==> level <= queue[i].moves <= level + 1) &&
    (forall i, j :: 0 <= i < j < |queue| ==> queue[i].moves <= queue[j].moves)
  }

  /** `w` is the word of some queued node. */
  ghost predicate Queued(queue: seq<WordInfo>, w: string)
  {
    exists i :: 0 <= i < |queue| && queue[i].word == w
  }

  /**
   * Every word taken out of the copy has been processed or is queued, the
   * start word is one of these, and a processed word has no neighbour left in the copy.
   */
  ghost predicate Covered(bucket: seq<string>, start: string, copy: seq<string>,
                          queue: seq<WordInfo>, processed: set<string>)
  {
    (start in processed || Queued(queue, start)) &&
    (forall p, x :: p in processed && x in copy ==> !OneApart(p, x)) &&
    (forall x :: x in bucket && x !in copy ==> x in processed || Queued(queue, x))
  }

  /**
   * Nothing still in the copy (other than start) is reachable within `level`
   * moves, and whatever of it is reachable within `level + 1` neighbours a
   * queued node of this level.
   */
  ghost predicate Frontier(bucket: seq<string>, start: string, copy: seq<string>, queue: seq<WordInfo>, level: nat)
  {
    (forall x :: x in copy && x != start ==> !Within(bucket, start, x, level)) &&
    (forall x :: x in copy && x != start && Within(bucket, start, x, level + 1) ==>
       exists i :: 0 <= i < |queue| && queue[i].moves == level && OneApart(queue[i].word, x))
  }

  /**
   * The loop invariant of the search at level `level` (the `moves` counter),
   * where `copy` is the working-copy bucket, `queue` the queued partial
   * ladders and `processed` the words already dequeued and expanded.
   */
  ghost predicate BfsInv(bucket: seq<string>, start: string, end: string, copy: seq<string>,
                         queue: seq<WordInfo>, processed: set<string>, level: nat)
  {
    start != end && end in copy && end !in processed &&
    (forall x :: x in copy ==> x in bucket) &&
    QueueOk(bucket, start, end, queue, level) &&
    Covered(bucket, start, copy, queue, processed) &&
    Frontier(bucket, start, copy, queue, level)
  }

  /** The state after enqueueing the start word establishes the invariant. */
  lemma BfsInit(bucket: seq<string>, start: string, end: string)
    requires start in bucket && end in bucket && start != end
    ensures BfsInv(bucket, start, end, bucket, [WordInfo(start, 0, [start])], {}, 0)
  {
    var queue := [WordInfo(start, 0, [start])];
    assert queue[0].word == start && Queued(queue, start);
    forall x | x in bucket && x != start && Within(bucket, start, x, 1)
      ensures exists i :: 0 <= i < |queue| && queue[i].moves == 0 && OneApart(queue[i].word, x)
    {
      var v :| v in bucket && OneApart(v, x) && Within(bucket, start, v, 0);
      assert queue[0].moves == 0 && OneApart(queue[0].word, x);
    }
  }

  /** Dequeuing a node of the next level means the current level is exhausted: the level moves up. */
  lemma BfsBump(bucket: seq<string>, start: string, end: string, copy: seq<string>,
                queue: seq<WordInfo>, processed: set<string>, level: nat)
    requires BfsInv(bucket, start, end, copy, queue, processed, level)
    requires queue != [] && queue[0].moves == level + 1
    ensures BfsInv(bucket, start, end, copy, queue, processed, level + 1)
  {
    forall x | x in copy && x != start
      ensures !Within(bucket, start, x, level + 1)
    {
      if Within(bucket, start, x, level + 1) {
        assert false;
      }
    }
    forall x | x in copy && x != start && Within(bucket, start, x, level + 2)
      ensures exists i :: 0 <= i < |queue| && queue[i].moves == level + 1 && OneApart(queue[i].word, x)
    {
      var v :| v in bucket && OneApart(v, x) && Within(bucket, start, v, level + 1);
      if v == start {
        HammingSymmetric(v, x);
        assert Within(bucket, start, x, 1);
        WithinMono(bucket, start, x, 1, level + 1);
      } else {
        assert v !in copy;
        assert v !in processed;
        var i :| 0 <= i < |queue| && queue[i].word == v;
        assert queue[i].moves == level + 1;
      }
    }
  }

  /** The queue after expanding the front node stays sound and level-ordered. */
  lemma StepQueueOk(bucket: seq<string>, start: string, end: string, copy: seq<string>,
                    queue: seq<WordInfo>, level: nat)
    requires QueueOk(bucket, start, end, queue, level) && (forall x :: x in copy ==> x in bucket)
    requires queue != [] && queue[0].moves == level
    requires end !in Neighbours(queue[0].word, copy)
    ensures QueueOk(bucket, start, end, queue[1..] + Extend(queue[0], Neighbours(queue[0].word, copy)), level)
  {
    var u := queue[0];
    var nbrs := Neighbours(u.word, copy);
    var queue' := queue[1..] + Extend(u, nbrs);
    assert NodeOk(bucket, start, end, u);
    NeighboursMembers(u.word, copy);
    forall i | 0 <= i < |queue'|
      ensures NodeOk(bucket, start, end, queue'[i]) && level <= queue'[i].moves <= level + 1
    {
      if i < |queue| - 1 {
        assert queue'[i] == queue[i + 1];
      } else {
        var w := nbrs[i - (|queue| - 1)];
        assert queue'[i] == Child(u, w);
        assert w in nbrs;
        LadderExtend(u.history, bucket, w);
      }
    }
    forall i, j | 0 <= i < j < |queue'|
      ensures queue'[i].moves <= queue'[j].moves
    {
      if j < |queue| - 1 {
        assert queue'[i] == queue[i + 1] && queue'[j] == queue[j + 1];
      } else {
        assert queue'[j].moves == level + 1;
      }
    }
  }

  /** After expanding the front node, removed words are still accounted for. */
  lemma StepCovered(bucket: seq<string>, start: string, copy: seq<string>,
                    queue: seq<WordInfo>, processed: set<string>)
    requires Covered(bucket, start, copy, queue, processed) && queue != []
    ensures
      var u := queue[0];
      var nbrs := Neighbours(u.word, copy);
      Covered(bucket, start, Without(copy, nbrs), queue[1..] + Extend(u, nbrs), processed + {u.word})
  {
    var u := queue[0];
    var nbrs := Neighbours(u.word, copy);
    var copy', queue', processed' := Without(copy, nbrs), queue[1..] + Extend(u, nbrs), processed + {u.word};
    NeighboursMembers(u.word, copy);
    WithoutMembers(copy, nbrs);
    forall x | x in bucket && x !in copy' && x !in processed'
      ensures Queued(queue', x)
    {
      if x in nbrs {
        var k :| 0 <= k < |nbrs| && nbrs[k] == x;
        assert queue'[|queue| - 1 + k].word == x;
      } else {
        var i :| 0 <= i < |queue| && queue[i].word == x;
        assert queue'[i - 1] == queue[i];
      }
    }
    if start !in processed' {
      var i :| 0 <= i < |queue| && queue[i].word == start;
      assert queue'[i - 1] == queue[i];
    }
  }

  /** After expanding a front node of the current level, the frontier is still covered. */
  lemma StepFrontier(bucket: seq<string>, start: string, copy: seq<string>, queue: seq<WordInfo>, level: nat)
    requires Frontier(bucket, start, copy, queue, level) && queue != []
    ensures
      var u := queue[0];
      var nbrs := Neighbours(u.word, copy);
      Frontier(bucket, start, Without(copy, nbrs), queue[1..] + Extend(u, nbrs), level)
  {
    var u := queue[0];
    var nbrs := Neighbours(u.word, copy);
    var copy', queue' := Without(copy, nbrs), queue[1..] + Extend(u, nbrs);
    NeighboursMembers(u.word, copy);
    WithoutMembers(copy, nbrs);
    forall x | x in copy' && x != start && Within(bucket, start, x, level + 1)
      ensures exists i :: 0 <= i < |queue'| && queue'[i].moves == level && OneApart(queue'[i].word, x)
    {
      var i :| 0 <= i < |queue| && queue[i].moves == level && OneApart(queue[i].word, x);
      assert i > 0;
      assert queue'[i - 1] == queue[i];
    }
  }

  /**
   * Expanding the front node at the current level, none of whose remaining
   * neighbours is the end word: its neighbours leave the copy and join the
   * back of the queue one move further on, and the front word is processed.
   */
  lemma BfsStep(bucket: seq<string>, start: string, end: string, copy: seq<string>,
                queue: seq<WordInfo>, processed: set<string>, level: nat)
    requires BfsInv(bucket, start, end, copy, queue, processed, level)
    requires queue != [] && queue[0].moves == level
    requires end !in Neighbours(queue[0].word, copy)
    ensures
      var u := queue[0];
      var nbrs := Neighbours(u.word, copy);
      && BfsInv(bucket, start, end, Without(copy, nbrs), queue[1..] + Extend(u, nbrs), processed + {u.word}, level)
      && |Without(copy, nbrs)| + |queue[1..] + Extend(u, nbrs)| < |copy| + |queue|
  {
    assert NodeOk(bucket, start, end, queue[0]);
    WithoutMembers(copy, Neighbours(queue[0].word, copy));
    SplitSizes(queue[0].word, copy);
    StepQueueOk(bucket, start, end, copy, queue, level);
    StepCovered(bucket, start, copy, queue, processed);
    StepFrontier(bucket, start, copy, queue, level);
  }

  /**
   * The end word among the front node's neighbours: extending its history by
   * the end word gives a shortest ladder, of one move more than the level.
   */
  lemma BfsFound(bucket: seq<string>, start: string, end: string, copy: seq<string>,
                 queue: seq<WordInfo>, processed: set<string>, level: nat)
    requires BfsInv(bucket, start, end, copy, queue, processed, level)
    requires queue != [] && queue[0].moves == level
    requires end in Neighbours(queue[0].word, copy)
    ensures IsShortestLadder(queue[0].history + [end], bucket, start, end)
    ensures |queue[0].history + [end]| == level + 2
  {
    var u := queue[0];
    assert NodeOk(bucket, start, end, u);
    NeighboursMembers(u.word, copy);
    LadderExtend(u.history, bucket, end);
    forall p | LadderFromTo(p, bucket, start, end)
      ensures |u.history + [end]| <= |p|
    {
      LadderWithin(p, bucket, start);
      if |p| - 1 <= level {
        WithinMono(bucket, start, end, |p| - 1, level);
      }
    }
  }

  /** An empty queue: every word reachable from `start` was processed, and `end` never was, so no ladder exists. */
  lemma BfsExhausted(bucket: seq<string>, start: string, end: string, copy: seq<string>,
                     processed: set<string>, level: nat)
    requires BfsInv(bucket, start, end, copy, [], processed, level)
    ensures forall p :: !LadderFromTo(p, bucket, start, end)
  {
    forall p | LadderFromTo(p, bucket, start, end)
      ensures false
    {
      ProcessedAlong(bucket, start, copy, processed, p, |p| - 1);
    }
  }

  /** With nothing queued, every word of a ladder from `start` has been processed. */
  lemma {:induction false} ProcessedAlong(bucket: seq<string>, start: string, copy: seq<string>,
                                          processed: set<string>, p: seq<string>, i: nat)
    requires Covered(bucket, start, copy, [], processed)
    requires IsLadder(p, bucket) && p[0] == start && i < |p|
    ensures p[i] in processed
  {
    if i > 0 {
      ProcessedAlong(bucket, start, copy, processed, p, i - 1);
      assert OneApart(p[i - 1], p[i]);
      assert p[i] !in copy;
    }
  }
}
