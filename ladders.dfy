/**
 * Words and word ladders: the Hamming distance that `diff` computes, Java's
 * `String.compareTo` used as a tie-breaker, the ladder node `WordInfo`, and
 * what it means for a sequence of words to be a (shortest) ladder through a
 * dictionary bucket.
 */
module Ladders {

  /** A node of a partial ladder: the last word, the number of moves so far and the words visited. */
  datatype WordInfo = WordInfo(word: string, moves: nat, history: seq<string>)

  /** The positions below `i` at which two equal-length words differ. */
  ghost function DiffBefore(w1: string, w2: string, i: nat): set<nat>
    requires |w1| == |w2| && i <= |w1|
  {
    set j: nat | j < i && w1[j] != w2[j]
  }

  /** The Hamming distance: the number of positions at which two equal-length words differ. */
  ghost function Hamming(w1: string, w2: string): nat
    requires |w1| == |w2|
  {
    |DiffBefore(w1, w2, |w1|)|
  }

  /** Two words are neighbours when they have the same length and differ in exactly one position. */
  ghost predicate OneApart(w1: string, w2: string)
  {
    |w1| == |w2| && Hamming(w1, w2) == 1
  }

  /** Extending the prefix by one position adds that position exactly when the words differ there. */
  lemma DiffBeforeStep(w1: string, w2: string, i: nat)
    requires |w1| == |w2| && i < |w1|
    ensures w1[i] != w2[i] ==> DiffBefore(w1, w2, i + 1) == DiffBefore(w1, w2, i) + {i}
    ensures w1[i] != w2[i] ==> |DiffBefore(w1, w2, i + 1)| == |DiffBefore(w1, w2, i)| + 1
    ensures w1[i] == w2[i] ==> DiffBefore(w1, w2, i + 1) == DiffBefore(w1, w2, i)
  {
    if w1[i] != w2[i] {
      assert DiffBefore(w1, w2, i + 1) == DiffBefore(w1, w2, i) + {i};
      assert i !in DiffBefore(w1, w2, i);
    } else {
      assert DiffBefore(w1, w2, i + 1) == DiffBefore(w1, w2, i);
    }
  }

  /**
   * `diff`: counts, position by position, where the two words differ.
   * The Java code asserts that the words have the same length.
   */
  method Diff(w1: string, w2: string) returns (count: nat)
    requires |w1| == |w2|
    ensures count == Hamming(w1, w2)
  {
    count := 0;
    var i := 0;
    while i < |w1|
      invariant i <= |w1|
      invariant count == |DiffBefore(w1, w2, i)|
    {
      DiffBeforeStep(w1, w2, i);
      if w1[i] != w2[i] {
        count := count + 1;
      }
      i := i + 1;
    }
  }

  /** At most `i` of the first `i` positions can differ. */
  lemma {:induction false} DiffBeforeBound(w1: string, w2: string, i: nat)
    requires |w1| == |w2| && i <= |w1|
    ensures |DiffBefore(w1, w2, i)| <= i
  {
    if i > 0 {
      DiffBeforeBound(w1, w2, i - 1);
      DiffBeforeStep(w1, w2, i - 1);
    }
  }

  /** The distance never exceeds the word length. */
  lemma HammingBound(w1: string, w2: string)
    requires |w1| == |w2|
    ensures Hamming(w1, w2) <= |w1|
  {
    DiffBeforeBound(w1, w2, |w1|);
  }

  /** The distance is zero exactly for identical words; in particular a word is never its own neighbour. */
  lemma HammingZeroIff(w1: string, w2: string)
    requires |w1| == |w2|
    ensures Hamming(w1, w2) == 0 <==> w1 == w2
    ensures !OneApart(w1, w1)
  {
    if w1 != w2 {
      var i :| 0 <= i < |w1| && w1[i] != w2[i];
      assert i in DiffBefore(w1, w2, |w1|);
    }
    assert DiffBefore(w1, w1, |w1|) == {};
  }

  /** The distance is symmetric. */
  lemma HammingSymmetric(w1: string, w2: string)
    requires |w1| == |w2|
    ensures Hamming(w1, w2) == Hamming(w2, w1)
  {
    assert DiffBefore(w1, w2, |w1|) == DiffBefore(w2, w1, |w2|);
  }

  /** A subset is no larger than its superset. */
  lemma SubsetCard<T>(a: set<T>, b: set<T>)
    requires a <= b
    ensures |a| <= |b|
  {
    assert b == a + (b - a);
  }

  /** The triangle inequality: changing `a` into `c` takes no more letters than going through `b`. */
  lemma HammingTriangle(a: string, b: string, c: string)
    requires |a| == |b| == |c|
    ensures Hamming(a, c) <= Hamming(a, b) + Hamming(b, c)
  {
    var ab, bc, ac := DiffBefore(a, b, |a|), DiffBefore(b, c, |b|), DiffBefore(a, c, |a|);
    assert ac <= ab + bc;
    SubsetCard(ac, ab + bc);
  }

  /** The A* heuristic is consistent: one move changes the distance to the goal by at most one. */
  lemma HammingConsistent(a: string, b: string, goal: string)
    requires OneApart(a, b) && |b| == |goal|
    ensures Hamming(a, goal) <= Hamming(b, goal) + 1
    ensures Hamming(b, goal) <= Hamming(a, goal) + 1
  {
    HammingTriangle(a, b, goal);
    HammingSymmetric(a, b);
    HammingTriangle(b, a, goal);
  }

  /**
   * Java's `String.compareTo`: the difference of the first differing characters,
   * or the difference of the lengths when one word is a prefix of the other.
   * Java compares UTF-16 code units; here a character is a Unicode scalar value.
   */
  function CompareStrings(a: string, b: string): (r: int)
    ensures a <= b || b <= a ==> r == |a| - |b|
  {
    if |a| == 0 || |b| == 0 then |a| - |b|
    else if a[0] != b[0] then a[0] as int - b[0] as int
    else CompareStrings(a[1..], b[1..])
  }

  /** Where the words first differ, the comparison is the difference of those two characters. */
  lemma {:induction false} CompareStringsFirstDifference(a: string, b: string, k: nat)
    requires k < |a| && k < |b| && a[..k] == b[..k] && a[k] != b[k]
    ensures CompareStrings(a, b) == a[k] as int - b[k] as int
  {
    if k > 0 {
      assert a[0] == a[..k][0] == b[..k][0] == b[0];
      assert a[1..][..k - 1] == a[..k][1..] == b[..k][1..] == b[1..][..k - 1];
      CompareStringsFirstDifference(a[1..], b[1..], k - 1);
    }
  }

  /** The comparison is zero exactly for equal words. */
  lemma {:induction false} CompareStringsZeroIff(a: string, b: string)
    ensures CompareStrings(a, b) == 0 <==> a == b
  {
    if |a| != 0 && |b| != 0 && a[0] == b[0] {
      CompareStringsZeroIff(a[1..], b[1..]);
      assert a == [a[0]] + a[1..] && b == [b[0]] + b[1..];
    }
  }

  /** Swapping the operands negates the comparison. */
  lemma {:induction false} CompareStringsAntisymmetric(a: string, b: string)
    ensures CompareStrings(a, b) == -CompareStrings(b, a)
  {
    if |a| != 0 && |b| != 0 && a[0] == b[0] {
      CompareStringsAntisymmetric(a[1..], b[1..]);
    }
  }

  /** The comparison is transitive. */
  lemma {:induction false} CompareStringsTransitive(a: string, b: string, c: string)
    requires CompareStrings(a, b) < 0 && CompareStrings(b, c) < 0
    ensures CompareStrings(a, c) < 0
  {
    if |a| != 0 && |b| != 0 && |c| != 0 && a[0] == b[0] && b[0] == c[0] {
      CompareStringsTransitive(a[1..], b[1..], c[1..]);
    }
  }

  /** Every word of the ladder is in the bucket and consecutive words are neighbours. */
  ghost predicate IsLadder(p: seq<string>, bucket: seq<string>)
  {
    |p| >= 1 &&
    (forall i :: 0 <= i < |p| ==> p[i] in bucket) &&
    (forall i :: 0 <= i < |p| - 1 ==> OneApart(p[i], p[i + 1]))
  }

  /** A ladder through `bucket` from `start` to `end`; it takes |p| - 1 moves. */
  ghost predicate LadderFromTo(p: seq<string>, bucket: seq<string>, start: string, end: string)
  {
    IsLadder(p, bucket) && p[0] == start && p[|p| - 1] == end
  }

  /** A ladder from `start` to `end` that no other such ladder beats. */
  ghost predicate IsShortestLadder(path: seq<string>, bucket: seq<string>, start: string, end: string)
  {
    LadderFromTo(path, bucket, start, end) &&
    forall p :: LadderFromTo(p, bucket, start, end) ==> |path| <= |p|
  }

  /** `w` can be reached from `start` in at most `k` moves through the bucket. */
  ghost predicate Within(bucket: seq<string>, start: string, w: string, k: nat)
    decreases k
  {
    w == start ||
    (k > 0 && w in bucket &&
     exists v :: v in bucket && OneApart(v, w) && Within(bucket, start, v, k - 1))
  }

  /** Reachability within k moves implies reachability within k + 1 moves. */
  lemma {:induction false} WithinStep(bucket: seq<string>, start: string, w: string, k: nat)
    requires Within(bucket, start, w, k)
    ensures Within(bucket, start, w, k + 1)
    decreases k
  {
    if w != start {
      var v :| v in bucket && OneApart(v, w) && Within(bucket, start, v, k - 1);
      WithinStep(bucket, start, v, k - 1);
    }
  }

  /** Reachability is monotone in the number of moves. */
  lemma {:induction false} WithinMono(bucket: seq<string>, start: string, w: string, a: nat, b: nat)
    requires a <= b && Within(bucket, start, w, a)
    ensures Within(bucket, start, w, b)
    decreases b - a
  {
    if a < b {
      WithinStep(bucket, start, w, a);
      WithinMono(bucket, start, w, a + 1, b);
    }
  }

  /** A ladder of n moves from `start` reaches its last word within n moves. */
  lemma {:induction false} LadderWithin(p: seq<string>, bucket: seq<string>, start: string)
    requires IsLadder(p, bucket) && p[0] == start
    ensures Within(bucket, start, p[|p| - 1], |p| - 1)
  {
    if |p| > 1 {
      var q := p[..|p| - 1];
      assert IsLadder(q, bucket);
      LadderWithin(q, bucket, start);
      assert OneApart(p[|p| - 2], p[|p| - 1]);
    }
  }

  /** Along a ladder, the distance from word i to the last word is at most the number of moves left. */
  lemma {:induction false} LadderHamming(p: seq<string>, bucket: seq<string>, i: nat)
    requires IsLadder(p, bucket) && i < |p|
    ensures |p[i]| == |p[|p| - 1]|
    ensures Hamming(p[i], p[|p| - 1]) <= |p| - 1 - i
    decreases |p| - i
  {
    if i == |p| - 1 {
      HammingZeroIff(p[i], p[i]);
    } else {
      LadderHamming(p, bucket, i + 1);
      assert OneApart(p[i], p[i + 1]);
      HammingTriangle(p[i], p[i + 1], p[|p| - 1]);
    }
  }

  /** Extending a ladder by a neighbour of its last word in the bucket gives a ladder. */
  lemma LadderExtend(p: seq<string>, bucket: seq<string>, w: string)
    requires IsLadder(p, bucket) && w in bucket && OneApart(p[|p| - 1], w)
    ensures IsLadder(p + [w], bucket)
    ensures (p + [w])[0] == p[0] && (p + [w])[|p|] == w
  {
    var q := p + [w];
    forall i | 0 <= i < |q| - 1 ensures OneApart(q[i], q[i + 1]) {
      if i < |p| - 1 {
        assert q[i] == p[i] && q[i + 1] == p[i + 1];
      }
    }
  }

}
