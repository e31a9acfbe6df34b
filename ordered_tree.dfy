/**
 * The two ordered trees of the A* solver, by what they hold rather than by
 * their balancing: the priority tree is the finite set of records it holds,
 * from which `DeleteMin` removes a least one under `compareTo`; the visited
 * tree of `PreviousWord`s is ordered by word alone, so it is a map from word
 * to best-known moves.
 */
module OrderedTree {

  import opened Wrappers
  import opened Ladders
  import opened PriorityInfo

  /** `m` is held by `t` and no record of `t` compares below it. */
  predicate IsLeast(m: WordInfoPriority, t: set<WordInfoPriority>)
  {
    m in t && forall x :: x in t ==> CompareTo(m, x) <= 0
  }

  /** Every non-empty tree has a least record. */
  lemma {:induction false} LeastExists(t: set<WordInfoPriority>)
    requires t != {}
    ensures exists m :: IsLeast(m, t)
    decreases |t|
  {
    var y :| y in t;
    CompareToZeroIff(y, y);
    if t - {y} == {} {
      assert t == {y};
      assert IsLeast(y, t);
    } else {
      LeastExists(t - {y});
      var m :| IsLeast(m, t - {y});
      if CompareTo(m, y) <= 0 {
        assert IsLeast(m, t);
      } else {
        CompareToAntisymmetric(m, y);
        forall x | x in t ensures CompareTo(y, x) <= 0 {
          if x != y {
            CompareToAtMostTransitive(y, m, x);
          }
        }
        assert IsLeast(y, t);
      }
    }
  }

  /**
   * `insert`: adding a record that compares equal to none already held, the
   * only way the solver calls it; the tree then holds one record more.
   */
  function Insert(t: set<WordInfoPriority>, e: WordInfoPriority): (r: set<WordInfoPriority>)
    requires forall x :: x in t ==> CompareTo(x, e) != 0
    ensures forall x :: x in r <==> x in t || x == e
    ensures |r| == |t| + 1
  {
    CompareToZeroIff(e, e);
    t + {e}
  }

  /** `deleteMin`: removes and returns a least record; `None` when the tree is empty. */
  method DeleteMin(t: set<WordInfoPriority>) returns (m: Option<WordInfoPriority>, rest: set<WordInfoPriority>)
    ensures t == {} ==> m == None && rest == t
    ensures t != {} ==> m.Some? && IsLeast(m.value, t) && rest == t - {m.value} && |rest| == |t| - 1
  {
    if t == {} {
      return None, t;
    }
    LeastExists(t);
    var least :| IsLeast(least, t);
    m, rest := Some(least), t - {least};
  }

  /** A visited-tree record: a word and the fewest moves known to reach it. */
  datatype PreviousWord = PreviousWord(word: string, moves: nat)

  /** `PreviousWord.compareTo`: by word only, so the moves are payload and not part of the key. */
  function ComparePreviousWords(a: PreviousWord, b: PreviousWord): (r: int)
    ensures r == 0 <==> a.word == b.word
    ensures r == -CompareStrings(b.word, a.word)
  {
    CompareStringsZeroIff(a.word, b.word);
    CompareStringsAntisymmetric(a.word, b.word);
    CompareStrings(a.word, b.word)
  }

}
