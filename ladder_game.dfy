/**
 * The shared search context of both solvers (`LadderGame`): the dictionary
 * bucketed by word length, the per-run working copy that the breadth-first
 * solver consumes, the neighbour generator `OneAway`, input validation and
 * the enqueue counter; and what a solve call reports.
 */
module Game {

  import opened Wrappers
  import opened Ladders

  /** Why a solve call rejects its input (the Java code throws). */
  datatype InputError =
    | UnequalLength      // IllegalArgumentException: start and end differ in length
    | NoSuchBucket       // IndexOutOfBoundsException: no bucket for a word that long
    | NotInDictionary    // IllegalArgumentException: start or end missing from its bucket

  /** What a solve call reports, in place of the lines it prints. */
  datatype Outcome =
    | Found(path: seq<string>, moves: nat, enqueues: nat)
    | NoLadder(enqueues: nat)
    | Invalid(error: InputError)

  /** A successful search reports a shortest ladder and its moves; an exhausted one means none exists. */
  ghost predicate SolvedCorrectly(bucket: seq<string>, start: string, end: string, r: Outcome)
  {
    match r
    case Found(path, moves, _) => IsShortestLadder(path, bucket, start, end) && moves == |path| - 1
    case NoLadder(_) => forall p :: !LadderFromTo(p, bucket, start, end)
    case Invalid(_) => false
  }

  function Last<T>(s: seq<T>): T
    requires s != []
  {
    s[|s| - 1]
  }

  /** The words of `ws` that have length `n`, in input order. */
  function OfLength(ws: seq<string>, n: nat): seq<string>
  {
    if ws == [] then []
    else OfLength(ws[..|ws| - 1], n) + (if |Last(ws)| == n then [Last(ws)] else [])
  }

  /** The bucket of length `n` holds exactly the words of that length, and no more words than the list. */
  lemma {:induction false} OfLengthMembers(ws: seq<string>, n: nat)
    ensures forall w :: w in OfLength(ws, n) <==> w in ws && |w| == n
    ensures |OfLength(ws, n)| <= |ws|
  {
    if ws != [] {
      OfLengthMembers(ws[..|ws| - 1], n);
      assert ws == ws[..|ws| - 1] + [Last(ws)];
    }
  }

  /** The length of the longest word, 0 for an empty list. */
  function MaxLength(ws: seq<string>): (r: nat)
    ensures forall w :: w in ws ==> |w| <= r
    ensures ws != [] ==> exists w :: w in ws && |w| == r
    ensures ws == [] ==> r == 0
  {
    if ws == [] then 0
    else
      var m := MaxLength(ws[..|ws| - 1]);
      if |Last(ws)| > m then |Last(ws)| else m
  }

  /** Every word of bucket n has length n. */
  ghost predicate Bucketed(d: seq<seq<string>>)
  {
    forall n, w :: 0 <= n < |d| && w in d[n] ==> |w| == n
  }

  /** One more word of the list appends it to the bucket of its length only. */
  lemma OfLengthPrefix(ws: seq<string>, i: nat, n: nat)
    requires i < |ws|
    ensures OfLength(ws[..i + 1], n) == OfLength(ws[..i], n) + (if |ws[i]| == n then [ws[i]] else [])
  {
    assert ws[..i + 1][..i] == ws[..i];
  }

  /** Appending a word to the list raises the longest length to that word's at most. */
  lemma MaxLengthAppend(ws: seq<string>, w: string)
    ensures MaxLength(ws + [w]) == if |w| > MaxLength(ws) then |w| else MaxLength(ws)
  {
    assert (ws + [w])[..|ws|] == ws;
  }

  /** The first pass of `readDictionary`: the length of the longest word. */
  method LongestLength(allWords: seq<string>) returns (longestWord: nat)
    ensures longestWord == MaxLength(allWords)
  {
    longestWord := 0;
    for i := 0 to |allWords|
      invariant longestWord == MaxLength(allWords[..i])
    {
      assert allWords[..i + 1] == allWords[..i] + [allWords[i]];
      MaxLengthAppend(allWords[..i], allWords[i]);
      longestWord := if |allWords[i]| > longestWord then |allWords[i]| else longestWord;
    }
    assert allWords[..|allWords|] == allWords;
  }

  /** One empty bucket per length from 0 to `longestWord`. */
  method EmptyBuckets(longestWord: nat) returns (dictionary: seq<seq<string>>)
    ensures |dictionary| == longestWord + 1
    ensures forall n :: 0 <= n < |dictionary| ==> dictionary[n] == []
  {
    dictionary := [];
    for i := 0 to longestWord + 1
      invariant |dictionary| == i
      invariant forall n :: 0 <= n < i ==> dictionary[n] == []
    {
      dictionary := dictionary + [[]];
    }
  }

  /**
   * The bucketing step of `readDictionary`: one bucket per length from 0 to
   * the longest word, and every word appended to the bucket indexed by its
   * length, in input order.
   */
  method BucketWords(allWords: seq<string>) returns (dictionary: seq<seq<string>>)
    ensures |dictionary| == MaxLength(allWords) + 1
    ensures forall n :: 0 <= n < |dictionary| ==> dictionary[n] == OfLength(allWords, n)
    ensures Bucketed(dictionary)
  {
    var longestWord := LongestLength(allWords);
    dictionary := EmptyBuckets(longestWord);
    for i := 0 to |allWords|
      invariant |dictionary| == longestWord + 1
      invariant forall n :: 0 <= n < |dictionary| ==> dictionary[n] == OfLength(allWords[..i], n)
    {
      var word := allWords[i];
      assert word in allWords;
      BucketAppend(dictionary, allWords, i, allWords[..i + 1]);
      dictionary := dictionary[|word| := dictionary[|word|] + [word]];
    }
    assert allWords[..|allWords|] == allWords;
    BucketsBucketed(dictionary, allWords);
  }

  /** Appending a word to its own bucket keeps every bucket equal to the words of its length. */
  lemma BucketAppend(d: seq<seq<string>>, ws: seq<string>, i: nat, prefix: seq<string>)
    requires i < |ws| && |ws[i]| < |d| && prefix == ws[..i + 1]
    requires forall n :: 0 <= n < |d| ==> d[n] == OfLength(ws[..i], n)
    ensures forall n :: 0 <= n < |d| ==> d[|ws[i]| := d[|ws[i]|] + [ws[i]]][n] == OfLength(prefix, n)
  {
    forall n | 0 <= n < |d|
      ensures d[|ws[i]| := d[|ws[i]|] + [ws[i]]][n] == OfLength(prefix, n)
    {
      OfLengthPrefix(ws, i, n);
    }
  }

  /** Buckets filled by length are bucketed. */
  lemma BucketsBucketed(d: seq<seq<string>>, ws: seq<string>)
    requires forall n :: 0 <= n < |d| ==> d[n] == OfLength(ws, n)
    ensures Bucketed(d)
  {
    forall n | 0 <= n < |d| {
      OfLengthMembers(ws, n);
    }
  }

  /** The words of the bucket that are neighbours of `word`, in bucket order. */
  ghost function Neighbours(word: string, bucket: seq<string>): seq<string>
  {
    if bucket == [] then []
    else Neighbours(word, bucket[..|bucket| - 1]) + (if OneApart(word, Last(bucket)) then [Last(bucket)] else [])
  }

  /** The neighbours are exactly the bucket's words one letter away, so never `word` itself. */
  lemma {:induction false} NeighboursMembers(word: string, bucket: seq<string>)
    ensures forall w :: w in Neighbours(word, bucket) <==> w in bucket && OneApart(word, w)
    ensures word !in Neighbours(word, bucket)
  {
    HammingZeroIff(word, word);
    if bucket != [] {
      var init := bucket[..|bucket| - 1];
      NeighboursMembers(word, init);
      assert bucket == init + [Last(bucket)];
    }
  }

  /** `removeAll`: every occurrence of the dropped words removed, the rest kept in order. */
  function Without(bucket: seq<string>, drop: seq<string>): seq<string>
  {
    if bucket == [] then []
    else Without(bucket[..|bucket| - 1], drop) + (if Last(bucket) in drop then [] else [Last(bucket)])
  }

  /** What `removeAll` keeps is exactly the bucket's words that are not dropped. */
  lemma {:induction false} WithoutMembers(bucket: seq<string>, drop: seq<string>)
    ensures forall w :: w in Without(bucket, drop) <==> w in bucket && w !in drop
  {
    if bucket != [] {
      var init := bucket[..|bucket| - 1];
      WithoutMembers(init, drop);
      assert bucket == init + [Last(bucket)];
    }
  }

  /** Removing the neighbours of `word` from any part of `s` leaves exactly its non-neighbours. */
  lemma {:induction false} SplitSizesFrom(word: string, s: seq<string>, t: seq<string>)
    requires forall w :: w in t ==> w in s
    ensures |Neighbours(word, t)| + |Without(t, Neighbours(word, s))| == |t|
  {
    if t != [] {
      SplitSizesFrom(word, s, t[..|t| - 1]);
      NeighboursMembers(word, s);
    }
  }

  /** A bucket splits into the neighbours of `word` and what `removeAll` leaves. */
  lemma SplitSizes(word: string, s: seq<string>)
    ensures |Neighbours(word, s)| + |Without(s, Neighbours(word, s))| == |s|
  {
    SplitSizesFrom(word, s, s);
  }

  class LadderGame {
    /** The dictionary index: bucket n holds the words of length n, in input order. */
    const dictionary: seq<seq<string>>
    /** The per-run working copy of the dictionary index. */
    var dictionaryCopy: seq<seq<string>>
    var totalEnqueues: int

    /**
     * The dictionary and its working copy are both bucketed by length, with
     * one bucket per length.
     */
    ghost predicate Valid()
      reads this
    {
      Bucketed(dictionary) && Bucketed(dictionaryCopy) &&
      |dictionaryCopy| == |dictionary|
    }

    /** Builds the index from the word list (read from a file in Java) and a fresh working copy. */
    constructor (allWords: seq<string>)
      ensures Valid()
      ensures |dictionary| == MaxLength(allWords) + 1
      ensures forall n :: 0 <= n < |dictionary| ==> dictionary[n] == OfLength(allWords, n)
      ensures dictionaryCopy == dictionary && totalEnqueues == 0
    {
      var d := BucketWords(allWords);
      dictionary := d;
      new;
      Reset();
    }

    /** `resetDictionaryCopy`: the working copy becomes a bucket-by-bucket copy of the index. */
    method ResetDictionaryCopy()
      requires Bucketed(dictionary)
      modifies this`dictionaryCopy
      ensures Valid()
      ensures dictionaryCopy == dictionary
      ensures |dictionaryCopy| == |dictionary| && forall n :: 0 <= n < |dictionary| ==> |dictionaryCopy[n]| == |dictionary[n]|
    {
      var copy: seq<seq<string>> := [];
      for i := 0 to |dictionary|
        invariant copy == dictionary[..i]
      {
        copy := copy + [dictionary[i]];
      }
      assert dictionary[..|dictionary|] == dictionary;
      dictionaryCopy := copy;
    }

    /** `reset`: a fresh working copy and a zero enqueue counter. */
    method Reset()
      requires Bucketed(dictionary)
      modifies this`dictionaryCopy, this`totalEnqueues
      ensures Valid()
      ensures dictionaryCopy == dictionary && totalEnqueues == 0
    {
      ResetDictionaryCopy();
      totalEnqueues := 0;
    }

    /**
     * `getWordsOfLength`: the live working-copy bucket for `length`; `None`
     * where Java throws `IndexOutOfBoundsException`.
     */
    function WordsOfLength(length: nat): (r: Option<seq<string>>)
      reads this
      requires Valid()
      ensures r.None? <==> length >= |dictionary|
      ensures r.Some? ==> r.value == dictionaryCopy[length] && forall w :: w in r.value ==> |w| == length
    {
      if length < |dictionaryCopy| then Some(dictionaryCopy[length]) else None
    }

    /**
     * `validateInput`: the words must have the same length, a bucket must
     * exist for it, and both must be in that bucket of the working copy.
     */
    function ValidateInput(start: string, end: string): (r: Option<InputError>)
      reads this
      requires Valid()
      ensures r == Some(UnequalLength) <==> |start| != |end|
      ensures r == Some(NoSuchBucket) <==> |start| == |end| && |start| >= |dictionary|
      ensures r == None <==>
        |start| == |end| && |start| < |dictionary| &&
        start in dictionaryCopy[|start|] && end in dictionaryCopy[|start|]
    {
      if |start| != |end| then Some(UnequalLength)
      else
        match WordsOfLength(|start|)
        case None => Some(NoSuchBucket)
        case Some(wordsOfSameLength) =>
          if start !in wordsOfSameLength || end !in wordsOfSameLength then Some(NotInDictionary) else None
    }

    /**
     * `oneAway`: the words of the same-length working-copy bucket that differ
     * from `word` in exactly one position, in bucket order; with removal,
     * `removeAll` then drops them from that bucket and nothing else changes.
     */
    method OneAway(word: string, withRemoval: bool) returns (words: seq<string>)
      requires Valid() && |word| < |dictionary|
      modifies this`dictionaryCopy
      ensures Valid()
      ensures words == Neighbours(word, old(dictionaryCopy[|word|]))
      ensures withRemoval ==>
        dictionaryCopy == old(dictionaryCopy)[|word| := Without(old(dictionaryCopy[|word|]), words)]
      ensures !withRemoval ==> dictionaryCopy == old(dictionaryCopy)
    {
      words := [];
      var wordsOfSameLength := WordsOfLength(|word|).value;
      for i := 0 to |wordsOfSameLength|
        invariant dictionaryCopy == old(dictionaryCopy)
        invariant words == Neighbours(word, wordsOfSameLength[..i])
      {
        var w := wordsOfSameLength[i];
        assert w in wordsOfSameLength;
        assert wordsOfSameLength[..i + 1][..i] == wordsOfSameLength[..i];
        var d := Diff(word, w);
        if d == 1 {
          words := words + [w];
        }
      }
      assert wordsOfSameLength[..|wordsOfSameLength|] == wordsOfSameLength;
      if withRemoval {
        WithoutMembers(wordsOfSameLength, words);
        dictionaryCopy := dictionaryCopy[|word| := Without(wordsOfSameLength, words)];
      }
    }
  }

}
