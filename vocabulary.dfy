/**
 * Choosing the vocabulary (DoWriteWordAndClassInfo, lines 345-388): the
 * number of words above the cutoff bounds the vocabulary size, the most
 * frequent words are kept, and every other word is folded into the count
 * of the unknown-word token.
 */
module Vocabulary {
  import opened Sums
  import opened PriorityQueues

  /** The largest value of the source's `size_t`. */
  const SizeMax: nat := 0xFFFF_FFFF_FFFF_FFFF

  function Min(a: nat, b: nat): nat
  {
    if a <= b then a else b
  }

  /** The words whose count is above the cutoff. */
  function Survivors(counts: map<string, nat>, cutoff: int): set<string>
  {
    set w | w in counts && counts[w] > cutoff
  }

  /** The words among `keys` whose count is at most the cutoff. */
  function AtMostCutoff(counts: map<string, nat>, keys: set<string>, cutoff: int): set<string>
  {
    set w | w in keys && w in counts && counts[w] <= cutoff
  }

  /**
   * `wordCountLessCutoff` (lines 346-351): the table's size, less one for
   * every word whose count is at most a positive cutoff. A cutoff of zero or
   * below removes nothing.
   */
  method CountAboveCutoff(counts: map<string, nat>, cutoff: int) returns (n: nat)
    ensures n == if cutoff > 0 then |Survivors(counts, cutoff)| else |counts|
  {
    n := |counts|;
    if cutoff > 0 {
      var rest := counts.Keys;
      assert counts.Keys == Survivors(counts, cutoff) + AtMostCutoff(counts, rest, cutoff);
      assert Survivors(counts, cutoff) * AtMostCutoff(counts, rest, cutoff) == {};
      while rest != {}
        invariant rest <= counts.Keys
        invariant n == |Survivors(counts, cutoff)| + |AtMostCutoff(counts, rest, cutoff)|
        decreases rest
      {
        var w :| w in rest;
        if counts[w] <= cutoff {
          assert AtMostCutoff(counts, rest - {w}, cutoff) == AtMostCutoff(counts, rest, cutoff) - {w};
          n := n - 1;
        } else {
          assert AtMostCutoff(counts, rest - {w}, cutoff) == AtMostCutoff(counts, rest, cutoff);
        }
        rest := rest - {w};
      }
      assert AtMostCutoff(counts, rest, cutoff) == {};
    }
  }

  /**
   * What the selection of lines 366-388 guarantees. The result holds the
   * unknown-word token; every other word in it is a word of the corpus with
   * its corpus count; no word left out has a larger count than a word kept;
   * nothing is lost, since the counts left out are added to the unknown
   * word's; and, for a positive vocabulary size, exactly `vocabSize - 1`
   * words other than the unknown word are kept, or all of them when there
   * are fewer.
   */
  ghost predicate IsSelection(counts: map<string, nat>, vocabSize: nat, unkWord: string, removed: map<string, nat>)
  {
    && KeepsCorpusCounts(counts, unkWord, removed)
    && KeepsMostFrequent(counts, unkWord, removed)
    && MapSum(removed) == MapSum(counts)
    && (vocabSize >= 1 ==> |removed.Keys - {unkWord}| == Min(vocabSize - 1, |counts.Keys - {unkWord}|))
    && (vocabSize == 0 && |counts| <= SizeMax ==> KeepsAboveUnknown(counts, unkWord, removed))
  }

  /**
   * Every word more frequent than the unknown word is kept, and every word
   * when the unknown word is not in the corpus: with `vocabSize == 0` the
   * budget is the largest `size_t` until the unknown word is taken.
   */
  ghost predicate KeepsAboveUnknown(counts: map<string, nat>, unkWord: string, removed: map<string, nat>)
  {
    forall w :: w in counts && (unkWord in counts ==> counts[w] > counts[unkWord]) ==> w in removed
  }

  /** The result holds the unknown word, and every other word in it with its corpus count. */
  ghost predicate KeepsCorpusCounts(counts: map<string, nat>, unkWord: string, removed: map<string, nat>)
  {
    && unkWord in removed
    && (forall w :: w in removed && w != unkWord ==> w in counts && removed[w] == counts[w])
  }

  /** No word left out of the result is more frequent than a word kept. */
  ghost predicate KeepsMostFrequent(counts: map<string, nat>, unkWord: string, removed: map<string, nat>)
  {
    forall a, b :: a in removed && a != unkWord && a in counts && b in counts && b !in removed ==> counts[a] >= counts[b]
  }

  /**
   * The state of the first selection loop: the table is split between the
   * words taken (`removed`, with their counts) and the queue, every word
   * taken is at least as frequent as every word still queued, and the
   * counts add up.
   */
  ghost predicate Taken(counts: map<string, nat>, removed: map<string, nat>, entries: map<string, nat>)
  {
    && Partition(counts, removed, entries)
    && TakenFirst(counts, removed, entries)
    && |removed| + |entries| == |counts|
    && MapSum(removed) + MapSum(entries) == MapSum(counts)
  }

  /** Every word of the table is either taken or queued, never both, with its count. */
  ghost predicate Partition(counts: map<string, nat>, removed: map<string, nat>, entries: map<string, nat>)
  {
    && (forall w :: w in entries ==> w in counts && entries[w] == counts[w])
    && (forall w :: w in removed ==> w in counts && removed[w] == counts[w] && w !in entries)
    && (forall w :: w in counts ==> w in removed || w in entries)
  }

  /** Every word taken is at least as frequent as every word still queued. */
  ghost predicate TakenFirst(counts: map<string, nat>, removed: map<string, nat>, entries: map<string, nat>)
    requires forall w :: w in removed || w in entries ==> w in counts
  {
    forall a, b :: a in removed && b in entries ==> counts[a] >= counts[b]
  }

  /**
   * The invariant of the first selection loop (lines 370-382): the split,
   * `size` counting the words taken, `unkCount` holding the unknown word's
   * count once it is taken, and `actualVocabSize` the budget, raised by one
   * (as a `size_t`) once the unknown word is taken.
   */
  ghost predicate Selecting(counts: map<string, nat>, vocabSize: nat, unkWord: string, removed: map<string, nat>,
                            entries: map<string, nat>, unkCount: nat, size: nat, actualVocabSize: nat)
  {
    && vocabSize <= SizeMax
    && Taken(counts, removed, entries)
    && size == |removed|
    && unkCount == (if unkWord in removed && unkWord in counts then counts[unkWord] else 0)
    && (vocabSize >= 1 ==> actualVocabSize == vocabSize - 1 + (if unkWord in removed then 1 else 0))
    && (vocabSize >= 1 ==> size <= actualVocabSize)
    && (vocabSize == 0 ==> actualVocabSize == if unkWord in removed then 0 else SizeMax)
  }

  /** One iteration of the first selection loop keeps its invariant. */
  lemma SelectingStep(counts: map<string, nat>, vocabSize: nat, unkWord: string, removed: map<string, nat>,
                      entries: map<string, nat>, unkCount: nat, size: nat, actualVocabSize: nat, top: Entry)
    requires Selecting(counts, vocabSize, unkWord, removed, entries, unkCount, size, actualVocabSize)
    requires size < actualVocabSize
    requires top.word in entries && top.count == entries[top.word]
    requires forall v :: v in entries ==> !CompareSecond(top, Entry(v, entries[v]))
    ensures Selecting(counts, vocabSize, unkWord, removed[top.word := top.count], entries - {top.word},
                      if top.word == unkWord then unkCount + top.count else unkCount,
                      size + 1,
                      if top.word != unkWord then actualVocabSize
                      else if actualVocabSize == SizeMax then 0 else actualVocabSize + 1)
  {
    TakeNext(counts, removed, entries, top);
    assert top.word !in removed;
  }

  /** Taking the queue's top keeps the split. */
  lemma TakeNext(counts: map<string, nat>, removed: map<string, nat>, entries: map<string, nat>, top: Entry)
    requires Taken(counts, removed, entries)
    requires top.word in entries && top.count == entries[top.word]
    requires forall v :: v in entries ==> !CompareSecond(top, Entry(v, entries[v]))
    ensures Taken(counts, removed[top.word := top.count], entries - {top.word})
  {
    PartitionStep(counts, removed, entries, top);
    TakenFirstStep(counts, removed, entries, top);
    MapSumRemove(entries, top.word);
    MapSumAdd(removed, top.word, top.count);
  }

  lemma PartitionStep(counts: map<string, nat>, removed: map<string, nat>, entries: map<string, nat>, top: Entry)
    requires Partition(counts, removed, entries)
    requires top.word in entries && top.count == entries[top.word]
    ensures Partition(counts, removed[top.word := top.count], entries - {top.word})
    ensures top.word !in removed
  {
  }

  lemma TakenFirstStep(counts: map<string, nat>, removed: map<string, nat>, entries: map<string, nat>, top: Entry)
    requires Partition(counts, removed, entries) && TakenFirst(counts, removed, entries)
    requires top.word in entries && top.count == entries[top.word]
    requires forall v :: v in entries ==> !CompareSecond(top, Entry(v, entries[v]))
    ensures TakenFirst(counts, removed[top.word := top.count], entries - {top.word})
  {
    forall a, b | a in removed[top.word := top.count] && b in entries - {top.word}
      ensures counts[a] >= counts[b]
    {
      if a == top.word {
        assert !CompareSecond(top, Entry(b, entries[b]));
      }
    }
  }

  /**
   * Lines 366-388. Words are taken from a priority queue over the table, the
   * most frequent first, until `vocabSize - 1` have been taken; taking the
   * unknown word itself does not use up a place. What is left in the queue
   * is added to the unknown word's count. `actualVocabSize` is a `size_t`:
   * for `vocabSize == 0` it starts at the largest `size_t`, and taking the
   * unknown word then wraps it to 0, which ends the selection.
   */
  method SelectVocabulary(counts: map<string, nat>, vocabSize: nat, unkWord: string)
    returns (removed: map<string, nat>)
    requires vocabSize <= SizeMax
    ensures IsSelection(counts, vocabSize, unkWord, removed)
    ensures vocabSize == 0 && unkWord !in counts && |counts| <= SizeMax ==> removed.Keys == counts.Keys + {unkWord}
  {
    var q := new PriorityQueue(counts);
    removed := map[];
    var unkCount: nat := 0;
    var size: nat := 0;
    var actualVocabSize: nat := if vocabSize == 0 then SizeMax else vocabSize - 1;
    while size < actualVocabSize && !q.IsEmpty()
      invariant Selecting(counts, vocabSize, unkWord, removed, q.entries, unkCount, size, actualVocabSize)
      decreases |q.entries|
    {
      ghost var before := q.entries;
      var top := q.Pop();
      SelectingStep(counts, vocabSize, unkWord, removed, before, unkCount, size, actualVocabSize, top);
      size := size + 1;
      if top.word == unkWord {
        unkCount := unkCount + top.count;
        actualVocabSize := if actualVocabSize == SizeMax then 0 else actualVocabSize + 1;
      }
      removed := removed[top.word := top.count];
    }
    ghost var kept := removed;
    ghost var rest := q.entries;
    ghost var takenUnkCount := unkCount;
    unkCount := Drain(q, unkCount);
    removed := removed[unkWord := unkCount];
    SelectionHolds(counts, vocabSize, unkWord, kept, rest, takenUnkCount, size, actualVocabSize, unkCount);
  }

  /** The loop's exit state establishes the selection's guarantees. */
  lemma SelectionHolds(counts: map<string, nat>, vocabSize: nat, unkWord: string,
                       kept: map<string, nat>, rest: map<string, nat>, takenUnkCount: nat,
                       size: nat, actualVocabSize: nat, unkCount: nat)
    requires Selecting(counts, vocabSize, unkWord, kept, rest, takenUnkCount, size, actualVocabSize)
    requires size >= actualVocabSize || rest == map[]
    requires unkCount == takenUnkCount + MapSum(rest)
    ensures IsSelection(counts, vocabSize, unkWord, kept[unkWord := unkCount])
    ensures vocabSize == 0 && unkWord !in counts && |counts| <= SizeMax
            ==> kept[unkWord := unkCount].Keys == counts.Keys + {unkWord}
  {
    SelectionOrder(counts, unkWord, kept, rest, unkCount);
    SelectionTotal(counts, kept, unkWord, unkCount, MapSum(rest));
    if vocabSize >= 1 {
      SelectionSize(counts, vocabSize, unkWord, kept, unkCount, size, actualVocabSize, rest == map[]);
    }
    if vocabSize == 0 && unkWord !in counts && |counts| <= SizeMax {
      SelectionKeepsAll(counts, unkWord, kept, rest, unkCount, actualVocabSize);
    }
    if vocabSize == 0 && |counts| <= SizeMax {
      SelectionKeepsAbove(counts, unkWord, kept, rest, unkCount, actualVocabSize);
    }
  }

  /**
   * With `vocabSize == 0`, the loop ends once the unknown word is taken or
   * the queue is empty; every word more frequent than the unknown word is
   * taken before it.
   */
  lemma SelectionKeepsAbove(counts: map<string, nat>, unkWord: string,
                            kept: map<string, nat>, rest: map<string, nat>, unkCount: nat, actualVocabSize: nat)
    requires Taken(counts, kept, rest)
    requires |counts| <= SizeMax
    requires actualVocabSize == if unkWord in kept then 0 else SizeMax
    requires rest == map[] || |kept| >= actualVocabSize
    ensures KeepsAboveUnknown(counts, unkWord, kept[unkWord := unkCount])
  {
  }

  /**
   * With `vocabSize == 0` and no unknown word in the corpus, the wrapped
   * budget is never reached and every word is kept.
   */
  lemma SelectionKeepsAll(counts: map<string, nat>, unkWord: string,
                          kept: map<string, nat>, rest: map<string, nat>, unkCount: nat, actualVocabSize: nat)
    requires Taken(counts, kept, rest)
    requires unkWord !in counts && |counts| <= SizeMax
    requires actualVocabSize == SizeMax
    requires rest == map[] || |kept| >= actualVocabSize
    ensures kept[unkWord := unkCount].Keys == counts.Keys + {unkWord}
  {
    assert kept.Keys == counts.Keys;
  }

  /** Replacing the unknown word's count keeps the other counts and the order. */
  lemma SelectionOrder(counts: map<string, nat>, unkWord: string, kept: map<string, nat>, rest: map<string, nat>, unkCount: nat)
    requires Taken(counts, kept, rest)
    ensures KeepsCorpusCounts(counts, unkWord, kept[unkWord := unkCount])
    ensures KeepsMostFrequent(counts, unkWord, kept[unkWord := unkCount])
  {
    var r := kept[unkWord := unkCount];
    assert forall b :: b in counts && b !in r ==> b in rest;
  }

  /** The loop of lines 383-387: empties the queue, adding every count left in it to `total`. */
  method Drain(q: PriorityQueue, total: nat) returns (newTotal: nat)
    modifies q
    ensures newTotal == total + MapSum(old(q.entries))
    ensures q.entries == map[]
  {
    newTotal := total;
    while !q.IsEmpty()
      invariant newTotal + MapSum(q.entries) == total + MapSum(old(q.entries))
      decreases |q.entries|
    {
      ghost var before := q.entries;
      var top := q.Pop();
      MapSumRemove(before, top.word);
      newTotal := newTotal + top.count;
    }
  }

  /** The sum of the selection: the unknown word's new count replaces its old one. */
  lemma SelectionTotal(counts: map<string, nat>, kept: map<string, nat>, unkWord: string, unkCount: nat, restSum: nat)
    requires MapSum(kept) + restSum == MapSum(counts)
    requires unkWord in kept ==> unkWord in counts && kept[unkWord] == counts[unkWord]
    requires unkCount == (if unkWord in kept then counts[unkWord] else 0) + restSum
    ensures MapSum(kept[unkWord := unkCount]) == MapSum(counts)
  {
    var r := kept[unkWord := unkCount];
    if unkWord in kept {
      MapSumRemove(kept, unkWord);
      MapSumRemove(r, unkWord);
      assert r - {unkWord} == kept - {unkWord};
    } else {
      MapSumAdd(kept, unkWord, unkCount);
    }
  }

  /** The number of words kept, at the end of the first loop of lines 370-382. */
  lemma SelectionSize(counts: map<string, nat>, vocabSize: nat, unkWord: string, kept: map<string, nat>,
                      unkCount: nat, size: nat, actualVocabSize: nat, drained: bool)
    requires vocabSize >= 1
    requires kept.Keys <= counts.Keys
    requires drained ==> kept.Keys == counts.Keys
    requires size == |kept|
    requires actualVocabSize == vocabSize - 1 + (if unkWord in kept then 1 else 0)
    requires size <= actualVocabSize
    requires drained || size == actualVocabSize
    ensures |kept[unkWord := unkCount].Keys - {unkWord}| == Min(vocabSize - 1, |counts.Keys - {unkWord}|)
  {
    var others := kept.Keys - {unkWord};
    assert kept[unkWord := unkCount].Keys - {unkWord} == others;
    assert |others| == size - (if unkWord in kept then 1 else 0);
    SubsetCardinality(others, counts.Keys - {unkWord});
  }

  /**
   * The cutoff takes effect only through the vocabulary size (lines 352-363):
   * once the size is at most the number of words above the cutoff, every
   * word kept besides the unknown word is above the cutoff.
   */
  lemma SelectionRespectsCutoff(counts: map<string, nat>, cutoff: int, vocabSize: nat, unkWord: string,
                                removed: map<string, nat>)
    requires IsSelection(counts, vocabSize, unkWord, removed)
    requires 1 <= vocabSize <= |Survivors(counts, cutoff)|
    ensures forall w :: w in removed && w != unkWord ==> w in counts && counts[w] > cutoff
  {
    var kept := removed.Keys - {unkWord};
    var above := Survivors(counts, cutoff) - {unkWord};
    var low := set w | w in kept && w in counts && counts[w] <= cutoff;
    var missed := above - kept;
    assert forall a, b :: a in low && b in missed ==> counts[a] >= counts[b];
    assert low == {} || missed == {};
    if missed == {} {
      assert above * low == {};
      assert |above + low| == |above| + |low|;
      SubsetCardinality(above + low, kept);
    }
    assert low == {};
  }

  /** The selection has exactly `vocabSize` entries when the corpus has at least that many words. */
  lemma SelectionFillsBudget(counts: map<string, nat>, vocabSize: nat, unkWord: string, removed: map<string, nat>)
    requires IsSelection(counts, vocabSize, unkWord, removed)
    requires 1 <= vocabSize <= |counts|
    ensures |removed| == vocabSize
  {
  }

  /** The selection never has more than `vocabSize` entries, the unknown word included. */
  lemma SelectionWithinBudget(counts: map<string, nat>, vocabSize: nat, unkWord: string, removed: map<string, nat>)
    requires IsSelection(counts, vocabSize, unkWord, removed)
    requires vocabSize >= 1
    ensures |removed| <= vocabSize
  {
    assert removed.Keys == (removed.Keys - {unkWord}) + {unkWord};
  }
}
