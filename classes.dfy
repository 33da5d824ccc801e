/**
 * Word classes (DoWriteWordAndClassInfo, lines 389-430): the kept words are
 * taken again from a priority queue, most frequent first, and numbered in
 * that order. Each word's share of the probability mass is added to a
 * running total `df`, clamped at 1, and the class id moves up by one when
 * `df` passes the next class boundary `(class_id + 1) / nbrCls`.
 *
 * A word's mass in the source is `sqrt(freq / total) / dd`, which depends
 * on the word's count only; here it is the parameter `mass`.
 */
module WordClasses {
  import opened PriorityQueues
  import opened Sums

  /**
   * One step of lines 412-418: add the word's mass, clamp at 1, and move to
   * the next class when the total passes that class's upper boundary.
   */
  function Advance(df: real, classId: nat, m: real, nbrCls: nat): (real, nat)
    requires nbrCls > 0
  {
    var sum := df + m;
    var clamped := if sum > 1.0 then 1.0 else sum;
    var next := if clamped > (classId + 1) as real / nbrCls as real && classId < nbrCls then classId + 1 else classId;
    (clamped, next)
  }

  /** `(df, class_id)` after the words with counts `counts` (in pop order) have been classed. */
  function ClassState(counts: seq<nat>, mass: nat -> real, nbrCls: nat): (real, nat)
    requires nbrCls > 0
  {
    if counts == [] then (0.0, 0)
    else
      var s := ClassState(counts[..|counts| - 1], mass, nbrCls);
      Advance(s.0, s.1, mass(counts[|counts| - 1]), nbrCls)
  }

  /** The class of every word, in pop order: the class id right after that word's step. */
  function Classes(counts: seq<nat>, mass: nat -> real, nbrCls: nat): (r: seq<nat>)
    requires nbrCls > 0
    ensures |r| == |counts|
  {
    if counts == [] then []
    else Classes(counts[..|counts| - 1], mass, nbrCls) + [ClassState(counts, mass, nbrCls).1]
  }

  lemma ClassesAppend(counts: seq<nat>, c: nat, mass: nat -> real, nbrCls: nat)
    requires nbrCls > 0
    ensures ClassState(counts + [c], mass, nbrCls)
            == (var s := ClassState(counts, mass, nbrCls); Advance(s.0, s.1, mass(c), nbrCls))
    ensures Classes(counts + [c], mass, nbrCls)
            == Classes(counts, mass, nbrCls) + [ClassState(counts + [c], mass, nbrCls).1]
  {
    assert (counts + [c])[..|counts|] == counts;
  }

  /** A positive `x / n` below 1 means `x < n`. */
  lemma BelowOne(x: real, n: real)
    requires n > 0.0 && x / n < 1.0
    ensures x < n
  {
    assert x == (x / n) * n;
  }

  /**
   * The running total never exceeds 1 (the clamp of lines 414-415), and so
   * the class id never reaches `nbrCls`: a move to class `k + 1` needs
   * `df > (k + 1) / nbrCls`, which with `df <= 1` means `k + 1 < nbrCls`.
   * This holds whatever the masses are.
   */
  lemma {:induction false} ClassStateBounds(counts: seq<nat>, mass: nat -> real, nbrCls: nat)
    requires nbrCls > 0
    ensures ClassState(counts, mass, nbrCls).0 <= 1.0
    ensures ClassState(counts, mass, nbrCls).1 < nbrCls
  {
    if counts != [] {
      var s := ClassState(counts[..|counts| - 1], mass, nbrCls);
      ClassStateBounds(counts[..|counts| - 1], mass, nbrCls);
      var t := Advance(s.0, s.1, mass(counts[|counts| - 1]), nbrCls);
      if t.1 != s.1 {
        BelowOne((s.1 + 1) as real, nbrCls as real);
      }
    }
  }

  /** Every class id lies in `[0, nbrCls)`. */
  lemma {:induction false} ClassesInRange(counts: seq<nat>, mass: nat -> real, nbrCls: nat)
    requires nbrCls > 0
    ensures forall i :: 0 <= i < |counts| ==> Classes(counts, mass, nbrCls)[i] < nbrCls
  {
    if counts != [] {
      ClassesInRange(counts[..|counts| - 1], mass, nbrCls);
      ClassStateBounds(counts, mass, nbrCls);
    }
  }

  /**
   * A1 of lines 239-240, and more: class ids never go down, go up by at most
   * one from a word to the next, and the first word is in class 0 or 1.
   */
  predicate ClassSteps(classes: seq<nat>)
  {
    && (classes != [] ==> classes[0] <= 1)
    && (forall i :: 0 < i < |classes| ==> classes[i - 1] <= classes[i] <= classes[i - 1] + 1)
  }

  lemma {:induction false} ClassesAreSteps(counts: seq<nat>, mass: nat -> real, nbrCls: nat)
    requires nbrCls > 0
    ensures ClassSteps(Classes(counts, mass, nbrCls))
  {
    if counts != [] {
      var init := counts[..|counts| - 1];
      ClassesAreSteps(init, mass, nbrCls);
      if init != [] {
        assert init[..|init| - 1] + [init[|init| - 1]] == init;
        ClassesAppend(init[..|init| - 1], init[|init| - 1], mass, nbrCls);
      }
    }
  }

  /** A1 as stated at lines 239-240: the class ids are sorted. */
  lemma ClassesSorted(counts: seq<nat>, mass: nat -> real, nbrCls: nat)
    requires nbrCls > 0
    ensures forall i, j :: 0 <= i <= j < |counts| ==> Classes(counts, mass, nbrCls)[i] <= Classes(counts, mass, nbrCls)[j]
  {
    ClassesAreSteps(counts, mass, nbrCls);
    StepsAreSorted(Classes(counts, mass, nbrCls));
  }

  lemma StepsAreSorted(classes: seq<nat>)
    requires ClassSteps(classes)
    ensures forall i, j :: 0 <= i <= j < |classes| ==> classes[i] <= classes[j]
  {
    forall i, j | 0 <= i <= j < |classes| ensures classes[i] <= classes[j] {
      var k := i;
      while k < j
        invariant i <= k <= j
        invariant classes[i] <= classes[k]
      {
        k := k + 1;
      }
    }
  }

  /**
   * The class id is raised before it is stored (lines 417-427), so the most
   * frequent word can already be in class 1 and class 0 then has no word:
   * two words whose masses are 3/4 and 1/4 (counts 9 and 1) with two
   * classes are both put in class 1.
   */
  lemma FirstWordCanSkipClassZero()
    ensures Classes([9, 1], c => if c == 9 then 0.75 else 0.25, 2) == [1, 1]
  {
    var mass: nat -> real := c => if c == 9 then 0.75 else 0.25;
    assert [9, 1][..1] == [9];
    assert [9][..0] == [];
    assert ClassState([9], mass, 2) == (0.75, 1);
  }

  /** Each kept word once, with its kept count: what `AssignClasses` numbers. */
  ghost predicate Numbering(removed: map<string, nat>, words: seq<string>, counts: seq<nat>)
  {
    && |words| == |counts| == |removed|
    && (forall i, j :: 0 <= i < j < |words| ==> words[i] != words[j])
    && (forall w :: w in removed <==> w in words)
    && (forall i :: 0 <= i < |words| ==> words[i] in removed && counts[i] == removed[words[i]])
  }

  /**
   * Numbering the kept table loses no count: when every kept word gets
   * exactly one index, the numbered counts add up to the table's total.
   */
  lemma {:induction false} NumberingSum(removed: map<string, nat>, words: seq<string>, counts: seq<nat>)
    requires Numbering(removed, words, counts)
    ensures Sum(counts) == MapSum(removed)
    decreases |words|
  {
    if words == [] {
      assert removed == map[];
    } else {
      var n := |words| - 1;
      NumberingInit(removed, words, counts);
      NumberingSum(removed - {words[n]}, words[..n], counts[..n]);
      MapSumRemove(removed, words[n]);
    }
  }

  /** Leaving out the last word and its entry keeps a numbering. */
  lemma NumberingInit(removed: map<string, nat>, words: seq<string>, counts: seq<nat>)
    requires Numbering(removed, words, counts) && words != []
    ensures Numbering(removed - {words[|words| - 1]}, words[..|words| - 1], counts[..|words| - 1])
  {
    var n := |words| - 1;
    var rest := removed - {words[n]};
    forall v | v in rest ensures v in words[..n] {
      var i :| 0 <= i < |words| && words[i] == v;
      assert words[..n][i] == v;
    }
  }

  /** Counts never go up along the sequence: the pop order of the queue. */
  predicate NonIncreasing(counts: seq<nat>)
  {
    forall i, j :: 0 <= i <= j < |counts| ==> counts[i] >= counts[j]
  }

  /**
   * Lines 389-430. The kept words are popped most frequent first; each gets
   * the next index (`m_index`, `m_words`), its count goes to `m_count` and,
   * with classes, its class to `m_class`. Both vectors are sized and zeroed
   * up front and written by position; they are local to the function and
   * are kept here as sequence values updated at that position. The results
   * are the three vectors' contents.
   */
  method AssignClasses(removed: map<string, nat>, nbrCls: int, mass: nat -> real)
    returns (words: seq<string>, wordCounts: seq<nat>, classes: seq<int>)
    ensures Numbering(removed, words, wordCounts) && |classes| == |words|
    ensures NonIncreasing(wordCounts)
    ensures nbrCls > 0 ==> classes == Classes(wordCounts, mass, nbrCls)
    ensures nbrCls <= 0 ==> forall i :: 0 <= i < |classes| ==> classes[i] == 0
  {
    var p := new PriorityQueue(removed);
    var mCount: seq<nat> := seq(|removed|, _ => 0);
    var mClass: seq<int> := seq(|removed|, _ => 0);
    var index: map<string, nat> := map[];
    words := [];
    var df: real := 0.0;
    var classId: nat := 0;
    AssigningInit(removed, mass, nbrCls);
    while !p.IsEmpty()
      invariant Assigning(removed, mass, nbrCls, words, index, p.entries, mCount, mClass, df, classId)
      decreases |p.entries|
    {
      ghost var before := p.entries;
      ghost var state := (df, classId);
      var top := p.Pop();
      if nbrCls > 0 {
        df, classId := NextClass(df, classId, mass(top.count), nbrCls);
      }
      AssigningStep(removed, mass, nbrCls, words, index, before, mCount, mClass, state.0, state.1, top, df, classId);
      var wid := |words|;
      var inserted := top.word !in index;
      if inserted {
        index := index[top.word := wid];
        words := words + [top.word];
      }
      mCount := mCount[wid := top.count];
      if nbrCls > 0 {
        mClass := mClass[wid := classId];
      }
    }
    wordCounts := mCount;
    classes := mClass;
    AssigningDone(removed, mass, nbrCls, words, index, wordCounts, classes, df, classId);
  }

  /** The state before the loop of lines 407-430: nothing numbered, both vectors zeroed. */
  lemma AssigningInit(removed: map<string, nat>, mass: nat -> real, nbrCls: int)
    ensures Assigning(removed, mass, nbrCls, [], map[], removed, seq(|removed|, _ => 0), seq(|removed|, _ => 0), 0.0, 0)
  {
  }

  /** The state after the loop: every kept word numbered, the vectors filled. */
  lemma AssigningDone(removed: map<string, nat>, mass: nat -> real, nbrCls: int, words: seq<string>,
                      index: map<string, nat>, counts: seq<nat>, classes: seq<int>, df: real, classId: nat)
    requires Assigning(removed, mass, nbrCls, words, index, map[], counts, classes, df, classId)
    ensures Numbering(removed, words, counts) && |classes| == |words|
    ensures NonIncreasing(counts)
    ensures nbrCls > 0 ==> classes == Classes(counts, mass, nbrCls)
    ensures nbrCls <= 0 ==> forall i :: 0 <= i < |classes| ==> classes[i] == 0
  {
    assert counts[..|words|] == counts;
    assert classes[..|words|] == classes;
  }

  /** Lines 412-418 as they run: the class state after one more word's mass. */
  method NextClass(df: real, classId: nat, m: real, nbrCls: nat) returns (newDf: real, newClassId: nat)
    requires nbrCls > 0
    ensures (newDf, newClassId) == Advance(df, classId, m, nbrCls)
  {
    newDf := df + m;
    if newDf > 1.0 {
      newDf := 1.0;
    }
    newClassId := classId;
    if newDf > (classId + 1) as real / nbrCls as real && classId < nbrCls {
      newClassId := classId + 1;
    }
  }

  /**
   * The invariant of the loop of lines 407-430, over the contents of
   * `m_count` and `m_class`: the numbering, the counts and the classes of
   * the words numbered so far.
   */
  ghost predicate Assigning(removed: map<string, nat>, mass: nat -> real, nbrCls: int, words: seq<string>,
                            index: map<string, nat>, entries: map<string, nat>,
                            counts: seq<nat>, classes: seq<int>, df: real, classId: nat)
  {
    && |counts| == |removed|
    && Numbered(removed, words, index, entries)
    && Counted(removed, words, entries, counts)
    && Classed(mass, nbrCls, |words|, counts, classes, df, classId)
  }

  /** One iteration of the loop of lines 407-430 keeps its invariant. */
  lemma AssigningStep(removed: map<string, nat>, mass: nat -> real, nbrCls: int, words: seq<string>,
                      index: map<string, nat>, entries: map<string, nat>,
                      counts: seq<nat>, classes: seq<int>, df: real, classId: nat, top: Entry,
                      newDf: real, newClassId: nat)
    requires Assigning(removed, mass, nbrCls, words, index, entries, counts, classes, df, classId)
    requires top.word in entries && top.count == entries[top.word]
    requires forall v :: v in entries ==> !CompareSecond(top, Entry(v, entries[v]))
    requires nbrCls > 0 ==> (newDf, newClassId) == Advance(df, classId, mass(top.count), nbrCls)
    requires nbrCls <= 0 ==> newDf == df && newClassId == classId
    ensures top.word !in index && |words| < |counts|
    ensures Assigning(removed, mass, nbrCls, words + [top.word], index[top.word := |words|], entries - {top.word},
                      counts[|words| := top.count], if nbrCls > 0 then classes[|words| := newClassId] else classes,
                      newDf, newClassId)
  {
    NumberedStep(removed, words, index, entries, top);
    CountedStep(removed, words, entries, counts, top);
    ClassedStep(mass, nbrCls, |words|, counts, classes, df, classId, top.count, newDf, newClassId);
  }

  /**
   * The counts of the numbered words: each word's count from the kept
   * table, in pop order, and none smaller than a count still queued.
   */
  ghost predicate Counted(removed: map<string, nat>, words: seq<string>, entries: map<string, nat>, counts: seq<nat>)
  {
    && |words| <= |counts|
    && (forall i :: 0 <= i < |words| ==> words[i] in removed && counts[i] == removed[words[i]])
    && NonIncreasing(counts[..|words|])
    && (forall i, w :: 0 <= i < |words| && w in entries ==> counts[i] >= entries[w])
  }

  /** Storing the count of the popped, greatest, entry keeps the counts. */
  lemma CountedStep(removed: map<string, nat>, words: seq<string>, entries: map<string, nat>, counts: seq<nat>, top: Entry)
    requires Counted(removed, words, entries, counts) && |words| < |counts|
    requires top.word in entries && top.word in removed && top.count == entries[top.word] == removed[top.word]
    requires forall v :: v in entries ==> !CompareSecond(top, Entry(v, entries[v]))
    ensures Counted(removed, words + [top.word], entries - {top.word}, counts[|words| := top.count])
  {
    var n := |words|;
    var counts' := counts[n := top.count];
    assert counts'[..n + 1] == counts[..n] + [top.count];
  }

  /**
   * The classes of the first `n` words: with classes, the class state and
   * the stored class ids follow `ClassState` and `Classes`; the rest of
   * `m_class`, and all of it without classes, is still zero.
   */
  ghost predicate Classed(mass: nat -> real, nbrCls: int, n: nat, counts: seq<nat>, classes: seq<int>,
                          df: real, classId: nat)
  {
    && n <= |counts| == |classes|
    && (nbrCls > 0 ==> (df, classId) == ClassState(counts[..n], mass, nbrCls))
    && (nbrCls > 0 ==> classes[..n] == Classes(counts[..n], mass, nbrCls))
    && (forall i :: n <= i < |classes| ==> classes[i] == 0)
    && (nbrCls <= 0 ==> forall i :: 0 <= i < |classes| ==> classes[i] == 0)
  }

  /** Storing the next class id keeps the classes. */
  lemma ClassedStep(mass: nat -> real, nbrCls: int, n: nat, counts: seq<nat>, classes: seq<int>,
                    df: real, classId: nat, c: nat, newDf: real, newClassId: nat)
    requires Classed(mass, nbrCls, n, counts, classes, df, classId) && n < |counts|
    requires nbrCls > 0 ==> (newDf, newClassId) == Advance(df, classId, mass(c), nbrCls)
    requires nbrCls <= 0 ==> newDf == df && newClassId == classId
    ensures Classed(mass, nbrCls, n + 1, counts[n := c], if nbrCls > 0 then classes[n := newClassId] else classes,
                    newDf, newClassId)
  {
    if nbrCls > 0 {
      assert counts[n := c][..n + 1] == counts[..n] + [c];
      ClassesAppend(counts[..n], c, mass, nbrCls);
      assert classes[n := newClassId][..n + 1] == classes[..n] + [newClassId];
    }
  }

  /**
   * The numbering of the second loop: `words` lists the words popped so far,
   * each once, `index` maps each to its position, and together with the
   * queue they cover the kept table.
   */
  ghost predicate Numbered(removed: map<string, nat>, words: seq<string>, index: map<string, nat>,
                           entries: map<string, nat>)
  {
    && |words| + |entries| == |removed|
    && (forall w :: w in entries ==> w in removed && entries[w] == removed[w])
    && (forall i :: 0 <= i < |words| ==> words[i] in removed && words[i] !in entries)
    && (forall w :: w in removed ==> w in entries || w in words)
    && (forall w :: w in index <==> w in words)
    && (forall i :: 0 <= i < |words| ==> words[i] in index && index[words[i]] == i)
  }

  /** Numbering the popped word keeps the numbering. */
  lemma NumberedStep(removed: map<string, nat>, words: seq<string>, index: map<string, nat>,
                     entries: map<string, nat>, top: Entry)
    requires Numbered(removed, words, index, entries)
    requires top.word in entries && top.count == entries[top.word]
    ensures top.word !in index && |words| < |removed|
    ensures Numbered(removed, words + [top.word], index[top.word := |words|], entries - {top.word})
  {
    var w2 := words + [top.word];
    forall w | w in removed ensures w in entries - {top.word} || w in w2 {
      if w !in entries - {top.word} && w != top.word {
        assert w in words;
        var i :| 0 <= i < |words| && words[i] == w;
        assert w2[i] == w;
      }
      if w == top.word {
        assert w2[|words|] == w;
      }
    }
  }
}
