/**
 * The vocabulary file and the two class tables (DoWriteWordAndClassInfo,
 * lines 432-448): one line per numbered word, `wrd2cls` maps a word to its
 * class and `cls2idx` a class to the index where its words start.
 */
module VocabularyFile {

  /**
   * One line of the vocabulary file: the word's index, its count, the word
   * and its class (0 without classes). The text layout of the line is not
   * modelled.
   */
  datatype VocabLine = VocabLine(index: nat, count: nat, word: string, classIdx: int)

  /** The words of the lines, in index order. */
  function LineWords(lines: seq<VocabLine>): seq<string>
  {
    seq(|lines|, i requires 0 <= i < |lines| => lines[i].word)
  }

  /** The counts of the lines, in index order. */
  function LineCounts(lines: seq<VocabLine>): seq<nat>
  {
    seq(|lines|, i requires 0 <= i < |lines| => lines[i].count)
  }

  /** The classes of the lines, in index order. */
  function LineClasses(lines: seq<VocabLine>): seq<int>
  {
    seq(|lines|, i requires 0 <= i < |lines| => lines[i].classIdx)
  }

  /** The table the lines list: each word with its count (a later line for a word wins). */
  function Table(lines: seq<VocabLine>): map<string, nat>
  {
    if lines == [] then map[]
    else Table(lines[..|lines| - 1])[lines[|lines| - 1].word := lines[|lines| - 1].count]
  }

  /**
   * Lines that list distinct words, each with its count in `table`, and
   * every word of `table`, list exactly `table`.
   */
  lemma {:induction false} TableOfDistinct(lines: seq<VocabLine>, table: map<string, nat>)
    requires forall i, j :: 0 <= i < j < |lines| ==> lines[i].word != lines[j].word
    requires forall i :: 0 <= i < |lines| ==> lines[i].word in table && lines[i].count == table[lines[i].word]
    requires forall w :: w in table ==> exists i :: 0 <= i < |lines| && lines[i].word == w
    ensures Table(lines) == table
    decreases |lines|
  {
    if lines == [] {
      assert table == map[];
    } else {
      var n := |lines| - 1;
      var init := lines[..n];
      var rest := table - {lines[n].word};
      forall w | w in rest ensures exists i :: 0 <= i < |init| && init[i].word == w {
        var i :| 0 <= i < |lines| && lines[i].word == w;
        assert init[i].word == w;
      }
      TableOfDistinct(init, rest);
      assert rest[lines[n].word := lines[n].count] == table;
    }
  }

  /** Class ids never go down along the words: A1 of lines 239-240. */
  predicate NonDecreasing(classes: seq<int>)
  {
    forall i, j :: 0 <= i <= j < |classes| ==> classes[i] <= classes[j]
  }

  /**
   * Word `i` starts a run of its class: it is the first word, or its class
   * differs from the previous word's (`clsIdx != prevClsIdx` with
   * `prevClsIdx` starting at -1, below every class).
   */
  predicate RunStart(classes: seq<int>, i: int)
    requires 0 <= i < |classes|
  {
    i == 0 || classes[i] != classes[i - 1]
  }

  /** Class `c` occurs among the first `n` words. */
  predicate Occurs(classes: seq<int>, n: nat, c: int)
    requires n <= |classes|
  {
    exists k :: 0 <= k < n && classes[k] == c
  }

  /** `k` is where the last run of class `c` among the first `n` words starts. */
  predicate LastRunStart(classes: seq<int>, n: nat, c: int, k: int)
    requires n <= |classes|
  {
    && 0 <= k < n
    && classes[k] == c
    && RunStart(classes, k)
    && (forall j :: k < j < n && classes[j] == c ==> !RunStart(classes, j))
  }

  /**
   * The rows of `cls2idx` after the first `n` words: the row of every class
   * that occurs holds the start of its last run, and every other row still
   * holds what it held before the loop.
   */
  predicate ClassStarts(classes: seq<int>, n: nat, before: seq<int>, after: seq<int>)
    requires n <= |classes|
  {
    && |after| == |before|
    && (forall c :: 0 <= c < |after| && Occurs(classes, n, c) ==> LastRunStart(classes, n, c, after[c]))
    && (forall c :: 0 <= c < |after| && !Occurs(classes, n, c) ==> after[c] == before[c])
  }

  /**
   * Lines 432-448. For every numbered word, in index order: with classes,
   * its class goes to its row of `wrd2cls`, and when its class differs from
   * the previous word's its index goes to its class's row of `cls2idx`;
   * then its vocabulary line is written. `wrd2clsRows` and `cls2idxRows` are
   * the two tables as resized at lines 364 and 297; rows the loop does not
   * write keep those contents.
   */
  method WriteVocabulary(words: seq<string>, counts: seq<nat>, classes: seq<int>, nbrCls: int,
                         wrd2clsRows: seq<int>, cls2idxRows: seq<int>)
    returns (lines: seq<VocabLine>, wrd2cls: seq<int>, cls2idx: seq<int>)
    requires |words| == |counts| == |classes|
    requires nbrCls > 0 ==> |words| <= |wrd2clsRows|
    requires nbrCls > 0 ==> forall i :: 0 <= i < |classes| ==> 0 <= classes[i] < |cls2idxRows|
    ensures |lines| == |words|
    ensures forall i :: 0 <= i < |lines| ==>
              lines[i] == VocabLine(i, counts[i], words[i], if nbrCls > 0 then classes[i] else 0)
    ensures |wrd2cls| == |wrd2clsRows|
    ensures nbrCls > 0 ==> forall i :: 0 <= i < |words| ==> wrd2cls[i] == classes[i]
    ensures forall i :: 0 <= i < |wrd2cls| && (nbrCls <= 0 || |words| <= i) ==> wrd2cls[i] == wrd2clsRows[i]
    ensures nbrCls > 0 ==> ClassStarts(classes, |classes|, cls2idxRows, cls2idx)
    ensures nbrCls <= 0 ==> cls2idx == cls2idxRows
  {
    lines := [];
    wrd2cls := wrd2clsRows;
    cls2idx := cls2idxRows;
    var prevClsIdx: int := -1;
    var i := 0;
    while i < |words|
      invariant 0 <= i <= |words|
      invariant |lines| == i
      invariant forall k :: 0 <= k < i ==>
                  lines[k] == VocabLine(k, counts[k], words[k], if nbrCls > 0 then classes[k] else 0)
      invariant |wrd2cls| == |wrd2clsRows|
      invariant nbrCls > 0 ==> forall k :: 0 <= k < i ==> wrd2cls[k] == classes[k]
      invariant forall k :: 0 <= k < |wrd2cls| && (nbrCls <= 0 || i <= k) ==> wrd2cls[k] == wrd2clsRows[k]
      invariant prevClsIdx == if nbrCls > 0 && i > 0 then classes[i - 1] else -1
      invariant nbrCls > 0 ==> ClassStarts(classes, i, cls2idxRows, cls2idx)
      invariant nbrCls <= 0 ==> cls2idx == cls2idxRows
    {
      if nbrCls > 0 {
        wrd2cls := wrd2cls[i := classes[i]];
      }
      var clsIdx: int := if nbrCls > 0 then classes[i] else 0;
      if nbrCls > 0 {
        ghost var rows := cls2idx;
        if clsIdx != prevClsIdx {
          cls2idx := cls2idx[clsIdx := i];
          prevClsIdx := classes[i];
        }
        ClassStartsStep(classes, i, cls2idxRows, rows, cls2idx);
      }
      lines := lines + [VocabLine(i, counts[i], words[i], clsIdx)];
      i := i + 1;
    }
  }

  /** One word of the loop of lines 432-448 keeps the rows of `cls2idx` right. */
  lemma ClassStartsStep(classes: seq<int>, i: nat, before: seq<int>, rows: seq<int>, next: seq<int>)
    requires i < |classes| && 0 <= classes[i] < |rows|
    requires ClassStarts(classes, i, before, rows)
    requires next == if RunStart(classes, i) then rows[classes[i] := i] else rows
    ensures ClassStarts(classes, i + 1, before, next)
  {
    var c := classes[i];
    assert Occurs(classes, i + 1, c);
    forall d | 0 <= d < |next| && Occurs(classes, i + 1, d)
      ensures LastRunStart(classes, i + 1, d, next[d])
    {
      if d != c {
        var k :| 0 <= k < i + 1 && classes[k] == d;
        assert Occurs(classes, i, d);
      } else if !RunStart(classes, i) {
        assert Occurs(classes, i, d) by {
          assert classes[i - 1] == d;
        }
      }
    }
  }

  /**
   * With sorted classes (A1), the row of an occurring class holds the FIRST
   * index of that class, as the comment at line 237 describes `cls2idx`.
   */
  lemma ClassStartIsFirst(classes: seq<int>, c: int, k: int)
    requires NonDecreasing(classes)
    requires LastRunStart(classes, |classes|, c, k)
    ensures forall j :: 0 <= j < k ==> classes[j] < c
  {
    forall j | 0 <= j < k ensures classes[j] < c {
      assert classes[j] <= classes[k - 1] <= c;
    }
  }

  /**
   * A2 of lines 241-242: with sorted classes, the recorded starts of the
   * occurring classes increase strictly with the class id.
   */
  lemma ClassStartsIncrease(classes: seq<int>, c1: int, k1: int, c2: int, k2: int)
    requires NonDecreasing(classes)
    requires LastRunStart(classes, |classes|, c1, k1) && LastRunStart(classes, |classes|, c2, k2)
    requires c1 < c2
    ensures k1 < k2
  {
    ClassStartIsFirst(classes, c2, k2);
  }

  /** The first index whose class is at least `c`, or the number of words when there is none. */
  function FirstAtLeast(classes: seq<int>, c: int): (k: nat)
    ensures k <= |classes|
    ensures forall j :: 0 <= j < k ==> classes[j] < c
    ensures k < |classes| ==> classes[k] >= c
  {
    if classes == [] || classes[0] >= c then 0 else 1 + FirstAtLeast(classes[1..], c)
  }

  /**
   * `cls2idx` as the class-based output layer reads it, with EVERY row set:
   * the words of class `c` are those from row `c` up to row `c + 1` (up to
   * the vocabulary size for the last class). A class without words gets
   * the start of the next class, so its range is empty.
   */
  function FilledClassStarts(classes: seq<int>, nbrCls: nat): (r: seq<nat>)
    ensures |r| == nbrCls
  {
    seq(nbrCls, c requires 0 <= c < nbrCls => FirstAtLeast(classes, c))
  }

  /** Where the words of class `c` end under `FilledClassStarts`. */
  function ClassEnd(classes: seq<int>, nbrCls: nat, c: nat): nat
    requires c < nbrCls
  {
    if c + 1 < nbrCls then FirstAtLeast(classes, c + 1) else |classes|
  }

  /**
   * The filled table delimits the classes: with sorted classes in
   * `[0, nbrCls)`, its rows never go down, the words of every class are
   * exactly those between its row and the next, and when every class has a
   * word the rows increase strictly, as A2 of lines 241-242 asks.
   */
  lemma FilledClassStartsDelimit(classes: seq<int>, nbrCls: nat)
    requires NonDecreasing(classes)
    requires forall i :: 0 <= i < |classes| ==> 0 <= classes[i] < nbrCls
    ensures forall c1, c2 :: 0 <= c1 <= c2 < nbrCls ==> FilledClassStarts(classes, nbrCls)[c1] <= FilledClassStarts(classes, nbrCls)[c2]
    ensures forall c: nat, i :: c < nbrCls && 0 <= i < |classes| ==>
              (FilledClassStarts(classes, nbrCls)[c] <= i < ClassEnd(classes, nbrCls, c) <==> classes[i] == c)
    ensures (forall c :: 0 <= c < nbrCls ==> Occurs(classes, |classes|, c)) ==>
              forall c1, c2 :: 0 <= c1 < c2 < nbrCls ==> FilledClassStarts(classes, nbrCls)[c1] < FilledClassStarts(classes, nbrCls)[c2]
  {
    var r := FilledClassStarts(classes, nbrCls);
    forall c1, c2 | 0 <= c1 <= c2 < nbrCls ensures r[c1] <= r[c2] {
      FirstAtLeastMonotone(classes, c1, c2);
    }
    forall c: nat, i | c < nbrCls && 0 <= i < |classes|
      ensures r[c] <= i < ClassEnd(classes, nbrCls, c) <==> classes[i] == c
    {
      FirstAtLeastSplits(classes, c, i);
      FirstAtLeastSplits(classes, c + 1, i);
    }
    if forall c :: 0 <= c < nbrCls ==> Occurs(classes, |classes|, c) {
      forall c1, c2 | 0 <= c1 < c2 < nbrCls ensures r[c1] < r[c2] {
        assert Occurs(classes, |classes|, c1);
        var i :| 0 <= i < |classes| && classes[i] == c1;
        FirstAtLeastSplits(classes, c1, i);
        FirstAtLeastSplits(classes, c2, i);
      }
    }
  }

  /** With sorted classes, an index is at or past `FirstAtLeast(classes, c)` exactly when its class is at least `c`. */
  lemma FirstAtLeastSplits(classes: seq<int>, c: int, i: int)
    requires NonDecreasing(classes)
    requires 0 <= i < |classes|
    ensures FirstAtLeast(classes, c) <= i <==> classes[i] >= c
  {
    var k := FirstAtLeast(classes, c);
    if k <= i {
      assert classes[k] <= classes[i];
    }
  }

  lemma FirstAtLeastMonotone(classes: seq<int>, c1: int, c2: int)
    requires c1 <= c2
    ensures FirstAtLeast(classes, c1) <= FirstAtLeast(classes, c2)
  {
  }

  /**
   * For a class that has words, the row the output loop writes is the row
   * of the filled table: the two agree wherever the loop writes.
   */
  lemma ClassStartIsFilled(classes: seq<int>, c: int, k: int)
    requires NonDecreasing(classes)
    requires LastRunStart(classes, |classes|, c, k)
    ensures k == FirstAtLeast(classes, c)
  {
    ClassStartIsFirst(classes, c, k);
    FirstAtLeastSplits(classes, c, k);
    if k > 0 {
      FirstAtLeastSplits(classes, c, k - 1);
    }
  }
}
