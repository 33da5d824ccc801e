/**
 * The `writeWordAndClass` action (DoWriteWordAndClassInfo, lines 243-472):
 * checks its parameters, stops early when its outputs are up to date, counts
 * the words of the training text, chooses the vocabulary, assigns classes
 * and produces the vocabulary lines and the two class tables.
 */
module WordClassInfo {
  import opened Sums
  import opened Ingest
  import opened Vocabulary
  import opened WordClasses
  import opened VocabularyFile

  datatype Option<T> = None | Some(value: T)

  /**
   * The action's parameters (lines 245-256, 272). When absent from the
   * configuration, `nbrClass` is 0, `cutoff` 1, `unk` "<unk>",
   * `beginSequence` and `endSequence` empty, and `makeMode` true.
   */
  datatype Options = Options(vocabSize: nat, nbrClass: int, cutoff: int, unk: string,
                             beginSequence: string, endSequence: string, makeMode: bool)

  /** Whether each output file is at least as new as the input file (`fuptodate`). */
  datatype Freshness = Freshness(vocabulary: bool, word2Cls: bool, cls2Index: bool)

  /** The two `RuntimeError`s of the part modelled (lines 293, 353). */
  datatype Failure = CannotOpenInput | NoWordAboveCutoff

  /**
   * How the action ends: rejected parameters, nothing to do, a runtime
   * error, or the vocabulary lines with the two class tables (empty when no
   * classes are asked for, since the class files are then not written).
   */
  datatype Outcome =
    | InvalidArgument
    | UpToDate
    | RuntimeError(failure: Failure)
    | Written(lines: seq<VocabLine>, wrd2cls: seq<int>, cls2idx: seq<int>)

  /** Lines 273-286: in make mode, stop when every output that would be written is up to date. */
  predicate AllUpToDate(opts: Options, freshness: Freshness)
  {
    opts.makeMode && freshness.vocabulary && (opts.nbrClass > 0 ==> freshness.word2Cls && freshness.cls2Index)
  }

  /** The parameters are accepted and the outputs are not all up to date: the input is read. */
  predicate Proceeds(opts: Options, freshness: Freshness)
  {
    opts.beginSequence != [] && opts.endSequence != [] && !AllUpToDate(opts, freshness)
  }

  /** The word counts of a corpus under the action's parameters. */
  function CorpusCounts(corpus: seq<string>, opts: Options): map<string, nat>
  {
    Tally(CorpusTokens(corpus, opts.beginSequence, opts.endSequence))
  }

  /** The number of words above the cutoff; with a cutoff of zero or below, all words. */
  function WordsAboveCutoff(counts: map<string, nat>, cutoff: int): nat
  {
    if cutoff > 0 then |Survivors(counts, cutoff)| else |counts|
  }

  /** Lines 355-363: a vocabulary size above the number of words left is lowered to it. */
  function ClampVocabSize(vocabSize: nat, wordsLeft: nat): (r: nat)
    ensures r <= vocabSize && r <= wordsLeft
    ensures r == vocabSize || r == wordsLeft
  {
    if vocabSize > wordsLeft then wordsLeft else vocabSize
  }

  /**
   * What the written outputs satisfy: the lines list a selection of the
   * corpus counts for the clamped vocabulary size, exactly that many words
   * when the size is positive, and, for a positive size and cutoff, only
   * words above the cutoff besides the unknown word. With classes, the
   * class tables are as `ClassTables` says; without, every line has class 0
   * and no class table is produced.
   */
  ghost predicate VocabularyWritten(opts: Options, corpus: seq<string>, mass: nat -> real, resized: nat -> int,
                                    lines: seq<VocabLine>, wrd2cls: seq<int>, cls2idx: seq<int>)
  {
    var tokens := CorpusTokens(corpus, opts.beginSequence, opts.endSequence);
    OutputsFor(opts, Tally(tokens), |tokens|, mass, resized, lines, wrd2cls, cls2idx)
  }

  /** `VocabularyWritten` for a table of counts that add up to `total`. */
  ghost predicate OutputsFor(opts: Options, counts: map<string, nat>, total: nat, mass: nat -> real, resized: nat -> int,
                             lines: seq<VocabLine>, wrd2cls: seq<int>, cls2idx: seq<int>)
  {
    && LinesFor(opts, counts, total, lines)
    && ClassesFor(opts.nbrClass, mass, resized, lines, wrd2cls, cls2idx)
  }

  /** The vocabulary lines: a selection for the clamped size, of that size, above the cutoff. */
  ghost predicate LinesFor(opts: Options, counts: map<string, nat>, total: nat, lines: seq<VocabLine>)
  {
    var size := ClampVocabSize(opts.vocabSize, WordsAboveCutoff(counts, opts.cutoff));
    && ListsSelection(counts, size, opts.unk, total, lines)
    && (opts.vocabSize >= 1 ==> |lines| == size)
    && (opts.vocabSize >= 1 && opts.cutoff > 0 ==> AboveCutoff(counts, opts.cutoff, opts.unk, lines))
  }

  /** The class part: the class tables with classes, class 0 everywhere and no table without. */
  ghost predicate ClassesFor(nbrClass: int, mass: nat -> real, resized: nat -> int,
                             lines: seq<VocabLine>, wrd2cls: seq<int>, cls2idx: seq<int>)
  {
    && (nbrClass > 0 ==> ClassTables(nbrClass, mass, resized, lines, wrd2cls, cls2idx))
    && (nbrClass <= 0 ==> (forall i :: 0 <= i < |lines| ==> lines[i].classIdx == 0) && wrd2cls == [] && cls2idx == [])
  }

  /**
   * The lines number distinct words in order and list a selection (see
   * `IsSelection`) of `counts` for `size`; counts never go up along the
   * lines and add up to `total`.
   */
  ghost predicate ListsSelection(counts: map<string, nat>, size: nat, unkWord: string, total: nat, lines: seq<VocabLine>)
  {
    && (forall i :: 0 <= i < |lines| ==> lines[i].index == i)
    && (forall i, j :: 0 <= i < j < |lines| ==> lines[i].word != lines[j].word)
    && IsSelection(counts, size, unkWord, Table(lines))
    && NonIncreasing(LineCounts(lines))
    && Sum(LineCounts(lines)) == total
  }

  /** Every word listed but the unknown word has a count above the cutoff. */
  ghost predicate AboveCutoff(counts: map<string, nat>, cutoff: int, unkWord: string, lines: seq<VocabLine>)
  {
    forall i :: 0 <= i < |lines| && lines[i].word != unkWord ==> lines[i].word in counts && counts[lines[i].word] > cutoff
  }

  /**
   * The class part of the outputs, with `nbrCls` classes: the classes
   * follow `Classes`, `wrd2cls` holds them, and `cls2idx` holds the start of
   * each class that occurs, every other row keeping what the resize left.
   */
  ghost predicate ClassTables(nbrCls: nat, mass: nat -> real, resized: nat -> int,
                              lines: seq<VocabLine>, wrd2cls: seq<int>, cls2idx: seq<int>)
    requires nbrCls > 0
  {
    && LineClasses(lines) == Classes(LineCounts(lines), mass, nbrCls)
    && wrd2cls == LineClasses(lines)
    && ClassStarts(LineClasses(lines), |lines|, Resized(nbrCls, resized), cls2idx)
  }

  /** A table of `n` rows as `Resize` leaves it: row `i` holds `resized(i)`. */
  function Resized(n: nat, resized: nat -> int): (rows: seq<int>)
    ensures |rows| == n && forall i :: 0 <= i < n ==> rows[i] == resized(i)
  {
    seq(n, i requires 0 <= i => resized(i))
  }

  /**
   * The whole action. `freshness` stands for the timestamp checks, `corpus` for
   * the input file's lines (`None` when it cannot be opened), `mass` for a
   * word's share `sqrt(freq / total) / dd` as a function of its count, and
   * `resized` for what the class tables hold after `Resize` where nothing is
   * written. With `vocabSize == 0` and classes the source writes past the
   * end of `wrd2cls`; that input is excluded.
   */
  method WriteWordAndClassInfo(opts: Options, freshness: Freshness, corpus: Option<seq<string>>,
                               mass: nat -> real, resized: nat -> int)
    returns (outcome: Outcome)
    requires opts.vocabSize <= SizeMax
    requires opts.vocabSize >= 1 || opts.nbrClass <= 0
    ensures outcome.InvalidArgument? <==> opts.beginSequence == [] || opts.endSequence == []
    ensures outcome.UpToDate? <==> opts.beginSequence != [] && opts.endSequence != [] && AllUpToDate(opts, freshness)
    ensures outcome == RuntimeError(CannotOpenInput) <==> Proceeds(opts, freshness) && corpus.None?
    ensures outcome == RuntimeError(NoWordAboveCutoff) <==>
              Proceeds(opts, freshness) && corpus.Some? && WordsAboveCutoff(CorpusCounts(corpus.value, opts), opts.cutoff) == 0
    ensures outcome.Written? ==>
              Proceeds(opts, freshness) && corpus.Some?
              && VocabularyWritten(opts, corpus.value, mass, resized, outcome.lines, outcome.wrd2cls, outcome.cls2idx)
  {
    if opts.beginSequence == [] || opts.endSequence == [] {
      return InvalidArgument;
    }
    if opts.makeMode {
      var done := freshness.vocabulary;
      if opts.nbrClass > 0 {
        done := done && freshness.word2Cls;
        done := done && freshness.cls2Index;
      }
      if done {
        return UpToDate;
      }
    }
    if corpus.None? {
      return RuntimeError(CannotOpenInput);
    }
    var counts := CountWords(corpus.value, opts.beginSequence, opts.endSequence);
    var wordCountLessCutoff := CountAboveCutoff(counts, opts.cutoff);
    if wordCountLessCutoff == 0 {
      return RuntimeError(NoWordAboveCutoff);
    }
    var vocabSize := opts.vocabSize;
    if vocabSize > wordCountLessCutoff {
      vocabSize := wordCountLessCutoff;
    }
    var lines, wrd2cls, cls2idx := BuildVocabulary(opts, counts, vocabSize, mass, resized);
    outcome := Written(lines, wrd2cls, cls2idx);
    CorpusOutputs(opts, corpus.value, mass, resized, lines, wrd2cls, cls2idx);
  }

  /** Outputs built from the corpus counts, whose total is the number of tokens counted, are the corpus's outputs. */
  lemma CorpusOutputs(opts: Options, corpus: seq<string>, mass: nat -> real, resized: nat -> int,
                      lines: seq<VocabLine>, wrd2cls: seq<int>, cls2idx: seq<int>)
    requires var counts := CorpusCounts(corpus, opts);
             OutputsFor(opts, counts, MapSum(counts), mass, resized, lines, wrd2cls, cls2idx)
    ensures VocabularyWritten(opts, corpus, mass, resized, lines, wrd2cls, cls2idx)
  {
    TallyTotal(CorpusTokens(corpus, opts.beginSequence, opts.endSequence));
  }

  /**
   * Lines 364-448, once the vocabulary size is clamped: the selection, the
   * class assignment and the outputs. `wrd2cls` is resized to the
   * vocabulary size and `cls2idx`, with classes, to the number of classes.
   */
  method BuildVocabulary(opts: Options, counts: map<string, nat>, vocabSize: nat, mass: nat -> real, resized: nat -> int)
    returns (lines: seq<VocabLine>, wrd2cls: seq<int>, cls2idx: seq<int>)
    requires opts.vocabSize >= 1 || opts.nbrClass <= 0
    requires 1 <= WordsAboveCutoff(counts, opts.cutoff)
    requires vocabSize == ClampVocabSize(opts.vocabSize, WordsAboveCutoff(counts, opts.cutoff)) <= SizeMax
    ensures OutputsFor(opts, counts, MapSum(counts), mass, resized, lines, wrd2cls, cls2idx)
  {
    var removed := SelectVocabulary(counts, vocabSize, opts.unk);
    var words, wordCounts, classes := AssignClasses(removed, opts.nbrClass, mass);
    if opts.nbrClass > 0 {
      WordsAboveCutoffBound(counts, opts.cutoff);
      SelectionFillsBudget(counts, vocabSize, opts.unk, removed);
      ClassesInRange(wordCounts, mass, opts.nbrClass);
    }
    lines, wrd2cls, cls2idx := WriteOutputs(words, wordCounts, classes, opts.nbrClass, vocabSize, resized);
    ListedProjections(lines, words, wordCounts, classes, opts.nbrClass);
    LinesWritten(opts, counts, vocabSize, removed, words, wordCounts, lines);
    ClassesWritten(opts.nbrClass, mass, resized, wordCounts, classes, lines, wrd2cls, cls2idx);
  }

  /**
   * The outputs of lines 432-448: `wrd2cls` resized to the vocabulary size
   * (line 364) and `cls2idx`, with classes, to the number of classes (line
   * 297), then filled by `WriteVocabulary`. Without classes no class table
   * is produced.
   */
  method WriteOutputs(words: seq<string>, wordCounts: seq<nat>, classes: seq<int>, nbrCls: int, vocabSize: nat,
                      resized: nat -> int)
    returns (lines: seq<VocabLine>, wrd2cls: seq<int>, cls2idx: seq<int>)
    requires |words| == |wordCounts| == |classes|
    requires nbrCls > 0 ==> |words| == vocabSize && forall i :: 0 <= i < |classes| ==> 0 <= classes[i] < nbrCls
    ensures Listed(lines, words, wordCounts, classes, nbrCls)
    ensures nbrCls > 0 ==> wrd2cls == classes && ClassStarts(classes, |classes|, Resized(nbrCls, resized), cls2idx)
    ensures nbrCls <= 0 ==> wrd2cls == [] && cls2idx == []
  {
    var cls2idxRows: seq<int> := if nbrCls > 0 then Resized(nbrCls, resized) else [];
    var wrd2clsRows: seq<int> := Resized(vocabSize, resized);
    var table, starts;
    lines, table, starts := WriteVocabulary(words, wordCounts, classes, nbrCls, wrd2clsRows, cls2idxRows);
    if nbrCls > 0 {
      assert table == classes;
      wrd2cls, cls2idx := table, starts;
    } else {
      wrd2cls, cls2idx := [], [];
    }
  }

  /** No more words are above the cutoff than there are words. */
  lemma WordsAboveCutoffBound(counts: map<string, nat>, cutoff: int)
    ensures WordsAboveCutoff(counts, cutoff) <= |counts|
  {
    SubsetCardinality(Survivors(counts, cutoff), counts.Keys);
  }

  /** The selection, numbered and listed, gives the vocabulary lines their guarantees. */
  lemma LinesWritten(opts: Options, counts: map<string, nat>, vocabSize: nat, removed: map<string, nat>,
                     words: seq<string>, wordCounts: seq<nat>, lines: seq<VocabLine>)
    requires 1 <= WordsAboveCutoff(counts, opts.cutoff)
    requires vocabSize == ClampVocabSize(opts.vocabSize, WordsAboveCutoff(counts, opts.cutoff))
    requires IsSelection(counts, vocabSize, opts.unk, removed)
    requires Numbering(removed, words, wordCounts)
    requires NonIncreasing(wordCounts)
    requires |lines| == |words|
    requires forall i :: 0 <= i < |lines| ==> lines[i].index == i && lines[i].word == words[i] && lines[i].count == wordCounts[i]
    requires LineCounts(lines) == wordCounts
    ensures LinesFor(opts, counts, MapSum(counts), lines)
  {
    SelectionListed(counts, vocabSize, opts.unk, removed, words, wordCounts, lines);
    WordsAboveCutoffBound(counts, opts.cutoff);
    if opts.vocabSize >= 1 {
      SelectionFillsBudget(counts, vocabSize, opts.unk, removed);
    }
    if opts.vocabSize >= 1 && opts.cutoff > 0 {
      SelectionRespectsCutoff(counts, opts.cutoff, vocabSize, opts.unk, removed);
    }
  }

  /** The classes, listed, give the class tables their guarantees. */
  lemma ClassesWritten(nbrCls: int, mass: nat -> real, resized: nat -> int, wordCounts: seq<nat>, classes: seq<int>,
                       lines: seq<VocabLine>, wrd2cls: seq<int>, cls2idx: seq<int>)
    requires LineCounts(lines) == wordCounts && |classes| == |lines|
    requires nbrCls > 0 ==> classes == Classes(wordCounts, mass, nbrCls) && LineClasses(lines) == classes
    requires nbrCls > 0 ==> wrd2cls == classes && ClassStarts(classes, |classes|, Resized(nbrCls, resized), cls2idx)
    requires nbrCls <= 0 ==> (forall i :: 0 <= i < |lines| ==> lines[i].classIdx == 0) && wrd2cls == [] && cls2idx == []
    ensures ClassesFor(nbrCls, mass, resized, lines, wrd2cls, cls2idx)
  {
  }

  /** The lines `WriteVocabulary` writes for the numbered words. */
  ghost predicate Listed(lines: seq<VocabLine>, words: seq<string>, wordCounts: seq<nat>, classes: seq<int>, nbrCls: int)
  {
    && |lines| == |words| == |wordCounts| == |classes|
    && (forall i :: 0 <= i < |lines| ==>
          lines[i] == VocabLine(i, wordCounts[i], words[i], if nbrCls > 0 then classes[i] else 0))
  }

  lemma ListedProjections(lines: seq<VocabLine>, words: seq<string>, wordCounts: seq<nat>, classes: seq<int>, nbrCls: int)
    requires Listed(lines, words, wordCounts, classes, nbrCls)
    ensures LineWords(lines) == words && LineCounts(lines) == wordCounts
    ensures nbrCls > 0 ==> LineClasses(lines) == classes
    ensures nbrCls <= 0 ==> forall i :: 0 <= i < |lines| ==> lines[i].classIdx == 0
  {
  }

  /** The numbered words, listed, are a selection when the kept table is. */
  lemma SelectionListed(counts: map<string, nat>, size: nat, unkWord: string, removed: map<string, nat>,
                        words: seq<string>, wordCounts: seq<nat>, lines: seq<VocabLine>)
    requires IsSelection(counts, size, unkWord, removed)
    requires Numbering(removed, words, wordCounts)
    requires NonIncreasing(wordCounts)
    requires |lines| == |words|
    requires forall i :: 0 <= i < |lines| ==> lines[i].index == i && lines[i].word == words[i] && lines[i].count == wordCounts[i]
    requires LineCounts(lines) == wordCounts
    ensures ListsSelection(counts, size, unkWord, MapSum(counts), lines)
  {
    LinesListTable(removed, words, wordCounts, lines);
    NumberingSum(removed, words, wordCounts);
  }

  /** Numbered words, listed one per line, list the kept table and no word twice. */
  lemma LinesListTable(removed: map<string, nat>, words: seq<string>, wordCounts: seq<nat>, lines: seq<VocabLine>)
    requires Numbering(removed, words, wordCounts)
    requires |lines| == |words|
    requires forall i :: 0 <= i < |lines| ==> lines[i].word == words[i] && lines[i].count == wordCounts[i]
    ensures forall i, j :: 0 <= i < j < |lines| ==> lines[i].word != lines[j].word
    ensures Table(lines) == removed
  {
    forall w | w in removed ensures exists i :: 0 <= i < |lines| && lines[i].word == w {
      var i :| 0 <= i < |words| && words[i] == w;
      assert lines[i].word == w;
    }
    TableOfDistinct(lines, removed);
  }

  /**
   * A1 (lines 239-240) on the written `wrd2cls`: class ids are sorted,
   * each lies in `[0, nbrCls)`, the first is 0 or 1, and from one word to
   * the next the class goes up by at most one.
   */
  lemma WrittenClassesSorted(nbrCls: nat, mass: nat -> real, resized: nat -> int,
                             lines: seq<VocabLine>, wrd2cls: seq<int>, cls2idx: seq<int>)
    requires nbrCls > 0 && ClassTables(nbrCls, mass, resized, lines, wrd2cls, cls2idx)
    ensures NonDecreasing(wrd2cls)
    ensures forall i :: 0 <= i < |wrd2cls| ==> 0 <= wrd2cls[i] < nbrCls
    ensures |wrd2cls| > 0 ==> wrd2cls[0] <= 1
    ensures forall i :: 0 < i < |wrd2cls| ==> wrd2cls[i] <= wrd2cls[i - 1] + 1
  {
    ClassesSorted(LineCounts(lines), mass, nbrCls);
    ClassesInRange(LineCounts(lines), mass, nbrCls);
    ClassesAreSteps(LineCounts(lines), mass, nbrCls);
  }

  /**
   * What the written `cls2idx` delivers of lines 237-242: the row of every
   * class that has words holds the first index of that class, which is
   * that class's row of the filled table `FilledClassStarts`, and those rows
   * increase strictly with the class id. This is A2 for the classes that
   * have words only; the rows of the other classes keep what the resize
   * left (see `ClassZeroRowUnwritten`).
   */
  lemma WrittenClassStarts(nbrCls: nat, mass: nat -> real, resized: nat -> int,
                           lines: seq<VocabLine>, wrd2cls: seq<int>, cls2idx: seq<int>)
    requires nbrCls > 0 && ClassTables(nbrCls, mass, resized, lines, wrd2cls, cls2idx)
    ensures forall c :: 0 <= c < nbrCls && Occurs(wrd2cls, |wrd2cls|, c) ==>
              && 0 <= cls2idx[c] < |wrd2cls|
              && wrd2cls[cls2idx[c]] == c
              && (forall j :: 0 <= j < cls2idx[c] ==> wrd2cls[j] < c)
    ensures forall c1, c2 :: 0 <= c1 < c2 < nbrCls && Occurs(wrd2cls, |wrd2cls|, c1) && Occurs(wrd2cls, |wrd2cls|, c2) ==>
              cls2idx[c1] < cls2idx[c2]
    ensures forall c :: 0 <= c < nbrCls && Occurs(wrd2cls, |wrd2cls|, c) ==> cls2idx[c] == FilledClassStarts(wrd2cls, nbrCls)[c]
  {
    WrittenClassesSorted(nbrCls, mass, resized, lines, wrd2cls, cls2idx);
    forall c | 0 <= c < nbrCls && Occurs(wrd2cls, |wrd2cls|, c)
      ensures cls2idx[c] == FilledClassStarts(wrd2cls, nbrCls)[c]
    {
      ClassStartIsFilled(wrd2cls, c, cls2idx[c]);
    }
    forall c | 0 <= c < nbrCls && Occurs(wrd2cls, |wrd2cls|, c)
      ensures forall j :: 0 <= j < cls2idx[c] ==> wrd2cls[j] < c
    {
      ClassStartIsFirst(wrd2cls, c, cls2idx[c]);
    }
    forall c1, c2 | 0 <= c1 < c2 < nbrCls && Occurs(wrd2cls, |wrd2cls|, c1) && Occurs(wrd2cls, |wrd2cls|, c2)
      ensures cls2idx[c1] < cls2idx[c2]
    {
      ClassStartsIncrease(wrd2cls, c1, cls2idx[c1], c2, cls2idx[c2]);
    }
  }

  /**
   * A2 of line 242 fails as written. A corpus of one empty line with
   * markers `<s>` and `</s>`, cutoff 0, vocabulary size 1 and two classes
   * leaves the single word `<unk>` (count 1, mass 1), which goes to class 1
   * because the class id is raised before it is stored (lines 417-428).
   * The loop then writes only row 1 of `cls2idx`, with index 0, and row 0
   * keeps what `Resize` left, so `cls2idx[0] < cls2idx[1]` would need a
   * negative index.
   */
  lemma ClassZeroRowUnwritten(resized: nat -> int, lines: seq<VocabLine>, wrd2cls: seq<int>, cls2idx: seq<int>)
    requires |lines| == 1 && lines[0].count == 1
    requires ClassTables(2, c => 1.0, resized, lines, wrd2cls, cls2idx)
    ensures wrd2cls == [1]
    ensures cls2idx == [resized(0), 0]
    ensures cls2idx[0] < cls2idx[1] <==> resized(0) < 0
  {
    var mass: nat -> real := c => 1.0;
    assert LineCounts(lines) == [1];
    assert [1][..0] == [];
    assert ClassState([1], mass, 2) == (1.0, 1);
    assert LineClasses(lines) == [1];
    assert Occurs(wrd2cls, 1, 1);
    assert !Occurs(wrd2cls, 1, 0);
    assert cls2idx[0] == resized(0) && cls2idx[1] == 0;
  }
}
