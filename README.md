# Word and class information, and SVD parameters, of CNTK's other actions

This project models two CNTK actions from `Source/ActionsLib/OtherActions.cpp`.

**`writeWordAndClass` (`DoWriteWordAndClassInfo`).** The action works in these steps:
- It checks its parameters.
- In make mode it stops when every output is up to date.
- It reads a training text line by line. Each line is trimmed of spaces and given the begin and end sentence markers it lacks. The line is split at tabs and spaces, and every token but the first is counted.
- It counts the words above a cutoff and lowers the vocabulary size to that number.
- It keeps the most frequent words and folds the counts of all other words into the unknown-word token.
- It numbers the kept words, most frequent first.
- It puts the words into frequency-balanced classes by a running share of probability mass.
- It produces the vocabulary lines, the word-to-class table `wrd2cls` and the class-to-first-index table `cls2idx`.

**The `SVD` action's parameter handling (`DoParameterSVD`, `ParseSVDConfigFile`).** A node-name pattern with a keep ratio is given directly, or the patterns are read from a rule file with one "pattern ratio" pair per line. The action then stops with the usage text, stops for a missing model path, or decomposes the network and saves it.

## Modules

- `Strings` (strings.dfy): trimming spaces, `find` as a containment test, and the `split` tokenizer with its round trip against joining with spaces.
- `Sequences` and `Sums` (sequences.dfy, sums.dfy): generic facts about slices, and the sums of count tables and count sequences.
- `PriorityQueues` (priority_queue.dfy): `compare_second` and `std::priority_queue` over a word-count table, as a class whose contents the methods update.
- `Ingest` (ingest.dfy): the counting loop, proved against the token sequence `CorpusTokens` and the table `Tally`.
- `Vocabulary` (vocabulary.dfy): the cutoff count and the selection of the kept words, proved against the predicate `IsSelection`.
- `WordClasses` (classes.dfy): the numbering and class assignment, proved against the recursive definition `Classes`.
- `VocabularyFile` (assembly.dfy): the output loop that fills the vocabulary lines, `wrd2cls` and `cls2idx`. It also holds the corrected class-start table of the finding below.
- `WordClassInfo` (word_class_info.dfy): the whole action and its outcomes.
- `SvdConfig` (svd_config.dfy): the rule file parser and the control flow of the SVD action.

Three details of the code shape the model:
- The counting loop starts at the second token of each line, so a begin marker at the head of a line is never counted. The end marker is counted.
- The selection queue yields the largest count first.
- When the corpus holds the unknown-word token, its count is added to the unknown bucket and it does not use up a place in the budget.

## Model

| member | source | states |
|---|---|---|
| Strings.TrimLeft | Source/ActionsLib/OtherActions.cpp:317 | the result is a suffix of the line, only ' ' characters are dropped, and it does not start with ' ' |
| Strings.TrimRight | Source/ActionsLib/OtherActions.cpp:318 | the result is a prefix of the line, only ' ' characters are dropped, and it does not end with ' ' |
| Strings.Trim | Source/ActionsLib/OtherActions.cpp:317-318 | the trimmed line has no ' ' at either end |
| Strings.TrimUnchanged | Source/ActionsLib/OtherActions.cpp:317-318 | a line without outer spaces is left as it is |
| Strings.ContainsTrimmed | Source/ActionsLib/OtherActions.cpp:317-323 | a pattern found in the trimmed line occurs in the original line |
| Strings.Split | Source/ActionsLib/OtherActions.cpp:326 | every token is non-empty and holds no tab or space |
| Strings.SplitAtDelimiter | Source/ActionsLib/OtherActions.cpp:326 | splitting text joined at a delimiter concatenates the two token lists |
| Strings.SplitToken | Source/ActionsLib/OtherActions.cpp:326 | a single token splits into itself |
| Strings.SplitTrim | Source/ActionsLib/OtherActions.cpp:317-326 | trimming the spaces of a line changes none of its tokens |
| Strings.SplitJoin | Source/ActionsLib/OtherActions.cpp:326 | splitting tokens joined with single spaces gives the tokens back |
| PriorityQueues.CompareSecondIsStrictWeakOrder | Source/ActionsLib/OtherActions.cpp:215-222 | `compare_second` is irreflexive and transitive, and its incomparability is transitive, as `std::priority_queue` requires |
| PriorityQueues.GreatestExists | Source/ActionsLib/OtherActions.cpp:215-222 | a non-empty table has an entry that no entry compares greater than |
| PriorityQueues.PriorityQueue.constructor | Source/ActionsLib/OtherActions.cpp:342-343 | the queue holds exactly the entries of the table it is built from |
| PriorityQueues.PriorityQueue.Pop | Source/ActionsLib/OtherActions.cpp:373-381 | the entry returned is in the queue with its count, no entry has a larger count, and only that entry is removed |
| Sums.MapSumIncrement | Source/ActionsLib/OtherActions.cpp:328 | counting one more occurrence raises the table's total by one |
| Ingest.ProcessLine | Source/ActionsLib/OtherActions.cpp:316-324 | the step-by-step line processing yields `Decorate` of the line: trimmed, then with the begin pattern and the end pattern added when absent |
| Ingest.CountLineTokens | Source/ActionsLib/OtherActions.cpp:327-328 | the table afterwards is the tally of the earlier tokens plus every token of the line but the first |
| Ingest.CountWords | Source/ActionsLib/OtherActions.cpp:315-329 | the table is the tally of the counted tokens of all lines in order |
| Ingest.TallyCounts | Source/ActionsLib/OtherActions.cpp:327-328 | a word is in the table if and only if it occurs in the tokens, and its count is its number of occurrences, at least one |
| Ingest.TallyTotal | Source/ActionsLib/OtherActions.cpp:327-328 | the counts add up to the number of tokens counted |
| Ingest.DecorateMarksBoth | Source/ActionsLib/OtherActions.cpp:320-324 | with both markers set, the processed line contains the begin pattern and the end pattern |
| Ingest.DecorateEnds | Source/ActionsLib/OtherActions.cpp:317-324 | with space-free markers, the processed line is non-empty and has no ' ' at either end |
| Ingest.DecorateIdempotent | Source/ActionsLib/OtherActions.cpp:317-324 | processing an already processed line changes nothing |
| Ingest.PlainLineDecorated | Source/ActionsLib/OtherActions.cpp:317-324 | a line without markers becomes the begin marker, a space, the trimmed line, a space and the end marker |
| Ingest.PlainLineTokens | Source/ActionsLib/OtherActions.cpp:313-328 | a line without markers has its own tokens counted, then the end marker, and the begin marker is not counted |
| Ingest.MarkedLineDecorated | Source/ActionsLib/OtherActions.cpp:317-324 | a line already holding both markers is left unchanged |
| Ingest.MarkedLineTokens | Source/ActionsLib/OtherActions.cpp:313-328 | a line already holding both markers has its words and the end marker counted, with no marker added twice |
| Ingest.EndPatternNotInBeginPattern | Source/ActionsLib/OtherActions.cpp:313-314 | the end pattern cannot occur inside the begin pattern |
| Vocabulary.CountAboveCutoff | Source/ActionsLib/OtherActions.cpp:345-351 | with a positive cutoff the result is the number of words whose count is above it; otherwise it is the number of all words |
| WordClassInfo.ClampVocabSize | Source/ActionsLib/OtherActions.cpp:355-363 | the size used is at most both the requested size and the number of words left, and equals one of them |
| Vocabulary.SelectVocabulary | Source/ActionsLib/OtherActions.cpp:366-388 | the result is a selection: it holds the unknown word; other words keep their corpus counts; no word left out is more frequent than a word kept; the total count is unchanged; for a positive size, `min(vocabSize-1, other words)` words besides the unknown word are kept; for size 0 (the `size_t` budget of line 369 wraps to its largest value), every word more frequent than the unknown word is kept, and every word when the unknown word is not in the corpus |
| Vocabulary.SelectionKeepsAbove | Source/ActionsLib/OtherActions.cpp:369-382 | with size 0 the loop ends only when the unknown word is taken or the queue is empty, so every word more frequent than the unknown word is kept |
| Vocabulary.TakeNext | Source/ActionsLib/OtherActions.cpp:370-382 | taking the queue's top keeps the split between kept and queued words, their order by count, and the total |
| Vocabulary.Drain | Source/ActionsLib/OtherActions.cpp:383-387 | every count left in the queue is added to the unknown count, and the queue is emptied |
| Vocabulary.SelectionTotal | Source/ActionsLib/OtherActions.cpp:383-388 | replacing the unknown word's entry with the bucket keeps the total count of the corpus |
| Vocabulary.SelectionFillsBudget | Source/ActionsLib/OtherActions.cpp:366-388 | when the corpus has at least `vocabSize` words, the selection has exactly `vocabSize` entries |
| Vocabulary.SelectionWithinBudget | Source/ActionsLib/OtherActions.cpp:366-388 | the selection never has more than `vocabSize` entries, the unknown word included |
| Vocabulary.SelectionRespectsCutoff | Source/ActionsLib/OtherActions.cpp:352-388 | once the size is at most the number of words above the cutoff, every kept word but the unknown word is above the cutoff |
| WordClasses.NextClass | Source/ActionsLib/OtherActions.cpp:412-418 | one class step: add the mass, clamp at 1, and move up one class when the next boundary is passed |
| WordClasses.ClassStateBounds | Source/ActionsLib/OtherActions.cpp:413-418 | whatever the masses, the running total stays at most 1 and the class id stays below `nbrCls` |
| WordClasses.ClassesInRange | Source/ActionsLib/OtherActions.cpp:403-428 | every class id lies in `[0, nbrCls)` |
| WordClasses.ClassesAreSteps | Source/ActionsLib/OtherActions.cpp:403-428 | the first class is 0 or 1, and from each word to the next the class stays the same or goes up by one |
| WordClasses.ClassesSorted | Source/ActionsLib/OtherActions.cpp:239-241 | assumption A1: the class ids are sorted along the words |
| WordClasses.FirstWordCanSkipClassZero | Source/ActionsLib/OtherActions.cpp:413-428 | with masses 3/4 and 1/4 and two classes, both words go to class 1, so class 0 can be empty |
| WordClasses.AssignClasses | Source/ActionsLib/OtherActions.cpp:389-430 | every kept word gets exactly one index, with its kept count; counts never go up along the indices; with classes, the classes are `Classes` of the counts; without classes, all are 0 |
| WordClasses.NumberingSum | Source/ActionsLib/OtherActions.cpp:389-430 | the numbered counts add up to the kept table's total |
| VocabularyFile.TableOfDistinct | Source/ActionsLib/OtherActions.cpp:421-426 | lines with distinct words, each with its table count, covering the table, list exactly that table |
| VocabularyFile.WriteVocabulary | Source/ActionsLib/OtherActions.cpp:432-448 | line `i` lists index `i`, the word's count, the word and its class (0 without classes); `wrd2cls` holds the classes and keeps its other rows; each class that occurs has the start of its run in `cls2idx`, and the rows of other classes are untouched |
| VocabularyFile.ClassStartsStep | Source/ActionsLib/OtherActions.cpp:439-444 | one word of the output loop keeps every recorded class start correct |
| VocabularyFile.ClassStartIsFirst | Source/ActionsLib/OtherActions.cpp:237-241 | with sorted classes, the recorded start of a class is the first index of that class |
| VocabularyFile.ClassStartsIncrease | Source/ActionsLib/OtherActions.cpp:242 | the part of assumption A2 the loop delivers: with sorted classes, the recorded starts of the classes that have words increase strictly with the class id (A2 over every row fails; see Findings) |
| VocabularyFile.FilledClassStartsDelimit | Source/ActionsLib/OtherActions.cpp:236-242 | the corrected table, with every row set: its rows never go down; the words of each class are exactly those from its row to the next; when every class has a word, the rows increase strictly (A2) |
| VocabularyFile.ClassStartIsFilled | Source/ActionsLib/OtherActions.cpp:439-444 | for a class that has words, the row the loop writes equals the corrected table's row |
| WordClassInfo.WriteWordAndClassInfo | Source/ActionsLib/OtherActions.cpp:243-472 | returns InvalidArgument exactly when a marker is empty; UpToDate exactly when make mode finds every output fresh; each runtime error exactly when the input is missing or no word is above the cutoff; otherwise returns the vocabulary lines and class tables of the corpus, as `VocabularyWritten` states |
| WordClassInfo.BuildVocabulary | Source/ActionsLib/OtherActions.cpp:364-448 | the outputs list a selection of the counts for the clamped size, in order of count, with distinct indexed words, the corpus total and the cutoff respected; with classes the tables follow `Classes`, otherwise every class is 0 |
| WordClassInfo.WriteOutputs | Source/ActionsLib/OtherActions.cpp:432-448 | the lines list the numbered words; with classes, `wrd2cls` equals the classes and `cls2idx` holds each class's start; without classes, no table is produced |
| WordClassInfo.WordsAboveCutoffBound | Source/ActionsLib/OtherActions.cpp:345-351 | no more words are above the cutoff than there are words |
| WordClassInfo.LinesWritten | Source/ActionsLib/OtherActions.cpp:366-446 | the selection, numbered and listed, meets every guarantee on the vocabulary lines |
| WordClassInfo.SelectionListed | Source/ActionsLib/OtherActions.cpp:389-446 | the listed lines are a selection of the corpus counts, with non-increasing counts adding up to the total |
| WordClassInfo.WrittenClassesSorted | Source/ActionsLib/OtherActions.cpp:239-241 | assumption A1 on the written `wrd2cls`: sorted, in range, starting at 0 or 1, and rising by at most one per word |
| WordClassInfo.WrittenClassStarts | Source/ActionsLib/OtherActions.cpp:236-242 | for every class that has words, `cls2idx` holds that class's first index, which is its row of the corrected table, and those rows increase strictly with the class id; rows of classes without words are not covered (see Findings) |
| WordClassInfo.ClassZeroRowUnwritten | Source/ActionsLib/OtherActions.cpp:413-444 | a one-word vocabulary with two classes puts the word in class 1; `cls2idx` is then the resize's row 0 followed by 0, so A2 holds only if that leftover value is negative |
| SvdConfig.RulesBefore | Source/ActionsLib/OtherActions.cpp:148-153 | the lines counted are all rules, and the line after them is not one |
| SvdConfig.ParseSvdConfigFile | Source/ActionsLib/OtherActions.cpp:145-157 | succeeds if and only if every line splits into exactly two tokens; the table holds the rules entered before the first bad line, over the initial table |
| SvdConfig.LastRuleWins | Source/ActionsLib/OtherActions.cpp:154 | a pattern set by several rules gets the ratio of its last rule |
| SvdConfig.UnruledUnchanged | Source/ActionsLib/OtherActions.cpp:145-157 | a pattern that no rule names keeps its initial entry, or stays absent |
| SvdConfig.PlanParameterSvd | Source/ActionsLib/OtherActions.cpp:168-206 | a direct pattern gives the single rule with the keep ratio; otherwise the usage text is shown exactly when a rule line is malformed; an empty model path stops the action; otherwise the network is decomposed with the rules and saved exactly when an output path is given |

## Findings

| source | as written | input that shows it | evidently intended | confidence | as-written member | corrected member |
|---|---|---|---|---|---|---|
| Source/ActionsLib/OtherActions.cpp:413-444 | The class id is raised before the word's class is stored, and `cls2idx` rows are written only for classes that have words. Class 0, or trailing classes, can have no word, and their rows keep whatever `Resize` (line 297) left. This breaks A2 at line 242 (`cls2idx[0] < ... < cls2idx[nbr_cls-1]`). | A corpus of one empty line with markers `<s>` and `</s>`, cutoff 0, vocabulary size 1 and 2 classes. The only word is `<unk>` with count 1 and mass 1, and it gets class 1. `cls2idx` is [leftover, 0], and `wrd2cls` is [1]. | Every row of `cls2idx` is set. A class without words gets the start of the next class. The rows never go down, and each class's words lie between its row and the next. A2 then holds whenever every class has a word. | not executed; medium | WordClasses.FirstWordCanSkipClassZero, WordClassInfo.ClassZeroRowUnwritten | VocabularyFile.FilledClassStartsDelimit |

`WriteVocabulary` and the action model keep the source's as-written tables. `WordClassInfo.WrittenClassStarts` proves that those tables agree with the corrected table `FilledClassStarts` on every row the source writes.

## Left out

- File and stream I/O (`ifstream`, `ofstream`, `make_intermediate_dirs`) is not modelled. The corpus is a sequence of lines, or `None` when it cannot be opened.
- The timestamp checks `fuptodate` are the parameter `Freshness`.
- The text layout of a vocabulary line and the `double` rendering of its count are not modelled. A line is the record `VocabLine`.
- The output files `wrd2cls` and `cls2idx` are the sequences of their rows. The failures to write them (the `RuntimeError`s of lines 457 and 466) are not modelled.
- The `Matrix<ElemType>` conversion of class ids and indices is not modelled. Rows that the loop does not write hold what `Resize` left, which is the parameter `resized`.
- A word's mass `sqrt(freq / total) / dd` is the parameter `mass`, a function of the word's count. Floating-point rounding is not modelled. The class properties hold for any masses.
- Counts are `nat`, while the source keeps them in `double`. Only increments by one and sums of counts occur, and they are exact.
- `msra::strfun::todouble` and the `(float)` conversion are the parameter `toFloat`. The rule file is the sequence of its lines (`textreader`).
- Messages to standard error and `SVDConfigFileUsage`'s text are not modelled. Only the fact that the usage text is shown is kept (`ShowUsage`).
- Loading, decomposing and saving the network (`ComputationNetwork::Load`, `PerformSVDecomposition`, `Save`) are calls into code that is not part of this model. `PlanParameterSvd` returns what would be done.
- Reading parameters from the configuration and their defaults are not modelled. The parameters are the `Options` record and the arguments of `PlanParameterSvd`.
- The disabled `#else` branch of lines 301-306 (an ordered map seeded with the two markers) is not modelled.
- `DoCreateLabelMap`, `DoTopologyPlot` and the rest of the file are not part of this model.
- PriorityQueues.PriorityQueue.Pop: when several entries have the same count, which one `std::priority_queue` yields first is left open. So the order of words with equal counts, and which of them are kept at the budget's edge, is not fixed.
- WordClassInfo.WriteWordAndClassInfo: requires a vocabulary size of at least 1 when classes are asked for. With size 0 and classes, the source resizes `wrd2cls` to 0 rows and then writes past its end at line 438.
- WordClassInfo.WriteWordAndClassInfo: requires the vocabulary size to fit a `size_t`, which the source's configuration reader guarantees.
- Vocabulary.SelectVocabulary: for size 0, the keep clause is stated for tables of at most `SIZE_MAX` words. A larger table cannot be held by the source's `unordered_map`.
- WordClasses.AssignClasses: `m_words`, `m_count` and `m_class` are local vectors, and `m_index` is a local `unordered_map`. The vectors are modelled as sequence values updated at an index, not as arrays updated in place. `m_index` is modelled as a map value.
