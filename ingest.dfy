/**
 * Reading the corpus (DoWriteWordAndClassInfo, lines 308-329): each line is
 * trimmed, given the sentence markers it lacks, split at tabs and spaces,
 * and every token but the first is counted.
 */
module Ingest {
  import opened Strings
  import opened Sums
  import opened Sequences

  /** No ' ' anywhere in `s`. */
  predicate NoSpace(s: string)
  {
    forall k :: 0 <= k < |s| ==> s[k] != ' '
  }

  /**
   * A line as the counting loop sees it (lines 313-324): trimmed of spaces,
   * prefixed with `beginSequence + " "` unless that text already occurs
   * anywhere in it, then suffixed with `" " + endSequence` unless that text
   * already occurs anywhere in the prefixed line.
   */
  function Decorate(line: string, beginSequence: string, endSequence: string): string
  {
    AddEnd(AddBegin(Trim(line), beginSequence), endSequence)
  }

  /** Lines 319-321: prefix `beginSequence + " "` unless it occurs in `s`. */
  function AddBegin(s: string, beginSequence: string): string
  {
    if beginSequence != [] && !Contains(s, beginSequence + " ") then beginSequence + " " + s else s
  }

  /** Lines 322-324: suffix `" " + endSequence` unless it occurs in `s`. */
  function AddEnd(s: string, endSequence: string): string
  {
    if endSequence != [] && !Contains(s, " " + endSequence) then s + (" " + endSequence) else s
  }

  /** Every token but the first: the counting loop starts at index 1 (line 327). */
  function AfterFirst(tokens: seq<string>): seq<string>
  {
    if tokens == [] then [] else tokens[1..]
  }

  /** The tokens of one line that get counted (lines 326-328). */
  function CountedTokens(line: string, beginSequence: string, endSequence: string): seq<string>
  {
    AfterFirst(Split(Decorate(line, beginSequence, endSequence), Blanks))
  }

  /** The tokens counted over a whole corpus, line after line. */
  function CorpusTokens(lines: seq<string>, beginSequence: string, endSequence: string): seq<string>
  {
    if lines == [] then []
    else CorpusTokens(lines[..|lines| - 1], beginSequence, endSequence)
         + CountedTokens(lines[|lines| - 1], beginSequence, endSequence)
  }

  lemma CorpusTokensStep(lines: seq<string>, l: nat, beginSequence: string, endSequence: string)
    requires l < |lines|
    ensures CorpusTokens(lines[..l + 1], beginSequence, endSequence)
            == CorpusTokens(lines[..l], beginSequence, endSequence) + CountedTokens(lines[l], beginSequence, endSequence)
  {
    TakeOfTake(lines, l);
  }

  /** The table after counting one more occurrence of `t` (`v_count[t]++`). */
  function Increment(counts: map<string, nat>, t: string): map<string, nat>
  {
    counts[t := if t in counts then counts[t] + 1 else 1]
  }

  /** The word-count table of a token sequence, counted token by token. */
  function Tally(tokens: seq<string>): map<string, nat>
  {
    if tokens == [] then map[]
    else Increment(Tally(tokens[..|tokens| - 1]), tokens[|tokens| - 1])
  }

  lemma TallyAppend(tokens: seq<string>, t: string)
    ensures Tally(tokens + [t]) == Increment(Tally(tokens), t)
  {
    TakeAll(tokens);
    assert (tokens + [t])[..|tokens|] == tokens[..|tokens|];
  }

  /**
   * The table holds exactly the words that occur, each with its number of
   * occurrences, which is at least one.
   */
  lemma {:induction false} TallyCounts(tokens: seq<string>)
    ensures forall w :: w in Tally(tokens) <==> w in tokens
    ensures forall w :: w in Tally(tokens) ==> Tally(tokens)[w] == multiset(tokens)[w] >= 1
  {
    if tokens != [] {
      var init := tokens[..|tokens| - 1];
      var t := tokens[|tokens| - 1];
      assert tokens == init + [t];
      TallyCounts(init);
      assert multiset(tokens) == multiset(init) + multiset{t};
      forall w ensures w in tokens <==> w in init || w == t {
        assert w in init + [t] <==> w in init || w == t;
      }
    }
  }

  /** Conservation at ingest: the counts of the table add up to the number of tokens counted. */
  lemma {:induction false} TallyTotal(tokens: seq<string>)
    ensures MapSum(Tally(tokens)) == |tokens|
  {
    if tokens == [] {
      assert Tally(tokens) == map[];
    } else {
      var init := tokens[..|tokens| - 1];
      var t := tokens[|tokens| - 1];
      assert tokens == init + [t];
      TallyTotal(init);
      MapSumIncrement(Tally(init), t);
    }
  }

  /**
   * The inner loop of lines 327-328: counts every token of a split line
   * except the first into a table that already holds the counts of `done`.
   */
  method CountLineTokens(counts: map<string, nat>, vstr: seq<string>, ghost done: seq<string>)
    returns (updated: map<string, nat>)
    requires counts == Tally(done)
    ensures updated == Tally(done + AfterFirst(vstr))
  {
    updated := counts;
    ghost var counted := AfterFirst(vstr);
    AppendTakeNone(done, counted);
    var i := 1;
    while i < |vstr|
      invariant 1 <= i <= |counted| + 1
      invariant updated == Tally(done + counted[..i - 1])
    {
      ghost var before := done + counted[..i - 1];
      AppendTakeNext(done, counted, i - 1);
      TallyAppend(before, vstr[i]);
      updated := Increment(updated, vstr[i]);
      i := i + 1;
    }
    TakeAll(counted);
  }

  /**
   * The counting loop of lines 315-329. Each line is processed as the
   * source does, step by step, and every token after the first of the
   * processed line is counted.
   */
  method CountWords(lines: seq<string>, beginSequence: string, endSequence: string)
    returns (counts: map<string, nat>)
    ensures counts == Tally(CorpusTokens(lines, beginSequence, endSequence))
  {
    counts := map[];
    var l := 0;
    while l < |lines|
      invariant 0 <= l <= |lines|
      invariant counts == Tally(CorpusTokens(lines[..l], beginSequence, endSequence))
    {
      var str := ProcessLine(lines[l], beginSequence, endSequence);
      var vstr := Split(str, Blanks);
      ghost var done := CorpusTokens(lines[..l], beginSequence, endSequence);
      counts := CountLineTokens(counts, vstr, done);
      CorpusTokensNext(lines, l, beginSequence, endSequence, vstr);
      l := l + 1;
    }
    TakeAll(lines);
  }

  /**
   * Lines 316-324: the line is trimmed of spaces, then given the begin
   * pattern and the end pattern unless each already occurs in it.
   */
  method ProcessLine(line: string, beginSequence: string, endSequence: string) returns (str: string)
    ensures str == Decorate(line, beginSequence, endSequence)
  {
    var beginPattern := beginSequence + " ";
    var endPattern := " " + endSequence;
    str := Trim(line);
    if beginSequence != [] && !Contains(str, beginPattern) {
      str := beginPattern + str;
    }
    if endSequence != [] && !Contains(str, endPattern) {
      str := str + endPattern;
    }
  }

  /** The counted tokens of the first `l + 1` lines, given the split form of line `l`. */
  lemma CorpusTokensNext(lines: seq<string>, l: nat, beginSequence: string, endSequence: string, vstr: seq<string>)
    requires l < |lines|
    requires vstr == Split(Decorate(lines[l], beginSequence, endSequence), Blanks)
    ensures CorpusTokens(lines[..l + 1], beginSequence, endSequence)
            == CorpusTokens(lines[..l], beginSequence, endSequence) + AfterFirst(vstr)
  {
    CorpusTokensStep(lines, l, beginSequence, endSequence);
    CountedTokensOf(lines[l], beginSequence, endSequence, vstr);
  }

  /** The begin pattern occurs in the line once `AddBegin` has run. */
  lemma AddBeginMarks(s: string, beginSequence: string)
    requires beginSequence != []
    ensures Contains(AddBegin(s, beginSequence), beginSequence + " ")
  {
    if !Contains(s, beginSequence + " ") {
      ContainsPrefix(beginSequence + " ", s);
    }
  }

  /** The end pattern occurs in the line once `AddEnd` has run, and whatever occurred still does. */
  lemma AddEndMarks(s: string, endSequence: string, p: string)
    requires endSequence != []
    ensures Contains(AddEnd(s, endSequence), " " + endSequence)
    ensures Contains(s, p) ==> Contains(AddEnd(s, endSequence), p)
  {
    if !Contains(s, " " + endSequence) {
      ContainsSuffix(s, " " + endSequence);
      if Contains(s, p) {
        ContainsExtended(s, " " + endSequence, p);
      }
    }
  }

  /** Every processed line carries both markers (when they are given). */
  lemma DecorateMarksBoth(line: string, beginSequence: string, endSequence: string)
    requires beginSequence != [] && endSequence != []
    ensures Contains(Decorate(line, beginSequence, endSequence), beginSequence + " ")
    ensures Contains(Decorate(line, beginSequence, endSequence), " " + endSequence)
  {
    var prefixed := AddBegin(Trim(line), beginSequence);
    AddBeginMarks(Trim(line), beginSequence);
    AddEndMarks(prefixed, endSequence, beginSequence + " ");
  }

  /** `" " + endSequence` cannot occur in `beginSequence + " "` when the begin marker has no space. */
  lemma EndPatternNotInBeginPattern(beginSequence: string, endSequence: string)
    requires NoSpace(beginSequence) && endSequence != []
    ensures !Contains(beginSequence + " ", " " + endSequence)
  {
    var s := beginSequence + " ";
    var p := " " + endSequence;
    forall i ensures !OccursAt(s, p, i) {
      if 0 <= i && i + |p| <= |s| {
        assert s[i..i + |p|][0] == s[i];
      }
    }
  }

  /** No outer space: empty, or a non-space at both ends. */
  predicate NoOuterSpace(s: string)
  {
    s == [] || (s[0] != ' ' && s[|s| - 1] != ' ')
  }

  /** `AddBegin` on a trimmed line starts with a non-space; it ends with one unless the line was empty. */
  lemma AddBeginEnds(s: string, beginSequence: string)
    requires beginSequence != [] && NoSpace(beginSequence) && NoOuterSpace(s)
    ensures var r := AddBegin(s, beginSequence);
            && r != [] && r[0] != ' '
            && (s == [] ==> r == beginSequence + " ")
            && (s != [] ==> r[|r| - 1] != ' ')
  {
  }

  /** `AddEnd` leaves no outer space on a line that starts with a non-space and needs the marker if it ends with a space. */
  lemma AddEndEnds(s: string, endSequence: string)
    requires endSequence != [] && NoSpace(endSequence)
    requires s != [] && s[0] != ' '
    requires s[|s| - 1] == ' ' ==> !Contains(s, " " + endSequence)
    ensures var r := AddEnd(s, endSequence);
            r != [] && r[0] != ' ' && r[|r| - 1] != ' '
  {
  }

  /** With space-free markers, a processed line has no outer space. */
  lemma DecorateEnds(line: string, beginSequence: string, endSequence: string)
    requires beginSequence != [] && endSequence != []
    requires NoSpace(beginSequence) && NoSpace(endSequence)
    ensures var d := Decorate(line, beginSequence, endSequence);
            d != [] && d[0] != ' ' && d[|d| - 1] != ' '
  {
    var trimmed := Trim(line);
    var prefixed := AddBegin(trimmed, beginSequence);
    AddBeginEnds(trimmed, beginSequence);
    if trimmed == [] {
      EndPatternNotInBeginPattern(beginSequence, endSequence);
    }
    AddEndEnds(prefixed, endSequence);
  }

  /**
   * Processing a line is idempotent when the markers are space-free words:
   * a line that already went through it (markers present, no outer blanks)
   * is left exactly as it is.
   */
  lemma DecorateIdempotent(line: string, beginSequence: string, endSequence: string)
    requires beginSequence != [] && endSequence != []
    requires NoSpace(beginSequence) && NoSpace(endSequence)
    ensures Decorate(Decorate(line, beginSequence, endSequence), beginSequence, endSequence)
            == Decorate(line, beginSequence, endSequence)
  {
    var d := Decorate(line, beginSequence, endSequence);
    DecorateEnds(line, beginSequence, endSequence);
    DecorateMarksBoth(line, beginSequence, endSequence);
    assert Settled(d, beginSequence, endSequence);
    DecorateFixed(d, beginSequence, endSequence);
  }

  lemma ContainsPatternStart(s: string, p: string, q: string)
    requires Contains(s, p + q)
    ensures Contains(s, p)
  {
    var i :| 0 <= i <= |s| - |p + q| && OccursAt(s, p + q, i);
    assert s[i..i + |p|] == (p + q)[..|p|] == p;
    assert OccursAt(s, p, i);
  }

  /** After a space-free begin marker, `" " + endSequence` occurs only where the rest holds the end marker. */
  lemma NoEndPatternAfterBegin(beginSequence: string, t: string, endSequence: string)
    requires NoSpace(beginSequence) && endSequence != []
    requires !Contains(t, endSequence)
    ensures !Contains(beginSequence + " " + t, " " + endSequence)
  {
    var s := beginSequence + " " + t;
    var p := " " + endSequence;
    forall i ensures !OccursAt(s, p, i) {
      if 0 <= i && i + |p| <= |s| {
        if i < |beginSequence| {
          assert s[i..i + |p|][0] == s[i];
        } else {
          var j := i - |beginSequence|;
          assert !OccursAt(t, endSequence, j);
          var k :| 0 <= k < |endSequence| && t[j + k] != endSequence[k];
          assert s[i + 1 + k] == t[j + k];
          assert s[i..i + |p|][1 + k] != p[1 + k];
        }
      }
    }
  }

  /**
   * A plain sentence, in which neither marker occurs, contributes each of
   * its words and one end marker; the begin marker that was put in front
   * is the uncounted first token.
   */
  lemma PlainLineTokens(line: string, beginSequence: string, endSequence: string)
    requires IsToken(beginSequence, Blanks) && IsToken(endSequence, Blanks)
    requires !Contains(line, beginSequence) && !Contains(line, endSequence)
    ensures CountedTokens(line, beginSequence, endSequence) == Split(line, Blanks) + [endSequence]
  {
    var trimmed := Trim(line);
    PlainLineDecorated(line, beginSequence, endSequence);
    SplitAtDelimiter(beginSequence, ' ', trimmed + [' '] + endSequence, Blanks);
    SplitAtDelimiter(trimmed, ' ', endSequence, Blanks);
    SplitToken(beginSequence, Blanks);
    SplitToken(endSequence, Blanks);
    SplitTrim(line, Blanks);
    CountedTokensOf(line, beginSequence, endSequence, [beginSequence] + (Split(line, Blanks) + [endSequence]));
    DropHead(beginSequence, Split(line, Blanks) + [endSequence]);
  }

  /** A token has no space in it. */
  lemma TokenNoSpace(t: string)
    requires IsToken(t, Blanks)
    ensures NoSpace(t)
  {
    forall k | 0 <= k < |t| ensures t[k] != ' ' {
      assert t[k] !in Blanks;
    }
  }

  /** A plain sentence gets both markers: `begin + " " + trimmed line + " " + end`. */
  lemma PlainLineDecorated(line: string, beginSequence: string, endSequence: string)
    requires IsToken(beginSequence, Blanks) && IsToken(endSequence, Blanks)
    requires !Contains(line, beginSequence) && !Contains(line, endSequence)
    ensures Decorate(line, beginSequence, endSequence) == beginSequence + [' '] + (Trim(line) + [' '] + endSequence)
  {
    var trimmed := Trim(line);
    TokenNoSpace(beginSequence);
    if Contains(trimmed, beginSequence + " ") {
      ContainsPatternStart(trimmed, beginSequence, " ");
      ContainsTrimmed(line, beginSequence);
    }
    if Contains(trimmed, endSequence) {
      ContainsTrimmed(line, endSequence);
    }
    NoEndPatternAfterBegin(beginSequence, trimmed, endSequence);
    assert beginSequence + " " + trimmed + (" " + endSequence) == beginSequence + [' '] + (trimmed + [' '] + endSequence);
  }

  lemma {:induction false} JoinLast(ts: seq<string>, last: string)
    requires ts != []
    ensures JoinWithSpaces(ts + [last]) == JoinWithSpaces(ts) + [' '] + last
  {
    if |ts| > 1 {
      DropHeadOfAppend(ts, last);
      JoinLast(ts[1..], last);
    }
  }

  /** A non-empty line with no outer spaces that already holds both patterns. */
  predicate Settled(line: string, beginSequence: string, endSequence: string)
  {
    && line != [] && NoOuterSpace(line)
    && Contains(line, beginSequence + " ") && Contains(line, " " + endSequence)
  }

  /** A settled line is not changed. */
  lemma DecorateFixed(line: string, beginSequence: string, endSequence: string)
    requires Settled(line, beginSequence, endSequence)
    ensures Decorate(line, beginSequence, endSequence) == line
  {
    TrimUnchanged(line);
    var trimmed := Trim(line);
    assert trimmed == line;
    assert Contains(trimmed, beginSequence + " ");
  }

  /** The space-joined marked line begins with the begin pattern and ends with the end pattern. */
  lemma {:induction false} MarkedLineShape(words: seq<string>, beginSequence: string, endSequence: string)
    requires beginSequence != [] && endSequence != []
    ensures var line := JoinWithSpaces([beginSequence] + words + [endSequence]);
            line == beginSequence + " " + JoinWithSpaces(words + [endSequence])
            && line == JoinWithSpaces([beginSequence] + words) + " " + endSequence
  {
    DropFirst(beginSequence, words, endSequence);
    JoinLast([beginSequence] + words, endSequence);
  }

  /** The marked line holds both patterns and has no outer spaces. */
  lemma MarkedLineDecorated(words: seq<string>, beginSequence: string, endSequence: string)
    requires IsToken(beginSequence, Blanks) && IsToken(endSequence, Blanks)
    ensures var line := JoinWithSpaces([beginSequence] + words + [endSequence]);
            Decorate(line, beginSequence, endSequence) == line
  {
    var line := JoinWithSpaces([beginSequence] + words + [endSequence]);
    MarkedLineShape(words, beginSequence, endSequence);
    var head := JoinWithSpaces(words + [endSequence]);
    var init := JoinWithSpaces([beginSequence] + words);
    assert line[0] == beginSequence[0] && beginSequence[0] !in Blanks;
    assert line[|line| - 1] == endSequence[|endSequence| - 1] && endSequence[|endSequence| - 1] !in Blanks;
    ContainsPrefix(beginSequence + " ", head);
    assert init + " " + endSequence == init + (" " + endSequence);
    ContainsSuffix(init, " " + endSequence);
    DecorateFixed(line, beginSequence, endSequence);
  }

  lemma MarkedTokens(words: seq<string>, beginSequence: string, endSequence: string)
    requires IsToken(beginSequence, Blanks) && IsToken(endSequence, Blanks)
    requires AllTokens(words, Blanks)
    ensures AllTokens([beginSequence] + words + [endSequence], Blanks)
  {
    var all := [beginSequence] + words + [endSequence];
    forall i | 0 <= i < |all| ensures IsToken(all[i], Blanks) {
      if 0 < i < |all| - 1 {
        assert all[i] == words[i - 1];
      }
    }
  }

  /** The counted tokens of a line whose processed form splits into `tokens`. */
  lemma CountedTokensOf(line: string, beginSequence: string, endSequence: string, tokens: seq<string>)
    requires Split(Decorate(line, beginSequence, endSequence), Blanks) == tokens
    ensures CountedTokens(line, beginSequence, endSequence) == AfterFirst(tokens)
  {
  }

  /**
   * A line that already reads `begin w1 ... wn end` is counted as
   * `w1 ... wn end`: the begin marker is the uncounted first token and the
   * end marker is counted.
   */
  lemma MarkedLineTokens(words: seq<string>, beginSequence: string, endSequence: string)
    requires IsToken(beginSequence, Blanks) && IsToken(endSequence, Blanks)
    requires AllTokens(words, Blanks)
    ensures CountedTokens(JoinWithSpaces([beginSequence] + words + [endSequence]), beginSequence, endSequence)
            == words + [endSequence]
  {
    var all := [beginSequence] + words + [endSequence];
    var line := JoinWithSpaces(all);
    MarkedTokens(words, beginSequence, endSequence);
    SplitJoin(all, Blanks);
    MarkedLineDecorated(words, beginSequence, endSequence);
    CountedTokensOf(line, beginSequence, endSequence, all);
    DropFirst(beginSequence, words, endSequence);
  }
}
