/**
 * The string operations the word-counting loop relies on: trimming spaces
 * (`erase` with `find_first_not_of(' ')` / `find_last_not_of(' ')`),
 * `std::string::find` used as a containment test, and the tokenizer
 * `msra::strfun::split`, which splits at every delimiter character and
 * drops empty tokens.
 */
module Strings {

  /** Every character of `s` is a ' '. */
  predicate AllSpaces(s: string)
  {
    forall k :: 0 <= k < |s| ==> s[k] == ' '
  }

  /** Drops the leading ' ' characters: `s.erase(0, s.find_first_not_of(' '))`. */
  function TrimLeft(s: string): (r: string)
    ensures |r| <= |s| && r == s[|s| - |r|..]
    ensures AllSpaces(s[..|s| - |r|])
    ensures r == [] || r[0] != ' '
  {
    if s != [] && s[0] == ' ' then TrimLeft(s[1..]) else s
  }

  /** Drops the trailing ' ' characters: `s.erase(s.find_last_not_of(' ') + 1)`. */
  function TrimRight(s: string): (r: string)
    ensures |r| <= |s| && r == s[..|r|]
    ensures AllSpaces(s[|r|..])
    ensures r == [] || r[|r| - 1] != ' '
  {
    if s != [] && s[|s| - 1] == ' ' then TrimRight(s[..|s| - 1]) else s
  }

  /** Both erasures of lines 317-318: only ' ' is removed, never a tab. */
  function Trim(s: string): (r: string)
    ensures r == [] || (r[0] != ' ' && r[|r| - 1] != ' ')
  {
    TrimRight(TrimLeft(s))
  }

  /** A string with no ' ' at either end is left as it is. */
  lemma TrimUnchanged(s: string)
    requires s == [] || (s[0] != ' ' && s[|s| - 1] != ' ')
    ensures Trim(s) == s
  {
    assert TrimLeft(s) == s;
  }

  /** `p` occurs in `s` starting at position `i`. */
  predicate OccursAt(s: string, p: string, i: int)
  {
    0 <= i && i + |p| <= |s| && s[i..i + |p|] == p
  }

  /** `s.find(p) != npos`: `p` occurs anywhere in `s` (the empty pattern occurs everywhere). */
  predicate Contains(s: string, p: string)
  {
    exists i :: 0 <= i <= |s| - |p| && OccursAt(s, p, i)
  }

  /** Whatever occurs in a part of a string occurs in the whole string. */
  lemma ContainsInContext(a: string, s: string, b: string, p: string)
    requires Contains(s, p)
    ensures Contains(a + s + b, p)
  {
    var i :| 0 <= i <= |s| - |p| && OccursAt(s, p, i);
    assert (a + s + b)[|a| + i..|a| + i + |p|] == s[i..i + |p|];
    assert OccursAt(a + s + b, p, |a| + i);
  }

  /** A string contains itself. */
  lemma ContainsSelf(p: string)
    ensures Contains(p, p)
  {
    assert OccursAt(p, p, 0);
  }

  /** A string contains its prefix. */
  lemma ContainsPrefix(p: string, s: string)
    ensures Contains(p + s, p)
  {
    ContainsSelf(p);
    ContainsInContext([], p, s, p);
    assert [] + p + s == p + s;
  }

  /** A string contains its suffix. */
  lemma ContainsSuffix(s: string, p: string)
    ensures Contains(s + p, p)
  {
    ContainsSelf(p);
    ContainsInContext(s, p, [], p);
    assert s + p + [] == s + p;
  }

  /** Appending text keeps every occurrence. */
  lemma ContainsExtended(s: string, t: string, p: string)
    requires Contains(s, p)
    ensures Contains(s + t, p)
  {
    ContainsInContext([], s, t, p);
    assert [] + s + t == s + t;
  }

  /** Whatever occurs in a slice of a string occurs in the string. */
  lemma ContainsSlice(s: string, lo: nat, hi: nat, p: string)
    requires lo <= hi <= |s|
    requires Contains(s[lo..hi], p)
    ensures Contains(s, p)
  {
    assert s == s[..lo] + s[lo..hi] + s[hi..];
    ContainsInContext(s[..lo], s[lo..hi], s[hi..], p);
  }

  /** Whatever occurs in the trimmed string occurs in the original. */
  lemma ContainsTrimmed(s: string, p: string)
    requires Contains(Trim(s), p)
    ensures Contains(s, p)
  {
    var l := TrimLeft(s);
    var off := |s| - |l|;
    assert Trim(s) == l[..|Trim(s)|];
    ContainsSlice(l, 0, |Trim(s)|, p);
    assert l == s[off..|s|];
    ContainsSlice(s, off, |s|, p);
  }

  /** The delimiters `"\t "` that both callers pass to `split` (lines 151 and 326). */
  const Blanks: set<char> := {'\t', ' '}

  /** A token in the sense of `split`: non-empty and free of delimiters. */
  predicate IsToken(t: string, delims: set<char>)
  {
    t != [] && forall k :: 0 <= k < |t| ==> t[k] !in delims
  }

  /** Every element of `ts` is a token. */
  predicate AllTokens(ts: seq<string>, delims: set<char>)
  {
    forall i :: 0 <= i < |ts| ==> IsToken(ts[i], delims)
  }

  /** Length of the longest delimiter-free prefix of `s`. */
  function TokenLength(s: string, delims: set<char>): (n: nat)
    ensures n <= |s|
    ensures forall k :: 0 <= k < n ==> s[k] !in delims
    ensures n < |s| ==> s[n] in delims
  {
    if s == [] || s[0] in delims then 0 else 1 + TokenLength(s[1..], delims)
  }

  /**
   * `msra::strfun::split(s, delims)`: the maximal runs of non-delimiter
   * characters, in order; empty tokens are dropped.
   */
  function Split(s: string, delims: set<char>): (r: seq<string>)
    ensures forall i :: 0 <= i < |r| ==> IsToken(r[i], delims)
    decreases |s|
  {
    if s == [] then []
    else if s[0] in delims then Split(s[1..], delims)
    else
      var n := TokenLength(s, delims);
      [s[..n]] + Split(s[n..], delims)
  }

  lemma TokenLengthBeforeDelimiter(a: string, d: char, b: string, delims: set<char>)
    requires d in delims
    ensures TokenLength(a + [d] + b, delims) == TokenLength(a, delims)
  {
    if a != [] && a[0] !in delims {
      assert (a + [d] + b)[1..] == a[1..] + [d] + b;
      TokenLengthBeforeDelimiter(a[1..], d, b, delims);
    }
  }

  /** Splitting at a delimiter splits the token sequence there. */
  lemma {:induction false} SplitAtDelimiter(a: string, d: char, b: string, delims: set<char>)
    requires d in delims
    ensures Split(a + [d] + b, delims) == Split(a, delims) + Split(b, delims)
    decreases |a|
  {
    var s := a + [d] + b;
    if a == [] {
      assert s[1..] == b;
    } else if a[0] in delims {
      assert s[1..] == a[1..] + [d] + b;
      SplitAtDelimiter(a[1..], d, b, delims);
    } else {
      var n := TokenLength(a, delims);
      TokenLengthBeforeDelimiter(a, d, b, delims);
      assert s[..n] == a[..n];
      assert s[n..] == a[n..] + [d] + b;
      SplitAtDelimiter(a[n..], d, b, delims);
    }
  }

  /** A single token splits into itself. */
  lemma SplitToken(t: string, delims: set<char>)
    requires IsToken(t, delims)
    ensures Split(t, delims) == [t]
  {
    assert t[0] !in delims;
    var n := TokenLength(t, delims);
    assert n == |t|;
    assert t[..n] == t && t[n..] == [];
  }

  /** Removing blanks at the ends changes no token. */
  lemma {:induction false} SplitTrimLeft(s: string, delims: set<char>)
    requires ' ' in delims
    ensures Split(TrimLeft(s), delims) == Split(s, delims)
    decreases |s|
  {
    if s != [] && s[0] == ' ' {
      SplitTrimLeft(s[1..], delims);
    }
  }

  lemma {:induction false} SplitTrimRight(s: string, delims: set<char>)
    requires ' ' in delims
    ensures Split(TrimRight(s), delims) == Split(s, delims)
    decreases |s|
  {
    if s != [] && s[|s| - 1] == ' ' {
      var a := s[..|s| - 1];
      SplitTrimRight(a, delims);
      SplitAtDelimiter(a, ' ', [], delims);
      assert a + [' '] + [] == s;
    }
  }

  lemma SplitTrim(s: string, delims: set<char>)
    requires ' ' in delims
    ensures Split(Trim(s), delims) == Split(s, delims)
  {
    SplitTrimRight(TrimLeft(s), delims);
    SplitTrimLeft(s, delims);
  }

  /** Tokens joined with single spaces, the inverse of `split` on such text. */
  function JoinWithSpaces(ts: seq<string>): string
  {
    if ts == [] then []
    else if |ts| == 1 then ts[0]
    else ts[0] + [' '] + JoinWithSpaces(ts[1..])
  }

  /** Round trip: splitting space-joined tokens gives the tokens back. */
  lemma {:induction false} SplitJoin(ts: seq<string>, delims: set<char>)
    requires ' ' in delims
    requires AllTokens(ts, delims)
    ensures Split(JoinWithSpaces(ts), delims) == ts
  {
    if |ts| == 1 {
      SplitToken(ts[0], delims);
    } else if |ts| > 1 {
      SplitAtDelimiter(ts[0], ' ', JoinWithSpaces(ts[1..]), delims);
      SplitToken(ts[0], delims);
      SplitJoin(ts[1..], delims);
    }
  }
}
