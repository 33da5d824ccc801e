/**
 * `std::priority_queue<std::pair<std::string, double>, std::vector<...>,
 * compare_second<...>>`, as DoWriteWordAndClassInfo uses it: built from the
 * entries of a word-count table and drained with `top()` and `pop()`.
 */
module PriorityQueues {

  /** A (word, count) pair of the queue. */
  datatype Entry = Entry(word: string, count: nat)

  /** `compare_second`: orders pairs by their second component only. */
  predicate CompareSecond(lhs: Entry, rhs: Entry)
  {
    lhs.count < rhs.count
  }

  /**
   * `compare_second` is a strict weak ordering, as `std::priority_queue`
   * requires of its comparator: irreflexive, transitive, and with
   * transitive incomparability (pairs with equal counts are equivalent).
   */
  lemma CompareSecondIsStrictWeakOrder(a: Entry, b: Entry, c: Entry)
    ensures !CompareSecond(a, a)
    ensures CompareSecond(a, b) && CompareSecond(b, c) ==> CompareSecond(a, c)
    ensures !CompareSecond(a, b) && !CompareSecond(b, a) && !CompareSecond(b, c) && !CompareSecond(c, b)
            ==> !CompareSecond(a, c) && !CompareSecond(c, a)
  {
  }

  /** A non-empty count table has an entry that no other entry compares greater than. */
  lemma {:induction false} GreatestExists(m: map<string, nat>)
    requires m != map[]
    ensures exists w :: w in m && forall v :: v in m ==> !CompareSecond(Entry(w, m[w]), Entry(v, m[v]))
    decreases m.Keys
  {
    var k :| k in m;
    var rest := m - {k};
    var g := k;
    if rest != map[] {
      GreatestExists(rest);
      var w :| w in rest && forall v :: v in rest ==> !CompareSecond(Entry(w, rest[w]), Entry(v, rest[v]));
      if m[k] <= m[w] {
        g := w;
      }
    }
    forall v | v in m ensures !CompareSecond(Entry(g, m[g]), Entry(v, m[v])) {
      if v != k {
        assert v in rest;
      }
    }
  }

  /**
   * The queue's contents. Both queues of the source are built from an
   * `unordered_map`, so no word occurs twice and the contents are a table
   * from word to count.
   */
  class PriorityQueue {
    var entries: map<string, nat>

    /** The range constructor over a table's entries (lines 342-343 and 389-390). */
    constructor (table: map<string, nat>)
      ensures entries == table
    {
      entries := table;
    }

    /** `empty()` */
    predicate IsEmpty()
      reads this
    {
      entries == map[]
    }

    /**
     * `top()` followed by `pop()`: removes and returns an entry that no
     * remaining entry compares greater than, so the largest count comes
     * first. Which of several equal counts comes first is unspecified.
     */
    method Pop() returns (top: Entry)
      requires !IsEmpty()
      modifies this
      ensures top.word in old(entries) && top.count == old(entries)[top.word]
      ensures forall v :: v in old(entries) ==> !CompareSecond(top, Entry(v, old(entries)[v]))
      ensures entries == old(entries) - {top.word}
    {
      GreatestExists(entries);
      var w :| w in entries && forall v :: v in entries ==> !CompareSecond(Entry(w, entries[w]), Entry(v, entries[v]));
      top := Entry(w, entries[w]);
      entries := entries - {w};
    }
  }
}
