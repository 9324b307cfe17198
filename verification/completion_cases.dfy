/**
  Concrete queries: the keys are matched anywhere, not only at their
  start, so every key holding an `a` is offered for the line prefix `a`;
  and a prefix whose only `=` is its first character is still completed.
 */
module CompletionCases {
  import opened Text
  import opened Dictionary
  import opened Completion

  /** An occurrence of `sub` makes `s` contain it. */
  lemma OccurrenceContains(s: string, sub: string, i: int)
    requires OccursAt(s, sub, i)
    ensures Contains(s, sub)
  {
  }

  /** An entry whose key is at most the first key of a sorted sequence is
      inserted in front of it. */
  lemma InsertFront(x: Entry, s: seq<Entry>)
    requires Sorted(s) && (|s| == 0 || LexLessEq(x.key, s[0].key))
    ensures Insert(x, s) == [x] + s
  {
  }

  lemma KeysContainA()
    ensures Contains("alpha", "a") && Contains("beta", "a") && Contains("gamma", "a")
  {
    OccurrenceContains("alpha", "a", 0);
    assert "beta"[3..4] == "a";
    OccurrenceContains("beta", "a", 3);
    assert "gamma"[1..2] == "a";
    OccurrenceContains("gamma", "a", 1);
  }

  /** Sorting one more entry is inserting it into the sorted rest. */
  lemma SortCons(x: Entry, s: seq<Entry>)
    ensures Sort([x] + s) == Insert(x, Sort(s))
  {
    assert ([x] + s)[1..] == s;
  }

  /** Entries already in key order are sorted in place. */
  lemma SortThree(a: Entry, b: Entry, c: Entry)
    requires LexLessEq(a.key, b.key) && LexLessEq(b.key, c.key)
    ensures Sort([a, b, c]) == [a, b, c]
  {
    SortCons(c, []);
    InsertFront(c, []);
    SortCons(b, [c]);
    InsertFront(b, [c]);
    SortCons(a, [b, c]);
    InsertFront(a, [b, c]);
    Literals(a, b, c);
  }

  /** The sequence displays built up by the steps above, kept in a lemma of
      their own so that each step's verification stays small. */
  lemma Literals(a: Entry, b: Entry, c: Entry)
    ensures [c] + [] == [c] && [b] + [c] == [b, c] && [a] + [b, c] == [a, b, c]
  {
  }

  /** `alpha`, `beta` and `gamma` all hold an `a`: all three are offered,
      `beta` included, in that order. */
  lemma SubstringQuery()
    ensures var items := [Entry("alpha", ""), Entry("beta", ""), Entry("gamma", "")];
            Sort(Filter(items, "a")) == items
  {
    var items := [Entry("alpha", ""), Entry("beta", ""), Entry("gamma", "")];
    KeysContainA();
    FilterKeepsAll(items, "a");
    assert LexLessEq("alpha", "beta") && LexLessEq("beta", "gamma");
    SortThree(items[0], items[1], items[2]);
    assert [items[0], items[1], items[2]] == items;
  }

  /** The context guard only looks for an `=` past index 0: the prefix
      `=a`, whose one `=` is its first character, is not declined. */
  lemma LeadingEqualsCompleted()
    ensures !Declined("=a")
  {
    assert !StartsWith("=a", "#") by {
      assert "=a"[0] != "#"[0];
    }
    assert IndexOf("=a", '=') == 0 by {
      assert "=a"[0] == '=';
    }
  }
}
