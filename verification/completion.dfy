/**
  The completion query (`provideCompletionItems` in src/completion.ts):
  from the text of the line up to the cursor and the directive on the
  document's first line, the dictionary entries offered at the cursor.

  The editor's document and position become plain values; the process-wide
  cache and the file system are passed in, and the cache as it stands
  after the request is returned with the answer. `localeCompare` is
  replaced by the code-point order `LexLessEq`.
 */
module Completion {
  import opened Results
  import opened Text
  import opened Dictionary
  import opened Freshness

  datatype Document = Document(lines: seq<string>)

  /** A zero-based line and a zero-based column. */
  datatype Position = Position(line: nat, character: nat)

  /** Why a request yields no answer: `lineAt` was given a line the
      document does not have, or the dictionary file could not be stat'd. */
  datatype Failure = LineOutOfRange(line: nat) | LoadFailed(error: LoadError)

  /** The cache after the request, and the entries offered or the failure. */
  datatype Response = Response(cache: Cache, outcome: Result<seq<Entry>, Failure>)

  /** The prefix of the first line that names the dictionary file. */
  const Directive: string := "# vscode_properties_completion_proposals="

  // ---------------------------------------------------------------------
  // Ordering

  /** Ascending by key, each key at most the next. */
  predicate Sorted(s: seq<Entry>) {
    forall i :: 0 < i < |s| ==> LexLessEq(s[i - 1].key, s[i].key)
  }

  /** Ascending by key, any key at most every later one. */
  predicate SortedPairwise(s: seq<Entry>) {
    forall i, j :: 0 <= i < j < |s| ==> LexLessEq(s[i].key, s[j].key)
  }

  /** Adjacent order gives the order of every pair, as the order is
      transitive. */
  lemma {:induction false} SortedAllPairs(s: seq<Entry>)
    requires Sorted(s)
    ensures SortedPairwise(s)
    decreases |s|
  {
    if |s| > 1 {
      var t := s[1..];
      SortedTail(s);
      SortedAllPairs(t);
      forall i, j | 0 <= i < j < |s|
        ensures LexLessEq(s[i].key, s[j].key)
      {
        if i > 0 {
          assert s[i] == t[i - 1] && s[j] == t[j - 1];
        } else if j > 1 {
          assert LexLessEq(s[0].key, s[1].key);
          assert s[1] == t[0] && s[j] == t[j - 1];
          LexTransitive(s[0].key, s[1].key, s[j].key);
        }
      }
    }
  }

  /** An entry whose key is at most the first key of a sorted sequence
      can be put in front of it. */
  lemma SortedCons(x: Entry, s: seq<Entry>)
    requires Sorted(s) && (|s| == 0 || LexLessEq(x.key, s[0].key))
    ensures Sorted([x] + s)
  {
    var r := [x] + s;
    forall i | 1 < i < |r|
      ensures LexLessEq(r[i - 1].key, r[i].key)
    {
      assert r[i - 1] == s[i - 2] && r[i] == s[i - 1];
    }
  }

  /** What follows the first entry of a sorted sequence is sorted. */
  lemma SortedTail(s: seq<Entry>)
    requires Sorted(s) && |s| > 0
    ensures Sorted(s[1..])
  {
    var t := s[1..];
    forall i | 0 < i < |t|
      ensures LexLessEq(t[i - 1].key, t[i].key)
    {
      assert t[i - 1] == s[i] && t[i] == s[i + 1];
    }
  }

  /** `x` inserted into the sorted `s` before the first entry whose key is
      not below `x`'s. */
  function Insert(x: Entry, s: seq<Entry>): (r: seq<Entry>)
    requires Sorted(s)
    ensures Sorted(r)
    ensures multiset(r) == multiset(s) + multiset{x}
    ensures r[0] == x || (|s| > 0 && r[0] == s[0])
    decreases |s|
  {
    if |s| == 0 || LexLessEq(x.key, s[0].key) then
      SortedCons(x, s);
      [x] + s
    else
      LexTotal(x.key, s[0].key);
      SortedTail(s);
      var rest := Insert(x, s[1..]);
      assert |s| > 1 ==> s[1] == s[1..][0];
      SortedCons(s[0], rest);
      assert s == [s[0]] + s[1..];
      [s[0]] + rest
  }

  /** Insertion sort: the entries in ascending order of key, every one
      kept exactly as often as it occurs. */
  function Sort(s: seq<Entry>): (r: seq<Entry>)
    ensures Sorted(r)
    ensures multiset(r) == multiset(s)
    decreases |s|
  {
    if |s| == 0 then []
    else
      assert s == [s[0]] + s[1..];
      Insert(s[0], Sort(s[1..]))
  }

  // ---------------------------------------------------------------------
  // Filtering

  /** The entries whose key contains `prefix`, in their original order:
      each entry is kept exactly as often as it occurs when it matches, and
      dropped otherwise. */
  function Filter(items: seq<Entry>, prefix: string): (r: seq<Entry>)
    ensures forall e :: multiset(r)[e] == if Contains(e.key, prefix) then multiset(items)[e] else 0
    ensures forall i :: 0 <= i < |r| ==> Contains(r[i].key, prefix)
    decreases |items|
  {
    if |items| == 0 then []
    else
      var rest := Filter(items[1..], prefix);
      assert items == [items[0]] + items[1..];
      if Contains(items[0].key, prefix) then [items[0]] + rest else rest
  }

  /** The answer of a query over `items`: the matching entries, sorted,
      each exactly as often as it occurs in `items`. */
  ghost predicate Answers(r: seq<Entry>, items: seq<Entry>, prefix: string) {
    SortedPairwise(r)
    && forall e :: multiset(r)[e] == if Contains(e.key, prefix) then multiset(items)[e] else 0
  }

  /** The filtered and sorted entries answer the query. */
  lemma SortFilterAnswers(items: seq<Entry>, prefix: string)
    ensures Answers(Sort(Filter(items, prefix)), items, prefix)
  {
    SortedAllPairs(Sort(Filter(items, prefix)));
  }

  /** An empty prefix matches every key: the answer is all the entries. */
  lemma EmptyPrefixMatchesAll(items: seq<Entry>)
    ensures Filter(items, "") == items
  {
    forall i | 0 <= i < |items|
      ensures Contains(items[i].key, "")
    {
      assert OccursAt(items[i].key, "", 0);
    }
    FilterKeepsAll(items, "");
  }

  /** When every key matches, filtering keeps every entry in place. */
  lemma {:induction false} FilterKeepsAll(items: seq<Entry>, prefix: string)
    requires forall i :: 0 <= i < |items| ==> Contains(items[i].key, prefix)
    ensures Filter(items, prefix) == items
    decreases |items|
  {
    if |items| > 0 {
      FilterKeepsAll(items[1..], prefix);
      assert items == [items[0]] + items[1..];
    }
  }

  // ---------------------------------------------------------------------
  // The request

  /** The text of the line up to the cursor: `slice(0, character)`, which
      stops at the end of the line. */
  function LinePrefix(line: string, character: nat): (r: string)
    ensures r <= line
    ensures |r| == if character <= |line| then character else |line|
  {
    Slice(line, character)
  }

  /** The context guard: inside a comment, or after the `=` of a key (an
      `=` at index 0 does not count), no keys are offered. */
  predicate Declined(prefix: string) {
    StartsWith(prefix, "#") || IndexOf(prefix, '=') > 0
  }

  /** The dictionary path named by the first line: the text after the
      directive, trimmed; none when the line is empty or lacks the
      directive. */
  function DirectivePath(prolog: string): (r: Option<string>)
    ensures r.Some? <==> Directive <= prolog
    ensures r.Some? ==> IsTrimmed(r.value) && |r.value| <= |prolog| - |Directive|
    ensures r.Some? ==> exists a, b :: AllWhitespace(a) && AllWhitespace(b)
                                       && prolog == Directive + a + r.value + b
  {
    if |prolog| == 0 || !StartsWith(prolog, Directive) then None
    else
      AfterPrefixPadded(Directive, prolog);
      Some(Trim(prolog[|Directive|..]))
  }

  /** A completion request. */
  function Provide(cache: Cache, fs: FileSystem, doc: Document, pos: Position): (r: Response)
    ensures pos.line >= |doc.lines| <==> r.outcome == Err(LineOutOfRange(pos.line))
    ensures pos.line < |doc.lines| && Declined(LinePrefix(doc.lines[pos.line], pos.character))
            ==> r == Response(cache, Ok([]))
    ensures pos.line < |doc.lines| && !(Directive <= doc.lines[0])
            ==> r == Response(cache, Ok([]))
    ensures r.outcome.Err? ==> r.cache == cache
    ensures r.outcome.Ok? && |r.outcome.value| > 0
            ==> pos.line < |doc.lines| && !Declined(LinePrefix(doc.lines[pos.line], pos.character))
                && Directive <= doc.lines[0]
    ensures pos.line < |doc.lines| && !Declined(LinePrefix(doc.lines[pos.line], pos.character))
            && Directive <= doc.lines[0]
            ==> var prefix := LinePrefix(doc.lines[pos.line], pos.character);
                var lookup := Refresh(cache, fs, Trim(doc.lines[0][|Directive|..]));
                && (lookup.Err? ==> r == Response(cache, Err(LoadFailed(lookup.error))))
                && (lookup.Ok? ==> r.cache == lookup.value.cache && r.outcome.Ok?
                                   && Answers(r.outcome.value, lookup.value.items, prefix))
  {
    if pos.line >= |doc.lines| then Response(cache, Err(LineOutOfRange(pos.line)))
    else
      var prefix := LinePrefix(doc.lines[pos.line], pos.character);
      if Declined(prefix) then Response(cache, Ok([]))
      else
        match DirectivePath(doc.lines[0])
        case None => Response(cache, Ok([]))
        case Some(path) =>
          match Refresh(cache, fs, path)
          case Err(e) => Response(cache, Err(LoadFailed(e)))
          case Ok(lookup) =>
            SortFilterAnswers(lookup.items, prefix);
            Response(lookup.cache, Ok(Sort(Filter(lookup.items, prefix))))
  }

  /** On a coherent cache, a request that gets past the guard and names a
      dictionary file that can be stat'd is answered with exactly the
      entries of that file's current text whose key contains the line
      prefix, sorted; the cache stays coherent. A file that cannot be
      stat'd fails the request and leaves the cache as it was. */
  lemma ProvideAnswers(cache: Cache, fs: FileSystem, doc: Document, pos: Position)
    requires Coherent(cache, fs)
    requires pos.line < |doc.lines|
    requires !Declined(LinePrefix(doc.lines[pos.line], pos.character))
    requires Directive <= doc.lines[0]
    ensures var path := Trim(doc.lines[0][|Directive|..]);
            var prefix := LinePrefix(doc.lines[pos.line], pos.character);
            var r := Provide(cache, fs, doc, pos);
            && (path !in fs ==> r == Response(cache, Err(LoadFailed(StatFailed(path)))))
            && (path in fs ==> r.outcome.Ok?
                               && Answers(r.outcome.value, Parse(fs[path].content), prefix)
                               && Coherent(r.cache, fs))
  {
    var path := Trim(doc.lines[0][|Directive|..]);
    var prefix := LinePrefix(doc.lines[pos.line], pos.character);
    RefreshServesCurrent(cache, fs, path);
    var lookup := Refresh(cache, fs, path);
    if lookup.Ok? {
      SortFilterAnswers(lookup.value.items, prefix);
    }
  }
}
