/**
  Entries come out in the order of their opening lines, at most one per
  line: the proof carries, line by line, a trace assigning each emitted
  entry the line that opened it.
 */
module DictionaryOrder {
  import opened Text
  import opened Dictionary

  /** `line` is an opening line of `key`: it does not start with `#`, and
      its first `=` is past index 0 with `key` the trimmed text before it.
      (Such a line is never blank: it holds an `=`.) */
  predicate Opens(line: string, key: string) {
    var sep := IndexOf(line, '=');
    && sep > 0
    && line[0] != '#'
    && Trim(line[..sep]) == key
  }

  predicate Increasing(idx: seq<nat>) {
    forall i, j :: 0 <= i < j < |idx| ==> idx[i] < idx[j]
  }

  /** `idx` assigns each entry of `es`, in order, a distinct line of `lines`
      that opens its key, the line numbers strictly increasing. */
  predicate Traced(lines: seq<string>, es: seq<Entry>, idx: seq<nat>) {
    && |idx| == |es|
    && Increasing(idx)
    && forall j :: 0 <= j < |idx| ==> idx[j] < |lines| && Opens(lines[idx[j]], es[j].key)
  }

  /** The invariant of the ordering proof at line `pos`: the emitted
      entries are traced to lines before `pos`, and before `op` when a key
      is open, `op` being the line that opened it. */
  predicate TracedUpTo(lines: seq<string>, pos: nat, p: Parser, idx: seq<nat>, op: nat) {
    && pos <= |lines|
    && Traced(lines, p.out, idx)
    && AllBelow(idx, pos)
    && (p.key != "" ==> OpenedBefore(lines, pos, p.key, idx, op))
  }

  /** Every line number in `idx` is below `bound`. */
  predicate AllBelow(idx: seq<nat>, bound: nat) {
    forall j :: 0 <= j < |idx| ==> idx[j] < bound
  }

  /** Line `op`, before `pos` and after every traced line, opens `key`. */
  predicate OpenedBefore(lines: seq<string>, pos: nat, key: string, idx: seq<nat>, op: nat) {
    op < pos <= |lines| && Opens(lines[op], key) && AllBelow(idx, op)
  }

  /** The ordering invariant before line `pos`: the entries emitted so far
      are traced to lines before `pos`, and an open key to a later line. */
  predicate Invariant(lines: seq<string>, pos: nat, p: Parser, idx: seq<nat>, op: nat) {
    KeyShape(p) && TracedUpTo(lines, pos, p, idx, op)
  }

  /** Appending an entry traced to a later line keeps the trace. */
  lemma TracedAppend(lines: seq<string>, es: seq<Entry>, idx: seq<nat>, e: Entry, i: nat)
    requires Traced(lines, es, idx)
    requires forall j :: 0 <= j < |idx| ==> idx[j] < i
    requires i < |lines| && Opens(lines[i], e.key)
    ensures Traced(lines, es + [e], idx + [i])
  {
  }

  /** One step keeps the ordering invariant, moving it to the next line. */
  lemma StepTraced(lines: seq<string>, pos: nat, p: Parser, idx: seq<nat>, op: nat)
    returns (q: Parser, idx': seq<nat>, op': nat)
    requires pos < |lines|
    requires Invariant(lines, pos, p, idx, op)
    ensures q == Step(p, lines[pos])
    ensures Invariant(lines, pos + 1, q, idx', op')
  {
    q := Step(p, lines[pos]);
    if IsSeparatorLine(lines[pos]) {
      idx' := SeparatorTraced(lines, pos, p, idx, op);
      op' := op;
    } else if p.key != "" {
      idx' := ContinuationTraced(lines, pos, p, idx, op);
      op' := op;
    } else {
      idx', op' := OpeningTraced(lines, pos, p, idx, op);
    }
  }

  /** A comment or blank line emits the open key, traced to its opening line. */
  lemma SeparatorTraced(lines: seq<string>, pos: nat, p: Parser, idx: seq<nat>, op: nat)
    returns (idx': seq<nat>)
    requires pos < |lines| && IsSeparatorLine(lines[pos])
    requires Invariant(lines, pos, p, idx, op)
    ensures Invariant(lines, pos + 1, Step(p, lines[pos]), idx', op)
  {
    idx' := idx;
    if p.key != "" {
      assert Step(p, lines[pos]) == Flush(p);
      TracedAppend(lines, p.out, idx, Entry(p.key, Trim(p.desc)), op);
      idx' := idx + [op];
    }
  }

  /** A continuation line either keeps the key open or emits it, traced to
      its opening line. */
  lemma ContinuationTraced(lines: seq<string>, pos: nat, p: Parser, idx: seq<nat>, op: nat)
    returns (idx': seq<nat>)
    requires pos < |lines| && !IsSeparatorLine(lines[pos]) && p.key != ""
    requires Invariant(lines, pos, p, idx, op)
    ensures Invariant(lines, pos + 1, Step(p, lines[pos]), idx', op)
  {
    var line := lines[pos];
    idx' := idx;
    if !EndsWith(Trim(line), '\\') {
      var q := p.(desc := p.desc + " " + Trim(line));
      assert Step(p, line) == Flush(q);
      TracedAppend(lines, p.out, idx, Entry(p.key, Trim(q.desc)), op);
      idx' := idx + [op];
    }
  }

  /** With no key open, a line with an `=` past index 0 opens a key at this
      line, emitted at once unless the value ends in a backslash. */
  lemma OpeningTraced(lines: seq<string>, pos: nat, p: Parser, idx: seq<nat>, op: nat)
    returns (idx': seq<nat>, op': nat)
    requires pos < |lines| && !IsSeparatorLine(lines[pos]) && p.key == ""
    requires Invariant(lines, pos, p, idx, op)
    ensures Invariant(lines, pos + 1, Step(p, lines[pos]), idx', op')
  {
    var line := lines[pos];
    idx', op' := idx, op;
    var sep := IndexOf(line, '=');
    if sep > 0 {
      var key := Trim(line[..sep]);
      var value := line[sep + 1..];
      assert line[0] != '#' by {
        assert !StartsWith(line, "#");
        assert [line[0]] == line[..1];
      }
      assert Opens(line, key);
      if |key| > 0 {
        if EndsWith(value, '\\') {
          op' := pos;
        } else {
          var q := p.(key := key, desc := p.desc + value);
          assert Step(p, line) == Flush(q);
          TracedAppend(lines, p.out, idx, Entry(key, Trim(q.desc)), pos);
          idx' := idx + [pos];
        }
      }
    }
  }

  /** The final flush keeps the trace. */
  lemma FlushTraced(lines: seq<string>, pos: nat, p: Parser, idx: seq<nat>, op: nat)
    returns (idx': seq<nat>)
    requires Invariant(lines, pos, p, idx, op)
    ensures Traced(lines, Flush(p).out, idx')
  {
    if p.key != "" {
      TracedAppend(lines, p.out, idx, Entry(p.key, Trim(p.desc)), op);
      idx' := idx + [op];
    } else {
      idx' := idx;
    }
  }

  /** The ordering invariant carried to the end of the input and through
      the final flush. */
  lemma {:induction false} RunTraced(lines: seq<string>, pos: nat, p: Parser, idx: seq<nat>, op: nat)
    returns (idx': seq<nat>)
    requires Invariant(lines, pos, p, idx, op)
    ensures Traced(lines, Flush(Run(p, lines[pos..])).out, idx')
    decreases |lines| - pos, 1
  {
    if pos == |lines| {
      var flushed := FlushTraced(lines, pos, p, idx, op);
      idx' := TracedEnd(lines, pos, p, flushed);
    } else {
      idx' := RunTracedNext(lines, pos, p, idx, op);
    }
  }

  /** The ordering invariant carried past line `pos`. */
  lemma {:induction false} RunTracedNext(lines: seq<string>, pos: nat, p: Parser, idx: seq<nat>, op: nat)
    returns (idx': seq<nat>)
    requires pos < |lines|
    requires Invariant(lines, pos, p, idx, op)
    ensures Traced(lines, Flush(Run(p, lines[pos..])).out, idx')
    decreases |lines| - pos, 0
  {
    var q, idx2, op2 := StepTraced(lines, pos, p, idx, op);
    var rest := RunTraced(lines, pos + 1, q, idx2, op2);
    idx' := TracedFrom(lines, pos, p, q, rest);
  }

  /** At the end of the input the loop emits nothing more. */
  lemma TracedEnd(lines: seq<string>, pos: nat, p: Parser, idx: seq<nat>)
    returns (idx': seq<nat>)
    requires pos == |lines| && KeyShape(p)
    requires Traced(lines, Flush(p).out, idx)
    ensures Traced(lines, Flush(Run(p, lines[pos..])).out, idx')
  {
    assert lines[pos..] == [];
    idx' := idx;
  }

  /** A trace of what the loop emits from the next line on, after the
      step at line `pos`, is a trace of what it emits from `pos` on. */
  lemma TracedFrom(lines: seq<string>, pos: nat, p: Parser, q: Parser, idx: seq<nat>)
    returns (idx': seq<nat>)
    requires pos < |lines| && KeyShape(p) && q == Step(p, lines[pos])
    requires Traced(lines, Flush(Run(q, lines[pos + 1..])).out, idx)
    ensures Traced(lines, Flush(Run(p, lines[pos..])).out, idx')
  {
    RunFrom(p, lines, pos);
    idx' := idx;
  }

  /** Entries come out in the order of their opening lines: each is traced
      to a distinct line that opens its key, at increasing line numbers. */
  lemma OpeningLines(lines: seq<string>) returns (idx: seq<nat>)
    ensures Traced(lines, ParseLines(lines), idx)
  {
    assert lines[0..] == lines;
    idx := RunTraced(lines, 0, Start, [], 0);
  }

  /** A strictly increasing sequence of numbers below `n` has at most `n`
      elements. */
  lemma {:induction false} IncreasingBound(idx: seq<nat>, n: nat)
    requires Increasing(idx)
    requires forall j :: 0 <= j < |idx| ==> idx[j] < n
    ensures |idx| <= n
    decreases |idx|
  {
    if |idx| > 0 {
      var last := idx[|idx| - 1];
      IncreasingBound(idx[..|idx| - 1], last);
    }
  }

  /** There are never more entries than lines. */
  lemma LinesBoundEntries(lines: seq<string>)
    ensures |ParseLines(lines)| <= |lines|
  {
    var idx := OpeningLines(lines);
    IncreasingBound(idx, |lines|);
  }
}
