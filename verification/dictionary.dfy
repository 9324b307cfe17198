/**
  The dictionary parser of the completion provider (`loadCompletions` in
  src/completion.ts) as a pure fold over the lines of the dictionary text.

  The fold carries the two accumulators of the source, the open key and the
  description gathered so far, and the entries emitted so far. A line is a
  separator (starts with `#` or is blank), a continuation of the open key,
  or the opening `key=value` line of a new entry; a trailing backslash keeps
  an entry open. Two quirks of the source are kept as written: the opening
  line tests its UNTRIMMED value for the backslash while a continuation
  tests the trimmed line, and a whitespace-only key whose value ends in a
  backslash opens no entry but leaves its value in the description
  accumulator. That text stays there until the next flush: it prefixes the
  next entry's detail, unless an opening line with a blank key and no
  trailing backslash flushes it away first.
 */
module Dictionary {
  import opened Text

  /** One completion proposal: the label offered and its detail text. */
  datatype Entry = Entry(key: string, detail: string)

  /** The fold's state: `key` is the open key ("" when none is open), `desc`
      the description accumulated so far, `out` the entries emitted. */
  datatype Parser = Parser(key: string, desc: string, out: seq<Entry>)

  const Start: Parser := Parser("", "", [])

  /** The shape of every emitted entry: a non-empty key with no whitespace
      at either end and no `=` in it, and a trimmed detail. */
  predicate WellFormed(e: Entry) {
    |e.key| > 0 && IsTrimmed(e.key) && '=' !in e.key && IsTrimmed(e.detail)
  }

  predicate AllWellFormed(es: seq<Entry>) {
    forall i :: 0 <= i < |es| ==> WellFormed(es[i])
  }

  /** The open key, when there is one, is trimmed and free of `=`. */
  predicate KeyShape(p: Parser) {
    IsTrimmed(p.key) && '=' !in p.key
  }

  /** A comment line (`#` at column 0) or a blank line. */
  predicate IsSeparatorLine(line: string) {
    StartsWith(line, "#") || |Trim(line)| == 0
  }

  /** The inner `flush`: emits the open key, trimmed, with the trimmed
      description when the key is not empty, and clears both accumulators. */
  function Flush(p: Parser): (r: Parser)
    requires KeyShape(p)
    ensures r.key == "" && r.desc == ""
    ensures |p.key| == 0 ==> r.out == p.out
    ensures |p.key| > 0 ==> r.out == p.out + [Entry(p.key, Trim(p.desc))]
    ensures AllWellFormed(p.out) ==> AllWellFormed(r.out)
  {
    TrimTrimmed(p.key);
    var key := Trim(p.key);
    if |key| > 0 then Parser("", "", p.out + [Entry(key, Trim(p.desc))])
    else Parser("", "", p.out)
  }

  /** The text before the first `=` of a line, when that `=` is past index
      0, trimmed: the key such a line opens. */
  function KeyOf(line: string, sep: int): (k: string)
    requires 0 < sep < |line| && line[sep] == '=' && '=' !in line[..sep]
    ensures IsTrimmed(k) && '=' !in k
  {
    TrimKeepsOut(line[..sep], '=');
    Trim(line[..sep])
  }

  /** One iteration of the loop over the lines. The result only ever
      appends to `out`, and at most one entry. */
  function Step(p: Parser, line: string): (r: Parser)
    requires KeyShape(p)
    ensures KeyShape(r)
    ensures p.out <= r.out && |r.out| <= |p.out| + 1
    ensures AllWellFormed(p.out) ==> AllWellFormed(r.out)
  {
    if IsSeparatorLine(line) then
      if p.key != "" then Flush(p) else p
    else if p.key != "" then
      var appended := Trim(line);
      if EndsWith(appended, '\\') then
        p.(desc := p.desc + " " + Trim(appended[..|appended| - 1]))
      else
        Flush(p.(desc := p.desc + " " + appended))
    else
      var sep := IndexOf(line, '=');
      if sep > 0 then
        var key := KeyOf(line, sep);
        var value := line[sep + 1..];
        if EndsWith(value, '\\') then
          p.(key := key, desc := p.desc + Trim(value[..|value| - 1]))
        else
          Flush(p.(key := key, desc := p.desc + value))
      else
        p
  }

  /** The loop over all lines, from a given state. */
  function Run(p: Parser, lines: seq<string>): (r: Parser)
    requires KeyShape(p)
    ensures KeyShape(r)
    ensures p.out <= r.out
    ensures AllWellFormed(p.out) ==> AllWellFormed(r.out)
    decreases |lines|
  {
    if |lines| == 0 then p
    else
      Run(Step(p, lines[0]), lines[1..])
  }

  /** The whole parser over a sequence of lines: the loop and the final
      flush. Every entry it emits is well-formed. */
  function ParseLines(lines: seq<string>): (es: seq<Entry>)
    ensures AllWellFormed(es)
  {
    Flush(Run(Start, lines)).out
  }

  /** `loadCompletions` on the text of a dictionary file, split on line
      feeds as `text.split('\n')` does. */
  function Parse(text: string): (es: seq<Entry>)
    ensures AllWellFormed(es)
  {
    ParseLines(Split(text, '\n'))
  }

  /** Parsing a text made of lines joined by line feeds is parsing those
      lines. */
  lemma ParseJoined(lines: seq<string>)
    requires |lines| >= 1
    requires forall i :: 0 <= i < |lines| ==> '\n' !in lines[i]
    ensures Parse(Join(lines, '\n')) == ParseLines(lines)
  {
    SplitJoin(lines, '\n');
  }

  // ---------------------------------------------------------------------
  // The branches of one step

  /** With no key open, a separator line or a line with no `=` past index 0
      (none at all, or the first one at index 0) changes nothing. */
  lemma LineWithoutKeyIgnored(p: Parser, line: string)
    requires KeyShape(p) && p.key == ""
    requires '=' !in line || line[0] == '=' || (|line| > 0 && line[0] == '#') || AllWhitespace(line)
    ensures Step(p, line) == p
  {
  }

  /** A separator line closes the open entry and emits it. */
  lemma SeparatorCloses(p: Parser, line: string)
    requires KeyShape(p) && p.key != ""
    requires (|line| > 0 && line[0] == '#') || AllWhitespace(line)
    ensures Step(p, line) == Parser("", "", p.out + [Entry(p.key, Trim(p.desc))])
  {
    assert IsSeparatorLine(line) by {
      if |line| > 0 && line[0] == '#' {
        assert line[..1] == "#";
      }
    }
  }

  /** The facts about a line `k=v` with `=` absent from a non-empty `k` that
      does not start with `#`: it is no separator, and its first `=` sits
      right after `k`. */
  lemma OpeningLine(k: string, v: string)
    requires '=' !in k && |k| > 0 && k[0] != '#'
    ensures !IsSeparatorLine(k + "=" + v)
    ensures IndexOf(k + "=" + v, '=') == |k|
    ensures (k + "=" + v)[..|k|] == k && (k + "=" + v)[|k| + 1..] == v
  {
    var line := k + "=" + v;
    IndexOfAfterPrefix(k, '=', v);
    assert line[|k|] == '=';
    assert !AllWhitespace(line);
    assert line[..|k|] == k;
  }

  /** Only the first `=` splits an opening line: the key is the trimmed text
      before it, and all the text after it, further `=` included, is the
      value. Without a trailing backslash the entry is emitted at once,
      after whatever the description accumulator already held. */
  lemma FirstEqualsSplits(p: Parser, k: string, v: string)
    requires KeyShape(p) && p.key == ""
    requires '=' !in k && |Trim(k)| > 0 && k[0] != '#'
    requires !EndsWith(v, '\\')
    ensures Step(p, k + "=" + v) == Parser("", "", p.out + [Entry(Trim(k), Trim(p.desc + v))])
  {
    OpeningLine(k, v);
    var q := p.(key := Trim(k), desc := p.desc + v);
    assert Step(p, k + "=" + v) == Flush(q);
  }

  /** An opening line whose value ends in a backslash opens its key (when
      the key is not blank) and appends the trimmed value, backslash
      dropped, to the description accumulator; nothing is emitted. */
  lemma OpeningContinues(p: Parser, k: string, v: string)
    requires KeyShape(p) && p.key == ""
    requires '=' !in k && |k| > 0 && k[0] != '#'
    ensures Step(p, k + "=" + v + "\\") == p.(key := Trim(k), desc := p.desc + Trim(v))
  {
    BackslashValue(k, v);
    OpeningLine(k, v + "\\");
  }

  /** The line `k=v\` as the key, the `=` and the value `v\`. Like the
      other sequence identities in a lemma of their own, this keeps the
      proof that uses it small. */
  lemma BackslashValue(k: string, v: string)
    ensures k + "=" + v + "\\" == k + "=" + (v + "\\")
    ensures (v + "\\")[..|v|] == v
  {
  }

  /** A line that is neither blank nor a comment, read while a key is open,
      is appended after one space; without a trailing backslash on the
      trimmed line the entry is then emitted. */
  lemma ContinuationCloses(p: Parser, c: string)
    requires KeyShape(p) && p.key != ""
    requires |c| > 0 && c[0] != '#' && !AllWhitespace(c)
    requires !EndsWith(Trim(c), '\\')
    ensures Step(p, c) == Parser("", "", p.out + [Entry(p.key, Trim(p.desc + " " + Trim(c)))])
  {
    assert !StartsWith(c, "#");
  }

  /** A continuation line whose trimmed text ends in a backslash keeps the
      entry open: its trimmed text, backslash dropped and trimmed again, is
      appended after one space. */
  lemma ContinuationContinues(p: Parser, c: string)
    requires KeyShape(p) && p.key != ""
    requires |c| > 0 && c[0] != '#' && !AllWhitespace(c)
    requires EndsWith(Trim(c), '\\')
    ensures Step(p, c) == p.(desc := p.desc + " " + Trim(Trim(c)[..|Trim(c)| - 1]))
  {
    assert !IsSeparatorLine(c) by {
      assert !StartsWith(c, "#");
    }
  }

  /** The loop from line `pos` on is one step followed by the loop from
      the next line on. */
  lemma RunFrom(p: Parser, lines: seq<string>, pos: nat)
    requires KeyShape(p) && pos < |lines|
    ensures Run(p, lines[pos..]) == Run(Step(p, lines[pos]), lines[pos + 1..])
  {
    assert lines[pos..][0] == lines[pos] && lines[pos..][1..] == lines[pos + 1..];
  }

  lemma RunTwo(p: Parser, a: string, b: string)
    requires KeyShape(p)
    ensures Run(p, [a, b]) == Step(Step(p, a), b)
  {
    RunFrom(p, [a, b], 0);
    assert [a, b][1..] == [b];
    RunFrom(Step(p, a), [b], 0);
    assert [b][1..] == [];
    assert [a, b][0..] == [a, b];
    assert [b][0..] == [b];
  }

  /** The loop over one more line is the loop, then one step. */
  lemma {:induction false} RunSnoc(p: Parser, lines: seq<string>, x: string)
    requires KeyShape(p)
    ensures Run(p, lines + [x]) == Step(Run(p, lines), x)
    decreases |lines|
  {
    if |lines| == 0 {
      assert lines + [x] == [x];
      RunFrom(p, [x], 0);
      assert [x][0..] == [x] && [x][1..] == [];
    } else {
      var all := lines + [x];
      RunFrom(p, all, 0);
      assert all[0..] == all && all[0] == lines[0] && all[1..] == lines[1..] + [x];
      RunSnoc(Step(p, lines[0]), lines[1..], x);
    }
  }

  /** The final flush: an entry whose value still ends in a backslash on the
      last line is open when the input ends, and the flush after the loop
      emits it with the description gathered so far. */
  lemma OpenAtEndEmitted(lines: seq<string>, k: string, v: string)
    requires Run(Start, lines).key == ""
    requires '=' !in k && |Trim(k)| > 0 && k[0] != '#'
    ensures ParseLines(lines + [k + "=" + v + "\\"])
         == Run(Start, lines).out + [Entry(Trim(k), Trim(Run(Start, lines).desc + Trim(v)))]
  {
    var p := Run(Start, lines);
    RunSnoc(Start, lines, k + "=" + v + "\\");
    OpeningContinues(p, k, v);
  }

  /** A value ending in a backslash keeps the entry open; the next line that
      is neither blank nor a comment is appended after a single space with
      the backslash removed, and when it does not end in a backslash itself
      the entry is emitted with the two fragments joined by that space. */
  lemma ContinuationJoins(p: Parser, k: string, v: string, c: string)
    requires KeyShape(p) && p.key == "" && p.desc == ""
    requires '=' !in k && |Trim(k)| > 0 && k[0] != '#'
    requires |c| > 0 && c[0] != '#' && !AllWhitespace(c)
    requires !EndsWith(Trim(c), '\\')
    ensures Run(p, [k + "=" + v + "\\", c]).out
         == p.out + [Entry(Trim(k), if |Trim(v)| == 0 then Trim(c) else Trim(v) + " " + Trim(c))]
  {
    RunTwo(p, k + "=" + v + "\\", c);
    OpeningContinues(p, k, v);
    var q := p.(key := Trim(k), desc := Trim(v));
    EmptyPrefix(Trim(v));
    ContinuationCloses(q, c);
    TrimJoin(Trim(v), Trim(c));
  }

  /** An empty accumulator adds nothing in front (a sequence identity kept
      apart so that `ContinuationJoins` stays small). */
  lemma EmptyPrefix(s: string)
    ensures "" + s == s
  {
  }

  /** The quirk of a whitespace-only key: its backslash-continued value is
      left in the description accumulator, no entry is opened, and when the
      next line opens a non-blank key that entry's detail starts with that
      text. */
  lemma BlankKeyLeaks(p: Parser, blank: string, v: string, k: string, w: string)
    requires KeyShape(p) && p.key == ""
    requires '=' !in blank && |blank| > 0 && AllWhitespace(blank)
    requires '=' !in k && |Trim(k)| > 0 && k[0] != '#'
    requires !EndsWith(w, '\\')
    ensures var q := Step(p, blank + "=" + v + "\\");
            && q == p.(desc := p.desc + Trim(v))
            && Step(q, k + "=" + w) == Parser("", "", p.out + [Entry(Trim(k), Trim(p.desc + Trim(v) + w))])
  {
    assert blank[0] != '#' by {
      assert IsWhitespace(blank[0]);
    }
    OpeningContinues(p, blank, v);
    var q := p.(desc := p.desc + Trim(v));
    FirstEqualsSplits(q, k, w);
  }

  /** A whitespace-only key whose value has no trailing backslash opens
      nothing and emits nothing, but still flushes: whatever the description
      accumulator held is dropped. */
  lemma BlankKeyClears(p: Parser, blank: string, w: string)
    requires KeyShape(p) && p.key == ""
    requires '=' !in blank && |blank| > 0 && AllWhitespace(blank)
    requires !EndsWith(w, '\\')
    ensures Step(p, blank + "=" + w) == Parser("", "", p.out)
  {
    assert blank[0] != '#' by {
      assert IsWhitespace(blank[0]);
    }
    OpeningLine(blank, w);
  }

  // ---------------------------------------------------------------------
  // Re-serialising entries as plain key=value lines

  /** An entry that survives being written back as one `key=value` line:
      its key does not begin with `#` (the line would be a comment) and its
      detail does not end with a backslash (the line would stay open). */
  predicate Serializable(e: Entry) {
    && WellFormed(e)
    && e.key[0] != '#'
    && !EndsWith(e.detail, '\\')
    && '\n' !in e.key && '\n' !in e.detail
  }

  function SerializeLines(es: seq<Entry>): (lines: seq<string>)
    ensures |lines| == |es|
  {
    if |es| == 0 then [] else [es[0].key + "=" + es[0].detail] + SerializeLines(es[1..])
  }

  /** The dictionary text with one `key=value` line per entry. */
  function Serialize(es: seq<Entry>): string {
    if |es| == 0 then "" else Join(SerializeLines(es), '\n')
  }

  /** The line written for a serialisable entry parses back to it. */
  lemma SerializedLine(out: seq<Entry>, e: Entry)
    requires Serializable(e)
    ensures Step(Parser("", "", out), e.key + "=" + e.detail) == Parser("", "", out + [e])
  {
    TrimTrimmed(e.key);
    TrimTrimmed(e.detail);
    assert "" + e.detail == e.detail;
    FirstEqualsSplits(Parser("", "", out), e.key, e.detail);
  }

  lemma {:induction false} RunSerialized(out: seq<Entry>, es: seq<Entry>)
    requires forall i :: 0 <= i < |es| ==> Serializable(es[i])
    ensures Run(Parser("", "", out), SerializeLines(es)) == Parser("", "", out + es)
    decreases |es|
  {
    if |es| == 0 {
      assert out + es == out;
    } else {
      var e := es[0];
      var p := Parser("", "", out);
      var lines := SerializeLines(es);
      calc {
        Run(p, lines);
      == { RunFrom(p, lines, 0); assert lines[0..] == lines; }
        Run(Step(p, lines[0]), lines[1..]);
      == { assert lines[0] == e.key + "=" + e.detail; SerializedLine(out, e); }
        Run(Parser("", "", out + [e]), lines[1..]);
      == { assert lines[1..] == SerializeLines(es[1..]); RunSerialized(out + [e], es[1..]); }
        Parser("", "", out + [e] + es[1..]);
      == { assert out + [e] + es[1..] == out + es; }
        Parser("", "", out + es);
      }
    }
  }

  lemma {:induction false} SerializedLinesOneLine(es: seq<Entry>)
    requires forall i :: 0 <= i < |es| ==> Serializable(es[i])
    ensures forall i :: 0 <= i < |es| ==> '\n' !in SerializeLines(es)[i]
    decreases |es|
  {
    if |es| > 0 {
      SerializedLinesOneLine(es[1..]);
      var lines := SerializeLines(es);
      assert lines[0] == es[0].key + "=" + es[0].detail;
      assert forall i :: 1 <= i < |es| ==> lines[i] == SerializeLines(es[1..])[i - 1];
    }
  }

  /** Parsing the plain re-serialisation of serialisable entries gives the
      same entries back, keys, details and order. */
  lemma ParseSerialize(es: seq<Entry>)
    requires forall i :: 0 <= i < |es| ==> Serializable(es[i])
    ensures Parse(Serialize(es)) == es
  {
    if |es| == 0 {
      assert Split("", '\n') == [""];
      assert AllWhitespace("");
    } else {
      var lines := SerializeLines(es);
      SerializedLinesOneLine(es);
      SplitJoin(lines, '\n');
      RunSerialized([], es);
      assert [] + es == es;
    }
  }
}
