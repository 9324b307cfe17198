/**
  Writing a parsed dictionary back as plain `key=value` lines: no entry the
  parser emits holds a line feed, so every entry is written on one line,
  and the parse of the rewritten text is the parse of the original text
  whenever no key starts with `#` and no detail ends in a backslash.
 */
module DictionaryRewrite {
  import opened Text
  import opened Dictionary

  /** No key or detail holds a line feed. */
  predicate EntriesOneLine(es: seq<Entry>) {
    forall i :: 0 <= i < |es| ==> '\n' !in es[i].key && '\n' !in es[i].detail
  }

  /** Neither accumulator nor any emitted entry holds a line feed. */
  predicate ParserOneLine(p: Parser) {
    '\n' !in p.key && '\n' !in p.desc && EntriesOneLine(p.out)
  }

  /** A slice holds no character its string does not. */
  lemma SliceKeepsOut(s: string, c: char, i: nat, j: nat)
    requires c !in s && i <= j <= |s|
    ensures c !in s[i..j]
  {
  }

  /** Appending an entry free of line feeds keeps the entries so. */
  lemma AppendOneLine(es: seq<Entry>, e: Entry)
    requires EntriesOneLine(es) && '\n' !in e.key && '\n' !in e.detail
    ensures EntriesOneLine(es + [e])
  {
    var r := es + [e];
    forall i | 0 <= i < |r|
      ensures '\n' !in r[i].key && '\n' !in r[i].detail
    {
      if i < |es| {
        assert r[i] == es[i];
      }
    }
  }

  /** The flush emits no line feed. */
  lemma FlushOneLine(p: Parser)
    requires KeyShape(p) && ParserOneLine(p)
    ensures ParserOneLine(Flush(p))
  {
    if |p.key| > 0 {
      TrimKeepsOut(p.desc, '\n');
      AppendOneLine(p.out, Entry(p.key, Trim(p.desc)));
    }
  }

  /** A line free of line feeds read while a key is open adds none. */
  lemma ContinuationOneLine(p: Parser, line: string)
    requires KeyShape(p) && ParserOneLine(p) && '\n' !in line
    requires !IsSeparatorLine(line) && p.key != ""
    ensures ParserOneLine(Step(p, line))
  {
    var appended := Trim(line);
    TrimKeepsOut(line, '\n');
    if EndsWith(appended, '\\') {
      var piece := appended[..|appended| - 1];
      SliceKeepsOut(appended, '\n', 0, |appended| - 1);
      TrimKeepsOut(piece, '\n');
      assert '\n' !in p.desc + " " + Trim(piece);
    } else {
      var q := p.(desc := p.desc + " " + appended);
      assert ParserOneLine(q);
      FlushOneLine(q);
    }
  }

  /** A line free of line feeds read with no key open adds none. */
  lemma OpeningOneLine(p: Parser, line: string)
    requires KeyShape(p) && ParserOneLine(p) && '\n' !in line
    requires !IsSeparatorLine(line) && p.key == ""
    ensures ParserOneLine(Step(p, line))
  {
    var sep := IndexOf(line, '=');
    if sep > 0 {
      var key := KeyOf(line, sep);
      var value := line[sep + 1..];
      SliceKeepsOut(line, '\n', 0, sep);
      TrimKeepsOut(line[..sep], '\n');
      SliceKeepsOut(line, '\n', sep + 1, |line|);
      if EndsWith(value, '\\') {
        SliceKeepsOut(value, '\n', 0, |value| - 1);
        TrimKeepsOut(value[..|value| - 1], '\n');
        assert '\n' !in p.desc + Trim(value[..|value| - 1]);
      } else {
        var q := p.(key := key, desc := p.desc + value);
        assert ParserOneLine(q);
        FlushOneLine(q);
      }
    }
  }

  /** One step over a line free of line feeds adds none. */
  lemma StepOneLine(p: Parser, line: string)
    requires KeyShape(p) && ParserOneLine(p) && '\n' !in line
    ensures ParserOneLine(Step(p, line))
  {
    if IsSeparatorLine(line) {
      if p.key != "" {
        FlushOneLine(p);
      }
    } else if p.key != "" {
      ContinuationOneLine(p, line);
    } else {
      OpeningOneLine(p, line);
    }
  }

  /** The loop over lines free of line feeds adds none. */
  lemma {:induction false} RunOneLine(p: Parser, lines: seq<string>)
    requires KeyShape(p) && ParserOneLine(p)
    requires forall i :: 0 <= i < |lines| ==> '\n' !in lines[i]
    ensures ParserOneLine(Run(p, lines))
    decreases |lines|
  {
    if |lines| > 0 {
      StepOneLine(p, lines[0]);
      var rest := lines[1..];
      assert forall i :: 0 <= i < |rest| ==> '\n' !in rest[i] by {
        forall i | 0 <= i < |rest|
          ensures '\n' !in rest[i]
        {
          assert rest[i] == lines[i + 1];
        }
      }
      RunOneLine(Step(p, lines[0]), rest);
    }
  }

  /** No key or detail the parser emits holds a line feed. */
  lemma ParseOneLine(text: string)
    ensures EntriesOneLine(Parse(text))
  {
    var lines := Split(text, '\n');
    RunOneLine(Start, lines);
    FlushOneLine(Run(Start, lines));
  }

  /** An entry that a single `key=value` line gives back as it is: its key
      does not start with `#` and its detail does not end in a backslash. */
  predicate Rewritable(e: Entry) {
    !StartsWith(e.key, "#") && !EndsWith(e.detail, '\\')
  }

  /** Parsing a dictionary, writing its entries back one `key=value` line
      each, and parsing again gives the same entries, in the same order,
      when every entry is rewritable. */
  lemma ParseRewrite(text: string)
    requires forall i :: 0 <= i < |Parse(text)| ==> Rewritable(Parse(text)[i])
    ensures Parse(Serialize(Parse(text))) == Parse(text)
  {
    var es := Parse(text);
    ParseOneLine(text);
    forall i | 0 <= i < |es|
      ensures Serializable(es[i])
    {
      var e := es[i];
      assert WellFormed(e);
      assert e.key[0] != '#' by {
        assert [e.key[0]] == e.key[..1];
      }
    }
    ParseSerialize(es);
  }
}
