/**
  Concrete dictionaries and what the parser makes of them: small sample
  dictionaries, the two quirks of `loadCompletions` kept by the model, and the
  two kinds of entry that do not survive being written back as plain
  `key=value` lines. Each is derived from the general lemmas of
  `Dictionary`, one line at a time. The few lemmas that state only an
  identity between sequence literals keep each step's proof small.
 */
module DictionaryCases {
  import opened Text
  import opened Dictionary

  /** Facts about a one-character key or value that is not whitespace,
      `=`, `#` or a backslash. */
  lemma Plain(k: string)
    requires |k| == 1 && !IsWhitespace(k[0]) && k[0] != '=' && k[0] != '#' && k[0] != '\\'
    ensures '=' !in k && Trim(k) == k && |Trim(k)| > 0 && !EndsWith(k, '\\')
  {
    TrimTrimmed(k);
  }

  /** The loop over a non-empty sequence of lines is one step followed by
      the loop over the rest. */
  lemma RunCons(p: Parser, line: string, rest: seq<string>)
    requires KeyShape(p)
    ensures Run(p, [line] + rest) == Run(Step(p, line), rest)
  {
    var lines := [line] + rest;
    RunFrom(p, lines, 0);
    assert lines[0..] == lines && lines[1..] == rest;
  }

  /** With no key open, a blank line changes nothing. */
  lemma BlankIgnored(p: Parser)
    requires KeyShape(p) && p.key == ""
    ensures Step(p, "") == p
  {
  }

  /** A one-character string that is neither whitespace, `=`, `#` nor a
      backslash. */
  predicate PlainChar(s: string) {
    |s| == 1 && !IsWhitespace(s[0]) && s[0] != '=' && s[0] != '#' && s[0] != '\\'
  }

  // ---------------------------------------------------------------------
  // Single steps, stated for symbolic text

  /** `k=v` with nothing open emits `(k, v)`. */
  lemma OpenPlain(p: Parser, k: string, v: string)
    requires KeyShape(p) && p.key == "" && p.desc == ""
    requires PlainChar(k) && PlainChar(v)
    ensures Step(p, k + "=" + v) == Parser("", "", p.out + [Entry(k, v)])
  {
    Plain(k);
    Plain(v);
    FirstEqualsSplits(p, k, v);
    assert p.desc + v == v;
  }

  /** `k=v\` with nothing open opens `k` with description `v`. */
  lemma OpenPlainContinued(k: string, v: string)
    requires PlainChar(k) && PlainChar(v)
    ensures Step(Start, k + "=" + v + "\\") == Parser(k, v, [])
  {
    Plain(k);
    Plain(v);
    OpeningContinues(Start, k, v);
    assert "" + v == v;
  }

  /** A trimmed line `c` without a trailing backslash, read while a key is
      open, closes the entry with `c` after one space. */
  lemma AppendPlain(p: Parser, c: string)
    requires KeyShape(p) && p.key != "" && |p.desc| > 0 && IsTrimmed(p.desc)
    requires |c| > 0 && IsTrimmed(c) && c[0] != '#' && !EndsWith(c, '\\')
    ensures Step(p, c) == Parser("", "", p.out + [Entry(p.key, p.desc + " " + c)])
  {
    TrimTrimmed(c);
    assert !AllWhitespace(c) by {
      assert !IsWhitespace(c[0]);
    }
    ContinuationCloses(p, c);
    TrimJoin(p.desc, c);
  }

  /** `c\ ` (a space after the backslash), read while a key is open, keeps
      the entry open and appends `c` after one space. */
  lemma KeepOpenSpaced(p: Parser, c: string)
    requires KeyShape(p) && p.key != ""
    requires |c| > 0 && IsTrimmed(c) && c[0] != '#'
    ensures Step(p, c + "\\ ") == p.(desc := p.desc + " " + c)
  {
    TrimBackslashSpace(c);
    assert !AllWhitespace(c + "\\ ") by {
      assert !IsWhitespace((c + "\\ ")[0]);
    }
    var t := c + "\\";
    assert t[..|t| - 1] == c;
    TrimTrimmed(c);
    ContinuationContinues(p, c + "\\ ");
  }

  /** Trimming `c\ ` drops only the space. */
  lemma TrimBackslashSpace(c: string)
    requires |c| > 0 && IsTrimmed(c)
    ensures Trim(c + "\\ ") == c + "\\"
  {
    var t := c + "\\";
    assert IsTrimmed(t) by {
      assert t[0] == c[0];
    }
    assert [] + t + " " == c + "\\ ";
    TrimOfPadded([], t, " ");
  }

  /** `k=v\ ` with nothing open is emitted at once, as `(k, v\)`: the
      opening line tests its untrimmed value for the backslash. */
  lemma OpenSpaced(p: Parser, k: string, v: string)
    requires KeyShape(p) && p.key == "" && p.desc == ""
    requires PlainChar(k) && PlainChar(v)
    ensures Step(p, k + "=" + v + "\\ ") == Parser("", "", p.out + [Entry(k, v + "\\")])
  {
    Plain(k);
    Plain(v);
    var w := v + "\\ ";
    FirstEqualsSplits(p, k, w);
    assert k + "=" + v + "\\ " == k + "=" + w;
    assert p.desc + w == w;
    TrimBackslashSpace(v);
  }

  /** ` =v\` (a whitespace-only key) with nothing open opens no key but
      leaves `v` in the description accumulator. */
  lemma LeakPlain(v: string)
    requires PlainChar(v)
    ensures Step(Start, " =" + v + "\\") == Parser("", v, [])
  {
    Plain(v);
    assert AllWhitespace(" ");
    OpeningContinues(Start, " ", v);
    assert " " + "=" + v + "\\" == " =" + v + "\\";
    assert "" + v == v;
  }

  /** `k=v` read when the accumulator holds `d` but no key is open emits
      `(k, dv)`. */
  lemma OpenAfterLeak(d: string, k: string, v: string)
    requires PlainChar(d) && PlainChar(k) && PlainChar(v)
    ensures Step(Parser("", d, []), k + "=" + v) == Parser("", "", [Entry(k, d + v)])
  {
    Plain(k);
    Plain(v);
    FirstEqualsSplits(Parser("", d, []), k, v);
    var dv := d + v;
    assert dv[0] == d[0] && dv[|dv| - 1] == v[0];
    TrimTrimmed(dv);
  }

  /** ` k=v` (one space of indentation) with nothing open emits `(k, v)`,
      whatever `k` starts with. */
  lemma OpenIndented(p: Parser, k: string, v: string)
    requires KeyShape(p) && p.key == "" && p.desc == ""
    requires |k| > 0 && IsTrimmed(k) && '=' !in k && PlainChar(v)
    ensures Step(p, " " + k + "=" + v) == Parser("", "", p.out + [Entry(k, v)])
  {
    Plain(v);
    assert AllWhitespace(" ");
    TrimOfPadded(" ", k, []);
    assert " " + k + [] == " " + k;
    FirstEqualsSplits(p, " " + k, v);
    assert p.desc + v == v;
  }

  // ---------------------------------------------------------------------
  // The concrete steps of the dictionaries below

  lemma StepA1(p: Parser)
    requires p == Start
    ensures Step(p, "a=1") == Parser("", "", [Entry("a", "1")])
  {
    OpenPlain(p, "a", "1");
    assert "a" + "=" + "1" == "a=1";
  }

  /** `b=2` after one emitted entry `e` emits `(b, 2)` after it. */
  lemma StepB2(e: Entry, p: Parser)
    requires p == Parser("", "", [e])
    ensures Step(p, "b=2") == Parser("", "", [e, Entry("b", "2")])
  {
    OpenPlain(p, "b", "2");
    assert "b" + "=" + "2" == "b=2";
  }

  lemma StepA1Continued(p: Parser)
    requires p == Start
    ensures Step(p, "a=1\\") == Parser("a", "1", [])
  {
    OpenPlainContinued("a", "1");
    assert "a" + "=" + "1" + "\\" == "a=1\\";
  }

  lemma StepMore(p: Parser)
    requires p == Parser("a", "1", [])
    ensures Step(p, "more") == Parser("", "", [Entry("a", "1 more")])
  {
    AppendPlain(p, "more");
    assert "1" + " " + "more" == "1 more";
  }

  lemma StepMoreSpaced(p: Parser)
    requires p == Parser("a", "1", [])
    ensures Step(p, "more\\ ") == Parser("a", "1 more", [])
  {
    assert IsTrimmed("more");
    KeepOpenSpaced(p, "more");
    assert "more" + "\\ " == "more\\ " && "1" + " " + "more" == "1 more";
  }

  lemma StepEnd(p: Parser)
    requires p == Parser("a", "1 more", [])
    ensures Step(p, "end") == Parser("", "", [Entry("a", "1 more end")])
  {
    assert IsTrimmed("1 more") && IsTrimmed("end");
    AppendPlain(p, "end");
    assert "1 more" + " " + "end" == "1 more end";
  }

  lemma StepComment(p: Parser)
    requires p == Start
    ensures Step(p, "# comment") == Start
  {
    assert StartsWith("# comment", "#");
  }

  lemma StepLeak(p: Parser)
    requires p == Start
    ensures Step(p, " =x\\") == Parser("", "x", [])
  {
    LeakPlain("x");
    assert " =" + "x" + "\\" == " =x\\";
  }

  lemma StepAfterLeak(p: Parser)
    requires p == Parser("", "x", [])
    ensures Step(p, "a=1") == Parser("", "", [Entry("a", "x1")])
  {
    OpenAfterLeak("x", "a", "1");
    assert "a" + "=" + "1" == "a=1" && "x" + "1" == "x1";
  }

  lemma StepBlankKeyFlush(p: Parser)
    requires p == Parser("", "x", [])
    ensures Step(p, " =y") == Start
  {
    BlankKeyClears(p, " ", "y");
    assert " " + "=" + "y" == " =y";
  }

  lemma StepSpacedBackslash(p: Parser)
    requires p == Start
    ensures Step(p, "a=1\\ ") == Parser("", "", [Entry("a", "1\\")])
  {
    OpenSpaced(p, "a", "1");
    SpacedBackslashText();
  }

  /** Literal sequence identities, kept apart so that `StepSpacedBackslash`
      stays small. */
  lemma SpacedBackslashText()
    ensures "a" + "=" + "1" + "\\ " == "a=1\\ " && "1" + "\\" == "1\\"
  {
  }

  lemma StepIndentedHash(p: Parser)
    requires p == Start
    ensures Step(p, " #x=1") == Parser("", "", [Entry("#x", "1")])
  {
    assert IsTrimmed("#x") && '=' !in "#x";
    OpenIndented(p, "#x", "1");
    IndentedHashText();
  }

  /** Literal sequence identities, kept apart so that `StepIndentedHash`
      stays small. */
  lemma IndentedHashText()
    ensures " " + "#x" + "=" + "1" == " #x=1"
  {
  }

  lemma SplitEmpty(d: char)
    ensures Split("", d) == [""]
  {
  }

  lemma SplitA1()
    ensures Split("a=1\n", '\n') == ["a=1", ""]
  {
    SplitCons("a=1", '\n', "");
    assert "a=1" + ['\n'] + "" == "a=1\n";
    SplitEmpty('\n');
  }

  /** `l\n` splits into `l` and an empty last part. */
  lemma SplitA1Like(l: string)
    requires '\n' !in l
    ensures Split(l + "\n", '\n') == [l, ""]
  {
    SplitCons(l, '\n', "");
    assert l + ['\n'] + "" == l + "\n";
    SplitEmpty('\n');
  }

  lemma SplitNoValue()
    ensures Split("=novalue\n", '\n') == ["=novalue", ""]
  {
    SplitA1Like("=novalue");
    assert "=novalue" + "\n" == "=novalue\n";
  }

  /** The loop over three lines is three steps. */
  lemma RunThree(p: Parser, a: string, b: string, c: string)
    requires KeyShape(p)
    ensures Run(p, [a, b, c]) == Step(Step(Step(p, a), b), c)
  {
    RunCons(p, a, [b, c]);
    assert [a] + [b, c] == [a, b, c];
    RunTwo(Step(p, a), b, c);
  }

  // ---------------------------------------------------------------------
  // Whole dictionaries

  /** `a=1` alone: one entry `("a", "1")`. */
  lemma SingleEntry()
    ensures Parse("a=1\n") == [Entry("a", "1")]
  {
    SplitA1();
    StepA1(Start);
    BlankIgnored(Parser("", "", [Entry("a", "1")]));
    RunTwo(Start, "a=1", "");
  }

  /** `a=1\` with nothing after it: the key is still open when the text
      ends, and the final flush emits `("a", "1")`. */
  lemma OpenAtEnd()
    ensures Parse("a=1\\") == [Entry("a", "1")]
  {
    assert '\n' !in "a=1\\";
    assert Split("a=1\\", '\n') == ["a=1\\"];
    StepA1Continued(Start);
    RunFrom(Start, ["a=1\\"], 0);
    assert ["a=1\\"][0..] == ["a=1\\"] && ["a=1\\"][1..] == [];
    Plain("1");
  }

  /** `a=1\` then `more`: one entry `("a", "1 more")`. */
  lemma ContinuedEntry()
    ensures Parse("a=1\\\nmore\n") == [Entry("a", "1 more")]
  {
    var lines := ["a=1\\", "more", ""];
    ContinuedText();
    ParseJoined(lines);
    StepA1Continued(Start);
    StepMore(Parser("a", "1", []));
    BlankIgnored(Parser("", "", [Entry("a", "1 more")]));
    RunThree(Start, "a=1\\", "more", "");
  }

  lemma ContinuedText()
    ensures Join(["a=1\\", "more", ""], '\n') == "a=1\\\nmore\n"
  {
    JoinCons("more", [""], '\n');
    JoinCons("a=1\\", ["more", ""], '\n');
    assert ["a=1\\"] + ["more", ""] == ["a=1\\", "more", ""];
    assert ["more"] + [""] == ["more", ""];
  }

  /** A comment and a blank line around `a=1` and `b=2`: two entries, in
      the order of their lines. */
  lemma CommentsAndBlanks()
    ensures Parse("# comment\na=1\n\nb=2\n") == [Entry("a", "1"), Entry("b", "2")]
  {
    CommentsText();
    ParseJoined(["# comment", "a=1", "", "b=2", ""]);
    CommentsLines();
  }

  lemma CommentsLines()
    ensures ParseLines(["# comment", "a=1", "", "b=2", ""]) == [Entry("a", "1"), Entry("b", "2")]
  {
    var one := Parser("", "", [Entry("a", "1")]);
    CommentsFirstTwo(["", "b=2", ""]);
    CommentsSplitLines();
    BlankIgnored(one);
    StepB2(Entry("a", "1"), one);
    BlankIgnored(Parser("", "", [Entry("a", "1"), Entry("b", "2")]));
    RunThree(one, "", "b=2", "");
  }

  /** Literal sequence identities, kept apart so that `CommentsAndBlanks`
      stays small. */
  lemma CommentsSplitLines()
    ensures ["# comment", "a=1"] + ["", "b=2", ""] == ["# comment", "a=1", "", "b=2", ""]
  {
  }

  /** The comment and `a=1`: the loop goes on from one entry. */
  lemma CommentsFirstTwo(rest: seq<string>)
    ensures Run(Start, ["# comment", "a=1"] + rest) == Run(Parser("", "", [Entry("a", "1")]), rest)
  {
    StepComment(Start);
    StepA1(Start);
    RunCons(Start, "# comment", ["a=1"] + rest);
    RunCons(Start, "a=1", rest);
    assert ["# comment"] + (["a=1"] + rest) == ["# comment", "a=1"] + rest;
  }

  lemma CommentsText()
    ensures Join(["# comment", "a=1", "", "b=2", ""], '\n') == "# comment\na=1\n\nb=2\n"
  {
    JoinCons("b=2", [""], '\n');
    JoinCons("", ["b=2", ""], '\n');
    JoinCons("a=1", ["", "b=2", ""], '\n');
    JoinCons("# comment", ["a=1", "", "b=2", ""], '\n');
    assert ["b=2"] + [""] == ["b=2", ""];
    assert [""] + ["b=2", ""] == ["", "b=2", ""];
    assert ["a=1"] + ["", "b=2", ""] == ["a=1", "", "b=2", ""];
    assert ["# comment"] + ["a=1", "", "b=2", ""] == ["# comment", "a=1", "", "b=2", ""];
  }

  /** `=novalue`: the only `=` is at index 0, so nothing is emitted. */
  lemma ValueWithoutKey()
    ensures Parse("=novalue\n") == []
  {
    SplitNoValue();
    LineWithoutKeyIgnored(Start, "=novalue");
    BlankIgnored(Start);
    RunTwo(Start, "=novalue", "");
  }

  /** A whitespace-only key with a continued value opens nothing, and its
      value leaks, without a separating space, into the next entry. */
  lemma LeakingDescription()
    ensures ParseLines([" =x\\", "a=1"]) == [Entry("a", "x1")]
  {
    StepLeak(Start);
    StepAfterLeak(Parser("", "x", []));
    RunTwo(Start, " =x\\", "a=1");
  }

  /** The leaked text lasts only until the next flush: ` =y`, a blank key
      without a trailing backslash, flushes it away, so `a=1` is `(a, 1)`. */
  lemma LeakFlushed()
    ensures ParseLines([" =x\\", " =y", "a=1"]) == [Entry("a", "1")]
  {
    StepLeak(Start);
    StepBlankKeyFlush(Parser("", "x", []));
    StepA1(Start);
    RunThree(Start, " =x\\", " =y", "a=1");
  }

  /** The opening line tests its untrimmed value: `a=1\ ` (a space after
      the backslash) is emitted at once, backslash and all, so `b=2` opens
      an entry of its own. */
  lemma OpeningBackslashUntrimmed()
    ensures ParseLines(["a=1\\ ", "b=2"]) == [Entry("a", "1\\"), Entry("b", "2")]
  {
    StepSpacedBackslash(Start);
    StepB2(Entry("a", "1\\"), Parser("", "", [Entry("a", "1\\")]));
    RunTwo(Start, "a=1\\ ", "b=2");
  }

  /** A continuation line is trimmed before the test: `more\ ` keeps the
      entry open, and `end` is appended to it. */
  lemma ContinuationBackslashTrimmed()
    ensures ParseLines(["a=1\\", "more\\ ", "end"]) == [Entry("a", "1 more end")]
  {
    StepA1Continued(Start);
    StepMoreSpaced(Parser("a", "1", []));
    StepEnd(Parser("a", "1 more", []));
    RunThree(Start, "a=1\\", "more\\ ", "end");
  }

  /** A key can begin with `#` when its line is indented ... */
  lemma IndentedHashKey()
    ensures ParseLines([" #x=1"]) == [Entry("#x", "1")]
  {
    StepIndentedHash(Start);
    RunCons(Start, " #x=1", []);
    assert [" #x=1"] + [] == [" #x=1"];
  }

  /** ... but written back as `#x=1` it is a comment, and is lost. */
  lemma HashKeyLostOnRewrite()
    ensures ParseLines(SerializeLines([Entry("#x", "1")])) == []
  {
    assert SerializeLines([Entry("#x", "1")]) == ["#x" + "=" + "1"];
    assert StartsWith("#x" + "=" + "1", "#");
    RunCons(Start, "#x" + "=" + "1", []);
    assert ["#x" + "=" + "1"] + [] == ["#x" + "=" + "1"];
  }
}
