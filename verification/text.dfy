/**
  The JavaScript string operations the completion provider relies on
  (`trim`, `indexOf`, `startsWith`, `endsWith`, `split`, `slice`), each
  defined over `seq<char>` together with the property that gives it its
  meaning, plus the code-point order used in place of `localeCompare`.
 */
module Text {

  /** The WhiteSpace and LineTerminator code points of ECMAScript, exactly
      the characters `String.prototype.trim` removes. */
  predicate IsWhitespace(c: char) {
    var n := c as int;
    || n == 0x09 || n == 0x0A || n == 0x0B || n == 0x0C || n == 0x0D
    || n == 0x20 || n == 0xA0 || n == 0x1680
    || (0x2000 <= n <= 0x200A)
    || n == 0x2028 || n == 0x2029 || n == 0x202F || n == 0x205F
    || n == 0x3000 || n == 0xFEFF
  }

  predicate AllWhitespace(s: string) {
    forall i :: 0 <= i < |s| ==> IsWhitespace(s[i])
  }

  /** Neither end of `s` is whitespace. */
  predicate IsTrimmed(s: string) {
    |s| == 0 || (!IsWhitespace(s[0]) && !IsWhitespace(s[|s| - 1]))
  }

  /** JavaScript's `s.trim()`: trimmed, and empty exactly when `s` is all
      whitespace. `TrimDecompose` and `TrimOfPadded` characterise it
      completely: the one way of writing `s` as a trimmed part padded with
      whitespace on both sides. */
  function Trim(s: string): (r: string)
    ensures IsTrimmed(r)
    ensures |r| <= |s|
    ensures |r| == 0 <==> AllWhitespace(s)
    decreases |s|
  {
    if |s| == 0 then s
    else if IsWhitespace(s[0]) then
      assert s == [s[0]] + s[1..];
      Trim(s[1..])
    else if IsWhitespace(s[|s| - 1]) then
      assert s[..|s| - 1][0] == s[0];
      Trim(s[..|s| - 1])
    else s
  }

  /** Every string is its trim padded on both sides with whitespace. */
  lemma {:induction false} TrimDecompose(s: string) returns (i: nat, j: nat)
    ensures i <= j <= |s| && s[i..j] == Trim(s)
    ensures AllWhitespace(s[..i]) && AllWhitespace(s[j..])
    decreases |s|
  {
    if |s| == 0 {
      i, j := 0, 0;
    } else if IsWhitespace(s[0]) {
      var t := s[1..];
      var i', j' := TrimDecompose(t);
      DecomposeDropFirst(s, i', j');
      i, j := i' + 1, j' + 1;
    } else if IsWhitespace(s[|s| - 1]) {
      var t := s[..|s| - 1];
      i, j := TrimDecompose(t);
      DecomposeDropLast(s, i, j);
    } else {
      i, j := 0, |s|;
      assert s[..0] == [] && s[|s|..] == [];
    }
  }

  /** A decomposition of `s[1..]` extends to `s` when `s[0]` is whitespace. */
  lemma DecomposeDropFirst(s: string, i: nat, j: nat)
    requires |s| > 0 && IsWhitespace(s[0]) && i <= j <= |s| - 1
    requires AllWhitespace(s[1..][..i]) && AllWhitespace(s[1..][j..])
    ensures s[i + 1..j + 1] == s[1..][i..j]
    ensures AllWhitespace(s[..i + 1]) && AllWhitespace(s[j + 1..])
  {
    assert s[i + 1..j + 1] == s[1..][i..j];
    assert s[..i + 1] == [s[0]] + s[1..][..i];
    assert s[j + 1..] == s[1..][j..];
  }

  /** A decomposition of `s` without its last character extends to `s`
      when that character is whitespace. */
  lemma DecomposeDropLast(s: string, i: nat, j: nat)
    requires |s| > 0 && IsWhitespace(s[|s| - 1]) && i <= j <= |s| - 1
    requires AllWhitespace(s[..|s| - 1][..i]) && AllWhitespace(s[..|s| - 1][j..])
    ensures s[i..j] == s[..|s| - 1][i..j]
    ensures AllWhitespace(s[..i]) && AllWhitespace(s[j..])
  {
    var t := s[..|s| - 1];
    assert s[..i] == t[..i];
    assert s[j..] == t[j..] + [s[|s| - 1]];
  }

  /** A line that starts with `d` is `d`, then the trim of the rest with
      whitespace on both sides. */
  lemma AfterPrefixPadded(d: string, line: string)
    requires d <= line
    ensures exists a, b :: AllWhitespace(a) && AllWhitespace(b)
                           && line == d + a + Trim(line[|d|..]) + b
  {
    var rest := line[|d|..];
    var i, j := TrimDecompose(rest);
    var a, b := rest[..i], rest[j..];
    assert rest == a + rest[i..j] + b;
    assert line == d + rest;
    assert line == d + a + Trim(rest) + b;
  }

  /** Trimming adds no character. */
  lemma TrimKeepsOut(s: string, c: char)
    requires c !in s
    ensures c !in Trim(s)
  {
    var i, j := TrimDecompose(s);
    assert forall k :: 0 <= k < |Trim(s)| ==> Trim(s)[k] == s[i + k];
  }

  /** The trim of a trimmed string padded with whitespace is that string:
      together with `TrimDecompose`, this determines `Trim` uniquely. */
  lemma {:induction false} TrimOfPadded(a: string, m: string, b: string)
    requires AllWhitespace(a) && AllWhitespace(b) && IsTrimmed(m)
    ensures Trim(a + m + b) == m
    decreases |a| + |b|
  {
    if |a| > 0 {
      DropFirstPad(a, m, b);
      TrimOfPadded(a[1..], m, b);
    } else if |m| == 0 {
      assert a + m + b == b;
    } else if |b| > 0 {
      var b' := b[..|b| - 1];
      WhitespaceInit(b);
      DropLastPad(m, b);
      TrimOfPadded([], m, b');
      NoPad(a, m, b);
      NoPad([], m, b');
    } else {
      assert a + m + b == m;
    }
  }

  /** A leading whitespace character is the first one trimmed away. */
  lemma DropFirstPad(a: string, m: string, b: string)
    requires |a| > 0 && AllWhitespace(a) && AllWhitespace(b)
    ensures AllWhitespace(a[1..])
    ensures Trim(a + m + b) == Trim(a[1..] + m + b)
  {
    var s := a + m + b;
    assert s[0] == a[0];
    assert s[1..] == a[1..] + m + b;
  }

  /** Dropping the last character of all-whitespace text leaves it so. */
  lemma WhitespaceInit(b: string)
    requires |b| > 0 && AllWhitespace(b)
    ensures AllWhitespace(b[..|b| - 1])
  {
    var b' := b[..|b| - 1];
    forall i | 0 <= i < |b'|
      ensures IsWhitespace(b'[i])
    {
      assert b'[i] == b[i];
    }
  }

  /** An empty pad adds nothing (a sequence identity kept apart so that
      `TrimOfPadded` stays small). */
  lemma NoPad(a: string, m: string, b: string)
    requires |a| == 0
    ensures a + m + b == m + b
  {
  }

  /** After a non-empty trimmed string, a trailing whitespace character is
      trimmed away. */
  lemma DropLastPad(m: string, b: string)
    requires |m| > 0 && IsTrimmed(m) && |b| > 0 && AllWhitespace(b)
    ensures Trim(m + b) == Trim(m + b[..|b| - 1])
  {
    var s := m + b;
    assert s[0] == m[0];
    assert s[|s| - 1] == b[|b| - 1];
    assert s[..|s| - 1] == m + b[..|b| - 1];
  }

  /** Trimming a trimmed string changes nothing. */
  lemma TrimTrimmed(s: string)
    requires IsTrimmed(s)
    ensures Trim(s) == s
  {
    TrimOfPadded([], s, []);
    assert [] + s + [] == s;
  }

  /** Two trimmed fragments joined by one space trim to themselves, unless
      the first is empty and only the space has to go. */
  lemma TrimJoin(a: string, c: string)
    requires IsTrimmed(a) && IsTrimmed(c) && |c| > 0
    ensures Trim(a + " " + c) == if |a| == 0 then c else a + " " + c
  {
    if |a| == 0 {
      TrimSpaceFirst(a, c);
    } else {
      TrimJoinedTrimmed(a, c);
    }
  }

  /** A leading space is trimmed away. */
  lemma TrimSpaceFirst(a: string, c: string)
    requires |a| == 0 && IsTrimmed(c)
    ensures Trim(a + " " + c) == c
  {
    TrimOfPadded(" ", c, []);
    assert " " + c + [] == a + " " + c;
  }

  /** Two non-empty trimmed fragments joined by a space trim to themselves. */
  lemma TrimJoinedTrimmed(a: string, c: string)
    requires IsTrimmed(a) && IsTrimmed(c) && |a| > 0 && |c| > 0
    ensures Trim(a + " " + c) == a + " " + c
  {
    JoinedTrimmed(a, c);
    TrimTrimmed(a + " " + c);
  }

  /** Two non-empty trimmed fragments joined by a space are trimmed. */
  lemma JoinedTrimmed(a: string, c: string)
    requires IsTrimmed(a) && IsTrimmed(c) && |a| > 0 && |c| > 0
    ensures IsTrimmed(a + " " + c)
  {
    var s := a + " " + c;
    assert s[0] == a[0];
    assert s[|s| - 1] == c[|c| - 1];
  }

  /** JavaScript's `s.indexOf(c)` for a one-character needle: the index of
      the first occurrence of `c`, or -1 when there is none. */
  function IndexOf(s: string, c: char): (r: int)
    ensures -1 <= r < |s|
    ensures r == -1 <==> c !in s
    ensures r >= 0 ==> s[r] == c && c !in s[..r]
    decreases |s|
  {
    if |s| == 0 then -1
    else if s[0] == c then 0
    else
      var k := IndexOf(s[1..], c);
      if k == -1 then -1
      else
        assert s[..k + 1] == [s[0]] + s[1..][..k];
        k + 1
  }

  /** The first occurrence of a character is found behind a prefix free of it. */
  lemma IndexOfAfterPrefix(a: string, c: char, b: string)
    requires c !in a
    ensures IndexOf(a + [c] + b, c) == |a|
  {
    var s := a + [c] + b;
    assert s[|a|] == c;
  }

  predicate StartsWith(s: string, prefix: string) {
    prefix <= s
  }

  predicate EndsWith(s: string, c: char) {
    |s| > 0 && s[|s| - 1] == c
  }

  /** JavaScript's `s.slice(0, n)` for `n >= 0`: an index past the end is
      clamped to the length. */
  function Slice(s: string, n: nat): (r: string)
    ensures r <= s
    ensures |r| == if n <= |s| then n else |s|
  {
    if n <= |s| then s[..n] else s
  }

  /** `sub` occurs in `s` starting at index `i`. */
  predicate OccursAt(s: string, sub: string, i: int) {
    0 <= i && i + |sub| <= |s| && s[i..i + |sub|] == sub
  }

  /** JavaScript's `s.indexOf(sub)` searching from index `from`. */
  function IndexOfFrom(s: string, sub: string, from: nat): (r: int)
    requires from <= |s| + 1
    ensures r == -1 || (from <= r && OccursAt(s, sub, r))
    ensures r == -1 ==> forall i :: from <= i ==> !OccursAt(s, sub, i)
    ensures r >= 0 ==> forall i :: from <= i < r ==> !OccursAt(s, sub, i)
    decreases |s| + 1 - from
  {
    if from + |sub| > |s| then -1
    else if s[from..from + |sub|] == sub then from
    else IndexOfFrom(s, sub, from + 1)
  }

  /** JavaScript's `s.indexOf(sub)`: the first index where `sub` occurs, or
      -1 when it occurs nowhere. */
  function IndexOfSubstring(s: string, sub: string): (r: int)
    ensures r == -1 || OccursAt(s, sub, r)
    ensures r == -1 <==> forall i :: !OccursAt(s, sub, i)
    ensures forall i :: 0 <= i < r ==> !OccursAt(s, sub, i)
  {
    IndexOfFrom(s, sub, 0)
  }

  /** `sub` is a substring of `s`, the test `s.indexOf(sub) >= 0`. */
  predicate Contains(s: string, sub: string) {
    IndexOfSubstring(s, sub) >= 0
  }

  /** JavaScript's `s.split(d)` for a one-character separator: at least one
      part, no part holds the separator, and joining the parts back with the
      separator gives `s` again. */
  function Split(s: string, d: char): (r: seq<string>)
    ensures |r| >= 1
    ensures forall i :: 0 <= i < |r| ==> d !in r[i]
    ensures Join(r, d) == s
    decreases |s|
  {
    var k := IndexOf(s, d);
    if k == -1 then [s]
    else
      var rest := Split(s[k + 1..], d);
      SplitStep(s, k, d, rest);
      [s[..k]] + rest
  }

  /** One more part in front: the text before the separator at `k`. */
  lemma SplitStep(s: string, k: nat, d: char, rest: seq<string>)
    requires k < |s| && s[k] == d && d !in s[..k]
    requires |rest| >= 1 && Join(rest, d) == s[k + 1..]
    requires forall i :: 0 <= i < |rest| ==> d !in rest[i]
    ensures forall i :: 0 <= i < |rest| + 1 ==> d !in ([s[..k]] + rest)[i]
    ensures Join([s[..k]] + rest, d) == s
  {
    var r := [s[..k]] + rest;
    assert r[1..] == rest;
    assert s == s[..k] + [d] + s[k + 1..];
    forall i | 0 < i < |r|
      ensures d !in r[i]
    {
      assert r[i] == rest[i - 1];
    }
  }

  /** JavaScript's `parts.join(d)`. */
  function Join(parts: seq<string>, d: char): string
    requires |parts| >= 1
    decreases |parts|
  {
    if |parts| == 1 then parts[0] else parts[0] + [d] + Join(parts[1..], d)
  }

  /** Splitting at the first separator: a separator-free head, then the
      split of what follows it. */
  lemma SplitCons(a: string, d: char, rest: string)
    requires d !in a
    ensures Split(a + [d] + rest, d) == [a] + Split(rest, d)
  {
    var s := a + [d] + rest;
    IndexOfAfterPrefix(a, d, rest);
    assert s[..|a|] == a && s[|a| + 1..] == rest;
  }

  /** Joining one more part in front. */
  lemma JoinCons(a: string, rest: seq<string>, d: char)
    requires |rest| >= 1
    ensures Join([a] + rest, d) == a + [d] + Join(rest, d)
  {
    assert ([a] + rest)[1..] == rest;
  }

  /** Splitting a join of separator-free parts gives the parts back. */
  lemma {:induction false} SplitJoin(parts: seq<string>, d: char)
    requires |parts| >= 1
    requires forall i :: 0 <= i < |parts| ==> d !in parts[i]
    ensures Split(Join(parts, d), d) == parts
    decreases |parts|
  {
    if |parts| == 1 {
      assert d !in parts[0];
    } else {
      var tail := parts[1..];
      assert forall i :: 0 <= i < |tail| ==> d !in tail[i] by {
        forall i | 0 <= i < |tail| ensures d !in tail[i] {
          assert tail[i] == parts[i + 1];
        }
      }
      SplitJoin(tail, d);
      SplitCons(parts[0], d, Join(tail, d));
      assert parts == [parts[0]] + tail;
    }
  }

  /** Lexicographic order on code points, standing in for `localeCompare`
      as a total order. */
  predicate LexLessEq(a: string, b: string)
    decreases |a|
  {
    |a| == 0 || (|b| > 0 && (a[0] < b[0] || (a[0] == b[0] && LexLessEq(a[1..], b[1..]))))
  }

  lemma {:induction false} LexTotal(a: string, b: string)
    ensures LexLessEq(a, b) || LexLessEq(b, a)
    decreases |a|
  {
    if |a| > 0 && |b| > 0 && a[0] == b[0] {
      LexTotal(a[1..], b[1..]);
    }
  }

  lemma {:induction false} LexTransitive(a: string, b: string, c: string)
    requires LexLessEq(a, b) && LexLessEq(b, c)
    ensures LexLessEq(a, c)
    decreases |a|
  {
    if |a| > 0 && a[0] == b[0] && b[0] == c[0] {
      LexTransitive(a[1..], b[1..], c[1..]);
    }
  }

  lemma {:induction false} LexAntisymmetric(a: string, b: string)
    requires LexLessEq(a, b) && LexLessEq(b, a)
    ensures a == b
    decreases |a|
  {
    if |a| > 0 {
      LexAntisymmetric(a[1..], b[1..]);
      assert a == [a[0]] + a[1..] && b == [b[0]] + b[1..];
    }
  }
}
