# Properties completion: a Dafny model

This project models the completion provider of a VS Code extension for Java
`.properties` files (`src/completion.ts`). The first line of an edited
document may name a dictionary file with the directive
`# vscode_properties_completion_proposals=<path>`. When the user asks for
completions on a key, the provider does four things:

- it parses the dictionary file into (key, detail) entries;
- it caches the parse per path, re-parsing only when the file's
  modification time changes;
- it offers every entry whose key contains the text before the cursor;
- it returns those entries sorted by key.

The model is pure. The process-wide cache and the file system are values
passed in, and the cache as it stands after a request is returned with the
answer.

Modules:

- `Results` holds the `Result` and `Option` types.
- `Text` holds the JavaScript string operations the code relies on: `trim`
  with the ECMAScript whitespace set, `indexOf`, `startsWith`, `endsWith`,
  `slice` and `split`. Each comes with the property that pins it down. The
  code never joins strings; `Join` is the model's inverse of `split`, used
  to state and prove what `split` does. It also holds the code-point order standing in for `localeCompare`.
- `Dictionary` holds `loadCompletions` and its inner `flush`. The loop is a
  fold whose state is the open key, the description accumulator and the
  entries emitted so far. The module also has one lemma per branch of the
  loop body, and the round trip through plain `key=value` lines.
- `DictionaryOrder` proves two facts about the parser's output. Entries come
  out in the order of the lines that opened them, and there are never more
  entries than lines.
- `DictionaryRewrite` proves that no parsed entry holds a line feed, and
  that a parsed dictionary written back as `key=value` lines parses to the
  same entries.
- `DictionaryCases` covers concrete dictionaries: small sample dictionaries
  and the quirks of the parser.
- `Freshness` holds the `cachedKeys` reload rule, and the invariant that the
  cache agrees with the file system.
- `Completion` holds `provideCompletionItems`: the context guard, the
  directive, the substring filter and the sort.
- `CompletionCases` holds a concrete query.

Behaviours of the code worth knowing, and the members that state them:

- **Substring matching.** The filter matches keys anywhere, by substring,
  so for the prefix `a` the key `beta` is offered too, between `alpha` and
  `gamma` (`CompletionCases.SubstringQuery`).
- **Failing to stat the file.** When `statSync` fails, the exception leaves
  `provideCompletionItems`; nothing catches it and turns it into an empty
  list. The model returns `Err(LoadFailed(StatFailed(path)))` with the
  cache unchanged (`Completion.Provide`, `Completion.ProvideAnswers`).
- **Trimming of description fragments.** Not every fragment is trimmed:
  - The value on an opening line is appended untrimmed when it has no
    trailing backslash, and only the whole description is trimmed when the
    entry is emitted.
  - The opening line tests its untrimmed value for the backslash, while a
    continuation line is trimmed before the test
    (`DictionaryCases.OpeningBackslashUntrimmed`,
    `DictionaryCases.ContinuationBackslashTrimmed`).
- **A blank key.** A line whose key is whitespace only opens no entry. When
  its value ends in a backslash, the value stays in the description
  accumulator until the next flush. It prefixes the next entry's detail
  (`DictionaryCases.LeakingDescription`), unless a blank-key line without
  a trailing backslash flushes it away first
  (`DictionaryCases.LeakFlushed`).
- **Writing entries back.** Parsing a dictionary, writing its entries back
  as one `key=value` line each and parsing again gives the same entries
  when no key begins with `#` and no detail ends in a backslash. A
  key can begin with `#` when its line is indented; written back, that
  line is a comment. A detail can end in a backslash; written back, that
  line stays open. The round trip is proved for entries free of both
  (`Dictionary.ParseSerialize`, and for a parsed text
  `DictionaryRewrite.ParseRewrite`), and the `#` case is shown to fail
  (`DictionaryCases.HashKeyLostOnRewrite`).
- **An `=` at index 0.** The context guard declines a prefix only for an
  `=` past index 0, so a prefix such as `=a`, whose only `=` is its first
  character, is still completed (`CompletionCases.LeadingEqualsCompleted`).
- **An open entry at the end.** An entry whose last line ends in a
  backslash is still open when the text ends; the flush after the loop
  emits it (`Dictionary.OpenAtEndEmitted`, `DictionaryCases.OpenAtEnd`).

## Model

| member | source | states |
|---|---|---|
| Text.Trim | src/completion.ts:38 | `trim()` leaves no whitespace (ECMAScript WhiteSpace and LineTerminator) at either end, and gives the empty string exactly when the input is all whitespace |
| Text.TrimDecompose | src/completion.ts:38 | every string is its trim with whitespace on both sides |
| Text.TrimOfPadded | src/completion.ts:38 | a trimmed string with whitespace on both sides trims back to itself, so `trim()` is fully determined |
| Text.AfterPrefixPadded | src/completion.ts:80 | a line starting with a prefix is that prefix, then the trim of the rest with whitespace on both sides |
| Text.IndexOf | src/completion.ts:46 | `indexOf('=')` is -1 exactly when there is no `=`, and otherwise the index of the first `=` |
| Text.IndexOfSubstring | src/completion.ts:96 | `indexOf(prefix)` is the first index where the prefix occurs, and -1 exactly when it occurs nowhere |
| Text.Slice | src/completion.ts:68 | `slice(0, n)` is a prefix of the line, of length `n` clamped to the line's length |
| Text.Split | src/completion.ts:12 | `split('\n')` gives at least one part, no part holds a line feed, and joining the parts with line feeds gives the text back |
| Text.SplitJoin | src/completion.ts:12 | splitting a line-feed join of line-feed-free lines gives those lines back |
| Text.LexTotal | src/completion.ts:97 | any two keys are comparable by the order that replaces `localeCompare` |
| Text.LexTransitive | src/completion.ts:97 | that order is transitive |
| Text.LexAntisymmetric | src/completion.ts:97 | keys equal in that order are the same key |
| Dictionary.Flush | src/completion.ts:18-27 | `flush` emits one entry (the trimmed key with the trimmed description) exactly when the key is not blank, and clears both accumulators |
| Dictionary.Step | src/completion.ts:31-57 | one iteration keeps the open key trimmed and free of `=`, only appends to the output, at most one entry, and emits only well-formed entries |
| Dictionary.Run | src/completion.ts:30-58 | the loop only appends to the output and keeps every emitted entry well-formed |
| Dictionary.ParseLines | src/completion.ts:30-61 | every entry of the result has a non-empty trimmed key without `=`, and a trimmed detail |
| Dictionary.Parse | src/completion.ts:10-62 | every entry `loadCompletions` yields for a text has a non-empty trimmed key without `=` and a trimmed detail |
| Dictionary.RunSnoc | src/completion.ts:30-58 | the loop over one more line is the loop, then one more iteration |
| Dictionary.OpenAtEndEmitted | src/completion.ts:48-59 | an entry opened by a last line whose value ends in a backslash is emitted by the final flush, with the trimmed key and the trimmed accumulated description |
| Dictionary.ParseJoined | src/completion.ts:12 | parsing lines joined by line feeds is parsing those lines |
| Dictionary.LineWithoutKeyIgnored | src/completion.ts:32-47 | with no key open, a line starting with `#`, a blank line, or a line without `=` past index 0 changes nothing |
| Dictionary.SeparatorCloses | src/completion.ts:32-35 | a `#` line or a blank line emits the open entry and clears the state |
| Dictionary.OpeningLine | src/completion.ts:46-49 | the first `=` of `k=v` (with `k` free of `=`) sits right after `k`, and such a line is no separator |
| Dictionary.FirstEqualsSplits | src/completion.ts:46-55 | only the first `=` splits; without a trailing backslash the entry is emitted with the accumulator's text and the value as its detail |
| Dictionary.OpeningContinues | src/completion.ts:46-51 | a value ending in a backslash opens the key and appends the trimmed value, backslash dropped, without emitting |
| Dictionary.ContinuationCloses | src/completion.ts:36-44 | while a key is open, a line is appended after one space, and without a trailing backslash the entry is emitted |
| Dictionary.ContinuationContinues | src/completion.ts:36-40 | a continuation ending in a backslash appends its trimmed text, backslash dropped and trimmed again, after one space and keeps the entry open |
| Dictionary.ContinuationJoins | src/completion.ts:36-55 | `k=v\` followed by a line `c` gives one entry whose detail is the two trimmed fragments joined by one space |
| Dictionary.BlankKeyLeaks | src/completion.ts:46-54 | a whitespace-only key with a continued value opens nothing, and its value stays in the accumulator; when the next line opens a non-blank key, the value prefixes that entry's detail |
| Dictionary.BlankKeyClears | src/completion.ts:46-55 | a whitespace-only key whose value has no trailing backslash opens and emits nothing, and the flush it calls empties the description accumulator, dropping any text left there |
| Dictionary.ParseSerialize | src/completion.ts:30-61 | parsing the `key=value` lines of entries whose keys do not start with `#` and whose details do not end in a backslash gives the same entries, in the same order |
| DictionaryRewrite.StepOneLine | src/completion.ts:31-57 | an iteration over a line without a line feed adds no line feed to the key, the description or the entries |
| DictionaryRewrite.RunOneLine | src/completion.ts:30-58 | the loop over lines without line feeds adds none |
| DictionaryRewrite.ParseOneLine | src/completion.ts:10-62 | no key or detail `loadCompletions` emits holds a line feed |
| DictionaryRewrite.ParseRewrite | src/completion.ts:10-62 | when no parsed key starts with `#` and no parsed detail ends in a backslash, writing the parsed entries back as `key=value` lines and parsing again gives the same entries, in the same order |
| DictionaryOrder.StepTraced | src/completion.ts:31-57 | each iteration keeps the ordering invariant: emitted entries are traced to earlier opening lines, and the open key to its own opening line |
| DictionaryOrder.RunTraced | src/completion.ts:30-59 | the ordering invariant holds through the loop and the final flush |
| DictionaryOrder.OpeningLines | src/completion.ts:30-61 | each entry is traced to a distinct line that opens its key, and these lines increase along the entries |
| DictionaryOrder.LinesBoundEntries | src/completion.ts:30-61 | a dictionary never yields more entries than it has lines |
| DictionaryCases.SingleEntry | src/completion.ts:10-62 | `a=1` followed by a line feed parses to the one entry `(a, 1)` |
| DictionaryCases.OpenAtEnd | src/completion.ts:48-59 | `a=1\` with no line after it parses to `(a, 1)` |
| DictionaryCases.ContinuedEntry | src/completion.ts:36-44 | `a=1\`, a line feed, `more` and a line feed parse to the one entry `(a, 1 more)` |
| DictionaryCases.CommentsAndBlanks | src/completion.ts:32-35 | a comment and a blank line around `a=1` and `b=2` give the two entries in line order |
| DictionaryCases.ValueWithoutKey | src/completion.ts:47 | `=novalue`, whose `=` is at index 0, gives no entry |
| DictionaryCases.LeakingDescription | src/completion.ts:48-53 | ` =x\` then `a=1` gives the entry `(a, x1)` |
| DictionaryCases.LeakFlushed | src/completion.ts:46-55 | ` =x\`, ` =y`, then `a=1` gives the entry `(a, 1)`: the blank-key line ` =y` flushes the leaked `x` away |
| DictionaryCases.OpeningBackslashUntrimmed | src/completion.ts:49-50 | `a=1\ ` (a space after the backslash) is emitted at once as `(a, 1\)`, and `b=2` is an entry of its own |
| DictionaryCases.ContinuationBackslashTrimmed | src/completion.ts:38-40 | `more\ ` on a continuation line keeps the entry open |
| DictionaryCases.IndentedHashKey | src/completion.ts:48 | ` #x=1` opens a key that begins with `#` |
| DictionaryCases.HashKeyLostOnRewrite | src/completion.ts:32 | that entry written back as `#x=1` is read as a comment and lost |
| Freshness.Refresh | src/completion.ts:83-91 | a missing file fails, the cache unchanged; otherwise the file is re-parsed exactly when there is no record or the recorded time differs, the record then holds the current time, and no other path's record changes |
| Freshness.EmptyCoherent | src/completion.ts:6-8 | the initially empty cache agrees with any file system |
| Freshness.RefreshServesCurrent | src/completion.ts:83-91 | on a cache that agrees with the file system, a lookup serves the parse of the file's current text and the cache keeps agreeing |
| Freshness.WriteKeepsCoherent | src/completion.ts:85 | a write that changes the file's modification time keeps the cache in agreement |
| Freshness.RefreshTwiceLoadsOnce | src/completion.ts:83-91 | two lookups with no change in between parse the file at most once |
| Freshness.TouchReloads | src/completion.ts:85-90 | a new modification time forces a re-parse |
| Freshness.SameTimestampServesOld | src/completion.ts:85 | a write that keeps the modification time is not seen, and the old entries are served |
| Completion.Insert | src/completion.ts:97 | inserting into a sorted sequence keeps it sorted and adds exactly that entry |
| Completion.Sort | src/completion.ts:97 | the result is sorted by key and is a permutation of the input |
| Completion.SortedAllPairs | src/completion.ts:97 | in a sorted result every key is at most every later key |
| Completion.Filter | src/completion.ts:96 | an entry is kept, as often as it occurs, exactly when its key contains the prefix |
| Completion.SortFilterAnswers | src/completion.ts:94-97 | the filtered and sorted entries are ordered by key and are exactly the matching entries, with their multiplicities |
| Completion.EmptyPrefixMatchesAll | src/completion.ts:96 | at the start of a line every entry is offered |
| Completion.FilterKeepsAll | src/completion.ts:96 | when every key matches, filtering changes nothing |
| Completion.LinePrefix | src/completion.ts:68 | the line prefix is the line cut at the cursor column, clamped to the line's length |
| Completion.DirectivePath | src/completion.ts:75-80 | there is a path exactly when the first line starts with the directive; the path is trimmed, and the first line is the directive, then whitespace, the path and whitespace |
| Completion.Provide | src/completion.ts:65-98 | a line the document lacks is an error; a prefix starting with `#` or having `=` past index 0 gets no entries, and so does a first line without the directive, both with the cache unchanged; a failure leaves the cache unchanged; entries are offered only when both guards pass; past both guards, a failed lookup of the named path fails the request with the cache unchanged, and a successful one returns the cache the lookup left and exactly the looked-up entries whose key contains the prefix, sorted |
| Completion.ProvideAnswers | src/completion.ts:68-97 | past the guards, with a cache that agrees with the file system, the answer is exactly the matching entries of the file's current text, sorted, and the cache keeps agreeing; a missing file fails without touching the cache |
| CompletionCases.LeadingEqualsCompleted | src/completion.ts:69 | the prefix `=a` is not declined by the context guard |
| CompletionCases.SubstringQuery | src/completion.ts:94-97 | for the prefix `a`, the keys `alpha`, `beta` and `gamma` are all offered, in that order |

## Left out

- File input and output. `readFileSync` and `statSync` become a map from
  path to modification time and text. A read that fails after a successful
  stat is not modelled.
- Text decoding. UTF-8 decoding is not modelled: the text is a sequence of
  characters.
- Completion.LinePrefix: strings are sequences of Unicode code points, and
  the cursor column counts code points. JavaScript strings and the editor's
  column count UTF-16 code units. So before a character outside the Basic
  Multilingual Plane the two differ, and `slice` can cut a surrogate pair
  in half; that is not modelled.
- The VS Code types. `CompletionItem` becomes `(key, detail)`. The item
  kind (`Keyword`) is the same for every item and is left out. The
  cancellation token is unused by the source and is left out as well.
- `lineAt` on a line the document lacks throws; it is modelled as the
  `LineOutOfRange` failure. A document always has a first line, so
  `lineAt(0)` only fails when the request's own line does.
- `extension.ts`, which registers the provider, is not part of this model.
- The code reads dictionaries from local files only; there are no remote
  dictionaries and no directive suggestion for an empty document, so the
  model has none either.
- Concurrency. The source is synchronous, so no interleaving is modelled.
- Completion.Sort: `localeCompare` is replaced by code-point order, so
  locale-specific collation is not modelled. Only sortedness and the
  permutation are stated. That the sort is stable (equal keys keep their
  order) is not stated.
- Dictionary.ParseSerialize: the round trip is stated only for entries
  whose keys do not begin with `#` and whose details do not end in a
  backslash. Other entries do not survive being written back
  (`DictionaryCases.HashKeyLostOnRewrite`).
- DictionaryRewrite.ParseRewrite: the round trip for a parsed text has the
  same two side conditions, for the same reason.
- Freshness.Refresh: modification times are whole milliseconds
  (`getTime()`), compared with `!=` as integers. Timestamp resolution and
  clock behaviour are not modelled.
