# graphql-search, modelled in Dafny

graphql-search finds the source files that use a GraphQL field path such as
`user.profile.email`. It pulls embedded query snippets out of each file's
text. It parses each snippet and asks whether some operation or fragment
definition selects that chain of field names. It then reports every file with
at least one matching snippet. This project models the analysis in
`src/main.rs`, in five modules, with `Option` in a small module of its own (`options.dfy`):

- `Ast` (`ast.dfy`): the parts of a parsed document the search reads. A
  document holds definitions. A definition is an operation of one of four
  kinds, or a fragment, and has a root selection set. A selection is a
  `Field` (name plus children), an `InlineFragment` (children) or a
  `FragmentSpread` (a fragment name).
- `PathMatcher` (`matcher.dfy`): `field_path_exists` as the mutually
  recursive predicates `FieldPathExists` and `AnyMatches` (the latter is
  `.iter().any(...)`). Its reference semantics is `SelectedPaths`: the set of
  field-name chains a selection selects, skipping inline fragments, with
  spreads contributing nothing. The definition loop of `query_contains_path`
  is the method `DocumentContainsPath`, proved equal to the predicate
  `ContainsPath`. `QueryContainsPath` adds the parse step.
- `Scanner` (`scanner.dfy`): the iteration `captures_iter` performs, for any
  matcher tried at each position. `Scan` tries each position in turn,
  leftmost first. After a match it resumes just past the match's closing
  backtick. Its lemmas are stated once, for every such matcher.
- `Extractor` (`extractor.dfy`): the regular expression
  ``(?:graphql\s*\(|gql\s*)`([\s\S]*?)` `` written out by hand.
  `MatchAt` gives the match starting at one position. `Matches` is `Scan`
  with `MatchAt` as the matcher. `ExtractGraphqlQueries` returns the
  captured texts.
- `Search` (`search.dfy`): `Split` (`str::split('.')`) with its inverse
  `Join`, and the loops of `main`. `FileHasMatch` is the snippet loop with
  its `break`. `FindMatchingFiles` is the file loop that grows
  `matchingFiles`. It is proved equal to the pure filter `Reported`.

Notes on the model:

- The parser is a parameter `parse: string -> Option<Document>`. A parse
  failure (`None`) counts as no match.
- `\s` is the Unicode White_Space property (`IsWhitespace`). The regex crate
  uses that property for `\s` in its default Unicode mode.
- The call form needs its parenthesis right before the opening backtick. So
  the tagged template ``graphql`...` `` is not recognised
  (`Extractor.GraphqlTagIgnored`). A `gql` preceded by other letters
  (``mygql`...` ``) is recognised.
- A path must be non-empty. The source indexes `path[0]` when it reaches a
  field. `Split` always returns at least one piece, so the driver never
  passes an empty path.

## Model

| member | source | states |
|---|---|---|
| `PathMatcher.FieldPathExists` | src/main.rs:14-41 | the recursion of `field_path_exists`; its meaning is stated by `FieldMatchSemantics`, `InlineFragmentTransparent` and `FieldPathExistsIffSelected` |
| `PathMatcher.AnyMatches` | src/main.rs:24-28 | the `.any` over a selection set; its meaning is stated by `AnyMatchesExists` and `AnyMatchesIffSelected` |
| `PathMatcher.AnyMatchesExists` | src/main.rs:24-28 | the `.any` over a selection set holds iff some child matches the path |
| `PathMatcher.AnyMatchesAppend` | src/main.rs:24-28 | the `.any` over two concatenated selection sets is the OR of the two |
| `PathMatcher.FieldMatchSemantics` | src/main.rs:19-33 | a field matches iff its name equals `path[0]` and either the path has one segment (whatever the children, even none) or some child, not necessarily all, matches `path[1..]` |
| `PathMatcher.InlineFragmentTransparent` | src/main.rs:34-38 | an inline fragment matches iff some child matches the same, unadvanced path |
| `PathMatcher.FieldPathExistsIffSelected` | src/main.rs:14-41 | a selection matches a path iff the path is one of the field-name chains it selects, inline fragments skipped and spreads contributing none |
| `PathMatcher.AnyMatchesIffSelected` | src/main.rs:24-28 | a selection set matches a path iff the path is a chain selected by one of its entries |
| `PathMatcher.PrefixMatches` | src/main.rs:20-29 | if a selection matches a path, it matches every non-empty prefix of that path |
| `PathMatcher.AnyPrefixMatches` | src/main.rs:24-28 | the same prefix closure for a whole selection set |
| `PathMatcher.StripSpreads` | src/main.rs:39 | removing fragment spreads at every depth leaves no spread and never lengthens a selection set |
| `PathMatcher.StripSpreadsPreservesMatch` | src/main.rs:39 | fragment spreads never contribute: removing them all never changes whether a path matches |
| `PathMatcher.FlattenInline` | src/main.rs:34-38 | splicing inline fragments into their parents leaves no inline fragment |
| `PathMatcher.FlattenInlinePreservesMatch` | src/main.rs:34-38 | inline fragments consume no segment: flattening them away never changes whether a path matches |
| `PathMatcher.ContainsPath` | src/main.rs:55-109 | whether some definition's root selection set matches the path; the loop `DocumentContainsPath` is proved equal to it, and `ContainsPathIffSelected` states its meaning |
| `PathMatcher.SnippetMatches` | src/main.rs:43-109 | the verdict of `query_contains_path` on one snippet; `QueryContainsPath` is proved equal to it |
| `PathMatcher.DocumentContainsPath` | src/main.rs:55-109 | the definition loop returns true iff some definition's root selection set matches the full path, and false otherwise |
| `PathMatcher.QueryContainsPath` | src/main.rs:43-109 | a snippet that fails to parse gives false; otherwise the result is the document search on the parsed document |
| `PathMatcher.ContainsPathIffSelected` | src/main.rs:55-109 | the document search holds iff some definition selects the path as a field-name chain; a document without definitions never matches |
| `PathMatcher.ContainsPathAppend` | src/main.rs:55-108 | the search over two lists of definitions is the OR of the two searches, so definition order does not matter |
| `PathMatcher.DefinitionKindIrrelevant` | src/main.rs:56-107 | the four operation kinds and fragment definitions are searched alike: swapping a definition for any other with the same root selection set keeps the result |
| `PathMatcher.SpreadNotResolved` | src/main.rs:39 | an operation `{ f { ...n } }` beside `fragment n { body }` matches a path longer than one segment only when `body` itself matches the whole path at its root; the spread is never followed |
| `PathMatcher.NestedFieldsScenario` | src/main.rs:14-41 | `query { user { profile { email } } }` contains `user.profile.email`; the same query with `name` in place of `email` does not |
| `PathMatcher.InlineFragmentScenario` | src/main.rs:34-38 | `query { user { ... on Admin { profile { email } } } }` contains `user.profile.email` |
| `PathMatcher.FragmentSpreadScenario` | src/main.rs:39 | `query { user { ...profileFields } }` does not contain `user.profile.email`, even with `fragment profileFields on User { profile { email } }` in the same document |
| `Extractor.IsWhitespace` | src/main.rs:8 | `\s`, the Unicode White_Space set; `SkipWhitespace` and `MarkerEndShape` are stated with it |
| `Extractor.SkipWhitespace` | src/main.rs:8 | `\s*`: the returned index is the first non-whitespace position at or after the start, with only whitespace skipped |
| `Extractor.CallMarkerEnd` | src/main.rs:8 | the alternative `graphql\s*\(` and the opening backtick; see `CallMarkerShape` and `CallShapeIsMarker` |
| `Extractor.TagMarkerEnd` | src/main.rs:8 | the alternative `gql\s*` and the opening backtick; see `TagMarkerShape` and `TagShapeIsMarker` |
| `Extractor.CallMarkerShape` | src/main.rs:8 | whatever the call alternative accepts is `graphql`, whitespace, `(` and a backtick |
| `Extractor.CallShapeIsMarker` | src/main.rs:8 | `graphql`, whitespace, `(` and a backtick at a position is a marker ending right after that backtick |
| `Extractor.TagMarkerShape` | src/main.rs:8 | whatever the tag alternative accepts is `gql`, whitespace and a backtick |
| `Extractor.TagShapeIsMarker` | src/main.rs:8 | `gql`, whitespace and a backtick at a position is a marker ending right after that backtick, even though the call alternative is tried first |
| `Extractor.MarkerEnd` | src/main.rs:8 | an opening marker (`graphql`, whitespace, `(` and a backtick, or `gql`, whitespace and a backtick) is at least four characters; its only backtick is its last character |
| `Extractor.MarkerEndShape` | src/main.rs:8 | for all texts and positions: the marker at `i` ends at `e` if and only if the text between is `graphql`, whitespace, `(` and a backtick, or `gql`, whitespace and a backtick |
| `Extractor.NextBacktick` | src/main.rs:8 | the lazy capture ends at the first backtick at or after the start; if there is none the result is None |
| `Extractor.MatchAt` | src/main.rs:8 | a match at a position starts with a marker there; its capture lies strictly between the marker's backtick and the next backtick and holds no backtick |
| `Extractor.MatchAtSome` | src/main.rs:8 | a match starts at a position if and only if a marker does and some backtick follows the marker |
| `Scanner.Scan` | src/main.rs:8-9 | the spans of the scan lie within the text, each with its capture after its start |
| `Scanner.ScanOrdered` | src/main.rs:9 | the spans come in order and do not overlap: each starts after the previous closing backtick |
| `Scanner.ScanSound` | src/main.rs:8-9 | every span of the scan is the match reported at its own start |
| `Scanner.ScanComplete` | src/main.rs:9 | no match is skipped: every position with a match lies within a span, at its start or inside a consumed range (leftmost-first, non-overlapping) |
| `Scanner.ScanNothing` | src/main.rs:9 | with no match at any position, the scan yields nothing |
| `Scanner.ScanCountBound` | src/main.rs:9 | the scan finds at most a fifth as many matches as there are positions left |
| `Extractor.Matcher` | src/main.rs:9 | glue only: `MatchAt` tried at each position, in the form `Scanner` takes, meeting `Scanner.IsMatcher`; see `Extractor.Matches` |
| `Extractor.Matches` | src/main.rs:9 | `captures_iter`: the scan of `Scanner` with `MatchAt` as the matcher; see `MatchOfSpan`, `MatchesComplete` and `Scanner.ScanOrdered` |
| `Extractor.MatchOfSpan` | src/main.rs:8-9 | every span of the expression's scan is the match of the expression at its own start |
| `Extractor.MatchesComplete` | src/main.rs:8-9 | every position where the expression matches lies within a span of its scan |
| `Extractor.NoMatchNoSpans` | src/main.rs:9 | where the expression matches at no position, the scan yields nothing |
| `Extractor.ExtractGraphqlQueries` | src/main.rs:7-12 | exactly one snippet per match of the scan |
| `Extractor.SnippetIsCapture` | src/main.rs:8-11 | each snippet comes from the match of the expression at its own start: it is the text between a marker's opening backtick and the next backtick, and holds no backtick |
| `Extractor.SnippetCountBound` | src/main.rs:7-12 | a text of length n yields at most n / 5 snippets |
| `Extractor.NoBacktickNoSnippet` | src/main.rs:8-11 | text with no backtick yields no snippet |
| `Extractor.UnclosedMarkerYieldsNothing` | src/main.rs:8-11 | a marker with no later closing backtick ends the scan: the scan from it is empty, and every span of the extraction from position 0 starts before it |
| `Extractor.TagSnippet` | src/main.rs:8-11 | ``gql`C` `` with no backtick in C yields exactly [C] |
| `Extractor.CallSnippet` | src/main.rs:8-11 | ``graphql W (`C` `` with whitespace W and no backtick in C yields exactly [C] |
| `Extractor.MarkerStartsWithG` | src/main.rs:8 | both alternatives of the marker begin with the letter g |
| `Extractor.GraphqlTagIgnored` | src/main.rs:8 | the tagged template ``graphql`{ a }` `` yields no snippet, because the call form requires `(` |
| `Extractor.SkipWhitespaceOver` | src/main.rs:8 | `\s*` over a whitespace run stops at the first non-whitespace character |
| `Extractor.NextBacktickOver` | src/main.rs:8 | the lazy capture over backtick-free text stops at the next backtick |
| `Search.Split` | src/main.rs:120 | splitting on '.' yields at least one piece, which makes `path[0]` safe, and no piece contains '.' |
| `Search.JoinSplit` | src/main.rs:120 | joining the pieces with '.' gives back the argument |
| `Search.SplitJoin` | src/main.rs:120 | splitting the join of '.'-free pieces gives back those pieces |
| `Search.SplitNoSeparator` | src/main.rs:120 | a string without '.' splits into itself alone |
| `Search.SplitAtSeparator` | src/main.rs:120 | splitting at the first '.' gives the text before it, then the split of the rest |
| `Search.FileMatches` | src/main.rs:130-136 | a file matches when some extracted snippet parses and contains the path; `FileHasMatch` is proved equal to it |
| `Search.Keep` | src/main.rs:129-136 | the per-file verdict `FileMatches` as a predicate on walker entries; `FindMatchingFiles` filters by it |
| `Search.Reported` | src/main.rs:122-138 | the report for some entries is never longer than the list of entries |
| `Search.ReportedAppend` | src/main.rs:124-138 | the report for two runs of entries is the first run's report followed by the second's: input order is kept, and a prefix of the input gives a prefix of the report |
| `Search.ReportedMembership` | src/main.rs:124-138 | a path is reported iff some entry with that path is accepted |
| `Search.ReportedDistinct` | src/main.rs:124-138 | if the walker yields each path once, each file is reported at most once |
| `Search.FileHasMatch` | src/main.rs:130-136 | the snippet loop with its `break` finds a match iff some extracted snippet parses and contains the path; an unparsable snippet does not stop the search |
| `Search.FindMatchingFiles` | src/main.rs:120-138 | the collected files are exactly the filter `Reported` of the entries by "has a matching snippet", with the path from splitting the argument on '.' |

## Left out

- Directory walking, `fs::read_to_string` and `is_file` (src/main.rs:124-129) are filesystem I/O. The walker's output is a given `seq<FileEntry>` of (path, content) pairs. An unreadable file is simply absent from it.
- `env::args`, the usage message and exit (src/main.rs:113-117), `--verbose` detection (src/main.rs:119) and all `eprintln!`/`println!` output (src/main.rs:47-50, 140-142) are console I/O. Verbose mode only logs. The model returns the list of reported paths instead of printing it.
- `graphql_parser::parse_query` is a foreign library. It is the uninterpreted parameter `parse`, and its error text is not modelled.
- The `regex` crate is replaced by the scanner in `Extractor`. Only this one expression is modelled.
- AST details the matcher never reads are not represented: arguments, directives, aliases, type conditions, variable definitions and operation names.
- `PathMatcher.FieldPathExists`: it requires a non-empty path for every kind of selection. The source only indexes the path at a `Field`, but its only caller passes a path that `Split` makes non-empty.
