# Git repository URL resolver (Helm `internal/gitutil`)

A Dafny model of the part of Helm's git chart getter that decides what a chart
reference means. It covers two functions:

- `IsGitRepository` decides whether a reference such as `git://host/repo` or
  `git+https://host/repo` is a git repository URL. It is the anchored regular
  expression `^git(\+\w+)?://`, where `\w` is RE2's ASCII word class `[0-9A-Za-z_]`.
- `ParseGitRepositoryURL` removes one leading `git+` marker and parses the rest as a
  URL. It refuses a URL that carries credentials. Otherwise it returns a record
  holding the caller's string verbatim and the parsed remote URL.

Modules:

- `Wrappers` (`wrappers.dfy`): `Option`, and `Result` in place of Go's
  `(value, error)` pairs.
- `NetUrl` (`neturl.dfy`): a subset of the fields of Go's `url.URL` record; the resolver reads only `User`. `User` is an
  `Option<Userinfo>`, standing for the nil-able `*url.Userinfo`.
- `GitUtil` (`gitutil.dfy`): the classifier and the parser.

The regular expression is written as an explicit recogniser, with no regex engine.
`MatchEnd` returns where the match ends, or `None`. `IsGitRepository` holds when
`MatchEnd` returns a value. The partner definition is `InPattern`, the regex's
language stated declaratively. `RegexMatches` says some prefix of the string is in
that language. The two are proved equal for all strings.

The URL parser `giturls.Parse` belongs to a foreign library. The model takes it as a
function parameter `parse: string -> Result<Url, string>`, which returns a URL or an
error message. Rendering a URL back to text (`url.URL.String()`) is foreign too. It
appears only in the two parser-test lemmas, as a parameter `render`. Those lemmas
state their assumption about `render` as an explicit `requires`.

## Model

| member | source | states |
|---|---|---|
| `GitUtil.WordRun` | internal/gitutil/gitutil.go:31 | the length of the longest run of `\w` characters at a position: all of them are word characters, and the next character, if any, is not |
| `GitUtil.MatchEnd` | internal/gitutil/gitutil.go:31 | when the recogniser reports a match ending at `m`, the prefix of length `m` is in the language of `git(\+\w+)?://` |
| `GitUtil.MatchEndComplete` | internal/gitutil/gitutil.go:31 | every prefix in the pattern's language is found: the recogniser reports exactly that prefix's end |
| `GitUtil.MatchEndDecidesRegex` | internal/gitutil/gitutil.go:31 | the recogniser reports a match if and only if the anchored regex matches, i.e. some prefix of the string is in the pattern's language |
| `GitUtil.IsGitRepository` | internal/gitutil/gitutil.go:57-60 | `IsGitRepository(s)` holds if and only if the anchored regex `^git(\+\w+)?://` matches `s` (`RegexMatches`), in both directions |
| `GitUtil.MatchedPrefixUnique` | internal/gitutil/gitutil.go:31 | at most one prefix of a string is in the pattern's language |
| `GitUtil.AcceptedExtends` | internal/gitutil/gitutil.go:31 | the match is anchored at the start only: if `s` is accepted, `s + t` is accepted for every `t`, with the same match |
| `GitUtil.MatchedPrefixDecides` | internal/gitutil/gitutil.go:31 | for an accepted string, the matched prefix is accepted, no shorter prefix is accepted, and the matched prefix followed by anything is accepted |
| `GitUtil.GitSchemeAccepted` | internal/gitutil/gitutil.go:31 | every string beginning with `git://` is accepted |
| `GitUtil.GitPlusSchemeAccepted` | internal/gitutil/gitutil.go:31 | every string beginning with `git+`, one or more word characters and `://` is accepted |
| `GitUtil.NotGitPrefixRejected` | internal/gitutil/gitutil.go:31 | a string that does not begin with `git` is rejected |
| `GitUtil.EmptySchemeRejected` | internal/gitutil/gitutil.go:31 | `git+://…` is rejected: `\+\w+` needs at least one word character |
| `GitUtil.NonWordInSchemeRejected` | internal/gitutil/gitutil.go:31 | after `git+` and a run of word characters, a non-word character that does not begin `://` causes rejection |
| `GitUtil.MalformedSchemesRejected` | internal/gitutil/gitutil.go:31 | `git+://x` and `git+a-b://` are both rejected |
| `GitUtil.OciReferenceRejected` | internal/gitutil/gitutil_test.go:29 | `oci://example.com/example/chart` is not a git repository URL |
| `GitUtil.GitReferenceAccepted` | internal/gitutil/gitutil_test.go:30 | `git://example.com/example/chart` is a git repository URL |
| `GitUtil.GitHttpsReferenceAccepted` | internal/gitutil/gitutil_test.go:31 | `git+https://example.com/example/chart` is a git repository URL |
| `GitUtil.ParseGitRepositoryURL` | internal/gitutil/gitutil.go:63-78 | a success keeps the caller's string and yields a well-formed record: no credentials, and its remote URL is the parse of its own string with the marker removed. The result is an error exactly when the parser fails or the URL carries credentials |
| `GitUtil.TrimPrefix` | internal/gitutil/gitutil.go:64 | Go's `strings.TrimPrefix`: when `s` begins with the prefix, prefix followed by the result gives back `s`; otherwise the result is `s` itself |
| `GitUtil.ParserInput` | internal/gitutil/gitutil.go:64 | the parser's input is the reference minus one leading `git+`: the reference equals the marker (when present) followed by the parser's input |
| `GitUtil.ParserInputStripsOneMarker` | internal/gitutil/gitutil.go:64 | for `git+` followed by `t`, the parser receives exactly `t`, even when `t` itself begins with `git+` |
| `GitUtil.ParserInputUnmarked` | internal/gitutil/gitutil.go:64 | a reference without a leading `git+` reaches the parser unchanged |
| `GitUtil.ParserInputDoubleMarker` | internal/gitutil/gitutil.go:64 | `git+git+x` is handed to the parser as `git+x` |
| `GitUtil.ClassifiedParserInputHasScheme` | internal/gitutil/gitutil.go:58-64 | for an accepted reference, the parser's input begins with a non-empty word-character scheme and `://`. For `git://…` that scheme is the 3 characters `git`. For any other accepted reference it is the `m - 7` characters between `git+` and the matched `://`, where `m` is the match end |
| `GitUtil.OriginalStringPreserved` | internal/gitutil/gitutil.go:74-76 | on success, `RepositoryURL` is the caller's string verbatim, `git+` marker included |
| `GitUtil.ParseErrorPropagated` | internal/gitutil/gitutil.go:66-68 | a parser error is returned unchanged as `ParseFailed`, its `Message` is the parser's own text, and no record is returned |
| `GitUtil.CredentialsRejected` | internal/gitutil/gitutil.go:70-72 | a parsed URL with a `User` part gives the distinct `CredentialsNotAllowed` error, whose `Message` is the credential-helper text, and no record is returned |
| `GitUtil.WellFormedRoundTrip` | internal/gitutil/gitutil.go:63-78 | every well-formed record is exactly what parsing its own `RepositoryURL` returns; with `ParseGitRepositoryURL`'s contract, the successful results are exactly the well-formed records |
| `GitUtil.GitReferenceParsed` | internal/gitutil/gitutil_test.go:48-52 | if the parser accepts `git://example.com/example/chart` without credentials and renders it back, the record keeps the reference and its remote URL renders as the reference |
| `GitUtil.GitHttpsReferenceParsed` | internal/gitutil/gitutil_test.go:53-57 | if the parser accepts `https://example.com/example/chart` without credentials and renders it back, the record keeps `git+https://…` verbatim and its remote URL renders as `https://example.com/example/chart` |

## Left out

- `HasGitReference` (internal/gitutil/gitutil.go:39-55): it makes a temporary directory, clones over the network and asks the clone about a ref. It is I/O and foreign calls only.
- The internals of `giturls.Parse` and of `url.URL.String()`: they belong to a foreign library. The parser is a function parameter. Rendering appears only in the expectation of internal/gitutil/gitutil_test.go:65, and those two lemmas take it as a hypothesis.
- `GitUtil.GitReferenceParsed`, `GitUtil.GitHttpsReferenceParsed`: weaker than the Go test, because they assume the foreign parser succeeds on the example URLs and renders them back. The Go test relies on the real library for this.
- `pkg/getter/gitgetter.go` (the fetcher): temporary directories, `MkdirAll`, the VCS client and the chart loader and saver are all I/O or foreign calls. Its one pure check, that an empty version is refused, is not modelled. It calls `gitutil.RepositoryURLToGitURL` (pkg/getter/gitgetter.go:50). `internal/gitutil/gitutil.go` at this revision defines no such function, so the getter calls neither `IsGitRepository` nor `ParseGitRepositoryURL`.
- Extracting a subpath from the reference: the code has no such step. `ParseGitRepositoryURL` returns only the original string and the parsed URL.
- Path-traversal safety when joining the chart name to the scratch directory: the code uses a plain `filepath.Join` with no check, so there is no guarantee to prove.
- Byte strings: Go strings are byte sequences, and one that is not valid UTF-8 has no Dafny `string` counterpart. The model works on characters. For valid UTF-8 it gives the same answer, because every character the pattern uses, `\w` included, is ASCII.
- Error values carry text only: a parser error is modelled as its message, and Go's error wrapping and stack traces are not modelled.

## Notes

- `ParseGitRepositoryURL` does not insist that its input was classified first. It strips `git+` whenever it is present and then passes the rest to the parser. `ClassifiedParserInputHasScheme` shows what the parser receives when the input was classified.
