# Anchor-tag scanner of crawly

A model, in Dafny, of the link scanner of the crawly web crawler
(`crawl/findlinks.go`):

- `FindLinks(html)` compiles the fixed pattern `<a\s+[^>]*href=[^>]*>`. It
  returns every match that `Regexp.FindAll(b, -1)` finds in the page: the
  raw tag texts, non-overlapping, in page order.
- `CountLinks(html)` returns the number of those matches and a nil error.

The model has three modules.

- `Pattern` (`pattern.dfy`) defines the language of the pattern.
  - `IsAnchorTag` says what a match looks like. It opens with `<a`, then one
    of Go's `\s` characters (tab, newline, form feed, carriage return,
    space). It ends at its first `>`. An `href=` lies wholly between the
    opener and that `>`.
  - `PatternShape` proves `IsAnchorTag` is the same language as the
    pattern read as a concatenation of its parts.
  - `MatchAt` is the one match that can start at a given index. It is found
    by `NextClose` (the first `>`) and `FindHref`.
- `Crawl` (`findlinks.dfy`) holds the scan, `FindLinks` and `CountLinks`.
  - `ScanFrom` performs Go's scan: try the pattern at each index, and after a
    match resume at its end.
  - Its result is specified declaratively by `LeftmostMatches`: sound,
    ordered and covering. `ScanCovers` and `ScanUnique` prove the scan is
    the unique list with those properties.
  - The remaining lemmas cover: the bound by the number of `>` characters,
    splitting a page after a `>`, and pages without an opener or without
    `href=`.
- `LinkExamples` (`examples.dfy`) works out the `TestCountLinks` table of
  `crawl/crawler_test.go`.
  - Each test page is a list of pieces: anchor tags `<a href=ATTRS>` and
    other markup ending in `>`. Joined in order, the pieces spell out the
    test's string.
  - `PageLinks` proves such a page yields exactly its anchor pieces.

Strings are sequences of characters, one character per byte of the page.
Every character of the pattern is ASCII. In UTF-8 a multi-byte character
never contains an ASCII byte, so matching by bytes and matching by
characters find the same tags.

The source as written does not compile, and the model follows what it
evidently computes:

- `CountLinks` calls `c.FindLinks` with no `c` in scope.
- `links := string(matches)` converts a slice of byte slices to a string.
- The loop over `resolveLink` only rebinds its loop variable.

## Model

| member | source | states |
|---|---|---|
| Pattern.PatternShape | crawl/findlinks.go:17 | a text is `<a`, one or more `\s` characters, text without `>`, `href=`, text without `>`, then `>` exactly when it satisfies `IsAnchorTag` |
| Pattern.AnchorFromParts | crawl/findlinks.go:17 | every concatenation of the pattern's parts is a match |
| Pattern.AnchorParts | crawl/findlinks.go:17 | every match splits into the pattern's parts |
| Pattern.NextClose | crawl/findlinks.go:17 | the index of the first `>` at or after `from`, or none when there is no `>` there |
| Pattern.FindHref | crawl/findlinks.go:17 | true exactly when `href=` lies wholly inside `[lo, hi)` |
| Pattern.TagFacts | crawl/findlinks.go:17 | a match at `[i, j)` opens with `<a` and a `\s` character, ends with its only `>`, and holds `href=` at offset 3 or later |
| Pattern.TagFromFacts | crawl/findlinks.go:17 | conversely, those facts make `[i, j)` a match |
| Pattern.FirstCloseUnique | crawl/findlinks.go:17 | two matches starting at the same index end at the same index |
| Pattern.MatchAt | crawl/findlinks.go:17-18 | returns the end of a match starting at `i` when one exists, and that end is the only one possible |
| Crawl.ScanFrom | crawl/findlinks.go:22 | the scan's spans lie after `pos`, are matches, and are disjoint and in page order |
| Crawl.ScanCovers | crawl/findlinks.go:22 | every index where a match could start lies in a span of the scan (leftmost and complete) |
| Crawl.ScanUnique | crawl/findlinks.go:22 | any sound, ordered and covering list of spans equals the scan |
| Crawl.SoundLength | crawl/findlinks.go:22 | a sound, ordered list of spans is no longer than the text left |
| Crawl.Spans | crawl/findlinks.go:22 | the page's spans are sound, ordered and covering |
| Crawl.FindLinks | crawl/findlinks.go:16-28 | one link per span, each link the page's text at that span, and each link a match of the pattern; no error path |
| Crawl.CountLinks | crawl/findlinks.go:8-14 | the error is always nil, the count is the number of links, and it is at most the number of `>` in the page |
| Crawl.ScanBound | crawl/findlinks.go:22 | the scan from `pos` finds at most as many matches as there are `>` after `pos` |
| Crawl.SpansSplit | crawl/findlinks.go:22 | cutting a page after a `>` (or after text without `<`) splits its spans: those of the first part, then those of the second shifted by its length |
| Crawl.FindLinksSplit | crawl/findlinks.go:22-27 | the links of such a cut page are the links of the first part followed by those of the second |
| Crawl.NoOpenerNoLinks | crawl/findlinks.go:17 | a page with no `<a` followed by a `\s` character has no links |
| Crawl.NoHrefNoLinks | crawl/findlinks.go:17 | a page with no `href=` has no links |
| Crawl.OneAnchor | crawl/findlinks.go:22-27 | a page that is one match yields exactly that match |
| LinkExamples.HrefTag | crawl/findlinks.go:17 | `<a href=ATTRS>` with no `>` in ATTRS yields exactly itself |
| LinkExamples.LacksHrefLetter | crawl/findlinks.go:17 | text lacking the `f` or the `=` of `href=` yields no link |
| LinkExamples.PageLinks | crawl/findlinks.go:22-27 | a page of anchor and markup pieces yields exactly its anchor tags, in order |
| LinkExamples.ValidHtmlWithMultipleLinks | crawl/crawler_test.go:84-87 | two links, the two tags in page order; count 2, no error |
| LinkExamples.HtmlWithNoLinks | crawl/crawler_test.go:90-93 | no link; count 0, no error |
| LinkExamples.MalformedHtmlWithOneValidLink | crawl/crawler_test.go:96-99 | the anchor left unclosed still ends at its own `>`; count 2, no error |
| LinkExamples.EmptyHtmlString | crawl/crawler_test.go:102-105 | the empty page: no link; count 0, no error |
| LinkExamples.ValidHtmlWithLinksMissingHref | crawl/crawler_test.go:108-111 | `<a>` and `<a name="anchor">` are not links; count 0, no error |
| LinkExamples.HtmlWithNestedLinks | crawl/crawler_test.go:114-117 | each of the two nested opening tags is a link; count 2, no error |
| LinkExamples.HtmlWithLinksHavingExtraAttributes | crawl/crawler_test.go:120-123 | the extra attribute stays inside the one link; count 1, no error |
| LinkExamples.CapitalOpener | crawl/findlinks.go:17 | `<A` followed by text without `<` has no link: matching is case-sensitive |
| LinkExamples.UpperCaseAnchorIgnored | crawl/findlinks.go:17 | `<A href="https://example.com">` has count 0 |

## Left out

- Compiling the pattern (crawl/findlinks.go:18-21): the pattern is a valid constant, so the error branch cannot be taken. `FindLinks` therefore returns its links without an error value.
- Resolving links (crawl/findlinks.go:24-26): the loop only rebinds its loop variable, so the raw matches are returned unchanged. `resolveLink` is not part of this model.
- The `string(matches)` conversion at crawl/findlinks.go:23: its result is never used.
- The formatted error in `CountLinks` (crawl/findlinks.go:10-12): it is built and discarded, so no error is ever returned.
- Bytes: a page is a sequence of characters standing for its bytes. Go's regexp decodes UTF-8, and this is not modelled. Every character of the pattern is ASCII, so the matches are the same.
- The crawler itself is not part of this model: `Crawl`, `crawlSite`, `NewCrawler`, the visited set, fetching pages over the network, and `main.go`.
- The `TestCrawler` cases are not part of this model; they need the network and a live crawl.
- LinkExamples: the test pages are stated as their lists of pieces. That the pieces joined in order equal each test's string literal is checked by reading, not proved.
