/** The `TestCountLinks` table of crawl/crawler_test.go, worked out on the
    model. Each test page is written as the list of its pieces: anchor tags
    `<a href=ATTRS>` and runs of other markup and text. Joined in order,
    the pieces spell out the test's HTML string character for character. */
module LinkExamples {
  import opened Pattern
  import opened Crawl

  /** Attribute text of an anchor tag: it holds no `>`. */
  type AttrText = s: string | '>' !in s

  /** A run of other markup and text: it ends with a tag's `>` and lacks
      the `f` or the `=` of `href=`, so it cannot hold `href=`. */
  type MarkupText = s: string | |s| > 0 && s[|s| - 1] == '>' && ('f' !in s || '=' !in s) witness ">"

  /** One piece of a test page. */
  datatype Piece =
    | Anchor(attrs: AttrText)  // `<a href=` + attrs + `>`
    | Markup(text: MarkupText)

  function Render(p: Piece): string {
    match p
    case Anchor(attrs) => "<a href=" + attrs + ">"
    case Markup(text) => text
  }

  /** The page the pieces spell out. */
  function Page(ps: seq<Piece>): string {
    if ps == [] then "" else Render(ps[0]) + Page(ps[1..])
  }

  /** The anchor tags among the pieces, in page order. */
  function AnchorTags(ps: seq<Piece>): seq<string> {
    if ps == [] then []
    else (if ps[0].Anchor? then [Render(ps[0])] else []) + AnchorTags(ps[1..])
  }

  /** `<a href=` with attribute text holding no `>`, then `>`: one link. */
  lemma HrefTag(attrs: string)
    requires '>' !in attrs
    ensures FindLinks("<a href=" + attrs + ">") == ["<a href=" + attrs + ">"]
  {
    AnchorFromParts(" ", "", attrs);
    assert "<a" + " " + "" + Href + attrs + ">" == "<a href=" + attrs + ">";
    OneAnchor("<a href=" + attrs + ">");
  }

  /** Wherever `href=` starts, its `f` and `=` follow at offsets 3 and 4. */
  lemma HrefLetters(u: string)
    ensures forall p :: HrefAt(u, p) ==> u[p + 3] == 'f' && u[p + 4] == '='
  {
    forall p | HrefAt(u, p)
      ensures u[p + 3] == 'f' && u[p + 4] == '='
    {
      assert u[p..][..|Href|] == Href;
    }
  }

  /** Text lacking the `f` or the `=` of `href=` cannot hold it: no link. */
  lemma LacksHrefLetter(u: string)
    requires 'f' !in u || '=' !in u
    ensures FindLinks(u) == []
  {
    HrefLetters(u);
    NoHrefNoLinks(u);
  }

  /** Each well-formed piece, scanned alone, yields itself if it is an
      anchor and nothing otherwise. */
  lemma PieceLinks(p: Piece)
    ensures FindLinks(Render(p)) == if p.Anchor? then [Render(p)] else []
  {
    match p
    case Anchor(attrs) => HrefTag(attrs);
    case Markup(text) => LacksHrefLetter(text);
  }

  /** A page of well-formed pieces yields exactly its anchor tags: every
      piece ends with `>`, so no match runs across two pieces. */
  lemma {:induction false} PageLinks(ps: seq<Piece>)
    ensures FindLinks(Page(ps)) == AnchorTags(ps)
  {
    if ps == [] {
      NoOpenerNoLinks("");
    } else {
      PieceLinks(ps[0]);
      PageLinks(ps[1..]);
      FindLinksSplit(Render(ps[0]), Page(ps[1..]));
    }
  }

  /** crawl/crawler_test.go:84-87: two well-formed anchors give two links,
      the tags themselves in page order. */
  const MultipleLinks: seq<Piece> :=
    [Markup("<html>"), Anchor(@"""https://example.com"""), Markup("Link</a>"),
     Anchor(@"""https://example.org"""), Markup("Another</a>"), Markup("</html>")]

  lemma ValidHtmlWithMultipleLinks()
    ensures FindLinks(Page(MultipleLinks)) == ["<a href=" + @"""https://example.com""" + ">",
                                               "<a href=" + @"""https://example.org""" + ">"]
    ensures CountLinks(Page(MultipleLinks)) == (2, None)
  {
    PageLinks(MultipleLinks);
  }

  /** crawl/crawler_test.go:90-93: a page without anchors gives none. */
  const NoLinks: seq<Piece> :=
    [Markup("<html>"), Markup("<p>"), Markup("No links here</p>"), Markup("</html>")]

  lemma HtmlWithNoLinks()
    ensures FindLinks(Page(NoLinks)) == []
    ensures CountLinks(Page(NoLinks)) == (0, None)
  {
    PageLinks(NoLinks);
  }

  /** crawl/crawler_test.go:96-99: the second anchor is never closed by
      `</a>`, but its own `>` ends the match, so both anchors count. */
  const MalformedOneValid: seq<Piece> :=
    [Markup("<html>"), Anchor(@"""https://example.com"""), Markup("Link<p>"),
     Anchor(@"""https://example.org"""), Markup("</html>")]

  lemma MalformedHtmlWithOneValidLink()
    ensures FindLinks(Page(MalformedOneValid)) == ["<a href=" + @"""https://example.com""" + ">",
                                                   "<a href=" + @"""https://example.org""" + ">"]
    ensures CountLinks(Page(MalformedOneValid)) == (2, None)
  {
    PageLinks(MalformedOneValid);
  }

  /** crawl/crawler_test.go:102-105: the empty page gives no link. */
  lemma EmptyHtmlString()
    ensures FindLinks("") == []
    ensures CountLinks("") == (0, None)
  {
    PageLinks([]);
  }

  /** crawl/crawler_test.go:108-111: `<a>` lacks the `\s` after `<a` and
      `<a name="anchor">` lacks `href=`, so neither counts. */
  const MissingHref: seq<Piece> :=
    [Markup("<html>"), Markup("<a>"), Markup("Missing href</a>"),
     Markup(@"<a name=""anchor"">"), Markup("Anchor</a>"), Markup("</html>")]

  lemma ValidHtmlWithLinksMissingHref()
    ensures FindLinks(Page(MissingHref)) == []
    ensures CountLinks(Page(MissingHref)) == (0, None)
  {
    PageLinks(MissingHref);
  }

  /** crawl/crawler_test.go:114-117: an anchor tag inside an anchor element;
      each opening tag is its own match. */
  const NestedLinks: seq<Piece> :=
    [Markup("<html>"), Anchor(@"""https://example.com"""), Anchor(@"""https://nested.com"""),
     Markup("</a>"), Markup("</a>"), Markup("</html>")]

  lemma HtmlWithNestedLinks()
    ensures FindLinks(Page(NestedLinks)) == ["<a href=" + @"""https://example.com""" + ">",
                                             "<a href=" + @"""https://nested.com""" + ">"]
    ensures CountLinks(Page(NestedLinks)) == (2, None)
  {
    PageLinks(NestedLinks);
  }

  /** crawl/crawler_test.go:120-123: an extra attribute after `href` stays
      inside the one match. */
  const ExtraAttributes: seq<Piece> :=
    [Markup("<html>"), Anchor(@"""https://example.com"" class=""link"""),
     Markup("Example</a>"), Markup("</html>")]

  lemma HtmlWithLinksHavingExtraAttributes()
    ensures FindLinks(Page(ExtraAttributes)) == ["<a href=" + @"""https://example.com"" class=""link""" + ">"]
    ensures CountLinks(Page(ExtraAttributes)) == (1, None)
  {
    PageLinks(ExtraAttributes);
  }

  /** `<A` followed by text holding no `<`: no link, since matching is
      case-sensitive. */
  lemma CapitalOpener(rest: string)
    requires '<' !in rest
    ensures FindLinks("<A" + rest) == []
  {
    var u := "<A" + rest;
    forall i | 0 < i < |u|
      ensures u[i] != '<'
    {
      if i >= 2 {
        assert u[i] == rest[i - 2];
      }
    }
    NoOpenerNoLinks(u);
  }

  /** Matching is case-sensitive: an upper-case `<A href=...>` is no link. */
  lemma UpperCaseAnchorIgnored()
    ensures CountLinks("<A" + (" href=" + @"""https://example.com""" + ">")) == (0, None)
  {
    CapitalOpener(" href=" + @"""https://example.com""" + ">");
  }
}
