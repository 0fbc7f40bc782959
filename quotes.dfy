/**
 * The records the scraper extracts from quotes.toscrape.com and the pure
 * pieces of app/parse.py: building a Quote from one already-extracted quote
 * block, building an author page URL, and resolving a biography response.
 */
module Quotes {
  import opened Wrappers

  /** The site every listing page and author page is fetched from. */
  const BASE_URL: string := "https://quotes.toscrape.com/"

  /** Stored instead of a biography that could not be retrieved. */
  const BIO_UNAVAILABLE: string := "Biography not available."

  /** An extracted quote; never changed after it is built. */
  datatype Quote = Quote(text: string, author: string, tags: seq<string>)

  /**
   * What the selectors `.text`, `.author`, `.tags .tag` and `.author + a`
   * yield on one `.quote` element: the two texts, the tag texts in document
   * order and the relative link to the author page.
   */
  datatype QuoteBlock = QuoteBlock(text: string, author: string, tags: seq<string>, href: string)

  /**
   * The answer to an author page request: its HTTP status and the stripped
   * text of the `.author-details .author-description` element, if there is one.
   */
  datatype BioResponse = BioResponse(status: int, description: Option<string>)

  /** The author page URL: the base URL followed by the link's href. */
  function AuthorUrl(href: string): (url: string)
    ensures |url| == |BASE_URL| + |href|
    ensures url[..|BASE_URL|] == BASE_URL && url[|BASE_URL|..] == href
  {
    BASE_URL + href
  }

  /** The Quote built from one block: its text, its author and its tags in order. */
  function ParseBlock(b: QuoteBlock): (q: Quote)
    ensures q.text == b.text && q.author == b.author && q.tags == b.tags
  {
    Quote(b.text, b.author, b.tags)
  }

  /**
   * The biography for an author page response: the sentinel unless the
   * status is 200 and the description element is present.
   */
  function GetAuthorBio(r: BioResponse): (bio: string)
    ensures r.status != 200 ==> bio == BIO_UNAVAILABLE
    ensures r.status == 200 && r.description.None? ==> bio == BIO_UNAVAILABLE
    ensures r.status == 200 && r.description.Some? ==> bio == r.description.value
  {
    if r.status != 200 then BIO_UNAVAILABLE
    else match r.description
      case Some(text) => text
      case None => BIO_UNAVAILABLE
  }

  /** A biography other than the sentinel can only come from a successful page that has a description. */
  lemma RealBioComesFromDescription(r: BioResponse)
    requires GetAuthorBio(r) != BIO_UNAVAILABLE
    ensures r.status == 200 && r.description == Some(GetAuthorBio(r))
  {
  }

  /** The quotes of one page: one per block, in document order. */
  function PageQuotes(bs: seq<QuoteBlock>): (qs: seq<Quote>)
    ensures |qs| == |bs|
    ensures forall i :: 0 <= i < |bs| ==> qs[i] == ParseBlock(bs[i])
  {
    if bs == [] then [] else PageQuotes(bs[..|bs| - 1]) + [ParseBlock(bs[|bs| - 1])]
  }

  /** The author of every block, in document order. */
  function Authors(bs: seq<QuoteBlock>): (names: seq<string>)
    ensures |names| == |bs|
    ensures forall i :: 0 <= i < |bs| ==> names[i] == bs[i].author
  {
    if bs == [] then [] else Authors(bs[..|bs| - 1]) + [bs[|bs| - 1].author]
  }

  /** The set of authors of a sequence of quotes. */
  function QuoteAuthors(qs: seq<Quote>): (names: set<string>)
  {
    set q | q in qs :: q.author
  }

  /** Turning blocks into quotes distributes over concatenation of the blocks. */
  lemma PageQuotesAppend(xs: seq<QuoteBlock>, ys: seq<QuoteBlock>)
    ensures PageQuotes(xs + ys) == PageQuotes(xs) + PageQuotes(ys)
  {
  }

  /** The authors of the quotes of some blocks are exactly the authors of the blocks. */
  lemma PageQuotesAuthors(bs: seq<QuoteBlock>)
    ensures QuoteAuthors(PageQuotes(bs)) == set a | a in Authors(bs)
  {
  }
}
