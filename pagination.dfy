/**
 * get_quotes: requests listing pages 1, 2, 3, ... and keeps the quotes of
 * each, until a page answers 404 or yields no quotes. The upstream is the
 * finite sequence of responses the site gives: pages[n - 1] answers the
 * request for page n.
 */
module Pagination {
  import opened Quotes
  import opened AuthorCache

  /** The HTTP status that ends pagination. */
  const NOT_FOUND: int := 404

  /** A listing page response: its status and the quote blocks its body contains. */
  datatype PageResponse = PageResponse(status: int, blocks: seq<QuoteBlock>)

  /** A page that ends pagination: a 404, or a page that yields no quotes, whatever its status. */
  predicate Ends(p: PageResponse)
    ensures Ends(p) <==> p.status == NOT_FOUND || PageQuotes(p.blocks) == []
  {
    p.status == NOT_FOUND || p.blocks == []
  }

  /** The upstream eventually gives a page that ends pagination. */
  ghost predicate Terminates(pages: seq<PageResponse>)
  {
    exists k :: 0 <= k < |pages| && Ends(pages[k])
  }

  /** The index of the first page that ends pagination; every page before it is parsed and kept. */
  ghost function FirstEnd(pages: seq<PageResponse>): (k: nat)
    requires Terminates(pages)
    ensures k < |pages| && Ends(pages[k])
    ensures forall i :: 0 <= i < k ==> !Ends(pages[i])
  {
    if Ends(pages[0]) then 0
    else
      var w :| 0 <= w < |pages| && Ends(pages[w]);
      assert Ends(pages[1..][w - 1]);
      1 + FirstEnd(pages[1..])
  }

  /** The blocks of some pages, page after page, each page in document order. */
  function AllBlocks(ps: seq<PageResponse>): (bs: seq<QuoteBlock>)
    ensures forall b :: b in bs <==> exists i :: 0 <= i < |ps| && b in ps[i].blocks
  {
    if ps == [] then []
    else
      var n := |ps| - 1;
      var prefix := AllBlocks(ps[..n]);
      assert forall b :: (exists i :: 0 <= i < |ps| && b in ps[i].blocks) <==>
        (exists i :: 0 <= i < n && b in ps[..n][i].blocks) || b in ps[n].blocks by {
        forall b | exists i :: 0 <= i < |ps| && b in ps[i].blocks
          ensures (exists i :: 0 <= i < n && b in ps[..n][i].blocks) || b in ps[n].blocks
        {
          var i :| 0 <= i < |ps| && b in ps[i].blocks;
          if i < n { assert b in ps[..n][i].blocks; }
        }
      }
      prefix + ps[n].blocks
  }

  /** The quotes of some pages, page after page: what `all_quotes.extend` accumulates. */
  function CollectedQuotes(ps: seq<PageResponse>): (qs: seq<Quote>)
    ensures |qs| == |AllBlocks(ps)|
  {
    if ps == [] then [] else CollectedQuotes(ps[..|ps| - 1]) + PageQuotes(ps[|ps| - 1].blocks)
  }

  /** The collected quotes are the quotes of all blocks of those pages in document order. */
  lemma {:induction false} CollectedInDocumentOrder(ps: seq<PageResponse>)
    ensures CollectedQuotes(ps) == PageQuotes(AllBlocks(ps))
    ensures forall i :: 0 <= i < |CollectedQuotes(ps)| ==> CollectedQuotes(ps)[i] == ParseBlock(AllBlocks(ps)[i])
    decreases |ps|
  {
    if ps != [] {
      var n := |ps| - 1;
      CollectedInDocumentOrder(ps[..n]);
      PageQuotesAppend(AllBlocks(ps[..n]), ps[n].blocks);
    }
  }

  /** Keeping one more page appends its blocks and its quotes. */
  lemma NextPage(pages: seq<PageResponse>, n: nat)
    requires n < |pages|
    ensures AllBlocks(pages[..n + 1]) == AllBlocks(pages[..n]) + pages[n].blocks
    ensures CollectedQuotes(pages[..n + 1]) == CollectedQuotes(pages[..n]) + PageQuotes(pages[n].blocks)
  {
    assert pages[..n + 1][..n] == pages[..n];
  }

  /**
   * get_quotes: the quotes of pages 1..k in page order and document order,
   * where page k + 1 is the first that answers 404 or yields no quotes, and
   * the biography table built while parsing them.
   */
  method GetQuotes(pages: seq<PageResponse>, fetch: string -> BioResponse)
    returns (allQuotes: seq<Quote>, authorBios: AuthorBios)
    requires Terminates(pages)
    ensures fresh(authorBios) && authorBios.Valid()
    ensures allQuotes == CollectedQuotes(pages[..FirstEnd(pages)])
    ensures authorBios.Model() == RememberAll(EMPTY, AllBlocks(pages[..FirstEnd(pages)]), fetch)
  {
    allQuotes := [];
    authorBios := new AuthorBios();
    var pageNumber := 1;
    ghost var k := FirstEnd(pages);
    while true
      invariant 1 <= pageNumber <= k + 1
      invariant fresh(authorBios) && authorBios.Valid()
      invariant allQuotes == CollectedQuotes(pages[..pageNumber - 1])
      invariant authorBios.Model() == RememberAll(EMPTY, AllBlocks(pages[..pageNumber - 1]), fetch)
      decreases k + 1 - pageNumber
    {
      var response := pages[pageNumber - 1];
      if response.status == NOT_FOUND {
        assert Ends(pages[pageNumber - 1]);
        break;
      }
      ghost var before := authorBios.Model();
      var quotesOnPage := authorBios.GetSinglePageQuotes(response.blocks, fetch);
      if |quotesOnPage| == 0 {
        assert Ends(pages[pageNumber - 1]);
        assert authorBios.Model() == before;
        break;
      }
      assert pageNumber - 1 < k;
      NextPage(pages, pageNumber - 1);
      RememberAllAppend(EMPTY, AllBlocks(pages[..pageNumber - 1]), response.blocks, fetch);
      allQuotes := allQuotes + quotesOnPage;
      pageNumber := pageNumber + 1;
    }
  }

  /** The pages after the first ending page are never requested: replacing them changes nothing. */
  lemma LaterPagesIgnored(pages: seq<PageResponse>, rest: seq<PageResponse>)
    requires Terminates(pages)
    ensures Terminates(pages[..FirstEnd(pages) + 1] + rest)
    ensures FirstEnd(pages[..FirstEnd(pages) + 1] + rest) == FirstEnd(pages)
  {
    var k := FirstEnd(pages);
    var q := pages[..k + 1] + rest;
    assert q[k] == pages[k];
    assert forall i :: 0 <= i <= k ==> q[i] == pages[i];
  }

  /**
   * After a run, the table holds one entry per distinct author of the kept
   * quotes and nothing else, each requested once and memoized.
   */
  lemma CrawlTable(pages: seq<PageResponse>, fetch: string -> BioResponse)
    requires Terminates(pages)
    ensures var ps := pages[..FirstEnd(pages)];
      var t := RememberAll(EMPTY, AllBlocks(ps), fetch);
      && WellFormed(t) && Memoizes(t, fetch)
      && t.bios.Keys == QuoteAuthors(CollectedQuotes(ps))
      && |t.fetches| == |t.order| == |QuoteAuthors(CollectedQuotes(ps))|
  {
    var ps := pages[..FirstEnd(pages)];
    var t := RememberAll(EMPTY, AllBlocks(ps), fetch);
    RememberAllKeepsWellFormed(EMPTY, AllBlocks(ps), fetch);
    CollectedInDocumentOrder(ps);
    PageQuotesAuthors(AllBlocks(ps));
    KeysCount(t);
  }

  /** The listing pages of the two-authors scenario: A and B, then A, then 404. */
  function ScenarioPages(): seq<PageResponse>
  {
    [ PageResponse(200, [QuoteBlock("q1", "A", ["x"], "/author/A"), QuoteBlock("q2", "B", [], "/author/B")]),
      PageResponse(200, [QuoteBlock("q3", "A", ["y", "z"], "/author/A")]),
      PageResponse(NOT_FOUND, []) ]
  }

  /** In the scenario, the run stops at page 3 and keeps the three quotes in order. */
  lemma ScenarioKeepsThreeQuotes()
    ensures Terminates(ScenarioPages()) && FirstEnd(ScenarioPages()) == 2
    ensures AllBlocks(ScenarioPages()[..2]) == ScenarioPages()[0].blocks + ScenarioPages()[1].blocks
    ensures |CollectedQuotes(ScenarioPages()[..2])| == 3
  {
    var pages := ScenarioPages();
    assert Ends(pages[2]);
    assert !Ends(pages[0]) && !Ends(pages[1]);
    NextPage(pages, 0);
    NextPage(pages, 1);
    assert pages[..0] == [];
  }

  /** Parsing quotes by A, B, A one after the other requests the biography of A, then of B, and nothing more. */
  lemma RepeatedAuthorFetchedOnce(a1: QuoteBlock, b1: QuoteBlock, a2: QuoteBlock, fetch: string -> BioResponse)
    requires a1.author == a2.author != b1.author
    ensures FetchedAuthors(RememberAll(EMPTY, [a1, b1, a2], fetch).fetches) == [a1.author, b1.author]
  {
    var t1 := Remember(EMPTY, a1, fetch);
    var t2 := Remember(t1, b1, fetch);
    assert [a1][..0] == [];
    assert [a1, b1][..1] == [a1];
    assert [a1, b1, a2][..2] == [a1, b1];
    assert RememberAll(EMPTY, [a1], fetch) == t1;
    assert RememberAll(EMPTY, [a1, b1], fetch) == t2;
    assert |t2.fetches| == 2;
  }

  /** In the scenario, exactly two biographies are requested: A's, then B's. */
  lemma ScenarioFetchesTwice(fetch: string -> BioResponse)
    ensures FetchedAuthors(RememberAll(EMPTY, AllBlocks(ScenarioPages()[..2]), fetch).fetches) == ["A", "B"]
  {
    ScenarioKeepsThreeQuotes();
    var pages := ScenarioPages();
    assert pages[0].blocks + pages[1].blocks == [pages[0].blocks[0], pages[0].blocks[1], pages[1].blocks[0]];
    RepeatedAuthorFetchedOnce(pages[0].blocks[0], pages[0].blocks[1], pages[1].blocks[0], fetch);
  }

  /**
   * A page that yields no quotes ends the run whatever its status, 200
   * included, once every page before it has quotes and a status other than
   * 404, so the run keeps exactly the quotes of those earlier pages.
   */
  lemma EmptyPageEndsRun(pages: seq<PageResponse>, k: nat)
    requires k < |pages| && pages[k].blocks == []
    requires forall i :: 0 <= i < k ==> !Ends(pages[i])
    ensures Terminates(pages) && FirstEnd(pages) == k
  {
    assert Ends(pages[k]);
  }
}
