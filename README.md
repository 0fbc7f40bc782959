# scrape-quotes, modelled in Dafny

This project models the core of `app/parse.py`, a scraper for
quotes.toscrape.com. The scraper requests listing pages 1, 2, 3, … and turns
every `.quote` element into a `Quote(text, author, tags)`. It stops at the
first page that answers 404 or yields no quotes. While parsing, it fills the
`author_bios` dictionary. Each author's page is requested only the first time
the author is met, and a failed request stores the sentinel
`"Biography not available."`. Finally it hands two row sequences to the CSV
writer: the quotes, with their tags joined by `", "`, and the authors with
their biographies, in dictionary insertion order.

HTTP and HTML parsing become inputs:

- a listing page is a `PageResponse(status, blocks)`, where the blocks are
  what the CSS selectors extract from each `.quote` element;
- the upstream is a finite `seq<PageResponse>`, and `pages[n - 1]` answers
  the request for page n;
- an author page request is a function `fetch: string -> BioResponse` from
  URL to response, where a `BioResponse` holds the status and the stripped
  description text, if the element is present.

Modules, one per component:

- `Wrappers` (wrappers.dfy): the `Option` type.
- `Quotes` (quotes.dfy): the records, `BASE_URL`, the sentinel, the parsing
  of one quote block (`ParseBlock`, `AuthorUrl`), `get_author_bio`
  (`GetAuthorBio`), and the quotes of one page (`PageQuotes`).
- `AuthorCache` (author_cache.dfy): the dictionary. The class `AuthorBios`
  holds the map, its keys in insertion order, and a ghost log of the
  biography requests made. Its methods `ParseSingleQuote` and
  `GetSinglePageQuotes` update it in place. The pure `Table`, `Remember`
  and `RememberAll` are their specification, and the lemmas are proved
  about those.
- `Pagination` (pagination.dfy): the `get_quotes` loop (`GetQuotes`), its
  specification (`FirstEnd`, `AllBlocks`, `CollectedQuotes`), and the
  lemmas about a run.
- `CsvRows` (csv_rows.dfy): the row builders `WriteQuotesToCsv` and
  `WriteAuthorsToCsv`, the tag join, and its inverse `SplitTags`, used to
  read a row back.

The model follows the code exactly on these points:

- The code returns the sentinel for every status other than 200, not only
  for statuses outside 2xx.
- It ends pagination on a page with no quotes whatever that page's status
  was.
- It uses the `", "` tag join and the capitalised headers `Text, Author, Tags`
  and `Author, Biography`.

## Model

| member | source | states |
|---|---|---|
| `Quotes.AuthorUrl` | app/parse.py:41 | the author URL is `BASE_URL` followed by the link's href, and nothing else |
| `Quotes.ParseBlock` | app/parse.py:38-46 | the quote's text, author and tags are the selected texts, the tags in document order |
| `Quotes.GetAuthorBio` | app/parse.py:114-120 | the sentinel when the status is not 200 or the description element is absent, otherwise the stripped description |
| `Quotes.RealBioComesFromDescription` | app/parse.py:115-120 | a biography other than the sentinel comes only from a 200 response that has a description, and is that description |
| `Quotes.PageQuotes` | app/parse.py:64-66 | one quote per block of the page, the i-th built from the i-th block |
| `Quotes.PageQuotesAppend` | app/parse.py:98 | the quotes of two block sequences, one after the other, are the quotes of their concatenation |
| `AuthorCache.Remember` | app/parse.py:43-44 | one block adds its author as a key. A hit leaves the table unchanged and requests nothing. A miss makes exactly one request, to the author URL, and appends the author to the insertion order. Existing entries keep their values |
| `AuthorCache.RememberAll` | app/parse.py:43-44 | after a sequence of blocks, the keys are the old keys plus every block's author. Old entries keep their values, and the request log only grows at its end |
| `AuthorCache.RememberAllKeepsWellFormed` | app/parse.py:43-44 | parsing blocks keeps the table consistent: each key appears once in the insertion order, the i-th request was for the i-th key, and each stored biography is the resolution of that author's request |
| `AuthorCache.RememberAllAppend` | app/parse.py:86-98 | parsing page after page updates the table as parsing all their blocks in one sequence |
| `AuthorCache.FetchedAtMostOnce` | app/parse.py:43-44 | in a consistent table, each key's biography was requested exactly once, and no other author's was requested |
| `AuthorCache.KeysCount` | app/parse.py:43-44 | in a consistent table there are as many requests and insertion-order entries as distinct keys |
| `AuthorCache.FirstEncounterOrder` | app/parse.py:43-44 | from an empty table, the keys are inserted in the order in which their authors first appear among the blocks |
| `AuthorCache.PageAuthorsAreKeys` | app/parse.py:43-46 | after a page's blocks are parsed, the author of every quote the page yields is a key |
| `AuthorCache.AuthorBios.constructor` | app/parse.py:83 | a run starts with an empty dictionary and no requests |
| `AuthorCache.AuthorBios.ParseSingleQuote` | app/parse.py:24-46 | returns the quote of the block. The dictionary changes as `Remember` says: the author becomes a key, and existing entries are never overwritten |
| `AuthorCache.AuthorBios.GetSinglePageQuotes` | app/parse.py:49-66 | returns the page's quotes in document order and updates the dictionary as `RememberAll` says. Every returned quote's author is a key, and old keys keep their values |
| `Pagination.Ends` | app/parse.py:89-96 | a page ends the run exactly when it answers 404 or yields no quotes, whatever its status |
| `Pagination.AllBlocks` | app/parse.py:93-98 | the blocks of the kept pages, page after page: a block is among them exactly when it is on one of those pages |
| `Pagination.CollectedQuotes` | app/parse.py:98 | what `all_quotes.extend` accumulates: one quote per block of those pages; `CollectedInDocumentOrder` gives its contents |
| `Pagination.FirstEnd` | app/parse.py:86-96 | the first page that answers 404 or yields no quotes. Every page before it has another status and at least one quote |
| `Pagination.CollectedInDocumentOrder` | app/parse.py:93-98 | the page-by-page accumulation equals the quotes of all those pages' blocks in document order |
| `Pagination.GetQuotes` | app/parse.py:69-101 | returns exactly the concatenation of the quotes of the pages before the first ending page, plus the dictionary built from their blocks |
| `Pagination.LaterPagesIgnored` | app/parse.py:86-96 | changing the pages after the first ending page does not change where the run stops |
| `Pagination.CrawlTable` | app/parse.py:82-101 | after a run, the keys are exactly the authors of the kept quotes. There is one request and one insertion-order entry per distinct author, and every biography is memoized |
| `Pagination.ScenarioKeepsThreeQuotes` | app/parse.py:86-101 | page 1 with quotes by A and B, page 2 with one by A, page 3 a 404: the run stops at page 3 and keeps three quotes |
| `Pagination.RepeatedAuthorFetchedOnce` | app/parse.py:43-44 | quotes by A, B, A make exactly two requests: A's, then B's |
| `Pagination.ScenarioFetchesTwice` | app/parse.py:43-44 | in the three-page scenario, the biographies requested are A's and B's, once each |
| `Pagination.EmptyPageEndsRun` | app/parse.py:89-96 | for any upstream, a page with no quotes, whatever its status (200 included), after pages that all continue, is where the run stops |
| `CsvRows.JoinTags` | app/parse.py:136 | `[]` gives `""`, `[t]` gives `t`, otherwise the first tag followed by the separator `", "`; `SplitJoinTags` inverts it |
| `CsvRows.QuoteRow` | app/parse.py:136 | a quote's row has three fields: its text, its author and its joined tags; `QuoteRowRoundTrip` reads it back |
| `CsvRows.SplitJoinTags` | app/parse.py:136 | the joined tags field splits back into the tags, when no tag contains `", "` and the tags are not the single empty tag |
| `CsvRows.JoinTagsEmpty` | app/parse.py:136 | the tags field is empty exactly when there are no tags, for non-empty tags |
| `CsvRows.QuoteRowRoundTrip` | app/parse.py:134-136 | reading a quote's row back gives the same text, author and tags |
| `CsvRows.WriteQuotesToCsv` | app/parse.py:123-136 | the header `Text, Author, Tags`, then exactly one row per quote, in input order, holding its text, its author and its tags joined by `", "` |
| `CsvRows.WriteAuthorsToCsv` | app/parse.py:139-153 | the header `Author, Biography`, then one row per dictionary entry in insertion order. There are as many data rows as distinct authors |

## Left out

- HTTP transport (app/parse.py:87, 114): listing pages are the input sequence, and author pages are the `fetch` parameter. `fetch` is a function, so two requests for the same URL would get the same answer. Connection errors, which abort the run, are not modelled.
- The listing page URL `BASE_URL + "page/{n}/"` (app/parse.py:87): the page number only indexes the input sequence.
- HTML parsing and the CSS selectors (app/parse.py:38-41, 64, 92, 118-119): each page is given already extracted as quote blocks, and an author page as its optional description text. Blocks are assumed well formed, so the exceptions raised when a required element is missing are not modelled.
- The whitespace handling of `get_text(strip=True)`: the stripped description is an opaque input.
- CSV quoting, escaping and file handling (app/parse.py:132-133, 149-150): only the rows handed to the writer are modelled.
- `main` and the `__main__` block (app/parse.py:156-170): glue with fixed file paths.
- Pagination.GetQuotes: requires the upstream to contain a page that ends the run. The source would keep requesting pages forever if none did.
- CsvRows.SplitTags: it is the reader used to state a round trip, not part of the source. It cannot recover tags that contain `", "` or the single empty tag.
