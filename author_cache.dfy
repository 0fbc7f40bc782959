/**
 * The `author_bios` dictionary of app/parse.py: author name to biography,
 * filled while quotes are parsed, each author's page requested only when the
 * author is not yet a key. Python dictionaries keep insertion order, which
 * the authors CSV follows, so the model keeps the keys' insertion order next
 * to the map. A log of the requests made records which author each one was for.
 */
module AuthorCache {
  import opened Wrappers
  import opened Quotes

  /** One biography request: the author it was made for and the URL fetched. */
  datatype Fetch = Fetch(author: string, url: string)

  /** The value of the table: the dictionary, its keys in insertion order, and the requests made so far. */
  datatype Table = Table(bios: map<string, string>, order: seq<string>, fetches: seq<Fetch>)

  /** The table at the start of a run. */
  const EMPTY: Table := Table(map[], [], [])

  predicate Distinct(s: seq<string>)
  {
    forall i, j :: 0 <= i < j < |s| ==> s[i] != s[j]
  }

  /**
   * The table's consistency: every key appears in the insertion order exactly
   * once, and the i-th request was made for the i-th key inserted.
   */
  ghost predicate WellFormed(t: Table)
  {
    && Distinct(t.order)
    && (forall a :: a in t.bios <==> a in t.order)
    && |t.fetches| == |t.order|
    && (forall i :: 0 <= i < |t.order| ==> t.fetches[i].author == t.order[i])
  }

  /** Every stored biography is the resolution of the request made for that author. */
  ghost predicate Memoizes(t: Table, fetch: string -> BioResponse)
  {
    forall i :: 0 <= i < |t.fetches| ==>
      t.fetches[i].author in t.bios && t.bios[t.fetches[i].author] == GetAuthorBio(fetch(t.fetches[i].url))
  }

  /** The authors the requests were made for, in request order. */
  function FetchedAuthors(fs: seq<Fetch>): seq<string>
  {
    seq(|fs|, i requires 0 <= i < |fs| => fs[i].author)
  }

  /**
   * The effect on the table of parsing one quote block: a hit changes nothing
   * and requests nothing; a miss requests the author page once and adds the
   * author as a new key, leaving every existing entry as it was.
   */
  function Remember(t: Table, b: QuoteBlock, fetch: string -> BioResponse): (r: Table)
    ensures r.bios.Keys == t.bios.Keys + {b.author}
    ensures forall a :: a in t.bios ==> r.bios[a] == t.bios[a]
    ensures b.author in t.bios ==> r == t
    ensures b.author !in t.bios ==>
      && r.fetches == t.fetches + [Fetch(b.author, AuthorUrl(b.href))]
      && r.order == t.order + [b.author]
  {
    if b.author in t.bios then t
    else
      var url := AuthorUrl(b.href);
      Table(t.bios[b.author := GetAuthorBio(fetch(url))], t.order + [b.author], t.fetches + [Fetch(b.author, url)])
  }

  /** The effect on the table of parsing a sequence of blocks, left to right. */
  function RememberAll(t: Table, bs: seq<QuoteBlock>, fetch: string -> BioResponse): (r: Table)
    ensures r.bios.Keys == t.bios.Keys + (set a | a in Authors(bs))
    ensures forall a :: a in t.bios ==> r.bios[a] == t.bios[a]
    ensures |t.fetches| <= |r.fetches| && r.fetches[..|t.fetches|] == t.fetches
    decreases |bs|
  {
    if bs == [] then t
    else
      var n := |bs| - 1;
      assert (set a | a in Authors(bs)) == (set a | a in Authors(bs[..n])) + {bs[n].author} by {
        assert Authors(bs) == Authors(bs[..n]) + [bs[n].author];
      }
      Remember(RememberAll(t, bs[..n], fetch), bs[n], fetch)
  }

  lemma RememberKeepsWellFormed(t: Table, b: QuoteBlock, fetch: string -> BioResponse)
    requires WellFormed(t) && Memoizes(t, fetch)
    ensures WellFormed(Remember(t, b, fetch)) && Memoizes(Remember(t, b, fetch), fetch)
  {
  }

  /** Parsing any blocks keeps the table consistent and every biography memoized. */
  lemma {:induction false} RememberAllKeepsWellFormed(t: Table, bs: seq<QuoteBlock>, fetch: string -> BioResponse)
    requires WellFormed(t) && Memoizes(t, fetch)
    ensures WellFormed(RememberAll(t, bs, fetch)) && Memoizes(RememberAll(t, bs, fetch), fetch)
    decreases |bs|
  {
    if bs != [] {
      var n := |bs| - 1;
      RememberAllKeepsWellFormed(t, bs[..n], fetch);
      RememberKeepsWellFormed(RememberAll(t, bs[..n], fetch), bs[n], fetch);
    }
  }

  /** Parsing the blocks of two pages one after the other is parsing their concatenation. */
  lemma {:induction false} RememberAllAppend(t: Table, xs: seq<QuoteBlock>, ys: seq<QuoteBlock>, fetch: string -> BioResponse)
    ensures RememberAll(t, xs + ys, fetch) == RememberAll(RememberAll(t, xs, fetch), ys, fetch)
    decreases |ys|
  {
    if ys == [] {
      assert xs + ys == xs;
    } else {
      var n := |ys| - 1;
      assert (xs + ys)[..|xs + ys| - 1] == xs + ys[..n];
      assert (xs + ys)[|xs + ys| - 1] == ys[n];
      RememberAllAppend(t, xs, ys[..n], fetch);
    }
  }

  /** A sequence without repeats holds each of its elements exactly once. */
  lemma {:induction false} DistinctMultiplicity(s: seq<string>, a: string)
    requires Distinct(s)
    ensures multiset(s)[a] == if a in s then 1 else 0
    decreases |s|
  {
    if s != [] {
      var n := |s| - 1;
      assert s == s[..n] + [s[n]];
      DistinctMultiplicity(s[..n], a);
      assert s[n] !in s[..n];
    }
  }

  /** A sequence without repeats is as long as the set of its elements is large. */
  lemma {:induction false} DistinctCardinality(s: seq<string>)
    requires Distinct(s)
    ensures |set a | a in s| == |s|
    decreases |s|
  {
    if s != [] {
      var n := |s| - 1;
      DistinctCardinality(s[..n]);
      assert (set a | a in s) == (set a | a in s[..n]) + {s[n]};
      assert s[n] !in s[..n];
    }
  }

  /**
   * Memoization: in a consistent table each key was requested exactly once
   * and nothing else was requested.
   */
  lemma FetchedAtMostOnce(t: Table, a: string)
    requires WellFormed(t)
    ensures multiset(FetchedAuthors(t.fetches))[a] == if a in t.bios then 1 else 0
  {
    assert FetchedAuthors(t.fetches) == t.order;
    DistinctMultiplicity(t.order, a);
  }

  /** In a consistent table there is one key per request and one entry in the insertion order per key. */
  lemma KeysCount(t: Table)
    requires WellFormed(t)
    ensures |t.bios.Keys| == |t.order| == |t.fetches|
  {
    assert t.bios.Keys == set a | a in t.order;
    DistinctCardinality(t.order);
  }

  /** Index of the first occurrence of a in s. */
  function FirstIndex(s: seq<string>, a: string): (k: nat)
    requires a in s
    ensures k < |s| && s[k] == a
    ensures forall i :: 0 <= i < k ==> s[i] != a
  {
    if s[0] == a then 0 else 1 + FirstIndex(s[1..], a)
  }

  lemma FirstIndexExtend(s: seq<string>, x: string, a: string)
    requires a in s + [x]
    ensures a in s ==> FirstIndex(s + [x], a) == FirstIndex(s, a)
    ensures a !in s ==> FirstIndex(s + [x], a) == |s|
  {
    var k := FirstIndex(s + [x], a);
    if a in s {
      var j := FirstIndex(s, a);
      assert (s + [x])[j] == a;
      assert k <= j;
      assert s[k] == a;
    }
  }

  /** The elements of order are taken from s, in the order of their first occurrences in s. */
  ghost predicate InFirstEncounterOrder(order: seq<string>, s: seq<string>)
  {
    && (forall a :: a in order ==> a in s)
    && (forall i, j :: 0 <= i < j < |order| ==> FirstIndex(s, order[i]) < FirstIndex(s, order[j]))
  }

  /** Appending an element to s keeps an order; appending a new one to both extends it. */
  lemma FirstEncounterStep(order: seq<string>, s: seq<string>, x: string)
    requires InFirstEncounterOrder(order, s)
    ensures InFirstEncounterOrder(order, s + [x])
    ensures x !in s ==> InFirstEncounterOrder(order + [x], s + [x])
  {
    forall a | a in order ensures FirstIndex(s + [x], a) == FirstIndex(s, a) {
      FirstIndexExtend(s, x, a);
    }
    if x !in s {
      FirstIndexExtend(s, x, x);
      var o := order + [x];
      forall i, j | 0 <= i < j < |o| ensures FirstIndex(s + [x], o[i]) < FirstIndex(s + [x], o[j]) {
        assert o[i] == order[i];
        if j == |order| {
          assert FirstIndex(s + [x], o[i]) == FirstIndex(s, order[i]) < |s|;
        } else {
          assert o[j] == order[j];
        }
      }
    }
  }

  /**
   * Starting from an empty table, the keys are inserted in the order in which
   * their authors first appear among the blocks.
   */
  lemma {:induction false} FirstEncounterOrder(bs: seq<QuoteBlock>, fetch: string -> BioResponse)
    ensures InFirstEncounterOrder(RememberAll(EMPTY, bs, fetch).order, Authors(bs))
    decreases |bs|
  {
    if bs != [] {
      var n := |bs| - 1;
      var prev := RememberAll(EMPTY, bs[..n], fetch);
      var s := Authors(bs[..n]);
      var x := bs[n].author;
      assert Authors(bs) == s + [x];
      FirstEncounterOrder(bs[..n], fetch);
      FirstEncounterStep(prev.order, s, x);
      if x !in prev.bios {
        assert x !in s;
      }
    }
  }

  /**
   * The `author_bios` dictionary of one run, updated in place as quotes are
   * parsed. `fetches` is the log of biography requests, kept only for the proof.
   */
  class AuthorBios {
    var bios: map<string, string>
    var order: seq<string>
    ghost var fetches: seq<Fetch>

    ghost function Model(): Table
      reads this
    {
      Table(bios, order, fetches)
    }

    ghost predicate Valid()
      reads this
    {
      WellFormed(Model())
    }

    constructor ()
      ensures Valid() && Model() == EMPTY
    {
      bios := map[];
      order := [];
      fetches := [];
    }

    /**
     * parse_single_quote: builds the Quote of one block and, when its author
     * is not yet a key, requests the author page and stores the biography.
     */
    method ParseSingleQuote(b: QuoteBlock, fetch: string -> BioResponse) returns (q: Quote)
      requires Valid()
      modifies this
      ensures Valid()
      ensures q == ParseBlock(b)
      ensures Model() == Remember(old(Model()), b, fetch)
      ensures b.author in bios
      ensures forall a :: a in old(bios) ==> a in bios && bios[a] == old(bios)[a]
    {
      var text := b.text;
      var author := b.author;
      var tags := b.tags;
      var authorUrl := AuthorUrl(b.href);
      if author !in bios {
        fetches := fetches + [Fetch(author, authorUrl)];
        bios := bios[author := GetAuthorBio(fetch(authorUrl))];
        order := order + [author];
      }
      q := Quote(text, author, tags);
    }

    /** get_single_page_quotes: parses the blocks of one page in document order. */
    method GetSinglePageQuotes(blocks: seq<QuoteBlock>, fetch: string -> BioResponse) returns (qs: seq<Quote>)
      requires Valid()
      modifies this
      ensures Valid()
      ensures qs == PageQuotes(blocks)
      ensures Model() == RememberAll(old(Model()), blocks, fetch)
      ensures forall q :: q in qs ==> q.author in bios
      ensures forall a :: a in old(bios) ==> a in bios && bios[a] == old(bios)[a]
    {
      ghost var start := Model();
      qs := [];
      for i := 0 to |blocks|
        invariant Valid()
        invariant qs == PageQuotes(blocks[..i])
        invariant Model() == RememberAll(start, blocks[..i], fetch)
      {
        NextBlock(start, blocks, i, fetch);
        var q := ParseSingleQuote(blocks[i], fetch);
        qs := qs + [q];
      }
      assert blocks[..|blocks|] == blocks;
      PageAuthorsAreKeys(start, blocks, fetch);
    }
  }

  /** Parsing one more block of a page: one more quote, one more table update. */
  lemma NextBlock(t: Table, bs: seq<QuoteBlock>, i: nat, fetch: string -> BioResponse)
    requires i < |bs|
    ensures PageQuotes(bs[..i + 1]) == PageQuotes(bs[..i]) + [ParseBlock(bs[i])]
    ensures RememberAll(t, bs[..i + 1], fetch) == Remember(RememberAll(t, bs[..i], fetch), bs[i], fetch)
  {
    assert bs[..i + 1][..i] == bs[..i];
  }

  /** After parsing a page, the author of every quote it yields is a key. */
  lemma PageAuthorsAreKeys(t: Table, bs: seq<QuoteBlock>, fetch: string -> BioResponse)
    ensures forall q :: q in PageQuotes(bs) ==> q.author in RememberAll(t, bs, fetch).bios
  {
    var qs := PageQuotes(bs);
    forall q | q in qs ensures q.author in RememberAll(t, bs, fetch).bios {
      var i :| 0 <= i < |qs| && qs[i] == q;
      assert Authors(bs)[i] == q.author;
    }
  }
}
