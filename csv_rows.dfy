/**
 * write_quotes_to_csv and write_authors_to_csv, as the sequences of rows
 * they hand to the CSV writer: a fixed header, then one row per record in
 * order. The tags of a quote are flattened into one field joined by ", ".
 */
module CsvRows {
  import opened Wrappers
  import opened Quotes
  import opened AuthorCache

  type Row = seq<string>

  const QUOTES_HEADER: Row := ["Text", "Author", "Tags"]
  const AUTHORS_HEADER: Row := ["Author", "Biography"]

  /** The separator `", ".join` puts between tags. */
  const TAG_SEPARATOR: string := ", "

  /** `", ".join(tags)`. */
  function JoinTags(tags: seq<string>): (field: string)
    ensures tags == [] ==> field == ""
    ensures |tags| == 1 ==> field == tags[0]
    ensures |tags| >= 2 ==> SepAt(field, |tags[0]|) && field[..|tags[0]|] == tags[0]
  {
    if tags == [] then ""
    else if |tags| == 1 then tags[0]
    else tags[0] + TAG_SEPARATOR + JoinTags(tags[1..])
  }

  /** The separator starts at index k of s. */
  predicate SepAt(s: string, k: nat)
  {
    k + 1 < |s| && s[k] == ',' && s[k + 1] == ' '
  }

  /** No tag may hold the separator, or its field could not be split back. */
  predicate NoSeparator(t: string)
  {
    forall k: nat :: k < |t| ==> !SepAt(t, k)
  }

  /** The first index at or after i where the separator starts. */
  function FindSeparator(s: string, i: nat): (r: Option<nat>)
    requires i <= |s|
    ensures r.Some? ==> i <= r.value && SepAt(s, r.value)
    ensures r.Some? ==> forall k: nat :: i <= k < r.value ==> !SepAt(s, k)
    ensures r.None? ==> forall k: nat :: i <= k < |s| ==> !SepAt(s, k)
    decreases |s| - i
  {
    if i + 1 >= |s| then None
    else if SepAt(s, i) then Some(i)
    else FindSeparator(s, i + 1)
  }

  /** `field.split(", ")`: the pieces between separators, left to right. */
  function SplitPieces(field: string): (pieces: seq<string>)
    ensures |pieces| >= 1
    decreases |field|
  {
    match FindSeparator(field, 0)
    case None => [field]
    case Some(k) => [field[..k]] + SplitPieces(field[k + 2..])
  }

  /** Reads a tags field back into tags; the empty field stands for no tags. */
  function SplitTags(field: string): (tags: seq<string>)
  {
    if field == "" then [] else SplitPieces(field)
  }

  /** The first separator in t + sep + rest is the one after t, when t holds none. */
  lemma SeparatorAfter(t: string, rest: string)
    requires NoSeparator(t)
    ensures FindSeparator(t + TAG_SEPARATOR + rest, 0) == Some(|t|)
  {
    var s := t + TAG_SEPARATOR + rest;
    assert SepAt(s, |t|);
    forall k: nat | k < |t| ensures !SepAt(s, k) {
      if k + 1 < |t| {
        assert s[k] == t[k] && s[k + 1] == t[k + 1];
        assert !SepAt(t, k);
      } else {
        assert s[k + 1] == ',';
      }
    }
  }

  /** Splitting t + sep + rest yields t first, then the pieces of rest, when t holds no separator. */
  lemma SplitAfter(t: string, rest: string)
    requires NoSeparator(t)
    ensures SplitPieces(t + TAG_SEPARATOR + rest) == [t] + SplitPieces(rest)
  {
    var s := t + TAG_SEPARATOR + rest;
    SeparatorAfter(t, rest);
    assert s[..|t|] == t;
    assert s[|t| + 2..] == rest;
  }

  /** Splitting a joined field gives back the tags, when no tag holds the separator. */
  lemma {:induction false} SplitJoinPieces(tags: seq<string>)
    requires tags != []
    requires forall i :: 0 <= i < |tags| ==> NoSeparator(tags[i])
    ensures SplitPieces(JoinTags(tags)) == tags
    decreases |tags|
  {
    if |tags| == 1 {
      assert FindSeparator(tags[0], 0).None?;
    } else {
      assert JoinTags(tags) == tags[0] + TAG_SEPARATOR + JoinTags(tags[1..]);
      SplitAfter(tags[0], JoinTags(tags[1..]));
      SplitJoinPieces(tags[1..]);
      assert tags == [tags[0]] + tags[1..];
    }
  }

  /**
   * The tags field of `", ".join` reads back to the tags, provided no tag holds
   * the separator and the tags are not the single empty tag (which joins to
   * the same empty field as no tags).
   */
  lemma SplitJoinTags(tags: seq<string>)
    requires forall i :: 0 <= i < |tags| ==> NoSeparator(tags[i])
    requires tags != [""]
    ensures SplitTags(JoinTags(tags)) == tags
  {
    if tags != [] {
      if |tags| >= 2 {
        assert |JoinTags(tags)| >= 2;
      }
      SplitJoinPieces(tags);
    }
  }

  /** The tags field is empty exactly when there are no tags, when no tag is empty. */
  lemma JoinTagsEmpty(tags: seq<string>)
    requires forall i :: 0 <= i < |tags| ==> tags[i] != ""
    ensures JoinTags(tags) == "" <==> tags == []
  {
  }

  /** The row of one quote: text, author and the joined tags. */
  function QuoteRow(q: Quote): (row: Row)
    ensures |row| == 3 && row[0] == q.text && row[1] == q.author && row[2] == JoinTags(q.tags)
  {
    [q.text, q.author, JoinTags(q.tags)]
  }

  /** Reads a quotes CSV data row back into a Quote. */
  function ParseQuoteRow(row: Row): (q: Option<Quote>)
  {
    if |row| == 3 then Some(Quote(row[0], row[1], SplitTags(row[2]))) else None
  }

  /** A quote row reads back to its quote, under the conditions of SplitJoinTags. */
  lemma QuoteRowRoundTrip(q: Quote)
    requires forall i :: 0 <= i < |q.tags| ==> NoSeparator(q.tags[i])
    requires q.tags != [""]
    ensures ParseQuoteRow(QuoteRow(q)) == Some(q)
  {
    SplitJoinTags(q.tags);
  }

  /** write_quotes_to_csv: the header, then one row per quote in input order. */
  method WriteQuotesToCsv(quotes: seq<Quote>) returns (rows: seq<Row>)
    ensures |rows| == |quotes| + 1
    ensures rows[0] == QUOTES_HEADER
    ensures forall i :: 0 <= i < |quotes| ==> rows[i + 1] == QuoteRow(quotes[i])
  {
    rows := [QUOTES_HEADER];
    for i := 0 to |quotes|
      invariant |rows| == i + 1
      invariant rows[0] == QUOTES_HEADER
      invariant forall j :: 0 <= j < i ==> rows[j + 1] == QuoteRow(quotes[j])
    {
      var quote := quotes[i];
      rows := rows + [[quote.text, quote.author, JoinTags(quote.tags)]];
    }
  }

  /**
   * write_authors_to_csv: the header, then one row per dictionary entry in
   * insertion order, so one row per distinct author, in the order the authors
   * were first met.
   */
  method WriteAuthorsToCsv(authorBios: AuthorBios) returns (rows: seq<Row>)
    requires authorBios.Valid()
    ensures |rows| == |authorBios.order| + 1 == |authorBios.bios.Keys| + 1
    ensures rows[0] == AUTHORS_HEADER
    ensures forall i :: 0 <= i < |authorBios.order| ==>
      authorBios.order[i] in authorBios.bios && rows[i + 1] == [authorBios.order[i], authorBios.bios[authorBios.order[i]]]
  {
    KeysCount(authorBios.Model());
    var items := authorBios.order;
    var bios := authorBios.bios;
    rows := [AUTHORS_HEADER];
    for i := 0 to |items|
      invariant |rows| == i + 1
      invariant rows[0] == AUTHORS_HEADER
      invariant forall j :: 0 <= j < i ==> rows[j + 1] == [items[j], bios[items[j]]]
    {
      var author := items[i];
      rows := rows + [[author, bios[author]]];
    }
  }
}
