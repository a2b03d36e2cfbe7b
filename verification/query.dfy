/**
 `authorKeywords` of adata.py: looks one author up in the paper catalogue
 and gathers the ids, titles and keywords of the papers listing them.
 */
module AuthorQuery {
  import opened Names
  import opened Records

  /** The value stored under the author: `Paper IDs`, `Titles` and `Keywords`. */
  datatype Summary = Summary(paperIds: seq<string>, titles: seq<string>, keywords: seq<Field>)

  /**
   `author in paper['Authors']`: list membership for a list of names, and a
   substring test when the field is a plain string (the `'?'` placeholder or
   a single unparsed name).
   */
  predicate Mentions(authors: Field, author: string) {
    match authors
    case StrList(items) => author in items
    case Str(text) => Substring(author, text)
  }

  /**
   What `list.extend(keywords)` appends: each keyword of a list as its own
   element, and each character of a plain string as a one-letter string.
   */
  function Spread(keywords: Field): seq<Field> {
    match keywords
    case StrList(items) => seq(|items|, i requires 0 <= i < |items| => Str(items[i]))
    case Str(text) => seq(|text|, i requires 0 <= i < |text| => Str([text[i]]))
  }

  /** The loop over the first `n` paper ids in iteration order. */
  function QueryUpTo(papers: map<string, Paper>, order: seq<string>, author: string, n: nat): map<string, Summary>
    requires forall k :: k in order ==> k in papers
    requires n <= |order|
    decreases n
  {
    if n == 0 then map[]
    else QueryStep(QueryUpTo(papers, order, author, n - 1), order[n - 1], papers[order[n - 1]], author)
  }

  /**
   The loop body for the paper `p` with id `id`: a paper that does not list
   the author is passed over; the first match is stored with its keyword
   field as one element, and later ones are appended with their keywords
   spliced in.
   */
  function QueryStep(acc: map<string, Summary>, id: string, p: Paper, author: string): map<string, Summary> {
    if !Mentions(p.authors, author) then acc
    else if author !in acc then acc[author := Summary([id], [p.title], [p.keywords])]
    else
      var s := acc[author];
      acc[author := Summary(s.paperIds + [id], s.titles + [p.title], s.keywords + Spread(p.keywords))]
  }

  /** `authorKeywords(papers, author)`, the papers visited in the order `order`. */
  function AuthorKeywords(papers: map<string, Paper>, order: seq<string>, author: string): map<string, Summary>
    requires Enumerates(order, papers.Keys)
  {
    QueryUpTo(papers, order, author, |order|)
  }

  /** Reference: the ids in `ids` whose paper lists `author`, in order. */
  function Matching(papers: map<string, Paper>, ids: seq<string>, author: string): (r: seq<string>)
    requires forall k :: k in ids ==> k in papers
    ensures forall k :: k in r <==> k in ids && Mentions(papers[k].authors, author)
    decreases |ids|
  {
    if ids == [] then []
    else if Mentions(papers[ids[0]].authors, author) then [ids[0]] + Matching(papers, ids[1..], author)
    else Matching(papers, ids[1..], author)
  }

  lemma {:induction false} MatchingSnoc(papers: map<string, Paper>, ids: seq<string>, id: string, author: string)
    requires forall k :: k in ids ==> k in papers
    requires id in papers
    ensures Matching(papers, ids + [id], author) ==
              Matching(papers, ids, author) + (if Mentions(papers[id].authors, author) then [id] else [])
    decreases |ids|
  {
    if ids != [] {
      assert (ids + [id])[1..] == ids[1..] + [id];
      MatchingSnoc(papers, ids[1..], id, author);
    } else {
      assert [id][1..] == [];
    }
  }

  lemma {:induction false} MatchingDistinct(papers: map<string, Paper>, ids: seq<string>, author: string)
    requires forall k :: k in ids ==> k in papers
    requires Distinct(ids)
    ensures Distinct(Matching(papers, ids, author))
    decreases |ids|
  {
    if ids != [] {
      MatchingDistinct(papers, ids[1..], author);
      assert ids[0] !in ids[1..];
    }
  }

  /** The titles of the papers `ids`, in order. */
  function TitlesOf(papers: map<string, Paper>, ids: seq<string>): (r: seq<string>)
    requires forall k :: k in ids ==> k in papers
    ensures |r| == |ids|
    ensures forall j :: 0 <= j < |ids| ==> r[j] == papers[ids[j]].title
    decreases |ids|
  {
    if ids == [] then [] else TitlesOf(papers, ids[..|ids| - 1]) + [papers[ids[|ids| - 1]].title]
  }

  /** The keywords `extend` splices in for the papers `ids`, one after the other. */
  function SpreadAll(papers: map<string, Paper>, ids: seq<string>): seq<Field>
    requires forall k :: k in ids ==> k in papers
    decreases |ids|
  {
    if ids == [] then [] else SpreadAll(papers, ids[..|ids| - 1]) + Spread(papers[ids[|ids| - 1]].keywords)
  }

  /**
   Reference result for the matching ids `ms`: nothing when there are none;
   otherwise the ids, their titles, and the keywords with the first paper's
   field kept whole and every later paper's spliced in element by element.
   */
  function Expected(papers: map<string, Paper>, author: string, ms: seq<string>): map<string, Summary>
    requires forall k :: k in ms ==> k in papers
  {
    if ms == [] then map[]
    else map[author := Summary(ms, TitlesOf(papers, ms), [papers[ms[0]].keywords] + SpreadAll(papers, ms[1..]))]
  }

  lemma TitlesSnoc(papers: map<string, Paper>, ms: seq<string>, id: string)
    requires forall k :: k in ms ==> k in papers
    requires id in papers
    ensures TitlesOf(papers, ms + [id]) == TitlesOf(papers, ms) + [papers[id].title]
  {
    assert (ms + [id])[..|ms|] == ms;
  }

  lemma SpreadAllSnoc(papers: map<string, Paper>, ms: seq<string>, id: string)
    requires forall k :: k in ms ==> k in papers
    requires id in papers
    ensures SpreadAll(papers, ms + [id]) == SpreadAll(papers, ms) + Spread(papers[id].keywords)
  {
    assert (ms + [id])[..|ms|] == ms;
  }

  /** One more matching paper extends the reference result the way the loop body does. */
  lemma ExpectedSnoc(papers: map<string, Paper>, author: string, ms: seq<string>, id: string)
    requires forall k :: k in ms ==> k in papers
    requires id in papers
    ensures ms == [] ==>
              Expected(papers, author, ms + [id]) ==
              map[author := Summary([id], [papers[id].title], [papers[id].keywords])]
    ensures ms != [] ==>
              Expected(papers, author, ms + [id]) ==
              Expected(papers, author, ms)[author := Summary(
                Expected(papers, author, ms)[author].paperIds + [id],
                Expected(papers, author, ms)[author].titles + [papers[id].title],
                Expected(papers, author, ms)[author].keywords + Spread(papers[id].keywords))]
  {
    if ms == [] {
      ExpectedFirst(papers, author, id);
    } else {
      ExpectedLater(papers, author, ms, id);
    }
  }

  lemma ExpectedFirst(papers: map<string, Paper>, author: string, id: string)
    requires id in papers
    ensures Expected(papers, author, [id]) == map[author := Summary([id], [papers[id].title], [papers[id].keywords])]
  {
    assert [id][..0] == [];
    assert TitlesOf(papers, [id]) == [papers[id].title];
    assert [id][1..] == [];
    assert [papers[id].keywords] + [] == [papers[id].keywords];
  }

  lemma ExpectedLater(papers: map<string, Paper>, author: string, ms: seq<string>, id: string)
    requires forall k :: k in ms ==> k in papers
    requires id in papers
    requires ms != []
    ensures Expected(papers, author, ms + [id]) ==
            Expected(papers, author, ms)[author := Summary(
              Expected(papers, author, ms)[author].paperIds + [id],
              Expected(papers, author, ms)[author].titles + [papers[id].title],
              Expected(papers, author, ms)[author].keywords + Spread(papers[id].keywords))]
  {
    var ms' := ms + [id];
    TitlesSnoc(papers, ms, id);
    assert ms'[1..] == ms[1..] + [id];
    SpreadAllSnoc(papers, ms[1..], id);
    var first := [papers[ms[0]].keywords];
    assert first + (SpreadAll(papers, ms[1..]) + Spread(papers[id].keywords)) ==
           (first + SpreadAll(papers, ms[1..])) + Spread(papers[id].keywords);
  }

  /** The loop body turns the reference result for `ms` into the one for `ms` plus the paper, if it matches. */
  lemma QueryStepExpected(papers: map<string, Paper>, author: string, ms: seq<string>, id: string)
    requires forall k :: k in ms ==> k in papers
    requires id in papers
    ensures QueryStep(Expected(papers, author, ms), id, papers[id], author) ==
            Expected(papers, author, ms + (if Mentions(papers[id].authors, author) then [id] else []))
  {
    if Mentions(papers[id].authors, author) {
      ExpectedSnoc(papers, author, ms, id);
      if ms != [] {
        assert author in Expected(papers, author, ms);
      }
    } else {
      assert ms + [] == ms;
    }
  }

  /** A prefix one longer is the shorter prefix and one more element. */
  lemma PrefixSnoc<T>(s: seq<T>, n: nat)
    requires 0 < n <= |s|
    ensures s[..n] == s[..n - 1] + [s[n - 1]]
  {
  }

  lemma {:induction false} QueryUpToIsExpected(papers: map<string, Paper>, order: seq<string>, author: string, n: nat)
    requires forall k :: k in order ==> k in papers
    requires n <= |order|
    ensures QueryUpTo(papers, order, author, n) == Expected(papers, author, Matching(papers, order[..n], author))
    decreases n
  {
    if n > 0 {
      QueryUpToIsExpected(papers, order, author, n - 1);
      var before := order[..n - 1];
      PrefixSnoc(order, n);
      assert forall k :: k in before ==> k in order;
      MatchingSnoc(papers, before, order[n - 1], author);
      QueryStepExpected(papers, author, Matching(papers, before, author), order[n - 1]);
    }
  }

  /**
   `authorKeywords` returns, under the author's name alone, the papers that
   list the author in iteration order, their titles in the same order, and
   the first paper's keyword field followed by the later papers' keywords
   spliced in; and the empty dictionary when no paper lists the author.
   */
  lemma AuthorKeywordsSpec(papers: map<string, Paper>, order: seq<string>, author: string)
    requires Enumerates(order, papers.Keys)
    ensures AuthorKeywords(papers, order, author) == Expected(papers, author, Matching(papers, order, author))
    ensures AuthorKeywords(papers, order, author).Keys <= {author}
    ensures author in AuthorKeywords(papers, order, author) ==>
              Distinct(AuthorKeywords(papers, order, author)[author].paperIds)
  {
    QueryUpToIsExpected(papers, order, author, |order|);
    assert order[..|order|] == order;
    MatchingDistinct(papers, order, author);
  }

  /** The lookup finds nothing exactly when no paper lists the author. */
  lemma AuthorKeywordsEmptyIff(papers: map<string, Paper>, order: seq<string>, author: string)
    requires Enumerates(order, papers.Keys)
    ensures AuthorKeywords(papers, order, author) == map[] <==>
              forall k :: k in papers ==> !Mentions(papers[k].authors, author)
  {
    AuthorKeywordsSpec(papers, order, author);
    var ms := Matching(papers, order, author);
    if ms != [] {
      assert author in AuthorKeywords(papers, order, author);
      assert ms[0] in ms;
    }
  }

  /** A paper id is reported exactly when its paper lists the author. */
  lemma AuthorKeywordsFindsEach(papers: map<string, Paper>, order: seq<string>, author: string)
    requires Enumerates(order, papers.Keys)
    ensures forall k :: k in papers && Mentions(papers[k].authors, author) ==>
              author in AuthorKeywords(papers, order, author) &&
              k in AuthorKeywords(papers, order, author)[author].paperIds
    ensures author in AuthorKeywords(papers, order, author) ==>
              forall k :: k in AuthorKeywords(papers, order, author)[author].paperIds ==>
                k in papers && Mentions(papers[k].authors, author)
  {
    AuthorKeywordsSpec(papers, order, author);
  }
}
