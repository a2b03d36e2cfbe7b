/**
 The record and batch loop of `gatherData` (get_data.py): every fetched
 Medline record not yet in the paper catalogue is stored there and each of
 its authors is upserted into the co-authorship graph with the paper's other
 authors; after each whole batch the loop stops once the graph has grown by
 the author limit. Fetching and parsing are outside the model: a run is given
 the already parsed batches.
 */
module Ingestion {
  import opened Names
  import opened Records
  import opened AuthorGraph

  /**
   A parsed Medline record: the `PMID`, `TI`, `AU` and `MH` tags, each
   possibly missing, and whether it carries any other tag (a record with no
   tag at all is falsy and skipped).
   */
  datatype Record = Record(
    pmid: Option<string>,
    title: Option<string>,
    authors: Option<Field>,
    keywords: Option<Field>,
    otherTags: bool)

  /** The two stores a run updates. */
  datatype Store = Store(authors: Graph, papers: map<string, Paper>)

  /** Number of records asked for per fetch. */
  const BatchSize: nat := 40

  predicate IsEmpty(r: Record) {
    r.pmid.None? && r.title.None? && r.authors.None? && r.keywords.None? && !r.otherTags
  }

  /** The catalogue key of a record: its PMID, or the placeholder when it has none. */
  function PaperId(r: Record): string {
    r.pmid.GetOr(Placeholder)
  }

  /** The record's author list before sorting: a missing or single author becomes a one-element list. */
  function AuthorList(f: Option<Field>): (r: seq<string>)
    ensures f.None? ==> r == [Placeholder]
    ensures f.Some? && f.value.Str? ==> r == [f.value.text]
    ensures f.Some? && f.value.StrList? ==> r == f.value.items
  {
    match f
    case None => [Placeholder]
    case Some(Str(s)) => [s]
    case Some(StrList(xs)) => xs
  }

  /**
   The author loop over the sorted list `au`, index by index: each author is
   taken out of the list (first occurrence), upserted with what remains as its
   co-authors, appended again and the list re-sorted. Returns the graph and
   the list as the loop leaves it.
   */
  function AuthorLoop(g: Graph, au: seq<string>, i: nat): (r: (Graph, seq<string>))
    decreases |au| - i
  {
    if i >= |au| then (g, au)
    else
      var a := au[i];
      var coauthors := RemoveFirst(au, a);
      RemoveFirstCounts(au, a);
      AuthorLoop(Upsert(g, a, coauthors), Sort(coauthors + [a]), i + 1)
  }

  /** The upserts of entries `i`, `i + 1`, … of the list, in order, when the list is left as it is. */
  function UpsertFrom(g: Graph, au: seq<string>, i: nat): Graph
    decreases |au| - i
  {
    if i >= |au| then g
    else UpsertFrom(Upsert(g, au[i], RemoveFirst(au, au[i])), au, i + 1)
  }

  /**
   Because the remove/append/sort steps give back the same sorted list, the
   author loop visits every element once, with the list minus that element
   as co-authors, and leaves the list unchanged.
   */
  lemma {:induction false} AuthorLoopVisitsEach(g: Graph, au: seq<string>, i: nat)
    requires Sorted(au)
    ensures AuthorLoop(g, au, i) == (UpsertFrom(g, au, i), au)
    decreases |au| - i
  {
    if i < |au| {
      RemoveAppendSortRestores(au, i);
      AuthorLoopVisitsEach(Upsert(g, au[i], RemoveFirst(au, au[i])), au, i + 1);
    }
  }

  /** How much the link `x -> y` gains from one upsert of `x` on a paper listing `au`. */
  function Gain(au: seq<string>, x: string, y: string): real
    requires |au| >= 2
  {
    if y in RemoveFirst(au, x) then 1.0 / ((|au| - 1) as real) else 0.0
  }

  lemma CountStep(au: seq<string>, i: nat, x: string)
    requires i < |au|
    ensures multiset(au[i..])[x] == multiset(au[i + 1..])[x] + (if x == au[i] then 1 else 0)
  {
    assert au[i..] == [au[i]] + au[i + 1..];
  }

  /** `gain` added up `count` times. */
  function Times(count: nat, gain: real): real {
    if count == 0 then 0.0 else Times(count - 1, gain) + gain
  }

  /** The upserts of the loop keep the weights positive. */
  lemma {:induction false} UpsertFromPositive(g: Graph, au: seq<string>, i: nat)
    requires PositiveWeights(g)
    ensures PositiveWeights(UpsertFrom(g, au, i))
    decreases |au| - i
  {
    if i < |au| {
      var coauthors := RemoveFirst(au, au[i]);
      UpsertWeights(g, au[i], coauthors);
      UpsertFromPositive(Upsert(g, au[i], coauthors), au, i + 1);
    }
  }

  /** One upsert of the loop: only the links of the author it visits grow. */
  lemma UpsertStepAt(g: Graph, au: seq<string>, i: nat, x: string, y: string)
    requires |au| >= 2
    requires i < |au|
    requires PositiveWeights(g)
    ensures PositiveWeights(Upsert(g, au[i], RemoveFirst(au, au[i])))
    ensures Weight(Upsert(g, au[i], RemoveFirst(au, au[i])), x, y) ==
            Weight(g, x, y) + (if x == au[i] then Gain(au, x, y) else 0.0)
  {
    var coauthors := RemoveFirst(au, au[i]);
    RemoveFirstCounts(au, au[i]);
    assert au[i] in au;
    var share := 1.0 / (|coauthors| as real);
    assert |coauthors| == |au| - 1;
    UpsertWeights(g, au[i], coauthors);
    assert Weight(Upsert(g, au[i], coauthors), x, y) ==
           Weight(g, x, y) + (if x == au[i] && y in coauthors then share else 0.0);
    if x == au[i] {
      assert Gain(au, x, y) == (if y in coauthors then share else 0.0);
    }
  }

  lemma {:induction false} UpsertFromWeightAt(g: Graph, au: seq<string>, i: nat, x: string, y: string)
    requires PositiveWeights(g)
    requires |au| >= 2
    requires i <= |au|
    ensures Weight(UpsertFrom(g, au, i), x, y) ==
            Weight(g, x, y) + Times(multiset(au[i..])[x], Gain(au, x, y))
    decreases |au| - i
  {
    if i < |au| {
      var h := Upsert(g, au[i], RemoveFirst(au, au[i]));
      UpsertStepAt(g, au, i, x, y);
      UpsertFromWeightAt(h, au, i + 1, x, y);
      CountStep(au, i, x);
      var c := multiset(au[i + 1..])[x];
      assert Times(c + 1, Gain(au, x, y)) == Times(c, Gain(au, x, y)) + Gain(au, x, y);
    } else {
      assert au[i..] == [];
    }
  }

  /**
   The upserts of one paper with at least two authors: the link `x -> y`
   grows by `1/(k-1)` once per occurrence of `x` on the list, provided `y` is
   still on the list after removing one `x`; weights stay positive.
   */
  lemma UpsertFromWeights(g: Graph, au: seq<string>)
    requires PositiveWeights(g)
    requires |au| >= 2
    ensures PositiveWeights(UpsertFrom(g, au, 0))
    ensures forall x, y ::
              Weight(UpsertFrom(g, au, 0), x, y) == Weight(g, x, y) + Times(multiset(au)[x], Gain(au, x, y))
  {
    UpsertFromPositive(g, au, 0);
    assert au[0..] == au;
    forall x, y
      ensures Weight(UpsertFrom(g, au, 0), x, y) == Weight(g, x, y) + Times(multiset(au)[x], Gain(au, x, y))
    {
      UpsertFromWeightAt(g, au, 0, x, y);
    }
  }

  /** The upserts of a sole-authored paper change no weight; a new author gets an empty map. */
  lemma UpsertFromSole(g: Graph, au: seq<string>)
    requires |au| == 1
    ensures PositiveWeights(g) ==> PositiveWeights(UpsertFrom(g, au, 0))
    ensures forall x, y :: Weight(UpsertFrom(g, au, 0), x, y) == Weight(g, x, y)
    ensures au[0] in UpsertFrom(g, au, 0)
    ensures UpsertFrom(g, au, 0)[au[0]] == (if au[0] in g then g[au[0]] else map[])
  {
    assert RemoveFirst(au, au[0]) == [];
    var h := Upsert(g, au[0], []);
    assert UpsertFrom(g, au, 0) == UpsertFrom(h, au, 1) == h;
    assert h == (if au[0] in g then g else g[au[0] := map[]]);
  }

  /** The upserts of the loop add exactly the listed authors as keys. */
  lemma {:induction false} UpsertFromKeys(g: Graph, au: seq<string>, i: nat)
    requires i <= |au|
    ensures forall a :: a in UpsertFrom(g, au, i) <==> a in g || a in au[i..]
    decreases |au| - i
  {
    if i < |au| {
      var h := Upsert(g, au[i], RemoveFirst(au, au[i]));
      UpsertFrame(g, au[i], RemoveFirst(au, au[i]));
      UpsertFromKeys(h, au, i + 1);
      assert au[i..] == [au[i]] + au[i + 1..];
    } else {
      assert au[i..] == [];
    }
  }

  /**
   The `Authors` value stored for a new paper. The stored list is the very
   list object the author loop sorts and reshuffles, so it is stored as the
   loop leaves it; a single or missing author is stored as a plain string.
   */
  function StoredAuthors(f: Option<Field>, loopList: seq<string>): Field {
    match f
    case Some(StrList(_)) => StrList(loopList)
    case Some(Str(s)) => Str(s)
    case None => Str(Placeholder)
  }

  /**
   One record of the loop: falsy records and records whose identifier is
   already catalogued leave both stores alone; otherwise the paper is
   catalogued under its identifier and its authors are upserted.
   */
  function IngestRecord(st: Store, r: Record): (res: Store)
    ensures st.papers.Keys <= res.papers.Keys
    ensures IsEmpty(r) || PaperId(r) in st.papers ==> res == st
    ensures !IsEmpty(r) && PaperId(r) !in st.papers ==>
              && res.papers.Keys == st.papers.Keys + {PaperId(r)}
              && (forall id :: id in st.papers ==> res.papers[id] == st.papers[id])
              && res.papers[PaperId(r)].title == r.title.GetOr(Placeholder)
              && res.papers[PaperId(r)].keywords == r.keywords.GetOr(Str(Placeholder))
  {
    if IsEmpty(r) then st
    else
      var id := PaperId(r);
      if id in st.papers then st
      else
        var au := Sort(AuthorList(r.authors));
        var loop := AuthorLoop(st.authors, au, 0);
        var paper := Paper(r.title.GetOr(Placeholder), StoredAuthors(r.authors, loop.1),
                           r.keywords.GetOr(Str(Placeholder)));
        Store(loop.0, st.papers[id := paper])
  }

  /** Ingesting a record keeps every author and adds exactly the authors of a new paper. */
  lemma IngestRecordAuthors(st: Store, r: Record)
    ensures st.authors.Keys <= IngestRecord(st, r).authors.Keys
    ensures !IsEmpty(r) && PaperId(r) !in st.papers ==>
              forall a :: a in IngestRecord(st, r).authors <==> a in st.authors || a in AuthorList(r.authors)
  {
    if !IsEmpty(r) && PaperId(r) !in st.papers {
      var au := Sort(AuthorList(r.authors));
      AuthorLoopVisitsEach(st.authors, au, 0);
      UpsertFromKeys(st.authors, au, 0);
      assert au[0..] == au;
      SortKeepsMembers(AuthorList(r.authors));
    }
  }

  /** Sorting neither adds nor loses a name. */
  lemma SortKeepsMembers(s: seq<string>)
    ensures forall a :: a in Sort(s) <==> a in s
  {
    var t := Sort(s);
    forall a
      ensures a in t <==> a in s
    {
      assert a in t <==> a in multiset(t);
      assert a in s <==> a in multiset(s);
    }
  }

  /** A new paper's stored author list is the sorted `AU` list; a scalar or missing `AU` is kept as a string. */
  lemma StoredAuthorsSorted(st: Store, r: Record)
    requires !IsEmpty(r) && PaperId(r) !in st.papers
    ensures r.authors.Some? && r.authors.value.StrList? ==>
              IngestRecord(st, r).papers[PaperId(r)].authors == StrList(Sort(r.authors.value.items))
    ensures r.authors.Some? && r.authors.value.Str? ==>
              IngestRecord(st, r).papers[PaperId(r)].authors == r.authors.value
    ensures r.authors.None? ==> IngestRecord(st, r).papers[PaperId(r)].authors == Str(Placeholder)
  {
    var au := Sort(AuthorList(r.authors));
    AuthorLoopVisitsEach(st.authors, au, 0);
  }

  /** The graph a new paper produces: the sorted author list run through the upserts. */
  lemma NewPaperGraph(st: Store, r: Record)
    requires !IsEmpty(r) && PaperId(r) !in st.papers
    ensures IngestRecord(st, r).authors == UpsertFrom(st.authors, Sort(AuthorList(r.authors)), 0)
  {
    AuthorLoopVisitsEach(st.authors, Sort(AuthorList(r.authors)), 0);
  }

  /**
   The weight `x` gets towards `y` for each of its occurrences on a paper
   listing `xs`: `1/(k-1)` when `y` is still on the list once one `x` is taken
   out, nothing otherwise.
   */
  function Share(xs: seq<string>, x: string, y: string): real
    requires |xs| >= 2
  {
    if multiset(xs)[y] > (if x == y then 1 else 0) then 1.0 / ((|xs| - 1) as real) else 0.0
  }

  lemma GainIsShare(au: seq<string>, xs: seq<string>, x: string, y: string)
    requires |au| >= 2
    requires multiset(au) == multiset(xs)
    requires x in au
    ensures |xs| == |au|
    ensures Gain(au, x, y) == Share(xs, x, y)
  {
    assert |multiset(au)| == |au| && |multiset(xs)| == |xs|;
    RemoveFirstCounts(au, x);
    assert y in RemoveFirst(au, x) <==> y in multiset(RemoveFirst(au, x));
  }

  /**
   Ingesting a new paper with `k >= 2` authors: every author becomes a key, the
   weights stay positive, and the link `x -> y` grows by `1/(k-1)` once for
   every occurrence of `x` on the paper, when `y` is still on the list once one
   `x` is taken out (so `x -> x` grows only when the name is listed twice).
   */
  lemma IngestNewPaperWeights(st: Store, r: Record)
    requires !IsEmpty(r) && PaperId(r) !in st.papers
    requires PositiveWeights(st.authors)
    requires |AuthorList(r.authors)| >= 2
    ensures PositiveWeights(IngestRecord(st, r).authors)
    ensures forall x, y ::
              Weight(IngestRecord(st, r).authors, x, y) ==
              Weight(st.authors, x, y) +
              Times(multiset(AuthorList(r.authors))[x], Share(AuthorList(r.authors), x, y))
  {
    var xs := AuthorList(r.authors);
    var au := Sort(xs);
    NewPaperGraph(st, r);
    UpsertFromWeights(st.authors, au);
    forall x, y
      ensures Weight(IngestRecord(st, r).authors, x, y) ==
              Weight(st.authors, x, y) + Times(multiset(xs)[x], Share(xs, x, y))
    {
      if x in au {
        GainIsShare(au, xs, x, y);
      } else {
        assert multiset(au)[x] == 0;
      }
    }
  }

  /** No name is listed twice. */
  ghost predicate NoRepeats(xs: seq<string>) {
    forall y :: multiset(xs)[y] <= 1
  }

  /**
   A new paper whose `k >= 2` authors are all different adds exactly
   `1/(k-1)` to the link between every two different authors on it, in both
   directions, and changes no other weight.
   */
  lemma IngestDistinctAuthors(st: Store, r: Record)
    requires !IsEmpty(r) && PaperId(r) !in st.papers
    requires PositiveWeights(st.authors)
    requires |AuthorList(r.authors)| >= 2
    requires NoRepeats(AuthorList(r.authors))
    ensures forall x, y ::
              Weight(IngestRecord(st, r).authors, x, y) ==
              Weight(st.authors, x, y) +
              (if x in AuthorList(r.authors) && y in AuthorList(r.authors) && x != y
               then 1.0 / ((|AuthorList(r.authors)| - 1) as real) else 0.0)
  {
    var xs := AuthorList(r.authors);
    IngestNewPaperWeights(st, r);
    forall x, y
      ensures Weight(IngestRecord(st, r).authors, x, y) ==
              Weight(st.authors, x, y) +
              (if x in xs && y in xs && x != y then 1.0 / ((|xs| - 1) as real) else 0.0)
    {
      DistinctShare(xs, x, y);
    }
  }

  lemma DistinctShare(xs: seq<string>, x: string, y: string)
    requires |xs| >= 2
    requires NoRepeats(xs)
    ensures Times(multiset(xs)[x], Share(xs, x, y)) ==
            (if x in xs && y in xs && x != y then 1.0 / ((|xs| - 1) as real) else 0.0)
  {
    assert x in xs <==> x in multiset(xs);
    assert y in xs <==> y in multiset(xs);
    assert multiset(xs)[x] <= 1 && multiset(xs)[y] <= 1;
    if x in xs {
      assert Times(1, Share(xs, x, y)) == Share(xs, x, y);
    }
  }

  /**
   A new paper with a single author (a scalar `AU`, or the `'?'` placeholder
   when `AU` is missing) changes no weight: a new author gets an empty
   neighbour map and a known author keeps its map.
   */
  lemma IngestSoleAuthor(st: Store, r: Record)
    requires !IsEmpty(r) && PaperId(r) !in st.papers
    requires |AuthorList(r.authors)| == 1
    ensures PositiveWeights(st.authors) ==> PositiveWeights(IngestRecord(st, r).authors)
    ensures forall x, y :: Weight(IngestRecord(st, r).authors, x, y) == Weight(st.authors, x, y)
    ensures var a := AuthorList(r.authors)[0];
            a in IngestRecord(st, r).authors &&
            IngestRecord(st, r).authors[a] == (if a in st.authors then st.authors[a] else map[])
  {
    var xs := AuthorList(r.authors);
    IngestRecordAuthors(st, r);
    NewPaperGraph(st, r);
    assert Sort(xs) == xs by {
      SortedUnique(Sort(xs), xs);
    }
    UpsertFromSole(st.authors, xs);
  }

  /**
   Ingestion keeps a symmetric graph symmetric as long as no paper lists the
   same name twice: a skipped record changes nothing and a new paper adds the
   same amount to both directions of each of its links.
   */
  lemma IngestKeepsSymmetry(st: Store, r: Record)
    requires PositiveWeights(st.authors)
    requires Symmetric(st.authors)
    requires NoRepeats(AuthorList(r.authors))
    ensures Symmetric(IngestRecord(st, r).authors)
    ensures PositiveWeights(IngestRecord(st, r).authors)
  {
    if !IsEmpty(r) && PaperId(r) !in st.papers {
      var xs := AuthorList(r.authors);
      if |xs| >= 2 {
        IngestNewPaperWeights(st, r);
        IngestDistinctAuthors(st, r);
      } else if |xs| == 1 {
        IngestSoleAuthor(st, r);
      } else {
        NewPaperGraph(st, r);
      }
    }
  }

  /** Re-ingesting a record is a no-op: its identifier is catalogued by the first pass. */
  lemma IngestTwiceIsOnce(st: Store, r: Record)
    ensures IngestRecord(IngestRecord(st, r), r) == IngestRecord(st, r)
  {
  }

  /**
   The records of one fetched batch, in order. Every non-empty record read
   ends up catalogued, and neither store loses a key.
   */
  function IngestBatch(st: Store, rs: seq<Record>): (res: Store)
    ensures st.authors.Keys <= res.authors.Keys
    ensures st.papers.Keys <= res.papers.Keys
    ensures forall i :: 0 <= i < |rs| && !IsEmpty(rs[i]) ==> PaperId(rs[i]) in res.papers
    decreases |rs|
  {
    if rs == [] then st
    else
      var prev := IngestBatch(st, rs[..|rs| - 1]);
      var res := IngestRecord(prev, rs[|rs| - 1]);
      IngestRecordAuthors(prev, rs[|rs| - 1]);
      assert forall i :: 0 <= i < |rs| - 1 ==> rs[i] == rs[..|rs| - 1][i];
      res
  }

  /** All of the given batches, with no growth limit. */
  function RunBatches(st: Store, bs: seq<seq<Record>>): Store
    decreases |bs|
  {
    if bs == [] then st
    else IngestBatch(RunBatches(st, bs[..|bs| - 1]), bs[|bs| - 1])
  }

  /**
   The batch loop: after each whole batch it stops once the graph holds at
   least `target` authors.
   */
  function GatherFrom(st: Store, bs: seq<seq<Record>>, target: int): Store
    decreases |bs|
  {
    if bs == [] then st
    else
      var next := IngestBatch(st, bs[0]);
      if |next.authors| >= target then next
      else GatherFrom(next, bs[1..], target)
  }

  /**
   `gatherData` once the search and the fetches are done: `pages[k]` is the
   parsed batch of the `k`-th fetch, the one at the `k`-th offset that
   `BatchStarts` gives for the search's result count. The run stops after the
   first whole batch that leaves at least `limit` more authors than it
   started with, or when the pages run out.
   */
  function Gather(init: Store, pages: seq<seq<Record>>, limit: int): Store {
    GatherFrom(init, pages, |init.authors| + limit)
  }

  /** The growth limit holds after the first `k` batches. */
  ghost predicate LimitReached(init: Store, pages: seq<seq<Record>>, limit: int, k: nat)
    requires k <= |pages|
  {
    |RunBatches(init, pages[..k]).authors| >= |init.authors| + limit
  }

  /**
   `Gather` returns the state after the first `m` batches, where `m` is the
   first batch count (at least one when there is a batch) at which the limit
   holds, or all batches when it never does: the limit is looked at between
   batches only, never in the middle of one.
   */
  lemma GatherStopsAtFirstLimit(init: Store, pages: seq<seq<Record>>, limit: int)
    ensures exists m ::
              && 0 <= m <= |pages|
              && Gather(init, pages, limit) == RunBatches(init, pages[..m])
              && (pages != [] ==> m >= 1)
              && (m == |pages| || LimitReached(init, pages, limit, m))
              && (forall k :: 1 <= k < m ==> !LimitReached(init, pages, limit, k))
  {
    assert pages[..0] == [];
    assert pages[0..] == pages;
    GatherFromStops(init, pages, limit, 0);
  }

  lemma {:induction false} GatherFromStops(init: Store, pages: seq<seq<Record>>, limit: int, j: nat)
    requires j <= |pages|
    requires forall k :: 1 <= k <= j ==> !LimitReached(init, pages, limit, k)
    ensures exists m ::
              && j <= m <= |pages|
              && GatherFrom(RunBatches(init, pages[..j]), pages[j..], |init.authors| + limit) ==
                 RunBatches(init, pages[..m])
              && (pages != [] ==> m >= 1)
              && (m == |pages| || LimitReached(init, pages, limit, m))
              && (forall k :: 1 <= k < m ==> !LimitReached(init, pages, limit, k))
    decreases |pages| - j
  {
    var target := |init.authors| + limit;
    var here := RunBatches(init, pages[..j]);
    if j == |pages| {
      assert pages[j..] == [];
      assert GatherFrom(here, pages[j..], target) == here;
    } else {
      var next := IngestBatch(here, pages[j]);
      assert pages[..j + 1][..j] == pages[..j];
      assert next == RunBatches(init, pages[..j + 1]);
      assert pages[j..][1..] == pages[j + 1..];
      if |next.authors| >= target {
        assert GatherFrom(here, pages[j..], target) == next;
        assert LimitReached(init, pages, limit, j + 1);
      } else {
        assert GatherFrom(here, pages[j..], target) == GatherFrom(next, pages[j + 1..], target);
        assert !LimitReached(init, pages, limit, j + 1);
        GatherFromStops(init, pages, limit, j + 1);
      }
    }
  }

  /** The author count never goes down from one batch to the next. */
  lemma {:induction false} AuthorsNeverShrink(init: Store, pages: seq<seq<Record>>, k: nat, l: nat)
    requires k <= l <= |pages|
    ensures RunBatches(init, pages[..k]).authors.Keys <= RunBatches(init, pages[..l]).authors.Keys
    ensures |RunBatches(init, pages[..k]).authors| <= |RunBatches(init, pages[..l]).authors|
    decreases l - k
  {
    if k < l {
      AuthorsNeverShrink(init, pages, k, l - 1);
      assert pages[..l][..l - 1] == pages[..l - 1];
      SubsetCardinality(RunBatches(init, pages[..l - 1]).authors.Keys, RunBatches(init, pages[..l]).authors.Keys);
    }
  }

  lemma SubsetCardinality(a: set<string>, b: set<string>)
    requires a <= b
    ensures |a| <= |b|
  {
    assert b == a + (b - a);
  }

  /** Every page of records keeps the graph symmetric when no record repeats a name. */
  lemma {:induction false} BatchKeepsSymmetry(st: Store, rs: seq<Record>)
    requires PositiveWeights(st.authors) && Symmetric(st.authors)
    requires forall i :: 0 <= i < |rs| ==> NoRepeats(AuthorList(rs[i].authors))
    ensures PositiveWeights(IngestBatch(st, rs).authors) && Symmetric(IngestBatch(st, rs).authors)
    decreases |rs|
  {
    if rs != [] {
      BatchKeepsSymmetry(st, rs[..|rs| - 1]);
      IngestKeepsSymmetry(IngestBatch(st, rs[..|rs| - 1]), rs[|rs| - 1]);
    }
  }

  /** A whole run keeps a symmetric graph symmetric when no record repeats a name. */
  lemma {:induction false} GatherKeepsSymmetry(st: Store, pages: seq<seq<Record>>, target: int)
    requires PositiveWeights(st.authors) && Symmetric(st.authors)
    requires forall k, i :: 0 <= k < |pages| && 0 <= i < |pages[k]| ==> NoRepeats(AuthorList(pages[k][i].authors))
    ensures PositiveWeights(GatherFrom(st, pages, target).authors)
    ensures Symmetric(GatherFrom(st, pages, target).authors)
    decreases |pages|
  {
    if pages != [] {
      BatchKeepsSymmetry(st, pages[0]);
      GatherKeepsSymmetry(IngestBatch(st, pages[0]), pages[1..], target);
    }
  }

  /** No directed link is weaker in `after` than in `before`. */
  ghost predicate NoWeightLost(before: Graph, after: Graph) {
    forall x, y :: Weight(after, x, y) >= Weight(before, x, y)
  }

  lemma {:induction false} TimesNonNegative(count: nat, gain: real)
    requires gain >= 0.0
    ensures Times(count, gain) >= 0.0
    decreases count
  {
    if count > 0 {
      TimesNonNegative(count - 1, gain);
    }
  }

  /** Repeated shares of one paper never lower a weight. */
  lemma SharesNoLoss(before: Graph, after: Graph, xs: seq<string>)
    requires |xs| >= 2
    requires forall x, y :: Weight(after, x, y) == Weight(before, x, y) + Times(multiset(xs)[x], Share(xs, x, y))
    ensures NoWeightLost(before, after)
  {
    forall x, y
      ensures Weight(after, x, y) >= Weight(before, x, y)
    {
      TimesNonNegative(multiset(xs)[x], Share(xs, x, y));
    }
  }

  /**
   Every record, repeated names included, keeps the weights positive and
   never lowers a weight: a paper only ever adds to links.
   */
  lemma IngestGrows(st: Store, r: Record)
    requires PositiveWeights(st.authors)
    ensures PositiveWeights(IngestRecord(st, r).authors)
    ensures NoWeightLost(st.authors, IngestRecord(st, r).authors)
  {
    if !IsEmpty(r) && PaperId(r) !in st.papers {
      var xs := AuthorList(r.authors);
      if |xs| >= 2 {
        IngestNewPaperWeights(st, r);
        SharesNoLoss(st.authors, IngestRecord(st, r).authors, xs);
      } else if |xs| == 1 {
        IngestSoleAuthor(st, r);
      } else {
        NewPaperGraph(st, r);
        assert Sort(xs) == [];
      }
    }
  }

  /** A whole batch keeps the weights positive and never lowers a weight. */
  lemma {:induction false} BatchGrows(st: Store, rs: seq<Record>)
    requires PositiveWeights(st.authors)
    ensures PositiveWeights(IngestBatch(st, rs).authors)
    ensures NoWeightLost(st.authors, IngestBatch(st, rs).authors)
    decreases |rs|
  {
    if rs != [] {
      var prev := IngestBatch(st, rs[..|rs| - 1]);
      BatchGrows(st, rs[..|rs| - 1]);
      IngestGrows(prev, rs[|rs| - 1]);
    }
  }

  /** A whole run keeps the weights positive and never lowers a weight, whatever the records. */
  lemma {:induction false} GatherGrows(st: Store, pages: seq<seq<Record>>, target: int)
    requires PositiveWeights(st.authors)
    ensures PositiveWeights(GatherFrom(st, pages, target).authors)
    ensures NoWeightLost(st.authors, GatherFrom(st, pages, target).authors)
    decreases |pages|
  {
    if pages != [] {
      BatchGrows(st, pages[0]);
      GatherGrows(IngestBatch(st, pages[0]), pages[1..], target);
    }
  }

  /** `range(p, n, BatchSize)`. */
  function RangeFrom(p: nat, n: nat): (r: seq<nat>)
    ensures |r| == if p >= n then 0 else (n - p + BatchSize - 1) / BatchSize
    ensures forall i :: 0 <= i < |r| ==> r[i] == p + i * BatchSize && r[i] < n
    decreases n - p
  {
    if p >= n then [] else [p] + RangeFrom(p + BatchSize, n)
  }

  /**
   The offsets the batch loop fetches at, `range(0, num_papers, batch)`: one
   per started block of forty results.
   */
  function BatchStarts(numPapers: nat): (r: seq<nat>)
    ensures |r| == (numPapers + BatchSize - 1) / BatchSize
    ensures forall i :: 0 <= i < |r| ==> r[i] == i * BatchSize && r[i] < numPapers
  {
    RangeFrom(0, numPapers)
  }

  /**
   Two different people with the same Medline name on one paper (`AU` listing
   `w` twice next to `l`) break symmetry: each entry of `w` gives its own
   share, so `w -> l` grows by two halves while `l -> w` grows by one, and
   `w` gains a link to itself.
   */
  lemma RepeatedNameIsAsymmetric(st: Store, r: Record, w: string, l: string)
    requires !IsEmpty(r) && PaperId(r) !in st.papers
    requires PositiveWeights(st.authors)
    requires AuthorList(r.authors) == [w, w, l]
    requires w != l
    ensures Weight(IngestRecord(st, r).authors, w, l) == Weight(st.authors, w, l) + 1.0
    ensures Weight(IngestRecord(st, r).authors, l, w) == Weight(st.authors, l, w) + 0.5
    ensures Weight(IngestRecord(st, r).authors, w, w) == Weight(st.authors, w, w) + 1.0
  {
    var xs := AuthorList(r.authors);
    assert multiset(xs) == multiset{w, w, l};
    assert multiset(xs)[w] == 2 && multiset(xs)[l] == 1;
    assert |xs| == 3;
    assert Share(xs, w, l) == 0.5;
    assert Share(xs, l, w) == 0.5;
    assert Share(xs, w, w) == 0.5;
    assert Times(2, 0.5) == 1.0;
    assert Times(1, 0.5) == 0.5;
    IngestNewPaperWeights(st, r);
  }

  /** A new paper by two different authors links them with weight one each way. */
  lemma PairPaper(st: Store, r: Record, a: string, b: string)
    requires !IsEmpty(r) && PaperId(r) !in st.papers
    requires PositiveWeights(st.authors)
    requires AuthorList(r.authors) == [a, b] && a != b
    ensures PositiveWeights(IngestRecord(st, r).authors)
    ensures forall x, y :: Weight(IngestRecord(st, r).authors, x, y) ==
              Weight(st.authors, x, y) + (if (x == a && y == b) || (x == b && y == a) then 1.0 else 0.0)
  {
    var xs := AuthorList(r.authors);
    assert multiset(xs) == multiset{a, b};
    assert NoRepeats(xs);
    IngestNewPaperWeights(st, r);
    IngestDistinctAuthors(st, r);
    PairWeights(st.authors, IngestRecord(st, r).authors, xs, a, b);
  }

  /** The distinct-author gain of a two-name list, spelt out. */
  lemma PairWeights(g0: Graph, g: Graph, xs: seq<string>, a: string, b: string)
    requires xs == [a, b] && a != b
    requires forall x, y :: Weight(g, x, y) ==
               Weight(g0, x, y) + (if x in xs && y in xs && x != y then 1.0 / ((|xs| - 1) as real) else 0.0)
    ensures forall x, y :: Weight(g, x, y) ==
              Weight(g0, x, y) + (if (x == a && y == b) || (x == b && y == a) then 1.0 else 0.0)
  {
    assert 1.0 / ((|xs| - 1) as real) == 1.0;
    forall x, y
      ensures Weight(g, x, y) ==
              Weight(g0, x, y) + (if (x == a && y == b) || (x == b && y == a) then 1.0 else 0.0)
    {
      assert x in xs <==> x == a || x == b;
      assert y in xs <==> y == a || y == b;
    }
  }

  /** A new paper by three different authors adds one half to each of their links, each way. */
  lemma TriplePaper(st: Store, r: Record, a: string, b: string, c: string)
    requires !IsEmpty(r) && PaperId(r) !in st.papers
    requires PositiveWeights(st.authors)
    requires AuthorList(r.authors) == [a, b, c] && a != b && b != c && a != c
    ensures forall x, y :: Weight(IngestRecord(st, r).authors, x, y) ==
              Weight(st.authors, x, y) + (if x in {a, b, c} && y in {a, b, c} && x != y then 0.5 else 0.0)
  {
    var xs := AuthorList(r.authors);
    assert multiset(xs) == multiset{a, b, c};
    assert NoRepeats(xs);
    var share := 1.0 / ((|xs| - 1) as real);
    assert share == 0.5 by {
      assert |xs| == 3 && ((|xs| - 1) as real) == 2.0;
    }
    IngestDistinctAuthors(st, r);
    var g := IngestRecord(st, r).authors;
    forall x, y
      ensures Weight(g, x, y) ==
              Weight(st.authors, x, y) + (if x in {a, b, c} && y in {a, b, c} && x != y then 0.5 else 0.0)
    {
      var on := x in xs && y in xs && x != y;
      assert Weight(g, x, y) == Weight(st.authors, x, y) + (if on then share else 0.0);
      InThree(xs, a, b, c, x);
      InThree(xs, a, b, c, y);
    }
  }

  lemma InThree(xs: seq<string>, a: string, b: string, c: string, x: string)
    requires xs == [a, b, c]
    ensures x in xs <==> x in {a, b, c}
  {
  }

  /**
   Two papers from an empty start, the first by `a` and `b`, the second by
   `a`, `b` and `c`: `a` and `b` end up linked by 1 + 1/2 each way, each of
   them linked to `c` by 1/2 each way, nothing else is linked, and both
   papers are catalogued.
   */
  lemma TwoPaperScenario(st: Store, r1: Record, r2: Record, a: string, b: string, c: string)
    requires st.authors == map[] && st.papers == map[]
    requires a != b && b != c && a != c
    requires !IsEmpty(r1) && AuthorList(r1.authors) == [a, b]
    requires !IsEmpty(r2) && AuthorList(r2.authors) == [a, b, c]
    requires PaperId(r1) != PaperId(r2)
    ensures var g := IngestRecord(IngestRecord(st, r1), r2).authors;
            && g.Keys == {a, b, c}
            && Weight(g, a, b) == 1.5 && Weight(g, b, a) == 1.5
            && Weight(g, a, c) == 0.5 && Weight(g, c, a) == 0.5
            && Weight(g, b, c) == 0.5 && Weight(g, c, b) == 0.5
            && (forall x, y :: !(x in {a, b, c} && y in {a, b, c} && x != y) ==> Weight(g, x, y) == 0.0)
    ensures |IngestRecord(IngestRecord(st, r1), r2).papers| == 2
  {
    var st1 := IngestRecord(st, r1);
    ScenarioFirst(st, r1, a, b);
    ScenarioSecond(st1, r2, a, b, c);
    ScenarioWeights(st.authors, st1.authors, IngestRecord(st1, r2).authors, a, b, c);
  }

  /** The first paper of the scenario: one link each way, its two authors as the only keys. */
  lemma ScenarioFirst(st: Store, r1: Record, a: string, b: string)
    requires st.authors == map[] && st.papers == map[]
    requires a != b
    requires !IsEmpty(r1) && AuthorList(r1.authors) == [a, b]
    ensures PositiveWeights(IngestRecord(st, r1).authors)
    ensures forall x, y :: Weight(IngestRecord(st, r1).authors, x, y) ==
              Weight(st.authors, x, y) + (if (x == a && y == b) || (x == b && y == a) then 1.0 else 0.0)
    ensures IngestRecord(st, r1).authors.Keys == {a, b}
    ensures IngestRecord(st, r1).papers.Keys == {PaperId(r1)}
  {
    PairPaper(st, r1, a, b);
    IngestRecordAuthors(st, r1);
    SetOfTwo(IngestRecord(st, r1).authors.Keys, [a, b]);
  }

  /** The second paper of the scenario, added to the first one's result. */
  lemma ScenarioSecond(st1: Store, r2: Record, a: string, b: string, c: string)
    requires PositiveWeights(st1.authors)
    requires st1.authors.Keys == {a, b}
    requires a != b && b != c && a != c
    requires !IsEmpty(r2) && AuthorList(r2.authors) == [a, b, c] && PaperId(r2) !in st1.papers
    ensures forall x, y :: Weight(IngestRecord(st1, r2).authors, x, y) ==
              Weight(st1.authors, x, y) + (if x in {a, b, c} && y in {a, b, c} && x != y then 0.5 else 0.0)
    ensures IngestRecord(st1, r2).authors.Keys == {a, b, c}
    ensures IngestRecord(st1, r2).papers.Keys == st1.papers.Keys + {PaperId(r2)}
  {
    TriplePaper(st1, r2, a, b, c);
    IngestRecordAuthors(st1, r2);
    SetOfThree(st1.authors.Keys, IngestRecord(st1, r2).authors.Keys, [a, b, c]);
  }

  lemma SetOfTwo(keys: set<string>, p: seq<string>)
    requires |p| == 2
    requires forall x :: x in keys <==> x in p
    ensures keys == {p[0], p[1]}
  {
    assert forall x :: x in p <==> x == p[0] || x == p[1];
  }

  lemma SetOfThree(before: set<string>, keys: set<string>, p: seq<string>)
    requires |p| == 3 && before == {p[0], p[1]}
    requires forall x :: x in keys <==> x in before || x in p
    ensures keys == {p[0], p[1], p[2]}
  {
    assert forall x :: x in p <==> x == p[0] || x == p[1] || x == p[2];
  }

  /** The weight arithmetic of the two-paper scenario, over plain graphs. */
  lemma ScenarioWeights(g0: Graph, g1: Graph, g2: Graph, a: string, b: string, c: string)
    requires g0 == map[]
    requires forall x, y :: Weight(g1, x, y) ==
               Weight(g0, x, y) + (if (x == a && y == b) || (x == b && y == a) then 1.0 else 0.0)
    requires forall x, y :: Weight(g2, x, y) ==
               Weight(g1, x, y) + (if x in {a, b, c} && y in {a, b, c} && x != y then 0.5 else 0.0)
    requires a != b && b != c && a != c
    ensures Weight(g2, a, b) == 1.5 && Weight(g2, b, a) == 1.5
    ensures Weight(g2, a, c) == 0.5 && Weight(g2, c, a) == 0.5
    ensures Weight(g2, b, c) == 0.5 && Weight(g2, c, b) == 0.5
    ensures forall x, y :: !(x in {a, b, c} && y in {a, b, c} && x != y) ==> Weight(g2, x, y) == 0.0
  {
    forall x, y | !(x in {a, b, c} && y in {a, b, c} && x != y)
      ensures Weight(g2, x, y) == 0.0
    {
      assert Weight(g0, x, y) == 0.0;
      assert !((x == a && y == b) || (x == b && y == a));
    }
    assert Weight(g2, a, b) == Weight(g1, a, b) + 0.5 == 1.0 + 0.5;
    assert Weight(g2, b, a) == Weight(g1, b, a) + 0.5 == 1.0 + 0.5;
  }

  /**
   Records without a PMID all share the placeholder key: once one such
   record is catalogued, every later one is skipped.
   */
  lemma IdlessRecordsCollide(st: Store, r1: Record, r2: Record)
    requires !IsEmpty(r1) && r1.pmid.None? && r2.pmid.None?
    ensures IngestRecord(IngestRecord(st, r1), r2) == IngestRecord(st, r1)
  {
  }
}
