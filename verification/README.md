# pubmed_network co-authorship graph, modelled in Dafny

This project models the core of `pubmed_network`: code that builds a weighted co-authorship graph from PubMed Medline records. It covers:

- **Link weights** (`authorWeight`, `addAuthor`, `updateAuthor`). Every co-author on a paper gets the weight `1/(number of co-authors)`. A new author is installed with those weights. A known author has them added through a `Counter` sum, which drops any key whose sum is not positive.
- **The record and batch loop of `gatherData`.** A falsy record is skipped. A record is also skipped when its PMID is already in the paper catalogue, and a missing PMID counts as `'?'`. Otherwise:
  - the paper is catalogued under its PMID;
  - its author list is sorted (a scalar `AU` is wrapped first);
  - each author is upserted with the list minus one copy of itself.
  After each whole batch, the run stops once the graph has grown by the author limit.
- **The two exporters.** `makeAdjList` writes one line per unordered pair of underscore-joined names. `writeForInfomap` numbers names in the order they are first met and writes one line per directed entry. Both return their lines as triples instead of writing a file.
- **The author lookup `authorKeywords`** (adata.py). It gathers the ids, titles and keywords of the papers that list an author. The first match's keyword field is stored as one element. Later matches are spliced in by `extend`.

## Modelling choices

- **Weights** are exact `real` numbers rather than floats.
- **Dictionaries** are `map`s. Where the source iterates over a dictionary, the iteration order is an explicit `seq` parameter. The predicate `Enumerates` (or `IteratesOver` for a whole graph) requires that it list every key exactly once.
- **Field values.** A Medline or catalogue field that is either a string or a list of strings is the datatype `Field`. Examples are the `'?'` placeholder, a scalar `AU`, and a list of keywords.
- **String tests and sorting.** `in` on a string field is a substring test (`Names.Substring`). `list.sort` orders by character code, as Python 2 compares `str`.
- **Aliasing of the author list.** The catalogue entry's `Authors` is the same list object that the author loop sorts and reshuffles. So a new paper's stored author list is the sorted list (`Ingestion.StoredAuthorsSorted`).
- **The remove/append/sort steps** give back the same sorted list (`Names.RemoveAppendSortRestores`). The loop therefore visits every index once (`Ingestion.AuthorLoopVisitsEach`).
- **Repeated names.** `list.remove` drops only the first copy, so a name listed twice on one paper stays among its own co-authors. That breaks the symmetry of the weights (`Ingestion.RepeatedNameIsAsymmetric`). Symmetry is therefore proved for papers without repeated names.
- **The growth limit** is checked only after a whole batch, as the code at get_data.py:175-176 does, never after a single record.
- **Fetching.** The Entrez search and fetches become a parameter: the parsed batches, one per fetch. `Ingestion.BatchStarts` gives the fetch offsets for a search's result count, but a run takes only the batches, so nothing ties their number to that count. The initial graph and catalogue, normally loaded from JSON, are parameters too.

## Model

| member | source | states |
|---|---|---|
| AuthorGraph.AuthorWeight | get_data.py:20-33 | the keys are exactly the co-authors, and each co-author's weight is one over the number of co-authors; an empty list is excluded because it divides by zero |
| AuthorGraph.AuthorWeightSumsToOne | get_data.py:26-30 | with no repeated co-author, the weights of one paper add up to exactly one |
| AuthorGraph.CounterAddIsCounterSum | get_data.py:49 | the library's `Counter.__add__`, written as its two loops (the left counter's keys with a positive sum, then the right counter's other keys with a positive count), gives the key-by-key sum restricted to positive results, in whatever order either counter is iterated |
| AuthorGraph.CounterSumAdds | get_data.py:49 | on positive counts the `Counter` sum keeps the union of the keys and adds the counts key by key |
| AuthorGraph.AddAuthorEffect | get_data.py:36-42 | `addAuthor` installs the author with an empty map when there are no co-authors, and otherwise with weight `1/len` for exactly the co-authors; every other author is unchanged |
| AuthorGraph.UpdateAuthorEffect | get_data.py:45-51 | `updateAuthor` changes nothing when there are no co-authors; otherwise each neighbour's weight becomes old + `1/len` if listed, clipped by the `Counter`; the keys and every other author are unchanged |
| AuthorGraph.UpsertFrame | get_data.py:162-172 | updating or adding an author makes it a key and leaves every other author's map alone |
| AuthorGraph.UpsertWeights | get_data.py:162-172 | on positive weights one upsert adds `1/len` exactly to the links from the author to its listed co-authors, and keeps weights positive |
| Names.Sort | get_data.py:161 | `au.sort()` yields a sorted permutation of the list |
| Names.RemoveFirstCounts | get_data.py:164 | `list.remove` of a present element takes away exactly one copy of it and nothing else; for an absent element the model returns the list unchanged, a case the loop never reaches because it only removes `au[i]` |
| Names.RemoveFirstDropsFirst | get_data.py:164 | `list.remove` of a present element deletes its first occurrence and keeps every other element in its place |
| Names.RemoveAppendSortRestores | get_data.py:164-167 | removing an element of a sorted list, appending it and sorting again gives back the same list |
| Names.Underscore | get_data.py:66-69 | `replace(' ', '_')` keeps the length and changes exactly the spaces into underscores |
| Ingestion.AuthorLoopVisitsEach | get_data.py:161-172 | on a sorted list, the author loop upserts every entry once, in index order, with the list minus that entry as co-authors, and leaves the list as it was |
| Ingestion.UpsertFromWeights | get_data.py:162-172 | on positive weights, upserting every entry of a list of `k >= 2` names adds `1/(k-1)` to `x -> y` once per occurrence of `x`, whenever `y` remains after removing one `x` |
| Ingestion.IngestRecord | get_data.py:147-156 | a falsy or already-catalogued record leaves both stores unchanged; a new one adds exactly its id to the catalogue, with its title and keywords (or `'?'`), and keeps every other paper |
| Ingestion.IngestRecordAuthors | get_data.py:158-172 | no author is ever lost, and after a new paper an author is in the graph iff it was before or is on the paper's author list |
| Ingestion.StoredAuthorsSorted | get_data.py:156-161 | the stored `Authors` of a new paper is its sorted author list, or the scalar/placeholder string as given |
| Ingestion.IngestNewPaperWeights | get_data.py:158-172 | a new paper with `k >= 2` author entries adds `1/(k-1)` to `x -> y` once per entry of `x`, whenever `y` remains after removing one `x`; weights stay positive |
| Ingestion.IngestDistinctAuthors | get_data.py:158-172 | with `k >= 2` different authors, every ordered pair of different authors on the paper gains exactly `1/(k-1)` and no other weight changes |
| Ingestion.PairPaper | get_data.py:158-172 | a new two-author paper adds weight one to both directions of its single link |
| Ingestion.TriplePaper | get_data.py:158-172 | a new three-author paper adds one half to both directions of each of its three links |
| Ingestion.IngestSoleAuthor | get_data.py:158-172 | on any graph, a new single-author paper (including a scalar or missing `AU`) changes no weight and keeps positive weights positive; the author keeps its map, or gets an empty one if new |
| Ingestion.RepeatedNameIsAsymmetric | get_data.py:162-172 | a paper listing `w, w, l` gives `w -> l` one, `l -> w` one half, and `w -> w` one |
| Ingestion.TwoPaperScenario | get_data.py:147-172 | from empty stores, a paper by `a, b` and then one by `a, b, c` give `a`–`b` weight 1.5 each way, `a`–`c` and `b`–`c` 0.5 each way, no other link, the keys `a, b, c`, and two catalogued papers |
| Ingestion.IngestGrows | get_data.py:147-172 | every record, repeated names included, keeps positive weights positive and never lowers any weight |
| Ingestion.IngestKeepsSymmetry | get_data.py:147-172 | when no paper repeats a name, ingesting a record keeps a symmetric, positive graph symmetric and positive |
| Ingestion.IngestTwiceIsOnce | get_data.py:149-153 | feeding the same record twice has the effect of feeding it once |
| Ingestion.IdlessRecordsCollide | get_data.py:149-153 | records without a PMID share the key `'?'`, so every one after the first is skipped |
| Ingestion.IngestBatch | get_data.py:147-172 | after a batch every non-empty record's id is catalogued, and neither store has lost a key |
| Ingestion.GatherStopsAtFirstLimit | get_data.py:141-176 | the run's result is the state after the first whole batch whose author count reaches the start count plus the limit, or after all batches if none does |
| Ingestion.AuthorsNeverShrink | get_data.py:141-176 | the set and number of authors never decrease from one batch to a later one |
| Ingestion.BatchGrows | get_data.py:147-172 | a whole batch keeps positive weights positive and never lowers any weight |
| Ingestion.GatherGrows | get_data.py:141-176 | a whole run, whatever its records, keeps positive weights positive and never lowers any weight |
| Ingestion.GatherKeepsSymmetry | get_data.py:141-176 | a whole run keeps a symmetric, positive graph symmetric when no record repeats a name |
| Ingestion.BatchStarts | get_data.py:137-141 | the fetch offsets are 0, 40, 80, …, one per started block of forty results |
| NetworkExport.EntriesExact | get_data.py:65-68 | the nested loops meet exactly the stored directed entries, each with its stored weight |
| NetworkExport.AdjFoldAdded | get_data.py:64-72 | the `added_authors` pairs are exactly those, in either direction, joined by some entry seen so far |
| NetworkExport.AdjFoldIsFirstPairs | get_data.py:63-73 | the lines written are, in order, the first line met for each unordered pair |
| NetworkExport.FirstPairsFromEntries | get_data.py:67-72 | every written line comes from a stored entry, with its names underscored and its stored weight |
| NetworkExport.FirstPairsCoverEntries | get_data.py:65-72 | every stored entry's unordered pair has a written line |
| NetworkExport.MakeAdjListSpec | get_data.py:63-73 | the lines are the first underscore-joined line for each unordered pair, with that line's weight; no pair appears twice, and every stored entry's pair appears |
| NetworkExport.InfoRowNumbers | get_data.py:84-88 | the inner loop numbers new neighbours in encounter order and never changes a number already given |
| NetworkExport.InfoRowExtends | get_data.py:84-87 | the inner loop keeps every number already given and numbers every neighbour it visits |
| NetworkExport.InfomapIdsSpec | get_data.py:76-88 | exactly the authors and co-authors get numbers; these are 1, 2, 3, … in first-encounter order, distinct and no larger than the number of names |
| NetworkExport.InfomapLinesSpec | get_data.py:80-90 | there is one line per stored directed entry, in iteration order, with both names' numbers and the weight; the line count is the sum of the neighbour-map sizes |
| AuthorQuery.Matching | adata.py:24-25 | the reference filter keeps exactly the ids whose paper lists the author |
| AuthorQuery.TitlesOf | adata.py:28-38 | the titles are index-aligned with the ids |
| AuthorQuery.ExpectedSnoc | adata.py:25-38 | one more matching paper turns the reference result for the earlier matches into the result with that paper added the way the loop body adds it |
| AuthorQuery.QueryUpToIsExpected | adata.py:24-39 | after each paper, the lookup's partial result equals the reference built from the matching ids seen so far |
| AuthorQuery.AuthorKeywordsSpec | adata.py:21-43 | the result is keyed by the author alone and holds the matching ids without repeats, in iteration order; their titles; and the first paper's keyword field whole, followed by every later paper's keywords spliced in |
| AuthorQuery.AuthorKeywordsEmptyIff | adata.py:24-25 | the lookup returns `{}` iff no paper lists the author |
| AuthorQuery.AuthorKeywordsFindsEach | adata.py:24-37 | a paper id is reported iff its paper lists the author |

## Left out

- Entrez search and fetch, and Medline parsing (get_data.py:122-145, 173): these are network I/O, so a run is given the parsed batches.
- JSON loading and saving, and the fallback to empty stores when no file exists (get_data.py:57-61, 103-117; adata.py:11-15, 50-53): these are file I/O, so the initial stores are parameters.
- The command-line entry point and the interactive prompt with its printing (get_data.py:186-209; adata.py:46-75): these are user interface only.
- Float rounding and `str(weight)` formatting of the exported lines: weights are exact reals, and lines are triples rather than text.
- The hash order of Python dictionaries: iteration orders are parameters, constrained only to list each key once.
- Python 2 `str` versus `unicode`: strings are sequences of characters compared by code.
- AuthorGraph.AuthorWeight: requires a non-empty list. The source raises `ZeroDivisionError` there, and its callers never pass an empty list.
- AuthorGraph.UpsertWeights: assumes every stored weight is positive. A graph loaded with zero or negative weights would lose links through the `Counter` sum, and that case is described only by `UpdateAuthorEffect`.
- Ingestion.IngestNewPaperWeights: assumes positive stored weights, for the same reason.
- Ingestion.IngestDistinctAuthors: holds only for papers without repeated names. `IngestNewPaperWeights` covers the general case.
- Ingestion.IngestKeepsSymmetry: holds only when the paper repeats no name. `RepeatedNameIsAsymmetric` shows that symmetry fails otherwise.
- Ingestion.GatherKeepsSymmetry: holds only when no record repeats a name, for the same reason.
- Names.RemoveFirst: for an element not on the list it returns the list unchanged, where `list.remove` raises `ValueError`. The ingestion loop only removes an element of the list, so it never meets that case.
- AuthorGraph.UpdateAuthor: requires the author to be in the graph, where the source raises `KeyError`. Its only caller, the ingestion loop, calls it only for a known author.
- The default `limit=200` of `gatherData` (get_data.py:94): the limit is a parameter of a run, with no default.
- The progress messages `gatherData` and `authorKeywords` print (get_data.py:129, 152, 174; adata.py:27, 42): output only, with no effect on the stores or the result.
- `papers` is never modified by `authorKeywords`: this holds by construction, because the query is a pure function.
