/**
 The two network exporters of get_data.py. Instead of writing text files
 they return the lines as triples: `makeAdjList` gives one
 `(name, name, weight)` line per unordered pair of underscore-joined names,
 `writeForInfomap` gives one `(id, id, weight)` line per stored directed
 entry, numbering authors in the order they are first met. Both depend on
 the order in which the dictionaries are iterated, which is passed in.
 */
module NetworkExport {
  import opened Names
  import opened AuthorGraph

  /** The iteration order of the graph's keys and of each neighbour map's keys. */
  datatype KeyOrder = KeyOrder(outer: seq<string>, inner: map<string, seq<string>>)

  /**
   What the nested loops need to run: every author `ord` lists is a key of
   `g`, and every neighbour its inner order lists is in its map.
   */
  ghost predicate Visitable(g: Graph, ord: KeyOrder) {
    forall i :: 0 <= i < |ord.outer| ==>
      && ord.outer[i] in g
      && ord.outer[i] in ord.inner
      && (forall c :: c in ord.inner[ord.outer[i]] ==> c in g[ord.outer[i]])
  }

  /**
   `ord` lists every author once, and every neighbour of each author once
   (which makes it `Visitable`, stated first for the loops' sake).
   */
  ghost predicate IteratesOver(g: Graph, ord: KeyOrder) {
    && Visitable(g, ord)
    && Enumerates(ord.outer, g.Keys)
    && (forall a :: a in g ==> a in ord.inner && Enumerates(ord.inner[a], g[a].Keys))
  }

  /** The author visited `i`-th by the outer loop, and the keys its inner loop visits. */
  lemma AuthorAt(g: Graph, ord: KeyOrder, i: nat)
    requires Visitable(g, ord)
    requires i < |ord.outer|
    ensures ord.outer[i] in g && ord.outer[i] in ord.inner
    ensures forall c :: c in ord.inner[ord.outer[i]] ==> c in g[ord.outer[i]]
  {
  }

  /** One directed entry `from -> to` of the graph with its weight, or one exported line. */
  datatype Edge = Edge(from: string, to: string, weight: real)

  /** The entries of author `a` among the neighbours `cs`, in that order. */
  function RowOf(a: string, cs: seq<string>, row: Neighbours): seq<Edge>
    requires forall c :: c in cs ==> c in row
    decreases |cs|
  {
    if cs == [] then []
    else RowOf(a, cs[..|cs| - 1], row) + [Edge(a, cs[|cs| - 1], row[cs[|cs| - 1]])]
  }

  /** The directed entries met by the nested loops over the first `n` authors. */
  function EntriesUpTo(g: Graph, ord: KeyOrder, n: nat): seq<Edge>
    requires Visitable(g, ord)
    requires n <= |ord.outer|
    decreases n
  {
    if n == 0 then []
    else
      var a := ord.outer[n - 1];
      EntriesUpTo(g, ord, n - 1) + RowOf(a, ord.inner[a], g[a])
  }

  /** Every directed entry of the graph, in iteration order. */
  function Entries(g: Graph, ord: KeyOrder): seq<Edge>
    requires Visitable(g, ord)
  {
    EntriesUpTo(g, ord, |ord.outer|)
  }

  lemma {:induction false} RowOfExact(a: string, cs: seq<string>, row: Neighbours)
    requires forall c :: c in cs ==> c in row
    ensures |RowOf(a, cs, row)| == |cs|
    ensures forall e :: e in RowOf(a, cs, row) <==> e.from == a && e.to in cs && e.weight == row[e.to]
    decreases |cs|
  {
    if cs != [] {
      RowOfExact(a, cs[..|cs| - 1], row);
      assert cs == cs[..|cs| - 1] + [cs[|cs| - 1]];
    }
  }

  /**
   The nested loops meet exactly the stored directed entries, each with its
   stored weight.
   */
  lemma {:induction false} EntriesUpToExact(g: Graph, ord: KeyOrder, n: nat)
    requires IteratesOver(g, ord)
    requires n <= |ord.outer|
    ensures forall e :: e in EntriesUpTo(g, ord, n) <==>
              e.from in ord.outer[..n] && e.to in g[e.from] && e.weight == g[e.from][e.to]
    decreases n
  {
    if n > 0 {
      var a := ord.outer[n - 1];
      EntriesUpToExact(g, ord, n - 1);
      RowOfExact(a, ord.inner[a], g[a]);
      assert ord.outer[..n] == ord.outer[..n - 1] + [a];
    }
  }

  lemma EntriesExact(g: Graph, ord: KeyOrder)
    requires IteratesOver(g, ord)
    ensures forall e :: e in Entries(g, ord) <==>
              e.from in g && e.to in g[e.from] && e.weight == g[e.from][e.to]
  {
    EntriesUpToExact(g, ord, |ord.outer|);
    assert ord.outer[..|ord.outer|] == ord.outer;
  }

  // ---------------------------------------------------------------------
  // makeAdjList

  /** The line `makeAdjList` would write for an entry: both names with spaces turned into underscores. */
  function Convert(e: Edge): Edge {
    Edge(Underscore(e.from), Underscore(e.to), e.weight)
  }

  function ConvertAll(es: seq<Edge>): (cs: seq<Edge>)
    ensures |cs| == |es|
    ensures forall i :: 0 <= i < |es| ==> cs[i] == Convert(es[i])
    decreases |es|
  {
    if es == [] then [] else ConvertAll(es[..|es| - 1]) + [Convert(es[|es| - 1])]
  }

  /** `e` joins `a` and `b`, in either direction. */
  predicate Joins(e: Edge, a: string, b: string) {
    (e.from == a && e.to == b) || (e.from == b && e.to == a)
  }

  /** Some line of `cs` joins `a` and `b`. */
  ghost predicate Covers(cs: seq<Edge>, a: string, b: string) {
    exists k :: 0 <= k < |cs| && Joins(cs[k], a, b)
  }

  /** No earlier line of `cs` joins the same two names as line `i`. */
  ghost predicate FirstOfPair(cs: seq<Edge>, i: nat)
    requires i < |cs|
  {
    forall k :: 0 <= k < i ==> !Joins(cs[k], cs[i].from, cs[i].to)
  }

  /**
   Reference for the deduplicated adjacency list: the lines of `cs` that are
   the first to join their two names, in order.
   */
  ghost function FirstPairs(cs: seq<Edge>): seq<Edge>
    decreases |cs|
  {
    if cs == [] then []
    else if FirstOfPair(cs, |cs| - 1) then FirstPairs(cs[..|cs| - 1]) + [cs[|cs| - 1]]
    else FirstPairs(cs[..|cs| - 1])
  }

  /** The loop state of `makeAdjList`: the ordered pairs already written (both ways round) and the lines. */
  datatype AdjState = AdjState(added: set<(string, string)>, lines: seq<Edge>)

  function AdjStep(st: AdjState, e: Edge): AdjState {
    var au := Underscore(e.from);
    var coau := Underscore(e.to);
    if (au, coau) !in st.added && (coau, au) !in st.added then
      AdjState(st.added + {(au, coau), (coau, au)}, st.lines + [Edge(au, coau, e.weight)])
    else st
  }

  function AdjFold(es: seq<Edge>): AdjState
    decreases |es|
  {
    if es == [] then AdjState({}, [])
    else AdjStep(AdjFold(es[..|es| - 1]), es[|es| - 1])
  }

  /** `makeAdjList`: the lines it writes, in order. */
  function MakeAdjList(g: Graph, ord: KeyOrder): seq<Edge>
    requires Visitable(g, ord)
  {
    AdjFold(Entries(g, ord)).lines
  }

  /** One more line covers its own pair and whatever was covered before. */
  lemma CoversSnoc(cs: seq<Edge>, c: Edge)
    ensures forall a, b :: Covers(cs + [c], a, b) <==> Covers(cs, a, b) || Joins(c, a, b)
  {
    forall a, b
      ensures Covers(cs + [c], a, b) <==> Covers(cs, a, b) || Joins(c, a, b)
    {
      if Covers(cs + [c], a, b) && !Joins(c, a, b) {
        var k :| 0 <= k < |cs + [c]| && Joins((cs + [c])[k], a, b);
        assert k < |cs| && (cs + [c])[k] == cs[k];
      }
      if Covers(cs, a, b) {
        var k :| 0 <= k < |cs| && Joins(cs[k], a, b);
        assert (cs + [c])[k] == cs[k];
      }
      if Joins(c, a, b) {
        assert (cs + [c])[|cs|] == c;
      }
    }
  }

  /** The `added_authors` pairs are exactly the pairs some entry seen so far joins, both ways round. */
  lemma {:induction false} AdjFoldAdded(es: seq<Edge>)
    ensures forall a, b :: (a, b) in AdjFold(es).added <==> Covers(ConvertAll(es), a, b)
    decreases |es|
  {
    if es != [] {
      var init := es[..|es| - 1];
      AdjFoldAdded(init);
      assert ConvertAll(es) == ConvertAll(init) + [Convert(es[|es| - 1])];
      CoversSnoc(ConvertAll(init), Convert(es[|es| - 1]));
    }
  }

  /**
   The `added_authors` bookkeeping is exact, so the lines written are the
   first line for each pair.
   */
  lemma {:induction false} AdjFoldIsFirstPairs(es: seq<Edge>)
    ensures AdjFold(es).lines == FirstPairs(ConvertAll(es))
    decreases |es|
  {
    if es != [] {
      var init := es[..|es| - 1];
      var cs := ConvertAll(es);
      var c := Convert(es[|es| - 1]);
      AdjFoldIsFirstPairs(init);
      AdjFoldAdded(init);
      assert cs == ConvertAll(init) + [c];
      assert cs[..|cs| - 1] == ConvertAll(init);
      assert FirstOfPair(cs, |cs| - 1) <==> !Covers(ConvertAll(init), c.from, c.to) by {
        if !FirstOfPair(cs, |cs| - 1) {
          var k :| 0 <= k < |cs| - 1 && Joins(cs[k], c.from, c.to);
          assert ConvertAll(init)[k] == cs[k];
        }
        if Covers(ConvertAll(init), c.from, c.to) {
          var k :| 0 <= k < |init| && Joins(ConvertAll(init)[k], c.from, c.to);
          assert cs[k] == ConvertAll(init)[k];
        }
      }
    }
  }

  /** Line `j` of the reference is line `i` of `cs`, the first line joining its names. */
  lemma {:induction false} FirstPairsSource(cs: seq<Edge>, j: nat) returns (i: nat)
    requires j < |FirstPairs(cs)|
    ensures i < |cs| && FirstPairs(cs)[j] == cs[i] && FirstOfPair(cs, i)
    decreases |cs|
  {
    var init := cs[..|cs| - 1];
    if j < |FirstPairs(init)| {
      i := FirstPairsSource(init, j);
      assert forall k :: 0 <= k <= i ==> cs[k] == init[k];
    } else {
      i := |cs| - 1;
    }
  }

  /** `e` is line `i` of `cs` for some `i` at which its two names are first joined. */
  ghost predicate IsFirstLine(cs: seq<Edge>, e: Edge) {
    exists i: nat :: i < |cs| && e == cs[i] && FirstOfPair(cs, i)
  }

  /** Every line of the reference comes from `cs` and is the first line joining its names. */
  lemma FirstPairsAreFirst(cs: seq<Edge>)
    ensures forall j :: 0 <= j < |FirstPairs(cs)| ==> IsFirstLine(cs, FirstPairs(cs)[j])
  {
    forall j | 0 <= j < |FirstPairs(cs)|
      ensures IsFirstLine(cs, FirstPairs(cs)[j])
    {
      var i := FirstPairsSource(cs, j);
    }
  }

  /** No two lines of the reference join the same two names. */
  lemma {:induction false} FirstPairsOncePerPair(cs: seq<Edge>)
    ensures forall i, j :: 0 <= i < j < |FirstPairs(cs)| ==>
              !Joins(FirstPairs(cs)[i], FirstPairs(cs)[j].from, FirstPairs(cs)[j].to)
    decreases |cs|
  {
    if cs != [] {
      var init := cs[..|cs| - 1];
      var fp := FirstPairs(cs);
      FirstPairsOncePerPair(init);
      if FirstOfPair(cs, |cs| - 1) {
        var last := cs[|cs| - 1];
        forall i | 0 <= i < |FirstPairs(init)|
          ensures !Joins(fp[i], last.from, last.to)
        {
          var k := FirstPairsSource(init, i);
          assert init[k] == cs[k];
        }
      }
    }
  }

  /** Every line of `cs` is joined by some line of the reference. */
  lemma {:induction false} FirstPairsCoverAll(cs: seq<Edge>)
    ensures forall k :: 0 <= k < |cs| ==> Covers(FirstPairs(cs), cs[k].from, cs[k].to)
    decreases |cs|
  {
    if cs != [] {
      var init := cs[..|cs| - 1];
      var fp := FirstPairs(cs);
      FirstPairsCoverAll(init);
      forall k | 0 <= k < |cs|
        ensures Covers(fp, cs[k].from, cs[k].to)
      {
        if k < |cs| - 1 {
          assert cs[k] == init[k];
          var j :| 0 <= j < |FirstPairs(init)| && Joins(FirstPairs(init)[j], init[k].from, init[k].to);
          assert fp[j] == FirstPairs(init)[j];
        } else if FirstOfPair(cs, k) {
          assert fp[|fp| - 1] == cs[k];
        } else {
          var m :| 0 <= m < k && Joins(cs[m], cs[k].from, cs[k].to);
          assert cs[m] == init[m];
          var j :| 0 <= j < |FirstPairs(init)| && Joins(FirstPairs(init)[j], init[m].from, init[m].to);
          assert fp[j] == FirstPairs(init)[j];
        }
      }
    }
  }

  /** `line` is the underscore-joined form of some stored entry, with that entry's weight. */
  ghost predicate FromStoredEntry(g: Graph, line: Edge) {
    exists a, b :: a in g && b in g[a] && line == Convert(Edge(a, b, g[a][b]))
  }

  /**
   `makeAdjList` writes, in iteration order, the first entry met for each
   unordered pair of underscore-joined names and nothing else: no pair twice,
   and every stored entry's pair once.
   */
  lemma MakeAdjListSpec(g: Graph, ord: KeyOrder)
    requires IteratesOver(g, ord)
    ensures MakeAdjList(g, ord) == FirstPairs(ConvertAll(Entries(g, ord)))
    ensures forall i, j :: 0 <= i < j < |MakeAdjList(g, ord)| ==>
              !Joins(MakeAdjList(g, ord)[i], MakeAdjList(g, ord)[j].from, MakeAdjList(g, ord)[j].to)
    ensures forall a, b :: a in g && b in g[a] ==>
              Covers(MakeAdjList(g, ord), Underscore(a), Underscore(b))
    ensures forall j :: 0 <= j < |MakeAdjList(g, ord)| ==> FromStoredEntry(g, MakeAdjList(g, ord)[j])
    ensures forall j :: 0 <= j < |MakeAdjList(g, ord)| ==>
              IsFirstLine(ConvertAll(Entries(g, ord)), MakeAdjList(g, ord)[j])
  {
    var es := Entries(g, ord);
    AdjFoldIsFirstPairs(es);
    FirstPairsOncePerPair(ConvertAll(es));
    FirstPairsAreFirst(ConvertAll(es));
    EntriesExact(g, ord);
    FirstPairsFromEntries(g, es);
    FirstPairsCoverEntries(g, es);
  }

  /** When `es` holds only stored entries, every reference line is one of them, underscore-joined. */
  lemma FirstPairsFromEntries(g: Graph, es: seq<Edge>)
    requires forall e :: e in es ==> e.from in g && e.to in g[e.from] && e.weight == g[e.from][e.to]
    ensures forall j :: 0 <= j < |FirstPairs(ConvertAll(es))| ==> FromStoredEntry(g, FirstPairs(ConvertAll(es))[j])
  {
    var cs := ConvertAll(es);
    forall j | 0 <= j < |FirstPairs(cs)|
      ensures FromStoredEntry(g, FirstPairs(cs)[j])
    {
      var i := FirstPairsSource(cs, j);
      assert es[i] in es;
      assert FirstPairs(cs)[j] == Convert(Edge(es[i].from, es[i].to, g[es[i].from][es[i].to]));
    }
  }

  /** When `es` holds every stored entry, the reference joins the names of each of them. */
  lemma FirstPairsCoverEntries(g: Graph, es: seq<Edge>)
    requires forall a, b :: a in g && b in g[a] ==> Edge(a, b, g[a][b]) in es
    ensures forall a, b :: a in g && b in g[a] ==> Covers(FirstPairs(ConvertAll(es)), Underscore(a), Underscore(b))
  {
    var cs := ConvertAll(es);
    FirstPairsCoverAll(cs);
    forall a, b | a in g && b in g[a]
      ensures Covers(FirstPairs(cs), Underscore(a), Underscore(b))
    {
      var e := Edge(a, b, g[a][b]);
      var k :| 0 <= k < |es| && es[k] == e;
      assert cs[k] == Convert(e);
    }
  }

  // ---------------------------------------------------------------------
  // writeForInfomap

  /** One line of the Infomap file: two author numbers and the weight. */
  datatype IdEdge = IdEdge(from: int, to: int, weight: real)

  /** `author_ids` and `id_count`. */
  datatype Numbering = Numbering(ids: map<string, int>, next: int)

  /** Gives `x` the next number unless it already has one. */
  function Assign(num: Numbering, x: string): (r: Numbering)
    ensures x in r.ids
  {
    if x in num.ids then num else Numbering(num.ids[x := num.next], num.next + 1)
  }

  datatype InfoState = InfoState(num: Numbering, lines: seq<IdEdge>)

  /** The inner loop over the neighbours `cs` of the author numbered `au`. */
  function InfoRow(st: InfoState, au: int, cs: seq<string>, row: Neighbours): InfoState
    requires forall c :: c in cs ==> c in row
    decreases |cs|
  {
    if cs == [] then st
    else
      var s := InfoRow(st, au, cs[..|cs| - 1], row);
      var co := cs[|cs| - 1];
      var num := Assign(s.num, co);
      InfoState(num, s.lines + [IdEdge(au, num.ids[co], row[co])])
  }

  /** One pass of the outer loop: number the author `a`, then run the inner loop over its neighbours. */
  function InfoStep(s: InfoState, a: string, cs: seq<string>, row: Neighbours): InfoState
    requires forall c :: c in cs ==> c in row
  {
    var num := Assign(s.num, a);
    InfoRow(InfoState(num, s.lines), num.ids[a], cs, row)
  }

  /** The outer loop over the first `n` authors; numbering starts at 1. */
  function InfoUpTo(g: Graph, ord: KeyOrder, n: nat): InfoState
    requires Visitable(g, ord)
    requires n <= |ord.outer|
    decreases n
  {
    if n == 0 then InfoState(Numbering(map[], 1), [])
    else
      var a := ord.outer[n - 1];
      InfoStep(InfoUpTo(g, ord, n - 1), a, ord.inner[a], g[a])
  }

  /** `writeForInfomap`: the lines it writes, in order. */
  function WriteForInfomap(g: Graph, ord: KeyOrder): seq<IdEdge>
    requires Visitable(g, ord)
  {
    InfoUpTo(g, ord, |ord.outer|).lines
  }

  /** The numbers `writeForInfomap` gives to the names (kept in memory, never written out). */
  function InfomapIds(g: Graph, ord: KeyOrder): map<string, int>
    requires Visitable(g, ord)
  {
    InfoUpTo(g, ord, |ord.outer|).num.ids
  }

  /** The names in the order the nested loops meet them: each author, then its neighbours. */
  function EncountersUpTo(g: Graph, ord: KeyOrder, n: nat): seq<string>
    requires Visitable(g, ord)
    requires n <= |ord.outer|
    decreases n
  {
    if n == 0 then []
    else
      var a := ord.outer[n - 1];
      EncountersUpTo(g, ord, n - 1) + [a] + ord.inner[a]
  }

  function Encounters(g: Graph, ord: KeyOrder): seq<string>
    requires Visitable(g, ord)
  {
    EncountersUpTo(g, ord, |ord.outer|)
  }

  /** Reference numbering order: each name at its first occurrence in `ns`. */
  ghost function FirstEncounters(ns: seq<string>): (d: seq<string>)
    ensures Distinct(d)
    ensures forall x :: x in d <==> x in ns
    decreases |ns|
  {
    if ns == [] then []
    else
      var d := FirstEncounters(ns[..|ns| - 1]);
      var x := ns[|ns| - 1];
      assert forall y :: y in ns <==> y in ns[..|ns| - 1] || y == x by {
        assert ns == ns[..|ns| - 1] + [x];
      }
      if x in ns[..|ns| - 1] then d else d + [x]
  }

  /** `num` numbers the names of `d` by position, from 1, and nothing else. */
  ghost predicate NumberedInOrder(num: Numbering, d: seq<string>) {
    && Distinct(d)
    && (forall x :: x in num.ids <==> x in d)
    && num.next == |d| + 1
    && (forall i :: 0 <= i < |d| ==> d[i] in num.ids && num.ids[d[i]] == i + 1)
  }

  /** `big` agrees with `small` on every name `small` numbers. */
  ghost predicate Extends(small: map<string, int>, big: map<string, int>) {
    forall x :: x in small ==> x in big && big[x] == small[x]
  }

  lemma AssignNumbers(num: Numbering, ns: seq<string>, x: string)
    requires NumberedInOrder(num, FirstEncounters(ns))
    ensures NumberedInOrder(Assign(num, x), FirstEncounters(ns + [x]))
    ensures Extends(num.ids, Assign(num, x).ids)
  {
    var d := FirstEncounters(ns);
    assert (ns + [x])[..|ns|] == ns;
    if x in ns {
      assert FirstEncounters(ns + [x]) == d;
      assert x in num.ids;
    } else {
      assert FirstEncounters(ns + [x]) == d + [x];
      assert x !in num.ids;
      var r := Assign(num, x);
      assert r.ids == num.ids[x := |d| + 1];
      forall i | 0 <= i < |d + [x]|
        ensures (d + [x])[i] in r.ids && r.ids[(d + [x])[i]] == i + 1
      {
        if i < |d| {
          assert (d + [x])[i] == d[i];
        }
      }
    }
  }

  /** The number used on a line; names always have one, see `WriteForInfomapSpec`. */
  function Id(ids: map<string, int>, x: string): int {
    if x in ids then ids[x] else 0
  }

  /** Entries with the names replaced by their numbers. */
  function ToIds(ids: map<string, int>, es: seq<Edge>): seq<IdEdge>
    decreases |es|
  {
    if es == [] then []
    else
      var e := es[|es| - 1];
      ToIds(ids, es[..|es| - 1]) + [IdEdge(Id(ids, e.from), Id(ids, e.to), e.weight)]
  }

  /** Renumbering keeps the entries' order: line `i` carries entry `i`'s numbers and weight. */
  lemma {:induction false} ToIdsIndex(ids: map<string, int>, es: seq<Edge>)
    ensures |ToIds(ids, es)| == |es|
    ensures forall i :: 0 <= i < |es| ==>
              ToIds(ids, es)[i] == IdEdge(Id(ids, es[i].from), Id(ids, es[i].to), es[i].weight)
    decreases |es|
  {
    if es != [] {
      ToIdsIndex(ids, es[..|es| - 1]);
    }
  }

  ghost predicate NamesIn(es: seq<Edge>, ids: map<string, int>) {
    forall e :: e in es ==> e.from in ids && e.to in ids
  }

  lemma ToIdsStable(small: map<string, int>, big: map<string, int>, es: seq<Edge>)
    requires Extends(small, big)
    requires NamesIn(es, small)
    ensures ToIds(small, es) == ToIds(big, es)
  {
    ToIdsIndex(small, es);
    ToIdsIndex(big, es);
    forall i | 0 <= i < |es|
      ensures ToIds(small, es)[i] == ToIds(big, es)[i]
    {
      assert es[i] in es;
    }
  }

  lemma ToIdsSnoc(ids: map<string, int>, es: seq<Edge>, e: Edge)
    ensures ToIds(ids, es + [e]) == ToIds(ids, es) + [IdEdge(Id(ids, e.from), Id(ids, e.to), e.weight)]
  {
    assert (es + [e])[..|es|] == es;
  }

  lemma ExtendsTransitive(a: map<string, int>, b: map<string, int>, c: map<string, int>)
    requires Extends(a, b) && Extends(b, c)
    ensures Extends(a, c)
  {
  }

  /** Appending a non-empty list is appending all but its last element, then that element. */
  lemma AppendLast<T>(ns: seq<T>, cs: seq<T>)
    requires cs != []
    ensures ns + cs == (ns + cs[..|cs| - 1]) + [cs[|cs| - 1]]
  {
    assert cs == cs[..|cs| - 1] + [cs[|cs| - 1]];
  }

  /** The inner loop numbers the neighbours it meets in encounter order and keeps every earlier number. */
  lemma {:induction false} InfoRowNumbers(st: InfoState, au: int, cs: seq<string>, row: Neighbours, ns: seq<string>)
    requires forall c :: c in cs ==> c in row
    requires NumberedInOrder(st.num, FirstEncounters(ns))
    ensures NumberedInOrder(InfoRow(st, au, cs, row).num, FirstEncounters(ns + cs))
    ensures Extends(st.num.ids, InfoRow(st, au, cs, row).num.ids)
    decreases |cs|
  {
    if cs == [] {
      assert ns + cs == ns;
    } else {
      var init := cs[..|cs| - 1];
      var co := cs[|cs| - 1];
      InfoRowNumbers(st, au, init, row, ns);
      var s := InfoRow(st, au, init, row);
      AssignNumbers(s.num, ns + init, co);
      AppendLast(ns, cs);
      ExtendsTransitive(st.num.ids, s.num.ids, InfoRow(st, au, cs, row).num.ids);
    }
  }

  /** The inner loop keeps every number given so far and numbers every neighbour it meets. */
  lemma {:induction false} InfoRowExtends(st: InfoState, au: int, cs: seq<string>, row: Neighbours)
    requires forall c :: c in cs ==> c in row
    ensures Extends(st.num.ids, InfoRow(st, au, cs, row).num.ids)
    ensures forall c :: c in cs ==> c in InfoRow(st, au, cs, row).num.ids
    decreases |cs|
  {
    if cs != [] {
      var init := cs[..|cs| - 1];
      InfoRowExtends(st, au, init, row);
      var s := InfoRow(st, au, init, row);
      ExtendsTransitive(st.num.ids, s.num.ids, Assign(s.num, cs[|cs| - 1]).ids);
    }
  }

  /** The inner loop writes one line per neighbour, with the numbers the names finally have. */
  lemma {:induction false} InfoRowLines(st: InfoState, a: string, cs: seq<string>, row: Neighbours)
    requires forall c :: c in cs ==> c in row
    requires a in st.num.ids
    ensures InfoRow(st, st.num.ids[a], cs, row).lines ==
              st.lines + ToIds(InfoRow(st, st.num.ids[a], cs, row).num.ids, RowOf(a, cs, row))
    decreases |cs|
  {
    var au := st.num.ids[a];
    if cs != [] {
      var init := cs[..|cs| - 1];
      var co := cs[|cs| - 1];
      InfoRowLines(st, a, init, row);
      InfoRowExtends(st, au, init, row);
      var s := InfoRow(st, au, init, row);
      var r := InfoRow(st, au, cs, row);
      assert r.num == Assign(s.num, co);
      assert Extends(s.num.ids, r.num.ids);
      RowOfExact(a, init, row);
      ToIdsStable(s.num.ids, r.num.ids, RowOf(a, init, row));
      ToIdsSnoc(r.num.ids, RowOf(a, init, row), Edge(a, co, row[co]));
      ExtendsTransitive(st.num.ids, s.num.ids, r.num.ids);
    }
  }

  /** The outer loop numbers names by first encounter. */
  lemma {:induction false} InfoUpToNumbers(g: Graph, ord: KeyOrder, n: nat)
    requires Visitable(g, ord)
    requires n <= |ord.outer|
    ensures NumberedInOrder(InfoUpTo(g, ord, n).num, FirstEncounters(EncountersUpTo(g, ord, n)))
    decreases n
  {
    if n > 0 {
      InfoUpToNumbers(g, ord, n - 1);
      var s := InfoUpTo(g, ord, n - 1);
      var ns := EncountersUpTo(g, ord, n - 1);
      var a := ord.outer[n - 1];
      var num := Assign(s.num, a);
      AssignNumbers(s.num, ns, a);
      AuthorAt(g, ord, n - 1);
      InfoRowNumbers(InfoState(num, s.lines), num.ids[a], ord.inner[a], g[a], ns + [a]);
    }
  }

  /** One pass of the outer loop numbers every name of the author's row and keeps earlier numbers. */
  lemma InfoStepNames(s: InfoState, a: string, cs: seq<string>, row: Neighbours, before: seq<Edge>)
    requires forall c :: c in cs ==> c in row
    requires NamesIn(before, s.num.ids)
    ensures Extends(s.num.ids, InfoStep(s, a, cs, row).num.ids)
    ensures NamesIn(before + RowOf(a, cs, row), InfoStep(s, a, cs, row).num.ids)
  {
    var num := Assign(s.num, a);
    var st := InfoState(num, s.lines);
    var r := InfoStep(s, a, cs, row);
    InfoRowExtends(st, num.ids[a], cs, row);
    ExtendsTransitive(s.num.ids, num.ids, r.num.ids);
    RowOfExact(a, cs, row);
    forall e: Edge | e in before + RowOf(a, cs, row)
      ensures e.from in r.num.ids && e.to in r.num.ids
    {
      if e !in RowOf(a, cs, row) {
        assert e in before;
      }
    }
  }

  /** Every name on an entry met so far has a number. */
  lemma {:induction false} InfoUpToNames(g: Graph, ord: KeyOrder, n: nat)
    requires Visitable(g, ord)
    requires n <= |ord.outer|
    ensures NamesIn(EntriesUpTo(g, ord, n), InfoUpTo(g, ord, n).num.ids)
    decreases n
  {
    if n > 0 {
      InfoUpToNames(g, ord, n - 1);
      var a := ord.outer[n - 1];
      AuthorAt(g, ord, n - 1);
      InfoStepNames(InfoUpTo(g, ord, n - 1), a, ord.inner[a], g[a], EntriesUpTo(g, ord, n - 1));
    }
  }

  /** One pass of the outer loop appends the author's row, renumbered, to lines that were already renumbered. */
  lemma InfoStepLines(s: InfoState, a: string, cs: seq<string>, row: Neighbours, before: seq<Edge>)
    requires forall c :: c in cs ==> c in row
    requires NamesIn(before, s.num.ids)
    requires s.lines == ToIds(s.num.ids, before)
    ensures InfoStep(s, a, cs, row).lines == ToIds(InfoStep(s, a, cs, row).num.ids, before + RowOf(a, cs, row))
  {
    var num := Assign(s.num, a);
    var st := InfoState(num, s.lines);
    var r := InfoStep(s, a, cs, row);
    var rw := RowOf(a, cs, row);
    InfoRowExtends(st, num.ids[a], cs, row);
    InfoRowLines(st, a, cs, row);
    assert r.lines == s.lines + ToIds(r.num.ids, rw);
    ExtendsTransitive(s.num.ids, num.ids, r.num.ids);
    ToIdsStable(s.num.ids, r.num.ids, before);
    ToIdsAppend(r.num.ids, before, rw);
  }

  /** The outer loop writes the entries met so far with the names replaced by their final numbers. */
  lemma {:induction false} InfoUpToLines(g: Graph, ord: KeyOrder, n: nat)
    requires Visitable(g, ord)
    requires n <= |ord.outer|
    ensures InfoUpTo(g, ord, n).lines == ToIds(InfoUpTo(g, ord, n).num.ids, EntriesUpTo(g, ord, n))
    decreases n
  {
    if n > 0 {
      InfoUpToLines(g, ord, n - 1);
      InfoUpToNames(g, ord, n - 1);
      InfoUpToLinesStep(g, ord, n);
    }
  }

  lemma InfoUpToLinesStep(g: Graph, ord: KeyOrder, n: nat)
    requires Visitable(g, ord)
    requires 0 < n <= |ord.outer|
    requires NamesIn(EntriesUpTo(g, ord, n - 1), InfoUpTo(g, ord, n - 1).num.ids)
    requires InfoUpTo(g, ord, n - 1).lines == ToIds(InfoUpTo(g, ord, n - 1).num.ids, EntriesUpTo(g, ord, n - 1))
    ensures InfoUpTo(g, ord, n).lines == ToIds(InfoUpTo(g, ord, n).num.ids, EntriesUpTo(g, ord, n))
  {
    var a := ord.outer[n - 1];
    AuthorAt(g, ord, n - 1);
    InfoStepLines(InfoUpTo(g, ord, n - 1), a, ord.inner[a], g[a], EntriesUpTo(g, ord, n - 1));
  }

  lemma ToIdsAppend(ids: map<string, int>, xs: seq<Edge>, ys: seq<Edge>)
    ensures ToIds(ids, xs + ys) == ToIds(ids, xs) + ToIds(ids, ys)
  {
    ToIdsIndex(ids, xs + ys);
    ToIdsIndex(ids, xs);
    ToIdsIndex(ids, ys);
    assert forall i :: 0 <= i < |xs + ys| ==> (xs + ys)[i] == if i < |xs| then xs[i] else ys[i - |xs|];
  }

  lemma {:induction false} EncountersUpToNames(g: Graph, ord: KeyOrder, n: nat)
    requires IteratesOver(g, ord)
    requires n <= |ord.outer|
    ensures forall x :: x in EncountersUpTo(g, ord, n) ==> x in g || exists a :: a in g && x in g[a]
    ensures forall i :: 0 <= i < n ==> ord.outer[i] in EncountersUpTo(g, ord, n)
    ensures forall i, c :: 0 <= i < n && c in g[ord.outer[i]] ==> c in EncountersUpTo(g, ord, n)
    decreases n
  {
    if n > 0 {
      EncountersUpToNames(g, ord, n - 1);
      var a := ord.outer[n - 1];
      assert a in g;
      forall x | x in EncountersUpTo(g, ord, n)
        ensures x in g || exists b :: b in g && x in g[b]
      {
        if x in ord.inner[a] {
          assert x in g[a];
        }
      }
    }
  }

  /** The number of neighbour entries of the authors listed in `authors`. */
  function LinkCount(g: Graph, authors: seq<string>): nat
    requires forall a :: a in authors ==> a in g
    decreases |authors|
  {
    if authors == [] then 0
    else LinkCount(g, authors[..|authors| - 1]) + |g[authors[|authors| - 1]]|
  }

  lemma {:induction false} EntriesUpToCount(g: Graph, ord: KeyOrder, n: nat)
    requires IteratesOver(g, ord)
    requires n <= |ord.outer|
    ensures |EntriesUpTo(g, ord, n)| == LinkCount(g, ord.outer[..n])
    decreases n
  {
    if n > 0 {
      EntriesUpToCount(g, ord, n - 1);
      var a := ord.outer[n - 1];
      RowOfExact(a, ord.inner[a], g[a]);
      DistinctCardinality(ord.inner[a], g[a].Keys);
      assert ord.outer[..n][..n - 1] == ord.outer[..n - 1];
    }
  }

  /** A numbering by position is one-to-one onto 1 .. the number of names. */
  lemma NumberedOneToOne(num: Numbering, d: seq<string>)
    requires NumberedInOrder(num, d)
    ensures forall x, y :: x in num.ids && y in num.ids && x != y ==> num.ids[x] != num.ids[y]
    ensures forall x :: x in num.ids ==> 1 <= num.ids[x] <= |num.ids|
  {
    forall x, y | x in num.ids && y in num.ids && x != y
      ensures num.ids[x] != num.ids[y]
    {
      var i :| 0 <= i < |d| && d[i] == x;
      var j :| 0 <= j < |d| && d[j] == y;
    }
    DistinctCardinality(d, num.ids.Keys);
    forall x | x in num.ids
      ensures 1 <= num.ids[x] <= |num.ids|
    {
      var i :| 0 <= i < |d| && d[i] == x;
    }
  }

  /** Exactly the authors and co-authors of the graph get a number. */
  lemma InfomapIdsNames(g: Graph, ord: KeyOrder)
    requires IteratesOver(g, ord)
    ensures forall x :: x in InfomapIds(g, ord) <==> x in g || exists a :: a in g && x in g[a]
  {
    var n := |ord.outer|;
    var ids := InfomapIds(g, ord);
    InfoUpToNumbers(g, ord, n);
    EncountersUpToNames(g, ord, n);
    forall x | x in g || exists a :: a in g && x in g[a]
      ensures x in ids
    {
      if x in g {
        var i :| 0 <= i < n && ord.outer[i] == x;
      } else {
        var a :| a in g && x in g[a];
        var i :| 0 <= i < n && ord.outer[i] == a;
      }
    }
  }

  /**
   `writeForInfomap` numbers every author and co-author 1, 2, 3, ... in the
   order the loops first meet them: exactly the names of the graph get a
   number, and the numbers are distinct and run from 1 to the number of names.
   */
  lemma InfomapIdsSpec(g: Graph, ord: KeyOrder)
    requires IteratesOver(g, ord)
    ensures forall x :: x in InfomapIds(g, ord) <==> x in g || exists a :: a in g && x in g[a]
    ensures forall i :: 0 <= i < |FirstEncounters(Encounters(g, ord))| ==>
              FirstEncounters(Encounters(g, ord))[i] in InfomapIds(g, ord) &&
              InfomapIds(g, ord)[FirstEncounters(Encounters(g, ord))[i]] == i + 1
    ensures forall x, y :: x in InfomapIds(g, ord) && y in InfomapIds(g, ord) && x != y ==>
              InfomapIds(g, ord)[x] != InfomapIds(g, ord)[y]
    ensures forall x :: x in InfomapIds(g, ord) ==> 1 <= InfomapIds(g, ord)[x] <= |InfomapIds(g, ord)|
  {
    InfoUpToNumbers(g, ord, |ord.outer|);
    InfomapIdsNames(g, ord);
    NumberedOneToOne(InfoUpTo(g, ord, |ord.outer|).num, FirstEncounters(Encounters(g, ord)));
  }

  /**
   `writeForInfomap` writes one line per stored directed entry, in iteration
   order, carrying the two names' numbers and the entry's weight: as many
   lines as there are neighbour entries.
   */
  lemma InfomapLinesSpec(g: Graph, ord: KeyOrder)
    requires IteratesOver(g, ord)
    ensures |WriteForInfomap(g, ord)| == |Entries(g, ord)| == LinkCount(g, ord.outer)
    ensures forall i :: 0 <= i < |Entries(g, ord)| ==>
              Entries(g, ord)[i].from in InfomapIds(g, ord) && Entries(g, ord)[i].to in InfomapIds(g, ord) &&
              WriteForInfomap(g, ord)[i] ==
                IdEdge(InfomapIds(g, ord)[Entries(g, ord)[i].from], InfomapIds(g, ord)[Entries(g, ord)[i].to],
                       Entries(g, ord)[i].weight)
  {
    var n := |ord.outer|;
    var ids := InfomapIds(g, ord);
    InfoUpToNames(g, ord, n);
    InfoUpToLines(g, ord, n);
    ToIdsIndex(ids, Entries(g, ord));
    EntriesUpToCount(g, ord, n);
    assert ord.outer[..n] == ord.outer;
    var es := Entries(g, ord);
    forall i | 0 <= i < |es|
      ensures es[i].from in ids && es[i].to in ids
    {
      assert es[i] in es;
    }
  }
}
