/**
 The weighted co-authorship graph: author name -> (co-author name -> weight).
 Weights are exact reals; the source stores Python floats.
 */
module AuthorGraph {
  import opened Names

  type Neighbours = map<string, real>
  type Graph = map<string, Neighbours>

  /** A `Counter` lookup: a missing key counts as zero. */
  function Get(m: Neighbours, k: string): real {
    if k in m then m[k] else 0.0
  }

  /** The weight of the directed entry `a -> b`, zero when there is none. */
  function Weight(g: Graph, a: string, b: string): real {
    if a in g then Get(g[a], b) else 0.0
  }

  /** Every stored weight is positive (the store never holds a zero or negative link). */
  ghost predicate PositiveWeights(g: Graph) {
    forall a, b :: a in g && b in g[a] ==> g[a][b] > 0.0
  }

  /** Every link has the same weight in both directions. */
  ghost predicate Symmetric(g: Graph) {
    forall a, b :: Weight(g, a, b) == Weight(g, b, a)
  }

  /**
   `authorWeight`: every co-author of one paper gets the same link weight,
   one over the number of co-authors (the author being updated excluded).
   The source divides by zero on an empty list, hence the precondition.
   */
  function AuthorWeight(coauthors: seq<string>): (r: Neighbours)
    requires |coauthors| > 0
    ensures forall c :: c in r <==> c in coauthors
    ensures forall c :: c in r ==> r[c] == 1.0 / (|coauthors| as real)
  {
    var numAuthors := |coauthors| + 1;
    var weight := 1.0 / ((numAuthors as real) - 1.0);
    map c | c in coauthors :: weight
  }

  /**
   With no repeated co-author the weights of one paper add up to one: a
   paper spreads a single unit of collaboration over its co-authors.
   */
  lemma AuthorWeightSumsToOne(coauthors: seq<string>)
    requires |coauthors| > 0
    requires Distinct(coauthors)
    ensures SumOver(AuthorWeight(coauthors), coauthors) == 1.0
  {
    var w := AuthorWeight(coauthors);
    var k := |coauthors|;
    var v := 1.0 / (k as real);
    SumOverConstant(w, coauthors, k, v);
    assert coauthors[..k] == coauthors;
    TimesInverse(k as real);
    assert SumOver(w, coauthors) == (k as real) * v;
  }

  lemma TimesInverse(n: real)
    requires n > 0.0
    ensures n * (1.0 / n) == 1.0
  {
  }

  /** The sum of `m[k]` over the keys listed in `ks`. */
  function SumOver(m: Neighbours, ks: seq<string>): real
    decreases |ks|
  {
    if ks == [] then 0.0 else SumOver(m, ks[..|ks| - 1]) + Get(m, ks[|ks| - 1])
  }

  lemma {:induction false} SumOverConstant(m: Neighbours, ks: seq<string>, n: nat, v: real)
    requires n <= |ks|
    requires forall k :: k in ks ==> k in m && m[k] == v
    ensures SumOver(m, ks[..n]) == (n as real) * v
  {
    if n > 0 {
      SumOverConstant(m, ks, n - 1, v);
      assert ks[..n][..n - 1] == ks[..n - 1];
      assert ks[..n][n - 1] in ks;
    }
  }

  /**
   `Counter(m) + Counter(n)`: counts are added key by key and only keys whose
   sum is positive are kept.
   */
  function CounterSum(m: Neighbours, n: Neighbours): Neighbours {
    map k | k in m.Keys + n.Keys && Get(m, k) + Get(n, k) > 0.0 :: Get(m, k) + Get(n, k)
  }

  /** A `Counter` sum keeps exactly the keys whose summed count is positive. */
  lemma CounterSumKeepsPositive(m: Neighbours, n: Neighbours)
    ensures forall k :: k in CounterSum(m, n) <==> Get(m, k) + Get(n, k) > 0.0
    ensures forall k :: Get(CounterSum(m, n), k) == if Get(m, k) + Get(n, k) > 0.0 then Get(m, k) + Get(n, k) else 0.0
  {
  }

  /**
   `Counter.__add__` as Python's library writes it, step by step: first every
   key of the left counter, in its iteration order `om`, is stored with its
   summed count when that sum is positive; then every key of the right counter
   missing on the left, in its iteration order `on`, is stored with its own
   count when that is positive.
   */
  function CounterAdd(m: Neighbours, n: Neighbours, om: seq<string>, on: seq<string>): Neighbours
    requires Enumerates(om, m.Keys) && Enumerates(on, n.Keys)
  {
    AddOthers(m, n, on, |on|, AddOwn(m, n, om, |om|))
  }

  /** The first loop of `Counter.__add__`, over the first `i` keys of the left counter. */
  function AddOwn(m: Neighbours, n: Neighbours, om: seq<string>, i: nat): Neighbours
    requires forall k :: k in om ==> k in m
    requires i <= |om|
    decreases i
  {
    if i == 0 then map[]
    else
      var acc := AddOwn(m, n, om, i - 1);
      var e := om[i - 1];
      var c := m[e] + Get(n, e);
      if c > 0.0 then acc[e := c] else acc
  }

  /** The second loop of `Counter.__add__`, over the first `i` keys of the right counter, onto `acc`. */
  function AddOthers(m: Neighbours, n: Neighbours, on: seq<string>, i: nat, acc: Neighbours): Neighbours
    requires forall k :: k in on ==> k in n
    requires i <= |on|
    decreases i
  {
    if i == 0 then acc
    else
      var r := AddOthers(m, n, on, i - 1, acc);
      var e := on[i - 1];
      if e !in m && n[e] > 0.0 then r[e := n[e]] else r
  }

  lemma {:induction false} AddOwnSpec(m: Neighbours, n: Neighbours, om: seq<string>, i: nat)
    requires forall k :: k in om ==> k in m
    requires i <= |om|
    ensures forall k :: k in AddOwn(m, n, om, i) <==> k in om[..i] && m[k] + Get(n, k) > 0.0
    ensures forall k :: k in AddOwn(m, n, om, i) ==> AddOwn(m, n, om, i)[k] == m[k] + Get(n, k)
    decreases i
  {
    if i > 0 {
      AddOwnSpec(m, n, om, i - 1);
      PrefixGrows(om, i);
    }
  }

  lemma {:induction false} AddOthersSpec(m: Neighbours, n: Neighbours, on: seq<string>, i: nat, acc: Neighbours)
    requires forall k :: k in on ==> k in n
    requires i <= |on|
    ensures forall k :: k in AddOthers(m, n, on, i, acc) <==> k in acc || (k in on[..i] && k !in m && n[k] > 0.0)
    ensures forall k :: k in AddOthers(m, n, on, i, acc) ==>
              AddOthers(m, n, on, i, acc)[k] == if k in on[..i] && k !in m && n[k] > 0.0 then n[k] else acc[k]
    decreases i
  {
    if i > 0 {
      AddOthersSpec(m, n, on, i - 1, acc);
      PrefixGrows(on, i);
    }
  }

  /** A prefix one longer holds the shorter prefix's elements and the next one. */
  lemma PrefixGrows(s: seq<string>, i: nat)
    requires 0 < i <= |s|
    ensures forall k :: k in s[..i] <==> k in s[..i - 1] || k == s[i - 1]
  {
    assert s[..i] == s[..i - 1] + [s[i - 1]];
  }

  /**
   The library's two loops compute `CounterSum`, whatever order either
   counter's keys come in.
   */
  lemma CounterAddIsCounterSum(m: Neighbours, n: Neighbours, om: seq<string>, on: seq<string>)
    requires Enumerates(om, m.Keys) && Enumerates(on, n.Keys)
    ensures CounterAdd(m, n, om, on) == CounterSum(m, n)
  {
    var own := AddOwn(m, n, om, |om|);
    AddOwnSpec(m, n, om, |om|);
    AddOthersSpec(m, n, on, |on|, own);
    assert om[..|om|] == om;
    assert on[..|on|] == on;
    var r := CounterAdd(m, n, om, on);
    var t := CounterSum(m, n);
    forall k
      ensures k in r <==> k in t
      ensures k in r ==> r[k] == t[k]
    {
      if k in m {
        assert k in om;
      } else if k in n {
        assert k in on;
      }
    }
  }

  /** On positive counts the `Counter` sum drops nothing: it adds weights key by key. */
  lemma CounterSumAdds(m: Neighbours, n: Neighbours)
    requires forall k :: k in m ==> m[k] > 0.0
    requires forall k :: k in n ==> n[k] > 0.0
    ensures CounterSum(m, n).Keys == m.Keys + n.Keys
    ensures forall k :: Get(CounterSum(m, n), k) == Get(m, k) + Get(n, k)
  {
  }

  /**
   `addAuthor`: installs `author` with the weights of one paper, or with an
   empty neighbour map for a sole-authored paper, replacing any entry it had.
   */
  function AddAuthor(g: Graph, author: string, coauthors: seq<string>): Graph {
    if coauthors == [] then g[author := map[]]
    else g[author := AuthorWeight(coauthors)]
  }

  lemma AddAuthorEffect(g: Graph, author: string, coauthors: seq<string>)
    ensures AddAuthor(g, author, coauthors).Keys == g.Keys + {author}
    ensures forall b :: b in g && b != author ==> AddAuthor(g, author, coauthors)[b] == g[b]
    ensures coauthors == [] ==> AddAuthor(g, author, coauthors)[author] == map[]
    ensures forall c :: c in AddAuthor(g, author, coauthors)[author] <==> c in coauthors
    ensures forall c :: c in AddAuthor(g, author, coauthors)[author] ==>
              AddAuthor(g, author, coauthors)[author][c] == 1.0 / (|coauthors| as real)
  {
  }

  /**
   `updateAuthor`: adds the weights of one more paper onto an author already
   in the graph (a `Counter` sum); a sole-authored paper changes nothing.
   The source raises `KeyError` for an author not in the graph.
   */
  function UpdateAuthor(g: Graph, author: string, coauthors: seq<string>): Graph
    requires author in g
  {
    if coauthors == [] then g
    else g[author := CounterSum(g[author], AuthorWeight(coauthors))]
  }

  lemma UpdateAuthorEffect(g: Graph, author: string, coauthors: seq<string>)
    requires author in g
    ensures UpdateAuthor(g, author, coauthors).Keys == g.Keys
    ensures forall b :: b in g && b != author ==> UpdateAuthor(g, author, coauthors)[b] == g[b]
    ensures coauthors == [] ==> UpdateAuthor(g, author, coauthors) == g
    ensures coauthors != [] ==> forall c ::
              Get(UpdateAuthor(g, author, coauthors)[author], c) ==
              var sum := Get(g[author], c) + (if c in coauthors then 1.0 / (|coauthors| as real) else 0.0);
              if sum > 0.0 then sum else 0.0
    ensures coauthors != [] ==> forall c ::
              c in UpdateAuthor(g, author, coauthors)[author] <==>
              Get(g[author], c) + (if c in coauthors then 1.0 / (|coauthors| as real) else 0.0) > 0.0
  {
    if coauthors != [] {
      CounterSumKeepsPositive(g[author], AuthorWeight(coauthors));
    }
  }

  /** One author of a paper, as the ingestion loop treats it: update if known, add otherwise. */
  function Upsert(g: Graph, author: string, coauthors: seq<string>): Graph {
    if author in g then UpdateAuthor(g, author, coauthors) else AddAuthor(g, author, coauthors)
  }

  /** An upsert adds its author as a key and leaves every other author's map alone. */
  lemma UpsertFrame(g: Graph, author: string, coauthors: seq<string>)
    ensures Upsert(g, author, coauthors).Keys == g.Keys + {author}
    ensures forall b :: b in g && b != author ==> Upsert(g, author, coauthors)[b] == g[b]
  {
    if author in g {
      UpdateAuthorEffect(g, author, coauthors);
    } else {
      AddAuthorEffect(g, author, coauthors);
    }
  }

  /**
   The effect of one upsert on a graph with positive weights: the author's
   link to each listed co-author grows by one over the number of co-authors,
   every other weight stays, and the weights stay positive.
   */
  lemma UpsertWeights(g: Graph, author: string, coauthors: seq<string>)
    requires PositiveWeights(g)
    ensures PositiveWeights(Upsert(g, author, coauthors))
    ensures forall x, y ::
              Weight(Upsert(g, author, coauthors), x, y) ==
              Weight(g, x, y) + (if x == author && y in coauthors then 1.0 / (|coauthors| as real) else 0.0)
    ensures coauthors == [] ==>
      Upsert(g, author, coauthors)[author] == (if author in g then g[author] else map[])
  {
    if author !in g {
      AddWeights(g, author, coauthors);
    } else if coauthors != [] {
      UpdateWeights(g, author, coauthors);
    }
  }

  lemma AddWeights(g: Graph, author: string, coauthors: seq<string>)
    requires PositiveWeights(g)
    requires author !in g
    ensures PositiveWeights(AddAuthor(g, author, coauthors))
    ensures forall x, y ::
              Weight(AddAuthor(g, author, coauthors), x, y) ==
              Weight(g, x, y) + (if x == author && y in coauthors then 1.0 / (|coauthors| as real) else 0.0)
  {
    AddAuthorEffect(g, author, coauthors);
  }

  lemma UpdateWeights(g: Graph, author: string, coauthors: seq<string>)
    requires PositiveWeights(g)
    requires author in g && coauthors != []
    ensures PositiveWeights(UpdateAuthor(g, author, coauthors))
    ensures forall x, y ::
              Weight(UpdateAuthor(g, author, coauthors), x, y) ==
              Weight(g, x, y) + (if x == author && y in coauthors then 1.0 / (|coauthors| as real) else 0.0)
  {
    var h := UpdateAuthor(g, author, coauthors);
    var w := AuthorWeight(coauthors);
    var share := 1.0 / (|coauthors| as real);
    assert h == g[author := CounterSum(g[author], w)];
    CounterSumAdds(g[author], w);
    forall x, y
      ensures Weight(h, x, y) == Weight(g, x, y) + (if x == author && y in coauthors then share else 0.0)
    {
      if x == author {
        assert Get(w, y) == (if y in coauthors then share else 0.0);
      }
    }
    forall x, y | x in h && y in h[x]
      ensures h[x][y] > 0.0
    {
      if x == author {
        assert h[x][y] == Get(g[author], y) + Get(w, y);
      }
    }
  }
}
