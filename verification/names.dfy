/**
 Author names and the string operations the co-authorship code applies to
 them: Python 2 byte-string ordering (used by `list.sort`), `list.remove`,
 `str.replace(' ', '_')`, the substring test behind `in` on a string, and
 the order in which a dictionary's keys are enumerated.
 */
module Names {

  /** Lexicographic order on character codes, as Python 2 compares `str`. */
  predicate Le(a: string, b: string)
    decreases |a|
  {
    |a| == 0 || (|b| > 0 && (a[0] < b[0] || (a[0] == b[0] && Le(a[1..], b[1..]))))
  }

  lemma {:induction false} LeReflexive(a: string)
    ensures Le(a, a)
    decreases |a|
  {
    if |a| > 0 {
      LeReflexive(a[1..]);
    }
  }

  lemma {:induction false} LeTotal(a: string, b: string)
    ensures Le(a, b) || Le(b, a)
    decreases |a|
  {
    if |a| > 0 && |b| > 0 && a[0] == b[0] {
      LeTotal(a[1..], b[1..]);
    }
  }

  lemma {:induction false} LeAntisymmetric(a: string, b: string)
    requires Le(a, b) && Le(b, a)
    ensures a == b
    decreases |a|
  {
    if |a| > 0 && |b| > 0 {
      LeAntisymmetric(a[1..], b[1..]);
      assert a == [a[0]] + a[1..];
      assert b == [b[0]] + b[1..];
    }
  }

  lemma {:induction false} LeTransitive(a: string, b: string, c: string)
    requires Le(a, b) && Le(b, c)
    ensures Le(a, c)
    decreases |a|
  {
    if |a| > 0 && |b| > 0 && |c| > 0 && a[0] == b[0] && b[0] == c[0] {
      LeTransitive(a[1..], b[1..], c[1..]);
    }
  }

  predicate Sorted(s: seq<string>) {
    forall i, j :: 0 <= i < j < |s| ==> Le(s[i], s[j])
  }

  /** Inserts `x` into the sorted list `s` in front of the first element not below it. */
  function Insert(x: string, s: seq<string>): (r: seq<string>)
    requires Sorted(s)
    ensures Sorted(r)
    ensures multiset(r) == multiset(s) + multiset{x}
    ensures forall e :: e in r ==> e == x || e in s
    decreases |s|
  {
    if s == [] then [x]
    else if Le(x, s[0]) then
      forall e | e in s ensures Le(x, e) {
        var j :| 0 <= j < |s| && s[j] == e;
        if j > 0 { LeTransitive(x, s[0], s[j]); }
      }
      SortedCons(x, s);
      [x] + s
    else
      LeTotal(x, s[0]);
      var t := Insert(x, s[1..]);
      assert s == [s[0]] + s[1..];
      forall e | e in t ensures Le(s[0], e) {
        if e != x {
          var j :| 0 <= j < |s[1..]| && s[1..][j] == e;
          assert s[j + 1] == e;
        }
      }
      SortedCons(s[0], t);
      [s[0]] + t
  }

  /** A lower bound of a sorted list can go in front of it. */
  lemma SortedCons(h: string, t: seq<string>)
    requires Sorted(t)
    requires forall e :: e in t ==> Le(h, e)
    ensures Sorted([h] + t)
  {
    var r := [h] + t;
    forall i, j | 0 <= i < j < |r| ensures Le(r[i], r[j]) {
      assert r[j] == t[j - 1];
      if i > 0 {
        assert r[i] == t[i - 1];
      }
    }
  }

  /** `list.sort()` on a list of strings: a sorted permutation of the input. */
  function Sort(s: seq<string>): (r: seq<string>)
    ensures Sorted(r)
    ensures multiset(r) == multiset(s)
    ensures |r| == |s|
    decreases |s|
  {
    if s == [] then []
    else
      assert s == [s[0]] + s[1..];
      var r := Insert(s[0], Sort(s[1..]));
      assert |r| == |multiset(r)|;
      r
  }

  /** Two sorted lists with the same elements (counted with multiplicity) are equal. */
  lemma {:induction false} SortedUnique(a: seq<string>, b: seq<string>)
    requires Sorted(a) && Sorted(b)
    requires multiset(a) == multiset(b)
    ensures a == b
    decreases |a|
  {
    assert |a| == |multiset(a)| && |b| == |multiset(b)|;
    if |a| > 0 {
      assert a[0] in multiset(b) && b[0] in multiset(a);
      var j :| 0 <= j < |b| && b[j] == a[0];
      var i :| 0 <= i < |a| && a[i] == b[0];
      LeReflexive(a[0]);
      LeReflexive(b[0]);
      assert Le(b[0], a[0]);
      assert Le(a[0], b[0]);
      LeAntisymmetric(a[0], b[0]);
      assert a == [a[0]] + a[1..];
      assert b == [b[0]] + b[1..];
      assert multiset(a) == multiset{a[0]} + multiset(a[1..]);
      assert multiset(b) == multiset{b[0]} + multiset(b[1..]);
      assert multiset(a[1..]) == multiset(a) - multiset{a[0]};
      assert multiset(b[1..]) == multiset(b) - multiset{b[0]};
      SortedUnique(a[1..], b[1..]);
    }
  }

  /** `list.remove(x)`: drops the first occurrence of `x`, if there is one. */
  function RemoveFirst(s: seq<string>, x: string): seq<string>
    decreases |s|
  {
    if s == [] then []
    else if s[0] == x then s[1..]
    else [s[0]] + RemoveFirst(s[1..], x)
  }

  /** `list.remove(x)` takes away exactly one copy of `x` when there is one, and nothing else. */
  lemma {:induction false} RemoveFirstCounts(s: seq<string>, x: string)
    ensures x in s ==> multiset(RemoveFirst(s, x)) == multiset(s) - multiset{x}
    ensures x in s ==> |RemoveFirst(s, x)| == |s| - 1
    ensures x !in s ==> RemoveFirst(s, x) == s
    decreases |s|
  {
    if s != [] {
      var t := s[1..];
      assert s == [s[0]] + t;
      assert multiset(s) == multiset{s[0]} + multiset(t);
      RemoveFirstCounts(t, x);
      if s[0] == x {
        assert RemoveFirst(s, x) == t;
      } else {
        assert RemoveFirst(s, x) == [s[0]] + RemoveFirst(t, x);
        assert x in s <==> x in t;
        assert multiset([s[0]] + RemoveFirst(t, x)) == multiset{s[0]} + multiset(RemoveFirst(t, x));
      }
    }
  }

  /** The position of the first occurrence of `x` in `s`. */
  function IndexOf(s: seq<string>, x: string): (i: nat)
    requires x in s
    ensures i < |s| && s[i] == x && x !in s[..i]
    decreases |s|
  {
    if s[0] == x then 0
    else
      var j := IndexOf(s[1..], x);
      assert s[..j + 1] == [s[0]] + s[1..][..j];
      j + 1
  }

  /** Removing the first occurrence, found at index `i`, keeps the elements before and after it. */
  lemma {:induction false} RemoveFirstAt(s: seq<string>, x: string, i: nat)
    requires i < |s| && s[i] == x && x !in s[..i]
    ensures RemoveFirst(s, x) == s[..i] + s[i + 1..]
    decreases i
  {
    if i > 0 {
      assert s[0] in s[..i];
      var t := s[1..];
      assert t[..i - 1] == s[1..i];
      RemoveFirstAt(t, x, i - 1);
      ConsSplit(s, i);
    }
  }

  lemma ConsSplit(s: seq<string>, i: nat)
    requires 0 < i < |s|
    ensures [s[0]] + (s[1..][..i - 1] + s[1..][i..]) == s[..i] + s[i + 1..]
  {
  }

  /**
   `list.remove(x)` on a list holding `x` deletes its first occurrence and
   keeps every other element in its place.
   */
  lemma RemoveFirstDropsFirst(s: seq<string>, x: string)
    requires x in s
    ensures exists i :: 0 <= i < |s| && s[i] == x && x !in s[..i] && RemoveFirst(s, x) == s[..i] + s[i + 1..]
  {
    var i := IndexOf(s, x);
    RemoveFirstAt(s, x, i);
  }

  /**
   The remove/append/sort dance of the ingestion loop: taking an element out
   of a sorted list, appending it again and re-sorting yields the same list.
   */
  lemma RemoveAppendSortRestores(s: seq<string>, i: nat)
    requires Sorted(s)
    requires i < |s|
    ensures Sort(RemoveFirst(s, s[i]) + [s[i]]) == s
  {
    var r := RemoveFirst(s, s[i]);
    var t := r + [s[i]];
    RemoveFirstCounts(s, s[i]);
    assert s[i] in s;
    assert multiset(t) == multiset(r) + multiset{s[i]};
    assert multiset(t) == multiset(s);
    var u := Sort(t);
    assert Sorted(u) && multiset(u) == multiset(t);
    SortedUnique(u, s);
  }

  /** `str.replace(' ', '_')`. */
  function Underscore(s: string): (r: string)
    ensures |r| == |s|
    ensures forall i :: 0 <= i < |s| ==> r[i] == (if s[i] == ' ' then '_' else s[i])
    ensures ' ' !in r
    decreases |s|
  {
    if s == [] then ""
    else [if s[0] == ' ' then '_' else s[0]] + Underscore(s[1..])
  }

  /** `t in s` for two strings: `t` occurs as a contiguous piece of `s`. */
  predicate Substring(t: string, s: string)
    decreases |s|
  {
    (|t| <= |s| && s[..|t|] == t) || (|s| > 0 && Substring(t, s[1..]))
  }

  /** No element occurs twice. */
  predicate Distinct<T(==)>(s: seq<T>) {
    forall i, j :: 0 <= i < j < |s| ==> s[i] != s[j]
  }

  /** `order` lists every element of `keys` exactly once: a dictionary's key iteration order. */
  ghost predicate Enumerates(order: seq<string>, keys: set<string>) {
    Distinct(order) && (forall k :: k in order <==> k in keys)
  }

  /** A list without repetitions has as many elements as its set. */
  lemma {:induction false} DistinctCardinality(s: seq<string>, keys: set<string>)
    requires Enumerates(s, keys)
    ensures |keys| == |s|
    decreases |s|
  {
    if |s| > 0 {
      var last := s[|s| - 1];
      var init := s[..|s| - 1];
      forall k | k in keys - {last}
        ensures k in init
      {
        var j :| 0 <= j < |s| && s[j] == k;
        assert init[j] == k;
      }
      forall k | k in init
        ensures k in keys - {last}
      {
        var j :| 0 <= j < |init| && init[j] == k;
        assert s[j] == k;
      }
      DistinctCardinality(init, keys - {last});
    }
  }
}
