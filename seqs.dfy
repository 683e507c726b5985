/**
 * Sequence operations behind the core: the list comprehensions with a
 * condition, messages built piece by piece with f-strings and `+=`, and the
 * SQL aggregates `COUNT(DISTINCT ...)`, `GROUP BY` and `ORDER BY ... DESC`.
 */
module Seqs {

  /** `[x for x in s if p(x)]`. */
  function Filter<T>(p: T -> bool, s: seq<T>): seq<T>
    decreases |s|
  {
    if s == [] then [] else (if p(s[0]) then [s[0]] else []) + Filter(p, s[1..])
  }

  /** Filtering distributes over concatenation; with the one-element case this pins down a stable filter. */
  lemma {:induction false} FilterAppend<T>(p: T -> bool, a: seq<T>, b: seq<T>)
    ensures Filter(p, a + b) == Filter(p, a) + Filter(p, b)
    decreases |a|
  {
    if a == [] {
      assert a + b == b;
    } else {
      var head := if p(a[0]) then [a[0]] else [];
      calc {
        Filter(p, a + b);
        { assert (a + b)[0] == a[0]; }
        head + Filter(p, (a + b)[1..]);
        { assert (a + b)[1..] == a[1..] + b; }
        head + Filter(p, a[1..] + b);
        { FilterAppend(p, a[1..], b); }
        head + (Filter(p, a[1..]) + Filter(p, b));
        { AppendAssoc(head, Filter(p, a[1..]), Filter(p, b)); }
        Filter(p, a) + Filter(p, b);
      }
    }
  }

  /** Filtering keeps every occurrence of an element that passes and none of one that does not. */
  lemma {:induction false} FilterCounts<T>(p: T -> bool, s: seq<T>)
    ensures forall x :: multiset(Filter(p, s))[x] == if p(x) then multiset(s)[x] else 0
    decreases |s|
  {
    if s != [] {
      FilterCounts(p, s[1..]);
      assert s == [s[0]] + s[1..];
    }
  }

  lemma FilterMembers<T>(p: T -> bool, s: seq<T>)
    ensures forall x :: x in Filter(p, s) <==> x in s && p(x)
  {
    FilterCounts(p, s);
    forall x
      ensures x in Filter(p, s) <==> x in s && p(x)
    {
      assert x in Filter(p, s) <==> multiset(Filter(p, s))[x] > 0;
      assert x in s <==> multiset(s)[x] > 0;
    }
  }

  lemma FilterSnoc<T>(p: T -> bool, s: seq<T>, i: nat)
    requires i < |s|
    ensures Filter(p, s[..i + 1]) == Filter(p, s[..i]) + (if p(s[i]) then [s[i]] else [])
  {
    assert s[..i + 1] == s[..i] + [s[i]];
    FilterAppend(p, s[..i], [s[i]]);
  }

  /** Regrouping a concatenation of three. */
  lemma AppendAssoc<T>(a: seq<T>, b: seq<T>, c: seq<T>)
    ensures a + (b + c) == a + b + c
  {
  }

  /** Appending nothing, or taking a whole prefix, gives the sequence back. */
  lemma AppendNothing<T>(s: seq<T>)
    ensures s + [] == s && s[..|s|] == s
  {
  }

  /** A non-empty sequence is its front followed by its last element. */
  lemma FrontLast<T>(s: seq<T>)
    requires s != []
    ensures s[..|s| - 1] + [s[|s| - 1]] == s
  {
  }

  /** A non-empty sequence is its first element followed by the rest. */
  lemma FirstRest<T>(s: seq<T>)
    requires s != []
    ensures [s[0]] + s[1..] == s
  {
  }

  /** A prefix and the matching suffix make up the sequence. */
  lemma TakeDrop<T>(s: seq<T>, k: nat)
    requires k <= |s|
    ensures s[..k] + s[k..] == s
  {
  }

  /** A prefix one longer is the prefix followed by the next element. */
  lemma TakeSnoc<T>(s: seq<T>, i: nat)
    requires i < |s|
    ensures s[..i + 1] == s[..i] + [s[i]]
  {
  }

  /** The pieces of a message concatenated in order, as the f-strings and `+=` build it. */
  function Concat<T>(parts: seq<seq<T>>): seq<T>
    decreases |parts|
  {
    if parts == [] then [] else Concat(parts[..|parts| - 1]) + parts[|parts| - 1]
  }

  lemma {:induction false} ConcatAppend<T>(a: seq<seq<T>>, b: seq<seq<T>>)
    ensures Concat(a + b) == Concat(a) + Concat(b)
    decreases |b|
  {
    if b == [] {
      assert a + b == a;
    } else {
      var b', x := b[..|b| - 1], b[|b| - 1];
      calc {
        Concat(a + b);
        { assert (a + b)[..|a + b| - 1] == a + b'; assert (a + b)[|a + b| - 1] == x; }
        Concat(a + b') + x;
        { ConcatAppend(a, b'); }
        Concat(a) + Concat(b') + x;
        { AppendAssoc(Concat(a), Concat(b'), x); }
        Concat(a) + Concat(b);
      }
    }
  }

  /** Joining a prefix and the rest of the parts. */
  lemma ConcatSplit<T>(parts: seq<seq<T>>, k: nat)
    requires k <= |parts|
    ensures Concat(parts) == Concat(parts[..k]) + Concat(parts[k..])
  {
    assert parts == parts[..k] + parts[k..];
    ConcatAppend(parts[..k], parts[k..]);
  }

  /** Joining one more part of a prefix. */
  lemma ConcatTake<T>(parts: seq<seq<T>>, k: nat)
    requires k < |parts|
    ensures Concat(parts[..k + 1]) == Concat(parts[..k]) + parts[k]
  {
    assert parts[..k + 1][..k] == parts[..k];
  }

  /** Part `k` stands in the concatenation right after the parts before it. */
  lemma ConcatAt<T>(parts: seq<seq<T>>, k: nat)
    requires k < |parts|
    ensures Concat(parts) == Concat(parts[..k]) + parts[k] + Concat(parts[k + 1..])
  {
    ConcatSplit(parts, k + 1);
    ConcatTake(parts, k);
  }

  /** A value found in no part is not in the concatenation. */
  lemma {:induction false} ConcatAvoids<T>(parts: seq<seq<T>>, c: T)
    requires forall part :: part in parts ==> c !in part
    ensures c !in Concat(parts)
    decreases |parts|
  {
    if parts != [] {
      assert parts[|parts| - 1] in parts;
      ConcatAvoids(parts[..|parts| - 1], c);
    }
  }

  /** The elements of `s` whose flag in `keep` is set, in their order in `s`. */
  function Select<T>(keep: seq<bool>, s: seq<T>): seq<T>
    requires |keep| == |s|
    decreases |s|
  {
    if s == [] then []
    else Select(keep[..|s| - 1], s[..|s| - 1]) + (if keep[|s| - 1] then [s[|s| - 1]] else [])
  }

  /** No element occurs twice. */
  predicate Distinct<T(==)>(s: seq<T>) {
    forall i, j :: 0 <= i < j < |s| ==> s[i] != s[j]
  }

  /** The elements of `s` in order of first appearance, each once. */
  function Dedup<T(==)>(s: seq<T>): seq<T>
    decreases |s|
  {
    if s == [] then []
    else
      var d := Dedup(s[..|s| - 1]);
      if s[|s| - 1] in d then d else d + [s[|s| - 1]]
  }

  /** Duplicate elimination keeps exactly the elements of `s`, once each. */
  lemma {:induction false} DedupSpec<T>(s: seq<T>)
    ensures Distinct(Dedup(s))
    ensures forall x :: x in Dedup(s) <==> x in s
    decreases |s|
  {
    if s != [] {
      var init := s[..|s| - 1];
      DedupSpec(init);
      assert s == init + [s[|s| - 1]];
    }
  }

  /** A sequence without repetitions has as many elements as its set. */
  lemma {:induction false} DistinctCard<T>(s: seq<T>)
    requires Distinct(s)
    ensures |set x | x in s| == |s|
    decreases |s|
  {
    if s != [] {
      var init := s[..|s| - 1];
      DistinctCard(init);
      assert (set x | x in s) == (set x | x in init) + {s[|s| - 1]};
      assert s[|s| - 1] !in init;
    }
  }

  lemma SameElementsSameSet<T>(a: seq<T>, b: seq<T>)
    requires forall x :: x in a <==> x in b
    ensures (set x | x in a) == (set x | x in b)
  {
  }

  /** The number of different elements of `s` (SQL's `COUNT(DISTINCT ...)`). */
  function CountDistinct<T(==)>(s: seq<T>): (n: nat)
    ensures n == |set x | x in s|
  {
    DedupSpec(s);
    DistinctCard(Dedup(s));
    SameElementsSameSet(Dedup(s), s);
    |Dedup(s)|
  }

  // ---------------------------------------------------------------------
  // Ordering by a key, largest first (SQL's `ORDER BY key DESC`).
  // ---------------------------------------------------------------------

  predicate SortedDesc<T>(s: seq<T>, key: T -> int) {
    forall i, j :: 0 <= i < j < |s| ==> key(s[i]) >= key(s[j])
  }

  function InsertDesc<T>(x: T, s: seq<T>, key: T -> int): seq<T>
    decreases |s|
  {
    if s == [] || key(s[0]) <= key(x) then [x] + s else [s[0]] + InsertDesc(x, s[1..], key)
  }

  /** Insertion sort by `key`, largest first; equal keys keep their original order. */
  function SortDesc<T>(s: seq<T>, key: T -> int): seq<T>
    decreases |s|
  {
    if s == [] then [] else InsertDesc(s[0], SortDesc(s[1..], key), key)
  }

  lemma {:induction false} InsertDescCounts<T>(x: T, s: seq<T>, key: T -> int)
    ensures multiset(InsertDesc(x, s, key)) == multiset(s) + multiset{x}
    decreases |s|
  {
    if s != [] && key(s[0]) > key(x) {
      InsertDescCounts(x, s[1..], key);
      assert s == [s[0]] + s[1..];
    }
  }

  lemma {:induction false} InsertDescSorted<T>(x: T, s: seq<T>, key: T -> int)
    requires SortedDesc(s, key)
    ensures SortedDesc(InsertDesc(x, s, key), key)
    decreases |s|
  {
    if s != [] && key(s[0]) > key(x) {
      var tail := s[1..];
      InsertDescSorted(x, tail, key);
      InsertDescCounts(x, tail, key);
      var r := InsertDesc(x, tail, key);
      var out := [s[0]] + r;
      forall j | 0 <= j < |r|
        ensures key(s[0]) >= key(r[j])
      {
        assert multiset(r)[r[j]] > 0;
        if r[j] != x {
          assert r[j] in tail;
        }
      }
      forall i, j | 0 <= i < j < |out|
        ensures key(out[i]) >= key(out[j])
      {
        if i > 0 {
          assert out[i] == r[i - 1] && out[j] == r[j - 1];
        } else {
          assert out[j] == r[j - 1];
        }
      }
    }
  }

  /** Sorting orders by key and only rearranges. */
  lemma {:induction false} SortDescSpec<T>(s: seq<T>, key: T -> int)
    ensures SortedDesc(SortDesc(s, key), key)
    ensures multiset(SortDesc(s, key)) == multiset(s)
    decreases |s|
  {
    if s != [] {
      SortDescSpec(s[1..], key);
      InsertDescSorted(s[0], SortDesc(s[1..], key), key);
      InsertDescCounts(s[0], SortDesc(s[1..], key), key);
      assert s == [s[0]] + s[1..];
    }
  }

  /** The first `k` of a sorted sequence are the `k` largest: nothing left out has a larger key. */
  lemma SortedPrefixIsTop<T>(s: seq<T>, key: T -> int, k: nat)
    requires SortedDesc(s, key) && k <= |s|
    ensures forall x, y :: x in s[k..] && y in s[..k] ==> key(x) <= key(y)
  {
    forall x, y | x in s[k..] && y in s[..k]
      ensures key(x) <= key(y)
    {
      var i :| 0 <= i < |s[k..]| && s[k..][i] == x;
      var j :| 0 <= j < k && s[..k][j] == y;
      assert s[j] == y && s[k + i] == x;
    }
  }
}
