/** Sequence combinators behind `Array.prototype.filter`, `new Set(...)` and `sort`. */
module Seqs {

  /** `r` is an order-preserving subsequence of `xs`. */
  predicate IsSubseq<T(==)>(r: seq<T>, xs: seq<T>)
    decreases |xs|
  {
    if |r| == 0 then true
    else if |xs| == 0 then false
    else if r[0] == xs[0] then IsSubseq(r[1..], xs[1..])
    else IsSubseq(r, xs[1..])
  }

  /** `xs.filter(keep)`. */
  function Filter<T(==,!new)>(xs: seq<T>, keep: T -> bool): (r: seq<T>)
    ensures |r| <= |xs|
  {
    if |xs| == 0 then []
    else if keep(xs[0]) then [xs[0]] + Filter(xs[1..], keep)
    else Filter(xs[1..], keep)
  }

  /** An element survives filtering exactly when it is in the input and passes the test. */
  lemma {:induction false} FilterMembers<T(!new)>(xs: seq<T>, keep: T -> bool)
    ensures forall x :: x in Filter(xs, keep) <==> x in xs && keep(x)
  {
    if |xs| > 0 {
      FilterMembers(xs[1..], keep);
      assert xs == [xs[0]] + xs[1..];
    }
  }

  /** Filtering keeps the surviving elements in their original order. */
  lemma {:induction false} FilterSubseq<T(!new)>(xs: seq<T>, keep: T -> bool)
    ensures IsSubseq(Filter(xs, keep), xs)
  {
    if |xs| > 0 {
      var rest := Filter(xs[1..], keep);
      FilterSubseq(xs[1..], keep);
      if keep(xs[0]) {
        assert Filter(xs, keep)[1..] == rest;
      } else if |rest| > 0 {
        FilterMembers(xs[1..], keep);
        assert rest[0] in rest;
      }
    }
  }

  /** Filtering keeps every copy of an element that passes the test and no copy of one
      that fails it. */
  lemma {:induction false} FilterCount<T(!new)>(xs: seq<T>, keep: T -> bool)
    ensures forall x :: multiset(Filter(xs, keep))[x] == if keep(x) then multiset(xs)[x] else 0
  {
    if |xs| > 0 {
      FilterCount(xs[1..], keep);
      assert xs == [xs[0]] + xs[1..];
      assert multiset(xs) == multiset{xs[0]} + multiset(xs[1..]);
    }
  }

  /** `xs.filter(keep)` in full: an order-preserving subsequence of `xs` that holds each
      passing element as often as `xs` does, and nothing else. The subsequence and the
      counts together leave only one candidate. */
  lemma FilterSpec<T(!new)>(xs: seq<T>, keep: T -> bool)
    ensures IsSubseq(Filter(xs, keep), xs)
    ensures forall x :: multiset(Filter(xs, keep))[x] == if keep(x) then multiset(xs)[x] else 0
    ensures forall x :: x in Filter(xs, keep) <==> x in xs && keep(x)
  {
    FilterSubseq(xs, keep);
    FilterCount(xs, keep);
    FilterMembers(xs, keep);
  }

  lemma {:induction false} FilterConcat<T(!new)>(a: seq<T>, b: seq<T>, keep: T -> bool)
    ensures Filter(a + b, keep) == Filter(a, keep) + Filter(b, keep)
  {
    if |a| == 0 {
      assert a + b == b;
    } else {
      assert (a + b)[1..] == a[1..] + b;
      FilterConcat(a[1..], b, keep);
    }
  }

  /** Filtering twice by the same test is filtering once. */
  lemma {:induction false} FilterIdempotent<T(!new)>(xs: seq<T>, keep: T -> bool)
    ensures Filter(Filter(xs, keep), keep) == Filter(xs, keep)
  {
    if |xs| > 0 {
      FilterIdempotent(xs[1..], keep);
    }
  }

  predicate NoDuplicates<T(==)>(r: seq<T>) {
    forall i, j :: 0 <= i < j < |r| ==> r[i] != r[j]
  }

  function DedupFrom<T(==)>(xs: seq<T>, seen: set<T>): seq<T> {
    if |xs| == 0 then []
    else if xs[0] in seen then DedupFrom(xs[1..], seen)
    else [xs[0]] + DedupFrom(xs[1..], seen + {xs[0]})
  }

  /** Deduplication keeps each unseen element once and nothing else. */
  lemma {:induction false} DedupFromSpec<T(!new)>(xs: seq<T>, seen: set<T>)
    ensures forall x :: x in DedupFrom(xs, seen) <==> x in xs && x !in seen
    ensures NoDuplicates(DedupFrom(xs, seen))
  {
    if |xs| > 0 {
      assert xs == [xs[0]] + xs[1..];
      if xs[0] in seen {
        DedupFromSpec(xs[1..], seen);
      } else {
        DedupFromSpec(xs[1..], seen + {xs[0]});
      }
    }
  }

  /** `Array.from(new Set(xs))`: distinct elements in first-occurrence order. */
  function Dedup<T(==)>(xs: seq<T>): seq<T> {
    DedupFrom(xs, {})
  }

  /** Reference definition, built from the back: `xs[i]` is kept iff it is absent from `xs[..i]`. */
  function FirstOccurrences<T(==)>(xs: seq<T>): seq<T> {
    if |xs| == 0 then []
    else
      var init := xs[..|xs| - 1];
      FirstOccurrences(init) + (if xs[|xs| - 1] in init then [] else [xs[|xs| - 1]])
  }

  lemma {:induction false} DedupFromSnoc<T(!new)>(a: seq<T>, x: T, seen: set<T>)
    ensures DedupFrom(a + [x], seen) == DedupFrom(a, seen) + (if x in seen || x in a then [] else [x])
    decreases |a|
  {
    if |a| == 0 {
      assert a + [x] == [x];
    } else {
      assert (a + [x])[1..] == a[1..] + [x];
      if a[0] in seen {
        DedupFromSnoc(a[1..], x, seen);
      } else {
        DedupFromSnoc(a[1..], x, seen + {a[0]});
      }
    }
  }

  /** The set-based deduplication agrees with the reference definition. */
  lemma {:induction false} DedupIsFirstOccurrences<T(!new)>(xs: seq<T>)
    ensures Dedup(xs) == FirstOccurrences(xs)
  {
    if |xs| > 0 {
      var init := xs[..|xs| - 1];
      assert xs == init + [xs[|xs| - 1]];
      DedupFromSnoc(init, xs[|xs| - 1], {});
      DedupIsFirstOccurrences(init);
    }
  }

  /** Lexicographic order on code units: JavaScript's default string comparison. */
  predicate StrLe(a: string, b: string)
    decreases |a|
  {
    |a| == 0 || (|b| > 0 && (a[0] < b[0] || (a[0] == b[0] && StrLe(a[1..], b[1..]))))
  }

  lemma {:induction false} StrLeRefl(a: string)
    ensures StrLe(a, a)
  {
    if |a| > 0 { StrLeRefl(a[1..]); }
  }

  lemma {:induction false} StrLeTotal(a: string, b: string)
    ensures StrLe(a, b) || StrLe(b, a)
  {
    if |a| > 0 && |b| > 0 && a[0] == b[0] { StrLeTotal(a[1..], b[1..]); }
  }

  lemma {:induction false} StrLeTrans(a: string, b: string, c: string)
    requires StrLe(a, b) && StrLe(b, c)
    ensures StrLe(a, c)
  {
    if |a| > 0 && |b| > 0 && |c| > 0 && a[0] == b[0] && b[0] == c[0] {
      StrLeTrans(a[1..], b[1..], c[1..]);
    }
  }

  lemma {:induction false} StrLeAntisym(a: string, b: string)
    requires StrLe(a, b) && StrLe(b, a)
    ensures a == b
  {
    if |a| > 0 && |b| > 0 {
      StrLeAntisym(a[1..], b[1..]);
      assert a == [a[0]] + a[1..] && b == [b[0]] + b[1..];
    }
  }

  predicate SortedBy<T>(xs: seq<T>, key: T -> string) {
    forall i, j :: 0 <= i < j < |xs| ==> StrLe(key(xs[i]), key(xs[j]))
  }

  lemma SortedSnoc<T>(r: seq<T>, x: T, key: T -> string)
    requires SortedBy(r, key)
    requires forall i :: 0 <= i < |r| ==> StrLe(key(r[i]), key(x))
    ensures SortedBy(r + [x], key)
  {
  }

  /** Every element of a sorted sequence is at most its last element. */
  lemma SortedBelowLast<T>(r: seq<T>, x: T, key: T -> string)
    requires SortedBy(r, key) && |r| > 0 && StrLe(key(r[|r| - 1]), key(x))
    ensures forall i :: 0 <= i < |r| ==> StrLe(key(r[i]), key(x))
  {
    forall i | 0 <= i < |r| ensures StrLe(key(r[i]), key(x)) {
      if i < |r| - 1 { StrLeTrans(key(r[i]), key(r[|r| - 1]), key(x)); }
    }
  }

  lemma InsertedBelowLast<T>(init: seq<T>, last: T, x: T, res: seq<T>, key: T -> string)
    requires SortedBy(init + [last], key)
    requires !StrLe(key(last), key(x))
    requires multiset(res) == multiset(init) + multiset{x}
    ensures forall i :: 0 <= i < |res| ==> StrLe(key(res[i]), key(last))
  {
    forall i | 0 <= i < |res| ensures StrLe(key(res[i]), key(last)) {
      var y := res[i];
      assert y in multiset(res);
      if y == x {
        StrLeTotal(key(last), key(x));
      } else {
        assert y in multiset(init);
        var k :| 0 <= k < |init| && init[k] == y;
        assert (init + [last])[k] == y && (init + [last])[|init|] == last;
      }
    }
  }

  /** Inserts `x` after every element whose key is at most `key(x)`: the stable insertion step. */
  function InsertBy<T>(r: seq<T>, x: T, key: T -> string): seq<T> {
    if |r| == 0 then [x]
    else if StrLe(key(r[|r| - 1]), key(x)) then r + [x]
    else InsertBy(r[..|r| - 1], x, key) + [r[|r| - 1]]
  }

  /** Inserting into a sorted sequence keeps it sorted and adds exactly `x`. */
  lemma {:induction false} InsertBySorted<T>(r: seq<T>, x: T, key: T -> string)
    requires SortedBy(r, key)
    ensures SortedBy(InsertBy(r, x, key), key)
    ensures multiset(InsertBy(r, x, key)) == multiset(r) + multiset{x}
    decreases |r|
  {
    if |r| > 0 {
      var last := r[|r| - 1];
      var init := r[..|r| - 1];
      assert r == init + [last];
      if StrLe(key(last), key(x)) {
        SortedBelowLast(r, x, key);
        SortedSnoc(r, x, key);
      } else {
        var res' := InsertBy(init, x, key);
        InsertBySorted(init, x, key);
        InsertedBelowLast(init, last, x, res', key);
        SortedSnoc(res', last, key);
      }
    }
  }

  /** Stable insertion sort by `key`, as `sort((a, b) => key(a).localeCompare(key(b)))`. */
  function SortBy<T>(xs: seq<T>, key: T -> string): seq<T> {
    if |xs| == 0 then [] else InsertBy(SortBy(xs[..|xs| - 1], key), xs[|xs| - 1], key)
  }

  /** The result is sorted by key and a permutation of the input. */
  lemma {:induction false} SortBySorted<T>(xs: seq<T>, key: T -> string)
    ensures SortedBy(SortBy(xs, key), key)
    ensures multiset(SortBy(xs, key)) == multiset(xs)
  {
    if |xs| > 0 {
      var init := xs[..|xs| - 1];
      assert xs == init + [xs[|xs| - 1]];
      SortBySorted(init, key);
      InsertBySorted(SortBy(init, key), xs[|xs| - 1], key);
    }
  }

  function HasKey<T>(key: T -> string, v: string): T -> bool {
    y => key(y) == v
  }

  /** Filtering by a key keeps exactly the elements whose key is the value. */
  lemma HasKeyMembers<T(!new)>(xs: seq<T>, key: T -> string, v: string)
    ensures forall x :: x in Filter(xs, HasKey(key, v)) <==> x in xs && key(x) == v
  {
    FilterMembers(xs, HasKey(key, v));
  }

  lemma {:induction false} InsertByStable<T(!new)>(r: seq<T>, x: T, key: T -> string, v: string)
    ensures Filter(InsertBy(r, x, key), HasKey(key, v))
         == Filter(r, HasKey(key, v)) + (if key(x) == v then [x] else [])
    decreases |r|
  {
    var p := HasKey(key, v);
    if |r| > 0 {
      var last := r[|r| - 1];
      var init := r[..|r| - 1];
      if StrLe(key(last), key(x)) {
        FilterConcat(r, [x], p);
      } else {
        InsertByStable(init, x, key, v);
        FilterConcat(InsertBy(init, x, key), [last], p);
        assert r == init + [last];
        FilterConcat(init, [last], p);
        if key(x) == v {
          StrLeRefl(key(x));
        }
      }
    }
  }

  /** Stability: elements with equal keys keep their relative order. */
  lemma {:induction false} SortByStable<T(!new)>(xs: seq<T>, key: T -> string, v: string)
    ensures Filter(SortBy(xs, key), HasKey(key, v)) == Filter(xs, HasKey(key, v))
  {
    if |xs| > 0 {
      var init := xs[..|xs| - 1];
      assert xs == init + [xs[|xs| - 1]];
      SortByStable(init, key, v);
      InsertByStable(SortBy(init, key), xs[|xs| - 1], key, v);
      FilterConcat(init, [xs[|xs| - 1]], HasKey(key, v));
    }
  }

  /** A list without repeats holds each element at most once. */
  lemma {:induction false} NoDuplicatesCount<T>(xs: seq<T>, x: T)
    requires NoDuplicates(xs)
    ensures multiset(xs)[x] <= 1
  {
    if |xs| > 0 {
      var init := xs[..|xs| - 1];
      assert xs == init + [xs[|xs| - 1]];
      assert NoDuplicates(init);
      NoDuplicatesCount(init, x);
      if x == xs[|xs| - 1] {
        assert x !in init;
      }
    }
  }

  /** A rearrangement of a list without repeats has none either. */
  lemma NoDuplicatesPerm<T>(a: seq<T>, b: seq<T>)
    requires NoDuplicates(a) && multiset(a) == multiset(b)
    ensures NoDuplicates(b)
  {
    forall i, j | 0 <= i < j < |b|
      ensures b[i] != b[j]
    {
      if b[i] == b[j] {
        assert b == b[..j] + b[j..];
        assert b[i] in multiset(b[..j]);
        assert b[j] in multiset(b[j..]);
        assert multiset(b)[b[i]] >= 2;
        NoDuplicatesCount(a, b[i]);
        assert false;
      }
    }
  }

  lemma FilterSingle<T(!new)>(x: T, keep: T -> bool)
    ensures Filter([x], keep) == if keep(x) then [x] else []
  {
    assert [x][1..] == [];
  }

  /** Sorting neither adds nor loses elements. */
  lemma SortByMembers<T>(xs: seq<T>, key: T -> string)
    ensures forall x :: x in SortBy(xs, key) <==> x in xs
  {
    SortByPerm(xs, key);
    forall x
      ensures x in SortBy(xs, key) <==> x in xs
    {
      assert x in SortBy(xs, key) <==> x in multiset(SortBy(xs, key));
    }
  }

  lemma SortByPerm<T>(xs: seq<T>, key: T -> string)
    ensures multiset(SortBy(xs, key)) == multiset(xs)
  {
    SortBySorted(xs, key);
  }
}
