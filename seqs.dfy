/** Generic sequence operations: duplicate removal in first-occurrence order
    (what `Array.from(new Set(xs))` gives), filtering, and the stable sort
    that `Array.prototype.sort` performs, specified by sortedness and
    permutation. */
module Seqs {

  predicate NoDup<T(==)>(s: seq<T>) {
    forall i, j :: 0 <= i < j < |s| ==> s[i] != s[j]
  }

  /** `set.add(x)` on an insertion-ordered set held as a sequence. */
  function AddUnique<T(==, !new)>(s: seq<T>, x: T): (r: seq<T>)
    ensures NoDup(s) ==> NoDup(r)
    ensures forall y :: y in r <==> y in s || y == x
  {
    if x in s then s else s + [x]
  }

  /** The distinct elements of `s` in order of first occurrence. */
  function Dedup<T(==, !new)>(s: seq<T>): (r: seq<T>)
    ensures NoDup(r)
    ensures forall x :: x in r <==> x in s
    ensures |r| <= |s|
  {
    if |s| == 0 then [] else AddUnique(Dedup(s[..|s| - 1]), s[|s| - 1])
  }

  lemma DedupSnoc<T(!new)>(s: seq<T>, x: T)
    ensures Dedup(s + [x]) == AddUnique(Dedup(s), x)
  {
    assert (s + [x])[..|s|] == s;
  }

  /** `Dedup` leaves a sequence without duplicates as it is. */
  lemma {:induction false} DedupOfNoDup<T(!new)>(s: seq<T>)
    requires NoDup(s)
    ensures Dedup(s) == s
  {
    if |s| > 0 {
      var init := s[..|s| - 1];
      assert NoDup(init);
      DedupOfNoDup(init);
      assert s[|s| - 1] !in init;
      assert s == init + [s[|s| - 1]];
    }
  }

  function Filter<T>(s: seq<T>, p: T -> bool): (r: seq<T>)
    ensures |r| <= |s|
    ensures forall i :: 0 <= i < |r| ==> p(r[i])
  {
    if |s| == 0 then [] else (if p(s[0]) then [s[0]] else []) + Filter(s[1..], p)
  }

  lemma {:induction false} FilterMembers<T>(s: seq<T>, p: T -> bool, x: T)
    ensures x in Filter(s, p) <==> x in s && p(x)
  {
    if |s| > 0 {
      FilterMembers(s[1..], p, x);
      assert s == [s[0]] + s[1..];
    }
  }

  lemma {:induction false} FilterIdempotent<T>(s: seq<T>, p: T -> bool)
    ensures Filter(Filter(s, p), p) == Filter(s, p)
  {
    if |s| > 0 {
      FilterIdempotent(s[1..], p);
      var t := Filter(s, p);
      if p(s[0]) {
        assert t == [s[0]] + Filter(s[1..], p);
        assert t[0] == s[0] && t[1..] == Filter(s[1..], p);
      } else {
        assert t == Filter(s[1..], p);
      }
    }
  }

  lemma {:induction false} FilterAppend<T>(s: seq<T>, t: seq<T>, p: T -> bool)
    ensures Filter(s + t, p) == Filter(s, p) + Filter(t, p)
  {
    if |s| > 0 {
      FilterAppend(s[1..], t, p);
      assert (s + t)[1..] == s[1..] + t;
    } else {
      assert s + t == t;
    }
  }

  /** An element that passes the filter sits in the result right after what
      the filter keeps of the elements before it. */
  lemma FilterAt<T>(s: seq<T>, p: T -> bool, i: nat)
    requires i < |s| && p(s[i])
    ensures |Filter(s[..i], p)| < |Filter(s, p)|
    ensures Filter(s, p)[|Filter(s[..i], p)|] == s[i]
  {
    assert s == s[..i] + s[i..];
    FilterAppend(s[..i], s[i..], p);
    assert s[i..][0] == s[i] && s[i..][1..] == s[i + 1..];
  }

  /** What the filter keeps of a prefix grows past each element that passes. */
  lemma FilterPrefixGrows<T>(s: seq<T>, p: T -> bool, i: nat, j: nat)
    requires i < j <= |s| && p(s[i])
    ensures |Filter(s[..i], p)| < |Filter(s[..j], p)|
  {
    assert s[..j] == s[..i] + s[i..j];
    FilterAppend(s[..i], s[i..j], p);
    assert s[i..j][0] == s[i];
  }

  /** The filter keeps the elements that pass in their original order. */
  lemma FilterKeepsOrder<T>(s: seq<T>, p: T -> bool, i: nat, j: nat)
    requires i < j < |s| && p(s[i]) && p(s[j])
    ensures exists k, l :: 0 <= k < l < |Filter(s, p)| && Filter(s, p)[k] == s[i] && Filter(s, p)[l] == s[j]
  {
    FilterAt(s, p, i);
    FilterAt(s, p, j);
    FilterPrefixGrows(s, p, i, j);
    var k, l := |Filter(s[..i], p)|, |Filter(s[..j], p)|;
    assert Filter(s, p)[k] == s[i] && Filter(s, p)[l] == s[j];
  }

  /** `le(a, b)` says that `a` may come before `b`: a comparator that
      returns a value `<= 0`. */
  ghost predicate Total<T(!new)>(le: (T, T) -> bool) {
    forall a, b :: le(a, b) || le(b, a)
  }

  ghost predicate Transitive<T(!new)>(le: (T, T) -> bool) {
    forall a, b, c :: le(a, b) && le(b, c) ==> le(a, c)
  }

  ghost predicate TotalPreorder<T(!new)>(le: (T, T) -> bool) {
    Total(le) && Transitive(le)
  }

  ghost predicate Antisymmetric<T(!new)>(le: (T, T) -> bool) {
    forall a, b :: le(a, b) && le(b, a) ==> a == b
  }

  predicate Sorted<T>(s: seq<T>, le: (T, T) -> bool) {
    forall i, j :: 0 <= i < j < |s| ==> le(s[i], s[j])
  }

  /** Inserts `x` before the first element of `s` that it may precede, so it
      goes in front of the elements it ties with. `SortBy` inserts each element
      into the sorted rest of the input, which holds the elements that come
      after it, so ties keep their input order: the sort is stable. */
  function Insert<T>(x: T, s: seq<T>, le: (T, T) -> bool): (r: seq<T>)
    ensures multiset(r) == multiset(s) + multiset{x}
  {
    if |s| == 0 then [x]
    else if le(x, s[0]) then [x] + s
    else
      assert s == [s[0]] + s[1..];
      [s[0]] + Insert(x, s[1..], le)
  }

  /** Stable insertion sort by `le`. */
  function SortBy<T>(s: seq<T>, le: (T, T) -> bool): (r: seq<T>)
    ensures multiset(r) == multiset(s)
    ensures |r| == |s|
  {
    if |s| == 0 then []
    else
      assert s == [s[0]] + s[1..];
      Insert(s[0], SortBy(s[1..], le), le)
  }

  lemma {:induction false} InsertSorted<T(!new)>(x: T, s: seq<T>, le: (T, T) -> bool)
    requires TotalPreorder(le)
    requires Sorted(s, le)
    ensures Sorted(Insert(x, s, le), le)
  {
    if |s| > 0 && !le(x, s[0]) {
      var tail := Insert(x, s[1..], le);
      InsertSorted(x, s[1..], le);
      assert le(s[0], x);
      forall j | 0 <= j < |tail| ensures le(s[0], tail[j]) {
        assert tail[j] in multiset(tail);
        assert tail[j] == x || tail[j] in multiset(s[1..]);
      }
    }
  }

  lemma {:induction false} SortBySorted<T(!new)>(s: seq<T>, le: (T, T) -> bool)
    requires TotalPreorder(le)
    ensures Sorted(SortBy(s, le), le)
  {
    if |s| > 0 {
      SortBySorted(s[1..], le);
      InsertSorted(s[0], SortBy(s[1..], le), le);
    }
  }

  lemma SortedHeadFirst<T(!new)>(a: seq<T>, le: (T, T) -> bool, x: T)
    requires Total(le) && Sorted(a, le)
    requires x in a
    ensures le(a[0], x)
  {
    var i :| 0 <= i < |a| && a[i] == x;
    if i == 0 {
      assert le(x, x) || le(x, x);
    }
  }

  lemma InitLast<T>(s: seq<T>)
    requires |s| > 0
    ensures s == s[..|s| - 1] + [s[|s| - 1]]
  {
  }

  lemma MultisetTail<T>(a: seq<T>)
    requires |a| > 0
    ensures multiset(a[1..]) == multiset(a) - multiset{a[0]}
  {
    assert a == [a[0]] + a[1..];
  }

  /** Under an order that admits no ties between different values, a
      sequence has exactly one sorted arrangement. */
  lemma {:induction false} SortedUnique<T(!new)>(a: seq<T>, b: seq<T>, le: (T, T) -> bool)
    requires Total(le) && Antisymmetric(le)
    requires Sorted(a, le) && Sorted(b, le)
    requires multiset(a) == multiset(b)
    ensures a == b
  {
    assert |a| == |multiset(a)| == |multiset(b)| == |b|;
    if |a| > 0 {
      SortedHeadsEqual(a, b, le);
      MultisetTail(a);
      MultisetTail(b);
      SortedTail(a, le);
      SortedTail(b, le);
      SortedUnique(a[1..], b[1..], le);
      SameHeadAndTail(a, b);
    }
  }

  lemma SortedTail<T>(a: seq<T>, le: (T, T) -> bool)
    requires Sorted(a, le) && |a| > 0
    ensures Sorted(a[1..], le)
  {
    forall i, j | 0 <= i < j < |a| - 1 ensures le(a[1..][i], a[1..][j]) {
      assert le(a[i + 1], a[j + 1]);
    }
  }

  lemma SameHeadAndTail<T>(a: seq<T>, b: seq<T>)
    requires |a| > 0 && |b| > 0 && a[0] == b[0] && a[1..] == b[1..]
    ensures a == b
  {
    assert a == [a[0]] + a[1..];
    assert b == [b[0]] + b[1..];
  }

  lemma SortedHeadsEqual<T(!new)>(a: seq<T>, b: seq<T>, le: (T, T) -> bool)
    requires Total(le) && Antisymmetric(le)
    requires Sorted(a, le) && Sorted(b, le)
    requires multiset(a) == multiset(b) && |a| > 0
    ensures |b| > 0 && a[0] == b[0]
  {
    assert a[0] in multiset(b) && a[0] in b;
    SortedHeadFirst(b, le, a[0]);
    assert b[0] in multiset(a);
    SortedHeadFirst(a, le, b[0]);
  }

  /** A value occurs at most once in a sequence without duplicates. */
  lemma {:induction false} NoDupCount<T(!new)>(a: seq<T>, x: T)
    requires NoDup(a)
    ensures multiset(a)[x] <= 1
  {
    if |a| > 0 {
      var init := a[..|a| - 1];
      assert a == init + [a[|a| - 1]];
      assert NoDup(init);
      NoDupCount(init, x);
      if a[|a| - 1] == x {
        assert x !in init;
      }
    }
  }

  lemma TwoPositionsCount<T>(b: seq<T>, i: nat, j: nat)
    requires i < j < |b| && b[i] == b[j]
    ensures multiset(b)[b[i]] >= 2
  {
    assert b == b[..j] + b[j..];
    assert b[i] in b[..j];
    assert b[j] in b[j..] by { assert b[j..][0] == b[j]; }
  }

  /** Rearranging a sequence without duplicates gives one without duplicates. */
  lemma NoDupPermutation<T(!new)>(a: seq<T>, b: seq<T>)
    requires NoDup(a) && multiset(a) == multiset(b)
    ensures NoDup(b)
  {
    forall i, j | 0 <= i < j < |b| ensures b[i] != b[j] {
      if b[i] == b[j] {
        TwoPositionsCount(b, i, j);
        NoDupCount(a, b[i]);
      }
    }
  }

  /** `s.map(f)` */
  function Map<T, U>(s: seq<T>, f: T -> U): (r: seq<U>)
    ensures |r| == |s|
  {
    if |s| == 0 then [] else Map(s[..|s| - 1], f) + [f(s[|s| - 1])]
  }

  lemma {:induction false} MapAppend<T, U>(s: seq<T>, t: seq<T>, f: T -> U)
    ensures Map(s + t, f) == Map(s, f) + Map(t, f)
    decreases |t|
  {
    if |t| == 0 {
      assert s + t == s;
    } else {
      assert (s + t)[..|s + t| - 1] == s + t[..|t| - 1];
      MapAppend(s, t[..|t| - 1], f);
    }
  }

  lemma MultisetSplit<T>(b: seq<T>, k: nat)
    requires k < |b|
    ensures multiset(b) == multiset(b[..k] + b[k + 1..]) + multiset{b[k]}
  {
    assert b == b[..k] + [b[k]] + b[k + 1..];
  }

  lemma UnionCancel<T>(p: multiset<T>, q: multiset<T>, x: T)
    requires p + multiset{x} == q + multiset{x}
    ensures p == q
  {
    assert p == p + multiset{x} - multiset{x};
  }

  lemma UnionSwap<T>(p: multiset<T>, q: multiset<T>, r: multiset<T>)
    ensures p + q + r == p + r + q
  {
  }

  /** Mapping a sequence maps each element, wherever it sits. */
  lemma MapSplit<T, U>(b: seq<T>, k: nat, f: T -> U)
    requires k < |b|
    ensures multiset(Map(b, f)) == multiset(Map(b[..k] + b[k + 1..], f)) + multiset{f(b[k])}
  {
    var x := b[k];
    assert b == b[..k] + [x] + b[k + 1..];
    MapAppend(b[..k] + [x], b[k + 1..], f);
    MapAppend(b[..k], [x], f);
    MapAppend(b[..k], b[k + 1..], f);
    assert Map([x], f) == [f(x)];
    var left, right := Map(b[..k], f), Map(b[k + 1..], f);
    assert Map(b, f) == left + [f(x)] + right;
    assert Map(b[..k] + b[k + 1..], f) == left + right;
    var ml, mr, mx := multiset(left), multiset(right), multiset{f(x)};
    calc {
      multiset(Map(b, f));
      multiset(left + [f(x)]) + mr;
      ml + mx + mr;
      { UnionSwap(ml, mr, mx); }
      ml + mr + mx;
      multiset(left + right) + mx;
    }
  }

  /** Mapping two rearrangements of one sequence gives two rearrangements. */
  lemma {:induction false} MapPermutation<T, U>(a: seq<T>, b: seq<T>, f: T -> U)
    requires multiset(a) == multiset(b)
    ensures multiset(Map(a, f)) == multiset(Map(b, f))
    decreases |a|
  {
    assert |a| == |multiset(a)| == |multiset(b)| == |b|;
    if |a| > 0 {
      var init, x := a[..|a| - 1], a[|a| - 1];
      InitLast(a);
      assert x in multiset(b);
      var k :| 0 <= k < |b| && b[k] == x;
      var rest := b[..k] + b[k + 1..];
      MultisetSplit(b, k);
      assert multiset(a) == multiset(init) + multiset{x};
      UnionCancel(multiset(init), multiset(rest), x);
      MapPermutation(init, rest, f);
      MapSplit(b, k, f);
      assert Map(a, f) == Map(init, f) + [f(x)];
    }
  }

  ghost function Image<T, U>(s: seq<T>, f: T -> U): set<U> {
    set x | x in s :: f(x)
  }

  /** The image of a sequence has no more elements than the sequence. */
  lemma {:induction false} ImageCard<T, U>(s: seq<T>, f: T -> U)
    ensures |Image(s, f)| <= |s|
  {
    if |s| > 0 {
      var init := s[..|s| - 1];
      ImageCard(init, f);
      InitLast(s);
      assert Image(s, f) == Image(init, f) + {f(s[|s| - 1])};
    }
  }

  lemma SubsetCard<T>(a: set<T>, b: set<T>)
    requires a <= b
    ensures |a| <= |b|
  {
    assert b == a + (b - a);
    assert a * (b - a) == {};
  }

  /** The first `n` elements, or all of them when there are fewer. */
  function Take<T>(s: seq<T>, n: nat): (r: seq<T>)
    ensures |r| <= n && |r| <= |s|
    ensures r == s[..|r|]
    ensures |s| <= n ==> r == s
    ensures |s| > n ==> |r| == n
  {
    if |s| <= n then s else s[..n]
  }
}
