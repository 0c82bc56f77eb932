/** Sequence operations the pandas calls of the pipeline reduce to: boolean-mask
    selection (Filter), column mapping (MapSeq), sort_values / sort_index (SortBy,
    an insertion sort by a total preorder) and head(k) after a sort (TopK). */
module Seqs {

  function Min(a: nat, b: nat): nat
  {
    if a <= b then a else b
  }

  /** The elements of s that satisfy p, in their order in s. */
  function Filter<T>(s: seq<T>, p: T -> bool): (r: seq<T>)
    ensures |r| <= |s|
    ensures forall i :: 0 <= i < |r| ==> r[i] in s && p(r[i])
    ensures forall i :: 0 <= i < |s| && p(s[i]) ==> s[i] in r
  {
    if s == [] then [] else (if p(s[0]) then [s[0]] else []) + Filter(s[1..], p)
  }

  /** Selection keeps relative order: what it keeps from a comes before what it
      keeps from b. */
  lemma {:induction false} FilterConcat<T>(a: seq<T>, b: seq<T>, p: T -> bool)
    ensures Filter(a + b, p) == Filter(a, p) + Filter(b, p)
  {
    if a == [] {
      assert a + b == b;
    } else {
      assert (a + b)[0] == a[0];
      assert (a + b)[1..] == a[1..] + b;
      FilterConcat(a[1..], b, p);
    }
  }

  /** Selection by a condition every element meets keeps everything. */
  lemma {:induction false} FilterAll<T>(s: seq<T>, p: T -> bool)
    requires forall i :: 0 <= i < |s| ==> p(s[i])
    ensures Filter(s, p) == s
  {
    if s != [] {
      FilterAll(s[1..], p);
      assert [s[0]] + s[1..] == s;
    }
  }

  /** Selection keeps a prefix the condition holds on and drops a last element it
      fails on. */
  lemma FilterDropLast<T>(s: seq<T>, x: T, p: T -> bool)
    requires forall i :: 0 <= i < |s| ==> p(s[i])
    requires !p(x)
    ensures Filter(s + [x], p) == s
  {
    FilterConcat(s, [x], p);
    FilterAll(s, p);
    assert [x][1..] == [];
  }

  /** Two selections in a row are one selection by both conditions. */
  lemma {:induction false} FilterFilter<T>(s: seq<T>, p: T -> bool, q: T -> bool)
    ensures Filter(Filter(s, p), q) == Filter(s, x => p(x) && q(x))
  {
    if s != [] {
      FilterFilter(s[1..], p, q);
      var head := if p(s[0]) then [s[0]] else [];
      FilterConcat(head, Filter(s[1..], p), q);
    }
  }

  /** f applied to every element, in order. */
  function MapSeq<A, B>(s: seq<A>, f: A -> B): (r: seq<B>)
    ensures |r| == |s|
    ensures forall i :: 0 <= i < |s| ==> r[i] == f(s[i])
  {
    if s == [] then [] else [f(s[0])] + MapSeq(s[1..], f)
  }

  /** y is an image of a selected element exactly when some element of s passes
      p and maps to y. */
  lemma MapFilterMembers<A, B>(s: seq<A>, p: A -> bool, f: A -> B, y: B)
    ensures y in MapSeq(Filter(s, p), f) <==> exists i :: 0 <= i < |s| && p(s[i]) && f(s[i]) == y
  {
    var kept := Filter(s, p);
    var image := MapSeq(kept, f);
    if y in image {
      var j :| 0 <= j < |kept| && image[j] == y;
      assert kept[j] in s;
      var i :| 0 <= i < |s| && s[i] == kept[j];
      assert p(s[i]) && f(s[i]) == y;
    }
    if exists i :: 0 <= i < |s| && p(s[i]) && f(s[i]) == y {
      var i :| 0 <= i < |s| && p(s[i]) && f(s[i]) == y;
      assert s[i] in kept;
      var j :| 0 <= j < |kept| && kept[j] == s[i];
      assert image[j] == y;
    }
  }

  /** A slice grows by one element at its end. */
  lemma SliceSnoc<T>(s: seq<T>, i: nat, j: nat)
    requires i <= j < |s|
    ensures s[i..j + 1] == s[i..j] + [s[j]]
  {
  }

  /** A prefix of a + b that reaches into b. */
  lemma ConcatPrefix<T>(a: seq<T>, b: seq<T>, j: nat)
    requires j <= |b|
    ensures (a + b)[..|a| + j] == a + b[..j]
  {
  }

  /** A loop over xs that computes f of each element in turn and collects the
      values in order. */
  method Each<A, B>(xs: seq<A>, f: A -> B) returns (ys: seq<B>)
    ensures |ys| == |xs|
    ensures forall k :: 0 <= k < |xs| ==> ys[k] == f(xs[k])
  {
    ys := [];
    for k := 0 to |xs|
      invariant |ys| == k
      invariant forall m :: 0 <= m < k ==> ys[m] == f(xs[m])
    {
      ys := ys + [f(xs[k])];
    }
  }

  /** Mapping distributes over concatenation. */
  lemma MapConcat<A, B>(a: seq<A>, b: seq<A>, f: A -> B)
    ensures MapSeq(a + b, f) == MapSeq(a, f) + MapSeq(b, f)
  {
    assert forall i :: 0 <= i < |a + b| ==> (a + b)[i] == if i < |a| then a[i] else b[i - |a|];
  }

  /** Mapping a sequence that starts with x. */
  lemma MapCons<A, B>(x: A, s: seq<A>, f: A -> B)
    ensures MapSeq([x] + s, f) == [f(x)] + MapSeq(s, f)
  {
    assert ([x] + s)[0] == x && ([x] + s)[1..] == s;
  }

  /** Any two elements are comparable. */
  ghost predicate Total<T(!new)>(le: (T, T) -> bool)
  {
    forall x, y :: le(x, y) || le(y, x)
  }

  ghost predicate Transitive<T(!new)>(le: (T, T) -> bool)
  {
    forall x, y, z :: le(x, y) && le(y, z) ==> le(x, z)
  }

  /** Elements that are le each other are equal: le admits no ties. */
  ghost predicate Antisymmetric<T(!new)>(le: (T, T) -> bool)
  {
    forall x, y :: le(x, y) && le(y, x) ==> x == y
  }

  /** le is total and transitive, so sorting by it is meaningful; ties are allowed. */
  ghost predicate TotalPreorder<T(!new)>(le: (T, T) -> bool)
  {
    Total(le) && Transitive(le)
  }

  ghost predicate SortedBy<T>(s: seq<T>, le: (T, T) -> bool)
  {
    forall i, j :: 0 <= i < j < |s| ==> le(s[i], s[j])
  }

  /** x placed before the first element it is le to. */
  function Insert<T>(x: T, s: seq<T>, le: (T, T) -> bool): (r: seq<T>)
    ensures multiset(r) == multiset(s) + multiset{x}
    ensures |r| == |s| + 1
  {
    if s == [] then [x]
    else if le(x, s[0]) then [x] + s
    else
      assert s == [s[0]] + s[1..];
      [s[0]] + Insert(x, s[1..], le)
  }

  lemma {:induction false} InsertSorted<T(!new)>(x: T, s: seq<T>, le: (T, T) -> bool)
    requires TotalPreorder(le) && SortedBy(s, le)
    ensures SortedBy(Insert(x, s, le), le)
  {
    if s != [] && !le(x, s[0]) {
      assert le(s[0], x);
      var tail := s[1..];
      assert SortedBy(tail, le) by {
        forall i, j | 0 <= i < j < |tail| ensures le(tail[i], tail[j]) { assert tail[i] == s[i + 1] && tail[j] == s[j + 1]; }
      }
      InsertSorted(x, tail, le);
      var r := Insert(x, s, le);
      var t := Insert(x, tail, le);
      assert r == [s[0]] + t;
      forall j | 0 < j < |r| ensures le(s[0], r[j]) {
        assert r[j] == t[j - 1];
        assert t[j - 1] in multiset(tail) + multiset{x};
        if t[j - 1] != x {
          assert t[j - 1] in multiset(tail);
          var m :| 0 <= m < |tail| && tail[m] == t[j - 1];
          assert s[m + 1] == tail[m];
        }
      }
    }
  }

  /** s sorted by le (insertion sort; pandas' tie-breaking is not modelled). */
  function SortBy<T>(s: seq<T>, le: (T, T) -> bool): (r: seq<T>)
    ensures multiset(r) == multiset(s)
    ensures |r| == |s|
  {
    if s == [] then []
    else
      assert s == [s[0]] + s[1..];
      Insert(s[0], SortBy(s[1..], le), le)
  }

  lemma {:induction false} SortBySorted<T(!new)>(s: seq<T>, le: (T, T) -> bool)
    requires TotalPreorder(le)
    ensures SortedBy(SortBy(s, le), le)
  {
    if s != [] {
      SortBySorted(s[1..], le);
      InsertSorted(s[0], SortBy(s[1..], le), le);
    }
  }

  /** le orders elements as kle orders their keys f. */
  ghost predicate OrdersByKey<T(!new), K>(le: (T, T) -> bool, kle: (K, K) -> bool, f: T -> K)
  {
    forall a, b :: le(a, b) == kle(f(a), f(b))
  }

  /** When le compares keys, inserting an element inserts its key. */
  lemma {:induction false} InsertKeys<T(!new), K>(x: T, s: seq<T>, le: (T, T) -> bool, kle: (K, K) -> bool, f: T -> K)
    requires OrdersByKey(le, kle, f)
    ensures MapSeq(Insert(x, s, le), f) == Insert(f(x), MapSeq(s, f), kle)
  {
    if s == [] {
      assert MapSeq([x], f) == [f(x)];
    } else {
      var keys := MapSeq(s, f);
      assert keys[0] == f(s[0]) && keys[1..] == MapSeq(s[1..], f);
      if le(x, s[0]) {
        MapCons(x, s, f);
      } else {
        InsertKeys(x, s[1..], le, kle, f);
        MapCons(s[0], Insert(x, s[1..], le), f);
      }
    }
  }

  /** When le compares keys, the keys of the sorted elements are the sorted
      keys. */
  lemma {:induction false} SortByKeys<T(!new), K>(s: seq<T>, le: (T, T) -> bool, kle: (K, K) -> bool, f: T -> K)
    requires OrdersByKey(le, kle, f)
    ensures MapSeq(SortBy(s, le), f) == SortBy(MapSeq(s, f), kle)
  {
    if s != [] {
      var keys := MapSeq(s, f);
      assert keys[0] == f(s[0]) && keys[1..] == MapSeq(s[1..], f);
      SortByKeys(s[1..], le, kle, f);
      InsertKeys(s[0], SortBy(s[1..], le), le, kle, f);
    }
  }

  /** sort_values(...).head(k): the first k elements in le order. */
  function TopK<T>(s: seq<T>, k: nat, le: (T, T) -> bool): (r: seq<T>)
  {
    SortBy(s, le)[..Min(k, |s|)]
  }

  /** What head(k) leaves out. */
  function BeyondK<T>(s: seq<T>, k: nat, le: (T, T) -> bool): (r: seq<T>)
  {
    SortBy(s, le)[Min(k, |s|)..]
  }

  /** The first k in le order: k of them (or all), and together with what is
      left out exactly s; each kept element is le to each left-out one. */
  lemma TopKRanking<T(!new)>(s: seq<T>, k: nat, le: (T, T) -> bool)
    requires TotalPreorder(le)
    ensures |TopK(s, k, le)| == Min(k, |s|)
    ensures multiset(TopK(s, k, le)) + multiset(BeyondK(s, k, le)) == multiset(s)
    ensures forall i, j :: 0 <= i < |TopK(s, k, le)| && 0 <= j < |BeyondK(s, k, le)| ==>
      le(TopK(s, k, le)[i], BeyondK(s, k, le)[j])
  {
    var sorted := SortBy(s, le);
    var n := Min(k, |s|);
    SortBySorted(s, le);
    assert sorted == sorted[..n] + sorted[n..];
    forall i, j | 0 <= i < n && 0 <= j < |sorted| - n ensures le(sorted[..n][i], sorted[n..][j]) {
      assert sorted[..n][i] == sorted[i] && sorted[n..][j] == sorted[n + j];
    }
  }

  /** head(k) and what it leaves out hold only elements of s. */
  lemma TopKMembers<T>(s: seq<T>, k: nat, le: (T, T) -> bool)
    ensures forall x :: x in TopK(s, k, le) ==> x in s
    ensures forall x :: x in BeyondK(s, k, le) ==> x in s
  {
    var sorted := SortBy(s, le);
    forall x | x in TopK(s, k, le) ensures x in s {
      assert x in multiset(sorted);
    }
    forall x | x in BeyondK(s, k, le) ensures x in s {
      assert x in multiset(sorted);
    }
  }

  /** When there are no more than k elements, head(k) keeps all of them. */
  lemma TopKAll<T>(s: seq<T>, k: nat, le: (T, T) -> bool)
    requires |s| <= k
    ensures multiset(TopK(s, k, le)) == multiset(s)
  {
    assert SortBy(s, le)[..|s|] == SortBy(s, le);
  }

  /** Python's comparison of two str values: lexicographic by code point, a proper
      prefix coming first. */
  predicate StrLe(a: string, b: string)
  {
    a == [] || (b != [] && (a[0] < b[0] || (a[0] == b[0] && StrLe(a[1..], b[1..]))))
  }

  lemma {:induction false} StrLeTotal(a: string, b: string)
    ensures StrLe(a, b) || StrLe(b, a)
  {
    if a != [] && b != [] && a[0] == b[0] {
      StrLeTotal(a[1..], b[1..]);
    }
  }

  lemma {:induction false} StrLeTransitive(a: string, b: string, c: string)
    requires StrLe(a, b) && StrLe(b, c)
    ensures StrLe(a, c)
  {
    if a != [] && a[0] == b[0] && b[0] == c[0] {
      StrLeTransitive(a[1..], b[1..], c[1..]);
    }
  }

  lemma {:induction false} StrLeAntisymmetric(a: string, b: string)
    requires StrLe(a, b) && StrLe(b, a)
    ensures a == b
  {
    if a != [] {
      StrLeAntisymmetric(a[1..], b[1..]);
      assert a == [a[0]] + a[1..] && b == [b[0]] + b[1..];
    }
  }

  lemma StrLeTotalOrder()
    ensures TotalPreorder(StrLe) && Antisymmetric(StrLe)
  {
    forall x, y | StrLe(x, y) && StrLe(y, x) ensures x == y { StrLeAntisymmetric(x, y); }
    forall x, y ensures StrLe(x, y) || StrLe(y, x) { StrLeTotal(x, y); }
    forall x, y, z | StrLe(x, y) && StrLe(y, z) ensures StrLe(x, z) { StrLeTransitive(x, y, z); }
  }

  lemma SortedTail<T>(s: seq<T>, le: (T, T) -> bool)
    requires s != [] && SortedBy(s, le)
    ensures SortedBy(s[1..], le)
  {
    var t := s[1..];
    forall x, y | 0 <= x < y < |t| ensures le(t[x], t[y]) { assert t[x] == s[x + 1] && t[y] == s[y + 1]; }
  }

  /** Two sequences sorted by the same order without ties that hold the same
      elements are equal: after sorting, the order is determined by the contents
      alone. */
  lemma {:induction false} SortedUnique<T(!new)>(a: seq<T>, b: seq<T>, le: (T, T) -> bool)
    requires Antisymmetric(le)
    requires SortedBy(a, le) && SortedBy(b, le)
    requires multiset(a) == multiset(b)
    ensures a == b
    decreases |a|
  {
    if a == [] {
      assert |b| == |multiset(b)| == 0;
    } else {
      assert |b| == |multiset(b)| == |multiset(a)| == |a|;
      assert a[0] in multiset(b) && b[0] in multiset(a);
      SortedFirst(a, b[0], le);
      SortedFirst(b, a[0], le);
      assert a[0] == b[0];
      MultisetTail(a, b);
      SortedTail(a, le);
      SortedTail(b, le);
      SortedUnique(a[1..], b[1..], le);
      assert a == [a[0]] + a[1..] && b == [b[0]] + b[1..];
    }
  }

  /** The first element of a sorted sequence is le to every element. */
  lemma SortedFirst<T>(s: seq<T>, x: T, le: (T, T) -> bool)
    requires SortedBy(s, le) && x in multiset(s)
    ensures x == s[0] || le(s[0], x)
  {
    var k :| 0 <= k < |s| && s[k] == x;
    if k > 0 { assert le(s[0], s[k]); }
  }

  /** Equal multisets with equal first elements have equal tails. */
  lemma MultisetTail<T>(a: seq<T>, b: seq<T>)
    requires a != [] && b != [] && a[0] == b[0] && multiset(a) == multiset(b)
    ensures multiset(a[1..]) == multiset(b[1..])
  {
    assert a == [a[0]] + a[1..] && b == [b[0]] + b[1..];
    assert multiset(a[1..]) == multiset(a) - multiset{a[0]};
    assert multiset(b[1..]) == multiset(b) - multiset{b[0]};
  }
}
