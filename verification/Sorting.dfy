/** Sorting by a total order, for the source's calls of sort.Slice and sort.SliceStable. */
module Sorting {

  ghost predicate TotalOrder<T(!new)>(le: (T, T) -> bool) {
    && (forall x, y :: le(x, y) || le(y, x))
    && (forall x, y :: le(x, y) && le(y, x) ==> x == y)
    && (forall x, y, z :: le(x, y) && le(y, z) ==> le(x, z))
  }

  ghost predicate SortedBy<T>(s: seq<T>, le: (T, T) -> bool) {
    forall i, j :: 0 <= i < j < |s| ==> le(s[i], s[j])
  }

  function Insert<T>(x: T, s: seq<T>, le: (T, T) -> bool): seq<T> {
    if s == [] || le(x, s[0]) then [x] + s else [s[0]] + Insert(x, s[1..], le)
  }

  function Sort<T>(s: seq<T>, le: (T, T) -> bool): seq<T> {
    if s == [] then [] else Insert(s[0], Sort(s[1..], le), le)
  }

  lemma {:induction false} InsertElements<T>(x: T, s: seq<T>, le: (T, T) -> bool)
    ensures multiset(Insert(x, s, le)) == multiset(s) + multiset{x}
  {
    if s != [] && !le(x, s[0]) {
      InsertElements(x, s[1..], le);
      assert s == [s[0]] + s[1..];
    }
  }

  lemma {:induction false} InsertSorted<T(!new)>(x: T, s: seq<T>, le: (T, T) -> bool)
    requires TotalOrder(le) && SortedBy(s, le)
    ensures SortedBy(Insert(x, s, le), le)
  {
    if s != [] && !le(x, s[0]) {
      var r := Insert(x, s[1..], le);
      InsertSorted(x, s[1..], le);
      InsertElements(x, s[1..], le);
      forall j | 0 <= j < |r| ensures le(s[0], r[j]) {
        assert r[j] in multiset(r);
        assert r[j] == x || r[j] in s[1..];
      }
    }
  }

  /** Sort returns a sorted permutation. */
  lemma {:induction false} SortSorts<T(!new)>(s: seq<T>, le: (T, T) -> bool)
    requires TotalOrder(le)
    ensures SortedBy(Sort(s, le), le)
    ensures multiset(Sort(s, le)) == multiset(s)
    ensures |Sort(s, le)| == |s|
  {
    if s != [] {
      SortSorts(s[1..], le);
      InsertSorted(s[0], Sort(s[1..], le), le);
      InsertElements(s[0], Sort(s[1..], le), le);
      assert s == [s[0]] + s[1..];
      assert |multiset(Sort(s, le))| == |Sort(s, le)|;
    }
  }

  /** A sorted sequence is determined by its elements. */
  lemma {:induction false} SortedUnique<T(!new)>(s: seq<T>, t: seq<T>, le: (T, T) -> bool)
    requires TotalOrder(le) && SortedBy(s, le) && SortedBy(t, le)
    requires multiset(s) == multiset(t)
    ensures s == t
  {
    assert |multiset(s)| == |s| && |multiset(t)| == |t|;
    if s != [] {
      SameLeast(s, t, le);
      SortedUnique(s[1..], t[1..], le);
      assert s == [s[0]] + s[1..] && t == [t[0]] + t[1..];
    }
  }

  lemma HeadApart<T>(s: seq<T>)
    requires s != []
    ensures multiset(s) == multiset(s[1..]) + multiset{s[0]}
  {
    assert s == [s[0]] + s[1..];
  }

  /** Both begin with the least element, and the rests have the same elements too. */
  lemma SameLeast<T(!new)>(s: seq<T>, t: seq<T>, le: (T, T) -> bool)
    requires TotalOrder(le) && SortedBy(s, le) && SortedBy(t, le)
    requires s != [] && t != [] && multiset(s) == multiset(t)
    ensures s[0] == t[0] && multiset(s[1..]) == multiset(t[1..])
  {
    assert s[0] in multiset(t) && t[0] in multiset(s);
    assert s[0] in t && t[0] in s;
    HeadApart(s);
    HeadApart(t);
    CancelOne(multiset(s[1..]), multiset(t[1..]), s[0]);
  }

  /** The sort depends only on the multiset of its input, and forgets nothing else: two inputs
      sort alike exactly when they hold the same elements. Any other sorting algorithm, stable or
      not, returns the same sequence. */
  lemma SortByElements<T(!new)>(s: seq<T>, t: seq<T>, le: (T, T) -> bool)
    requires TotalOrder(le)
    ensures Sort(s, le) == Sort(t, le) <==> multiset(s) == multiset(t)
  {
    SortSorts(s, le);
    SortSorts(t, le);
    if multiset(s) == multiset(t) {
      SortedUnique(Sort(s, le), Sort(t, le), le);
    }
  }

  // ----------------------------------------------------- elementwise images

  function Map<A, B>(s: seq<A>, f: A -> B): (r: seq<B>)
    ensures |r| == |s|
    ensures forall i :: 0 <= i < |s| ==> r[i] == f(s[i])
  {
    seq(|s|, i requires 0 <= i < |s| => f(s[i]))
  }

  lemma PositionIn<A>(s: seq<A>, x: A) returns (i: nat)
    requires x in s
    ensures i < |s| && s[i] == x
  {
    var j: int :| 0 <= j < |s| && s[j] == x;
    i := j;
  }

  lemma MapAt<A, B>(s: seq<A>, i: nat, f: A -> B)
    requires i < |s|
    ensures multiset(s) == multiset(s[..i] + s[i + 1..]) + multiset{s[i]}
    ensures multiset(Map(s, f)) == multiset(Map(s[..i] + s[i + 1..], f)) + multiset{f(s[i])}
  {
    assert s == s[..i] + [s[i]] + s[i + 1..];
    var m := Map(s, f);
    assert m == m[..i] + [m[i]] + m[i + 1..];
    assert Map(s[..i] + s[i + 1..], f) == m[..i] + m[i + 1..];
  }

  /** The image of a permutation is a permutation of the image. */
  lemma {:induction false} MapOfPermutation<A, B>(a: seq<A>, b: seq<A>, f: A -> B)
    requires multiset(a) == multiset(b)
    ensures multiset(Map(a, f)) == multiset(Map(b, f))
    decreases |a|
  {
    if a == [] {
      assert |multiset(b)| == |b|;
    } else {
      var i := FirstIn(a, b);
      MapAt(a, 0, f);
      MapAt(b, i, f);
      MapOfPermutation(a[..0] + a[1..], b[..i] + b[i + 1..], f);
    }
  }

  /** Two lists with one multiset of images can be matched up: some order of b has, place by place, the
      images of a. */
  lemma {:induction false} MatchUp<A, B>(a: seq<A>, b: seq<A>, f: A -> B) returns (c: seq<A>)
    requires multiset(Map(a, f)) == multiset(Map(b, f))
    ensures |c| == |a| && multiset(c) == multiset(b) && forall i :: 0 <= i < |a| ==> f(c[i]) == f(a[i])
    decreases |a|
  {
    if a == [] {
      assert |multiset(Map(a, f))| == 0;
      assert |multiset(Map(b, f))| == |b|;
      c := [];
    } else {
      var i := ImageIn(a, b, f);
      RestImages(a, b, f, i);
      var rest := MatchUp(a[1..], b[..i] + b[i + 1..], f);
      c := [b[i]] + rest;
      MapAt(b, i, f);
    }
  }

  lemma ImageIn<A, B>(a: seq<A>, b: seq<A>, f: A -> B) returns (i: nat)
    requires a != [] && multiset(Map(a, f)) == multiset(Map(b, f))
    ensures i < |b| && f(b[i]) == f(a[0])
  {
    assert Map(a, f)[0] in multiset(Map(a, f));
    i := PositionIn(Map(b, f), f(a[0]));
  }

  lemma MapHead<A, B>(a: seq<A>, f: A -> B)
    requires a != []
    ensures multiset(Map(a, f)) == multiset(Map(a[1..], f)) + multiset{f(a[0])}
  {
    assert Map(a, f) == [f(a[0])] + Map(a[1..], f);
  }

  /** Without one element of each that have one image, the rests have the same images too. */
  lemma RestImages<A, B>(a: seq<A>, b: seq<A>, f: A -> B, i: nat)
    requires a != [] && multiset(Map(a, f)) == multiset(Map(b, f)) && i < |b| && f(b[i]) == f(a[0])
    ensures multiset(Map(a[1..], f)) == multiset(Map(b[..i] + b[i + 1..], f))
  {
    MapHead(a, f);
    MapAt(b, i, f);
    CancelOne(multiset(Map(a[1..], f)), multiset(Map(b[..i] + b[i + 1..], f)), f(a[0]));
  }

  lemma CancelOne<B>(p: multiset<B>, q: multiset<B>, v: B)
    requires p + multiset{v} == q + multiset{v}
    ensures p == q
  {
    assert p == (p + multiset{v}) - multiset{v};
    assert q == (q + multiset{v}) - multiset{v};
  }

  /** Where the first element of a stands in a permutation of a, and that the rest are permutations too. */
  lemma FirstIn<A>(a: seq<A>, b: seq<A>) returns (i: nat)
    requires a != [] && multiset(a) == multiset(b)
    ensures i < |b| && b[i] == a[0] && multiset(a[..0] + a[1..]) == multiset(b[..i] + b[i + 1..])
  {
    assert a[0] in multiset(b);
    i := PositionIn(b, a[0]);
    assert a == [a[0]] + a[1..] && a[..0] + a[1..] == a[1..];
    assert b == b[..i] + [b[i]] + b[i + 1..];
    assert multiset(a[1..]) == multiset(a) - multiset{a[0]};
  }

  // ------------------------------------------------------------- subsequences

  predicate Increasing(ps: seq<nat>) {
    forall k, l :: 0 <= k < l < |ps| ==> ps[k] < ps[l]
  }
}
