/** Order-preserving filters over Python lists, and the `while x in xs:
    xs.remove(x)` idiom the scripts use to drop every occurrence of a value. */
module Seqs {

  /** `[x for x in s if p(x)]`. */
  function Filter<T>(s: seq<T>, p: T -> bool): (r: seq<T>)
  {
    if s == [] then [] else (if p(s[0]) then [s[0]] else []) + Filter(s[1..], p)
  }

  /** The set of elements of a list. */
  function Elems<T>(s: seq<T>): (r: set<T>)
  {
    set x | x in s
  }

  /** Appending an element adds it to the elements. */
  lemma ElemsSnoc<T>(s: seq<T>, x: T)
    ensures Elems(s + [x]) == Elems(s) + {x}
  {
    assert forall y :: y in s + [x] <==> y in s || y == x;
  }

  /** The union of a list of sets, built from the front. */
  function UnionAll<T>(ss: seq<set<T>>): (r: set<T>)
  {
    if ss == [] then {} else UnionAll(ss[..|ss| - 1]) + ss[|ss| - 1]
  }

  /** An element is in the union exactly when one of the sets holds it. */
  lemma {:induction false} UnionAllSpec<T>(ss: seq<set<T>>, y: T)
    ensures y in UnionAll(ss) <==> exists i :: 0 <= i < |ss| && y in ss[i]
    decreases |ss|
  {
    if ss != [] {
      var n := |ss| - 1;
      var init := ss[..n];
      UnionAllSpec(init, y);
      if y in UnionAll(init) {
        var i :| 0 <= i < |init| && y in init[i];
        assert init[i] == ss[i];
      }
      if exists i :: 0 <= i < |ss| && y in ss[i] {
        var i :| 0 <= i < |ss| && y in ss[i];
        if i < n {
          assert init[i] == ss[i];
        }
      }
    }
  }

  /** The predicate "x is not in xs". */
  function NotIn<T(==)>(xs: set<T>): (r: T -> bool)
  {
    x => x !in xs
  }

  /** `r` can be obtained from `s` by deleting elements, keeping the order of the rest. */
  predicate IsSubsequence<T(==)>(r: seq<T>, s: seq<T>)
    decreases |s|
  {
    if s == [] then r == []
    else (r != [] && r[0] == s[0] && IsSubsequence(r[1..], s[1..])) || IsSubsequence(r, s[1..])
  }

  /** `p` is a leading part of `s`. */
  predicate IsPrefix<T(==)>(p: seq<T>, s: seq<T>)
  {
    |p| <= |s| && s[..|p|] == p
  }

  /** One step of the filter. */
  lemma FilterCons<T>(x: T, s: seq<T>, p: T -> bool)
    ensures Filter([x] + s, p) == (if p(x) then [x] else []) + Filter(s, p)
  {
    assert ([x] + s)[1..] == s;
  }

  lemma {:induction false} FilterAppend<T>(s: seq<T>, t: seq<T>, p: T -> bool)
    ensures Filter(s + t, p) == Filter(s, p) + Filter(t, p)
    decreases |s|
  {
    if s == [] {
      assert s + t == t;
    } else {
      var head := if p(s[0]) then [s[0]] else [];
      assert (s + t)[0] == s[0];
      assert (s + t)[1..] == s[1..] + t;
      assert Filter(s + t, p) == head + Filter(s[1..] + t, p);
      FilterAppend(s[1..], t, p);
      assert Filter(s, p) == head + Filter(s[1..], p);
    }
  }

  /** One step of a loop that appends the elements passing `p`. */
  lemma FilterSnoc<T>(s: seq<T>, x: T, p: T -> bool)
    ensures Filter(s + [x], p) == Filter(s, p) + (if p(x) then [x] else [])
  {
    FilterAppend(s, [x], p);
  }

  lemma {:induction false} FilterLength<T>(s: seq<T>, p: T -> bool)
    ensures |Filter(s, p)| <= |s|
    decreases |s|
  {
    if s != [] {
      FilterLength(s[1..], p);
    }
  }

  /** The filter keeps exactly the elements of `s` that satisfy `p`. */
  lemma {:induction false} FilterMembers<T>(s: seq<T>, p: T -> bool)
    ensures forall x :: x in Filter(s, p) <==> x in s && p(x)
    decreases |s|
  {
    if s != [] {
      FilterMembers(s[1..], p);
      assert s == [s[0]] + s[1..];
    }
  }

  /** Each kept element occurs in the filter as many times as in `s`. */
  lemma {:induction false} FilterCounts<T>(s: seq<T>, p: T -> bool)
    ensures forall x :: multiset(Filter(s, p))[x] == if p(x) then multiset(s)[x] else 0
    decreases |s|
  {
    if s != [] {
      FilterCounts(s[1..], p);
      assert s == [s[0]] + s[1..];
    }
  }

  /** The kept elements stay in the order of `s`. */
  lemma {:induction false} FilterOrder<T>(s: seq<T>, p: T -> bool)
    ensures IsSubsequence(Filter(s, p), s)
    decreases |s|
  {
    if s != [] {
      FilterOrder(s[1..], p);
      var f := Filter(s[1..], p);
      if p(s[0]) {
        assert Filter(s, p) == [s[0]] + f;
        assert ([s[0]] + f)[1..] == f;
      } else {
        assert Filter(s, p) == f;
      }
    }
  }

  /** Filtering twice by the same predicate changes nothing the second time. */
  lemma {:induction false} FilterIdempotent<T>(s: seq<T>, p: T -> bool)
    ensures Filter(Filter(s, p), p) == Filter(s, p)
    decreases |s|
  {
    if s != [] {
      FilterIdempotent(s[1..], p);
      var f := Filter(s[1..], p);
      if p(s[0]) {
        assert Filter(s, p) == [s[0]] + f;
        assert ([s[0]] + f)[1..] == f;
      } else {
        assert Filter(s, p) == f;
      }
    }
  }

  /** Filtering by `p` and then by `q` is filtering by their conjunction. */
  lemma {:induction false} FilterCompose<T>(s: seq<T>, p: T -> bool, q: T -> bool, pq: T -> bool)
    requires forall x :: pq(x) == (p(x) && q(x))
    ensures Filter(Filter(s, p), q) == Filter(s, pq)
    decreases |s|
  {
    if s != [] {
      FilterCompose(s[1..], p, q, pq);
      var f := Filter(s[1..], p);
      if p(s[0]) {
        assert Filter(s, p) == [s[0]] + f;
        assert ([s[0]] + f)[1..] == f;
      } else {
        assert Filter(s, p) == f;
      }
    }
  }

  /** A filter that every element passes is the identity. */
  lemma {:induction false} FilterAll<T>(s: seq<T>, p: T -> bool)
    requires forall i :: 0 <= i < |s| ==> p(s[i])
    ensures Filter(s, p) == s
    decreases |s|
  {
    if s != [] {
      FilterAll(s[1..], p);
    }
  }

  /** A filter that no element passes leaves nothing. */
  lemma {:induction false} FilterNone<T>(s: seq<T>, p: T -> bool)
    requires forall i :: 0 <= i < |s| ==> !p(s[i])
    ensures Filter(s, p) == []
    decreases |s|
  {
    if s != [] {
      FilterNone(s[1..], p);
    }
  }

  /** `s.remove(x)`: drop the first occurrence of `x` (the caller ensures `x in s`,
      since `list.remove` raises otherwise). */
  function RemoveFirst<T(==)>(s: seq<T>, x: T): (r: seq<T>)
    requires x in s
    ensures |r| == |s| - 1
    ensures multiset(r) == multiset(s) - multiset{x}
  {
    assert s == [s[0]] + s[1..];
    if s[0] == x then s[1..] else [s[0]] + RemoveFirst(s[1..], x)
  }

  /** Removing an element that a filter drops does not change the filter. */
  lemma {:induction false} FilterRemoveFirst<T>(s: seq<T>, x: T, p: T -> bool)
    requires x in s && !p(x)
    ensures Filter(RemoveFirst(s, x), p) == Filter(s, p)
    decreases |s|
  {
    if s[0] != x {
      FilterRemoveFirst(s[1..], x, p);
      assert RemoveFirst(s, x) == [s[0]] + RemoveFirst(s[1..], x);
      assert ([s[0]] + RemoveFirst(s[1..], x))[1..] == RemoveFirst(s[1..], x);
    }
  }

  /** `while x in words: words.remove(x)`: every occurrence of `x` is dropped. */
  method RemoveAll<T(==)>(words: seq<T>, x: T) returns (r: seq<T>)
    ensures r == Filter(words, NotIn({x}))
  {
    r := words;
    FilterAll(words, NotIn({}));
    while x in r
      invariant Filter(r, NotIn({x})) == Filter(words, NotIn({x}))
      decreases |r|
    {
      FilterRemoveFirst(r, x, NotIn({x}));
      r := RemoveFirst(r, x);
    }
    FilterAll(r, NotIn({x}));
  }

  /** `words` without any element of `ex`: what both word counters keep after
      their exclusion list. */
  function Without<T(==)>(words: seq<T>, ex: seq<T>): (r: seq<T>)
  {
    Filter(words, NotIn(Elems(ex)))
  }

  /** No element of `ex` survives; every other element survives as often as it
      occurred, in its original order. */
  lemma WithoutSpec<T>(words: seq<T>, ex: seq<T>)
    ensures forall w :: w in Without(words, ex) <==> w in words && w !in ex
    ensures forall w :: w !in ex ==> multiset(Without(words, ex))[w] == multiset(words)[w]
    ensures IsSubsequence(Without(words, ex), words)
  {
    var p := NotIn(Elems(ex));
    FilterMembers(words, p);
    FilterCounts(words, p);
    FilterOrder(words, p);
  }

  /** Excluding a second time with the same list changes nothing. */
  lemma WithoutIdempotent<T>(words: seq<T>, ex: seq<T>)
    ensures Without(Without(words, ex), ex) == Without(words, ex)
  {
    FilterIdempotent(words, NotIn(Elems(ex)));
  }

  /** `for x in ex: while x in words: words.remove(x)`: every occurrence of every
      element of `ex` is dropped and the rest keeps its order. */
  method RemoveEvery<T(==)>(words: seq<T>, ex: seq<T>) returns (r: seq<T>)
    ensures r == Without(words, ex)
  {
    r := words;
    FilterAll(words, NotIn(Elems(ex[..0])));
    for i := 0 to |ex|
      invariant r == Filter(words, NotIn(Elems(ex[..i])))
    {
      r := RemoveAll(r, ex[i]);
      assert ex[..i + 1] == ex[..i] + [ex[i]];
      assert Elems(ex[..i + 1]) == Elems(ex[..i]) + {ex[i]};
      FilterCompose(words, NotIn(Elems(ex[..i])), NotIn({ex[i]}), NotIn(Elems(ex[..i + 1])));
    }
    assert ex[..|ex|] == ex;
  }
}
