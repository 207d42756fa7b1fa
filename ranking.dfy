/** Dicts of counts, `collections.Counter`, and the stable descending sort by
    count that the scripts use to rank their results. */
module Ranking {
  import opened Seqs

  datatype Option<T> = None | Some(value: T)

  /** One `(key, count)` item of a dict, or one tuple of a ranked list. */
  datatype Entry = Entry(key: string, count: int)

  /** A dict, as the list of its items in insertion order. */
  type Dict = seq<Entry>

  function Keys(d: seq<Entry>): (r: seq<string>)
  {
    seq(|d|, i requires 0 <= i < |d| => d[i].key)
  }

  predicate Distinct<T(==)>(s: seq<T>)
  {
    forall i, j :: 0 <= i < j < |s| ==> s[i] != s[j]
  }

  /** Python dicts never hold a key twice. */
  predicate DistinctKeys(d: seq<Entry>)
  {
    Distinct(Keys(d))
  }

  lemma DistinctCons<T>(x: T, s: seq<T>)
    ensures Distinct([x] + s) <==> x !in s && Distinct(s)
  {
    var t := [x] + s;
    if x in s {
      var j :| 0 <= j < |s| && s[j] == x;
      assert t[0] == t[j + 1];
    }
    if Distinct(t) {
      forall i, j | 0 <= i < j < |s| ensures s[i] != s[j] {
        assert s[i] == t[i + 1] && s[j] == t[j + 1];
      }
    }
  }

  /** A list without repeats has as many elements as its set. */
  lemma {:induction false} DistinctCard<T>(s: seq<T>)
    requires Distinct(s)
    ensures |Elems(s)| == |s|
    decreases |s|
  {
    if s != [] {
      var n := |s| - 1;
      var init := s[..n];
      assert s == init + [s[n]];
      ElemsSnoc(init, s[n]);
      forall i | 0 <= i < n ensures init[i] != s[n] {
        assert init[i] == s[i];
      }
      assert s[n] !in Elems(init);
      DistinctCard(init);
    }
  }

  /** Deleting items from a dict never repeats a key. */
  lemma {:induction false} FilterDistinctKeys(d: Dict, p: Entry -> bool)
    requires DistinctKeys(d)
    ensures DistinctKeys(Filter(d, p))
    decreases |d|
  {
    if d != [] {
      var rest := d[1..];
      assert d == [d[0]] + rest;
      KeysCons(d[0], rest);
      DistinctCons(d[0].key, Keys(rest));
      FilterDistinctKeys(rest, p);
      var f := Filter(rest, p);
      if p(d[0]) {
        assert Filter(d, p) == [d[0]] + f;
        KeysCons(d[0], f);
        FilterMembers(rest, p);
        forall j | 0 <= j < |f| ensures Keys(f)[j] != d[0].key {
          assert f[j] in rest;
          var k :| 0 <= k < |rest| && rest[k] == f[j];
          assert Keys(rest)[k] == f[j].key;
        }
        DistinctCons(d[0].key, Keys(f));
      } else {
        assert Filter(d, p) == f;
      }
    }
  }

  lemma KeysCons(e: Entry, d: seq<Entry>)
    ensures Keys([e] + d) == [e.key] + Keys(d)
  {
  }

  /** `d.get(k)`: the count stored under `k`, if any. */
  function Get(d: Dict, k: string): (r: Option<int>)
  {
    if d == [] then None
    else if d[0].key == k then Some(d[0].count)
    else Get(d[1..], k)
  }

  /** `d.get(k, dflt)`. */
  function GetOr(d: Dict, k: string, dflt: int): (r: int)
  {
    match Get(d, k)
    case Some(v) => v
    case None => dflt
  }

  /** In a dict, the item at position `i` is what a lookup of its key finds. */
  lemma {:induction false} GetAt(d: Dict, i: nat)
    requires DistinctKeys(d) && i < |d|
    ensures Get(d, d[i].key) == Some(d[i].count)
    decreases i
  {
    if i > 0 {
      assert Keys(d)[0] != Keys(d)[i];
      assert Keys(d[1..]) == Keys(d)[1..];
      GetAt(d[1..], i - 1);
    }
  }

  /** `d[k] = v`: afterwards `k` maps to `v` and every other key keeps its value. */
  function Put(d: Dict, k: string, v: int): (r: Dict)
    ensures Get(r, k) == Some(v)
    ensures forall k' :: k' != k ==> Get(r, k') == Get(d, k')
  {
    if d == [] then [Entry(k, v)]
    else if d[0].key == k then [Entry(k, v)] + d[1..]
    else
      var t := Put(d[1..], k, v);
      assert ([d[0]] + t)[1..] == t;
      [d[0]] + t
  }

  /** The item for an existing key is overwritten where it stands; a new key is
      appended at the end. */
  lemma {:induction false} PutKeys(d: Dict, k: string, v: int)
    ensures Keys(Put(d, k, v)) == if k in Keys(d) then Keys(d) else Keys(d) + [k]
    decreases |d|
  {
    KeysCons(Entry(k, v), []);
    if d != [] {
      KeysCons(d[0], d[1..]);
      assert d == [d[0]] + d[1..];
      if d[0].key == k {
        KeysCons(Entry(k, v), d[1..]);
      } else {
        PutKeys(d[1..], k, v);
        KeysCons(d[0], Put(d[1..], k, v));
      }
    }
  }

  /** A new key keeps the keys distinct. */
  lemma PutDistinct(d: Dict, k: string, v: int)
    requires DistinctKeys(d)
    ensures DistinctKeys(Put(d, k, v))
  {
    PutKeys(d, k, v);
  }

  /** `acc` followed by the elements of `s` not seen before, in the order of
      their first occurrence. */
  function DedupInto<T(==)>(acc: seq<T>, s: seq<T>): (r: seq<T>)
    decreases |s|
  {
    if s == [] then acc
    else DedupInto(if s[0] in acc then acc else acc + [s[0]], s[1..])
  }

  /** The distinct elements of `s` in the order of their first occurrence. */
  function Dedup<T(==)>(s: seq<T>): (r: seq<T>)
  {
    DedupInto([], s)
  }

  lemma {:induction false} DedupIntoSpec<T>(acc: seq<T>, s: seq<T>)
    ensures forall x :: x in DedupInto(acc, s) <==> x in acc || x in s
    ensures Distinct(acc) ==> Distinct(DedupInto(acc, s))
    decreases |s|
  {
    if s != [] {
      var acc' := if s[0] in acc then acc else acc + [s[0]];
      DedupIntoSpec(acc', s[1..]);
      assert s == [s[0]] + s[1..];
    }
  }

  /** Every element of `s` occurs once in `Dedup(s)`, and nothing else does. */
  lemma DedupSpec<T>(s: seq<T>)
    ensures forall x :: x in Dedup(s) <==> x in s
    ensures Distinct(Dedup(s))
  {
    DedupIntoSpec([], s);
  }

  /** The loop inside `Counter.update`: each word in turn adds one to
      `self.get(word, 0)`. */
  function CountInto(d: Dict, ws: seq<string>): (r: Dict)
    decreases |ws|
  {
    if ws == [] then d
    else CountInto(Put(d, ws[0], GetOr(d, ws[0], 0) + 1), ws[1..])
  }

  /** `Counter(words)`. */
  function Tally(ws: seq<string>): (r: Dict)
  {
    CountInto([], ws)
  }

  lemma {:induction false} CountIntoKeys(d: Dict, ws: seq<string>)
    ensures Keys(CountInto(d, ws)) == DedupInto(Keys(d), ws)
    decreases |ws|
  {
    if ws != [] {
      PutKeys(d, ws[0], GetOr(d, ws[0], 0) + 1);
      CountIntoKeys(Put(d, ws[0], GetOr(d, ws[0], 0) + 1), ws[1..]);
    }
  }

  /** The Counter has one item per distinct word, in order of first occurrence. */
  lemma TallyKeys(ws: seq<string>)
    ensures Keys(Tally(ws)) == Dedup(ws)
    ensures DistinctKeys(Tally(ws))
  {
    CountIntoKeys([], ws);
    assert Keys([]) == [];
    DedupSpec(ws);
  }

  lemma MultisetCons<T>(s: seq<T>, x: T)
    requires s != []
    ensures multiset(s)[x] == multiset(s[1..])[x] + if x == s[0] then 1 else 0
    ensures x in s <==> x == s[0] || x in s[1..]
  {
    assert s == [s[0]] + s[1..];
  }

  lemma {:induction false} CountIntoGet(d: Dict, ws: seq<string>, k: string)
    ensures Get(CountInto(d, ws), k) ==
      if k in ws then Some(GetOr(d, k, 0) + multiset(ws)[k]) else Get(d, k)
    decreases |ws|
  {
    if ws != [] {
      var d' := Put(d, ws[0], GetOr(d, ws[0], 0) + 1);
      CountIntoGet(d', ws[1..], k);
      assert CountInto(d, ws) == CountInto(d', ws[1..]);
      MultisetCons(ws, k);
      if k == ws[0] {
        assert GetOr(d', k, 0) == GetOr(d, k, 0) + 1;
      } else {
        assert Get(d', k) == Get(d, k);
      }
    }
  }

  /** The Counter maps each word to its number of occurrences. */
  lemma TallyGet(ws: seq<string>, k: string)
    ensures Get(Tally(ws), k) == if k in ws then Some(multiset(ws)[k]) else None
  {
    CountIntoGet([], ws, k);
  }

  /** The sum of the counts of a dict. */
  function Total(d: seq<Entry>): (r: int)
  {
    if d == [] then 0 else d[0].count + Total(d[1..])
  }

  lemma {:induction false} TotalPut(d: Dict, k: string, v: int)
    requires DistinctKeys(d)
    ensures Total(Put(d, k, v)) == Total(d) - GetOr(d, k, 0) + v
    decreases |d|
  {
    if d != [] {
      assert Keys(d[1..]) == Keys(d)[1..];
      if d[0].key != k {
        TotalPut(d[1..], k, v);
        assert Put(d, k, v)[1..] == Put(d[1..], k, v);
      } else {
        assert Put(d, k, v)[1..] == d[1..];
      }
    }
  }

  lemma {:induction false} CountIntoTotal(d: Dict, ws: seq<string>)
    requires DistinctKeys(d)
    ensures Total(CountInto(d, ws)) == Total(d) + |ws|
    decreases |ws|
  {
    if ws != [] {
      var d' := Put(d, ws[0], GetOr(d, ws[0], 0) + 1);
      TotalPut(d, ws[0], GetOr(d, ws[0], 0) + 1);
      PutDistinct(d, ws[0], GetOr(d, ws[0], 0) + 1);
      CountIntoTotal(d', ws[1..]);
    }
  }

  /** The counts of a Counter add up to the number of words counted. */
  lemma TallyTotal(ws: seq<string>)
    ensures Total(Tally(ws)) == |ws|
  {
    assert Keys([]) == [];
    CountIntoTotal([], ws);
  }

  /** The predicate "the item has count `c`". */
  function HasCount(c: int): (r: Entry -> bool)
  {
    (e: Entry) => e.count == c
  }

  /** The predicate "the item has a count of at least `n`". */
  function CountAtLeast(n: int): (r: Entry -> bool)
  {
    (e: Entry) => e.count >= n
  }

  /** Counts never increase from one item to the next. */
  predicate NonIncreasing(s: seq<Entry>)
  {
    |s| <= 1 || (s[0].count >= s[1].count && NonIncreasing(s[1..]))
  }

  /** In a non-increasing list every item counts at least as much as any later one. */
  lemma {:induction false} NonIncreasingPairs(s: seq<Entry>, i: nat, j: nat)
    requires NonIncreasing(s) && i <= j < |s|
    ensures s[i].count >= s[j].count
    decreases j
  {
    if i < j {
      if i == 0 {
        NonIncreasingPairs(s[1..], 0, j - 1);
      } else {
        NonIncreasingPairs(s[1..], i - 1, j - 1);
      }
    }
  }

  /** A leading part of a non-increasing list is non-increasing. */
  lemma {:induction false} NonIncreasingPrefix(s: seq<Entry>, m: nat)
    requires NonIncreasing(s) && m <= |s|
    ensures NonIncreasing(s[..m])
    decreases m
  {
    if m > 1 {
      NonIncreasingPrefix(s[1..], m - 1);
      assert s[..m][1..] == s[1..][..m - 1];
    }
  }

  /** Dropping items from a ranked list leaves it ranked. */
  lemma {:induction false} FilterNonIncreasing(s: seq<Entry>, p: Entry -> bool)
    requires NonIncreasing(s)
    ensures NonIncreasing(Filter(s, p))
    decreases |s|
  {
    if s != [] {
      var rest := Filter(s[1..], p);
      FilterNonIncreasing(s[1..], p);
      if p(s[0]) {
        var r := [s[0]] + rest;
        assert Filter(s, p) == r;
        assert r[1..] == rest;
        if rest != [] {
          FilterMembers(s[1..], p);
          assert rest[0] in s[1..];
          var k :| 0 <= k < |s[1..]| && s[1..][k] == rest[0];
          NonIncreasingPairs(s, 0, k + 1);
          assert r[1] == rest[0];
        }
      } else {
        assert Filter(s, p) == rest;
      }
    }
  }

  /** Insert `e` into a list ranked by count, before the first item whose
      count is not larger than that of `e`. */
  function InsertDesc(e: Entry, s: seq<Entry>): (r: seq<Entry>)
    ensures |r| == |s| + 1
    ensures multiset(r) == multiset(s) + multiset{e}
  {
    if s == [] || s[0].count <= e.count then [e] + s
    else
      assert s == [s[0]] + s[1..];
      [s[0]] + InsertDesc(e, s[1..])
  }

  /** Inserting into a ranked list keeps it ranked. */
  lemma {:induction false} InsertDescRanked(e: Entry, s: seq<Entry>)
    requires NonIncreasing(s)
    ensures NonIncreasing(InsertDesc(e, s))
    decreases |s|
  {
    var r := InsertDesc(e, s);
    if s == [] || s[0].count <= e.count {
      assert r[1..] == s;
    } else {
      var t := InsertDesc(e, s[1..]);
      InsertDescRanked(e, s[1..]);
      assert r[1..] == t;
      assert |s| > 1 ==> t[0] == e || t[0] == s[1];
    }
  }

  /** `sorted(items, key=lambda x: x[1], reverse=True)`: a stable sort that puts
      larger counts first. */
  function SortDesc(s: seq<Entry>): (r: seq<Entry>)
    ensures |r| == |s|
    ensures multiset(r) == multiset(s)
    ensures NonIncreasing(r)
  {
    if s == [] then [] else
      assert s == [s[0]] + s[1..];
      InsertDescRanked(s[0], SortDesc(s[1..]));
      InsertDesc(s[0], SortDesc(s[1..]))
  }

  lemma SwapEmpty<T>(a: seq<T>, b: seq<T>, rest: seq<T>)
    requires a == [] || b == []
    ensures a + (b + rest) == b + (a + rest)
  {
  }

  lemma {:induction false} InsertDescStable(e: Entry, s: seq<Entry>, c: int)
    ensures Filter(InsertDesc(e, s), HasCount(c)) == Filter([e] + s, HasCount(c))
    decreases |s|
  {
    if !(s == [] || s[0].count <= e.count) {
      var h := HasCount(c);
      var t := InsertDesc(e, s[1..]);
      var fe := if h(e) then [e] else [];
      var fs := if h(s[0]) then [s[0]] else [];
      var rest := Filter(s[1..], h);
      assert InsertDesc(e, s) == [s[0]] + t;
      assert s == [s[0]] + s[1..];
      InsertDescStable(e, s[1..], c);
      FilterCons(s[0], t, h);
      FilterCons(e, s[1..], h);
      FilterCons(s[0], s[1..], h);
      FilterCons(e, s, h);
      assert fe == [] || fs == [];
      SwapEmpty(fs, fe, rest);
      calc {
        Filter(InsertDesc(e, s), h);
        fs + Filter(t, h);
        fs + (fe + rest);
        fe + (fs + rest);
        fe + Filter(s, h);
        Filter([e] + s, h);
      }
    }
  }

  /** Sorting keeps items of equal count in their original relative order. */
  lemma {:induction false} SortDescStable(s: seq<Entry>, c: int)
    ensures Filter(SortDesc(s), HasCount(c)) == Filter(s, HasCount(c))
    decreases |s|
  {
    if s != [] {
      SortDescStable(s[1..], c);
      InsertDescStable(s[0], SortDesc(s[1..]), c);
      FilterCons(s[0], SortDesc(s[1..]), HasCount(c));
      assert s == [s[0]] + s[1..];
      FilterCons(s[0], s[1..], HasCount(c));
    }
  }

  /** The number of leading items that `[:n]` keeps, with a negative `n`
      keeping none. */
  function Clamp(n: int, len: nat): (m: nat)
    ensures m <= len
    ensures n <= 0 ==> m == 0
    ensures 0 <= n <= len ==> m == n
    ensures n >= len ==> m == len
  {
    if n <= 0 then 0 else if n >= len then len else n
  }

  /** The first `n` items of a list (none when `n <= 0`). */
  function Top(s: seq<Entry>, n: int): (r: seq<Entry>)
    ensures |r| == Clamp(n, |s|)
    ensures IsPrefix(r, s)
  {
    s[..Clamp(n, |s|)]
  }

  /** Keeping the leading items of a ranked list keeps, for every count, the
      leading items of that count. */
  lemma TopTies(s: seq<Entry>, n: int, c: int)
    ensures IsPrefix(Filter(Top(s, n), HasCount(c)), Filter(s, HasCount(c)))
  {
    var m := Clamp(n, |s|);
    assert s == s[..m] + s[m..];
    FilterAppend(s[..m], s[m..], HasCount(c));
  }

  /** `counter.most_common(n)`: the `n` largest items, which `heapq.nlargest`
      returns in the order of a stable descending sort. */
  function MostCommon(d: Dict, n: int): (r: seq<Entry>)
  {
    Top(SortDesc(d), n)
  }

  /** The most common items: as many as asked for (and as there are), ranked,
      and each an item of the dict. */
  lemma MostCommonSpec(d: Dict, n: int)
    ensures |MostCommon(d, n)| == Clamp(n, |d|)
    ensures NonIncreasing(MostCommon(d, n))
    ensures forall e :: e in MostCommon(d, n) ==> e in d
  {
    var s := SortDesc(d);
    NonIncreasingPrefix(s, Clamp(n, |s|));
    forall e | e in MostCommon(d, n) ensures e in d {
      assert e in multiset(s);
    }
  }

  /** No item left out of `most_common(n)` counts more than one kept. */
  lemma MostCommonLargest(d: Dict, n: int, e: Entry, i: nat)
    requires e in d && e !in MostCommon(d, n) && i < |MostCommon(d, n)|
    ensures MostCommon(d, n)[i].count >= e.count
  {
    var s := SortDesc(d);
    var m := Clamp(n, |s|);
    var top := MostCommon(d, n);
    assert top == s[..m];
    assert e in multiset(s);
    var j :| 0 <= j < |s| && s[j] == e;
    forall t | 0 <= t < m ensures s[t] != e {
      assert s[t] == top[t];
    }
    assert top[i] == s[i];
    NonIncreasingPairs(s, i, j);
  }

  /** Among items of equal count, `most_common` keeps insertion order. */
  lemma MostCommonTies(d: Dict, n: int, c: int)
    ensures IsPrefix(Filter(MostCommon(d, n), HasCount(c)), Filter(d, HasCount(c)))
  {
    TopTies(SortDesc(d), n, c);
    SortDescStable(d, c);
  }
}
