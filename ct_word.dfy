/** The key-word counter `ct_word.py`: count how often each word of a fixed
    list occurs in a text, then rank the words by count. */
module CtWord {
  import opened Seqs
  import opened Ranking
  import Tokens

  /** The counting loop from dict `d` on: each key in turn is stored with its
      number of occurrences in `words`. */
  function KeyCounts(d: Dict, keys: seq<string>, words: seq<string>): (r: Dict)
    decreases |keys|
  {
    if keys == [] then d
    else KeyCounts(Put(d, keys[0], multiset(words)[keys[0]]), keys[1..], words)
  }

  /** Lines 66-75: for each key, walk the words adding one per equal word,
      then store the count under the key. */
  method CountKeys(keyList: seq<string>, words: seq<string>) returns (counts: Dict)
    ensures counts == KeyCounts([], keyList, words)
  {
    counts := [];
    assert keyList[0..] == keyList;
    for i := 0 to |keyList|
      invariant KeyCounts(counts, keyList[i..], words) == KeyCounts([], keyList, words)
    {
      var key := keyList[i];
      var count := 0;
      for j := 0 to |words|
        invariant count == multiset(words[..j])[key]
      {
        assert words[..j + 1] == words[..j] + [words[j]];
        if key == words[j] {
          count := count + 1;
        }
      }
      assert words[..|words|] == words;
      assert keyList[i..][1..] == keyList[i + 1..];
      counts := Put(counts, key, count);
    }
    assert keyList[|keyList|..] == [];
  }

  lemma {:induction false} KeyCountsKeys(d: Dict, keys: seq<string>, words: seq<string>)
    ensures Keys(KeyCounts(d, keys, words)) == DedupInto(Keys(d), keys)
    decreases |keys|
  {
    if keys != [] {
      var v := multiset(words)[keys[0]];
      PutKeys(d, keys[0], v);
      KeyCountsKeys(Put(d, keys[0], v), keys[1..], words);
    }
  }

  lemma {:induction false} KeyCountsGet(d: Dict, keys: seq<string>, words: seq<string>, k: string)
    ensures Get(KeyCounts(d, keys, words), k) ==
      if k in keys then Some(multiset(words)[k]) else Get(d, k)
    decreases |keys|
  {
    if keys != [] {
      var d' := Put(d, keys[0], multiset(words)[keys[0]]);
      KeyCountsGet(d', keys[1..], words, k);
      MultisetCons(keys, k);
    }
  }

  lemma {:induction false} MultisetAtMost<T>(s: seq<T>, x: T)
    ensures multiset(s)[x] <= |s|
    decreases |s|
  {
    if s != [] {
      MultisetAtMost(s[1..], x);
      MultisetCons(s, x);
    }
  }

  /** The dict has exactly the keys of the key list, in its order, without
      repeats; each key maps to its number of occurrences, between 0 and the
      number of words, and agrees with a Counter over the words. */
  lemma CountKeysSpec(keyList: seq<string>, words: seq<string>, k: string)
    ensures Keys(KeyCounts([], keyList, words)) == Dedup(keyList)
    ensures DistinctKeys(KeyCounts([], keyList, words))
    ensures Get(KeyCounts([], keyList, words), k) ==
      if k in keyList then Some(multiset(words)[k]) else None
    ensures k in keyList ==> 0 <= GetOr(KeyCounts([], keyList, words), k, 0) <= |words|
    ensures k in keyList && k in words ==> Get(KeyCounts([], keyList, words), k) == Get(Tally(words), k)
  {
    KeyCountsKeys([], keyList, words);
    assert Keys([]) == [];
    DedupSpec(keyList);
    KeyCountsGet([], keyList, words, k);
    MultisetAtMost(words, k);
    TallyGet(words, k);
  }

  /** Lines 64-83 with the text as a parameter: tokenise, count each key, and
      sort the items by count, largest first, ties in key-list order. */
  method CountWords(contents: string, keyList: seq<string>) returns (counts: Dict, results: seq<Entry>)
    ensures counts == KeyCounts([], keyList, Tokens.SplitWords(contents, false))
    ensures Keys(counts) == Dedup(keyList)
    ensures multiset(results) == multiset(counts)
    ensures NonIncreasing(results)
    ensures forall c :: Filter(results, HasCount(c)) == Filter(counts, HasCount(c))
  {
    var words := Tokens.SplitWords(contents, false);
    counts := CountKeys(keyList, words);
    CountKeysSpec(keyList, words, "");
    results := SortDesc(counts);
    forall c ensures Filter(results, HasCount(c)) == Filter(counts, HasCount(c)) {
      SortDescStable(counts, c);
    }
  }
}
