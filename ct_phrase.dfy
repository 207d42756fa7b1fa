/** The main block of `ct_phrase.py`: count given phrases in a text, sentence
    fragment by sentence fragment, and rank them by count.  Its functions are
    those of `phrase_frq.py`. */
module CtPhrase {
  import opened Seqs
  import opened Ranking
  import opened PhraseFrq

  /** Lines 164-169 with the text as a parameter: drop quotes and hyphens,
      split into sentence fragments, count each phrase, and sort the items by
      count, largest first, ties in the order of the phrase list. */
  method CountGivenPhrases(contents: string, phrases: seq<string>) returns (countDict: Dict, results: seq<Entry>)
    ensures countDict == PhraseCounts([], phrases, PhraseSentences(contents))
    ensures Keys(countDict) == Dedup(phrases)
    ensures forall e :: e in results ==>
      e.key in phrases && e.count == TotalCount(e.key, PhraseSentences(contents))
    ensures multiset(results) == multiset(countDict)
    ensures NonIncreasing(results)
    ensures forall c :: Filter(results, HasCount(c)) == Filter(countDict, HasCount(c))
  {
    DefaultDelimiters();
    var clearContents := RemoveChar(contents, "\"-");
    var sentences := SplitSentence(clearContents, ",.!?:;()");
    countDict := CountPhrase(phrases, sentences);
    CountPhraseSpec(phrases, sentences, "");
    results := SortDesc(countDict);
    forall e | e in results
      ensures e.key in phrases && e.count == TotalCount(e.key, sentences)
    {
      assert e in multiset(countDict);
      PhraseCountsEntry(phrases, sentences, e);
    }
    forall c ensures Filter(results, HasCount(c)) == Filter(countDict, HasCount(c)) {
      SortDescStable(countDict, c);
    }
  }
}
