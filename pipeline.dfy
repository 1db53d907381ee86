/**
 * Crawl, then query: the guarantee the two scripts give together when the
 * server loads the index the crawler wrote.
 */
module Pipeline {
  import opened Wrappers
  import opened Text
  import opened Extract
  import opened Accumulate
  import opened Search

  /** The crawled index is valid: its keys are lower-case and its lists non-empty. */
  lemma {:induction false} IndexFactsValid(facts: seq<Fact>)
    ensures ValidIndex(IndexFacts(map[], facts))
    decreases |facts|
  {
    if facts != [] {
      var f := facts[|facts| - 1];
      IndexFactsValid(facts[..|facts| - 1]);
      AddWordsKeepsValid(IndexFacts(map[], facts[..|facts| - 1]), NameWords(f.names), f.title);
    }
  }

  /** A title is listed under a word of the crawled index exactly when some
      fact with that title has the word among its people's words. */
  lemma CrawledListHolds(facts: seq<Fact>, w: string, t: string)
    ensures (w in IndexFacts(map[], facts) && t in IndexFacts(map[], facts)[w]) <==> Credits(facts, w, t)
  {
    IndexFactsTitles(map[], facts, w, t);
  }

  /** Over the crawled index, a list of words finds a title exactly when each
      word is a lower-cased name word of some movie with that title. */
  lemma SearchWordsAfterCrawl(facts: seq<Fact>, words: seq<string>, t: string)
    requires words != []
    ensures t in SearchWords(IndexFacts(map[], facts), words) <==>
      forall i :: 0 <= i < |words| ==> Credits(facts, words[i], t)
  {
    var index := IndexFacts(map[], facts);
    SearchWordsMembers(index, words, t);
    forall i | 0 <= i < |words|
      ensures (words[i] in index && t in index[words[i]]) <==> Credits(facts, words[i], t)
    {
      CrawledListHolds(facts, words[i], t);
    }
  }

  /** A query over the crawled index returns a title exactly when every query
      word is a lower-cased name word of some movie with that title. */
  lemma SearchAfterCrawl(facts: seq<Fact>, query: string, t: string)
    ensures t in GetSearchResults(IndexFacts(map[], facts), query) <==>
      forall i :: 0 <= i < |QueryWords(query)| ==> Credits(facts, QueryWords(query)[i], t)
  {
    SearchWordsAfterCrawl(facts, QueryWords(query), t);
  }

  /** The same over a whole crawl: when every page yielded a fact, the index
      written answers queries as above; one failed page writes no index. */
  lemma CrawlThenSearch(outcomes: seq<Option<Fact>>, query: string, t: string)
    ensures Crawl(outcomes).None? <==> exists i :: 0 <= i < |outcomes| && outcomes[i].None?
    ensures Crawl(outcomes).Some? ==>
      (t in GetSearchResults(Crawl(outcomes).value, query) <==>
        forall i :: 0 <= i < |QueryWords(query)| ==>
          exists j :: 0 <= j < |outcomes| && outcomes[j].Some?
            && outcomes[j].value.title == t && QueryWords(query)[i] in NameWords(outcomes[j].value.names))
  {
    var collected := CollectFacts(outcomes);
    if collected.Some? {
      var facts := collected.value;
      SearchAfterCrawl(facts, query, t);
      var words := QueryWords(query);
      forall i | 0 <= i < |words|
        ensures Credits(facts, words[i], t) <==>
          exists j :: 0 <= j < |outcomes| && outcomes[j].Some?
            && outcomes[j].value.title == t && words[i] in NameWords(outcomes[j].value.names)
      {
        if Credits(facts, words[i], t) {
          var j :| 0 <= j < |facts| && facts[j].title == t && words[i] in NameWords(facts[j].names);
          assert outcomes[j] == Some(facts[j]);
        }
        if exists j :: 0 <= j < |outcomes| && outcomes[j].Some?
            && outcomes[j].value.title == t && words[i] in NameWords(outcomes[j].value.names) {
          var j :| 0 <= j < |outcomes| && outcomes[j].Some?
            && outcomes[j].value.title == t && words[i] in NameWords(outcomes[j].value.names);
          assert outcomes[j] == Some(facts[j]);
        }
      }
    }
  }

  /** The same for the crawl as written on a plain object: when it writes an
      index at all, queries over it answer as over the dictionary crawl. */
  lemma AsWrittenCrawlThenSearch(outcomes: seq<Option<Fact>>, query: string, t: string)
    ensures CrawlAsWritten(outcomes).Some? ==> Crawl(outcomes).Some?
    ensures CrawlAsWritten(outcomes).Some? ==>
      (t in GetSearchResults(CrawlAsWritten(outcomes).value, query) <==>
        forall i :: 0 <= i < |QueryWords(query)| ==>
          exists j :: 0 <= j < |outcomes| && outcomes[j].Some?
            && outcomes[j].value.title == t && QueryWords(query)[i] in NameWords(outcomes[j].value.names))
  {
    CrawlAsWrittenAgrees(outcomes);
    CrawlThenSearch(outcomes, query, t);
  }

  /** Query words are taken as typed: after a crawl, a query word with an
      upper-case letter finds nothing. */
  lemma CapitalisedQueryMissesCrawl(facts: seq<Fact>, query: string, i: nat)
    requires i < |QueryWords(query)| && !IsLower(QueryWords(query)[i])
    ensures GetSearchResults(IndexFacts(map[], facts), query) == []
  {
    IndexFactsValid(facts);
    UpperCaseWordFindsNothing(IndexFacts(map[], facts), query, i);
  }
}
