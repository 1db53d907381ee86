/**
 * The query server (src/app.js): `getSearchResults`, which splits the query on
 * single spaces, looks every word up in the index as typed and intersects the
 * lists with lodash `intersection`, and the `/imdb` handler around it.
 *
 * lodash `intersection` is modelled by what it returns: the distinct values
 * of the first list that occur in every other list, in the order of their
 * first occurrence in the first list. A word that is no key gives
 * `undefined`, which `intersection` treats as an empty list.
 */
module Search {
  import opened Wrappers
  import opened Text
  import opened Accumulate

  /** `x` occurs in every one of `lists`. */
  predicate InAll(x: string, lists: seq<seq<string>>)
  {
    forall i :: 0 <= i < |lists| ==> x in lists[i]
  }

  /** No value occurs twice. */
  predicate Distinct(s: seq<string>)
  {
    forall i, j :: 0 <= i < j < |s| ==> s[i] != s[j]
  }

  /** The position of the first occurrence of `x` in `xs`. */
  function FirstIndex(xs: seq<string>, x: string): (r: nat)
    requires x in xs
    ensures r < |xs| && xs[r] == x && x !in xs[..r]
  {
    var init := xs[..|xs| - 1];
    if x in init then
      var r := FirstIndex(init, x);
      assert init[..r] == xs[..r];
      r
    else
      assert xs[..|xs| - 1] == init;
      |xs| - 1
  }

  /** The scan of lodash's `baseIntersection`: walk `xs` and keep each value
      not kept yet that every list of `others` includes. */
  function Common(xs: seq<string>, others: seq<seq<string>>): seq<string>
  {
    if xs == [] then []
    else
      var kept := Common(xs[..|xs| - 1], others);
      var x := xs[|xs| - 1];
      if x !in kept && InAll(x, others) then kept + [x] else kept
  }

  /** lodash `intersection(...lists)`. */
  function Intersection(lists: seq<seq<string>>): seq<string>
  {
    if lists == [] then [] else Common(lists[0], lists[1..])
  }

  /** `words.map(word => searchTerms[word])`, an absent word giving no titles. */
  function LookupAll(index: Index, words: seq<string>): (r: seq<seq<string>>)
    ensures |r| == |words|
    ensures forall i :: 0 <= i < |words| ==> r[i] == ListOf(index, words[i])
  {
    seq(|words|, i requires 0 <= i < |words| => ListOf(index, words[i]))
  }

  /** The titles a list of query words finds. */
  function SearchWords(index: Index, words: seq<string>): seq<string>
  {
    Intersection(LookupAll(index, words))
  }

  /** The words of a query: the query split on single spaces, taken as typed.
      Naming the split keeps the quantifiers of the query lemmas on one term,
      which the verifier matches far more cheaply than the split itself. */
  function QueryWords(query: string): seq<string>
  {
    Split(query, ' ')
  }

  /** `getSearchResults(query)`. */
  function GetSearchResults(index: Index, query: string): seq<string>
  {
    SearchWords(index, QueryWords(query))
  }

  // ---------------------------------------------------------------------
  // The intersection scan
  // ---------------------------------------------------------------------

  /** The scan keeps exactly the values of `xs` that every other list has. */
  lemma {:induction false} CommonMembers(xs: seq<string>, others: seq<seq<string>>, x: string)
    ensures x in Common(xs, others) <==> x in xs && InAll(x, others)
    decreases |xs|
  {
    if xs != [] {
      var init := xs[..|xs| - 1];
      CommonMembers(init, others, x);
      assert xs == init + [xs[|xs| - 1]];
    }
  }

  /** The scan keeps each value once. */
  lemma {:induction false} CommonDistinct(xs: seq<string>, others: seq<seq<string>>)
    ensures Distinct(Common(xs, others))
    decreases |xs|
  {
    if xs != [] {
      CommonDistinct(xs[..|xs| - 1], others);
    }
  }

  /** The scan keeps values in the order of their first occurrence in `xs`. */
  lemma {:induction false} CommonOrder(xs: seq<string>, others: seq<seq<string>>)
    ensures forall x :: x in Common(xs, others) ==> x in xs
    ensures forall i, j :: 0 <= i < j < |Common(xs, others)| ==>
      FirstIndex(xs, Common(xs, others)[i]) < FirstIndex(xs, Common(xs, others)[j])
    decreases |xs|
  {
    if xs != [] {
      var init, x := xs[..|xs| - 1], xs[|xs| - 1];
      var kept := Common(init, others);
      CommonOrder(init, others);
      assert forall y :: y in init ==> FirstIndex(xs, y) == FirstIndex(init, y);
      if x !in kept && InAll(x, others) {
        CommonMembers(init, others, x);
        assert x !in init;
        assert FirstIndex(xs, x) == |xs| - 1;
        var r := kept + [x];
        assert forall y :: y in r ==> y in xs;
        forall i, j | 0 <= i < j < |r|
          ensures FirstIndex(xs, r[i]) < FirstIndex(xs, r[j])
        {
          assert r[i] == kept[i] && r[i] in init;
          if j < |r| - 1 {
            assert r[j] == kept[j] && r[j] in init;
          }
        }
      }
    }
  }

  // ---------------------------------------------------------------------
  // What a query returns
  // ---------------------------------------------------------------------

  /** Soundness and completeness: a title is returned exactly when every
      query word is a key whose list holds it. */
  lemma SearchWordsMembers(index: Index, words: seq<string>, t: string)
    requires words != []
    ensures t in SearchWords(index, words) <==>
      forall i :: 0 <= i < |words| ==> words[i] in index && t in index[words[i]]
  {
    var lists := LookupAll(index, words);
    CommonMembers(lists[0], lists[1..], t);
    if forall i :: 0 <= i < |words| ==> words[i] in index && t in index[words[i]] {
      forall i | 0 <= i < |lists[1..]| ensures t in lists[1..][i] {
        assert lists[1..][i] == lists[i + 1];
      }
    }
    if t in SearchWords(index, words) {
      forall i | 0 <= i < |words| ensures words[i] in index && t in index[words[i]] {
        if i > 0 {
          assert lists[1..][i - 1] == lists[i];
        }
      }
    }
  }

  /** No title is returned twice, even when a word's list repeats it. */
  lemma SearchWordsDistinct(index: Index, words: seq<string>)
    ensures Distinct(SearchWords(index, words))
  {
    if words != [] {
      var lists := LookupAll(index, words);
      CommonDistinct(lists[0], lists[1..]);
    }
  }

  /** Titles come in the order of their first occurrence in the first word's
      list. */
  lemma SearchWordsOrder(index: Index, words: seq<string>)
    requires words != []
    ensures forall t :: t in SearchWords(index, words) ==> t in ListOf(index, words[0])
    ensures forall i, j :: 0 <= i < j < |SearchWords(index, words)| ==>
      FirstIndex(ListOf(index, words[0]), SearchWords(index, words)[i])
      < FirstIndex(ListOf(index, words[0]), SearchWords(index, words)[j])
  {
    var lists := LookupAll(index, words);
    CommonOrder(lists[0], lists[1..]);
  }

  /** A word that is no key empties the result. */
  lemma AbsentWordFindsNothing(index: Index, words: seq<string>, i: nat)
    requires i < |words| && words[i] !in index
    ensures SearchWords(index, words) == []
  {
    if SearchWords(index, words) != [] {
      SearchWordsMembers(index, words, SearchWords(index, words)[0]);
    }
  }

  /** The order of the query words does not change which titles are found. */
  lemma WordOrderIrrelevant(index: Index, words: seq<string>, others: seq<string>, t: string)
    requires words != [] && others != []
    requires forall w :: w in words <==> w in others
    ensures t in SearchWords(index, words) <==> t in SearchWords(index, others)
  {
    SearchWordsMembers(index, words, t);
    SearchWordsMembers(index, others, t);
    if t in SearchWords(index, words) {
      forall i | 0 <= i < |others| ensures others[i] in index && t in index[others[i]] {
        assert others[i] in words;
      }
    }
    if t in SearchWords(index, others) {
      forall i | 0 <= i < |words| ensures words[i] in index && t in index[words[i]] {
        assert words[i] in others;
      }
    }
  }

  /** A one-word query returns the word's list with repeats dropped: each
      title once, in the order of its first occurrence. */
  lemma SingleWordQuery(index: Index, word: string)
    requires ' ' !in word
    ensures GetSearchResults(index, word) == Common(ListOf(index, word), [])
    ensures Distinct(GetSearchResults(index, word))
    ensures forall t :: t in GetSearchResults(index, word) <==> t in ListOf(index, word)
  {
    SplitNoSeparator(word, ' ');
    var lists := LookupAll(index, [word]);
    assert lists[1..] == [];
    CommonDistinct(lists[0], []);
    forall t ensures t in GetSearchResults(index, word) <==> t in ListOf(index, word) {
      CommonMembers(lists[0], [], t);
    }
  }

  /** The query is not lower-cased: against an index whose keys are all
      lower-case, a word holding an upper-case letter finds nothing. */
  lemma UpperCaseWordFindsNothing(index: Index, query: string, i: nat)
    requires forall k :: k in index ==> IsLower(k)
    requires i < |QueryWords(query)| && !IsLower(QueryWords(query)[i])
    ensures GetSearchResults(index, query) == []
  {
    AbsentWordFindsNothing(index, QueryWords(query), i);
  }

  /** A doubled space in the query adds the empty word. The query then finds
      only titles filed under the empty word, so nothing at all when the
      index has no such key. */
  lemma DoubledSpaceInQuery(index: Index, first: string, last: string)
    ensures "" in QueryWords(first + [' ', ' '] + last)
    ensures "" !in index ==> GetSearchResults(index, first + [' ', ' '] + last) == []
    ensures forall t :: t in GetSearchResults(index, first + [' ', ' '] + last) ==> t in ListOf(index, "")
  {
    SplitAroundSeparator(first, [' '] + last, ' ');
    SplitAroundSeparator([], last, ' ');
    assert first + [' ', ' '] + last == first + [' '] + ([' '] + last);
    assert [' '] + last == [] + [' '] + last;
    var words := QueryWords(first + [' ', ' '] + last);
    assert words == Split(first, ' ') + [[]] + Split(last, ' ');
    var i := |Split(first, ' ')|;
    assert words[i] == "";
    forall t | t in SearchWords(index, words) ensures t in ListOf(index, "") {
      SearchWordsMembers(index, words, t);
    }
    if "" !in index {
      AbsentWordFindsNothing(index, words, i);
    }
  }

  // ---------------------------------------------------------------------
  // The `/imdb` handler
  // ---------------------------------------------------------------------

  datatype Body = Plain(text: string) | Json(titles: seq<string>)

  datatype Response = Response(status: int, body: Body)

  const Greeting: string := "IMDB Top 1000 Movies Search"

  /** `GET /imdb`: a missing or empty `search` parameter gets the greeting,
      any other gets the titles the query finds; the status is 200 either way. */
  function HandleImdb(index: Index, search: Option<string>): (r: Response)
    ensures r.status == 200
    ensures r.body == Plain(Greeting) <==> search == None || search == Some("")
    ensures search.Some? && search.value != [] ==> r.body == Json(GetSearchResults(index, search.value))
  {
    match search
    case Some(query) =>
      if query != [] then Response(200, Json(GetSearchResults(index, query)))
      else Response(200, Plain(Greeting))
    case None => Response(200, Plain(Greeting))
  }
}
