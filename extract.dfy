/**
 * The pure steps of the crawler (src/crawl.js): shaping one movie page into a
 * fact, and the crawl plan (which list pages are fetched, and how their movie
 * URLs are merged).
 *
 * The HTML selectors themselves are not modelled: the text of the `<title>`
 * element, the director text and the actor texts are inputs.
 */
module Extract {
  import opened Wrappers

  /** What one movie page contributes: its title and the people named on it. */
  datatype Fact = Fact(title: string, names: seq<string>)

  // ---------------------------------------------------------------------
  // Title extraction: `text.match(/^(.+)\s\(\d{4}\).+$/)[1]`
  // ---------------------------------------------------------------------

  /** The characters JavaScript's `\s` class matches. */
  predicate IsSpace(c: char)
  {
    c == '\t' || c == '\n' || c == '\U{B}' || c == '\U{C}' || c == '\r' || c == ' '
    || c == '\U{A0}' || c == '\U{1680}' || ('\U{2000}' <= c <= '\U{200A}')
    || c == '\U{2028}' || c == '\U{2029}' || c == '\U{202F}' || c == '\U{205F}'
    || c == '\U{3000}' || c == '\U{FEFF}'
  }

  /** The characters JavaScript's `.` does not match (no `s` flag). */
  predicate IsLineTerminator(c: char)
  {
    c == '\n' || c == '\r' || c == '\U{2028}' || c == '\U{2029}'
  }

  /** JavaScript's `\d`: ASCII digits only. */
  predicate IsDigit(c: char)
  {
    '0' <= c <= '9'
  }

  /** Every character of `s` is matched by `.`. */
  predicate SingleLine(s: string)
  {
    forall i :: 0 <= i < |s| ==> !IsLineTerminator(s[i])
  }

  /** The whole of `text` matches the pattern with a capture group of length
      `k`: `k` title characters, one whitespace character, `(`, four digits,
      `)`, and at least one more character; `.` covers the title and the tail. */
  predicate MatchesAt(text: string, k: int)
  {
    && 1 <= k && k + 8 <= |text|
    && SingleLine(text[..k])
    && IsSpace(text[k])
    && text[k + 1] == '('
    && IsDigit(text[k + 2]) && IsDigit(text[k + 3]) && IsDigit(text[k + 4]) && IsDigit(text[k + 5])
    && text[k + 6] == ')'
    && SingleLine(text[k + 7..])
  }

  /** Search for the longest capture, trying the lengths `k`, `k - 1`, ..., 1. */
  function LongestMatchUpTo(text: string, k: int): (r: Option<string>)
    ensures r.Some? ==> MatchesAt(text, |r.value|) && |r.value| <= k && r.value == text[..|r.value|]
    ensures r.Some? ==> forall j :: |r.value| < j <= k ==> !MatchesAt(text, j)
    ensures r.None? ==> forall j :: j <= k ==> !MatchesAt(text, j)
    decreases k
  {
    if k < 1 then None
    else if MatchesAt(text, k) then Some(text[..k])
    else LongestMatchUpTo(text, k - 1)
  }

  /** The title of a movie page. The capture group is greedy, so the title is
      the longest prefix after which the rest of the text still matches; when
      the pattern does not match, `match` yields null and the crawl throws, so
      there is no title. */
  function ExtractTitle(text: string): (r: Option<string>)
    ensures r.None? <==> forall k :: !MatchesAt(text, k)
    ensures r.Some? ==> MatchesAt(text, |r.value|) && r.value == text[..|r.value|]
    ensures r.Some? ==> forall k :: MatchesAt(text, k) ==> k <= |r.value|
  {
    LongestMatchUpTo(text, |text| - 8)
  }

  /** The people of one page: the actors in document order, then the director
      (empty when the page names none). */
  function PeopleNames(actors: seq<string>, director: string): (r: seq<string>)
    ensures |r| == |actors| + 1
    ensures r[..|actors|] == actors && r[|actors|] == director
  {
    actors + [director]
  }

  /** `scrapeOneMovie` after fetching: the fact of one movie page, or nothing
      when the title pattern does not match. */
  function ScrapeOneMovie(titleText: string, director: string, actors: seq<string>): (r: Option<Fact>)
    ensures r.None? <==> ExtractTitle(titleText).None?
    ensures r.Some? ==> r.value.title == ExtractTitle(titleText).value
    ensures r.Some? ==> r.value.names == PeopleNames(actors, director)
  {
    match ExtractTitle(titleText)
    case None => None
    case Some(title) => Some(Fact(title, PeopleNames(actors, director)))
  }

  // ---------------------------------------------------------------------
  // Crawl plan
  // ---------------------------------------------------------------------

  /** lodash `range(start, end)` with the default step: counts up to `end`
      (exclusive) when `start < end`, otherwise down to it. */
  function Range(start: int, end: int): (r: seq<int>)
    ensures start <= end ==> |r| == end - start && forall i :: 0 <= i < |r| ==> r[i] == start + i
    ensures end < start ==> |r| == start - end && forall i :: 0 <= i < |r| ==> r[i] == start - i
    decreases if start <= end then end - start else start - end
  {
    if start == end then []
    else if start < end then [start] + Range(start + 1, end)
    else [start] + Range(start - 1, end)
  }

  /** The list pages the crawl fetches: `range(1, 20)`. */
  function ListPages(): (r: seq<int>)
    ensures |r| == 19
    ensures forall i :: 0 <= i < |r| ==> r[i] == i + 1
  {
    Range(1, 20)
  }

  /** The pages the header comment of src/crawl.js announces: all twenty
      list pages of the top 1000 (50 movies each). */
  function AdvertisedListPages(): (r: seq<int>)
    ensures |r| == 20
    ensures forall i :: 0 <= i < |r| ==> r[i] == i + 1
  {
    Range(1, 21)
  }

  /** The crawl fetches exactly the list pages 1 to 19. */
  lemma {:induction false} ListPagesAre()
    ensures forall p :: p in ListPages() <==> 1 <= p <= 19
  {
    var r := ListPages();
    forall p | 1 <= p <= 19 ensures p in r {
      assert r[p - 1] == p;
    }
  }

  /** The header comment's pages are exactly 1 to 20. */
  lemma {:induction false} AdvertisedListPagesAre()
    ensures forall p :: p in AdvertisedListPages() <==> 1 <= p <= 20
  {
    var r := AdvertisedListPages();
    forall p | 1 <= p <= 20 ensures p in r {
      assert r[p - 1] == p;
    }
  }

  /** The as-written page list misses the twentieth page. */
  lemma LastListPageSkipped()
    ensures 20 in AdvertisedListPages() && 20 !in ListPages()
    ensures AdvertisedListPages() == ListPages() + [20]
  {
    ListPagesAre();
    AdvertisedListPagesAre();
  }

  /** `[].concat(...lists)`: the lists one after another. */
  function Flatten(lists: seq<seq<string>>): (r: seq<string>)
    ensures |r| == TotalLength(lists)
  {
    if lists == [] then [] else lists[0] + Flatten(lists[1..])
  }

  function TotalLength(lists: seq<seq<string>>): nat
  {
    if lists == [] then 0 else |lists[0]| + TotalLength(lists[1..])
  }

  /** How often `x` occurs across all the lists. */
  function CountAcross(lists: seq<seq<string>>, x: string): nat
  {
    if lists == [] then 0 else multiset(lists[0])[x] + CountAcross(lists[1..], x)
  }

  /** Flattening respects concatenation of the outer list. */
  lemma {:induction false} FlattenAppend(a: seq<seq<string>>, b: seq<seq<string>>)
    ensures Flatten(a + b) == Flatten(a) + Flatten(b)
    decreases |a|
  {
    if a == [] {
      assert a + b == b;
    } else {
      FlattenAppend(a[1..], b);
      calc {
        Flatten(a + b);
        (a + b)[0] + Flatten((a + b)[1..]);
        { assert (a + b)[1..] == a[1..] + b; }
        a[0] + Flatten(a[1..] + b);
        a[0] + (Flatten(a[1..]) + Flatten(b));
        (a[0] + Flatten(a[1..])) + Flatten(b);
      }
    }
  }

  /** Nothing is dropped or merged: every URL keeps each of its occurrences. */
  lemma {:induction false} FlattenKeepsDuplicates(lists: seq<seq<string>>, x: string)
    ensures multiset(Flatten(lists))[x] == CountAcross(lists, x)
    decreases |lists|
  {
    if lists != [] {
      FlattenKeepsDuplicates(lists[1..], x);
    }
  }

  /** The `i`-th list sits in the flattened list right after the lists before it. */
  lemma {:induction false} FlattenPlacesList(lists: seq<seq<string>>, i: nat)
    requires i < |lists|
    ensures TotalLength(lists[..i]) + |lists[i]| <= |Flatten(lists)|
    ensures Flatten(lists)[TotalLength(lists[..i])..TotalLength(lists[..i]) + |lists[i]|] == lists[i]
  {
    var rest := [lists[i]] + lists[i + 1..];
    assert lists == lists[..i] + rest;
    FlattenAppend(lists[..i], rest);
    assert rest[0] == lists[i] && rest[1..] == lists[i + 1..];
    assert Flatten(rest) == lists[i] + Flatten(lists[i + 1..]);
    assert Flatten(lists) == Flatten(lists[..i]) + lists[i] + Flatten(lists[i + 1..]);
  }

  /** The movie URLs of a crawl: the URL list of each list page, in page order. */
  function MovieUrls(pages: seq<int>, urlsOf: int -> seq<string>): (r: seq<string>)
  {
    Flatten(seq(|pages|, i requires 0 <= i < |pages| => urlsOf(pages[i])))
  }

  /** The movie URL list is as long as all page lists together, and each URL
      occurs as often as across the pages. */
  lemma MovieUrlsCount(pages: seq<int>, urlsOf: int -> seq<string>, x: string)
    ensures |MovieUrls(pages, urlsOf)| == TotalLength(seq(|pages|, i requires 0 <= i < |pages| => urlsOf(pages[i])))
    ensures multiset(MovieUrls(pages, urlsOf))[x]
         == CountAcross(seq(|pages|, i requires 0 <= i < |pages| => urlsOf(pages[i])), x)
  {
    FlattenKeepsDuplicates(seq(|pages|, i requires 0 <= i < |pages| => urlsOf(pages[i])), x);
  }

  /** One more page adds its URLs at the end. */
  lemma MovieUrlsSnoc(pages: seq<int>, p: int, urlsOf: int -> seq<string>)
    ensures MovieUrls(pages + [p], urlsOf) == MovieUrls(pages, urlsOf) + urlsOf(p)
  {
    var lists := seq(|pages|, i requires 0 <= i < |pages| => urlsOf(pages[i]));
    var more := seq(|pages + [p]|, i requires 0 <= i < |pages + [p]| => urlsOf((pages + [p])[i]));
    assert more == lists + [urlsOf(p)];
    FlattenAppend(lists, [urlsOf(p)]);
    assert Flatten([urlsOf(p)]) == urlsOf(p) by {
      assert [urlsOf(p)][1..] == [];
    }
  }
}
