# Ferris Wheel search index, in Dafny

Ferris Wheel has two scripts.

- **The crawler** (`src/crawl.js`) fetches the IMDB Top 1000 list pages and
  collects the movie URLs on them. It then scrapes every movie page for three
  things: the title, taken from the `<title>` text; the director; and the
  actors. Every word of every person's name is lower-cased and becomes a key
  of one object, `searchTerms`. Each key maps to the titles of the movies that
  word occurs in. The object is written out as JSON.
- **The server** (`src/app.js`) loads that object. It answers `GET /imdb?search=...`
  by splitting the query on single spaces and looking each word up as typed.
  It returns the lodash `intersection` of the title lists it finds. An empty
  or missing `search` gets a fixed greeting.

This project models both halves and the guarantee they give together. The
modules are:

- `Text`: JavaScript `split` with a one-character separator, proved to be the
  inverse of `join`, and lower-casing.
- `Extract`: the pure steps of the crawler.
  - Title extraction by the regular expression `^(.+)\s\(\d{4}\).+$`, with
    its greedy capture.
  - Merging the actors with the director.
  - The list-page plan `range(1, 20)`.
  - Flattening the per-page URL lists.
- `Accumulate`: the index.
  - `SearchTerms` is a class holding the map. Its method `AddNames` updates
    the map in place with the source's nested loops.
  - The method is proved against the function `AddWords`. Lemmas give the
    closed form of every key's list after an update.
  - The crawl is a sequential fold over the facts of the movie pages, with
    `Promise.all`'s all-or-nothing outcome.
  - `AddWordsAsWritten` models the index as a plain JavaScript object, where
    inherited property names make the update throw.
- `Search`: the query.
  - The lookup of every query word.
  - lodash `intersection`, modelled by what it returns: the distinct values of
    the first list that occur in every other list, in first-occurrence order.
  - The `/imdb` handler.
- `Pipeline`: querying the index a crawl wrote. A title is returned exactly
  when every query word is a lower-cased name word of some movie with that
  title.

## Model

| member | source | states |
|---|---|---|
| Text.Split | src/app.js:30 | `split(' ')` always yields at least one piece |
| Text.SplitPiecesFree | src/crawl.js:46 | no piece of a split contains the separator |
| Text.JoinSplit | src/crawl.js:46 | joining the pieces back with the separator gives the original text, so nothing is lost |
| Text.SplitJoin | src/crawl.js:46 | splitting a join of separator-free pieces gives back exactly those pieces |
| Text.JoinAppend | src/crawl.js:46 | joining two piece lists puts one separator between their joins |
| Text.SplitAroundSeparator | src/app.js:30 | the split of `x + sep + y` is the split of `x` followed by the split of `y` |
| Text.SplitCount | src/crawl.js:46 | the number of pieces is the number of separators plus one, so empty pieces are kept |
| Text.SplitNoSeparator | src/app.js:30 | a text without a space splits into itself alone |
| Text.Lower | src/crawl.js:47 | lower-casing keeps the length, maps each character and leaves no upper-case letter |
| Text.LowerIdempotent | src/crawl.js:47 | lower-casing twice is lower-casing once; a string is lower-case exactly when lower-casing leaves it unchanged |
| Extract.LongestMatchUpTo | src/crawl.js:67 | a capture found by searching downward from length `k` matches, and no longer capture up to `k` matches; none is found only when no length up to `k` matches |
| Extract.ExtractTitle | src/crawl.js:65-67 | there is no title exactly when the pattern matches at no capture length; otherwise the title is a prefix at which the whole text matches, and it is the longest such prefix (greedy `(.+)`) |
| Extract.PeopleNames | src/crawl.js:74 | the people list is the actors in order followed by the director, one longer than the actors |
| Extract.ScrapeOneMovie | src/crawl.js:58-76 | a page gives a fact exactly when its title matches; the fact's title is the extracted title and its names are the actors followed by the director |
| Extract.Range | src/crawl.js:96 | lodash `range(start, end)` counts from `start` toward `end` in unit steps, `end` excluded, in either direction |
| Extract.ListPages | src/crawl.js:96 | the crawl fetches 19 list pages, numbered 1 to 19 in order |
| Extract.ListPagesAre | src/crawl.js:96 | a page is fetched exactly when its number is between 1 and 19 |
| Extract.AdvertisedListPages | src/crawl.js:9 | the 20 pages the header comment announces are 1 to 20, in order |
| Extract.AdvertisedListPagesAre | src/crawl.js:9 | a page is announced exactly when its number is between 1 and 20 |
| Extract.LastListPageSkipped | src/crawl.js:96 | page 20 is announced but not fetched; the announced list is the fetched one plus page 20 |
| Extract.Flatten | src/crawl.js:102 | the merged URL list is as long as all page lists together |
| Extract.FlattenAppend | src/crawl.js:102 | merging respects concatenation of the page lists |
| Extract.FlattenKeepsDuplicates | src/crawl.js:102 | each URL occurs in the merged list exactly as often as across all pages |
| Extract.FlattenPlacesList | src/crawl.js:102 | each page's URLs sit contiguously and in order, right after those of the earlier pages |
| Extract.MovieUrlsCount | src/crawl.js:96-102 | the movie URL list has every URL of every fetched page, with its multiplicity |
| Extract.MovieUrlsSnoc | src/crawl.js:96-102 | one more list page appends its URLs at the end |
| Accumulate.Repeat | src/crawl.js:49 | `n` copies of a title form a list of length `n` |
| Accumulate.InRepeat | src/crawl.js:49 | a title is among `n` copies of `t0` exactly when `n > 0` and it is `t0` |
| Text.LowerEachSplit | src/crawl.js:46-47 | splitting on spaces and then lower-casing each piece is the same as splitting the lower-cased text, because lower-casing neither makes nor removes a space |
| Accumulate.WordsOf | src/crawl.js:46-47 | every key a name contributes is lower-case |
| Accumulate.WordsOfLoweredName | src/crawl.js:46-47 | a name's keys are exactly the space-separated words of its lower-cased form, and none of them holds a space |
| Accumulate.NameWords | src/crawl.js:45-47 | a list of names contributes at least one key per name, and every key is lower-case |
| Accumulate.NameWordsAppend | src/crawl.js:45 | the words of two lists of names are the words of the first followed by those of the second |
| Accumulate.AddWordsAppend | src/crawl.js:45-53 | adding words in two batches is adding them all in order |
| Accumulate.AddWordsKeys | src/crawl.js:48-52 | after an update a word is a key exactly when it was one before or is one of the added words |
| Accumulate.AddWordsLists | src/crawl.js:48-52 | after an update each key's list is its old list followed by one copy of the title per occurrence of the key among the words |
| Accumulate.AddWordsEffect | src/crawl.js:48-52 | both of the above for one key |
| Accumulate.AddWordsGrowsAtEnd | src/crawl.js:49 | an existing key stays, and its old list is a prefix of its new list |
| Accumulate.AddWordsOthersUnchanged | src/crawl.js:48-52 | a key that is not among the words keeps its presence and its list unchanged |
| Accumulate.AddWordsKeepsValid | src/crawl.js:48-52 | adding lower-case words keeps every key lower-case and every list non-empty |
| Accumulate.MissingDirectorAddsEmptyWord | src/crawl.js:68-75 | a page without a director files its title under the empty word |
| Accumulate.DoubledSpaceYieldsEmptyWord | src/crawl.js:46 | a name with two spaces in a row yields the empty word |
| Accumulate.SearchTerms.constructor | src/crawl.js:41 | the index starts empty |
| Accumulate.SearchTerms.AddNames | src/crawl.js:44-55 | the in-place loops produce `AddWords` of the old index over the names' lower-cased words; a key is present exactly when it was before or is one of those words; each key's list is its old list followed by one title per occurrence; a valid index stays valid |
| Accumulate.CollectFacts | src/crawl.js:104-108 | all facts, one per page in order, when every page yielded one; nothing exactly when some page failed |
| Accumulate.Crawl | src/crawl.js:98-114 | an index is written exactly when no movie page failed (dictionary update; see "Left out") |
| Accumulate.IndexFactsKeys | src/crawl.js:75 | a word is a key of the crawled index exactly when it was a key before or is a name word of some scraped movie |
| Accumulate.IndexFactsTitles | src/crawl.js:75 | a title is listed under a word exactly when it was before, or when some movie with that title has the word among its people's words |
| Accumulate.AddingFactsCommutes | src/crawl.js:104 | two movies scraped in either completion order leave the same keys, and each key holds the same titles with the same multiplicities |
| Accumulate.RepeatCount | src/crawl.js:49 | `n` copies of a title hold it `n` times and hold no other title |
| Accumulate.IndexFactsCount | src/crawl.js:75 | after the crawl, a word's list holds a title as often as before plus once per occurrence of the word among the name words of each movie with that title |
| Accumulate.TitleCountPermutation | src/crawl.js:104 | that count depends only on which movies were scraped, not on their order |
| Accumulate.CompletionOrderIrrelevant | src/crawl.js:104 | any completion order of the movie pages leaves the same keys, and every key holds every title the same number of times |
| Accumulate.ConstructorNameThrows | src/crawl.js:41-52 | as written, a person named "Constructor" makes the update throw, while a dictionary would record the key |
| Accumulate.AsWrittenAgreesOffInheritedKeys | src/crawl.js:48-52 | when no word is an inherited property name, the object-based update equals the dictionary update |
| Accumulate.AsWrittenSucceeds | src/crawl.js:48-52 | starting from an object with no inherited name as an own key, the object-based update succeeds exactly when no word is an inherited name, and it never stores one |
| Accumulate.IndexFactsAsWrittenAgrees | src/crawl.js:41-52 | the object-based crawl from `{}` succeeds exactly when no movie has an inherited name among its words, and then builds the dictionary index |
| Accumulate.CrawlAsWrittenAgrees | src/crawl.js:98-114 | the crawl as written writes an index exactly when every page yielded a fact and no fact's words include an inherited name; that index is the dictionary crawl's |
| Search.FirstIndex | src/app.js:31 | the position of the first occurrence of a value |
| Search.CommonMembers | src/app.js:31 | the intersection scan keeps exactly the values of the first list that all the other lists have |
| Search.CommonDistinct | src/app.js:31 | the intersection scan keeps each value once |
| Search.CommonOrder | src/app.js:31 | the kept values come in the order of their first occurrence in the first list |
| Search.SearchWordsMembers | src/app.js:29-32 | a title is returned exactly when every query word is a key whose list holds it (soundness and completeness). The lookup of line 30 is its internal step `LookupAll`, where a missing word gives the empty list |
| Search.SearchWordsDistinct | src/app.js:31 | no title is returned twice |
| Search.SearchWordsOrder | src/app.js:31 | results come from the first word's list, in its first-occurrence order |
| Search.AbsentWordFindsNothing | src/app.js:30-31 | a query word that is not a key makes the result empty |
| Search.WordOrderIrrelevant | src/app.js:29-32 | queries with the same set of words find the same titles |
| Search.SingleWordQuery | src/app.js:29-32 | a one-word query returns that word's list without repeats, keeping first-occurrence order |
| Search.UpperCaseWordFindsNothing | src/app.js:30 | the query is not lower-cased, so against lower-case keys a word with a capital letter finds nothing |
| Search.DoubledSpaceInQuery | src/app.js:30 | a doubled space in the query always adds the empty word to the query words; every title found is then filed under `""`, and nothing is found when `""` is no key |
| Search.HandleImdb | src/app.js:35-43 | status 200 always; the greeting exactly when `search` is missing or empty; otherwise the query results as JSON |
| Pipeline.IndexFactsValid | src/crawl.js:44-55 | every key of a crawled index is lower-case and every list is non-empty |
| Pipeline.CrawledListHolds | src/crawl.js:75 | in a crawled index, a word lists a title exactly when some movie with that title names the word |
| Pipeline.SearchWordsAfterCrawl | src/app.js:29-32 | over a crawled index, a list of words finds a title exactly when each word is a name word of some movie with that title |
| Pipeline.SearchAfterCrawl | src/app.js:29-32 | the same for a query string, split on spaces |
| Pipeline.CrawlThenSearch | src/crawl.js:98-114 | no index is written exactly when a page failed; otherwise a query finds a title exactly when each of its words is a name word of some scraped movie with that title |
| Pipeline.AsWrittenCrawlThenSearch | src/crawl.js:98-114 | whenever the crawl as written writes an index, the dictionary crawl writes one too, and queries over it answer as in `CrawlThenSearch` |
| Pipeline.CapitalisedQueryMissesCrawl | src/app.js:30 | after a crawl, a query word with a capital letter finds nothing |

## Left out

- Fetching pages (`request`), the cheerio selectors and `console.log` are not modelled. The text of the `<title>` element, the director text, the actor texts and each list page's URLs are inputs. `urlsOf` in `MovieUrls` stands for `crawlListPage`.
- Concurrency is modelled as one order of completion. Each `addNamesToSearchTerms` call runs to completion without interleaving, so the index is a sequential fold over the movies in completion order (`IndexFacts`). `CompletionOrderIrrelevant` shows that any two completion orders give the same keys, and that each key holds each title the same number of times. Only the order of titles inside a list can differ.
- Accumulate.SearchTerms.AddNames, Accumulate.Crawl, Pipeline.CrawlThenSearch and the lemmas built on `IndexFacts` use the dictionary update `AddWords`, which is the corrected behaviour from the first finding. The program as written throws on the words `constructor` and `__proto__` and then writes no index. That behaviour is `CrawlAsWritten`. `CrawlAsWrittenAgrees` and `Pipeline.AsWrittenCrawlThenSearch` show that it writes an index exactly when no scraped word is one of those two names, and that it then writes the same index. The in-place method `AddNames` does not model the throw.
- A failed movie page is modelled the way the code behaves: one rejected promise rejects the whole `Promise.all`, and no index file is written. Per-page containment of failures, under which the other pages would still be indexed, is not what the code does.
- A failed list-page fetch is likewise all-or-nothing, and is not modelled separately from a failed movie page.
- Writing and reading `searchTerms.json`, the JSON encoding, `express` routing and `listen` are not modelled. The server is given the index the crawl produced.
- `toLowerCase` is modelled on ASCII letters only. Other characters, including non-ASCII capitals, are left unchanged.
- The query side does not model lookups of inherited property names such as `"constructor"`. Such a lookup yields a non-array, which lodash `intersection` treats as an empty list. The model gives the same empty list for any word that is not a key.
- The `search` parameter given as an array or object (`?search=a&search=b`) is not modelled; it is a string or missing.
- lodash `intersection`'s early stop and its caching strategy are not modelled; only the value it returns is.
- Search.HandleImdb: the greeting is sent as text and the results as JSON; headers and content types are not modelled.

## Findings

| source | as written | input that shows it | evidently intended | confidence | as-written member | corrected member |
|---|---|---|---|---|---|---|
| src/crawl.js:41-52 | `searchTerms` is a plain `{}`. The words `constructor` and `__proto__` find inherited `Object.prototype` members, which are truthy and have no `push`, so the update throws and the crawl writes no index | a movie with a person named "Constructor" | every lower-cased word becomes a key, as in a dictionary (`Object.create(null)` or a `Map`) | not executed | Accumulate.ConstructorNameThrows | Accumulate.AsWrittenAgreesOffInheritedKeys |
| src/crawl.js:96 | `range(1, 20)` yields pages 1 to 19, so the last 50 movies of the top 1000 are never crawled | page 20 | `range(1, 21)`, the 20 list pages the header comment at src/crawl.js:9 announces | not executed | Extract.LastListPageSkipped | Extract.AdvertisedListPagesAre |
