/**
 * The index the crawler builds (src/crawl.js): the module-level object
 * `searchTerms`, mapping each lower-cased name word to the titles of the
 * movies whose people carry that word, and `addNamesToSearchTerms`, the one
 * operation that changes it.
 *
 * The functions below specify the index; the class `SearchTerms` holds it as
 * the crawler does and updates it in place with the same nested loops.
 */
module Accumulate {
  import opened Wrappers
  import opened Text
  import opened Extract

  /** A word-to-titles index, as the crawler writes it and the server reads it. */
  type Index = map<string, seq<string>>

  /** The list stored under `k`, or the empty list when `k` is not a key. */
  function ListOf(m: Index, k: string): seq<string>
  {
    if k in m then m[k] else []
  }

  /** `n` copies of `t`. */
  function Repeat(t: string, n: nat): (r: seq<string>)
    ensures |r| == n
  {
    if n == 0 then [] else Repeat(t, n - 1) + [t]
  }

  /** The keys one person name contributes: `name.split(' ')`, each word
      lower-cased, in order. */
  function WordsOf(name: string): (r: seq<string>)
    ensures forall i :: 0 <= i < |r| ==> IsLower(r[i])
  {
    LowerEach(Split(name, ' '))
  }

  /** A name's keys are the space-separated words of its lower-cased form,
      and none of them holds a space. */
  lemma WordsOfLoweredName(name: string)
    ensures WordsOf(name) == Split(Lower(name), ' ')
    ensures forall i :: 0 <= i < |WordsOf(name)| ==> ' ' !in WordsOf(name)[i]
  {
    LowerEachSplit(name);
    SplitPiecesFree(Lower(name), ' ');
  }

  /** The keys a list of names contributes, name after name. */
  function NameWords(names: seq<string>): (r: seq<string>)
    ensures |r| >= |names|
    ensures forall i :: 0 <= i < |r| ==> IsLower(r[i])
  {
    if names == [] then [] else NameWords(names[..|names| - 1]) + WordsOf(names[|names| - 1])
  }

  /** One step of the inner loop: append `t` under `w`, creating the list when
      `w` is not yet a key. */
  function AddWord(m: Index, w: string, t: string): Index
  {
    m[w := ListOf(m, w) + [t]]
  }

  /** The inner steps for the words `ws`, in order. */
  function AddWords(m: Index, ws: seq<string>, t: string): Index
  {
    if ws == [] then m else AddWord(AddWords(m, ws[..|ws| - 1], t), ws[|ws| - 1], t)
  }

  /** `t` occurs in `Repeat(t0, n)` exactly when there is a copy and it is `t`. */
  lemma {:induction false} InRepeat(t: string, t0: string, n: nat)
    ensures t in Repeat(t0, n) <==> n > 0 && t == t0
  {
    if n > 0 {
      InRepeat(t, t0, n - 1);
    }
  }

  /** Adding words in two batches is adding them all. */
  lemma {:induction false} AddWordsAppend(m: Index, a: seq<string>, b: seq<string>, t: string)
    ensures AddWords(m, a + b, t) == AddWords(AddWords(m, a, t), b, t)
    decreases |b|
  {
    if b == [] {
      assert a + b == a;
    } else {
      AddWordsAppend(m, a, b[..|b| - 1], t);
      assert (a + b)[..|a + b| - 1] == a + b[..|b| - 1];
      assert (a + b)[|a + b| - 1] == b[|b| - 1];
    }
  }

  /** One inner step touches only its own word. */
  lemma AddWordEffect(m: Index, w: string, t: string, k: string)
    ensures k in AddWord(m, w, t) <==> k in m || k == w
    ensures ListOf(AddWord(m, w, t), k) == if k == w then ListOf(m, k) + [t] else ListOf(m, k)
  {
  }

  /** After adding words, a word is a key exactly when it was one or is one
      of the words. */
  lemma {:induction false} AddWordsKeys(m: Index, ws: seq<string>, t: string, k: string)
    ensures k in AddWords(m, ws, t) <==> k in m || k in ws
    decreases |ws|
  {
    if ws != [] {
      var init, w := ws[..|ws| - 1], ws[|ws| - 1];
      AddWordsKeys(m, init, t, k);
      AddWordEffect(AddWords(m, init, t), w, t, k);
      assert ws == init + [w];
      assert k in ws <==> k in init || k == w;
    }
  }

  /** After adding words, the list under a key is its old list (empty when it
      was no key) followed by one `t` for each occurrence of the key among the
      words. */
  lemma {:induction false} AddWordsLists(m: Index, ws: seq<string>, t: string, k: string)
    ensures ListOf(AddWords(m, ws, t), k) == ListOf(m, k) + Repeat(t, multiset(ws)[k])
    decreases |ws|
  {
    if ws == [] {
      assert Repeat(t, 0) == [];
    } else {
      var init, w := ws[..|ws| - 1], ws[|ws| - 1];
      AddWordsLists(m, init, t, k);
      AddWordEffect(AddWords(m, init, t), w, t, k);
      CountLast(ws, k);
      if k == w {
        RepeatSnoc(ListOf(m, k), t, multiset(init)[k]);
      }
    }
  }

  lemma RepeatSnoc(p: seq<string>, t: string, n: nat)
    ensures p + Repeat(t, n) + [t] == p + Repeat(t, n + 1)
  {
  }

  /** Counting the last word of a non-empty word list separately. */
  lemma CountLast(ws: seq<string>, k: string)
    requires ws != []
    ensures multiset(ws)[k] == multiset(ws[..|ws| - 1])[k] + if k == ws[|ws| - 1] then 1 else 0
  {
    assert ws == ws[..|ws| - 1] + [ws[|ws| - 1]];
    assert multiset(ws) == multiset(ws[..|ws| - 1]) + multiset{ws[|ws| - 1]};
  }

  /** Both effects of adding words on one key. */
  lemma AddWordsEffect(m: Index, ws: seq<string>, t: string, k: string)
    ensures k in AddWords(m, ws, t) <==> k in m || k in ws
    ensures ListOf(AddWords(m, ws, t), k) == ListOf(m, k) + Repeat(t, multiset(ws)[k])
  {
    AddWordsKeys(m, ws, t, k);
    AddWordsLists(m, ws, t, k);
  }

  /** Lists only grow at their end: every title already stored keeps its
      position, and no key is lost. */
  lemma AddWordsGrowsAtEnd(m: Index, ws: seq<string>, t: string, k: string)
    requires k in m
    ensures k in AddWords(m, ws, t)
    ensures |m[k]| <= |AddWords(m, ws, t)[k]| && AddWords(m, ws, t)[k][..|m[k]|] == m[k]
  {
    AddWordsEffect(m, ws, t, k);
  }

  /** A key that is none of the words keeps exactly its old list, and a word
      that is no key stays absent. */
  lemma AddWordsOthersUnchanged(m: Index, ws: seq<string>, t: string, k: string)
    requires k !in ws
    ensures k in AddWords(m, ws, t) <==> k in m
    ensures k in m ==> AddWords(m, ws, t)[k] == m[k]
  {
    AddWordsEffect(m, ws, t, k);
    assert multiset(ws)[k] == 0;
  }

  /** The index the crawler keeps: every key lower-case, every list non-empty. */
  predicate ValidIndex(m: Index)
  {
    forall k :: k in m ==> IsLower(k) && m[k] != []
  }

  /** Adding lower-case words keeps the index valid. */
  lemma AddWordsKeepsValid(m: Index, ws: seq<string>, t: string)
    requires ValidIndex(m)
    requires forall i :: 0 <= i < |ws| ==> IsLower(ws[i])
    ensures ValidIndex(AddWords(m, ws, t))
  {
    var r := AddWords(m, ws, t);
    forall k | k in r ensures IsLower(k) && r[k] != [] {
      AddWordsEffect(m, ws, t, k);
      if k !in m {
        assert k in multiset(ws);
        assert |Repeat(t, multiset(ws)[k])| > 0;
      }
    }
  }

  /** The words of a list of names are the words of each name in turn. */
  lemma {:induction false} NameWordsAppend(a: seq<string>, b: seq<string>)
    ensures NameWords(a + b) == NameWords(a) + NameWords(b)
    decreases |b|
  {
    if b == [] {
      assert a + b == a;
    } else {
      NameWordsAppend(a, b[..|b| - 1]);
      assert (a + b)[..|a + b| - 1] == a + b[..|b| - 1];
      assert (a + b)[|a + b| - 1] == b[|b| - 1];
    }
  }

  /** A page without a director still adds its title under the empty word:
      the director slot is the empty name, and `"".split(' ')` is `[""]`. */
  lemma MissingDirectorAddsEmptyWord(m: Index, actors: seq<string>, t: string)
    ensures "" in AddWords(m, NameWords(PeopleNames(actors, "")), t)
    ensures t in AddWords(m, NameWords(PeopleNames(actors, "")), t)[""]
  {
    var ws := NameWords(PeopleNames(actors, ""));
    assert PeopleNames(actors, "")[..|actors|] == actors;
    assert WordsOf("") == [""];
    assert ws == NameWords(actors) + [""];
    AddWordsEffect(m, ws, t, "");
    assert "" in ws;
    assert multiset(ws)[""] > 0;
    InRepeat(t, t, multiset(ws)[""]);
  }

  /** A doubled space inside a name yields the empty word. */
  lemma DoubledSpaceYieldsEmptyWord(first: string, last: string)
    ensures "" in WordsOf(first + [' ', ' '] + last)
  {
    SplitAroundSeparator(first, [' '] + last, ' ');
    SplitAroundSeparator([], last, ' ');
    assert first + [' ', ' '] + last == first + [' '] + ([' '] + last);
    assert [' '] + last == [] + [' '] + last;
    var parts := Split(first + [' ', ' '] + last, ' ');
    assert parts == Split(first, ' ') + [[]] + Split(last, ' ');
    assert parts[|Split(first, ' ')|] == [];
    assert WordsOf(first + [' ', ' '] + last)[|Split(first, ' ')|] == Lower([]);
  }

  lemma AddWordsSnoc(m: Index, ws: seq<string>, w: string, t: string)
    ensures AddWords(m, ws + [w], t) == AddWord(AddWords(m, ws, t), w, t)
  {
    assert (ws + [w])[..|ws|] == ws;
  }

  lemma NameWordsSnoc(names: seq<string>, i: nat)
    requires i < |names|
    ensures NameWords(names[..i + 1]) == NameWords(names[..i]) + WordsOf(names[i])
  {
    assert names[..i + 1][..i] == names[..i];
  }

  lemma PrefixSnoc(a: seq<string>, b: seq<string>, j: nat)
    requires j < |b|
    ensures a + b[..j + 1] == (a + b[..j]) + [b[j]]
  {
    assert b[..j + 1] == b[..j] + [b[j]];
  }

  /** One step of the inner loop extends the words added so far by one. */
  lemma InnerStep(m: Index, before: seq<string>, lowered: seq<string>, j: nat, t: string)
    requires j < |lowered|
    ensures AddWords(m, before + lowered[..j + 1], t) == AddWord(AddWords(m, before + lowered[..j], t), lowered[j], t)
  {
    PrefixSnoc(before, lowered, j);
    AddWordsSnoc(m, before + lowered[..j], lowered[j], t);
  }

  /** The module-level `searchTerms` object of the crawler. */
  class SearchTerms {
    var terms: Index

    constructor ()
      ensures terms == map[]
    {
      terms := map[];
    }

    /** `addNamesToSearchTerms(names, title)`. */
    method AddNames(names: seq<string>, title: string)
      modifies this
      ensures terms == AddWords(old(terms), NameWords(names), title)
      ensures forall k :: k in terms <==> k in old(terms) || k in NameWords(names)
      ensures forall k :: ListOf(terms, k) == ListOf(old(terms), k) + Repeat(title, multiset(NameWords(names))[k])
      ensures ValidIndex(old(terms)) ==> ValidIndex(terms)
    {
      ghost var start := terms;
      for i := 0 to |names|
        invariant terms == AddWords(start, NameWords(names[..i]), title)
      {
        var words := Split(names[i], ' ');
        ghost var before := NameWords(names[..i]);
        ghost var lowered := LowerEach(words);
        assert lowered == WordsOf(names[i]);
        assert before + lowered[..0] == before;
        for j := 0 to |words|
          invariant terms == AddWords(start, before + lowered[..j], title)
        {
          var lower := Lower(words[j]);
          assert lowered[j] == lower;
          InnerStep(start, before, lowered, j, title);
          ghost var next := AddWord(terms, lower, title);
          assert [] + [title] == [title];
          if lower in terms {
            terms := terms[lower := terms[lower] + [title]];
          } else {
            terms := terms[lower := [title]];
          }
          assert terms == next;
        }
        assert lowered[..|words|] == lowered;
        NameWordsSnoc(names, i);
      }
      assert names[..|names|] == names;
      forall k
        ensures k in terms <==> k in start || k in NameWords(names)
        ensures ListOf(terms, k) == ListOf(start, k) + Repeat(title, multiset(NameWords(names))[k])
      {
        AddWordsEffect(start, NameWords(names), title, k);
      }
      if ValidIndex(start) {
        AddWordsKeepsValid(start, NameWords(names), title);
      }
    }
  }

  // ---------------------------------------------------------------------
  // The crawl as a sequential fold
  // ---------------------------------------------------------------------

  /** The index after the facts were added one after another, in the order
      their pages completed. */
  function IndexFacts(m: Index, facts: seq<Fact>): Index
  {
    if facts == [] then m
    else
      var f := facts[|facts| - 1];
      AddWords(IndexFacts(m, facts[..|facts| - 1]), NameWords(f.names), f.title)
  }

  /** `Promise.all` over the movie pages: all facts when every page yielded
      one, nothing as soon as one page did not. */
  function CollectFacts(outcomes: seq<Option<Fact>>): (r: Option<seq<Fact>>)
    ensures r.None? <==> exists i :: 0 <= i < |outcomes| && outcomes[i].None?
    ensures r.Some? ==> |r.value| == |outcomes|
    ensures r.Some? ==> forall i :: 0 <= i < |outcomes| ==> outcomes[i] == Some(r.value[i])
  {
    if outcomes == [] then Some([])
    else
      match CollectFacts(outcomes[..|outcomes| - 1])
      case None => None
      case Some(init) =>
        match outcomes[|outcomes| - 1]
        case None => None
        case Some(f) => Some(init + [f])
  }

  /** The index a crawl writes, or nothing when a page failed and the file is
      never written. */
  function Crawl(outcomes: seq<Option<Fact>>): (r: Option<Index>)
    ensures r.None? <==> exists i :: 0 <= i < |outcomes| && outcomes[i].None?
  {
    match CollectFacts(outcomes)
    case None => None
    case Some(facts) => Some(IndexFacts(map[], facts))
  }

  /** Some fact has `k` among its people's words. */
  predicate Mentions(facts: seq<Fact>, k: string)
  {
    exists i :: 0 <= i < |facts| && k in NameWords(facts[i].names)
  }

  /** Some fact titled `t` has `k` among its people's words. */
  predicate Credits(facts: seq<Fact>, k: string, t: string)
  {
    exists i :: 0 <= i < |facts| && facts[i].title == t && k in NameWords(facts[i].names)
  }

  lemma MentionsLast(facts: seq<Fact>, k: string)
    requires facts != []
    ensures Mentions(facts, k) <==>
      Mentions(facts[..|facts| - 1], k) || k in NameWords(facts[|facts| - 1].names)
  {
    var init := facts[..|facts| - 1];
    if Mentions(facts, k) {
      var i :| 0 <= i < |facts| && k in NameWords(facts[i].names);
      if i < |init| {
        assert init[i] == facts[i];
      }
    }
    if Mentions(init, k) {
      var i :| 0 <= i < |init| && k in NameWords(init[i].names);
      assert facts[i] == init[i];
    }
  }

  lemma CreditsLast(facts: seq<Fact>, k: string, t: string)
    requires facts != []
    ensures Credits(facts, k, t) <==>
      Credits(facts[..|facts| - 1], k, t)
      || (facts[|facts| - 1].title == t && k in NameWords(facts[|facts| - 1].names))
  {
    var init := facts[..|facts| - 1];
    if Credits(facts, k, t) {
      var i :| 0 <= i < |facts| && facts[i].title == t && k in NameWords(facts[i].names);
      if i < |init| {
        assert init[i] == facts[i];
      }
    }
    if Credits(init, k, t) {
      var i :| 0 <= i < |init| && init[i].title == t && k in NameWords(init[i].names);
      assert facts[i] == init[i];
    }
  }

  /** No key is lost: a word is a key of the crawled index exactly when it
      was a key before or is a word of some fact. */
  lemma {:induction false} IndexFactsKeys(m: Index, facts: seq<Fact>, k: string)
    ensures k in IndexFacts(m, facts) <==> k in m || Mentions(facts, k)
    decreases |facts|
  {
    if facts != [] {
      var init, f := facts[..|facts| - 1], facts[|facts| - 1];
      IndexFactsKeys(m, init, k);
      AddWordsKeys(IndexFacts(m, init), NameWords(f.names), f.title, k);
      MentionsLast(facts, k);
    }
  }

  /** No title is lost: a title is stored under a word exactly when it was
      before, or when some fact with that title has the word among its
      people's words. */
  lemma {:induction false} IndexFactsTitles(m: Index, facts: seq<Fact>, k: string, t: string)
    ensures t in ListOf(IndexFacts(m, facts), k) <==> t in ListOf(m, k) || Credits(facts, k, t)
    decreases |facts|
  {
    if facts != [] {
      var init, f := facts[..|facts| - 1], facts[|facts| - 1];
      var ws := NameWords(f.names);
      IndexFactsTitles(m, init, k, t);
      AddWordsLists(IndexFacts(m, init), ws, f.title, k);
      InRepeat(t, f.title, multiset(ws)[k]);
      CreditsLast(facts, k, t);
    }
  }

  lemma IndexFactsSnoc(m: Index, facts: seq<Fact>, f: Fact)
    ensures IndexFacts(m, facts + [f]) == AddWords(IndexFacts(m, facts), NameWords(f.names), f.title)
  {
    assert (facts + [f])[..|facts|] == facts;
  }

  /** Two facts added in either order leave the same keys, each holding the
      same titles with the same multiplicities. */
  lemma AddingFactsCommutes(m: Index, f: Fact, g: Fact)
    ensures forall k :: k in IndexFacts(m, [f, g]) <==> k in IndexFacts(m, [g, f])
    ensures forall k :: multiset(ListOf(IndexFacts(m, [f, g]), k)) == multiset(ListOf(IndexFacts(m, [g, f]), k))
  {
    TwoFacts(m, f, g);
    TwoFacts(m, g, f);
    forall k
      ensures k in IndexFacts(m, [f, g]) <==> k in IndexFacts(m, [g, f])
      ensures multiset(ListOf(IndexFacts(m, [f, g]), k)) == multiset(ListOf(IndexFacts(m, [g, f]), k))
    {
      CommuteAt(m, NameWords(f.names), f.title, NameWords(g.names), g.title, k);
    }
  }

  /** How many times the facts file `t` under `k`: one per occurrence of `k`
      among the words of each fact titled `t`. */
  function TitleCount(facts: seq<Fact>, k: string, t: string): nat
  {
    if facts == [] then 0
    else
      var f := facts[|facts| - 1];
      TitleCount(facts[..|facts| - 1], k, t) + if f.title == t then multiset(NameWords(f.names))[k] else 0
  }

  /** `t` occurs `n` times in `n` copies of itself and never in copies of another title. */
  lemma {:induction false} RepeatCount(t0: string, n: nat, t: string)
    ensures multiset(Repeat(t0, n))[t] == if t == t0 then n else 0
  {
    if n > 0 {
      RepeatCount(t0, n - 1, t);
    }
  }

  /** Per-key count closed form of the crawl: the list under `k` holds `t`
      as often as it did before plus once per occurrence of `k` among the
      words of each fact titled `t`. */
  lemma {:induction false} IndexFactsCount(m: Index, facts: seq<Fact>, k: string, t: string)
    ensures multiset(ListOf(IndexFacts(m, facts), k))[t] == multiset(ListOf(m, k))[t] + TitleCount(facts, k, t)
    decreases |facts|
  {
    if facts != [] {
      var init, f := facts[..|facts| - 1], facts[|facts| - 1];
      var ws := NameWords(f.names);
      IndexFactsCount(m, init, k, t);
      AddWordsLists(IndexFacts(m, init), ws, f.title, k);
      RepeatCount(f.title, multiset(ws)[k], t);
    }
  }

  lemma {:induction false} TitleCountAppend(a: seq<Fact>, b: seq<Fact>, k: string, t: string)
    ensures TitleCount(a + b, k, t) == TitleCount(a, k, t) + TitleCount(b, k, t)
    decreases |b|
  {
    if b == [] {
      assert a + b == a;
    } else {
      TitleCountAppend(a, b[..|b| - 1], k, t);
      assert (a + b)[..|a + b| - 1] == a + b[..|b| - 1];
    }
  }

  /** Taking one fact out of the middle takes its own count out. */
  lemma TitleCountRemove(b: seq<Fact>, j: nat, k: string, t: string)
    requires j < |b|
    ensures TitleCount(b, k, t) == TitleCount(b[..j] + b[j + 1..], k, t) + TitleCount([b[j]], k, t)
  {
    var before, after := b[..j], b[j + 1..];
    assert b == before + [b[j]] + after;
    TitleCountAppend(before + [b[j]], after, k, t);
    TitleCountAppend(before, [b[j]], k, t);
    TitleCountAppend(before, after, k, t);
  }

  /** Removing the same fact from two permutations of each other leaves
      permutations of each other. */
  lemma MultisetRemove(a: seq<Fact>, b: seq<Fact>, j: nat)
    requires a != [] && j < |b| && b[j] == a[|a| - 1]
    requires multiset(a) == multiset(b)
    ensures multiset(a[..|a| - 1]) == multiset(b[..j] + b[j + 1..])
  {
    var init, x := a[..|a| - 1], a[|a| - 1];
    var before, after := b[..j], b[j + 1..];
    assert a == init + [x];
    assert b == before + [x] + after;
    assert multiset(b) == multiset(before) + multiset{x} + multiset(after);
    assert multiset(a) == multiset(init) + multiset{x};
    assert multiset(before + after) == multiset(before) + multiset(after);
    forall y ensures multiset(before + after)[y] == multiset(init)[y] {
      assert multiset(a)[y] == multiset(b)[y];
    }
  }

  /** The count depends only on which facts there are, not on their order. */
  lemma {:induction false} TitleCountPermutation(a: seq<Fact>, b: seq<Fact>, k: string, t: string)
    requires multiset(a) == multiset(b)
    ensures TitleCount(a, k, t) == TitleCount(b, k, t)
    decreases |a|
  {
    if a == [] {
      assert |b| == |multiset(b)| == 0;
    } else {
      var init, x := a[..|a| - 1], a[|a| - 1];
      assert x in multiset(b) by { assert a == init + [x]; }
      var j :| 0 <= j < |b| && b[j] == x;
      MultisetRemove(a, b, j);
      TitleCountPermutation(init, b[..j] + b[j + 1..], k, t);
      TitleCountRemove(b, j, k, t);
      TitleCountAppend(init, [x], k, t);
      assert init + [x] == a;
    }
  }

  /** The order in which the movie pages complete does not matter: any
      reordering of the facts leaves the same keys, and every key holds
      every title as many times. */
  lemma CompletionOrderIrrelevant(m: Index, facts: seq<Fact>, other: seq<Fact>, k: string, t: string)
    requires multiset(facts) == multiset(other)
    ensures k in IndexFacts(m, facts) <==> k in IndexFacts(m, other)
    ensures multiset(ListOf(IndexFacts(m, facts), k))[t] == multiset(ListOf(IndexFacts(m, other), k))[t]
  {
    IndexFactsKeys(m, facts, k);
    IndexFactsKeys(m, other, k);
    if Mentions(facts, k) {
      var i :| 0 <= i < |facts| && k in NameWords(facts[i].names);
      assert facts[i] in multiset(other);
      var j :| 0 <= j < |other| && other[j] == facts[i];
    }
    if Mentions(other, k) {
      var i :| 0 <= i < |other| && k in NameWords(other[i].names);
      assert other[i] in multiset(facts);
      var j :| 0 <= j < |facts| && facts[j] == other[i];
    }
    IndexFactsCount(m, facts, k, t);
    IndexFactsCount(m, other, k, t);
    TitleCountPermutation(facts, other, k, t);
  }

  lemma TwoFacts(m: Index, f: Fact, g: Fact)
    ensures IndexFacts(m, [f, g])
         == AddWords(AddWords(m, NameWords(f.names), f.title), NameWords(g.names), g.title)
  {
    assert [f, g][..1] == [f];
    assert [f][..0] == [];
    assert IndexFacts(m, [f]) == AddWords(m, NameWords(f.names), f.title);
  }

  /** Two batches of words added in either order agree on one key. */
  lemma CommuteAt(m: Index, a: seq<string>, ta: string, b: seq<string>, tb: string, k: string)
    ensures k in AddWords(AddWords(m, a, ta), b, tb) <==> k in AddWords(AddWords(m, b, tb), a, ta)
    ensures multiset(ListOf(AddWords(AddWords(m, a, ta), b, tb), k))
         == multiset(ListOf(AddWords(AddWords(m, b, tb), a, ta), k))
  {
    var ma, mb := AddWords(m, a, ta), AddWords(m, b, tb);
    AddWordsEffect(m, a, ta, k);
    AddWordsEffect(m, b, tb, k);
    AddWordsEffect(ma, b, tb, k);
    AddWordsEffect(mb, a, ta, k);
    var p, ra, rb := ListOf(m, k), Repeat(ta, multiset(a)[k]), Repeat(tb, multiset(b)[k]);
    assert multiset(p + ra + rb) == multiset(p) + multiset(ra) + multiset(rb);
    assert multiset(p + rb + ra) == multiset(p) + multiset(rb) + multiset(ra);
  }

  // ---------------------------------------------------------------------
  // The index as a plain JavaScript object
  // ---------------------------------------------------------------------

  /** The lower-case property names every `{}` inherits from
      `Object.prototype`: `searchTerms[w]` is truthy for them even when `w`
      was never stored, and what it holds has no `push`. */
  const InheritedKeys: set<string> := {"constructor", "__proto__"}

  /** The inner step as written, on a `{}` object: a word that is no key but
      an inherited property name reaches `.push` on a non-array and throws. */
  function AddWordAsWritten(m: Index, w: string, t: string): Option<Index>
  {
    if w !in m && w in InheritedKeys then None else Some(AddWord(m, w, t))
  }

  function AddWordsAsWritten(m: Index, ws: seq<string>, t: string): Option<Index>
  {
    if ws == [] then Some(m)
    else
      match AddWordsAsWritten(m, ws[..|ws| - 1], t)
      case None => None
      case Some(m') => AddWordAsWritten(m', ws[|ws| - 1], t)
  }

  lemma ConstructorWords()
    ensures NameWords(["Constructor"]) == ["constructor"]
  {
    assert "Constructor" == ['C'] + "onstructor";
    LowerCons('C', "onstructor");
    LowerIdempotent("onstructor");
    assert Lower("Constructor") == "constructor";
    SplitNoSeparator("constructor", ' ');
    assert ["Constructor"][..0] == [];
  }

  /** An actor whose name has the word "Constructor" makes the as-written
      step throw, although a dictionary would simply record the word. */
  lemma ConstructorNameThrows()
    ensures AddWordsAsWritten(map[], NameWords(["Constructor"]), "Dune") == None
    ensures "constructor" in AddWords(map[], NameWords(["Constructor"]), "Dune")
  {
    ConstructorWords();
    assert ["constructor"][..0] == [];
  }

  /** Away from the inherited names the written step is the dictionary step
      the rest of this model uses. */
  lemma {:induction false} AsWrittenAgreesOffInheritedKeys(m: Index, ws: seq<string>, t: string)
    requires forall i :: 0 <= i < |ws| ==> ws[i] !in InheritedKeys
    ensures AddWordsAsWritten(m, ws, t) == Some(AddWords(m, ws, t))
    decreases |ws|
  {
    if ws != [] {
      AsWrittenAgreesOffInheritedKeys(m, ws[..|ws| - 1], t);
    }
  }

  /** No inherited property name is an own key of `m`. */
  predicate NoInheritedKey(m: Index)
  {
    forall k :: k in InheritedKeys ==> k !in m
  }

  /** Starting from an object without inherited names as own keys, the
      written step succeeds exactly when no word is an inherited name, and
      it never stores one. */
  lemma {:induction false} AsWrittenSucceeds(m: Index, ws: seq<string>, t: string)
    requires NoInheritedKey(m)
    ensures AddWordsAsWritten(m, ws, t).Some? <==> forall i :: 0 <= i < |ws| ==> ws[i] !in InheritedKeys
    ensures AddWordsAsWritten(m, ws, t).Some? ==> NoInheritedKey(AddWordsAsWritten(m, ws, t).value)
    decreases |ws|
  {
    if ws != [] {
      var init, w := ws[..|ws| - 1], ws[|ws| - 1];
      AsWrittenSucceeds(m, init, t);
      if forall i :: 0 <= i < |ws| ==> ws[i] !in InheritedKeys {
        assert forall i :: 0 <= i < |init| ==> init[i] !in InheritedKeys by {
          forall i | 0 <= i < |init| ensures init[i] !in InheritedKeys {
            assert init[i] == ws[i];
          }
        }
      } else if AddWordsAsWritten(m, init, t).Some? {
        forall j | 0 <= j < |init| ensures ws[j] !in InheritedKeys {
          assert ws[j] == init[j];
        }
        assert w in InheritedKeys;
      }
    }
  }

  /** Every word of every fact avoids the inherited property names. */
  predicate AvoidsInheritedKeys(facts: seq<Fact>)
  {
    forall i :: 0 <= i < |facts| ==> forall w :: w in NameWords(facts[i].names) ==> w !in InheritedKeys
  }

  /** The crawl's updates as written, one movie after another; nothing once
      an update throws. */
  function IndexFactsAsWritten(m: Index, facts: seq<Fact>): Option<Index>
  {
    if facts == [] then Some(m)
    else
      var f := facts[|facts| - 1];
      match IndexFactsAsWritten(m, facts[..|facts| - 1])
      case None => None
      case Some(m') => AddWordsAsWritten(m', NameWords(f.names), f.title)
  }

  /** The written crawl from `{}` succeeds exactly when no movie has an
      inherited property name among its words, and then builds the
      dictionary index. */
  lemma {:induction false} IndexFactsAsWrittenAgrees(facts: seq<Fact>)
    ensures IndexFactsAsWritten(map[], facts).Some? <==> AvoidsInheritedKeys(facts)
    ensures IndexFactsAsWritten(map[], facts).Some? ==>
      IndexFactsAsWritten(map[], facts).value == IndexFacts(map[], facts)
      && NoInheritedKey(IndexFactsAsWritten(map[], facts).value)
    decreases |facts|
  {
    if facts != [] {
      var init, f := facts[..|facts| - 1], facts[|facts| - 1];
      var ws := NameWords(f.names);
      IndexFactsAsWrittenAgrees(init);
      assert AvoidsInheritedKeys(facts) <==> AvoidsInheritedKeys(init) && forall w :: w in ws ==> w !in InheritedKeys by {
        if AvoidsInheritedKeys(init) && forall w :: w in ws ==> w !in InheritedKeys {
          forall i | 0 <= i < |facts| ensures forall w :: w in NameWords(facts[i].names) ==> w !in InheritedKeys {
            if i < |init| {
              assert facts[i] == init[i];
            }
          }
        }
        if AvoidsInheritedKeys(facts) {
          forall i | 0 <= i < |init| ensures forall w :: w in NameWords(init[i].names) ==> w !in InheritedKeys {
            assert facts[i] == init[i];
          }
        }
      }
      match IndexFactsAsWritten(map[], init)
      case None =>
      case Some(m') =>
        AsWrittenSucceeds(m', ws, f.title);
        if forall i :: 0 <= i < |ws| ==> ws[i] !in InheritedKeys {
          AsWrittenAgreesOffInheritedKeys(m', ws, f.title);
        }
    }
  }

  /** The crawl as written: nothing when a page failed or when an update hit
      an inherited property name. */
  function CrawlAsWritten(outcomes: seq<Option<Fact>>): Option<Index>
  {
    match CollectFacts(outcomes)
    case None => None
    case Some(facts) => IndexFactsAsWritten(map[], facts)
  }

  /** The written crawl writes an index exactly when every page yielded a
      fact and no fact's words include an inherited property name; that
      index is the one the dictionary crawl writes. */
  lemma CrawlAsWrittenAgrees(outcomes: seq<Option<Fact>>)
    ensures CrawlAsWritten(outcomes).Some? <==>
      CollectFacts(outcomes).Some? && AvoidsInheritedKeys(CollectFacts(outcomes).value)
    ensures CrawlAsWritten(outcomes).Some? ==> CrawlAsWritten(outcomes) == Crawl(outcomes)
  {
    if CollectFacts(outcomes).Some? {
      IndexFactsAsWrittenAgrees(CollectFacts(outcomes).value);
    }
  }
}
