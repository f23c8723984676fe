/** The remote lookups of `app/wiki_diki.py` around their network calls: each answer is
    computed from the outcome of its requests (given here as parameters) and memoised in
    the time-to-live cache. Each lookup reads the clock twice: `now` when it reads the
    cache, and `written` when it writes the cache, after its requests. */
module WikiLookup {
  import opened Wrappers
  import opened Text
  import opened WikiText
  import opened TtlCache

  // ---------------- resolve_en_title ----------------

  /** The cache value of an optional title. */
  function TitleValue(t: Option<string>): Value {
    match t
    case None => NoneValue
    case Some(s) => StrValue(s)
  }

  /** `resolve_en_title(term_or_url)`, with `search` the title the remote search finds
      (`None` when the request fails or finds nothing). */
  method ResolveEnTitle(cache: Cache, termOrUrl: string, search: Option<string>, now: int,
                        written: int)
    returns (r: Value)
    modifies cache
    ensures (r, cache.store)
         == Memo(old(cache.store), AKey("resolve_en_title", [StrArg(termOrUrl)]), now, written,
                 TitleValue(ResolveTitle(termOrUrl, search)))
  {
    var cached := cache.CacheGet("resolve_en_title", [StrArg(termOrUrl)], now);
    if cached != NoneValue {
      return cached;
    }
    var s := Strip(termOrUrl, Whitespace);
    var m := ArticleName(s);
    if m.Some? {
      var title := DecodeTitle(m.value);
      cache.CacheSet("resolve_en_title", StrValue(title), [StrArg(termOrUrl)], written);
      return StrValue(title);
    }
    if s == [] {
      cache.CacheSet("resolve_en_title", NoneValue, [StrArg(termOrUrl)], written);
      return NoneValue;
    }
    r := TitleValue(search);
    cache.CacheSet("resolve_en_title", r, [StrArg(termOrUrl)], written);
  }

  // ---------------- english_to_polish_wikipedia ----------------

  /** A Polish article: its title and URL. */
  datatype Link = Link(title: string, url: string)

  /** `english_to_polish_wikipedia(en_title)`: the first Polish language link of the
      English article when that request yields one, otherwise the Polish site link from
      Wikidata; `None` for an empty title or when both fail. */
  function CrossReference(enTitle: string, langlink: Option<Link>, wikidata: Option<Link>): Value {
    if enTitle == [] then NoneValue
    else if langlink.Some? then PolishArticle(enTitle, langlink.value.title, langlink.value.url)
    else if wikidata.Some? then PolishArticle(enTitle, wikidata.value.title, wikidata.value.url)
    else NoneValue
  }

  /** The answer is `None` or a record of the English title asked about; a language link
      wins over Wikidata, and Wikidata is used only without one. */
  lemma CrossReferenceShape(enTitle: string, langlink: Option<Link>, wikidata: Option<Link>)
    ensures var r := CrossReference(enTitle, langlink, wikidata);
      && (r == NoneValue || (r.PolishArticle? && r.enTitle == enTitle))
      && (r == NoneValue <==> enTitle == [] || (langlink == None && wikidata == None))
      && (enTitle != [] && langlink.Some? ==> r.plTitle == langlink.value.title && r.plUrl == langlink.value.url)
      && (enTitle != [] && langlink == None && wikidata.Some? ==>
            r.plTitle == wikidata.value.title && r.plUrl == wikidata.value.url)
  {
  }

  method EnglishToPolishWikipedia(cache: Cache, enTitle: string, langlink: Option<Link>,
                                  wikidata: Option<Link>, now: int, written: int)
    returns (r: Value)
    modifies cache
    ensures (r, cache.store)
         == Memo(old(cache.store), AKey("english_to_polish_wikipedia", [StrArg(enTitle)]), now, written,
                 CrossReference(enTitle, langlink, wikidata))
  {
    var cached := cache.CacheGet("english_to_polish_wikipedia", [StrArg(enTitle)], now);
    if cached != NoneValue {
      return cached;
    }
    if enTitle == [] {
      cache.CacheSet("english_to_polish_wikipedia", NoneValue, [StrArg(enTitle)], written);
      return NoneValue;
    }
    if langlink.Some? {
      r := PolishArticle(enTitle, langlink.value.title, langlink.value.url);
      cache.CacheSet("english_to_polish_wikipedia", r, [StrArg(enTitle)], written);
      return r;
    }
    if wikidata.Some? {
      r := PolishArticle(enTitle, wikidata.value.title, wikidata.value.url);
      cache.CacheSet("english_to_polish_wikipedia", r, [StrArg(enTitle)], written);
      return r;
    }
    cache.CacheSet("english_to_polish_wikipedia", NoneValue, [StrArg(enTitle)], written);
    return NoneValue;
  }

  /** `english_to_polish_wikipedia(en_title)` as written, where every `_cache_set` call
      raises `TypeError`. An exception inside the language-link `try` is passed over, so a
      failed write there falls through to Wikidata; an exception inside the Wikidata `try`
      is handled by storing `None`, whose write raises in turn and leaves the function. */
  function EnglishToPolishAsWritten(store: Store, enTitle: string, langlink: Option<Link>,
                                    wikidata: Option<Link>, now: int, written: int): Outcome
  {
    var k := AKey("english_to_polish_wikipedia", [StrArg(enTitle)]);
    var (cached, s) := Get(store, k, now);
    if cached != NoneValue then Returned(cached, s)
    else if enTitle == [] then SetAndReturnAsWritten(s, k, written, NoneValue)
    else
      // Without a language link the first step neither returns nor raises out of its `try`.
      var first :=
        if langlink.Some? then SetAndReturnAsWritten(s, k, written, PolishArticle(enTitle, langlink.value.title, langlink.value.url))
        else Raised(s);
      if first.Returned? then first
      else
        var second :=
          if wikidata.Some? then SetAndReturnAsWritten(s, k, written, PolishArticle(enTitle, wikidata.value.title, wikidata.value.url))
          else Raised(s);
        if second.Returned? then second else SetAndReturnAsWritten(s, k, written, NoneValue)
  }

  /** As written, a cross-reference that misses the cache raises whichever request
      succeeds, and nothing is stored; a hit is answered as the corrected lookup answers
      it. */
  lemma EnglishToPolishAsWrittenRaises(store: Store, enTitle: string, langlink: Option<Link>,
                                       wikidata: Option<Link>, now: int, written: int)
    ensures var k := AKey("english_to_polish_wikipedia", [StrArg(enTitle)]);
      var o := EnglishToPolishAsWritten(store, enTitle, langlink, wikidata, now, written);
      && (o.Raised? <==> Get(store, k, now).0 == NoneValue)
      && o.store == Get(store, k, now).1
      && (o.Returned? ==> (o.value, o.store) == Memo(store, k, now, written, CrossReference(enTitle, langlink, wikidata)))
  {
    var k := AKey("english_to_polish_wikipedia", [StrArg(enTitle)]);
    var s := Get(store, k, now).1;
    CacheSetAsWrittenRaises(s, k, written, NoneValue);
    if langlink.Some? {
      CacheSetAsWrittenRaises(s, k, written, PolishArticle(enTitle, langlink.value.title, langlink.value.url));
    }
    if wikidata.Some? {
      CacheSetAsWrittenRaises(s, k, written, PolishArticle(enTitle, wikidata.value.title, wikidata.value.url));
    }
  }

  /** The three lookups that write once per miss (`resolve_en_title`, `diki_lookup`,
      `proz_lookup`) raise on every miss as written, and store nothing. */
  lemma LookupsAsWrittenRaise(store: Store, termOrUrl: string, englishTerm: string, maxResults: int,
                              now: int, written: int, computed: Value)
    ensures var k := AKey("resolve_en_title", [StrArg(termOrUrl)]);
      Get(store, k, now).0 == NoneValue ==> MemoAsWritten(store, k, now, written, computed) == Raised(Get(store, k, now).1)
    ensures var k := AKey("diki_lookup", [StrArg(englishTerm)]);
      Get(store, k, now).0 == NoneValue ==> MemoAsWritten(store, k, now, written, computed) == Raised(Get(store, k, now).1)
    ensures var k := AKey("proz_lookup", [StrArg(englishTerm), IntArg(maxResults)]);
      Get(store, k, now).0 == NoneValue ==> MemoAsWritten(store, k, now, written, computed) == Raised(Get(store, k, now).1)
  {
    MemoAsWrittenNeverStores(store, AKey("resolve_en_title", [StrArg(termOrUrl)]), now, written, computed);
    MemoAsWrittenNeverStores(store, AKey("diki_lookup", [StrArg(englishTerm)]), now, written, computed);
    MemoAsWrittenNeverStores(store, AKey("proz_lookup", [StrArg(englishTerm), IntArg(maxResults)]), now, written, computed);
  }

  // ---------------- diki_lookup ----------------

  /** One `li` node of a Diki page: the texts of its `a.plainLink` links, of its `span.hw`
      headwords, and its whole text content. */
  datatype Li = Li(plainLinks: seq<string>, headwords: seq<string>, text: string)

  /** A parsed Diki page: the `li` nodes under `ol.foreignToNativeMeanings`, and the `li`
      nodes of class `meaning` or `dictionaryEntry`. */
  datatype DikiPage = DikiPage(meanings: seq<Li>, entries: seq<Li>)

  /** The characters `re.split(r"[;,—–-]", ...)` splits at. */
  const TokenSeparators: set<char> := {';', ',', '\U{2014}', '\U{2013}', '-'}

  /** The usage markers that never count as translations ("e.g.", "etc."). */
  const Stopwords: set<string> := {"np.", "np", "itp.", "itd."}

  /** `re.split(r"[;,—–-]", s, maxsplit=1)[0]`: the text before the first separator. */
  function FirstToken(s: string): (r: string)
    ensures r <= s && forall c :: c in r ==> c !in TokenSeparators
    ensures |r| < |s| ==> s[|r|] in TokenSeparators
  {
    s[..FirstIn(s, TokenSeparators)]
  }

  /** The nodes the lookup reads: the meanings list, or the entries when it is empty. */
  function LiNodes(page: DikiPage): seq<Li> {
    if page.meanings != [] then page.meanings else page.entries
  }

  /** What one node offers to `add`, in order: its links, its headwords, and the first
      token of its text with parenthesised spans removed. */
  function LiCandidates(li: Li): seq<string> {
    li.plainLinks + li.headwords + [FirstToken(StripParentheticals(li.text))]
  }

  function Candidates(lis: seq<Li>): seq<string> {
    if lis == [] then [] else Candidates(lis[..|lis| - 1]) + LiCandidates(lis[|lis| - 1])
  }

  /** The test inside `add`, on a value already cleaned: it is appended unless it is
      empty, a stopword in any letter case, or already present. */
  function Keep(results: seq<string>, v: string): seq<string> {
    if v == [] || Lower(v) in Stopwords || v in results then results else results + [v]
  }

  /** The inner `add(val)`: clean the value, then keep it or not. */
  function DikiAdd(results: seq<string>, val: string): seq<string> {
    Keep(results, CleanText(val))
  }

  /** The cleaned form of each value, in order. */
  function CleanEach(vals: seq<string>): (r: seq<string>)
    ensures |r| == |vals|
  {
    if vals == [] then [] else CleanEach(vals[..|vals| - 1]) + [CleanText(vals[|vals| - 1])]
  }

  /** Item `i` of `CleanEach(vals)` is the cleaned `vals[i]`. */
  lemma {:induction false} CleanEachAt(vals: seq<string>, i: nat)
    requires i < |vals|
    ensures CleanEach(vals)[i] == CleanText(vals[i])
    decreases |vals|
  {
    var rest := vals[..|vals| - 1];
    var cs := CleanEach(rest) + [CleanText(vals[|vals| - 1])];
    assert CleanEach(vals) == cs;
    if i < |rest| {
      CleanEachAt(rest, i);
      assert cs[i] == CleanEach(rest)[i];
      assert vals[i] == rest[i];
    } else {
      assert cs[i] == CleanText(vals[i]);
    }
  }

  /** The results after `Keep` has been applied to each cleaned value in turn. */
  function KeepAll(cs: seq<string>): seq<string> {
    if cs == [] then [] else Keep(KeepAll(cs[..|cs| - 1]), cs[|cs| - 1])
  }

  /** The results after `add` has been applied to each of `vals` in turn. */
  function Added(vals: seq<string>): seq<string> {
    KeepAll(CleanEach(vals))
  }

  /** A cleaned value `add` keeps: non-empty and not a stopword. */
  predicate Admitted(v: string) {
    v != [] && Lower(v) !in Stopwords
  }

  /** What `Keep` keeps is distinct, admitted and taken from the values it was given. */
  lemma {:induction false} KeepAllShape(cs: seq<string>)
    ensures NoDuplicates(KeepAll(cs))
    ensures forall r :: r in KeepAll(cs) ==> Admitted(r) && r in cs
    decreases |cs|
  {
    if cs != [] {
      var rest := cs[..|cs| - 1];
      KeepAllShape(rest);
      assert forall r :: r in rest ==> r in cs;
    }
  }

  /** Every admitted value given to `Keep` is among its results. */
  lemma {:induction false} KeepAllComplete(cs: seq<string>)
    ensures forall k :: 0 <= k < |cs| && Admitted(cs[k]) ==> cs[k] in KeepAll(cs)
    decreases |cs|
  {
    if cs != [] {
      var rest := cs[..|cs| - 1];
      KeepAllComplete(rest);
      forall k | 0 <= k < |cs| && Admitted(cs[k]) ensures cs[k] in KeepAll(cs) {
        if k < |rest| {
          assert cs[k] == rest[k];
        }
      }
    }
  }

  /** `Keep` only appends: the results for a prefix of the values are a prefix of the
      results for all of them. */
  lemma {:induction false} KeepAllPrefix(cs: seq<string>, i: nat)
    requires i <= |cs|
    ensures KeepAll(cs[..i]) <= KeepAll(cs)
    decreases |cs|
  {
    if i < |cs| {
      var rest := cs[..|cs| - 1];
      assert cs[..i] == rest[..i];
      KeepAllPrefix(rest, i);
    } else {
      assert cs[..i] == cs;
    }
  }

  /** Cleaned values are clean. */
  lemma {:induction false} CleanEachClean(vals: seq<string>)
    ensures forall c :: c in CleanEach(vals) ==> CleanText(c) == c
    decreases |vals|
  {
    if vals != [] {
      CleanEachClean(vals[..|vals| - 1]);
      CleanTextIdempotent(vals[|vals| - 1]);
    }
  }

  /** Cleaning a prefix of the values gives a prefix of the cleaned values. */
  lemma {:induction false} CleanEachPrefix(vals: seq<string>, i: nat)
    requires i <= |vals|
    ensures CleanEach(vals[..i]) == CleanEach(vals)[..i]
    decreases |vals|
  {
    if i < |vals| {
      var rest := vals[..|vals| - 1];
      assert vals[..i] == rest[..i];
      CleanEachPrefix(rest, i);
      assert CleanEach(vals)[..|rest|] == CleanEach(rest);
    } else {
      assert vals[..i] == vals;
    }
  }

  /** A result the lookup may return: clean, non-empty and not a stopword. */
  predicate Acceptable(r: string) {
    Admitted(r) && CleanText(r) == r
  }

  /** Every result is acceptable and none is repeated. */
  lemma AddedShape(vals: seq<string>)
    ensures NoDuplicates(Added(vals))
    ensures forall r :: r in Added(vals) ==> Acceptable(r)
  {
    KeepAllShape(CleanEach(vals));
    CleanEachClean(vals);
  }

  /** `add` only ever appends, so results keep the order in which they were first seen. */
  lemma AddedPrefix(vals: seq<string>, i: nat)
    requires i <= |vals|
    ensures Added(vals[..i]) <= Added(vals)
  {
    var cs := CleanEach(vals);
    CleanEachPrefix(vals, i);
    KeepAllPrefix(cs, i);
  }

  /** Every value whose cleaned form is admitted ends up among the results. */
  lemma AddedComplete(vals: seq<string>)
    ensures forall k :: 0 <= k < |vals| && Admitted(CleanText(vals[k])) ==> CleanText(vals[k]) in Added(vals)
  {
    KeepAllComplete(CleanEach(vals));
    forall k | 0 <= k < |vals| && Admitted(CleanText(vals[k])) ensures CleanText(vals[k]) in Added(vals) {
      CleanEachAt(vals, k);
    }
  }

  /** Every result is the cleaned form of some value. */
  lemma AddedSound(vals: seq<string>)
    ensures forall r :: r in Added(vals) ==> exists k :: 0 <= k < |vals| && CleanText(vals[k]) == r
  {
    var cs := CleanEach(vals);
    KeepAllShape(cs);
    forall r | r in Added(vals) ensures exists k :: 0 <= k < |vals| && CleanText(vals[k]) == r {
      var k :| 0 <= k < |cs| && cs[k] == r;
      CleanEachAt(vals, k);
    }
  }

  /** The non-empty items, in order (`... for x in results if x`). */
  function NonEmpty(xs: seq<string>): seq<string> {
    if xs == [] then []
    else
      var rest := NonEmpty(xs[..|xs| - 1]);
      if xs[|xs| - 1] == [] then rest else rest + [xs[|xs| - 1]]
  }

  /** A list of non-empty items is its own non-empty part. */
  lemma {:induction false} NonEmptyKeeps(xs: seq<string>)
    requires forall i :: 0 <= i < |xs| ==> xs[i] != []
    ensures NonEmpty(xs) == xs
    decreases |xs|
  {
    if xs != [] {
      var rest := xs[..|xs| - 1];
      NonEmptyKeeps(rest);
      assert xs == rest + [xs[|xs| - 1]];
    }
  }

  /** `[_clean_text(x) for x in results if x]`. */
  function CleanAll(xs: seq<string>): seq<string> {
    CleanEach(NonEmpty(xs))
  }

  /** `list(dict.fromkeys(xs))`: the first occurrence of each item, in order. */
  function Dedupe<T(==)>(xs: seq<T>): seq<T> {
    if xs == [] then []
    else
      var rest := Dedupe(xs[..|xs| - 1]);
      if xs[|xs| - 1] in rest then rest else rest + [xs[|xs| - 1]]
  }

  /** `dict.fromkeys` keeps every item once and adds nothing. */
  lemma {:induction false} DedupeSpec<T>(xs: seq<T>)
    ensures NoDuplicates(Dedupe(xs))
    ensures forall x :: x in Dedupe(xs) <==> x in xs
    decreases |xs|
  {
    if xs != [] {
      var rest := xs[..|xs| - 1];
      DedupeSpec(rest);
      assert xs == rest + [xs[|xs| - 1]];
    }
  }

  /** A list without repeats passes through `dict.fromkeys` unchanged. */
  lemma {:induction false} DedupeDistinct<T>(xs: seq<T>)
    requires NoDuplicates(xs)
    ensures Dedupe(xs) == xs
    decreases |xs|
  {
    if xs != [] {
      var rest := xs[..|xs| - 1];
      DedupeDistinct(rest);
      assert xs[|xs| - 1] !in rest by {
        forall i | 0 <= i < |rest| ensures rest[i] != xs[|xs| - 1] {
          assert rest[i] == xs[i];
        }
      }
      assert xs == rest + [xs[|xs| - 1]];
    }
  }

  /** Cleaning a list of acceptable strings changes nothing. */
  lemma CleanAllClean(xs: seq<string>)
    requires forall i :: 0 <= i < |xs| ==> Acceptable(xs[i])
    ensures CleanAll(xs) == xs
  {
    NonEmptyKeeps(xs);
    forall i | 0 <= i < |xs| ensures CleanEach(xs)[i] == xs[i] {
      CleanEachAt(xs, i);
      assert Acceptable(xs[i]);
    }
  }

  /** The final re-clean and `dict.fromkeys` step of `diki_lookup`. */
  function FinalPass(results: seq<string>): seq<string> {
    Dedupe(CleanAll(results))
  }

  /** The final pass leaves the accumulated results exactly as they are. */
  lemma FinalPassKeeps(vals: seq<string>)
    ensures FinalPass(Added(vals)) == Added(vals)
  {
    AddedShape(vals);
    var added := Added(vals);
    assert forall i :: 0 <= i < |added| ==> added[i] in added;
    CleanAllClean(added);
    DedupeDistinct(Added(vals));
  }

  /** `diki_lookup(english_term)`, with `page` the parsed page (`None` when the request
      or the parse fails). */
  function DikiResults(englishTerm: string, page: Option<DikiPage>): seq<string> {
    if Strip(englishTerm, Whitespace) == [] then []
    else if page == None then []
    else FinalPass(Added(Candidates(LiNodes(page.value))))
  }

  /** The results of a Diki lookup are acceptable, distinct, and exactly the kept
      cleaned candidates of the nodes read. */
  lemma DikiResultsShape(englishTerm: string, page: Option<DikiPage>)
    ensures var r := DikiResults(englishTerm, page);
      && NoDuplicates(r)
      && (forall x :: x in r ==> Acceptable(x))
      && (Strip(englishTerm, Whitespace) != [] && page.Some? ==> r == Added(Candidates(LiNodes(page.value))))
  {
    if Strip(englishTerm, Whitespace) != [] && page.Some? {
      var vals := Candidates(LiNodes(page.value));
      FinalPassKeeps(vals);
      AddedShape(vals);
    }
  }

  /** Adding one more value is one more call of `add`. */
  lemma AddedSnoc(vals: seq<string>, v: string)
    ensures Added(vals + [v]) == DikiAdd(Added(vals), v)
  {
    assert (vals + [v])[..|vals|] == vals;
    assert CleanEach(vals + [v]) == CleanEach(vals) + [CleanText(v)];
    assert (CleanEach(vals) + [CleanText(v)])[..|vals|] == CleanEach(vals);
  }

  /** The candidates of one more node follow those of the nodes before it. */
  lemma CandidatesSnoc(lis: seq<Li>, i: nat)
    requires i < |lis|
    ensures Candidates(lis[..i + 1])
         == Candidates(lis[..i]) + lis[i].plainLinks + lis[i].headwords
            + [FirstToken(StripParentheticals(lis[i].text))]
  {
    assert lis[..i + 1][..i] == lis[..i];
    var before, li := Candidates(lis[..i]), lis[i];
    var tok := [FirstToken(StripParentheticals(li.text))];
    assert before + (li.plainLinks + li.headwords + tok) == before + li.plainLinks + li.headwords + tok;
  }

  /** Adding the values of `more` one at a time, as a loop does. */
  lemma AddedExtend(vals: seq<string>, more: seq<string>, j: nat)
    requires j < |more|
    ensures Added(vals + more[..j + 1]) == DikiAdd(Added(vals + more[..j]), more[j])
  {
    assert vals + more[..j + 1] == (vals + more[..j]) + [more[j]];
    AddedSnoc(vals + more[..j], more[j]);
  }

  /** The nested loops over the nodes and their links and headwords, calling `add`. */
  method CollectDiki(lis: seq<Li>) returns (results: seq<string>)
    ensures results == Added(Candidates(lis))
  {
    results := [];
    var i := 0;
    while i < |lis|
      invariant 0 <= i <= |lis|
      invariant results == Added(Candidates(lis[..i]))
    {
      var li := lis[i];
      ghost var before := Candidates(lis[..i]);
      assert before + li.plainLinks[..0] == before;
      var j := 0;
      while j < |li.plainLinks|
        invariant 0 <= j <= |li.plainLinks|
        invariant results == Added(before + li.plainLinks[..j])
      {
        AddedExtend(before, li.plainLinks, j);
        results := DikiAdd(results, li.plainLinks[j]);
        j := j + 1;
      }
      assert li.plainLinks[..j] == li.plainLinks;
      ghost var withLinks := before + li.plainLinks;
      assert withLinks + li.headwords[..0] == withLinks;
      j := 0;
      while j < |li.headwords|
        invariant 0 <= j <= |li.headwords|
        invariant results == Added(withLinks + li.headwords[..j])
      {
        AddedExtend(withLinks, li.headwords, j);
        results := DikiAdd(results, li.headwords[j]);
        j := j + 1;
      }
      assert li.headwords[..j] == li.headwords;
      var full := StripParentheticals(li.text);
      AddedSnoc(withLinks + li.headwords, FirstToken(full));
      results := DikiAdd(results, FirstToken(full));
      CandidatesSnoc(lis, i);
      i := i + 1;
    }
    assert lis[..i] == lis;
  }

  method DikiLookup(cache: Cache, englishTerm: string, page: Option<DikiPage>, now: int, written: int)
    returns (r: Value)
    modifies cache
    ensures (r, cache.store)
         == Memo(old(cache.store), AKey("diki_lookup", [StrArg(englishTerm)]), now, written,
                 ListValue(DikiResults(englishTerm, page)))
  {
    var cached := cache.CacheGet("diki_lookup", [StrArg(englishTerm)], now);
    if cached != NoneValue {
      return cached;
    }
    var term := Strip(englishTerm, Whitespace);
    if term == [] || page == None {
      cache.CacheSet("diki_lookup", ListValue([]), [StrArg(englishTerm)], written);
      return ListValue([]);
    }
    var results := CollectDiki(LiNodes(page.value));
    var out := FinalPass(results);
    cache.CacheSet("diki_lookup", ListValue(out), [StrArg(englishTerm)], written);
    return ListValue(out);
  }

  // ---------------- proz_lookup ----------------

  /** A parsed ProZ page: the texts of `div.term` nodes, of `a.term` links, and of the
      first list item after any node mentioning "Polish". */
  datatype ProzPage = ProzPage(termDivs: seq<string>, termLinks: seq<string>, afterPolish: seq<string>)

  /** The texts the lookup reads: the stripped non-empty term texts, or, when there are
      none, the stripped non-empty texts after "Polish". */
  function ProzTexts(page: ProzPage): seq<string> {
    var texts := StrippedNonEmpty(page.termDivs) + StrippedNonEmpty(page.termLinks);
    if texts == [] then StrippedNonEmpty(page.afterPolish) else texts
  }

  /** What one text contributes: its parenthesised spans removed, then cleaned. */
  function ProzForm(t: string): string {
    CleanText(StripParentheticals(t))
  }

  /** The contribution of each text, in order. */
  function ProzForms(texts: seq<string>): (r: seq<string>)
    ensures |r| == |texts|
    decreases |texts|
  {
    if texts == [] then [] else [ProzForm(texts[0])] + ProzForms(texts[1..])
  }

  /** Item `i` of `ProzForms(texts)` is the contribution of `texts[i]`. */
  lemma {:induction false} ProzFormsAt(texts: seq<string>, i: nat)
    requires i < |texts|
    ensures ProzForms(texts)[i] == ProzForm(texts[i])
    decreases |texts|
  {
    if i > 0 {
      ProzFormsAt(texts[1..], i - 1);
      assert texts[i] == texts[1..][i - 1];
    }
  }

  /** The contributions from `i` on start with that of `texts[i]`. */
  lemma ProzFormsFrom(texts: seq<string>, i: nat)
    requires i < |texts|
    ensures ProzForms(texts[i..]) == [ProzForm(texts[i])] + ProzForms(texts[i + 1..])
  {
    assert texts[i..][1..] == texts[i + 1..];
  }

  /** One pass of the accumulating loop: the contribution is appended unless it is empty
      or already present. */
  function ProzStep(out: seq<string>, c: string): seq<string> {
    if c != [] && c !in out then out + [c] else out
  }

  /** The loop over the contributions, leaving it as soon as `out` holds `maxResults`
      items. */
  function Accumulate(out: seq<string>, cs: seq<string>, maxResults: int): seq<string>
    decreases |cs|
  {
    if cs == [] then out
    else
      var out' := ProzStep(out, cs[0]);
      if |out'| >= maxResults then out' else Accumulate(out', cs[1..], maxResults)
  }

  /** The loop keeps the results distinct and non-empty, and only appends. */
  lemma {:induction false} AccumulateShape(out: seq<string>, cs: seq<string>, maxResults: int)
    requires NoDuplicates(out) && forall x :: x in out ==> x != []
    ensures var r := Accumulate(out, cs, maxResults);
      NoDuplicates(r) && (forall x :: x in r ==> x != []) && out <= r
    decreases |cs|
  {
    if cs != [] {
      var out' := ProzStep(out, cs[0]);
      if |out'| < maxResults {
        AccumulateShape(out', cs[1..], maxResults);
      }
    }
  }

  /** Starting below the limit, the loop never collects more than `maxResults` items. */
  lemma {:induction false} AccumulateBound(out: seq<string>, cs: seq<string>, maxResults: int)
    requires |out| < maxResults
    ensures |Accumulate(out, cs, maxResults)| <= maxResults
    decreases |cs|
  {
    if cs != [] {
      var out' := ProzStep(out, cs[0]);
      if |out'| < maxResults {
        AccumulateBound(out', cs[1..], maxResults);
      }
    }
  }

  /** The loop only appends, so what is collected before stays collected. */
  lemma {:induction false} AccumulateKeeps(out: seq<string>, cs: seq<string>, maxResults: int)
    ensures out <= Accumulate(out, cs, maxResults)
    decreases |cs|
  {
    if cs != [] {
      var out' := ProzStep(out, cs[0]);
      if |out'| < maxResults {
        AccumulateKeeps(out', cs[1..], maxResults);
      }
    }
  }

  /** When the loop ends below the limit, it has looked at every contribution: each
      non-empty one is among the results. */
  lemma {:induction false} AccumulateComplete(out: seq<string>, cs: seq<string>, maxResults: int)
    requires |Accumulate(out, cs, maxResults)| < maxResults
    ensures forall k :: 0 <= k < |cs| && cs[k] != [] ==> cs[k] in Accumulate(out, cs, maxResults)
    decreases |cs|
  {
    if cs != [] {
      var out' := ProzStep(out, cs[0]);
      AccumulateComplete(out', cs[1..], maxResults);
      AccumulateKeeps(out', cs[1..], maxResults);
      assert |out'| < maxResults && Accumulate(out, cs, maxResults) == Accumulate(out', cs[1..], maxResults);
      forall k | 0 <= k < |cs| && cs[k] != [] ensures cs[k] in Accumulate(out, cs, maxResults) {
        if k > 0 {
          assert cs[k] == cs[1..][k - 1];
        } else {
          assert cs[0] in out';
        }
      }
    }
  }

  /** With a limit of zero or less the loop stops after the first contribution: the
      result is that contribution, or nothing. */
  lemma AccumulateNonPositive(cs: seq<string>, maxResults: int)
    requires maxResults <= 0 && cs != []
    ensures Accumulate([], cs, maxResults) == (if cs[0] == [] then [] else [cs[0]])
  {
  }

  /** The accumulating loop of `proz_lookup`, with its early exit. */
  method CollectProz(texts: seq<string>, maxResults: int) returns (out: seq<string>)
    ensures out == Accumulate([], ProzForms(texts), maxResults)
  {
    out := [];
    var i := 0;
    while i < |texts|
      invariant 0 <= i <= |texts|
      invariant Accumulate(out, ProzForms(texts[i..]), maxResults) == Accumulate([], ProzForms(texts), maxResults)
    {
      var t := ProzForm(texts[i]);
      ProzFormsFrom(texts, i);
      if t != [] && t !in out {
        out := out + [t];
      }
      if |out| >= maxResults {
        return;
      }
      i := i + 1;
    }
  }

  /** `proz_lookup(english_term, max_results)`, with `page` the parsed page (`None` when
      the request or the parse fails). */
  function ProzResults(englishTerm: string, maxResults: int, page: Option<ProzPage>): seq<string> {
    if Strip(englishTerm, Whitespace) == [] then []
    else if page == None then []
    else Accumulate([], ProzForms(ProzTexts(page.value)), maxResults)
  }

  /** The results of a ProZ lookup are distinct and non-empty, at most `max_results` of
      them when that is positive, and at most one otherwise. */
  lemma ProzResultsShape(englishTerm: string, maxResults: int, page: Option<ProzPage>)
    ensures var r := ProzResults(englishTerm, maxResults, page);
      && NoDuplicates(r)
      && (forall x :: x in r ==> x != [])
      && (maxResults >= 1 ==> |r| <= maxResults)
      && (maxResults <= 0 ==> |r| <= 1)
  {
    if Strip(englishTerm, Whitespace) != [] && page.Some? {
      var cs := ProzForms(ProzTexts(page.value));
      AccumulateShape([], cs, maxResults);
      if maxResults >= 1 {
        AccumulateBound([], cs, maxResults);
      } else if cs != [] {
        AccumulateNonPositive(cs, maxResults);
      }
    }
  }

  /** When fewer than `max_results` come back, every text read contributed: its
      cleaned form, when non-empty, is among the results. */
  lemma ProzResultsComplete(englishTerm: string, maxResults: int, page: ProzPage)
    requires Strip(englishTerm, Whitespace) != []
    requires |ProzResults(englishTerm, maxResults, Some(page))| < maxResults
    ensures forall t :: t in ProzTexts(page) && ProzForm(t) != [] ==>
      ProzForm(t) in ProzResults(englishTerm, maxResults, Some(page))
  {
    var texts := ProzTexts(page);
    var cs := ProzForms(texts);
    AccumulateComplete([], cs, maxResults);
    forall t | t in texts && ProzForm(t) != [] ensures ProzForm(t) in Accumulate([], cs, maxResults) {
      var k :| 0 <= k < |texts| && texts[k] == t;
      ProzFormsAt(texts, k);
    }
  }

  method ProzLookup(cache: Cache, englishTerm: string, maxResults: int, page: Option<ProzPage>, now: int,
                    written: int)
    returns (r: Value)
    modifies cache
    ensures (r, cache.store)
         == Memo(old(cache.store), AKey("proz_lookup", [StrArg(englishTerm), IntArg(maxResults)]), now, written,
                 ListValue(ProzResults(englishTerm, maxResults, page)))
  {
    var key := [StrArg(englishTerm), IntArg(maxResults)];
    var cached := cache.CacheGet("proz_lookup", key, now);
    if cached != NoneValue {
      return cached;
    }
    var term := Strip(englishTerm, Whitespace);
    if term == [] || page == None {
      cache.CacheSet("proz_lookup", ListValue([]), key, written);
      return ListValue([]);
    }
    var out := CollectProz(ProzTexts(page.value), maxResults);
    cache.CacheSet("proz_lookup", ListValue(out), key, written);
    return ListValue(out);
  }
}
