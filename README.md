# en2pl-web: the dictionary parser and the remote-lookup helpers, in Dafny

This project models two parts of the en2pl-web translation helper.

**The offline DSL dictionary reader** (`app/dsl_parser.py`).
- A dictionary file is read line by line:
  - a line at column 0 starts a new entry for its headword;
  - the first indented plain line is the entry's main translation;
  - a `[b]source[/b] target` line is a variant;
  - any further plain line is cut into a source and a target by a five-step word heuristic.
- Every headword and variant source is indexed under its lower-cased, stripped form.
- `dsl_lookup` finds an entry through that index and reports:
  - its source terms and target terms;
  - both lists joined by `", "`;
  - its translation pairs.
- `DSLEntry` and `DSLParser` change their fields in place. The model keeps them as classes (`DslParser.Entry`, `DslParser.Parser`) whose methods are proved to compute what the value-level functions of `DslSpec` describe. The properties are proved about those functions:
  - the parser invariant;
  - what each kind of line does;
  - lookup;
  - the split heuristic.
- The regular expression `\[b\]([^\]]+)\[/b]\s+(.+)` is modelled by `DslSpec.MatchVariant`. The model includes how `\s+` gives characters back so that `.+` can match.

**The deterministic core of the remote lookups** (`app/wiki_diki.py`).
- The six-hour time-to-live cache shared by every lookup is `TtlCache`.
- As written, every cache write raises `TypeError` (see Findings). The lookups are modelled with the write their callers mean. `TtlCache.MemoAsWritten` and `WikiLookup.EnglishToPolishAsWritten` model the outcome as written.
- The text normalisers `_clean_text` and `_strip_parentheticals` are in `WikiText`.
- The decoding of an English Wikipedia article URL into a title is also in `WikiText`.
- What `resolve_en_title`, `english_to_polish_wikipedia`, `diki_lookup` and `proz_lookup` compute from the outcome of their requests is in `WikiLookup`.
- Each network outcome is a parameter: the parsed page, or `None` when the request or the parse failed.
- The clock is a parameter counting whole seconds.

The Python string built-ins these rely on are in `Text`:
- `str.isspace`, `strip`, `lower`, `split`, `join` and `replace`.

The files:
- `wrappers.dfy`: `Option`.
- `text.dfy`: the string built-ins.
- `dsl_spec.dfy` and `dsl_parser.dfy`: the dictionary reader.
- `ttl_cache.dfy`, `wiki_text.dfy` and `wiki_lookup.dfy`: the remote-lookup helpers.

## Model

| member | source | states |
|---|---|---|
| Text.Strip | app/dsl_parser.py:12 | `str.strip`: the result is no longer than the input, neither end is a stripped character, and it is empty exactly when every character is stripped |
| Text.StripSplit | app/dsl_parser.py:12 | stripping keeps one contiguous piece of the input and removes only characters of the set, on both sides |
| Text.StripPadded | app/dsl_parser.py:153 | stripping a core padded with stripped characters gives the core back |
| Text.StripIdempotent | app/dsl_parser.py:82 | `strip` is idempotent |
| Text.Lower | app/dsl_parser.py:153 | `str.lower` maps each character by `LowerChar`, keeping the length |
| Text.LowerCharFacts | app/dsl_parser.py:153 | lower-casing a character is idempotent, and a character is whitespace exactly when its lower-case form is |
| Text.LowerIdempotent | app/dsl_parser.py:159 | lower-casing twice is lower-casing once |
| Text.LowerStrip | app/dsl_parser.py:153 | lower-casing commutes with stripping whitespace |
| Text.LowerStripPadded | app/dsl_parser.py:159 | a core padded with whitespace normalises to the lower-cased core |
| Text.Words | app/dsl_parser.py:103 | `str.split()` yields non-empty words without whitespace |
| Text.WordsSkip | app/dsl_parser.py:103 | `str.split()` ignores leading whitespace |
| Text.WordsFirst | app/dsl_parser.py:103 | a word followed by whitespace or by nothing is the first item of `str.split()` |
| Text.WordsOfJoin | app/dsl_parser.py:146-147 | splitting words joined by single spaces gives back exactly those words, so `split()` and `" ".join` are inverse on words |
| Text.JoinSplitAt | app/dsl_parser.py:146-147 | the two halves of a word list, joined and put back together with the separator, give the whole list joined |
| Text.JoinEnds | app/dsl_parser.py:146-147 | a join of non-empty words starts with the first word's first character and ends with the last word's last character |
| Text.SplitOn | app/dsl_parser.py:41 | `s.split(',')` returns at least one piece, and no piece contains the separator |
| Text.JoinSplitOn | app/dsl_parser.py:41 | joining the pieces of a split with the separator gives the string back |
| Text.StrippedNonEmpty | app/wiki_diki.py:263 | the kept items are non-empty and already stripped, and there are no more of them than items given |
| Text.ReplaceAllHit | app/wiki_diki.py:83-85 | `replace` emits the replacement for a leading occurrence of the pattern |
| Text.ReplaceAllMiss | app/wiki_diki.py:83-85 | `replace` copies a first character that does not start the pattern |
| Text.ReplaceAllPlain | app/wiki_diki.py:83-85 | `replace` copies text in which the pattern's first character does not occur |
| DslSpec.StripTrims | app/dsl_parser.py:12 | a stripped string has no whitespace at either end |
| DslSpec.AddVariantAppends | app/dsl_parser.py:20-25 | `add_variant` appends exactly the stripped pair when both halves are non-empty. Otherwise it changes nothing. The headword and main translation never change |
| DslSpec.NewEntryWellFormed | app/dsl_parser.py:11-14 | a new entry for a non-blank headword has a non-empty trimmed headword, no translation and no variants |
| DslSpec.WithMainWellFormed | app/dsl_parser.py:16-18 | `add_main_translation` keeps an entry well formed |
| DslSpec.WithVariantWellFormed | app/dsl_parser.py:20-25 | `add_variant` keeps an entry well formed (all variant halves non-empty and trimmed) |
| DslSpec.Sources | app/dsl_parser.py:30 | item `i` is the source of variant `i` |
| DslSpec.SourceTermsShape | app/dsl_parser.py:27-31 | the source terms are the headword, then every variant source in order |
| DslSpec.AllPiecesClean | app/dsl_parser.py:39-44 | every target piece is non-empty and stripped |
| DslSpec.TargetTermsShape | app/dsl_parser.py:33-45 | the target terms are non-empty and stripped. They begin with the main translation exactly when it is non-empty. The rest are the comma pieces of the variant targets |
| DslSpec.TargetPiecesOfJoin | app/dsl_parser.py:39-44 | a target written as comma-separated trimmed translations gives exactly those translations back |
| DslSpec.SplitOnJoin | app/dsl_parser.py:41 | splitting a join of separator-free parts gives the parts back |
| DslSpec.LastStart | app/dsl_parser.py:87 | how many characters `\s+` keeps: at least one, and `.+` can start right after them |
| DslSpec.BoldEnd | app/dsl_parser.py:87 | the `[/b]` closing the first group lies within the line, after room for both tags |
| DslSpec.BoldEndShape | app/dsl_parser.py:87 | what `\[b\]([^\]]+)\[/b]` matched: `[b]`, a non-empty group without `]`, and `[/b]` |
| DslSpec.TailGroup | app/dsl_parser.py:87 | the second group is non-empty and holds no newline |
| DslSpec.MatchVariantShape | app/dsl_parser.py:87-90 | a matched line starts with `[b]` + source + `[/b]`. The source is non-empty without `]`. The target is non-empty without a newline |
| DslSpec.MatchVariantFirst | app/dsl_parser.py:87 | the first group is non-empty, has no `]`, and sits between the tags at the start of the line |
| DslSpec.MatchVariantSecond | app/dsl_parser.py:87 | the second group is non-empty and has no newline |
| DslSpec.MatchVariantMarkup | app/dsl_parser.py:86-91 | the regular expression reads back `[b]source[/b]`, then whitespace, then a target. Source and target come back unchanged (the round trip of the markup) |
| DslSpec.BoldEndMarkup | app/dsl_parser.py:87 | on `[b]g1[/b]...`, the first group ends right before `[/b]` |
| DslSpec.TailGroupMarkup | app/dsl_parser.py:87 | whitespace followed by a target that has no newline gives that target as the second group |
| DslSpec.TailGroupAt | app/dsl_parser.py:87 | a greedy `\s+` run followed by a character other than a newline: the second group starts right after the run |
| DslSpec.FirstWhere | app/dsl_parser.py:109-138 | the `for ... break` search returns the first index that satisfies the test. It returns `None` exactly when no item does |
| DslSpec.SplitIndexBound | app/dsl_parser.py:145 | every heuristic step gives an index of a word, so the `split_idx < len(words)` test never rejects |
| DslSpec.SplitAtApostrophe | app/dsl_parser.py:108-112 | the heuristic splits at the first word that contains either apostrophe |
| DslSpec.SplitRejoins | app/dsl_parser.py:145-148 | the source and target of a split, joined by a space, are the line's words. Both are non-empty and trimmed, so `add_variant` keeps them |
| DslSpec.JoinTrimmed | app/dsl_parser.py:146-147 | words joined by spaces form a non-empty trimmed string |
| DslSpec.Parse | app/dsl_parser.py:55-149 | reading lines keeps the parser invariant `Valid`. Every index value names an entry. No indexed term is empty. Each entry sits under its lower-cased headword and is well formed |
| DslSpec.ParsePrefix | app/dsl_parser.py:64 | reading one more line is one more loop step |
| DslSpec.IndexTermSound | app/dsl_parser.py:151-155 | `_add_to_index` under an existing entry's headword keeps every index value a key and never indexes an empty term |
| DslSpec.SetEntrySound | app/dsl_parser.py:74 | storing a well-formed entry under its lower-cased headword keeps the dictionaries sound |
| DslSpec.NewEntryFits | app/dsl_parser.py:71-75 | a new entry for a stripped headword sits under the headword lower-cased. It is well formed. Its normalised index term is that same key |
| DslSpec.StepValid | app/dsl_parser.py:64-149 | every kind of line keeps the parser invariant |
| DslSpec.AddVariantValid | app/dsl_parser.py:88-93 | adding a variant and indexing its source keeps the invariant |
| DslSpec.EntryLineValid | app/dsl_parser.py:82-149 | every indented line keeps the invariant |
| DslSpec.CommentSkipped | app/dsl_parser.py:66-67 | a `#` line changes nothing |
| DslSpec.IndentedBeforeHeadwordIgnored | app/dsl_parser.py:78-79 | indented lines before the first headword change nothing |
| DslSpec.FirstPlainLineSetsMain | app/dsl_parser.py:94-96 | the first plain indented line sets the current entry's main translation to the stripped line. Nothing else changes |
| DslSpec.SingleWordAddsNothing | app/dsl_parser.py:103-104 | once the main translation is set, a plain one-word line changes nothing |
| DslSpec.HeuristicVariant | app/dsl_parser.py:97-149 | a plain line split at `k >= 1` adds one variant and indexes its source under the current headword. The variant's source and target rejoin to the line's words |
| DslSpec.SplitLine | app/dsl_parser.py:145-149 | the same, for the stripped line of the entry under a given key |
| DslSpec.HeuristicNoSplit | app/dsl_parser.py:145 | a line with no split, or a split at 0, adds nothing |
| DslSpec.LookupFinds | app/dsl_parser.py:157-163 | in a valid parser, lookup succeeds exactly when the normalised term is indexed, and then returns the entry under that term's headword |
| DslSpec.HeadwordLookup | app/dsl_parser.py:70-75 | after a headword line, looking up the headword finds the new entry. This holds in any letter case and with any whitespace around it |
| DslSpec.NewHeadwordLookup | app/dsl_parser.py:153-162 | looking up a case variant of a new headword in the updated dictionaries finds the new entry |
| DslSpec.TrimmedByLower | app/dsl_parser.py:159 | a string with the same lower-case form as a trimmed string is itself trimmed |
| DslSpec.PairsShape | app/dsl_parser.py:212-219 | the pairs begin with (headword, main translation) exactly when both are non-empty. All the variants follow, in order |
| DslSpec.CurlyApostropheSkipped | app/dsl_parser.py:110 | when a line's only apostrophes are curly, the code as written skips step 1, while the intended heuristic splits at the first such word |
| DslSpec.CurlyApostropheMissed | app/dsl_parser.py:110 | a two-word line such as `a b’s` gets no split as written. As intended, it splits at 1 |
| DslSpec.CurlyApostropheExample | app/dsl_parser.py:110 | the line `a b’s` is such a line |
| DslSpec.NoApostrophe | app/dsl_parser.py:110 | a word with neither apostrophe fails both versions of step 1 |
| DslSpec.ShortWord | app/dsl_parser.py:124-138 | a word of fewer than four characters never takes steps 3 or 4. A one-character word never takes step 2 |
| DslParser.Entry.constructor | app/dsl_parser.py:11-14 | `DSLEntry(headword)` holds the stripped headword, no translation and no variants |
| DslParser.Entry.AddMainTranslation | app/dsl_parser.py:16-18 | the entry's new contents are `WithMain` of the old ones |
| DslParser.Entry.AddVariant | app/dsl_parser.py:20-25 | the entry's new contents are `WithVariant` of the old ones |
| DslParser.Entry.GetAllSourceTerms | app/dsl_parser.py:27-31 | the loop returns `SourceTerms` of the entry |
| DslParser.Entry.GetAllTargetTerms | app/dsl_parser.py:33-45 | returns `TargetTerms` of the entry |
| DslParser.VariantPieces | app/dsl_parser.py:39-44 | the outer loop collects the pieces of every variant target, in order |
| DslParser.CommaPieces | app/dsl_parser.py:41-44 | the inner loop collects the stripped non-empty comma pieces |
| DslParser.FindFirst | app/dsl_parser.py:109-138 | each `for ... break` loop finds `FirstWhere` |
| DslParser.FindSplit | app/dsl_parser.py:106-143 | the five steps compute `SplitIndex`, the heuristic with both apostrophes |
| DslParser.Parser.constructor | app/dsl_parser.py:51-53 | a new parser has empty dictionaries |
| DslParser.Parser.AddToIndex | app/dsl_parser.py:151-155 | the index becomes `IndexTerm` of the old one, and the entries are untouched |
| DslParser.Parser.Lookup | app/dsl_parser.py:157-163 | returns `null` exactly when `DslSpec.Lookup` finds nothing. Otherwise it returns the entry object whose contents `DslSpec.Lookup` finds |
| DslParser.Parser.ParseFile | app/dsl_parser.py:55-149 | a missing file changes nothing. Otherwise the dictionaries become `DslSpec.ParseFile` of the old ones, and the invariant holds |
| DslParser.Parser.ParseLine | app/dsl_parser.py:64-149 | one loop pass moves the dictionaries and the current entry as `StepLine` does |
| DslParser.Parser.StartEntry | app/dsl_parser.py:71-75 | a fresh entry object goes under the lower-cased headword, and the headword is indexed |
| DslParser.Parser.PutEntry | app/dsl_parser.py:74 | storing an entry changes only that key, and entry objects stay distinct |
| DslParser.Parser.ParseIndented | app/dsl_parser.py:82-149 | an indented line updates the dictionaries as `EntryLine` does |
| DslParser.Parser.AddVariantAndIndex | app/dsl_parser.py:91-93 | the current entry gains the variant in place, the other entries stay as they were, and the source is indexed |
| DslParser.Parser.SetVariant | app/dsl_parser.py:91 | only the entry under the key changes, and its headword is kept |
| DslParser.Parser.SetMainTranslation | app/dsl_parser.py:96 | only the entry under the key changes, to `WithMain` of its old contents |
| DslParser.BuildReport | app/dsl_parser.py:209-227 | the record built is `Report` of the entry |
| DslParser.NewParser | app/dsl_parser.py:174-176 | a fresh parser holds what parsing the file into empty dictionaries gives |
| DslParser.Dictionaries.constructor | app/dsl_parser.py:167-168 | both module parsers start unset |
| DslParser.Dictionaries.GetEnPlParser | app/dsl_parser.py:171-177 | the first call builds the EN-PL parser from its file. Later calls return the same object |
| DslParser.Dictionaries.GetPlEnParser | app/dsl_parser.py:180-186 | the same, for the PL-EN parser |
| DslParser.Dictionaries.DslLookup | app/dsl_parser.py:189-227 | `"en-pl"` uses the EN-PL parser and any other direction the PL-EN one. The answer is the report of the entry the term leads to, or `None`. Only the chosen parser can change: it is built from its file if it was unset, and kept otherwise. The other parser is unchanged |
| DslParser.Dictionaries.LookupEnPl | app/dsl_parser.py:200-227 | the `"en-pl"` branch: the answer comes from the EN-PL parser, which is built on first use and kept afterwards. The PL-EN parser is untouched |
| DslParser.Dictionaries.LookupPlEn | app/dsl_parser.py:202-227 | the other branch: the answer comes from the PL-EN parser, built on first use and kept afterwards. The EN-PL parser is untouched |
| DslParser.Consult | app/dsl_parser.py:205-227 | the answer is the report of the entry the parser's index leads to, or `None` when there is none |
| TtlCache.AKeyInjective | app/wiki_diki.py:43-44 | two calls share a cache slot exactly when they have the same operation name and the same arguments |
| TtlCache.GetAfterSet | app/wiki_diki.py:46-59 | a read within the time-to-live of a write returns the value written and changes nothing |
| TtlCache.GetMissing | app/wiki_diki.py:48-50 | a key never written reads as `None` |
| TtlCache.SetOthersUnchanged | app/wiki_diki.py:57-59 | a write leaves every other key as it was |
| TtlCache.GetExpired | app/wiki_diki.py:52-54 | a read more than six hours after the write returns `None` and evicts that key only |
| TtlCache.GetOthersUnchanged | app/wiki_diki.py:46-55 | a read never adds a key and leaves every other key as it was |
| TtlCache.MemoCachedNone | app/wiki_diki.py:75-77 | a cached `None` is a miss: the value is recomputed and stored, stamped with the write time |
| TtlCache.MemoCachedEmptyList | app/wiki_diki.py:173-175 | a cached empty list that has not expired is a hit, and nothing is written |
| TtlCache.MemoRepeat | app/wiki_diki.py:172-175 | repeating a lookup, with its read at the moment of the first read, returns the first answer without writing, unless that answer was `None` (and provided a write of the first lookup is not stamped more than six hours earlier) |
| TtlCache.MemoMissStores | app/wiki_diki.py:75-108 | with the corrected write, a miss returns the computed value and leaves it in the cache stamped with the write time `written`, where any read within six hours of that time finds it |
| TtlCache.CacheSetAsWritten | app/wiki_diki.py:57 | as written, `_cache_set(*key, value=v)` raises `TypeError` whenever the key holds an argument besides the name |
| TtlCache.CacheSetAsWrittenRaises | app/wiki_diki.py:57-59 | as written, every write of a lookup raises and stores nothing |
| TtlCache.MemoAsWrittenNeverStores | app/wiki_diki.py:73-108 | as written, a lookup raises exactly on a miss, and no lookup ever adds a key to the cache. A hit is answered as the corrected lookup answers it, and an empty cache stays empty |
| TtlCache.CacheSetTypeErrorExample | app/wiki_diki.py:73-90 | `resolve_en_title("lymphoma")` on an empty cache raises and caches nothing as written, and returns and caches the title once corrected |
| TtlCache.Cache.constructor | app/wiki_diki.py:41 | the cache starts empty |
| TtlCache.Cache.CacheGet | app/wiki_diki.py:46-55 | the value read and the new cache are `Get` of the old cache |
| TtlCache.Cache.CacheSet | app/wiki_diki.py:57-59 | the new cache is `Set` of the old one at the clock reading `written`, with the arguments bound as the callers mean them (see Findings) |
| WikiText.CollapseWhitespace | app/wiki_diki.py:65 | `re.sub(r"\s+", " ", s)` is empty exactly when its input is, and starts with whitespace exactly when the input does |
| WikiText.CollapseSpacing | app/wiki_diki.py:65 | after collapsing, whitespace appears only as single plain spaces |
| WikiText.CollapseFixed | app/wiki_diki.py:65 | collapsing leaves single-spaced text alone |
| WikiText.CleanTextShape | app/wiki_diki.py:63-66 | cleaned text has no edge punctuation at either end, and its whitespace is single plain spaces |
| WikiText.CleanTextIdempotent | app/wiki_diki.py:63-66 | `_clean_text` is idempotent |
| WikiText.CollapseRun | app/wiki_diki.py:65 | a whole whitespace run collapses to one space |
| WikiText.RemoveParenthesizedOrder | app/wiki_diki.py:69 | removal keeps only input characters and leaves no `(` followed later by `)` |
| WikiText.StripParentheticalsShape | app/wiki_diki.py:68-69 | the result has no `(` followed later by `)` and no whitespace at either end |
| WikiText.RemoveParenthesizedSpan | app/wiki_diki.py:69 | a `(...)` span without `)` inside is removed whole |
| WikiText.StripTrailingNote | app/wiki_diki.py:68-69 | `term (informal)` becomes `term` |
| WikiText.RemoveTrailingNote | app/wiki_diki.py:69 | a final parenthesised note is removed, leaving the text before it |
| WikiText.ArticlePathStart | app/wiki_diki.py:80 | the matched URL prefix lies within the input |
| WikiText.ArticlePathStartOf | app/wiki_diki.py:80 | each of the four prefixes `https?://(en\.)?wikipedia\.org/wiki/` is recognised, and the title starts right after it |
| WikiText.ArticlePathStartPrefix | app/wiki_diki.py:80 | a string is an article URL exactly when it starts with one of the four prefixes, and the title starts right after that prefix |
| WikiText.ArticleName | app/wiki_diki.py:80-82 | the title group is non-empty and has no `#` or `?` |
| WikiText.ArticleNameOf | app/wiki_diki.py:80-82 | for any of the four prefixes, a non-empty path without `#` or `?`, and a tail that is empty or starts with `#` or `?`, the title group is exactly that path |
| WikiText.ArticleNameEmpty | app/wiki_diki.py:80-81 | a prefix followed directly by nothing, `#` or `?` does not match |
| WikiText.PathStop | app/wiki_diki.py:80 | `[^#\?]+` stops exactly where the tail's `#` or `?` starts |
| WikiText.ResolveTitle | app/wiki_diki.py:79-108 | blank input resolves to `None` |
| WikiText.DecodeStage | app/wiki_diki.py:83-85 | each replacement undoes one stage of the URL encoding |
| WikiText.DecodeEncodeTitle | app/wiki_diki.py:83-85 | decoding inverts the article-path encoding for titles without `_` or `%` |
| WikiText.TitleFromArticleUrl | app/wiki_diki.py:80-87 | an article's URL decodes back to the article's title |
| WikiText.ResolveArticleUrl | app/wiki_diki.py:79-87 | `resolve_en_title` on an article URL, even with whitespace around it, returns that article's title without searching |
| WikiText.TwoWordTitleUrl | app/wiki_diki.py:82-83 | the URL path `Burkitt_lymphoma` reads back as the title `Burkitt lymphoma` |
| WikiLookup.ResolveEnTitle | app/wiki_diki.py:73-108 | the answer and the new cache are the memoised title resolution, read at `now` and written at `written` |
| WikiLookup.CrossReferenceShape | app/wiki_diki.py:110-167 | the answer is `None` exactly for an empty title or when both sources fail. Otherwise it records the title asked about. A language link wins, and Wikidata is used only when there is none |
| WikiLookup.EnglishToPolishWikipedia | app/wiki_diki.py:110-167 | the answer and the new cache are the memoised cross-reference, read at `now` and written at `written` |
| WikiLookup.EnglishToPolishAsWrittenRaises | app/wiki_diki.py:110-167 | as written, a cross-reference that misses the cache raises and stores nothing, whichever request succeeds. The writes at lines 136 and 163 are swallowed and the one at line 166 escapes. A hit is answered as the corrected lookup answers it |
| WikiLookup.LookupsAsWrittenRaise | app/wiki_diki.py:73-277 | as written, `resolve_en_title`, `diki_lookup` and `proz_lookup` raise on every miss and store nothing |
| WikiLookup.FirstToken | app/wiki_diki.py:227 | the first token is a separator-free prefix of the text, ended by a separator or by the end of the text |
| WikiLookup.CleanEachAt | app/wiki_diki.py:211 | item `i` of the cleaned values is `vals[i]` cleaned |
| WikiLookup.KeepAllShape | app/wiki_diki.py:210-215 | what `add` keeps is distinct, admitted and drawn from its inputs |
| WikiLookup.KeepAllComplete | app/wiki_diki.py:210-215 | every admitted value given to `add` is kept |
| WikiLookup.AddedShape | app/wiki_diki.py:210-228 | every Diki result is clean, non-empty and not a stopword, and none repeats |
| WikiLookup.AddedPrefix | app/wiki_diki.py:214-215 | `add` only appends, so results keep the order in which they were first seen |
| WikiLookup.AddedComplete | app/wiki_diki.py:210-228 | every value whose cleaned form is admitted ends up in the results |
| WikiLookup.AddedSound | app/wiki_diki.py:210-228 | every result is the cleaned form of some value |
| WikiLookup.DedupeSpec | app/wiki_diki.py:231 | `dict.fromkeys` keeps each item exactly once and adds nothing |
| WikiLookup.DedupeDistinct | app/wiki_diki.py:231 | `dict.fromkeys` leaves a list without repeats unchanged |
| WikiLookup.FinalPassKeeps | app/wiki_diki.py:230-231 | the final re-clean and dedupe leave the accumulated results as they are |
| WikiLookup.DikiResultsShape | app/wiki_diki.py:171-233 | Diki results are acceptable and distinct. For a non-blank term and a parsed page, they are exactly what `add` accumulated |
| WikiLookup.CollectDiki | app/wiki_diki.py:217-228 | the nested loops compute `Added` of the candidates |
| WikiLookup.DikiLookup | app/wiki_diki.py:171-233 | the answer and the new cache are the memoised Diki results, read at `now` and written at `written` |
| WikiLookup.AccumulateShape | app/wiki_diki.py:268-274 | the ProZ loop keeps results distinct and non-empty, and only appends |
| WikiLookup.AccumulateBound | app/wiki_diki.py:273-274 | starting below the limit, the loop collects at most `max_results` items |
| WikiLookup.AccumulateComplete | app/wiki_diki.py:268-274 | if the loop ends below the limit, every non-empty contribution is among the results |
| WikiLookup.AccumulateNonPositive | app/wiki_diki.py:273-274 | with a limit of zero or less, the loop stops after the first text |
| WikiLookup.CollectProz | app/wiki_diki.py:268-274 | the loop computes `Accumulate` over the texts' contributions |
| WikiLookup.ProzResultsShape | app/wiki_diki.py:237-277 | ProZ results are distinct and non-empty. There are at most `max_results` of them when that is positive, and at most one otherwise |
| WikiLookup.ProzResultsComplete | app/wiki_diki.py:262-274 | when fewer than `max_results` come back, every text read contributed its non-empty cleaned form |
| WikiLookup.ProzLookup | app/wiki_diki.py:237-277 | the answer and the new cache are the memoised ProZ results, read at `now` and written at `written` |

## Left out

- HTTP requests:
  - `get_client`, `_aget` and the httpx client are not modelled;
  - so are the JSON and HTML parsing done with lxml/XPath.
  - Each lookup takes the outcome of its requests as a parameter (`search`, `langlink`, `wikidata`, `page`), with `None` for a failed request.
- The Diki retry is folded into the `page` parameter:
  - when the first page lacks the expected markers, Diki sleeps and requests again;
  - concurrency and `asyncio` are not modelled.
- `time.time()` is given as integer parameters in whole seconds. `_cache_get` reads it as `now` (app/wiki_diki.py:51). `_cache_set` reads it again as `written` (app/wiki_diki.py:59), after the awaited requests, so an entry is stamped with the time of its write. The time-to-live comparison (`now - ts > CACHE_TTL`) is kept as written. Fractional seconds are not modelled, and nothing orders the two readings, just as the wall clock does not order them.
- `Path.exists` and `open` are not modelled: a dictionary file is given as its lines, or as `None` when it does not exist. The file names `EN-PL.dsl` and `PL-ENG.dsl` are not modelled; each getter receives its file.
- Text.Lower: `str.lower` is modelled for ASCII, Latin-1 and the Polish letters only. Every other character is left unchanged, although Python lowers many of them. For example, `Č` becomes `č`, and `İ` (U+0130) becomes two characters, for which keeping the length would not hold.
- Text.IsSpace:
  - this is Python's full `str.isspace` set, including the Unicode spaces, not just ASCII whitespace;
  - `str.strip()`, `str.split()` and `re`'s `\s` use this set.
- WikiLookup.ProzResultsShape: with `max_results <= 0`, the loop at app/wiki_diki.py:268-274 stops after the first text, so at most one result comes back. The model states exactly that and no more.
- WikiLookup.CrossReferenceShape: the Polish title and URL are copied from the response at app/wiki_diki.py:135 and 162 without any check, so the model does not promise that they are non-empty.
- MemoCachedNone: states the caching discipline with the corrected `_cache_set` binding. As written, the write raises `TypeError` (see Findings, `MemoAsWrittenNeverStores`).
- MemoRepeat: states the caching discipline with the corrected `_cache_set` binding. As written, nothing is ever cached, so no repeat is a hit (see Findings).
- ResolveEnTitle: states the lookup with the corrected `_cache_set` binding. As written, every miss raises `TypeError` (see Findings, `LookupsAsWrittenRaise`).
- EnglishToPolishWikipedia: states the lookup with the corrected `_cache_set` binding. As written, every miss raises `TypeError` (see Findings, `EnglishToPolishAsWrittenRaises`).
- DikiLookup: states the lookup with the corrected `_cache_set` binding. As written, every miss raises `TypeError` (see Findings, `LookupsAsWrittenRaise`).
- ProzLookup: states the lookup with the corrected `_cache_set` binding. As written, every miss raises `TypeError` (see Findings, `LookupsAsWrittenRaise`).
- EnglishToPolishAsWritten: models the outcome of each `try` block. It does not model that, as written, a successful language-link request is followed by the Wikidata requests as well.
- The parser members `DslSpec.EntryLine`, `DslSpec.StepLine`, `DslSpec.Parse`, `DslSpec.ParseFile`, `DslParser.FindSplit`, `DslParser.Parser.ParseIndented` and `DslParser.Parser.ParseFile` use the corrected split heuristic `DslSpec.SplitIndex` of the Findings row for app/dsl_parser.py:110. `DslSpec.SplitIndexAsWritten` models the code as written, and `DslSpec.CurlyApostropheMissed` shows where the two differ.
- DslParser.Parser.ParseFile: aliasing between entry objects is ruled out by the `Distinct` invariant. That invariant holds because every entry object is created fresh by the parser, and the model relies on it.
- The `Dictionaries` class stands for the module-level globals `_en_pl_parser` and `_pl_en_parser`.
- `main.py` and the web layer are not part of this model.

## Findings

| source | as written | input that shows it | evidently intended | confidence | as-written member | corrected member |
|---|---|---|---|---|---|---|
| app/dsl_parser.py:110 | step 1 of the split heuristic tests `"'" in word` twice, so the curly apostrophe `’` named in the comment is never looked for | the indented line `a b’s` after a main translation: words `["a", "b’s"]` get no split and the line adds no variant | split at the first word containing `'` or `’`, giving index 1 and the variant (`a`, `b’s`) | not executed | DslSpec.SplitIndexAsWritten, DslSpec.CurlyApostropheMissed, DslSpec.CurlyApostropheExample | DslSpec.SplitIndex, DslSpec.SplitAtApostrophe |
| app/wiki_diki.py:57 | `_cache_set` is declared `(name, value, *parts)`, but every call passes `_cache_set(*key, value=...)`, where `key` holds the name and at least one argument. That argument fills `value` positionally, so the keyword raises `TypeError` (multiple values for `value`). Nothing is ever cached, and every lookup that misses raises. In `english_to_polish_wikipedia` the writes at lines 136 and 163 are swallowed by `except Exception`, and the write at line 166 then raises | `resolve_en_title("lymphoma")` on an empty cache raises at line 107 (or 86 or 90) instead of returning a title | `def _cache_set(name, *parts, value)`: store the value under `(name, parts)` and return it | not executed | TtlCache.CacheSetAsWritten, TtlCache.MemoAsWritten, TtlCache.MemoAsWrittenNeverStores, TtlCache.CacheSetTypeErrorExample, WikiLookup.EnglishToPolishAsWritten, WikiLookup.EnglishToPolishAsWrittenRaises, WikiLookup.LookupsAsWrittenRaise | TtlCache.Cache.CacheSet, TtlCache.Memo, TtlCache.MemoMissStores, WikiLookup.ResolveEnTitle, WikiLookup.EnglishToPolishWikipedia, WikiLookup.DikiLookup, WikiLookup.ProzLookup |
