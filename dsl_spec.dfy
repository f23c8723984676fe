/** The offline dictionary parser of `app/dsl_parser.py` as functions on values: an entry,
    one step of the line-driven parse, the word-split heuristic, the lookup, and the
    record `dsl_lookup` returns. The classes in `DslParser` are proved to compute
    exactly these. */
module DslSpec {
  import opened Wrappers
  import opened Text

  // ---------------- DSLEntry ----------------

  /** The contents of a `DSLEntry`: its headword, its main translation (empty when none
      was set) and its (source, target) variants in the order they were added. */
  datatype EntryData = EntryData(headword: string, mainTranslation: string, variants: seq<(string, string)>)

  /** `DSLEntry(headword)`: the stripped headword, no translation, no variants. */
  function NewEntry(headword: string): EntryData {
    EntryData(Strip(headword, Whitespace), "", [])
  }

  /** `add_main_translation`: the stripped translation replaces the main one. */
  function WithMain(e: EntryData, translation: string): EntryData {
    e.(mainTranslation := Strip(translation, Whitespace))
  }

  /** `add_variant`: the stripped pair is appended when both halves are non-empty. */
  function WithVariant(e: EntryData, source: string, target: string): EntryData {
    var s, t := Strip(source, Whitespace), Strip(target, Whitespace);
    if s != [] && t != [] then e.(variants := e.variants + [(s, t)]) else e
  }

  /** A string with no whitespace at either end. */
  predicate Trimmed(s: string) {
    s == [] || (s[0] !in Whitespace && s[|s| - 1] !in Whitespace)
  }

  /** What every entry built by the parser looks like: a non-empty trimmed headword, a
      trimmed main translation, and variants whose halves are non-empty and trimmed. */
  predicate WellFormed(e: EntryData) {
    && e.headword != [] && Trimmed(e.headword)
    && Trimmed(e.mainTranslation)
    && forall i :: 0 <= i < |e.variants| ==>
         e.variants[i].0 != [] && Trimmed(e.variants[i].0) && e.variants[i].1 != [] && Trimmed(e.variants[i].1)
  }

  /** A stripped string is trimmed. */
  lemma StripTrims(s: string)
    ensures Trimmed(Strip(s, Whitespace))
  {
  }

  /** `add_variant` appends exactly one pair, the stripped source and target, when both
      are non-empty, and otherwise changes nothing; the headword and the main translation
      never change. */
  lemma AddVariantAppends(e: EntryData, source: string, target: string)
    ensures var e', s, t := WithVariant(e, source, target), Strip(source, Whitespace), Strip(target, Whitespace);
      && e'.headword == e.headword && e'.mainTranslation == e.mainTranslation
      && e.variants <= e'.variants
      && (|e'.variants| == |e.variants| + 1 <==> s != [] && t != [])
      && (s != [] && t != [] ==> e'.variants == e.variants + [(s, t)])
      && (s == [] || t == [] ==> e' == e)
  {
  }

  /** A new entry for a headword that is not blank is well formed. */
  lemma NewEntryWellFormed(h: string)
    requires Strip(h, Whitespace) != []
    ensures WellFormed(NewEntry(h))
  {
    StripTrims(h);
  }

  /** Setting the main translation keeps an entry well formed. */
  lemma WithMainWellFormed(e: EntryData, x: string)
    requires WellFormed(e)
    ensures WellFormed(WithMain(e, x))
  {
    StripTrims(x);
  }

  /** Adding a variant keeps an entry well formed. */
  lemma WithVariantWellFormed(e: EntryData, x: string, y: string)
    requires WellFormed(e)
    ensures WellFormed(WithVariant(e, x, y))
  {
    StripTrims(x);
    StripTrims(y);
    var e' := WithVariant(e, x, y);
    forall i | 0 <= i < |e'.variants|
      ensures e'.variants[i].0 != [] && Trimmed(e'.variants[i].0) && e'.variants[i].1 != [] && Trimmed(e'.variants[i].1)
    {
      if i < |e.variants| {
        assert e'.variants[i] == e.variants[i];
      }
    }
  }

  /** The first halves of a list of pairs. */
  function Sources(vs: seq<(string, string)>): (r: seq<string>)
    ensures |r| == |vs| && forall i :: 0 <= i < |vs| ==> r[i] == vs[i].0
  {
    if vs == [] then [] else Sources(vs[..|vs| - 1]) + [vs[|vs| - 1].0]
  }

  /** `get_all_source_terms`: the headword, then each variant's source. */
  function SourceTerms(e: EntryData): seq<string> {
    [e.headword] + Sources(e.variants)
  }

  /** The source terms are the headword followed by every variant source, in order. */
  lemma SourceTermsShape(e: EntryData)
    ensures var r := SourceTerms(e);
      && |r| == 1 + |e.variants| && r[0] == e.headword
      && forall i :: 0 <= i < |e.variants| ==> r[i + 1] == e.variants[i].0
  {
  }

  /** The translations one variant target contributes: its comma-separated parts,
      stripped, without the empty ones. */
  function TargetPieces(target: string): seq<string> {
    StrippedNonEmpty(SplitOn(target, ','))
  }

  /** The pieces of each variant target, in order. */
  function AllPieces(vs: seq<(string, string)>): seq<string> {
    if vs == [] then [] else AllPieces(vs[..|vs| - 1]) + TargetPieces(vs[|vs| - 1].1)
  }

  /** `get_all_target_terms`: the main translation when there is one, then the pieces of
      every variant target. */
  function TargetTerms(e: EntryData): seq<string> {
    (if e.mainTranslation != [] then [e.mainTranslation] else []) + AllPieces(e.variants)
  }

  /** One more variant appends its target's pieces. */
  lemma AllPiecesPrefix(vs: seq<(string, string)>, i: nat)
    requires i < |vs|
    ensures AllPieces(vs[..i + 1]) == AllPieces(vs[..i]) + TargetPieces(vs[i].1)
  {
    assert vs[..i + 1][..i] == vs[..i];
  }

  /** One more variant appends its source. */
  lemma SourcesPrefix(vs: seq<(string, string)>, i: nat)
    requires i < |vs|
    ensures Sources(vs[..i + 1]) == Sources(vs[..i]) + [vs[i].0]
  {
    assert vs[..i + 1][..i] == vs[..i];
  }

  /** One more comma-separated part appends its stripped form unless that is empty. */
  lemma StrippedNonEmptyPrefix(xs: seq<string>, j: nat)
    requires j < |xs|
    ensures var t := Strip(xs[j], Whitespace);
      StrippedNonEmpty(xs[..j + 1]) == StrippedNonEmpty(xs[..j]) + (if t == [] then [] else [t])
  {
    assert xs[..j + 1][..j] == xs[..j];
  }

  /** Every piece is non-empty and stripped. */
  lemma {:induction false} AllPiecesClean(vs: seq<(string, string)>)
    ensures forall t :: t in AllPieces(vs) ==> t != [] && Strip(t, Whitespace) == t
    decreases |vs|
  {
    if vs != [] {
      AllPiecesClean(vs[..|vs| - 1]);
    }
  }

  /** The target terms never contain an empty string; they start with the main
      translation exactly when it is non-empty, and the rest are the pieces of the
      variant targets. */
  lemma TargetTermsShape(e: EntryData)
    ensures var r := TargetTerms(e);
      && (forall t :: t in r ==> t != [] && Strip(t, Whitespace) == t)
      && (e.mainTranslation != [] ==> r == [e.mainTranslation] + AllPieces(e.variants))
      && (e.mainTranslation == [] ==> r == AllPieces(e.variants))
    requires WellFormed(e)
  {
    AllPiecesClean(e.variants);
    StripFixed(e.mainTranslation, Whitespace);
  }

  /** A target written as comma-separated translations, each non-empty, trimmed and
      without commas, gives those translations back. */
  lemma TargetPiecesOfJoin(parts: seq<string>)
    requires parts != []
    requires forall i :: 0 <= i < |parts| ==> parts[i] != [] && Trimmed(parts[i]) && ',' !in parts[i]
    ensures TargetPieces(Join(",", parts)) == parts
  {
    SplitOnJoin(parts, ',');
    StrippedNonEmptyKeeps(parts);
  }

  /** Splitting a join of comma-free parts on the separator gives the parts back. */
  lemma {:induction false} SplitOnJoin(parts: seq<string>, sep: char)
    requires parts != []
    requires forall i :: 0 <= i < |parts| ==> sep !in parts[i]
    ensures SplitOn(Join([sep], parts), sep) == parts
    decreases |parts|
  {
    if |parts| == 1 {
      FirstInNone(parts[0], sep);
    } else {
      var rest := parts[1..];
      SplitOnJoin(rest, sep);
      SplitOnFirst(parts[0], Join([sep], rest), sep);
      assert parts == [parts[0]] + rest;
    }
  }

  /** A string made of a separator-free piece, the separator and the rest splits into
      that piece followed by the split of the rest. */
  lemma SplitOnFirst(p: string, r: string, sep: char)
    requires sep !in p
    ensures SplitOn(p + [sep] + r, sep) == [p] + SplitOn(r, sep)
  {
    var s := p + [sep] + r;
    FirstInAfter(p, [sep] + r, sep);
    assert s == p + ([sep] + r);
    assert s[..|p|] == p;
    assert s[|p| + 1..] == r;
  }

  /** The first separator in `p + tail`, when `p` has none and `tail` starts with one, is
      at `|p|`. */
  lemma FirstInAfter(p: string, tail: string, sep: char)
    requires sep !in p && tail != [] && tail[0] == sep
    ensures FirstIn(p + tail, {sep}) == |p|
  {
    var s := p + tail;
    assert s[|p|] == sep;
    assert forall i :: 0 <= i < |p| ==> s[i] == p[i] && p[i] in p;
  }

  /** Non-empty trimmed items pass through `StrippedNonEmpty` unchanged. */
  lemma {:induction false} StrippedNonEmptyKeeps(xs: seq<string>)
    requires forall i :: 0 <= i < |xs| ==> xs[i] != [] && Trimmed(xs[i])
    ensures StrippedNonEmpty(xs) == xs
    decreases |xs|
  {
    if xs != [] {
      var rest := xs[..|xs| - 1];
      StrippedNonEmptyKeeps(rest);
      StripFixed(xs[|xs| - 1], Whitespace);
      assert xs == rest + [xs[|xs| - 1]];
    }
  }

  // ---------------- the [b]...[/b] variant markup ----------------

  const BoldOpen: string := "[b]"
  const BoldClose: string := "[/b]"

  /** The largest `m` in `[1, hi]` at which `.+` can start after `\s+` took `m`
      characters from `p`: `s[p + m]` exists and is not a newline. */
  function LastStart(s: string, p: nat, hi: nat): (r: Option<nat>)
    ensures r.Some? ==> 1 <= r.value <= hi && p + r.value < |s| && s[p + r.value] != '\n'
    decreases hi
  {
    if hi == 0 then None
    else if p + hi < |s| && s[p + hi] != '\n' then Some(hi)
    else LastStart(s, p, hi - 1)
  }

  /** The `\[b\]([^\]]+)\[/b]` part: the index of the `]` that ends `[/b]`. The first
      group cannot contain `]`, so that is the first `]` after `[b]`. */
  function BoldEnd(s: string): (r: Option<nat>)
    ensures r.Some? ==> |BoldOpen| + |BoldClose| <= r.value < |s|
  {
    if !StartsWith(s, BoldOpen) then None
    else
      var j := |BoldOpen| + FirstIn(s[|BoldOpen|..], {']'});
      if j == |s| || j < |BoldOpen| + |BoldClose| || s[j + 1 - |BoldClose|..j + 1] != BoldClose then None
      else Some(j)
  }

  /** The `\s+(.+)` part from index `p`: the second group. `\s+` is greedy and gives back
      characters only when `.+` (which stops at a newline) could not start otherwise. */
  function TailGroup(s: string, p: nat): (r: Option<string>)
    requires p <= |s|
    ensures r.Some? ==> r.value != [] && '\n' !in r.value
  {
    match LastStart(s, p, LeadingIn(s[p..], Whitespace))
    case None => None
    case Some(m) =>
      var q := p + m;
      var n := FirstIn(s[q..], {'\n'});
      assert s[q..][0] == s[q];
      assert forall i :: 0 <= i < n ==> s[q..q + n][i] == s[q..][i];
      Some(s[q..q + n])
  }

  /** `re.match(r"\[b\]([^\]]+)\[/b]\s+(.+)", s)`, as its two groups. */
  function MatchVariant(s: string): Option<(string, string)> {
    match BoldEnd(s)
    case None => None
    case Some(j) =>
      match TailGroup(s, j + 1)
      case None => None
      case Some(g2) => Some((s[|BoldOpen|..j + 1 - |BoldClose|], g2))
  }

  /** A matched line starts with `[b]`, the first group and `[/b]`; the first group is
      non-empty without `]`, the second non-empty without a newline. */
  lemma MatchVariantShape(s: string)
    requires MatchVariant(s).Some?
    ensures MatchVariant(s).value.0 != [] && ']' !in MatchVariant(s).value.0
    ensures MatchVariant(s).value.1 != [] && '\n' !in MatchVariant(s).value.1
    ensures StartsWith(s, BoldOpen + MatchVariant(s).value.0 + BoldClose)
  {
    MatchVariantFirst(s);
    MatchVariantSecond(s);
  }

  /** The first group of a match, and the `[b]group[/b]` it is read from. */
  lemma MatchVariantFirst(s: string)
    requires MatchVariant(s).Some?
    ensures MatchVariant(s).value.0 != [] && ']' !in MatchVariant(s).value.0
    ensures StartsWith(s, BoldOpen + MatchVariant(s).value.0 + BoldClose)
  {
    MatchVariantParts(s);
    BoldEndShape(s);
  }

  /** The second group of a match. */
  lemma MatchVariantSecond(s: string)
    requires MatchVariant(s).Some?
    ensures MatchVariant(s).value.1 != [] && '\n' !in MatchVariant(s).value.1
  {
    MatchVariantParts(s);
  }

  /** A match is made of what `BoldEnd` and `TailGroup` found. */
  lemma MatchVariantParts(s: string)
    requires MatchVariant(s).Some?
    ensures BoldEnd(s).Some? && TailGroup(s, BoldEnd(s).value + 1).Some?
    ensures MatchVariant(s).value.0 == s[|BoldOpen|..BoldEnd(s).value + 1 - |BoldClose|]
    ensures MatchVariant(s).value.1 == TailGroup(s, BoldEnd(s).value + 1).value
  {
  }

  /** What `BoldEnd` found: `[b]`, a non-empty group without `]`, and `[/b]`. */
  lemma BoldEndShape(s: string)
    requires BoldEnd(s).Some?
    ensures var g1 := s[|BoldOpen|..BoldEnd(s).value + 1 - |BoldClose|];
      g1 != [] && ']' !in g1 && StartsWith(s, BoldOpen + g1 + BoldClose)
  {
    var j := BoldEnd(s).value;
    var g1 := s[|BoldOpen|..j + 1 - |BoldClose|];
    assert s[..|BoldOpen|] == BoldOpen;
    assert s[..j + 1] == s[..|BoldOpen|] + g1 + s[j + 1 - |BoldClose|..j + 1];
    forall i | 0 <= i < |g1| ensures g1[i] != ']' {
      assert g1[i] == s[|BoldOpen|..][i];
    }
  }

  /** A line written as `[b]source[/b]`, whitespace and a target that starts with a
      non-whitespace character and has no newline, matches with exactly that source and
      target. */
  lemma MatchVariantMarkup(g1: string, ws: string, g2: string)
    requires g1 != [] && ']' !in g1
    requires ws != [] && forall i :: 0 <= i < |ws| ==> ws[i] in Whitespace
    requires g2 != [] && g2[0] !in Whitespace && '\n' !in g2
    ensures MatchVariant(BoldOpen + g1 + BoldClose + (ws + g2)) == Some((g1, g2))
  {
    var head := BoldOpen + g1 + BoldClose;
    var s := head + (ws + g2);
    BoldEndMarkup(g1, ws + g2);
    var j := |head| - 1;
    assert BoldEnd(s) == Some(j);
    TailGroupMarkup(head, ws, g2);
    assert TailGroup(s, j + 1) == Some(g2);
    GroupSlice(g1, ws + g2);
  }

  /** The first group sits between `[b]` and `[/b]`. */
  lemma GroupSlice(g1: string, rest: string)
    ensures var s := BoldOpen + g1 + BoldClose + rest;
      s[|BoldOpen|..|BoldOpen| + |g1|] == g1
  {
  }

  /** `BoldEnd` of `[b]g1[/b]` followed by anything is the last index of `[/b]`. */
  lemma BoldEndMarkup(g1: string, rest: string)
    requires g1 != [] && ']' !in g1
    ensures BoldEnd(BoldOpen + g1 + BoldClose + rest) == Some(|BoldOpen| + |g1| + |BoldClose| - 1)
  {
    var s := BoldOpen + g1 + BoldClose + rest;
    var j := |BoldOpen| + |g1| + 3;
    assert s[..|BoldOpen|] == BoldOpen;
    assert s[|BoldOpen|..] == g1 + BoldClose + rest;
    FirstBracket(g1, s[|BoldOpen|..]);
    assert s[j + 1 - |BoldClose|..j + 1] == BoldClose;
  }

  /** After any `head`, whitespace and a target starting with non-whitespace without a
      newline give that target as the second group. */
  lemma TailGroupMarkup(head: string, ws: string, g2: string)
    requires ws != [] && forall i :: 0 <= i < |ws| ==> ws[i] in Whitespace
    requires g2 != [] && g2[0] !in Whitespace && '\n' !in g2
    ensures TailGroup(head + (ws + g2), |head|) == Some(g2)
  {
    var s := head + (ws + g2);
    var p := |head|;
    assert s[p..] == ws + g2;
    LeadingRun(ws, g2);
    assert g2[0] in g2;
    TailGroupAt(s, p, |ws|);
    var q := p + |ws|;
    assert s[q..] == g2;
    FirstInNone(g2, '\n');
    assert FirstIn(s[q..], {'\n'}) == |g2|;
    assert s[q..q + |g2|] == g2;
  }

  /** When the whitespace run at `p` has `w >= 1` characters and is followed by a
      character other than a newline, the second group starts right after the run. */
  lemma TailGroupAt(s: string, p: nat, w: nat)
    requires 1 <= w && p + w < |s| && LeadingIn(s[p..], Whitespace) == w && s[p + w] != '\n'
    ensures TailGroup(s, p) == Some(s[p + w..p + w + FirstIn(s[p + w..], {'\n'})])
  {
    assert LastStart(s, p, w) == Some(w);
  }

  /** The first `]` after `[b]` is the one that closes `[/b]` right after the group. */
  lemma FirstBracket(g1: string, t: string)
    requires ']' !in g1 && StartsWith(t, g1 + BoldClose)
    ensures FirstIn(t, {']'}) == |g1| + 3
  {
    assert t[|g1| + 3] == ']';
    assert t[|g1|] == '[' && t[|g1| + 1] == '/' && t[|g1| + 2] == 'b';
    assert forall i :: 0 <= i < |g1| ==> t[i] == g1[i] && g1[i] in g1;
  }

  /** The whitespace run at the start of `ws + g2` is exactly `ws`. */
  lemma LeadingRun(ws: string, g2: string)
    requires forall i :: 0 <= i < |ws| ==> ws[i] in Whitespace
    requires g2 != [] && g2[0] !in Whitespace
    ensures LeadingIn(ws + g2, Whitespace) == |ws|
  {
    var s := ws + g2;
    assert s[|ws|] == g2[0];
    assert forall i :: 0 <= i < |ws| ==> s[i] == ws[i];
  }

  /** A string without the character has no first occurrence of it. */
  lemma FirstInNone(s: string, c: char)
    requires c !in s
    ensures FirstIn(s, {c}) == |s|
  {
    assert forall i :: 0 <= i < |s| ==> s[i] in s;
  }

  // ---------------- the word-split heuristic ----------------

  /** Index of the first item satisfying `p`, if any. */
  function FirstWhere(xs: seq<string>, p: string -> bool): (r: Option<nat>)
    ensures r.Some? ==> r.value < |xs| && p(xs[r.value]) && forall j :: 0 <= j < r.value ==> !p(xs[j])
    ensures r.None? ==> forall j :: 0 <= j < |xs| ==> !p(xs[j])
    decreases |xs|
  {
    if xs == [] then None
    else if p(xs[0]) then Some(0)
    else
      match FirstWhere(xs[1..], p)
      case None => None
      case Some(i) => Some(i + 1)
  }

  /** The Polish adjective endings of step 2. */
  const PolishEndings: seq<string> := ["owy", "ny", "iczny", "yczny", "niczy", "czy", "ski", "cki", "tyczny"]

  /** The English prefixes of step 3. */
  const EnglishPrefixes: seq<string> := ["non-", "anti-", "pre-", "post-", "sub-", "super-", "semi-"]

  /** The English medical words of step 4. */
  const EnglishMedicalWords: set<string> :=
    {"lymphoma", "disease", "syndrome", "cell", "follicular", "benign", "malignant", "giant", "pulmonary", "cutaneous"}

  /** The apostrophes step 1 looks for: `'` and the right single quotation mark `’`. */
  const Apostrophes: set<char> := {'\'', '\U{2019}'}

  /** The apostrophes step 1 looks for as the code is written: `'` only. */
  const AsciiApostrophe: set<char> := {'\''}

  predicate HasPolishEnding(w: string) {
    exists i :: 0 <= i < |PolishEndings| && EndsWith(w, PolishEndings[i])
  }

  predicate HasEnglishPrefix(w: string) {
    exists i :: 0 <= i < |EnglishPrefixes| && StartsWith(Lower(w), EnglishPrefixes[i])
  }

  predicate IsEnglishMedicalWord(w: string) {
    Lower(w) in EnglishMedicalWords
  }

  /** The word contains one of `marks`. */
  predicate Contains(w: string, marks: set<char>) {
    FirstIn(w, marks) < |w|
  }

  /** `split_idx` after the five heuristic steps, with `marks` the apostrophes of step 1:
      the first word with an apostrophe; else the word after the first word (not the
      last) with a Polish adjective ending; else the first word with an English prefix;
      else the first English medical word; else, when the first word ends with `.`,
      2 (or 1 for two words); else `None`. */
  function SplitIndexWith(words: seq<string>, marks: set<char>): Option<nat>
    requires |words| >= 2
  {
    var step1 := FirstWhere(words, w => Contains(w, marks));
    if step1.Some? then step1
    else
      var step2 := FirstWhere(words[..|words| - 1], HasPolishEnding);
      if step2.Some? then Some(step2.value + 1)
      else
        var step3 := FirstWhere(words, HasEnglishPrefix);
        if step3.Some? then step3
        else
          var step4 := FirstWhere(words, IsEnglishMedicalWord);
          if step4.Some? then step4
          else if EndsWith(words[0], ".") then Some(if |words| - 1 < 2 then |words| - 1 else 2)
          else None
  }

  /** The heuristic as intended: step 1 accepts both apostrophes. */
  function SplitIndex(words: seq<string>): Option<nat>
    requires |words| >= 2
  {
    SplitIndexWith(words, Apostrophes)
  }

  /** The heuristic as written: step 1 tests the ASCII apostrophe twice. */
  function SplitIndexAsWritten(words: seq<string>): Option<nat>
    requires |words| >= 2
  {
    SplitIndexWith(words, AsciiApostrophe)
  }

  /** Every step yields an index of a word, so the `split_idx < len(words)` test never
      fails; only `split_idx == 0` or no split rejects a line. */
  lemma SplitIndexBound(words: seq<string>, marks: set<char>)
    requires |words| >= 2
    ensures SplitIndexWith(words, marks).Some? ==> SplitIndexWith(words, marks).value < |words|
  {
  }

  /** The heuristic finds a split at an apostrophe, whichever apostrophe it is. */
  lemma SplitAtApostrophe(words: seq<string>, i: nat)
    requires |words| >= 2 && i < |words|
    requires Contains(words[i], Apostrophes)
    requires forall j :: 0 <= j < i ==> !Contains(words[j], Apostrophes)
    ensures SplitIndex(words) == Some(i)
  {
  }

  /** The source and target a split at `k` produces, joined by a space, are the words
      joined by spaces; both are non-empty and trimmed, so `add_variant` keeps them. */
  lemma SplitRejoins(words: seq<string>, k: nat)
    requires 1 <= k < |words|
    requires forall i :: 0 <= i < |words| ==> words[i] != [] && forall c :: c in words[i] ==> c !in Whitespace
    ensures Join(" ", words[..k]) + " " + Join(" ", words[k..]) == Join(" ", words)
    ensures var s, t := Join(" ", words[..k]), Join(" ", words[k..]);
      s != [] && t != [] && Strip(s, Whitespace) == s && Strip(t, Whitespace) == t
  {
    JoinSplitAt(" ", words, k);
    JoinTrimmed(words[..k]);
    JoinTrimmed(words[k..]);
  }

  /** Joining non-empty words without whitespace by spaces gives a non-empty trimmed
      string. */
  lemma JoinTrimmed(ws: seq<string>)
    requires ws != []
    requires forall i :: 0 <= i < |ws| ==> ws[i] != [] && forall c :: c in ws[i] ==> c !in Whitespace
    ensures Join(" ", ws) != [] && Strip(Join(" ", ws), Whitespace) == Join(" ", ws)
  {
    JoinEnds(" ", ws);
    var last := ws[|ws| - 1];
    assert ws[0][0] in ws[0] && last[|last| - 1] in last;
    StripFixed(Join(" ", ws), Whitespace);
  }

  // ---------------- parsing ----------------

  /** The parser's dictionaries while a file is read: `entries` from lower-cased
      headword to entry, `index` from normalised term to lower-cased headword, and the
      key of the entry the following indented lines belong to. */
  datatype ParseState = ParseState(entries: map<string, EntryData>, index: map<string, string>, current: Option<string>)

  /** What the parser keeps true: every index value is a key of `entries`, no indexed
      term is empty, every entry sits under its lower-cased headword and is well formed,
      and the current entry is one of them. */
  ghost predicate Valid(st: ParseState) {
    && IndexSound(st.index, st.entries)
    && EntriesSound(st.entries)
    && (st.current.Some? ==> st.current.value in st.entries)
  }

  /** Every indexed term is non-empty and leads to an entry. */
  ghost predicate IndexSound(index: map<string, string>, entries: map<string, EntryData>) {
    forall k :: k in index ==> k != [] && index[k] in entries
  }

  /** Every entry is well formed and sits under its lower-cased headword. */
  ghost predicate EntriesSound(entries: map<string, EntryData>) {
    forall k :: k in entries ==> Lower(entries[k].headword) == k && WellFormed(entries[k])
  }

  /** `term.lower().strip()`. */
  function Normalize(term: string): string {
    Strip(Lower(term), Whitespace)
  }

  /** `_add_to_index(term, headword)`. */
  function IndexTerm(index: map<string, string>, term: string, headword: string): map<string, string> {
    var n := Normalize(term);
    if n != [] then index[n := Lower(headword)] else index
  }

  /** The characters that make a line indented: `line[0] in (' ', '\t', '\n', '\r')`. */
  const IndentChars: set<char> := {' ', '\t', '\n', '\r'}

  /** A headword line: non-empty and not indented. */
  predicate IsHeadwordLine(line: string) {
    line != [] && line[0] !in IndentChars
  }

  /** One non-empty stripped indented line for the entry under `key`. */
  function EntryLine(st: ParseState, key: string, stripped: string): ParseState
    requires key in st.entries
  {
    var e := st.entries[key];
    match MatchVariant(stripped)
    case Some((g1, g2)) =>
      var source := Strip(g1, Whitespace);
      ParseState(st.entries[key := WithVariant(e, source, Strip(g2, Whitespace))],
                 IndexTerm(st.index, source, e.headword), st.current)
    case None =>
      if e.mainTranslation == [] then st.(entries := st.entries[key := WithMain(e, stripped)])
      else
        var words := Words(stripped);
        if |words| < 2 then st
        else
          var k := SplitIndex(words);
          if k.Some? && k.value != 0 && k.value < |words| then
            var source := Join(" ", words[..k.value]);
            ParseState(st.entries[key := WithVariant(e, source, Join(" ", words[k.value..]))],
                       IndexTerm(st.index, source, e.headword), st.current)
          else st
  }

  /** One pass of the loop of `parse_file`. */
  function StepLine(st: ParseState, line: string): ParseState
    requires st.current.Some? ==> st.current.value in st.entries
  {
    if StartsWith(line, "#") then st
    else if IsHeadwordLine(line) then
      var h := Strip(line, Whitespace);
      if h == [] then st
      else ParseState(st.entries[Lower(h) := NewEntry(h)], IndexTerm(st.index, h, h), Some(Lower(h)))
    else if st.current == None then st
    else
      var stripped := Strip(line, Whitespace);
      if stripped == [] then st else EntryLine(st, st.current.value, stripped)
  }

  /** The loop of `parse_file` over `lines`. */
  function Parse(st: ParseState, lines: seq<string>): ParseState
    requires Valid(st)
    ensures Valid(Parse(st, lines))
    decreases |lines|
  {
    if lines == [] then st
    else
      var before := Parse(st, lines[..|lines| - 1]);
      StepValid(before, lines[|lines| - 1]);
      StepLine(before, lines[|lines| - 1])
  }

  /** Reading one more line is one more step. */
  lemma ParsePrefix(st: ParseState, lines: seq<string>, i: nat)
    requires Valid(st) && i < |lines|
    ensures Valid(Parse(st, lines[..i]))
    ensures Parse(st, lines[..i + 1]) == StepLine(Parse(st, lines[..i]), lines[i])
  {
    assert lines[..i + 1][..i] == lines[..i];
  }

  /** `parse_file` on a parser holding `entries` and `index`: no current entry at first. */
  function ParseFile(entries: map<string, EntryData>, index: map<string, string>, lines: seq<string>): ParseState
    requires Valid(ParseState(entries, index, None))
  {
    Parse(ParseState(entries, index, None), lines)
  }

  /** Indexing a term under the headword of an entry keeps every index value a key. */
  lemma IndexTermSound(index: map<string, string>, entries: map<string, EntryData>, term: string, headword: string)
    requires IndexSound(index, entries) && Lower(headword) in entries
    ensures IndexSound(IndexTerm(index, term, headword), entries)
  {
  }

  /** Putting a well-formed entry under its lower-cased headword keeps the entries and the
      index sound. */
  lemma SetEntrySound(index: map<string, string>, entries: map<string, EntryData>, key: string, e: EntryData)
    requires IndexSound(index, entries) && EntriesSound(entries)
    requires Lower(e.headword) == key && WellFormed(e)
    ensures IndexSound(index, entries[key := e]) && EntriesSound(entries[key := e])
  {
  }

  /** A new entry for a non-empty stripped headword sits under its lower-cased form. */
  lemma NewEntryFits(h: string)
    requires h != [] && Strip(h, Whitespace) == h
    ensures Lower(NewEntry(h).headword) == Lower(h) && WellFormed(NewEntry(h)) && Lower(h) != []
    ensures Normalize(h) == Lower(h)
  {
    assert NewEntry(h) == EntryData(h, "", []);
    StripTrims(h);
    LowerStrip(h);
  }

  /** Every step of the parse keeps the parser's invariant. */
  lemma StepValid(st: ParseState, line: string)
    requires Valid(st)
    ensures Valid(StepLine(st, line))
  {
    if !StartsWith(line, "#") && IsHeadwordLine(line) {
      var h := Strip(line, Whitespace);
      if h != [] {
        StripIdempotent(line, Whitespace);
        NewEntryFits(h);
        SetEntrySound(st.index, st.entries, Lower(h), NewEntry(h));
        IndexTermSound(st.index, st.entries[Lower(h) := NewEntry(h)], h, h);
      }
    } else if !StartsWith(line, "#") && st.current.Some? {
      var stripped := Strip(line, Whitespace);
      if stripped != [] {
        EntryLineValid(st, st.current.value, stripped);
      }
    }
  }

  /** Adding a variant to an entry and indexing its source under the entry's headword
      keeps the parser's invariant. */
  lemma AddVariantValid(st: ParseState, key: string, source: string, target: string)
    requires Valid(st) && key in st.entries
    ensures var e := st.entries[key];
      Valid(ParseState(st.entries[key := WithVariant(e, source, target)], IndexTerm(st.index, source, e.headword), st.current))
  {
    var e := st.entries[key];
    var e' := WithVariant(e, source, target);
    WithVariantWellFormed(e, source, target);
    SetEntrySound(st.index, st.entries, key, e');
    IndexTermSound(st.index, st.entries[key := e'], source, e.headword);
  }

  /** An indented line keeps the parser's invariant. */
  lemma EntryLineValid(st: ParseState, key: string, stripped: string)
    requires Valid(st) && key in st.entries
    ensures Valid(EntryLine(st, key, stripped))
  {
    var e := st.entries[key];
    var st' := EntryLine(st, key, stripped);
    match MatchVariant(stripped)
    case Some((g1, g2)) =>
      var source := Strip(g1, Whitespace);
      AddVariantValid(st, key, source, Strip(g2, Whitespace));
      assert st' == ParseState(st.entries[key := WithVariant(e, source, Strip(g2, Whitespace))],
                               IndexTerm(st.index, source, e.headword), st.current);
    case None =>
      if e.mainTranslation == [] {
        WithMainWellFormed(e, stripped);
        SetEntrySound(st.index, st.entries, key, WithMain(e, stripped));
        assert st' == st.(entries := st.entries[key := WithMain(e, stripped)]);
      } else {
        var words := Words(stripped);
        if |words| >= 2 {
          var k := SplitIndex(words);
          if k.Some? && k.value != 0 && k.value < |words| {
            var source := Join(" ", words[..k.value]);
            AddVariantValid(st, key, source, Join(" ", words[k.value..]));
            assert st' == ParseState(st.entries[key := WithVariant(e, source, Join(" ", words[k.value..]))],
                                     IndexTerm(st.index, source, e.headword), st.current);
          }
        }
      }
  }

  // ---------------- line handling ----------------

  /** Metadata lines, starting with `#`, change nothing. */
  lemma CommentSkipped(st: ParseState, line: string)
    requires Valid(st) && StartsWith(line, "#")
    ensures StepLine(st, line) == st
  {
  }

  /** Before the first headword, indented lines change nothing. */
  lemma IndentedBeforeHeadwordIgnored(st: ParseState, line: string)
    requires Valid(st) && st.current == None && !IsHeadwordLine(line)
    ensures StepLine(st, line) == st
  {
  }

  /** The first indented line that is not `[b]` markup becomes the main translation of
      the current entry, and nothing else changes. */
  lemma FirstPlainLineSetsMain(st: ParseState, line: string)
    requires Valid(st) && st.current.Some? && st.entries[st.current.value].mainTranslation == []
    requires !StartsWith(line, "#") && !IsHeadwordLine(line)
    requires Strip(line, Whitespace) != [] && MatchVariant(Strip(line, Whitespace)) == None
    ensures var key, st' := st.current.value, StepLine(st, line);
      && st'.index == st.index && st'.current == st.current
      && st'.entries == st.entries[key := st.entries[key].(mainTranslation := Strip(line, Whitespace))]
  {
    StripIdempotent(line, Whitespace);
  }

  /** Once the main translation is set, a plain line of a single word adds nothing. */
  lemma SingleWordAddsNothing(st: ParseState, line: string)
    requires Valid(st) && st.current.Some? && st.entries[st.current.value].mainTranslation != []
    requires !StartsWith(line, "#") && !IsHeadwordLine(line)
    requires MatchVariant(Strip(line, Whitespace)) == None && |Words(Strip(line, Whitespace))| < 2
    ensures StepLine(st, line) == st
  {
  }

  /** Once the main translation is set, a plain line of several words that the
      heuristic splits at `k >= 1` adds the variant (source, target), where source and
      target joined by a space are the line's words joined by spaces, and indexes the
      source under the current headword. */
  lemma HeuristicVariant(st: ParseState, line: string, k: nat)
    requires Valid(st) && st.current.Some? && st.entries[st.current.value].mainTranslation != []
    requires !StartsWith(line, "#") && !IsHeadwordLine(line)
    requires MatchVariant(Strip(line, Whitespace)) == None
    requires |Words(Strip(line, Whitespace))| >= 2 && SplitIndex(Words(Strip(line, Whitespace))) == Some(k)
    requires 1 <= k < |Words(Strip(line, Whitespace))|
    ensures var words, key, st' := Words(Strip(line, Whitespace)), st.current.value, StepLine(st, line);
      var e, source, target := st.entries[key], Join(" ", words[..k]), Join(" ", words[k..]);
      && source + " " + target == Join(" ", words)
      && st'.entries == st.entries[key := e.(variants := e.variants + [(source, target)])]
      && st'.index == IndexTerm(st.index, source, e.headword)
      && st'.current == st.current
  {
    var stripped := Strip(line, Whitespace);
    assert StepLine(st, line) == EntryLine(st, st.current.value, stripped);
    SplitLine(st, st.current.value, stripped, k);
  }

  /** `HeuristicVariant` for the stripped line of the entry under `key`. */
  lemma SplitLine(st: ParseState, key: string, stripped: string, k: nat)
    requires key in st.entries && st.entries[key].mainTranslation != []
    requires MatchVariant(stripped) == None
    requires 1 <= k < |Words(stripped)| && SplitIndex(Words(stripped)) == Some(k)
    ensures var words := Words(stripped);
      var e, source, target := st.entries[key], Join(" ", words[..k]), Join(" ", words[k..]);
      && source + " " + target == Join(" ", words)
      && EntryLine(st, key, stripped)
         == ParseState(st.entries[key := e.(variants := e.variants + [(source, target)])],
                       IndexTerm(st.index, source, e.headword), st.current)
  {
    var words := Words(stripped);
    assert forall i :: 0 <= i < |words| ==> words[i] in words;
    SplitRejoins(words, k);
  }

  /** Once the main translation is set, a plain line of several words that the heuristic
      does not split, or splits at 0, adds nothing. */
  lemma HeuristicNoSplit(st: ParseState, line: string)
    requires Valid(st) && st.current.Some? && st.entries[st.current.value].mainTranslation != []
    requires !StartsWith(line, "#") && !IsHeadwordLine(line)
    requires MatchVariant(Strip(line, Whitespace)) == None
    requires |Words(Strip(line, Whitespace))| >= 2
    requires SplitIndex(Words(Strip(line, Whitespace))) in {None, Some(0)}
    ensures StepLine(st, line) == st
  {
  }

  // ---------------- lookup ----------------

  /** `lookup(term)`: the entry under the headword the normalised term is indexed to. */
  function Lookup(entries: map<string, EntryData>, index: map<string, string>, term: string): Option<EntryData> {
    var n := Normalize(term);
    if n in index && index[n] != [] && index[n] in entries then Some(entries[index[n]]) else None
  }

  /** In a valid parser, lookup finds an entry exactly when the normalised term is
      indexed, and then it is the entry under that term's headword. */
  lemma LookupFinds(st: ParseState, term: string)
    requires Valid(st)
    ensures var n := Normalize(term);
      && (Lookup(st.entries, st.index, term).Some? <==> n in st.index)
      && (n in st.index ==> Lookup(st.entries, st.index, term) == Some(st.entries[st.index[n]]))
  {
    var n := Normalize(term);
    if n in st.index {
      var k := st.index[n];
      assert Lower(st.entries[k].headword) == k && st.entries[k].headword != [];
    }
  }

  /** After a headword line, looking up the headword in any letter case and with any
      whitespace around it finds the new entry. */
  lemma HeadwordLookup(st: ParseState, line: string, term: string, pre: string, post: string)
    requires Valid(st) && !StartsWith(line, "#") && IsHeadwordLine(line)
    requires Strip(line, Whitespace) != []
    requires Lower(term) == Lower(Strip(line, Whitespace))
    requires forall i :: 0 <= i < |pre| ==> pre[i] in Whitespace
    requires forall i :: 0 <= i < |post| ==> post[i] in Whitespace
    ensures var st' := StepLine(st, line);
      Lookup(st'.entries, st'.index, pre + term + post) == Some(NewEntry(Strip(line, Whitespace)))
  {
    var h := Strip(line, Whitespace);
    StripIdempotent(line, Whitespace);
    assert StepLine(st, line)
      == ParseState(st.entries[Lower(h) := NewEntry(h)], IndexTerm(st.index, h, h), Some(Lower(h)));
    NewHeadwordLookup(st.entries, st.index, h, term, pre, post);
  }

  /** `HeadwordLookup` for the dictionaries a new entry for `h` gives. */
  lemma NewHeadwordLookup(entries: map<string, EntryData>, index: map<string, string>, h: string,
                          term: string, pre: string, post: string)
    requires h != [] && Strip(h, Whitespace) == h && Lower(term) == Lower(h)
    requires forall i :: 0 <= i < |pre| ==> pre[i] in Whitespace
    requires forall i :: 0 <= i < |post| ==> post[i] in Whitespace
    ensures Lookup(entries[Lower(h) := NewEntry(h)], IndexTerm(index, h, h), pre + term + post) == Some(NewEntry(h))
  {
    NewEntryFits(h);
    TrimmedByLower(term, h);
    LowerStripPadded(pre, term, post);
  }

  /** A string whose lower-cased form is that of a trimmed string is trimmed. */
  lemma TrimmedByLower(term: string, h: string)
    requires Lower(term) == Lower(h) && Trimmed(h)
    ensures Trimmed(term)
  {
    if term != [] {
      LowerCharFacts(term[0]);
      LowerCharFacts(h[0]);
      LowerCharFacts(term[|term| - 1]);
      LowerCharFacts(h[|h| - 1]);
    }
  }

  // ---------------- dsl_lookup ----------------

  /** The record `dsl_lookup` returns. */
  datatype LookupResult = LookupResult(
    headword: string,
    sourceTerms: seq<string>,
    targetTerms: seq<string>,
    sourceText: string,
    targetText: string,
    pairs: seq<(string, string)>)

  /** The translation pairs: (headword, main translation) when both are non-empty, then
      every variant. */
  function Pairs(e: EntryData): seq<(string, string)> {
    (if e.headword != [] && e.mainTranslation != [] then [(e.headword, e.mainTranslation)] else []) + e.variants
  }

  /** The record for a found entry. */
  function Report(e: EntryData): LookupResult {
    LookupResult(e.headword, SourceTerms(e), TargetTerms(e),
                 Join(", ", SourceTerms(e)), Join(", ", TargetTerms(e)), Pairs(e))
  }

  /** The first pair is the headword with the main translation exactly when both are
      non-empty; the variants follow, all of them, in order. */
  lemma PairsShape(e: EntryData)
    ensures var ps, lead := Pairs(e), if e.headword != [] && e.mainTranslation != [] then 1 else 0;
      && |ps| == lead + |e.variants|
      && (lead == 1 ==> ps[0] == (e.headword, e.mainTranslation))
      && ps[lead..] == e.variants
  {
  }

  /** What `dsl_lookup` answers from one parser's dictionaries: the record of the entry
      the term leads to, or `None`. */
  function LookupReport(entries: map<string, EntryData>, index: map<string, string>, term: string): Option<LookupResult> {
    match Lookup(entries, index, term)
    case None => None
    case Some(e) => Some(Report(e))
  }

  // ---------------- the curly apostrophe ----------------

  /** A word with neither apostrophe contains none. */
  lemma NoApostrophe(w: string)
    requires '\'' !in w && '\U{2019}' !in w
    ensures !Contains(w, Apostrophes) && !Contains(w, AsciiApostrophe)
  {
    assert forall i :: 0 <= i < |w| ==> w[i] in w;
  }

  /** When the only apostrophes in a line are curly ones, the heuristic as written never
      takes step 1, while the intended one splits at the first word that has one. */
  lemma CurlyApostropheSkipped(words: seq<string>, i: nat)
    requires |words| >= 2 && i < |words|
    requires forall j :: 0 <= j < |words| ==> '\'' !in words[j]
    requires '\U{2019}' in words[i]
    requires forall j :: 0 <= j < i ==> '\U{2019}' !in words[j]
    ensures SplitIndex(words) == Some(i)
    ensures SplitIndexAsWritten(words) == SplitIndexWith(words, {})
  {
    forall j | 0 <= j < |words| ensures !Contains(words[j], AsciiApostrophe) {
      FirstInNone(words[j], '\'');
    }
    forall j | 0 <= j < i ensures !Contains(words[j], Apostrophes) {
      NoApostrophe(words[j]);
    }
    var k :| 0 <= k < |words[i]| && words[i][k] == '\U{2019}';
    assert FirstIn(words[i], Apostrophes) <= k;
    assert FirstWhere(words, w => Contains(w, AsciiApostrophe)) == None;
    assert FirstWhere(words, w => Contains(w, {})) == None;
    SplitAtApostrophe(words, i);
  }

  /** A one-letter first word other than `.` and `'`, followed by a word of two or three
      characters with a curly apostrophe and no straight one: the heuristic as written
      finds no split, so the line adds no variant; the intended one splits between them. */
  lemma CurlyApostropheMissed(a: string, b: string)
    requires |a| == 1 && a[0] != '.' && a[0] != '\'' && a[0] != '\U{2019}'
    requires 2 <= |b| < 4 && '\'' !in b && '\U{2019}' in b
    ensures SplitIndexAsWritten([a, b]) == None
    ensures SplitIndex([a, b]) == Some(1)
  {
    var words := [a, b];
    assert a[0] in a;
    assert '\U{2019}' !in a && '\'' !in a;
    CurlyApostropheSkipped(words, 1);
    ShortWord(a);
    ShortWord(b);
    assert !EndsWith(a, ".");
    assert words[..1] == [a];
    assert FirstWhere(words[..1], HasPolishEnding) == None;
  }

  /** `a b’s` is such a line. */
  lemma CurlyApostropheExample()
    ensures SplitIndexAsWritten(["a", "b\U{2019}s"]) == None
    ensures SplitIndex(["a", "b\U{2019}s"]) == Some(1)
  {
    var b := "b\U{2019}s";
    assert b[1] == '\U{2019}' && b[0] != '\'' && b[1] != '\'' && b[2] != '\'';
    CurlyApostropheMissed("a", b);
  }

  /** A word shorter than four characters takes none of steps 3 and 4, nor step 2 when it
      is a single character. */
  lemma ShortWord(w: string)
    requires |w| < 4
    ensures !HasEnglishPrefix(w) && !IsEnglishMedicalWord(w)
    ensures |w| < 2 ==> !HasPolishEnding(w)
  {
    assert |Lower(w)| < 4;
    forall i | 0 <= i < |EnglishPrefixes| ensures |EnglishPrefixes[i]| >= 4 { }
    forall i | 0 <= i < |PolishEndings| ensures |PolishEndings[i]| >= 2 { }
    forall x | x in EnglishMedicalWords ensures |x| >= 4 { }
  }
}
