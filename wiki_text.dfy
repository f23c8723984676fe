/** The text normalisers of the remote-lookup module (`_clean_text`,
    `_strip_parentheticals`) and the decoding of an English Wikipedia article URL into
    the article's title. */
module WikiText {
  import opened Wrappers
  import opened Text

  /** The characters `_clean_text` trims from both ends once whitespace is collapsed:
      space, comma, semicolon, colon, en dash, em dash and hyphen-minus. */
  const EdgePunctuation: set<char> := {' ', ',', ';', ':', '\U{2013}', '\U{2014}', '-'}

  /** The characters at `i` and `i + 1` are both whitespace. */
  ghost predicate DoubleSpaceAt(s: string, i: nat)
    requires i + 1 < |s|
  {
    s[i] in Whitespace && s[i + 1] in Whitespace
  }

  /** No two neighbouring characters are both whitespace. */
  ghost predicate NoDoubleSpace(s: string) {
    forall i: nat :: i + 1 < |s| ==> !DoubleSpaceAt(s, i)
  }

  /** The only whitespace character that occurs is the plain space. */
  ghost predicate OnlyPlainSpaces(s: string) {
    forall i :: 0 <= i < |s| ==> s[i] in Whitespace ==> s[i] == ' '
  }

  /** `re.sub(r"\s+", " ", s)`: every maximal run of whitespace becomes one space. */
  function CollapseWhitespace(s: string): (r: string)
    ensures s == [] <==> r == []
    ensures s != [] ==> (r[0] in Whitespace <==> s[0] in Whitespace)
    decreases |s|
  {
    if s == [] then []
    else if s[0] in Whitespace then " " + CollapseWhitespace(s[LeadingIn(s, Whitespace)..])
    else [s[0]] + CollapseWhitespace(s[1..])
  }

  /** After collapsing, whitespace occurs only as single plain spaces. */
  lemma {:induction false} CollapseSpacing(s: string)
    ensures NoDoubleSpace(CollapseWhitespace(s)) && OnlyPlainSpaces(CollapseWhitespace(s))
    decreases |s|
  {
    if s != [] {
      var rest := if s[0] in Whitespace then s[LeadingIn(s, Whitespace)..] else s[1..];
      CollapseSpacing(rest);
      var r, tail := CollapseWhitespace(s), CollapseWhitespace(rest);
      assert r == [r[0]] + tail;
      forall i: nat | i + 1 < |r| ensures !DoubleSpaceAt(r, i) {
        if i > 0 {
          assert r[i] == tail[i - 1] && r[i + 1] == tail[i];
          assert !DoubleSpaceAt(tail, i - 1);
        }
      }
      forall i | 0 <= i < |r| ensures r[i] in Whitespace ==> r[i] == ' ' {
        if i > 0 {
          assert r[i] == tail[i - 1];
        }
      }
    }
  }

  /** Collapsing leaves a string alone when its whitespace is already single plain spaces. */
  lemma {:induction false} CollapseFixed(s: string)
    requires NoDoubleSpace(s) && OnlyPlainSpaces(s)
    ensures CollapseWhitespace(s) == s
    decreases |s|
  {
    if s != [] {
      SliceSpacing(s, 1, |s|);
      assert s[1..|s|] == s[1..];
      if s[0] in Whitespace {
        assert |s| > 1 ==> !DoubleSpaceAt(s, 0);
        assert LeadingIn(s, Whitespace) == 1;
      }
      CollapseFixed(s[1..]);
    }
  }

  /** A slice of a string inherits its whitespace shape. */
  lemma SliceSpacing(s: string, i: nat, j: nat)
    requires i <= j <= |s|
    requires NoDoubleSpace(s) && OnlyPlainSpaces(s)
    ensures NoDoubleSpace(s[i..j]) && OnlyPlainSpaces(s[i..j])
  {
    var t := s[i..j];
    forall k: nat | k + 1 < |t| ensures !DoubleSpaceAt(t, k) {
      assert t[k] == s[i + k] && t[k + 1] == s[i + k + 1];
      assert !DoubleSpaceAt(s, i + k);
    }
    forall k | 0 <= k < |t| ensures t[k] in Whitespace ==> t[k] == ' ' {
      assert t[k] == s[i + k];
    }
  }

  /** `_clean_text`: strip whitespace, collapse whitespace runs to one space, then strip
      the edge punctuation. */
  function CleanText(s: string): string {
    Strip(CollapseWhitespace(Strip(s, Whitespace)), EdgePunctuation)
  }

  /** Clean text neither starts nor ends with whitespace or edge punctuation, and its
      whitespace is single plain spaces. */
  lemma CleanTextShape(s: string)
    ensures var r := CleanText(s);
      && (r == [] || (r[0] !in EdgePunctuation && r[|r| - 1] !in EdgePunctuation))
      && NoDoubleSpace(r) && OnlyPlainSpaces(r)
  {
    CollapseSpacing(Strip(s, Whitespace));
    StripSpacing(CollapseWhitespace(Strip(s, Whitespace)), EdgePunctuation);
  }

  /** Stripping keeps the whitespace shape of a string. */
  lemma StripSpacing(c: string, cs: set<char>)
    requires NoDoubleSpace(c) && OnlyPlainSpaces(c)
    ensures NoDoubleSpace(Strip(c, cs)) && OnlyPlainSpaces(Strip(c, cs))
  {
    StripIsSlice(c, cs);
    var i := LeadingIn(c, cs);
    SliceSpacing(c, i, i + |Strip(c, cs)|);
  }

  /** Cleaning clean text changes nothing. */
  lemma CleanTextIdempotent(s: string)
    ensures CleanText(CleanText(s)) == CleanText(s)
  {
    var r := CleanText(s);
    CleanTextShape(s);
    assert ' ' in EdgePunctuation;
    assert r != [] ==> r[0] !in Whitespace && r[|r| - 1] !in Whitespace;
    StripFixed(r, Whitespace);
    CollapseFixed(r);
    StripFixed(r, EdgePunctuation);
  }

  /** Text without whitespace passes through collapsing unchanged. */
  lemma {:induction false} CollapsePlain(x: string, y: string)
    requires forall i :: 0 <= i < |x| ==> x[i] !in Whitespace
    ensures CollapseWhitespace(x + y) == x + CollapseWhitespace(y)
    decreases |x|
  {
    if x != [] {
      assert (x + y)[0] == x[0] && x[0] !in Whitespace;
      assert (x + y)[1..] == x[1..] + y;
      CollapsePlain(x[1..], y);
      assert x == [x[0]] + x[1..];
    } else {
      assert x + y == y;
    }
  }

  /** A whole run of whitespace collapses to one space. */
  lemma CollapseRun(w: string, y: string)
    requires w != [] && forall i :: 0 <= i < |w| ==> w[i] in Whitespace
    requires y == [] || y[0] !in Whitespace
    ensures CollapseWhitespace(w + y) == " " + CollapseWhitespace(y)
  {
    var s := w + y;
    assert s[0] == w[0];
    assert y != [] ==> s[|w|] == y[0];
    assert LeadingIn(s, Whitespace) == |w|;
    assert s[|w|..] == y;
  }

  /** No `(` has a `)` somewhere after it. */
  ghost predicate NoOpenBeforeClose(s: string) {
    forall i, j :: 0 <= i < j < |s| ==> s[i] != '(' || s[j] != ')'
  }

  /** `re.sub(r"\([^)]*\)", "", s)`: scanning left to right, each `(` that has a `)` after
      it is removed together with everything up to and including the first such `)`. */
  function RemoveParenthesized(s: string): string
    decreases |s|
  {
    if s == [] then []
    else
      var close := FirstIn(s[1..], {')'});
      if s[0] == '(' && close < |s| - 1 then RemoveParenthesized(s[close + 2..])
      else [s[0]] + RemoveParenthesized(s[1..])
  }

  /** Removal keeps only characters of the input, and leaves no `(` with a `)` after it. */
  lemma {:induction false} RemoveParenthesizedOrder(s: string)
    ensures forall k :: 0 <= k < |RemoveParenthesized(s)| ==> RemoveParenthesized(s)[k] in s
    ensures NoOpenBeforeClose(RemoveParenthesized(s))
    decreases |s|
  {
    if s != [] {
      var close := FirstIn(s[1..], {')'});
      if s[0] == '(' && close < |s| - 1 {
        RemoveParenthesizedOrder(s[close + 2..]);
        forall k | 0 <= k < |RemoveParenthesized(s)| ensures RemoveParenthesized(s)[k] in s {
          assert RemoveParenthesized(s)[k] in s[close + 2..];
        }
      } else {
        RemoveParenthesizedOrder(s[1..]);
        assert s[0] == '(' ==> ')' !in s[1..];
        KeepFirstOrder(s, RemoveParenthesized(s[1..]));
      }
    }
  }

  /** Keeping the first character in front of a removal result drawn from the rest keeps
      both properties, provided a kept `(` has no `)` anywhere after it. */
  lemma KeepFirstOrder(s: string, tail: string)
    requires s != []
    requires forall k :: 0 <= k < |tail| ==> tail[k] in s[1..]
    requires NoOpenBeforeClose(tail)
    requires s[0] == '(' ==> ')' !in s[1..]
    ensures forall k :: 0 <= k < |[s[0]] + tail| ==> ([s[0]] + tail)[k] in s
    ensures NoOpenBeforeClose([s[0]] + tail)
  {
    var r := [s[0]] + tail;
    forall k | 0 <= k < |r| ensures r[k] in s {
      if k > 0 { assert r[k] == tail[k - 1] && tail[k - 1] in s[1..]; }
    }
    forall i, j | 0 <= i < j < |r| ensures r[i] != '(' || r[j] != ')' {
      assert r[j] == tail[j - 1] && tail[j - 1] in s[1..];
      if i > 0 {
        assert r[i] == tail[i - 1];
      }
    }
  }

  lemma SliceKeepsParenOrder(s: string, i: nat, j: nat)
    requires i <= j <= |s| && NoOpenBeforeClose(s)
    ensures NoOpenBeforeClose(s[i..j])
  {
    var t := s[i..j];
    forall a, b | 0 <= a < b < |t| ensures t[a] != '(' || t[b] != ')' {
      assert t[a] == s[i + a] && t[b] == s[i + b];
    }
  }

  /** `_strip_parentheticals`: remove the parenthesised spans, then strip whitespace. */
  function StripParentheticals(s: string): string {
    Strip(RemoveParenthesized(s), Whitespace)
  }

  /** What `_strip_parentheticals` leaves has no `(` with a `)` after it, and no
      whitespace at either end. */
  lemma StripParentheticalsShape(s: string)
    ensures var r := StripParentheticals(s);
      && NoOpenBeforeClose(r)
      && (r == [] || (r[0] !in Whitespace && r[|r| - 1] !in Whitespace))
  {
    RemoveParenthesizedOrder(s);
    StripKeepsParenOrder(RemoveParenthesized(s), Whitespace);
  }

  /** Stripping keeps a string free of a `(` with a `)` after it. */
  lemma StripKeepsParenOrder(t: string, cs: set<char>)
    requires NoOpenBeforeClose(t)
    ensures NoOpenBeforeClose(Strip(t, cs))
  {
    StripIsSlice(t, cs);
    var i := LeadingIn(t, cs);
    SliceKeepsParenOrder(t, i, i + |Strip(t, cs)|);
  }

  /** Text without `(` passes through the removal unchanged. */
  lemma {:induction false} RemoveParenthesizedPlain(x: string, y: string)
    requires '(' !in x
    ensures RemoveParenthesized(x + y) == x + RemoveParenthesized(y)
    decreases |x|
  {
    if x != [] {
      assert (x + y)[0] == x[0] && x[0] != '(';
      assert (x + y)[1..] == x[1..] + y;
      RemoveParenthesizedPlain(x[1..], y);
      assert x == [x[0]] + x[1..];
    } else {
      assert x + y == y;
    }
  }

  /** A parenthesised span without `)` inside is removed whole. */
  lemma RemoveParenthesizedSpan(z: string, y: string)
    requires ')' !in z
    ensures RemoveParenthesized("(" + z + ")" + y) == RemoveParenthesized(y)
  {
    var s := "(" + z + ")" + y;
    assert s[1..] == z + ")" + y;
    assert s[1..][|z|] == ')';
    assert FirstIn(s[1..], {')'}) == |z|;
    assert s[|z| + 2..] == y;
  }

  /** A term followed by a space and a parenthesised note loses the note and the space:
      `"term (informal)"` becomes `"term"`. */
  lemma StripTrailingNote(x: string, z: string)
    requires '(' !in x && ')' !in z
    requires x == [] || (x[0] !in Whitespace && x[|x| - 1] !in Whitespace)
    ensures StripParentheticals(x + " " + ("(" + z + ")")) == x
  {
    RemoveTrailingNote(x + " ", z);
    assert x + " " == "" + x + " ";
    StripPadded("", x, " ", Whitespace);
  }

  /** Removing a final parenthesised note leaves the text before it. */
  lemma RemoveTrailingNote(x: string, z: string)
    requires '(' !in x && ')' !in z
    ensures RemoveParenthesized(x + ("(" + z + ")")) == x
  {
    var note := "(" + z + ")";
    RemoveParenthesizedSpan(z, []);
    assert note + [] == note;
    assert RemoveParenthesized(note) == [];
    RemoveParenthesizedPlain(x, note);
    assert x + RemoveParenthesized(note) == x;
  }

  /** The pieces of an English Wikipedia article URL before the title. */
  const Https: string := "https://"
  const Http: string := "http://"
  const EnglishHost: string := "en."
  const WikiPath: string := "wikipedia.org/wiki/"

  /** Index just after `https?://(en\.)?wikipedia\.org/wiki/` when `s` starts with it. */
  function ArticlePathStart(s: string): (r: Option<nat>)
    ensures r.Some? ==> r.value <= |s|
  {
    var scheme := if StartsWith(s, Https) then |Https| else if StartsWith(s, Http) then |Http| else 0;
    if scheme == 0 then None
    else
      var host := if StartsWith(s[scheme..], EnglishHost) then scheme + |EnglishHost| else scheme;
      if StartsWith(s[host..], WikiPath) then Some(host + |WikiPath|) else None
  }

  /** The second group of `^https?://(en\.)?wikipedia\.org/wiki/([^#\?]+)`: the
      non-empty run of characters after the prefix that stops at the first `#` or `?`. */
  function ArticleName(s: string): (r: Option<string>)
    ensures r.Some? ==> r.value != [] && '#' !in r.value && '?' !in r.value
  {
    match ArticlePathStart(s)
    case None => None
    case Some(p) =>
      var rest := s[p..];
      var n := FirstIn(rest, {'#', '?'});
      if n == 0 then None else Some(rest[..n])
  }

  /** The title decoding of `resolve_en_title`: `_` becomes a space, then `%28` and `%29`
      become parentheses. */
  function DecodeTitle(raw: string): string {
    ReplaceAll(ReplaceAll(ReplaceAll(raw, "_", " "), "%28", "("), "%29", ")")
  }

  /** The title an English Wikipedia article URL names, if `s` is such a URL. */
  function TitleFromUrl(s: string): Option<string> {
    match ArticleName(s)
    case None => None
    case Some(raw) => Some(DecodeTitle(raw))
  }

  /** The URL branch and the empty-input branch of `resolve_en_title`, with the outcome
      of the remote title search given as `search` (`None` when it fails). */
  function ResolveTitle(termOrUrl: string, search: Option<string>): (r: Option<string>)
    ensures Strip(termOrUrl, Whitespace) == [] ==> r == None
  {
    var s := Strip(termOrUrl, Whitespace);
    match TitleFromUrl(s)
    case Some(title) => Some(title)
    case None => if s == [] then None else search
  }

  /** How one title character is written in an article URL. Decoding works in three
      stages; `level` says how many of them are still to be undone: at level 1 only `)`
      is written `%29`, at level 2 `(` is also written `%28`, at level 3 a space is also
      written `_`. */
  function EncodeChar(c: char, level: nat): string {
    if c == ')' && level >= 1 then "%29"
    else if c == '(' && level >= 2 then "%28"
    else if c == ' ' && level >= 3 then "_"
    else [c]
  }

  function EncodeWith(t: string, level: nat): string
    decreases |t|
  {
    if t == [] then [] else EncodeChar(t[0], level) + EncodeWith(t[1..], level)
  }

  /** An article title written as the path of its URL. */
  function EncodeTitle(t: string): string {
    EncodeWith(t, 3)
  }

  /** The pattern that decoding stage `level` replaces, and its replacement. */
  function StagePattern(level: nat): string {
    if level == 3 then "_" else if level == 2 then "%28" else "%29"
  }

  function StageReplacement(level: nat): string {
    if level == 3 then " " else if level == 2 then "(" else ")"
  }

  /** Level 0 writes every character as itself. */
  lemma {:induction false} EncodeWithZero(t: string)
    ensures EncodeWith(t, 0) == t
    decreases |t|
  {
    if t != [] {
      EncodeWithZero(t[1..]);
      assert t == [t[0]] + t[1..];
    }
  }

  /** Undoing one stage on one encoded character followed by more text. */
  lemma DecodeChunk(c: char, rest: string, level: nat)
    requires 1 <= level <= 3 && c != '_' && c != '%'
    ensures ReplaceAll(EncodeChar(c, level) + rest, StagePattern(level), StageReplacement(level))
         == EncodeChar(c, level - 1) + ReplaceAll(rest, StagePattern(level), StageReplacement(level))
  {
    var pat, rep := StagePattern(level), StageReplacement(level);
    var chunk := EncodeChar(c, level);
    if chunk == pat {
      ReplaceAllHit(rest, pat, rep);
      assert ReplaceAll(chunk + rest, pat, rep) == rep + ReplaceAll(rest, pat, rep);
    } else if |chunk| == 1 {
      assert chunk == [c] && pat[0] != c;
      ReplaceAllMiss(c, rest, pat, rep);
      assert ReplaceAll(chunk + rest, pat, rep) == chunk + ReplaceAll(rest, pat, rep);
    } else if level == 3 {
      ReplaceAllPlain(chunk, rest, pat, rep);
      assert ReplaceAll(chunk + rest, pat, rep) == chunk + ReplaceAll(rest, pat, rep);
    } else {
      assert chunk == "%29" && pat == "%28";
      SkipCloseCode(chunk, rest, pat, rep);
    }
  }

  /** Decoding `(` passes over an encoded `)`. */
  lemma SkipCloseCode(chunk: string, rest: string, pat: string, rep: string)
    requires chunk == "%29" && pat == "%28"
    ensures ReplaceAll(chunk + rest, pat, rep) == chunk + ReplaceAll(rest, pat, rep)
  {
    assert chunk + rest == ['%'] + ("29" + rest);
    assert (chunk + rest)[2] == '9' && pat[2] == '8';
    ReplaceAllMiss('%', "29" + rest, pat, rep);
    ReplaceAllPlain("29", rest, pat, rep);
  }

  /** Undoing one stage of the encoding: replacing that stage's pattern in a title
      encoded to `level` gives the title encoded to `level - 1`. */
  lemma {:induction false} DecodeStage(t: string, level: nat)
    requires 1 <= level <= 3
    requires '_' !in t && '%' !in t
    ensures ReplaceAll(EncodeWith(t, level), StagePattern(level), StageReplacement(level))
         == EncodeWith(t, level - 1)
    decreases |t|
  {
    if t != [] {
      assert t[0] in t && '_' !in t[1..] && '%' !in t[1..];
      DecodeStage(t[1..], level);
      DecodeChunk(t[0], EncodeWith(t[1..], level), level);
    }
  }

  /** `DecodeTitle` undoes `EncodeTitle` for titles without `_` or `%`. */
  lemma DecodeEncodeTitle(t: string)
    requires '_' !in t && '%' !in t
    ensures DecodeTitle(EncodeTitle(t)) == t
  {
    DecodeStage(t, 3);
    DecodeStage(t, 2);
    DecodeStage(t, 1);
    EncodeWithZero(t);
  }

  /** Encoding is character by character, so it distributes over concatenation. */
  lemma {:induction false} EncodeWithAppend(a: string, b: string, level: nat)
    ensures EncodeWith(a + b, level) == EncodeWith(a, level) + EncodeWith(b, level)
    decreases |a|
  {
    if a == [] {
      assert a + b == b;
    } else {
      assert (a + b)[0] == a[0] && (a + b)[1..] == a[1..] + b;
      EncodeWithAppend(a[1..], b, level);
    }
  }

  /** Text without spaces or parentheses is its own encoding. */
  lemma {:induction false} EncodeWithPlain(x: string, level: nat)
    requires ' ' !in x && '(' !in x && ')' !in x
    ensures EncodeWith(x, level) == x
    decreases |x|
  {
    if x != [] {
      assert x[0] in x && ' ' !in x[1..] && '(' !in x[1..] && ')' !in x[1..];
      EncodeWithPlain(x[1..], level);
      assert x == [x[0]] + x[1..];
    }
  }

  /** Encoding a title without `#` or `?` produces neither, and is at least as long. */
  lemma {:induction false} EncodeWithNoStop(t: string, level: nat)
    requires '#' !in t && '?' !in t
    ensures |EncodeWith(t, level)| >= |t|
    ensures FirstIn(EncodeWith(t, level), {'#', '?'}) == |EncodeWith(t, level)|
    decreases |t|
  {
    if t != [] {
      assert t[0] in t && '#' !in t[1..] && '?' !in t[1..];
      EncodeWithNoStop(t[1..], level);
      var chunk, rest := EncodeChar(t[0], level), EncodeWith(t[1..], level);
      var e := chunk + rest;
      forall i | 0 <= i < |e| ensures e[i] !in {'#', '?'} {
        if i >= |chunk| { assert e[i] == rest[i - |chunk|]; }
      }
    }
  }

  /** The URL prefix of an English Wikipedia article. */
  const ArticleUrlPrefix: string := Https + (EnglishHost + WikiPath)

  lemma ArticleUrlPrefixMatches(e: string)
    ensures ArticlePathStart(ArticleUrlPrefix + e) == Some(|ArticleUrlPrefix|)
  {
    var s := Https + (EnglishHost + (WikiPath + e));
    assert ArticleUrlPrefix + e == s;
    PrefixThenRest(Https, EnglishHost + (WikiPath + e));
    PrefixThenRest(EnglishHost, WikiPath + e);
    PrefixThenRest(WikiPath, e);
    assert s[|Https|..][|EnglishHost|..] == s[|Https| + |EnglishHost|..];
  }

  /** A string that starts with `a` starts with `a`, and what follows it is `rest`. */
  lemma PrefixThenRest(a: string, rest: string)
    ensures StartsWith(a + rest, a) && (a + rest)[|a|..] == rest
  {
  }

  /** The four prefixes `https?://(en\.)?wikipedia\.org/wiki/` matches. */
  const ArticlePrefixes: set<string> :=
    {Https + (EnglishHost + WikiPath), Https + WikiPath, Http + (EnglishHost + WikiPath), Http + WikiPath}

  /** Each of the four prefixes is recognised, and the title starts right after it. */
  lemma ArticlePathStartOf(p: string, rest: string)
    requires p in ArticlePrefixes
    ensures ArticlePathStart(p + rest) == Some(|p|)
  {
    var s := p + rest;
    if p == Https + (EnglishHost + WikiPath) {
      ArticleUrlPrefixMatches(rest);
    } else if p == Https + WikiPath {
      assert s == Https + (WikiPath + rest);
      PrefixThenRest(Https, WikiPath + rest);
      PrefixThenRest(WikiPath, rest);
      assert (WikiPath + rest)[0] == 'w';
    } else if p == Http + (EnglishHost + WikiPath) {
      assert s == Http + (EnglishHost + (WikiPath + rest));
      assert s[4] == ':';
      PrefixThenRest(Http, EnglishHost + (WikiPath + rest));
      PrefixThenRest(EnglishHost, WikiPath + rest);
      PrefixThenRest(WikiPath, rest);
      assert s[|Http|..][|EnglishHost|..] == s[|Http| + |EnglishHost|..];
    } else {
      assert s == Http + (WikiPath + rest);
      assert s[4] == ':';
      PrefixThenRest(Http, WikiPath + rest);
      PrefixThenRest(WikiPath, rest);
      assert (WikiPath + rest)[0] == 'w';
    }
  }

  /** A string is an article URL exactly when it starts with one of the four prefixes, and
      then the title starts right after the one it starts with. */
  lemma ArticlePathStartPrefix(s: string)
    ensures ArticlePathStart(s).Some? <==> exists p :: p in ArticlePrefixes && StartsWith(s, p)
    ensures ArticlePathStart(s).Some? ==>
      exists p :: p in ArticlePrefixes && StartsWith(s, p) && ArticlePathStart(s) == Some(|p|)
  {
    if ArticlePathStart(s).Some? {
      var scheme := if StartsWith(s, Https) then Https else Http;
      assert StartsWith(s, scheme);
      if StartsWith(s[|scheme|..], EnglishHost) {
        var host := scheme + EnglishHost;
        assert host + WikiPath == scheme + (EnglishHost + WikiPath);
        PrefixJoin(s, scheme, EnglishHost);
        assert s[|host|..] == s[|scheme|..][|EnglishHost|..];
        PrefixJoin(s, host, WikiPath);
        assert scheme + (EnglishHost + WikiPath) in ArticlePrefixes;
      } else {
        PrefixJoin(s, scheme, WikiPath);
        assert scheme + WikiPath in ArticlePrefixes;
      }
    }
    if exists p :: p in ArticlePrefixes && StartsWith(s, p) {
      var p :| p in ArticlePrefixes && StartsWith(s, p);
      assert s == p + s[|p|..];
      ArticlePathStartOf(p, s[|p|..]);
    }
  }

  /** A string that starts with `a`, followed by `b`, starts with `a + b`. */
  lemma PrefixJoin(s: string, a: string, b: string)
    requires StartsWith(s, a) && StartsWith(s[|a|..], b)
    ensures StartsWith(s, a + b)
  {
    assert s[..|a| + |b|] == s[..|a|] + s[|a|..][..|b|];
  }

  /** The title group of an article URL is the path up to the first `#` or `?`, or up to
      the end: for any of the four prefixes, a non-empty path without `#` or `?`, and a
      tail that is empty or starts with one of them, the group is that path. */
  lemma ArticleNameOf(p: string, t: string, tail: string)
    requires p in ArticlePrefixes
    requires t != [] && '#' !in t && '?' !in t
    requires tail == [] || tail[0] == '#' || tail[0] == '?'
    ensures ArticleName(p + t + tail) == Some(t)
  {
    var s := p + t + tail;
    assert s == p + (t + tail);
    ArticlePathStartOf(p, t + tail);
    assert s[|p|..] == t + tail;
    PathStop(t, tail);
    assert (t + tail)[..|t|] == t;
  }

  /** An article URL whose path is empty or starts with `#` or `?` has no title. */
  lemma ArticleNameEmpty(p: string, tail: string)
    requires p in ArticlePrefixes
    requires tail == [] || tail[0] == '#' || tail[0] == '?'
    ensures ArticleName(p + tail) == None
  {
    ArticlePathStartOf(p, tail);
    assert (p + tail)[|p|..] == tail;
  }

  /** The first `#` or `?` of `t + tail` is where `tail` starts. */
  lemma PathStop(t: string, tail: string)
    requires '#' !in t && '?' !in t
    requires tail == [] || tail[0] == '#' || tail[0] == '?'
    ensures FirstIn(t + tail, {'#', '?'}) == |t|
  {
    var s := t + tail;
    assert forall i :: 0 <= i < |t| ==> s[i] == t[i];
    assert tail != [] ==> s[|t|] == tail[0];
  }

  /** The URL of an article, decoded, gives the article's title back: titles without `_`,
      `%`, `#` or `?` survive the trip through `EncodeTitle` and `TitleFromUrl`. */
  lemma TitleFromArticleUrl(t: string)
    requires t != [] && '_' !in t && '%' !in t && '#' !in t && '?' !in t
    ensures TitleFromUrl(ArticleUrlPrefix + EncodeTitle(t)) == Some(t)
  {
    var e := EncodeTitle(t);
    ArticleUrlPrefixMatches(e);
    assert (ArticleUrlPrefix + e)[|ArticleUrlPrefix|..] == e;
    EncodeWithNoStop(t, 3);
    assert e[..|e|] == e;
    DecodeEncodeTitle(t);
  }

  /** `resolve_en_title` given an article URL, even with surrounding whitespace, answers
      with the article's title and does not search. */
  lemma ResolveArticleUrl(t: string, pad: string, search: Option<string>)
    requires t != [] && '_' !in t && '%' !in t && '#' !in t && '?' !in t
    requires t[|t| - 1] !in Whitespace
    requires forall i :: 0 <= i < |pad| ==> pad[i] in Whitespace
    ensures ResolveTitle(pad + (ArticleUrlPrefix + EncodeTitle(t)) + pad, search) == Some(t)
  {
    var url := ArticleUrlPrefix + EncodeTitle(t);
    ArticleUrlEnds(t);
    StripPadded(pad, url, pad, Whitespace);
    TitleFromArticleUrl(t);
  }

  /** The URL of an article whose title does not end in whitespace neither starts nor
      ends with whitespace. */
  lemma ArticleUrlEnds(t: string)
    requires t != [] && t[|t| - 1] !in Whitespace
    ensures var url := ArticleUrlPrefix + EncodeTitle(t);
      url != [] && url[0] !in Whitespace && url[|url| - 1] !in Whitespace
  {
    var n := |t| - 1;
    var e := EncodeTitle(t);
    assert t == t[..n] + [t[n]];
    EncodeWithAppend(t[..n], [t[n]], 3);
    assert EncodeWith([t[n]], 3) == EncodeChar(t[n], 3) + [];
    assert e[|e| - 1] !in Whitespace;
    var url := ArticleUrlPrefix + e;
    assert url[|url| - 1] == e[|e| - 1];
    assert url[0] == Https[0] == 'h';
  }

  /** Characters the encoding or the decoding of a title treats specially. */
  const TitleSpecials: set<char> := {' ', '(', ')', '_', '%', '#', '?'}

  /** Two plain words joined by a space are encoded joined by `_`. */
  lemma TwoWordEncoding(first: string, second: string)
    requires forall c :: c in first ==> c !in TitleSpecials
    requires forall c :: c in second ==> c !in TitleSpecials
    ensures EncodeTitle(first + (" " + second)) == first + ("_" + second)
  {
    EncodeWithAppend(first, " " + second, 3);
    EncodeWithAppend(" ", second, 3);
    EncodeWithPlain(first, 3);
    EncodeWithPlain(second, 3);
    assert EncodeWith(" ", 3) == "_" + [];
  }

  /** Two plain words joined by a space hold none of `_`, `%`, `#` and `?`. */
  lemma TwoWordPlain(first: string, second: string)
    requires forall c :: c in first ==> c !in TitleSpecials
    requires forall c :: c in second ==> c !in TitleSpecials
    ensures var t := first + (" " + second);
      '_' !in t && '%' !in t && '#' !in t && '?' !in t
  {
    var t := first + (" " + second);
    forall i | 0 <= i < |t| ensures t[i] != '_' && t[i] != '%' && t[i] != '#' && t[i] != '?' {
      if i < |first| {
        assert t[i] == first[i] && first[i] in first;
      } else if i > |first| {
        assert t[i] == second[i - |first| - 1] && second[i - |first| - 1] in second;
      }
    }
  }

  /** A two-word title such as `Burkitt lymphoma` is read back from the URL path
      `Burkitt_lymphoma`: the `_` between the words decodes to a space. */
  lemma TwoWordTitleUrl(first: string, second: string)
    requires forall c :: c in first ==> c !in TitleSpecials
    requires forall c :: c in second ==> c !in TitleSpecials
    ensures TitleFromUrl(ArticleUrlPrefix + (first + ("_" + second))) == Some(first + (" " + second))
  {
    TwoWordEncoding(first, second);
    TwoWordPlain(first, second);
    TitleFromArticleUrl(first + (" " + second));
  }
}
