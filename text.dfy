/** The Python string built-ins that the dictionary parser and the lookup helpers rely
    on, over `string` (a sequence of Unicode code points). */
module Text {

  /** Python's `str.isspace()`: tab to carriage return, the four information separators,
      the space, NEL, no-break space and the Unicode space separators. */
  predicate IsSpace(c: char) {
    c == ' ' || '\t' <= c <= '\r' || '\U{001C}' <= c <= '\U{001F}' || c == '\U{0085}'
    || c == '\U{00A0}' || c == '\U{1680}' || '\U{2000}' <= c <= '\U{200A}' || c == '\U{2028}'
    || c == '\U{2029}' || c == '\U{202F}' || c == '\U{205F}' || c == '\U{3000}'
  }

  /** The characters for which `str.isspace()` holds. `str.strip()` with no argument,
      `str.split()` with no argument and the `\s` class of `re` all use it. */
  const Whitespace: set<char> := set c: char | '\t' <= c <= '\U{3000}' && IsSpace(c)

  predicate StartsWith(s: string, prefix: string) {
    prefix <= s
  }

  predicate EndsWith(s: string, suffix: string) {
    |suffix| <= |s| && s[|s| - |suffix|..] == suffix
  }

  /** Length of the longest prefix of `s` made of characters of `cs`. */
  function LeadingIn(s: string, cs: set<char>): (n: nat)
    ensures n <= |s|
    ensures forall i :: 0 <= i < n ==> s[i] in cs
    ensures n < |s| ==> s[n] !in cs
  {
    if s == [] || s[0] !in cs then 0 else 1 + LeadingIn(s[1..], cs)
  }

  /** Length of the longest suffix of `s` made of characters of `cs`. */
  function TrailingIn(s: string, cs: set<char>): (n: nat)
    ensures n <= |s|
    ensures forall i :: |s| - n <= i < |s| ==> s[i] in cs
    ensures n < |s| ==> s[|s| - n - 1] !in cs
  {
    if s == [] || s[|s| - 1] !in cs then 0 else 1 + TrailingIn(s[..|s| - 1], cs)
  }

  /** Index of the first character of `s` that is in `cs`, or `|s|` when there is none. */
  function FirstIn(s: string, cs: set<char>): (n: nat)
    ensures n <= |s|
    ensures forall i :: 0 <= i < n ==> s[i] !in cs
    ensures n < |s| ==> s[n] in cs
  {
    if s == [] || s[0] in cs then 0 else 1 + FirstIn(s[1..], cs)
  }

  /** Python's `s.strip(chars)`: the characters of `cs` removed from both ends. */
  function Strip(s: string, cs: set<char>): (r: string)
    ensures |r| <= |s|
    ensures r == [] || (r[0] !in cs && r[|r| - 1] !in cs)
    ensures r == [] <==> forall i :: 0 <= i < |s| ==> s[i] in cs
  {
    var t := s[LeadingIn(s, cs)..];
    t[..|t| - TrailingIn(t, cs)]
  }

  lemma ConcatAssoc<T>(a: seq<T>, x: seq<T>, b: seq<T>)
    ensures a + (x + b) == a + x + b
  {
  }

  /** `Strip` keeps one contiguous piece of its input and drops only characters of `cs`. */
  lemma StripSplit(s: string, cs: set<char>) returns (a: string, b: string)
    ensures s == a + Strip(s, cs) + b
    ensures forall k :: 0 <= k < |a| ==> a[k] in cs
    ensures forall k :: 0 <= k < |b| ==> b[k] in cs
  {
    var i := LeadingIn(s, cs);
    var t := s[i..];
    var m := TrailingIn(t, cs);
    a, b := s[..i], t[|t| - m..];
    assert forall k :: 0 <= k < |a| ==> a[k] in cs by {
      forall k | 0 <= k < |a| ensures a[k] in cs {
        assert a[k] == s[k];
      }
    }
    assert forall k :: 0 <= k < |b| ==> b[k] in cs by {
      forall k | 0 <= k < |b| ensures b[k] in cs {
        assert b[k] == t[|t| - m + k];
      }
    }
    var x := Strip(s, cs);
    assert x == t[..|t| - m];
    assert s == a + (x + b);
    ConcatAssoc(a, x, b);
  }

  /** The slice that `Strip` keeps starts after the leading characters of `cs`. */
  lemma StripIsSlice(s: string, cs: set<char>)
    ensures LeadingIn(s, cs) + |Strip(s, cs)| <= |s|
    ensures Strip(s, cs) == s[LeadingIn(s, cs)..LeadingIn(s, cs) + |Strip(s, cs)|]
  {
  }

  /** Stripping a core padded with characters of `cs` gives the core back, when the core
      neither starts nor ends with such a character. */
  lemma StripPadded(a: string, x: string, b: string, cs: set<char>)
    requires forall c :: c in a ==> c in cs
    requires forall c :: c in b ==> c in cs
    requires x == [] || (x[0] !in cs && x[|x| - 1] !in cs)
    ensures Strip(a + x + b, cs) == x
  {
    var s := a + x + b;
    if x == [] {
      assert forall i :: 0 <= i < |s| ==> s[i] in cs by {
        forall i | 0 <= i < |s| ensures s[i] in cs {
          if i < |a| { assert s[i] == a[i]; } else { assert s[i] == b[i - |a|]; }
        }
      }
    } else {
      var n := LeadingIn(s, cs);
      assert s[|a|] == x[0];
      assert n == |a|;
      var t := s[n..];
      assert t == x + b;
      var m := TrailingIn(t, cs);
      assert t[|t| - |b| - 1] == x[|x| - 1];
      assert m == |b|;
      assert t[..|t| - m] == x;
    }
  }

  /** Stripping changes nothing when neither end is a character of `cs`. */
  lemma StripFixed(s: string, cs: set<char>)
    requires s == [] || (s[0] !in cs && s[|s| - 1] !in cs)
    ensures Strip(s, cs) == s
  {
    StripPadded([], s, [], cs);
    assert [] + s + [] == s;
  }

  /** `s.strip(chars)` is idempotent. */
  lemma StripIdempotent(s: string, cs: set<char>)
    ensures Strip(Strip(s, cs), cs) == Strip(s, cs)
  {
    StripFixed(Strip(s, cs), cs);
  }

  /** The capital letters of the Polish alphabet outside Latin-1 (Ą Ć Ę Ł Ń Ś Ź Ż); each
      one's lower-case form is the next code point. */
  const PolishCapitals: set<char> := {
    '\U{0104}', '\U{0106}', '\U{0118}', '\U{0141}', '\U{0143}', '\U{015A}', '\U{0179}', '\U{017B}'
  }

  /** Python's `str.lower()` on one character, for ASCII, Latin-1 and the Polish alphabet. */
  function LowerChar(c: char): char {
    if 'A' <= c <= 'Z' || ('\U{00C0}' <= c <= '\U{00DE}' && c != '\U{00D7}') then
      (c as int + 32) as char
    else if c in PolishCapitals then
      (c as int + 1) as char
    else
      c
  }

  /** Lower-casing is idempotent and maps whitespace to whitespace and nothing else to it. */
  lemma LowerCharFacts(c: char)
    ensures LowerChar(LowerChar(c)) == LowerChar(c)
    ensures LowerChar(c) in Whitespace <==> c in Whitespace
  {
  }

  /** Python's `s.lower()`. */
  function Lower(s: string): (r: string)
    ensures |r| == |s| && forall i :: 0 <= i < |s| ==> r[i] == LowerChar(s[i])
  {
    seq(|s|, i requires 0 <= i < |s| => LowerChar(s[i]))
  }

  lemma LowerAppend(a: string, b: string)
    ensures Lower(a + b) == Lower(a) + Lower(b)
  {
  }

  lemma LowerIdempotent(s: string)
    ensures Lower(Lower(s)) == Lower(s)
  {
    forall i | 0 <= i < |s| ensures Lower(Lower(s))[i] == Lower(s)[i] {
      LowerCharFacts(s[i]);
    }
  }

  /** Lower-casing a run of whitespace gives a run of whitespace. */
  lemma LowerKeepsWhitespace(a: string)
    requires forall i :: 0 <= i < |a| ==> a[i] in Whitespace
    ensures forall c :: c in Lower(a) ==> c in Whitespace
  {
    forall i | 0 <= i < |a| ensures Lower(a)[i] in Whitespace {
      LowerCharFacts(a[i]);
    }
  }

  /** Lower-casing keeps a non-whitespace character at either end. */
  lemma LowerKeepsEnds(x: string)
    requires x == [] || (x[0] !in Whitespace && x[|x| - 1] !in Whitespace)
    ensures Lower(x) == [] || (Lower(x)[0] !in Whitespace && Lower(x)[|x| - 1] !in Whitespace)
  {
    if x != [] {
      LowerCharFacts(x[0]);
      LowerCharFacts(x[|x| - 1]);
    }
  }

  /** Lower-casing a core padded with whitespace and then stripping gives the lower-cased
      core. */
  lemma LowerStripPadded(a: string, x: string, b: string)
    requires forall i :: 0 <= i < |a| ==> a[i] in Whitespace
    requires forall i :: 0 <= i < |b| ==> b[i] in Whitespace
    requires x == [] || (x[0] !in Whitespace && x[|x| - 1] !in Whitespace)
    ensures Strip(Lower(a + x + b), Whitespace) == Lower(x)
  {
    LowerAppend(a + x, b);
    LowerAppend(a, x);
    LowerKeepsWhitespace(a);
    LowerKeepsWhitespace(b);
    LowerKeepsEnds(x);
    StripPadded(Lower(a), Lower(x), Lower(b), Whitespace);
  }

  /** Lower-casing commutes with stripping whitespace, because it neither creates nor
      removes whitespace. */
  lemma LowerStrip(s: string)
    ensures Lower(Strip(s, Whitespace)) == Strip(Lower(s), Whitespace)
  {
    var a, b := StripSplit(s, Whitespace);
    LowerStripPadded(a, Strip(s, Whitespace), b);
  }

  /** Python's `s.split()`: the maximal runs of non-whitespace characters, in order. */
  function Words(s: string): (ws: seq<string>)
    ensures forall w :: w in ws ==> w != [] && forall c :: c in w ==> c !in Whitespace
    decreases |s|
  {
    var t := s[LeadingIn(s, Whitespace)..];
    if t == [] then []
    else
      var n := FirstIn(t, Whitespace);
      [t[..n]] + Words(t[n..])
  }

  /** Leading whitespace is skipped: it starts no word. */
  lemma WordsSkip(a: string, x: string)
    requires forall i :: 0 <= i < |a| ==> a[i] in Whitespace
    requires x == [] || x[0] !in Whitespace
    ensures Words(a + x) == Words(x)
  {
    var s := a + x;
    assert forall i :: 0 <= i < |a| ==> s[i] == a[i];
    assert x != [] ==> s[|a|] == x[0];
    var n := LeadingIn(s, Whitespace);
    assert n == |a|;
    assert s[n..] == x;
    assert LeadingIn(x, Whitespace) == 0 by {
      if x != [] { assert x[0] !in Whitespace; }
    }
    assert x[0..] == x;
  }

  /** A word followed by whitespace, or by nothing, is the first word. */
  lemma WordsFirst(w: string, y: string)
    requires w != [] && forall c :: c in w ==> c !in Whitespace
    requires y == [] || y[0] in Whitespace
    ensures Words(w + y) == [w] + Words(y)
  {
    var s := w + y;
    assert s[0] == w[0];
    assert LeadingIn(s, Whitespace) == 0;
    assert s[0..] == s;
    assert forall i :: 0 <= i < |w| ==> s[i] == w[i];
    assert y != [] ==> s[|w|] == y[0];
    var n := FirstIn(s, Whitespace);
    assert n == |w|;
    assert s[..n] == w && s[n..] == y;
  }

  /** A word as `str.split()` yields it: non-empty, without whitespace. */
  predicate PlainWord(w: string) {
    w != [] && forall c :: c in w ==> c !in Whitespace
  }

  /** Splitting words joined by single spaces gives the words back. */
  lemma {:induction false} WordsOfJoin(ws: seq<string>)
    requires forall i :: 0 <= i < |ws| ==> PlainWord(ws[i])
    ensures Words(Join(" ", ws)) == ws
    decreases |ws|
  {
    if ws == [] {
      assert Words("") == [];
    } else if |ws| == 1 {
      WordsFirst(ws[0], []);
      assert ws[0] + [] == ws[0];
      assert Words([]) == [];
    } else {
      WordsOfJoin(ws[1..]);
      WordsOfJoinStep(ws[0], ws[1..]);
    }
  }

  /** One more word in front of a non-empty list of words. */
  lemma WordsOfJoinStep(w: string, ws: seq<string>)
    requires PlainWord(w) && ws != [] && PlainWord(ws[0])
    requires Words(Join(" ", ws)) == ws
    ensures Words(Join(" ", [w] + ws)) == [w] + ws
  {
    var rest := Join(" ", ws);
    JoinCons(" ", w, ws);
    JoinHead(" ", ws);
    assert ws[0][0] in ws[0];
    WordsFirst(w, " " + rest);
    WordsSkip(" ", rest);
  }

  /** Joining a word in front of a non-empty list puts the separator after it. */
  lemma JoinCons(sep: string, w: string, ws: seq<string>)
    requires ws != []
    ensures Join(sep, [w] + ws) == w + (sep + Join(sep, ws))
  {
    assert ([w] + ws)[1..] == ws;
    ConcatAssoc(w, sep, Join(sep, ws));
  }

  /** A join starts with the first character of the first item. */
  lemma JoinHead(sep: string, ws: seq<string>)
    requires ws != [] && ws[0] != []
    ensures Join(sep, ws) != [] && Join(sep, ws)[0] == ws[0][0]
  {
  }

  /** Python's `sep.join(xs)`. */
  function Join(sep: string, xs: seq<string>): string {
    if xs == [] then ""
    else if |xs| == 1 then xs[0]
    else xs[0] + sep + Join(sep, xs[1..])
  }

  /** Joining the two halves of a split list, with the separator between them, joins the
      whole list. */
  lemma {:induction false} JoinSplitAt(sep: string, xs: seq<string>, k: nat)
    requires 1 <= k < |xs|
    ensures Join(sep, xs[..k]) + sep + Join(sep, xs[k..]) == Join(sep, xs)
  {
    if k == 1 {
      assert xs[..1] == [xs[0]];
      assert xs[1..] == xs[k..];
    } else {
      JoinSplitAt(sep, xs[1..], k - 1);
      assert xs[1..][..k - 1] == xs[..k][1..];
      assert xs[1..][k - 1..] == xs[k..];
    }
  }

  /** Joining non-empty words gives a string that starts with the first word's first
      character and ends with the last word's last character. */
  lemma {:induction false} JoinEnds(sep: string, xs: seq<string>)
    requires xs != [] && forall i :: 0 <= i < |xs| ==> xs[i] != []
    ensures Join(sep, xs) != []
    ensures Join(sep, xs)[0] == xs[0][0]
    ensures Join(sep, xs)[|Join(sep, xs)| - 1] == xs[|xs| - 1][|xs[|xs| - 1]| - 1]
  {
    if |xs| > 1 {
      var rest := xs[1..];
      JoinEnds(sep, rest);
      var j := Join(sep, rest);
      assert Join(sep, xs) == xs[0] + sep + j;
      assert (xs[0] + sep + j)[0] == xs[0][0];
      assert (xs[0] + sep + j)[|xs[0] + sep + j| - 1] == j[|j| - 1];
      assert rest[|rest| - 1] == xs[|xs| - 1];
    }
  }

  /** Python's `s.split(sep)` for a one-character separator: the pieces between the
      separators, empty pieces included. */
  function SplitOn(s: string, sep: char): (parts: seq<string>)
    ensures parts != []
    ensures forall p :: p in parts ==> sep !in p
    decreases |s|
  {
    var i := FirstIn(s, {sep});
    if i == |s| then [s] else [s[..i]] + SplitOn(s[i + 1..], sep)
  }

  /** Splitting on a separator and joining with it gives the original string back. */
  lemma {:induction false} JoinSplitOn(s: string, sep: char)
    ensures Join([sep], SplitOn(s, sep)) == s
    decreases |s|
  {
    var i := FirstIn(s, {sep});
    if i < |s| {
      var rest := s[i + 1..];
      var parts := SplitOn(s, sep);
      assert parts == [s[..i]] + SplitOn(rest, sep);
      assert parts[1..] == SplitOn(rest, sep);
      JoinSplitOn(rest, sep);
      assert Join([sep], parts) == s[..i] + [sep] + Join([sep], parts[1..]);
      assert s == s[..i] + [sep] + rest;
    } else {
      assert SplitOn(s, sep) == [s];
    }
  }

  /** `[t.strip() for t in xs if t.strip()]`: the stripped items that are not empty. */
  function StrippedNonEmpty(xs: seq<string>): (r: seq<string>)
    ensures |r| <= |xs|
    ensures forall t :: t in r ==> t != [] && Strip(t, Whitespace) == t
  {
    if xs == [] then []
    else
      var rest := StrippedNonEmpty(xs[..|xs| - 1]);
      var t := Strip(xs[|xs| - 1], Whitespace);
      StripIdempotent(xs[|xs| - 1], Whitespace);
      if t == [] then rest else rest + [t]
  }

  /** Python's `s.replace(pat, rep)` (and `re.sub` with a literal pattern): every
      occurrence, scanning left to right without overlaps. */
  function ReplaceAll(s: string, pat: string, rep: string): string
    requires pat != []
    decreases |s|
  {
    if s == [] then []
    else if pat <= s then rep + ReplaceAll(s[|pat|..], pat, rep)
    else [s[0]] + ReplaceAll(s[1..], pat, rep)
  }

  /** A string that starts with the pattern has the replacement emitted first. */
  lemma ReplaceAllHit(y: string, pat: string, rep: string)
    requires pat != []
    ensures ReplaceAll(pat + y, pat, rep) == rep + ReplaceAll(y, pat, rep)
  {
    assert (pat + y)[|pat|..] == y;
  }

  /** A first character that does not start the pattern is copied through. */
  lemma ReplaceAllMiss(c: char, y: string, pat: string, rep: string)
    requires pat != [] && !(pat <= [c] + y)
    ensures ReplaceAll([c] + y, pat, rep) == [c] + ReplaceAll(y, pat, rep)
  {
    assert ([c] + y)[1..] == y;
  }

  /** Text in which the pattern's first character does not occur is copied through. */
  lemma {:induction false} ReplaceAllPlain(x: string, y: string, pat: string, rep: string)
    requires pat != [] && pat[0] !in x
    ensures ReplaceAll(x + y, pat, rep) == x + ReplaceAll(y, pat, rep)
    decreases |x|
  {
    if x == [] {
      assert x + y == y;
    } else {
      assert x + y == [x[0]] + (x[1..] + y);
      ReplaceAllMiss(x[0], x[1..] + y, pat, rep);
      ReplaceAllPlain(x[1..], y, pat, rep);
      assert x == [x[0]] + x[1..];
    }
  }

  /** A list without repeated items. */
  predicate NoDuplicates<T(==)>(xs: seq<T>) {
    forall i, j :: 0 <= i < j < |xs| ==> xs[i] != xs[j]
  }
}
