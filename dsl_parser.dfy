/** The classes of `app/dsl_parser.py`, updated in place: `DSLEntry`, `DSLParser` and the
    two lazily built parsers `dsl_lookup` consults. Every method is proved to compute what
    the functions of `DslSpec` describe. A dictionary file is given as its lines (each
    with its line terminator), or `None` when it does not exist. */
module DslParser {
  import opened Wrappers
  import opened Text
  import opened DslSpec

  /** `DSLEntry`. */
  class Entry {
    var headword: string
    var mainTranslation: string
    var variants: seq<(string, string)>

    /** The entry's contents as a value. */
    function Data(): EntryData
      reads this
    {
      EntryData(headword, mainTranslation, variants)
    }

    constructor(headword: string)
      ensures Data() == NewEntry(headword)
    {
      this.headword := Strip(headword, Whitespace);
      mainTranslation := "";
      variants := [];
    }

    /** `add_main_translation`. */
    method AddMainTranslation(translation: string)
      modifies this
      ensures Data() == WithMain(old(Data()), translation)
    {
      mainTranslation := Strip(translation, Whitespace);
    }

    /** `add_variant`. */
    method AddVariant(source: string, target: string)
      modifies this
      ensures Data() == WithVariant(old(Data()), source, target)
    {
      var s := Strip(source, Whitespace);
      var t := Strip(target, Whitespace);
      if s != [] && t != [] {
        variants := variants + [(s, t)];
      }
    }

    /** `get_all_source_terms`. */
    method GetAllSourceTerms() returns (terms: seq<string>)
      ensures terms == SourceTerms(Data())
    {
      var vs := variants;
      terms := [headword];
      var i := 0;
      while i < |vs|
        invariant 0 <= i <= |vs|
        invariant terms == [headword] + Sources(vs[..i])
      {
        SourcesPrefix(vs, i);
        terms := terms + [vs[i].0];
        i := i + 1;
      }
      assert vs[..i] == vs;
    }

    /** `get_all_target_terms`. */
    method GetAllTargetTerms() returns (terms: seq<string>)
      ensures terms == TargetTerms(Data())
    {
      terms := [];
      if mainTranslation != [] {
        terms := terms + [mainTranslation];
      }
      var pieces := VariantPieces(variants);
      terms := terms + pieces;
    }
  }

  /** The loop of `get_all_target_terms` over the variants. */
  method VariantPieces(vs: seq<(string, string)>) returns (terms: seq<string>)
    ensures terms == AllPieces(vs)
  {
    terms := [];
    var i := 0;
    while i < |vs|
      invariant 0 <= i <= |vs|
      invariant terms == AllPieces(vs[..i])
    {
      AllPiecesPrefix(vs, i);
      var pieces := CommaPieces(vs[i].1);
      terms := terms + pieces;
      i := i + 1;
    }
    assert vs[..i] == vs;
  }

  /** The inner loop of `get_all_target_terms`: the stripped, non-empty comma-separated
      parts of one target. */
  method CommaPieces(target: string) returns (pieces: seq<string>)
    ensures pieces == TargetPieces(target)
  {
    var parts := SplitOn(target, ',');
    pieces := [];
    var j := 0;
    while j < |parts|
      invariant 0 <= j <= |parts|
      invariant pieces == StrippedNonEmpty(parts[..j])
    {
      StrippedNonEmptyPrefix(parts, j);
      var t := Strip(parts[j], Whitespace);
      if t != [] {
        pieces := pieces + [t];
      }
      j := j + 1;
    }
    assert parts[..j] == parts;
  }

  /** The first index at which `p` holds, found by the `for ... break` loops of the
      split heuristic. */
  method FindFirst(xs: seq<string>, p: string -> bool) returns (r: Option<nat>)
    ensures r == FirstWhere(xs, p)
  {
    var i := 0;
    while i < |xs|
      invariant 0 <= i <= |xs|
      invariant forall j :: 0 <= j < i ==> !p(xs[j])
    {
      if p(xs[i]) {
        return Some(i);
      }
      i := i + 1;
    }
    return None;
  }

  /** The five heuristic steps that choose `split_idx` for a line of at least two words. */
  method FindSplit(words: seq<string>) returns (splitIdx: Option<nat>)
    requires |words| >= 2
    ensures splitIdx == SplitIndex(words)
  {
    splitIdx := FindFirst(words, w => Contains(w, Apostrophes));
    if splitIdx.None? {
      var i := FindFirst(words[..|words| - 1], HasPolishEnding);
      if i.Some? {
        splitIdx := Some(i.value + 1);
      }
    }
    if splitIdx.None? {
      splitIdx := FindFirst(words, HasEnglishPrefix);
    }
    if splitIdx.None? {
      splitIdx := FindFirst(words, IsEnglishMedicalWord);
    }
    if splitIdx.None? && EndsWith(words[0], ".") {
      splitIdx := Some(if |words| - 1 < 2 then |words| - 1 else 2);
    }
  }

  /** The contents of the entry objects a map holds. */
  ghost function Snapshot(entries: map<string, Entry>): (r: map<string, EntryData>)
    reads entries.Values
    ensures r.Keys == entries.Keys
  {
    map k | k in entries :: entries[k].Data()
  }

  /** `DSLParser`. */
  class Parser {
    var entries: map<string, Entry>
    var index: map<string, string>

    /** The entries as values. */
    ghost function Contents(): map<string, EntryData>
      reads this, entries.Values
    {
      Snapshot(entries)
    }

    /** The parser's dictionaries, with `current` the key of the entry being read. */
    ghost function State(current: Option<string>): ParseState
      reads this, entries.Values
    {
      ParseState(Contents(), index, current)
    }

    /** Distinct headwords hold distinct entry objects, so updating one entry in place
        leaves the others as they were. */
    ghost predicate Distinct()
      reads this
    {
      forall k1, k2 :: k1 in entries && k2 in entries && k1 != k2 ==> entries[k1] != entries[k2]
    }

    ghost predicate Valid()
      reads this, entries.Values
    {
      Distinct() && DslSpec.Valid(State(None))
    }

    /** The parser holds what parsing `file` into empty dictionaries gives. */
    ghost predicate BuiltFrom(file: Option<seq<string>>)
      reads this, entries.Values
    {
      Valid() &&
      (file.None? ==> entries == map[] && index == map[]) &&
      (file.Some? ==>
        var st := DslSpec.ParseFile(map[], map[], file.value);
        Contents() == st.entries && index == st.index)
    }

    constructor()
      ensures entries == map[] && index == map[] && Valid()
    {
      entries := map[];
      index := map[];
    }

    /** `_add_to_index`. */
    method AddToIndex(term: string, headword: string)
      modifies this
      ensures entries == old(entries) && Snapshot(entries) == old(Snapshot(entries))
      ensures index == IndexTerm(old(index), term, headword)
    {
      var normalized := Strip(Lower(term), Whitespace);
      if normalized != [] {
        index := index[normalized := Lower(headword)];
      }
    }

    /** `lookup`. */
    method Lookup(term: string) returns (e: Entry?)
      ensures e == null <==> DslSpec.Lookup(Contents(), index, term).None?
      ensures e != null ==> DslSpec.Lookup(Contents(), index, term) == Some(e.Data())
    {
      var normalized := Strip(Lower(term), Whitespace);
      if normalized in index && index[normalized] != [] {
        var headword := index[normalized];
        if headword in entries {
          return entries[headword];
        }
      }
      return null;
    }

    /** `parse_file`: a missing file changes nothing; otherwise the lines are read in
        order. */
    method ParseFile(file: Option<seq<string>>)
      requires Valid()
      modifies this
      ensures Valid()
      ensures file.None? ==> entries == old(entries) && index == old(index)
      ensures file.Some? ==>
        var st := DslSpec.ParseFile(old(Contents()), old(index), file.value);
        Contents() == st.entries && index == st.index
    {
      if file.None? {
        return;
      }
      var lines := file.value;
      ghost var start := State(None);
      var current: Entry? := null;
      ghost var key: Option<string> := None;
      var i := 0;
      while i < |lines|
        invariant 0 <= i <= |lines|
        invariant Distinct() && DslSpec.Valid(start)
        invariant current == null <==> key.None?
        invariant current != null ==> key.value in entries && entries[key.value] == current && fresh(current)
        invariant DslSpec.Valid(State(key))
        invariant State(key) == Parse(start, lines[..i])
      {
        ParsePrefix(start, lines, i);
        current, key := ParseLine(lines[i], current, key);
        i := i + 1;
      }
      assert lines[..i] == lines;
    }

    /** One pass of the loop of `parse_file`. */
    method ParseLine(line: string, current: Entry?, ghost key: Option<string>) returns (next: Entry?, ghost nextKey: Option<string>)
      requires Distinct()
      requires current == null <==> key.None?
      requires current != null ==> key.value in entries && entries[key.value] == current
      modifies this, current
      ensures Distinct()
      ensures next == null <==> nextKey.None?
      ensures next != null ==> nextKey.value in entries && entries[nextKey.value] == next && (next == current || fresh(next))
      ensures State(nextKey) == StepLine(old(State(key)), line)
    {
      next, nextKey := current, key;
      if StartsWith(line, "#") {
        return;
      }
      if IsHeadwordLine(line) {
        var headword := Strip(line, Whitespace);
        if headword != [] {
          next := StartEntry(headword);
          nextKey := Some(Lower(headword));
        }
        return;
      }
      if current == null {
        return;
      }
      var stripped := Strip(line, Whitespace);
      if stripped == [] {
        return;
      }
      ParseIndented(current, key.value, stripped);
    }

    /** A headword line: a new entry under the lower-cased headword, indexed by the
        headword. */
    method StartEntry(headword: string) returns (e: Entry)
      requires Distinct()
      modifies this
      ensures fresh(e) && Distinct()
      ensures entries == old(entries)[Lower(headword) := e]
      ensures Snapshot(entries) == old(Snapshot(entries))[Lower(headword) := NewEntry(headword)]
      ensures index == IndexTerm(old(index), headword, headword)
    {
      ghost var before := Snapshot(entries);
      e := new Entry(headword);
      assert Snapshot(entries) == before;
      PutEntry(Lower(headword), e);
      AddToIndex(headword, headword);
    }

    /** `self.entries[key] = entry`. */
    method PutEntry(key: string, entry: Entry)
      requires Distinct() && entry !in entries.Values
      modifies this
      ensures Distinct()
      ensures entries == old(entries)[key := entry] && index == old(index)
      ensures Snapshot(entries) == old(Snapshot(entries))[key := entry.Data()]
    {
      ghost var before := Snapshot(entries);
      entries := entries[key := entry];
      forall k | k in entries && k != key
        ensures entries[k].Data() == before[k]
      {
        assert entries[k] == old(entries)[k];
      }
    }

    /** A non-empty stripped indented line for the current entry. */
    method ParseIndented(current: Entry, ghost key: string, stripped: string)
      requires Distinct() && key in entries && entries[key] == current
      modifies this, current
      ensures entries == old(entries)
      ensures State(Some(key)) == EntryLine(old(State(Some(key))), key, stripped)
    {
      ghost var st := State(Some(key));
      ghost var e := current.Data();
      assert st.entries[key] == e;
      var variantMatch := MatchVariant(stripped);
      if variantMatch.Some? {
        var source := Strip(variantMatch.value.0, Whitespace);
        var target := Strip(variantMatch.value.1, Whitespace);
        AddVariantAndIndex(current, key, source, target);
      } else if current.mainTranslation == [] {
        SetMainTranslation(current, key, stripped);
      } else {
        var words := Words(stripped);
        if |words| >= 2 {
          var splitIdx := FindSplit(words);
          if splitIdx.Some? && splitIdx.value != 0 && splitIdx.value < |words| {
            var source := Join(" ", words[..splitIdx.value]);
            var target := Join(" ", words[splitIdx.value..]);
            AddVariantAndIndex(current, key, source, target);
          }
        }
      }
    }

    /** `current_entry.add_variant(source, target)` followed by
        `self._add_to_index(source, current_entry.headword)`: the entry under `key`
        changes in place, the others stay as they were. */
    method AddVariantAndIndex(current: Entry, ghost key: string, source: string, target: string)
      requires Distinct() && key in entries && entries[key] == current
      modifies this, current
      ensures entries == old(entries)
      ensures Contents() == old(Contents())[key := WithVariant(old(current.Data()), source, target)]
      ensures index == IndexTerm(old(index), source, old(current.headword))
    {
      SetVariant(current, key, source, target);
      AddToIndex(source, current.headword);
    }

    /** `current_entry.add_variant(source, target)`. */
    method SetVariant(current: Entry, ghost key: string, source: string, target: string)
      requires Distinct() && key in entries && entries[key] == current
      modifies current
      ensures Contents() == old(Contents())[key := WithVariant(old(current.Data()), source, target)]
      ensures current.headword == old(current.headword)
    {
      current.AddVariant(source, target);
      forall k | k in entries && k != key
        ensures entries[k].Data() == old(entries[k].Data())
      {
        assert entries[k] != current;
      }
    }

    /** `current_entry.add_main_translation(stripped)`: the entry under `key` changes in
        place, the others stay as they were. */
    method SetMainTranslation(current: Entry, ghost key: string, translation: string)
      requires Distinct() && key in entries && entries[key] == current
      modifies current
      ensures Contents() == old(Contents())[key := WithMain(old(current.Data()), translation)]
    {
      current.AddMainTranslation(translation);
      forall k | k in entries && k != key
        ensures entries[k].Data() == old(entries[k].Data())
      {
        assert entries[k] != current;
      }
    }
  }

  /** The record `dsl_lookup` returns for a found entry. */
  method BuildReport(entry: Entry) returns (r: LookupResult)
    ensures r == Report(entry.Data())
  {
    var sourceTerms := entry.GetAllSourceTerms();
    var targetTerms := entry.GetAllTargetTerms();
    var pairs: seq<(string, string)> := [];
    if entry.headword != [] && entry.mainTranslation != [] {
      pairs := pairs + [(entry.headword, entry.mainTranslation)];
    }
    ghost var lead := pairs;
    var i := 0;
    while i < |entry.variants|
      invariant 0 <= i <= |entry.variants|
      invariant pairs == lead + entry.variants[..i]
    {
      assert entry.variants[..i + 1] == entry.variants[..i] + [entry.variants[i]];
      pairs := pairs + [entry.variants[i]];
      i := i + 1;
    }
    assert entry.variants[..i] == entry.variants;
    r := LookupResult(entry.headword, sourceTerms, targetTerms, Join(", ", sourceTerms), Join(", ", targetTerms), pairs);
  }

  /** A parser built from scratch and given one dictionary file. */
  method NewParser(file: Option<seq<string>>) returns (p: Parser)
    ensures fresh(p) && p.BuiltFrom(file)
  {
    p := new Parser();
    assert p.Contents() == map[];
    p.ParseFile(file);
  }

  /** The module-level parsers `_en_pl_parser` and `_pl_en_parser`, built on first use. */
  class Dictionaries {
    var enPl: Parser?
    var plEn: Parser?

    ghost predicate Valid()
      reads this, enPl, plEn
      reads if enPl != null then enPl.entries.Values else {}
      reads if plEn != null then plEn.entries.Values else {}
    {
      (enPl != null ==> enPl.Valid()) && (plEn != null ==> plEn.Valid())
    }

    constructor()
      ensures enPl == null && plEn == null
    {
      enPl := null;
      plEn := null;
    }

    /** `get_en_pl_parser`: the first call parses the EN-PL file into a new parser; later
        calls return that parser. */
    method GetEnPlParser(file: Option<seq<string>>) returns (p: Parser)
      requires enPl != null ==> enPl.Valid()
      modifies this
      ensures enPl == p && plEn == old(plEn) && p.Valid()
      ensures old(enPl) != null ==> p == old(enPl)
      ensures old(enPl) == null ==> fresh(p) && p.BuiltFrom(file)
    {
      if enPl == null {
        enPl := NewParser(file);
      }
      p := enPl;
    }

    /** `get_pl_en_parser`: the first call parses the PL-EN file into a new parser; later
        calls return that parser. */
    method GetPlEnParser(file: Option<seq<string>>) returns (p: Parser)
      requires plEn != null ==> plEn.Valid()
      modifies this
      ensures plEn == p && enPl == old(enPl) && p.Valid()
      ensures old(plEn) != null ==> p == old(plEn)
      ensures old(plEn) == null ==> fresh(p) && p.BuiltFrom(file)
    {
      if plEn == null {
        plEn := NewParser(file);
      }
      p := plEn;
    }
    /** `dsl_lookup(term, direction)`: `"en-pl"` consults the EN-PL parser, anything else
        the PL-EN one; the answer is the record of the entry the term leads to. */
    method DslLookup(term: string, direction: string, enPlFile: Option<seq<string>>, plEnFile: Option<seq<string>>)
      returns (r: Option<LookupResult>)
      requires Valid()
      modifies this
      ensures Valid()
      ensures direction == "en-pl" ==> enPl != null && r == LookupReport(enPl.Contents(), enPl.index, term)
      ensures direction == "en-pl" ==> plEn == old(plEn)
      ensures direction == "en-pl" && old(enPl) != null ==> enPl == old(enPl)
      ensures direction == "en-pl" && old(enPl) == null ==> fresh(enPl) && enPl.BuiltFrom(enPlFile)
      ensures direction != "en-pl" ==> plEn != null && r == LookupReport(plEn.Contents(), plEn.index, term)
      ensures direction != "en-pl" ==> enPl == old(enPl)
      ensures direction != "en-pl" && old(plEn) != null ==> plEn == old(plEn)
      ensures direction != "en-pl" && old(plEn) == null ==> fresh(plEn) && plEn.BuiltFrom(plEnFile)
    {
      if direction == "en-pl" {
        r := LookupEnPl(term, enPlFile);
      } else {
        r := LookupPlEn(term, plEnFile);
      }
    }

    /** `dsl_lookup(term, "en-pl")`. */
    method LookupEnPl(term: string, file: Option<seq<string>>) returns (r: Option<LookupResult>)
      requires Valid()
      modifies this
      ensures Valid() && plEn == old(plEn)
      ensures enPl != null && r == LookupReport(enPl.Contents(), enPl.index, term)
      ensures old(enPl) != null ==> enPl == old(enPl)
      ensures old(enPl) == null ==> fresh(enPl) && enPl.BuiltFrom(file)
    {
      var parser := GetEnPlParser(file);
      assert plEn != null ==> plEn.Valid();
      r := Consult(parser, term);
    }

    /** `dsl_lookup(term, direction)` for any direction other than `"en-pl"`. */
    method LookupPlEn(term: string, file: Option<seq<string>>) returns (r: Option<LookupResult>)
      requires Valid()
      modifies this
      ensures Valid() && enPl == old(enPl)
      ensures plEn != null && r == LookupReport(plEn.Contents(), plEn.index, term)
      ensures old(plEn) != null ==> plEn == old(plEn)
      ensures old(plEn) == null ==> fresh(plEn) && plEn.BuiltFrom(file)
    {
      var parser := GetPlEnParser(file);
      assert enPl != null ==> enPl.Valid();
      r := Consult(parser, term);
    }
  }

  /** The lookup `dsl_lookup` makes in the parser it chose: the record of the entry the
      term leads to, or `None`. */
  method Consult(parser: Parser, term: string) returns (r: Option<LookupResult>)
    ensures r == LookupReport(parser.Contents(), parser.index, term)
  {
    var entry := parser.Lookup(term);
    if entry == null {
      return None;
    }
    var report := BuildReport(entry);
    return Some(report);
  }
}
