/**
  Locale tags of desktop entry keys, and which of a key's localized values is kept
  while the lines of a group are read in whatever order.
 */
module Locale {
  import opened Basics

  datatype Locale = Locale(language: string, territory: string, modifier: string)

  const DEFAULT := Locale("", "", "")

  function IndexOf(s: string, c: char): (i: int)
    ensures -1 <= i < |s|
    ensures i >= 0 ==> s[i] == c && forall j :: 0 <= j < i ==> s[j] != c
    ensures i == -1 ==> forall j :: 0 <= j < |s| ==> s[j] != c
  {
    FirstWhere(s, x => x == c)
  }

  // ------------------------------------------------------------------- parsing

  /** Where the part before the modifier and codeset ends. */
  function BaseEnd(s: string): nat {
    var codesetIdx, modifierIdx := IndexOf(s, '.'), IndexOf(s, '@');
    if codesetIdx != -1 then codesetIdx else if modifierIdx != -1 then modifierIdx else |s|
  }

  /** A separator of the territory only inside the modifier would make a slice of negative length. */
  predicate Parseable(s: string) {
    IndexOf(s, '_') < BaseEnd(s)
  }

  function Parse(s: string): Locale
    requires Parseable(s)
  {
    var territoryIdx, modifierIdx, end := IndexOf(s, '_'), IndexOf(s, '@'), BaseEnd(s);
    Locale(
      s[..if territoryIdx != -1 then territoryIdx else end],
      if territoryIdx != -1 then s[territoryIdx + 1..end] else "",
      if modifierIdx != -1 then s[modifierIdx + 1..] else "")
  }

  predicate Plain(s: string) {
    '_' !in s && '.' !in s && '@' !in s
  }

  function Optional(separator: char, part: string): string {
    if part == "" then "" else [separator] + part
  }

  /** lang_COUNTRY.ENCODING@MODIFIER, each part but the language optional. */
  function Format(language: string, territory: string, codeset: string, modifier: string): string {
    language + Optional('_', territory) + Optional('.', codeset) + Optional('@', modifier)
  }

  /** An optional part is found right behind what precedes it. */
  lemma IndexOfPart(s: string, before: string, c: char, part: string, after: string)
    requires s == before + Optional(c, part) + after && c !in before && c !in after
    ensures IndexOf(s, c) == if part == "" then -1 else |before|
  {
    hide IndexOf;
    if part == "" {
      assert c !in s;
    } else {
      assert s[|before|] == c;
      assert forall j :: 0 <= j < |before| ==> s[j] == before[j];
    }
  }

  lemma PartsApart(language: string, territory: string, codeset: string, modifier: string)
    requires Plain(language) && Plain(territory) && Plain(codeset) && Plain(modifier)
    ensures '_' !in Optional('.', codeset) + Optional('@', modifier)
    ensures '.' !in language + Optional('_', territory) && '.' !in Optional('@', modifier)
    ensures '@' !in language + Optional('_', territory) + Optional('.', codeset)
  {}

  lemma SeparatorPositions(language: string, territory: string, codeset: string, modifier: string)
    requires Plain(language) && Plain(territory) && Plain(codeset) && Plain(modifier)
    ensures var s := Format(language, territory, codeset, modifier);
            var base := language + Optional('_', territory);
            && IndexOf(s, '_') == (if territory == "" then -1 else |language|)
            && IndexOf(s, '.') == (if codeset == "" then -1 else |base|)
            && IndexOf(s, '@') == (if modifier == "" then -1 else |base + Optional('.', codeset)|)
  {
    var s := Format(language, territory, codeset, modifier);
    var t, c, m := Optional('_', territory), Optional('.', codeset), Optional('@', modifier);
    PartsApart(language, territory, codeset, modifier);
    hide IndexOf, Plain, Optional;
    assert s == language + t + (c + m) && s == language + t + c + m && s == language + t + c + m + [];
    IndexOfPart(s, language, '_', territory, c + m);
    IndexOfPart(s, language + t, '.', codeset, m);
    IndexOfPart(s, language + t + c, '@', modifier, []);
  }

  lemma PartSlice(before: string, c: char, part: string, after: string)
    requires part != ""
    ensures var s := before + Optional(c, part) + after;
            s[|before| + 1..|before + Optional(c, part)|] == part
  {}

  /** Parsing gives back the parts of every well-formed tag; the encoding is dropped. */
  lemma ParseFormat(language: string, territory: string, codeset: string, modifier: string)
    requires Plain(language) && Plain(territory) && Plain(codeset) && Plain(modifier)
    ensures var s := Format(language, territory, codeset, modifier);
            Parseable(s) && Parse(s) == Locale(language, territory, modifier)
  {
    hide IndexOf, Plain, Format, Optional;
    SeparatorPositions(language, territory, codeset, modifier);
    BaseSlices(language, territory, codeset, modifier);
    TerritorySlice(language, territory, codeset, modifier);
    ModifierSlice(language, territory, codeset, modifier);
  }

  lemma TerritorySlice(language: string, territory: string, codeset: string, modifier: string)
    ensures var s, base := Format(language, territory, codeset, modifier), language + Optional('_', territory);
            && |base| <= |s|
            && (territory != "" ==> |base| == |language| + 1 + |territory| && s[|language| + 1..|base|] == territory)
  {
    var t, c, m := Optional('_', territory), Optional('.', codeset), Optional('@', modifier);
    if territory != "" {
      PartSlice(language, '_', territory, c + m);
      assert Format(language, territory, codeset, modifier) == language + t + (c + m);
    }
  }

  lemma ModifierSlice(language: string, territory: string, codeset: string, modifier: string)
    ensures var s := Format(language, territory, codeset, modifier);
            var before := language + Optional('_', territory) + Optional('.', codeset);
            && |before| <= |s|
            && (modifier != "" ==> |before| < |s| && s[|before| + 1..] == modifier)
  {
    var t, c, m := Optional('_', territory), Optional('.', codeset), Optional('@', modifier);
    if modifier != "" {
      PartSlice(language + t + c, '@', modifier, []);
      assert Format(language, territory, codeset, modifier) == language + t + c + m + [];
    }
  }

  lemma BaseSlices(language: string, territory: string, codeset: string, modifier: string)
    ensures var s := Format(language, territory, codeset, modifier);
            && s[..|language|] == language
            && (territory == "" ==>
                  Optional('_', territory) == "" && |language + Optional('_', territory)| == |language|)
            && (codeset == "" && modifier == "" ==> |s| == |language + Optional('_', territory)|)
            && (codeset == "" ==> |language + Optional('_', territory) + Optional('.', codeset)|
                                  == |language + Optional('_', territory)|)
  {}

  // ------------------------------------------------------------------- matching

  predicate IsValid(l: Locale) {
    l.language != ""
  }

  function MatchScore(system: Locale, other: Locale): nat {
    if system.language != other.language then 0
    else if other.modifier != "" && system.modifier != other.modifier then 0
    else if other.territory != "" && system.territory != other.territory then 0
    else 1 + (if other.territory != "" then 2 else 0) + (if other.modifier != "" then 1 else 0)
  }

  datatype Item = Item(locale: Locale, value: string)

  /** Whether a later line for a key replaces the value kept so far. */
  predicate Replaces(system: Locale, old_: Locale, new_: Locale) {
    var oldScore, newScore := MatchScore(system, old_), MatchScore(system, new_);
    newScore > oldScore || (oldScore == 0 && !IsValid(new_))
  }

  function Keep(system: Locale, items: seq<Item>): Option<Item> {
    if items == [] then None
    else
      var last := items[|items| - 1];
      match Keep(system, items[..|items| - 1])
      case None => Some(last)
      case Some(kept) => if Replaces(system, kept.locale, last.locale) then Some(last) else Some(kept)
  }

  /** The lookup order of the section "Localized values for keys" of the Desktop Entry Specification. */
  function Preferences(system: Locale): seq<Locale> {
    var Locale(l, t, m) := system;
    (if l != "" && t != "" && m != "" then [Locale(l, t, m)] else [])
    + (if l != "" && t != "" then [Locale(l, t, "")] else [])
    + (if l != "" && m != "" then [Locale(l, "", m)] else [])
    + (if l != "" then [Locale(l, "", "")] else [])
    + [DEFAULT]
  }

  /** Distance from the end of the lookup order, 0 for tags that are not in it. */
  function Rank(system: Locale, l: Locale): nat {
    if l == DEFAULT then 1
    else if MatchScore(system, l) == 0 then 0
    else MatchScore(system, l) + 1
  }

  /** Earlier in the lookup order is a higher rank, and exactly the tags in the order have one. */
  lemma RankIsPreference(system: Locale, l: Locale)
    requires l == DEFAULT || IsValid(l)
    ensures Rank(system, l) > 0 <==> l in Preferences(system)
    ensures forall i, j :: 0 <= i < j < |Preferences(system)| ==>
              Rank(system, Preferences(system)[i]) > Rank(system, Preferences(system)[j])
  {}

  /** A well-formed key: one line without a tag, and no tag twice. */
  ghost predicate WellFormed(items: seq<Item>) {
    && (exists i :: 0 <= i < |items| && items[i].locale == DEFAULT)
    && WellTagged(items)
  }

  ghost predicate WellTagged(items: seq<Item>) {
    && (forall i :: 0 <= i < |items| ==> items[i].locale == DEFAULT || IsValid(items[i].locale))
    && (forall i, j :: 0 <= i < j < |items| ==> items[i].locale != items[j].locale)
  }

  lemma ReplacesIsRank(system: Locale, a: Locale, b: Locale)
    requires (a == DEFAULT || IsValid(a)) && (b == DEFAULT || IsValid(b)) && a != b
    ensures Replaces(system, a, b) <==> Rank(system, b) > Rank(system, a)
  {}

  lemma {:induction false} KeepIsHighest(system: Locale, items: seq<Item>)
    requires WellTagged(items) && items != []
    ensures Keep(system, items).Some? && Keep(system, items).value in items
    ensures forall i :: 0 <= i < |items| ==>
              Rank(system, items[i].locale) <= Rank(system, Keep(system, items).value.locale)
  {
    hide Rank, Replaces;
    var init, last := items[..|items| - 1], items[|items| - 1];
    if init != [] {
      KeepIsHighest(system, init);
      var kept := Keep(system, init).value;
      var k :| 0 <= k < |init| && init[k] == kept;
      assert items[k] == kept && items[|items| - 1] == last;
      ReplacesIsRank(system, kept.locale, last.locale);
    }
  }

  /** The item with the earliest tag of the lookup order. */
  ghost predicate Chosen(system: Locale, items: seq<Item>, item: Item) {
    exists k :: 0 <= k < |Preferences(system)| && ChosenAt(system, items, item, k)
  }

  ghost predicate ChosenAt(system: Locale, items: seq<Item>, item: Item, k: nat)
    requires k < |Preferences(system)|
  {
    && item in items && item.locale == Preferences(system)[k]
    && forall i, j :: 0 <= i < |items| && 0 <= j < k ==> items[i].locale != Preferences(system)[j]
  }

  /** For every order of the lines of a well-formed key the kept value is the one the specification chooses. */
  lemma KeepsTheChosen(system: Locale, items: seq<Item>)
    requires WellFormed(items)
    ensures Keep(system, items).Some? && Chosen(system, items, Keep(system, items).value)
  {
    KeepIsHighest(system, items);
    hide Rank, Preferences, Keep;
    var kept, prefs := Keep(system, items).value, Preferences(system);
    var d :| 0 <= d < |items| && items[d].locale == DEFAULT;
    var n :| 0 <= n < |items| && items[n] == kept;
    DefaultRank(system);
    RankIsPreference(system, kept.locale);
    var k :| 0 <= k < |prefs| && prefs[k] == kept.locale;
    forall i, j | 0 <= i < |items| && 0 <= j < k ensures items[i].locale != prefs[j] {
      assert Rank(system, prefs[j]) > Rank(system, prefs[k]);
    }
    assert ChosenAt(system, items, kept, k);
  }

  lemma DefaultRank(system: Locale)
    ensures Rank(system, DEFAULT) == 1
  {}

  /** There is only one such item, whatever the order of the lines. */
  lemma ChosenIsUnique(system: Locale, items: seq<Item>, reordered: seq<Item>, a: Item, b: Item)
    requires WellTagged(items) && multiset(items) == multiset(reordered)
    requires Chosen(system, items, a) && Chosen(system, reordered, b)
    ensures a == b
  {
    hide Preferences;
    var k :| 0 <= k < |Preferences(system)| && ChosenAt(system, items, a, k);
    var l :| 0 <= l < |Preferences(system)| && ChosenAt(system, reordered, b, l);
    assert b in multiset(reordered) && a in multiset(items);
    var i :| 0 <= i < |items| && items[i] == a;
    var j :| 0 <= j < |items| && items[j] == b;
    assert a in reordered;
    var m :| 0 <= m < |reordered| && reordered[m] == a;
  }

  // ----------------------------------------------------------------- the group

  /** One line of a group: nothing, or a key with its tag and value. */
  datatype Line = Ignored | Entry(key: string, tag: string, value: string)

  /** Comments and lines without `=` are ignored; the last character of a bracketed key is dropped unread. */
  function SplitLine(line: string): Line {
    var splitIdx := IndexOf(line, '=');
    if line == "" || line[0] == '#' || splitIdx == -1 then Ignored
    else
      var key, value := line[..splitIdx], line[splitIdx + 1..];
      var localeIdx := IndexOf(key, '[');
      if localeIdx != -1 && localeIdx != |key| - 1
      then Entry(key[..localeIdx], key[localeIdx + 1..|key| - 1], value)
      else Entry(key, "", value)
  }

  /** A key of an entry: not empty, no comment, and without the characters that end it. */
  predicate KeyName(key: string) {
    key != "" && key[0] != '#' && '=' !in key && '[' !in key
  }

  /** A localized line gives its key, its tag and its value. */
  lemma SplitTagged(key: string, tag: string, value: string)
    requires KeyName(key) && '=' !in tag
    ensures SplitLine(key + "[" + tag + "]=" + value) == Entry(key, tag, value)
  {
    hide IndexOf;
    var left := key + "[" + tag + "]";
    var line := left + "=" + value;
    assert key + "[" + tag + "]=" + value == line;
    FirstAt(line, '=', |left|);
    assert line[..|left|] == left && line[|left| + 1..] == value;
    FirstAt(left, '[', |key|);
    assert left[..|key|] == key && left[|key| + 1..|left| - 1] == tag;
  }

  /** A line without a tag gives its key and its value. */
  lemma SplitPlain(key: string, value: string)
    requires KeyName(key)
    ensures SplitLine(key + "=" + value) == Entry(key, "", value)
  {
    hide IndexOf;
    var line := key + "=" + value;
    FirstAt(line, '=', |key|);
    assert line[..|key|] == key && line[|key| + 1..] == value;
    assert IndexOf(key, '[') == -1;
  }

  lemma FirstAt(s: string, c: char, k: nat)
    requires k < |s| && s[k] == c && forall i :: 0 <= i < k ==> s[i] != c
    ensures IndexOf(s, c) == k
  {
    hide IndexOf;
  }

  /** Comments, and lines that assign nothing, are ignored. */
  lemma SplitIgnores(line: string)
    requires line == "" || line[0] == '#' || '=' !in line
    ensures SplitLine(line) == Ignored
  {
    hide IndexOf;
  }

  /** Every tag in the lines can be parsed. */
  predicate Taggable(lines: seq<string>) {
    forall i :: 0 <= i < |lines| && SplitLine(lines[i]).Entry? ==> Parseable(SplitLine(lines[i]).tag)
  }

  /** The lines about one key, as tag and value. */
  function Items(lines: seq<string>, key: string): seq<Item>
    requires Taggable(lines)
  {
    if lines == [] then []
    else
      var last := SplitLine(lines[|lines| - 1]);
      Items(lines[..|lines| - 1], key)
      + (if last.Entry? && last.key == key then [Item(Parse(last.tag), last.value)] else [])
  }

  /** The entries of a group hold what is kept of each key's lines: for well-formed keys, the specification's choice. */
  method ReadGroup(system: Locale, lines: seq<string>) returns (entries: map<string, Item>)
    requires Taggable(lines)
    ensures forall key :: Keep(system, Items(lines, key))
                          == if key in entries then Some(entries[key]) else None
    ensures forall key :: WellFormed(Items(lines, key)) ==>
              key in entries && Chosen(system, Items(lines, key), entries[key])
  {
    hide SplitLine, Parse, Replaces, Parseable, WellFormed, Chosen;
    entries := map[];
    for n := 0 to |lines|
      invariant forall key :: Keep(system, Items(lines[..n], key))
                              == if key in entries then Some(entries[key]) else None
    {
      var before := entries;
      assert lines[..n + 1][..n] == lines[..n];
      var line := SplitLine(lines[n]);
      if line.Entry? {
        assert Parseable(SplitLine(lines[n]).tag);
        var item := Item(Parse(line.tag), line.value);
        if line.key !in entries || Replaces(system, entries[line.key].locale, item.locale) {
          entries := entries[line.key := item];
        }
        forall key
          ensures Keep(system, Items(lines[..n + 1], key)) == if key in entries then Some(entries[key]) else None
        {
          ItemsStep(lines, n, key);
          KeepStep(system, Items(lines[..n], key), item);
        }
      } else {
        assert forall key :: Items(lines[..n + 1], key) == Items(lines[..n], key);
      }
    }
    assert lines[..|lines|] == lines;
    forall key | WellFormed(Items(lines, key))
      ensures key in entries && Chosen(system, Items(lines, key), entries[key])
    {
      KeepsTheChosen(system, Items(lines, key));
    }
  }

  /** One more item of a key. */
  lemma KeepStep(system: Locale, items: seq<Item>, item: Item)
    ensures var kept := Keep(system, items);
            Keep(system, items + [item])
            == if kept.None? || Replaces(system, kept.value.locale, item.locale) then Some(item) else kept
    ensures Keep(system, items + []) == Keep(system, items)
  {
    hide Replaces;
    assert (items + [item])[..|items|] == items;
    assert items + [] == items;
  }

  /** One more line of a group. */
  lemma ItemsStep(lines: seq<string>, n: nat, key: string)
    requires n < |lines| && Taggable(lines)
    ensures var line := SplitLine(lines[n]);
            Items(lines[..n + 1], key)
            == Items(lines[..n], key)
               + (if line.Entry? && line.key == key then [Item(Parse(line.tag), line.value)] else [])
  {
    hide SplitLine, Parse;
    assert lines[..n + 1][..n] == lines[..n];
  }

  // ------------------------------------------------------------ rendered groups

  /** An entry as a file gives it: for everybody, or for one locale, in some encoding. */
  datatype Given =
    | Default(key: string, value: string)
    | For(key: string, locale: Locale, codeset: string, value: string)

  predicate Printable(g: Given) {
    && KeyName(g.key)
    && (g.For? ==>
          && Plain(g.locale.language) && Plain(g.locale.territory) && Plain(g.locale.modifier) && Plain(g.codeset)
          && '=' !in Format(g.locale.language, g.locale.territory, g.codeset, g.locale.modifier))
  }

  function Render(g: Given): string {
    match g
    case Default(key, value) => key + "=" + value
    case For(key, l, codeset, value) =>
      key + "[" + Format(l.language, l.territory, codeset, l.modifier) + "]=" + value
  }

  /** The values given for one key, each with its locale. */
  function Values(given: seq<Given>, key: string): seq<Item> {
    if given == [] then []
    else
      var last := given[|given| - 1];
      Values(given[..|given| - 1], key)
      + if last.key != key then []
        else [Item(if last.For? then last.locale else DEFAULT, last.value)]
  }

  function RenderAll(given: seq<Given>): seq<string> {
    seq(|given|, i requires 0 <= i < |given| => Render(given[i]))
  }

  lemma RenderedTag(g: Given)
    requires Printable(g)
    ensures var line := SplitLine(Render(g));
            && line.Entry? && line.key == g.key && line.value == g.value && Parseable(line.tag)
            && Parse(line.tag) == if g.For? then g.locale else DEFAULT
  {
    hide SplitLine, Parse, Format, Plain, KeyName, Parseable;
    match g
    case Default(key, value) =>
      SplitPlain(key, value);
      NoTag();
    case For(key, l, codeset, value) =>
      SplitTagged(key, Format(l.language, l.territory, codeset, l.modifier), value);
      ParseFormat(l.language, l.territory, codeset, l.modifier);
  }

  lemma NoTag()
    ensures Parseable("") && Parse("") == DEFAULT
  {}

  /** Reading the lines of a group gives back the values, locale by locale. */
  lemma {:induction false} ItemsOfRendered(given: seq<Given>, key: string)
    requires forall i :: 0 <= i < |given| ==> Printable(given[i])
    ensures Taggable(RenderAll(given)) && Items(RenderAll(given), key) == Values(given, key)
  {
    hide SplitLine, Parse, Render, Parseable, Printable;
    var lines := RenderAll(given);
    forall i | 0 <= i < |lines| ensures SplitLine(lines[i]).Entry? ==> Parseable(SplitLine(lines[i]).tag) {
      RenderedTag(given[i]);
    }
    if given != [] {
      var init, last := given[..|given| - 1], given[|given| - 1];
      ItemsOfRendered(init, key);
      assert lines[..|lines| - 1] == RenderAll(init) && lines[|lines| - 1] == Render(last);
      RenderedTag(last);
    }
  }

  /**
    Of the values given for a well-formed key in whatever order, the entries of the
    rendered group hold the one the specification chooses.
   */
  method ReadRendered(system: Locale, given: seq<Given>) returns (entries: map<string, Item>)
    requires forall i :: 0 <= i < |given| ==> Printable(given[i])
    ensures forall key :: key in entries <==> Values(given, key) != []
    ensures forall key :: WellFormed(Values(given, key)) ==>
              key in entries && Chosen(system, Values(given, key), entries[key])
  {
    hide Printable, Items, Values, RenderAll, Taggable, Chosen, WellFormed;
    forall key ensures Taggable(RenderAll(given)) && Items(RenderAll(given), key) == Values(given, key) {
      ItemsOfRendered(given, key);
    }
    assert Taggable(RenderAll(given)) by {
      ItemsOfRendered(given, "");
    }
    entries := ReadGroup(system, RenderAll(given));
    forall key ensures key in entries <==> Values(given, key) != [] {
      assert Items(RenderAll(given), key) == Values(given, key);
      KeepIsNone(system, Values(given, key));
    }
    assert forall key :: Items(RenderAll(given), key) == Values(given, key);
  }

  lemma KeepIsNone(system: Locale, items: seq<Item>)
    ensures Keep(system, items) == None <==> items == []
  {}
}
