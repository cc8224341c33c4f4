/**
 * The project view of src/proj.rs: the locales of a project root, the
 * localizations of one locale directory, and the two-step phrase lookup
 * (`translate` and `translate_in_dir`).
 *
 * The filesystem is abstract: a project lists, for each directory path it
 * can read, the entries of that directory in enumeration order. An entry's
 * content is `None` when it cannot be read as a text file.
 */
module Proj {
  import opened Wrappers
  import opened Text
  import opened Strings
  import ParserTheory

  /** One entry of a directory listing: its file name and, when readable, its lines. */
  datatype Entry = Entry(name: string, content: Option<seq<string>>)

  /** A project root and the listings of the directories below it that can be read. */
  datatype Project = Project(root: string, dirs: map<string, seq<Entry>>)

  /** `Path::join` of a relative name. */
  function PathJoin(dir: string, name: string): string {
    dir + "/" + name
  }

  /** `fs::read_dir`: the listing, or `None` when the directory cannot be read. */
  function ReadDir(p: Project, path: string): Option<seq<Entry>> {
    if path in p.dirs then Some(p.dirs[path]) else None
  }

  /** The directory `<locale>.lproj` under the root. */
  function LocaleDir(p: Project, locale: string): string {
    PathJoin(p.root, locale + ".lproj")
  }

  /** The position of the last `.` of a name. */
  function LastDot(name: string): (r: Option<nat>)
    ensures r.Some? ==> r.value < |name| && name[r.value] == '.'
    ensures r.Some? ==> forall j :: r.value < j < |name| ==> name[j] != '.'
    ensures r.None? ==> '.' !in name
    decreases |name|
  {
    if name == [] then None
    else if name[|name| - 1] == '.' then Some(|name| - 1)
    else LastDot(name[..|name| - 1])
  }

  /**
   * `Path::extension` of a file name: the text after the last `.`, except
   * for `..` and for names whose only `.` is the leading one.
   */
  function Extension(name: string): Option<string> {
    if name == ".." then None
    else
      match LastDot(name)
      case None => None
      case Some(i) => if i == 0 then None else Some(name[i + 1..])
  }

  predicate IsStrings(name: string) {
    Extension(name) == Some("strings")
  }

  /** A `strings` extension means a name ending in `.strings` with something before it. */
  lemma IsStringsIff(name: string)
    ensures IsStrings(name) <==> |name| > 8 && EndsWith(name, ".strings")
  {
    var d := |name| - 8;
    if IsStrings(name) {
      var i := LastDot(name).value;
      assert name[i + 1..] == "strings";
      assert |name[i + 1..]| == 7;
      assert i == d;
      assert name[d..] == [name[i]] + name[i + 1..];
    }
    if |name| > 8 && EndsWith(name, ".strings") {
      assert name[d] == '.';
      forall j | d < j < |name| ensures name[j] != '.' {
        assert name[j] == ".strings"[j - d];
      }
      var r := LastDot(name);
      assert r.Some? && r.value == d;
      assert name[d + 1..] == name[d..][1..];
      assert name[d + 1..] == "strings";
    }
  }

  /** A `.strings` file never has a name ending in `.lproj`. */
  lemma StringsNotLproj(name: string)
    requires IsStrings(name)
    ensures !EndsWith(name, ".lproj")
  {
    IsStringsIff(name);
    assert name[|name| - 1] == ".strings"[7];
  }

  /** `filter_map` of `strip_suffix(".lproj")` over the names of a listing. */
  function LocalesIn(entries: seq<Entry>): seq<string>
    decreases |entries|
  {
    if entries == [] then []
    else
      (match StripSuffix(entries[0].name, ".lproj")
       case Some(locale) => [locale]
       case None => []) + LocalesIn(entries[1..])
  }

  /** The locales are exactly the entries named `<locale>.lproj`. */
  lemma {:induction false} LocalesInMembership(entries: seq<Entry>, locale: string)
    ensures locale in LocalesIn(entries) <==>
      exists i :: 0 <= i < |entries| && entries[i].name == locale + ".lproj"
    decreases |entries|
  {
    if entries != [] {
      LocalesInMembership(entries[1..], locale);
      var s := StripSuffix(entries[0].name, ".lproj");
      StripSuffixOfAppended(locale, ".lproj");
      if exists i :: 0 <= i < |entries| && entries[i].name == locale + ".lproj" {
        var i :| 0 <= i < |entries| && entries[i].name == locale + ".lproj";
        if i > 0 {
          assert entries[1..][i - 1] == entries[i];
        }
      }
      if exists i :: 0 <= i < |entries[1..]| && entries[1..][i].name == locale + ".lproj" {
        var i :| 0 <= i < |entries[1..]| && entries[1..][i].name == locale + ".lproj";
        assert entries[i + 1] == entries[1..][i];
      }
    }
  }

  /** Listing order is kept: the locales of two listings in a row are the two lists in a row. */
  lemma {:induction false} LocalesInAppend(a: seq<Entry>, b: seq<Entry>)
    ensures LocalesIn(a + b) == LocalesIn(a) + LocalesIn(b)
    decreases |a|
  {
    if a != [] {
      LocalesInAppend(a[1..], b);
      assert (a + b)[1..] == a[1..] + b;
    } else {
      assert a + b == b;
    }
  }

  /**
   * `Project::available_locales`: the names in the root's listing that end
   * in `.lproj`, without that suffix, in listing order.
   */
  function AvailableLocales(p: Project): (r: seq<string>)
    requires p.root in p.dirs
    ensures forall locale :: locale in r <==>
      exists i :: 0 <= i < |p.dirs[p.root]| && p.dirs[p.root][i].name == locale + ".lproj"
  {
    var entries := p.dirs[p.root];
    assert forall locale :: locale in LocalesIn(entries) <==>
      exists i :: 0 <= i < |entries| && entries[i].name == locale + ".lproj" by {
      forall locale {
        LocalesInMembership(entries, locale);
      }
    }
    LocalesIn(entries)
  }

  /** What one entry of a locale directory contributes: its canonical parse, if it is a readable `.strings` file. */
  function LocalizationOf(dir: string, e: Entry): Option<Localization> {
    if IsStrings(e.name) then
      match FromFile(PathJoin(dir, e.name), e.content, false)
      case Ok(l) => Some(l)
      case Err(_) => None
    else None
  }

  /** `filter_map` of `LocalizationOf` over a listing. */
  function LocalizationsIn(dir: string, entries: seq<Entry>): seq<Localization>
    decreases |entries|
  {
    if entries == [] then []
    else
      (match LocalizationOf(dir, entries[0])
       case Some(l) => [l]
       case None => []) + LocalizationsIn(dir, entries[1..])
  }

  /**
   * The localizations are exactly the successful canonical parses of the
   * `.strings` files of the listing.
   */
  lemma {:induction false} LocalizationsInMembership(dir: string, entries: seq<Entry>, l: Localization)
    ensures l in LocalizationsIn(dir, entries) <==>
      exists i :: 0 <= i < |entries| && IsStrings(entries[i].name) &&
        FromFile(PathJoin(dir, entries[i].name), entries[i].content, false) == Ok(l)
    decreases |entries|
  {
    if entries != [] {
      LocalizationsInMembership(dir, entries[1..], l);
      if exists i :: 0 <= i < |entries| && LocalizationOf(dir, entries[i]) == Some(l) {
        var i :| 0 <= i < |entries| && LocalizationOf(dir, entries[i]) == Some(l);
        if i > 0 {
          assert entries[1..][i - 1] == entries[i];
        }
      }
      if exists i :: 0 <= i < |entries[1..]| && LocalizationOf(dir, entries[1..][i]) == Some(l) {
        var i :| 0 <= i < |entries[1..]| && LocalizationOf(dir, entries[1..][i]) == Some(l);
        assert entries[i + 1] == entries[1..][i];
      }
    }
  }

  /** `Project::localizations_for_locale`. */
  function LocalizationsForLocale(p: Project, locale: string): seq<Localization>
    requires LocaleDir(p, locale) in p.dirs
  {
    LocalizationsIn(LocaleDir(p, locale), p.dirs[LocaleDir(p, locale)])
  }

  /** No entry name holds a path separator, as `read_dir` guarantees. */
  predicate PlainNames(entries: seq<Entry>) {
    forall i :: 0 <= i < |entries| ==> '/' !in entries[i].name
  }

  /**
   * Every localization of a locale directory is the canonical parse of one
   * of its readable `.strings` files, tagged with that locale; unreadable
   * files are skipped, not reported.
   */
  lemma LocalizationsForLocaleSpec(p: Project, locale: string)
    requires LocaleDir(p, locale) in p.dirs
    requires '/' !in locale && PlainNames(p.dirs[LocaleDir(p, locale)])
    ensures var entries := p.dirs[LocaleDir(p, locale)];
      forall l :: l in LocalizationsForLocale(p, locale) <==>
        exists i :: 0 <= i < |entries| && IsStrings(entries[i].name) && entries[i].content.Some? &&
          l == Parsed(locale, entries[i].content.value, false)
  {
    var dir := LocaleDir(p, locale);
    var entries := p.dirs[dir];
    forall i | 0 <= i < |entries| && IsStrings(entries[i].name)
      ensures ResolvePathLocale(PathJoin(dir, entries[i].name)) == Some(locale)
    {
      StringsNotLproj(entries[i].name);
      ResolveInLocaleDir(p.root, locale, entries[i].name);
    }
    forall l {
      LocalizationsInMembership(dir, entries, l);
    }
  }

  /** The `find` predicate of `translate_in_dir`: a `.strings` file that parses and holds `word`. */
  predicate Holds(word: string, dir: string, e: Entry, inversed: bool) {
    IsStrings(e.name) &&
    match FromFile(PathJoin(dir, e.name), e.content, inversed)
    case Ok(l) => word in l.translations
    case Err(_) => false
  }

  /** Entry `i` is the first of the listing that holds `word`. */
  predicate FirstHolder(word: string, dir: string, entries: seq<Entry>, i: int, inversed: bool) {
    && 0 <= i < |entries|
    && Holds(word, dir, entries[i], inversed)
    && forall j :: 0 <= j < i ==> !Holds(word, dir, entries[j], inversed)
  }

  /** The `find` of `translate_in_dir`: the first entry that holds `word`. */
  function FindFile(word: string, dir: string, entries: seq<Entry>, inversed: bool): (r: Option<nat>)
    ensures r.Some? ==> FirstHolder(word, dir, entries, r.value, inversed)
    ensures r.None? ==> forall j :: 0 <= j < |entries| ==> !Holds(word, dir, entries[j], inversed)
    decreases |entries|
  {
    if entries == [] then None
    else if Holds(word, dir, entries[0], inversed) then Some(0)
    else
      var rest := entries[1..];
      assert forall j :: 0 < j < |entries| ==> entries[j] == rest[j - 1];
      match FindFile(word, dir, rest, inversed)
      case None => None
      case Some(i) => Some(i + 1)
  }

  /** The `target` that a file holding `word` stores for it. */
  function TargetFor(word: string, dir: string, e: Entry, inversed: bool): string
    requires Holds(word, dir, e, inversed)
  {
    FromFile(PathJoin(dir, e.name), e.content, inversed).value.translations[word].target
  }

  /**
   * `Project::translate_in_dir`: the `target` stored for `word` by the first
   * file of the listing whose parse holds it (the key compared exactly),
   * `Ok(None)` when no file does, and an error only when the directory
   * cannot be read.
   */
  function TranslateInDir(word: string, dir: string, listing: Option<seq<Entry>>, inversed: bool)
    : (r: Result<Option<string>, Error>)
    ensures r.Err? <==> listing.None?
    ensures r == Ok(None) <==>
      listing.Some? && forall j :: 0 <= j < |listing.value| ==> !Holds(word, dir, listing.value[j], inversed)
    ensures r.Ok? && r.value.Some? ==> exists i ::
      FirstHolder(word, dir, listing.value, i, inversed) && r.value.value == TargetFor(word, dir, listing.value[i], inversed)
  {
    match listing
    case None => Err(Unreadable)
    case Some(entries) =>
      match FindFile(word, dir, entries, inversed)
      case None => Ok(None)
      case Some(i) =>
        match FromFile(PathJoin(dir, entries[i].name), entries[i].content, inversed)
        case Err(e) => Err(e)
        case Ok(l) => Ok(if word in l.translations then Some(l.translations[word].target) else None)
  }

  /**
   * `Project::translate`: the phrase is looked up in `en.lproj` parsed
   * inversed to find its id, and the id is looked up in the target locale's
   * directory parsed canonically.
   */
  function Translate(p: Project, word: string, targetLocale: string): Result<Option<string>, Error> {
    var base := PathJoin(p.root, "en.lproj");
    match TranslateInDir(word, base, ReadDir(p, base), true)
    case Err(e) => Err(e)
    case Ok(None) => Ok(None)
    case Ok(Some(id)) =>
      var dir := LocaleDir(p, targetLocale);
      TranslateInDir(id, dir, ReadDir(p, dir), false)
  }

  /** An entry that does not hold `word` is passed over by the lookup. */
  lemma SkippedEntry(word: string, dir: string, e: Entry, rest: seq<Entry>, inversed: bool)
    requires !Holds(word, dir, e, inversed)
    ensures TranslateInDir(word, dir, Some([e] + rest), inversed) == TranslateInDir(word, dir, Some(rest), inversed)
  {
    var entries := [e] + rest;
    assert entries[1..] == rest;
    match FindFile(word, dir, rest, inversed)
    case None =>
    case Some(i) =>
      assert entries[i + 1] == rest[i];
  }

  /**
   * Keys are lowered when stored and the query is not: no file holds a word
   * with an upper-case letter.
   */
  lemma UppercaseNeverHeld(word: string, dir: string, e: Entry, inversed: bool)
    requires HasUpper(word)
    ensures !Holds(word, dir, e, inversed)
  {
    var r := FromFile(PathJoin(dir, e.name), e.content, inversed);
    if r.Ok? {
      var t := Parse(e.content.value, inversed).translations;
      assert r.value.translations == t;
      ParserTheory.ParseWellFormed(e.content.value, inversed);
      if word in t {
        LowerHasNoUpper(t[word].source);
      }
    }
  }

  lemma UppercaseNotFound(word: string, dir: string, listing: Option<seq<Entry>>, inversed: bool)
    requires HasUpper(word)
    ensures TranslateInDir(word, dir, listing, inversed) == if listing.None? then Err(Unreadable) else Ok(None)
  {
    if listing.Some? {
      forall j | 0 <= j < |listing.value| ensures !Holds(word, dir, listing.value[j], inversed) {
        UppercaseNeverHeld(word, dir, listing.value[j], inversed);
      }
    }
  }

  /** Line `i` is the last entry line for `word`, and its target segment is `target`. */
  predicate LineFor(lines: seq<string>, i: int, word: string, inversed: bool, target: string) {
    && ParserTheory.LastEntryFor(lines, i, word, inversed)
    && ParserTheory.KeyOf(lines[i], inversed) == word
    && ParserTheory.TargetOf(lines[i], inversed) == target
  }

  /**
   * The target found for `word` comes from the last entry line of the file
   * whose source lowers to `word`, and is that line's target segment.
   */
  lemma TargetForLine(word: string, dir: string, e: Entry, inversed: bool)
    requires Holds(word, dir, e, inversed)
    ensures e.content.Some?
    ensures exists i :: LineFor(e.content.value, i, word, inversed, TargetFor(word, dir, e, inversed))
  {
    var lines := e.content.value;
    var r := FromFile(PathJoin(dir, e.name), e.content, inversed);
    assert r.value.translations == Parse(lines, inversed).translations;
    ParserTheory.EntriesCharacterized(lines, inversed, word);
    var i :| ParserTheory.LastEntryFor(lines, i, word, inversed);
    assert LineFor(lines, i, word, inversed, TargetFor(word, dir, e, inversed));
  }

  /** Without a readable `en.lproj` nothing can be translated. */
  lemma TranslateNeedsBase(p: Project, word: string, targetLocale: string)
    requires ReadDir(p, PathJoin(p.root, "en.lproj")).None?
    ensures Translate(p, word, targetLocale) == Err(Unreadable)
  {
  }

  /**
   * `translate` fails exactly when `en.lproj` cannot be read, or when the
   * phrase is found there and the target locale's directory cannot be read.
   */
  lemma TranslateErr(p: Project, word: string, targetLocale: string)
    ensures var base := PathJoin(p.root, "en.lproj");
      Translate(p, word, targetLocale).Err? <==>
        ReadDir(p, base).None? ||
        ((exists i :: FirstHolder(word, base, ReadDir(p, base).value, i, true)) &&
         ReadDir(p, LocaleDir(p, targetLocale)).None?)
  {
    var base := PathJoin(p.root, "en.lproj");
    var listing := ReadDir(p, base);
    if listing.Some? {
      var r := TranslateInDir(word, base, listing, true);
      if exists i :: FirstHolder(word, base, listing.value, i, true) {
        var i :| FirstHolder(word, base, listing.value, i, true);
        assert Holds(word, base, listing.value[i], true);
        assert r.Ok? && r.value.Some?;
      }
    }
  }

  /**
   * A translation is found in two steps: the first `en.lproj` file holding
   * the phrase (parsed inversed) gives the id, and the first file of the
   * target locale holding the id (parsed canonically) gives the result.
   */
  lemma TranslateFound(p: Project, word: string, targetLocale: string, x: string)
    requires Translate(p, word, targetLocale) == Ok(Some(x))
    ensures ReadDir(p, PathJoin(p.root, "en.lproj")).Some? && ReadDir(p, LocaleDir(p, targetLocale)).Some?
    ensures var base := PathJoin(p.root, "en.lproj");
      var dir := LocaleDir(p, targetLocale);
      exists i, j :: FirstHolder(word, base, p.dirs[base], i, true) &&
        var id := TargetFor(word, base, p.dirs[base][i], true);
        FirstHolder(id, dir, p.dirs[dir], j, false) && x == TargetFor(id, dir, p.dirs[dir][j], false)
  {
    var base := PathJoin(p.root, "en.lproj");
    var dir := LocaleDir(p, targetLocale);
    var first := TranslateInDir(word, base, ReadDir(p, base), true);
    assert first.Ok? && first.value.Some?;
    var id := first.value.value;
    var i :| FirstHolder(word, base, p.dirs[base], i, true) && id == TargetFor(word, base, p.dirs[base][i], true);
    var second := TranslateInDir(id, dir, ReadDir(p, dir), false);
    assert second == Ok(Some(x));
    var j :| FirstHolder(id, dir, p.dirs[dir], j, false) && x == TargetFor(id, dir, p.dirs[dir][j], false);
  }

  /** The first holder of a word in a listing is unique. */
  lemma FirstHolderUnique(word: string, dir: string, entries: seq<Entry>, i: int, j: int, inversed: bool)
    requires FirstHolder(word, dir, entries, i, inversed) && FirstHolder(word, dir, entries, j, inversed)
    ensures i == j
  {
  }

  /** `TranslateInDir` answers with the first holder's target. */
  lemma TranslateInDirHit(word: string, dir: string, entries: seq<Entry>, i: int, inversed: bool)
    requires FirstHolder(word, dir, entries, i, inversed)
    ensures TranslateInDir(word, dir, Some(entries), inversed) == Ok(Some(TargetFor(word, dir, entries[i], inversed)))
  {
    var r := TranslateInDir(word, dir, Some(entries), inversed);
    assert Holds(word, dir, entries[i], inversed);
    assert r.Ok? && r.value.Some?;
    var k :| FirstHolder(word, dir, entries, k, inversed) && r.value.value == TargetFor(word, dir, entries[k], inversed);
    FirstHolderUnique(word, dir, entries, i, k, inversed);
  }

  /**
   * When `en.lproj` holds the phrase and the target locale holds its id,
   * `translate` returns the target stored for the id.
   */
  lemma TranslateHit(p: Project, word: string, targetLocale: string, i: int, j: int)
    requires PathJoin(p.root, "en.lproj") in p.dirs && LocaleDir(p, targetLocale) in p.dirs
    requires FirstHolder(word, PathJoin(p.root, "en.lproj"), p.dirs[PathJoin(p.root, "en.lproj")], i, true)
    requires var base := PathJoin(p.root, "en.lproj");
      var dir := LocaleDir(p, targetLocale);
      FirstHolder(TargetFor(word, base, p.dirs[base][i], true), dir, p.dirs[dir], j, false)
    ensures var base := PathJoin(p.root, "en.lproj");
      var dir := LocaleDir(p, targetLocale);
      var id := TargetFor(word, base, p.dirs[base][i], true);
      Translate(p, word, targetLocale) == Ok(Some(TargetFor(id, dir, p.dirs[dir][j], false)))
  {
    var base := PathJoin(p.root, "en.lproj");
    var dir := LocaleDir(p, targetLocale);
    var id := TargetFor(word, base, p.dirs[base][i], true);
    TranslateInDirHit(word, base, p.dirs[base], i, true);
    TranslateInDirHit(id, dir, p.dirs[dir], j, false);
  }

  /** A phrase that no file of a readable `en.lproj` holds has no translation, whatever the target. */
  lemma TranslateAbsent(p: Project, word: string, targetLocale: string)
    requires PathJoin(p.root, "en.lproj") in p.dirs
    requires var base := PathJoin(p.root, "en.lproj");
      forall j :: 0 <= j < |p.dirs[base]| ==> !Holds(word, base, p.dirs[base][j], true)
    ensures Translate(p, word, targetLocale) == Ok(None)
  {
  }

  /** `Translate` never finds a phrase that has an upper-case letter. */
  lemma TranslateUppercase(p: Project, word: string, targetLocale: string)
    requires HasUpper(word)
    ensures Translate(p, word, targetLocale) ==
      if ReadDir(p, PathJoin(p.root, "en.lproj")).None? then Err(Unreadable) else Ok(None)
  {
    var base := PathJoin(p.root, "en.lproj");
    UppercaseNotFound(word, base, ReadDir(p, base), true);
  }

  /**
   * The lookup with the phrase and the id lowered before each search, as the
   * lowered keys call for.
   */
  function TranslateFolded(p: Project, word: string, targetLocale: string): Result<Option<string>, Error> {
    var base := PathJoin(p.root, "en.lproj");
    match TranslateInDir(Lower(word), base, ReadDir(p, base), true)
    case Err(e) => Err(e)
    case Ok(None) => Ok(None)
    case Ok(Some(id)) =>
      var dir := LocaleDir(p, targetLocale);
      TranslateInDir(Lower(id), dir, ReadDir(p, dir), false)
  }

  /** The folded lookup does not depend on the case of the phrase. */
  lemma TranslateFoldedIgnoresCase(p: Project, word: string, targetLocale: string)
    ensures TranslateFolded(p, word, targetLocale) == TranslateFolded(p, Lower(word), targetLocale)
  {
    LowerIdempotent(word);
  }

  /** On lower-case phrases and ids the folded lookup is the lookup as written. */
  lemma TranslateFoldedAgrees(p: Project, word: string, targetLocale: string)
    requires !HasUpper(word)
    requires forall id :: TranslateInDir(word, PathJoin(p.root, "en.lproj"), ReadDir(p, PathJoin(p.root, "en.lproj")), true) == Ok(Some(id)) ==> !HasUpper(id)
    ensures TranslateFolded(p, word, targetLocale) == Translate(p, word, targetLocale)
  {
    LowerFixesLowered(word);
    var base := PathJoin(p.root, "en.lproj");
    var first := TranslateInDir(word, base, ReadDir(p, base), true);
    if first.Ok? && first.value.Some? {
      LowerFixesLowered(first.value.value);
    }
  }

  /**
   * A locale directory holding one `.strings` file of one canonical entry
   * line `"a" = "b";` answers the lowered source of that line with its target.
   */
  lemma SingleLineLookup(root: string, locale: string, name: string, a: string, b: string, inversed: bool)
    requires '/' !in locale && '/' !in name && IsStrings(name)
    requires Kept(a) && '"' !in a && Kept(b) && '"' !in b
    ensures var dir := PathJoin(root, locale + ".lproj");
      var source := if inversed then b else a;
      var target := if inversed then a else b;
      TranslateInDir(Lower(source), dir, Some([Entry(name, Some([ParserTheory.QuotedLine(a, b)]))]), inversed) == Ok(Some(target))
  {
    var dir := PathJoin(root, locale + ".lproj");
    var line := ParserTheory.QuotedLine(a, b);
    StringsNotLproj(name);
    ResolveInLocaleDir(root, locale, name);
    assert ResolvePathLocale(PathJoin(dir, name)) == Some(locale);
    assert Parse([], inversed).cursor == Whitespace;
    ParserTheory.QuotedLineStored([], a, b, inversed);
    assert [] + [line] == [line];
  }

  /** A project whose English file maps the id `Heading` to `Activity`. */
  function ActivityProject(): Project {
    Project("/p", map[
      "/p/en.lproj" := [Entry("Localizable.strings", Some([ParserTheory.QuotedLine("Heading", "Activity")]))],
      "/p/de.lproj" := [Entry("Localizable.strings", Some([ParserTheory.QuotedLine("Heading", "Aktivitaet")]))]])
  }

  lemma ActivityPaths()
    ensures PathJoin("/p", "en" + ".lproj") == "/p/en.lproj" && PathJoin("/p", "de" + ".lproj") == "/p/de.lproj"
    ensures PathJoin("/p", "en.lproj") == "/p/en.lproj"
  {
  }

  lemma ActivityFileName()
    ensures IsStrings("Localizable.strings")
  {
    IsStringsIff("Localizable.strings");
    assert "Localizable.strings"[|"Localizable.strings"| - 8..] == ".strings";
  }

  /** As written, the phrase `Activity` is never found, although the project defines it. */
  lemma ActivityNotTranslated()
    ensures Translate(ActivityProject(), "Activity", "de") == Ok(None)
  {
    ActivityPaths();
    assert IsUpper("Activity"[0]);
    TranslateUppercase(ActivityProject(), "Activity", "de");
  }

  /** In `en.lproj`, the lowered phrase `Activity` has the id `Heading`. */
  lemma ActivityBaseId()
    ensures var p := ActivityProject();
      TranslateInDir(Lower("Activity"), "/p/en.lproj", ReadDir(p, "/p/en.lproj"), true) == Ok(Some("Heading"))
  {
    ActivityPaths();
    ActivityFileName();
    SingleLineLookup("/p", "en", "Localizable.strings", "Heading", "Activity", true);
  }

  /** In `de.lproj`, the lowered id `Heading` has the target `Aktivitaet`. */
  lemma ActivityTarget()
    ensures var p := ActivityProject();
      TranslateInDir(Lower("Heading"), "/p/de.lproj", ReadDir(p, "/p/de.lproj"), false) == Ok(Some("Aktivitaet"))
  {
    ActivityPaths();
    ActivityFileName();
    SingleLineLookup("/p", "de", "Localizable.strings", "Heading", "Aktivitaet", false);
  }

  /** The folded lookup finds it through its id. */
  lemma ActivityTranslated()
    ensures TranslateFolded(ActivityProject(), "Activity", "de") == Ok(Some("Aktivitaet"))
  {
    ActivityPaths();
    ActivityBaseId();
    ActivityTarget();
  }
}
