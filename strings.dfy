/**
 * The `.strings` localization parser of src/strings.rs: the record types,
 * the line-by-line state machine of `Localization::from_params`, the locale
 * tagging of `resolve_path_locale` and the file entry point `from_file`.
 *
 * A file's content is given as its sequence of lines (what `str::lines`
 * yields); reading the file is a parameter: `None` stands for a file that
 * cannot be opened or is not valid UTF-8.
 */
module Strings {
  import opened Wrappers
  import opened Text

  datatype Translation = Translation(comment: string, source: string, target: string)

  /** `translations` is keyed by the lowercase of each entry's `source`. */
  datatype Localization = Localization(locale: string, translations: map<string, Translation>)

  /**
   * The parser's cursor. Only `Whitespace` and `Comment` are ever assigned;
   * `Source` and `Target` are declared by the source and never reached.
   */
  datatype Cursor = Whitespace | Comment | Source | Target

  /** The two failures of `from_file`: the read, and the locale lookup. */
  datatype Error = Unreadable | LocaleNotResolved

  /** The mutable state of `from_params` between two lines. */
  datatype ParseState = ParseState(translations: map<string, Translation>, comment: string, cursor: Cursor)

  const Initial := ParseState(map[], "", Whitespace)

  /** The filter applied to the pieces of a line split on `"`. */
  predicate Kept(segment: string) {
    !(segment == "" || segment == ";" || '=' in segment)
  }

  /** The pieces that survive the filter, in line order. */
  function KeepSegments(pieces: seq<string>): (r: seq<string>)
    ensures forall i :: 0 <= i < |r| ==> Kept(r[i]) && r[i] in pieces
    ensures |r| <= |pieces|
    decreases |pieces|
  {
    if pieces == [] then []
    else if Kept(pieces[0]) then [pieces[0]] + KeepSegments(pieces[1..])
    else KeepSegments(pieces[1..])
  }

  /** The filter drops nothing that passes it. */
  lemma {:induction false} KeepSegmentsComplete(pieces: seq<string>, x: string)
    requires x in pieces && Kept(x)
    ensures x in KeepSegments(pieces)
    decreases |pieces|
  {
    if pieces[0] != x {
      KeepSegmentsComplete(pieces[1..], x);
    }
  }

  /** The filter keeps order: filtering two runs of pieces in a row filters each in turn. */
  lemma {:induction false} KeepSegmentsAppend(a: seq<string>, b: seq<string>)
    ensures KeepSegments(a + b) == KeepSegments(a) + KeepSegments(b)
    decreases |a|
  {
    if a == [] {
      assert a + b == b;
    } else {
      KeepSegmentsAppend(a[1..], b);
      assert (a + b)[1..] == a[1..] + b;
    }
  }

  /** The quoted-text candidates of one line. */
  function Segments(line: string): (r: seq<string>)
    ensures forall i :: 0 <= i < |r| ==> Kept(r[i]) && '"' !in r[i]
  {
    SplitPiecesLackSeparator(line, '"');
    KeepSegments(Split(line, '"'))
  }

  /** Every piece of the line's `"`-split that passes the filter is a candidate. */
  lemma SegmentsComplete(line: string, x: string)
    requires x in Split(line, '"') && Kept(x)
    ensures x in Segments(line)
  {
    KeepSegmentsComplete(Split(line, '"'), x);
  }

  predicate OpensComment(line: string) {
    StartsWith(line, "//") || StartsWith(line, "/*")
  }

  /** What one iteration of the `for line in content.lines()` loop does. */
  function Step(st: ParseState, line: string, inversed: bool): ParseState {
    if |line| == 0 then st
    else if OpensComment(line) || st.cursor == Comment then
      st.(comment := st.comment + line,
          cursor := if EndsWith(line, "*/") then Whitespace else Comment)
    else
      var text := Segments(line);
      if |text| == 2 then
        var source := if inversed then text[1] else text[0];
        var target := if inversed then text[0] else text[1];
        st.(translations := st.translations[Lower(source) := Translation(st.comment, source, target)])
      else st
  }

  /** The state after the given lines, read in order from `Initial`. */
  function Parse(lines: seq<string>, inversed: bool): ParseState
    decreases |lines|
  {
    if lines == [] then Initial
    else Step(Parse(lines[..|lines| - 1], inversed), lines[|lines| - 1], inversed)
  }

  /** The localization `from_params` builds. */
  function Parsed(locale: string, lines: seq<string>, inversed: bool): Localization {
    Localization(locale, Parse(lines, inversed).translations)
  }

  /**
   * `Localization::from_params`: one pass over the lines that updates the
   * translation map, the comment buffer and the cursor. It never fails and
   * keeps the given locale.
   */
  method FromParams(locale: string, content: seq<string>, inversed: bool)
    returns (r: Result<Localization, Error>)
    ensures r.Ok? && r.value.locale == locale
    ensures r.value == Parsed(locale, content, inversed)
  {
    var translations: map<string, Translation> := map[];
    var comment := "";
    var cursor := Whitespace;
    for i := 0 to |content|
      invariant ParseState(translations, comment, cursor) == Parse(content[..i], inversed)
    {
      var line := content[i];
      assert content[..i + 1][..i] == content[..i];
      if |line| == 0 {
        continue;
      }
      if StartsWith(line, "//") || StartsWith(line, "/*") || cursor == Comment {
        comment := comment + line;
        cursor := if EndsWith(line, "*/") then Whitespace else Comment;
        continue;
      }
      var text := Segments(line);
      if |text| == 2 {
        var source, target := text[0], text[1];
        if inversed {
          source, target := target, source;
        }
        translations := translations[Lower(source) := Translation(comment, source, target)];
      }
    }
    assert content[..|content|] == content;
    r := Ok(Localization(locale, translations));
  }

  /** The components of a path, as `Path::components` yields them for '/' paths. */
  function Components(path: string): seq<string> {
    Split(path, '/')
  }

  /** Component `i` ends in `.lproj` and no component after it does. */
  predicate InnermostLproj(components: seq<string>, i: int) {
    && 0 <= i < |components|
    && EndsWith(components[i], ".lproj")
    && forall j :: i < j < |components| ==> !EndsWith(components[j], ".lproj")
  }

  /** `find_map` over the components from the innermost outward. */
  function InnermostLocale(components: seq<string>): (r: Option<string>)
    ensures r.None? <==> forall j :: 0 <= j < |components| ==> !EndsWith(components[j], ".lproj")
    ensures r.Some? ==> exists i :: InnermostLproj(components, i) && components[i] == r.value + ".lproj"
    decreases |components|
  {
    if components == [] then None
    else
      var last := |components| - 1;
      var init := components[..last];
      match StripSuffix(components[last], ".lproj")
      case Some(locale) =>
        assert InnermostLproj(components, last);
        Some(locale)
      case None =>
        assert forall j :: 0 <= j < last ==> init[j] == components[j];
        assert forall i :: InnermostLproj(init, i) ==> InnermostLproj(components, i);
        InnermostLocale(init)
  }

  /**
   * `resolve_path_locale`: the innermost path component ending in `.lproj`,
   * with that suffix stripped.
   */
  function ResolvePathLocale(path: string): (r: Option<string>) {
    InnermostLocale(Components(path))
  }

  /**
   * `Localization::from_file`: the read happens first, then the locale is
   * resolved from the path, then the content is parsed.
   */
  function FromFile(path: string, content: Option<seq<string>>, inversed: bool): (r: Result<Localization, Error>)
    ensures r.Ok? <==> content.Some? && ResolvePathLocale(path).Some?
    ensures content.None? ==> r == Err(Unreadable)
    ensures r.Ok? ==> Some(r.value.locale) == ResolvePathLocale(path)
    ensures r.Ok? ==> r.value.translations == Parse(content.value, inversed).translations
  {
    match content
    case None => Err(Unreadable)
    case Some(lines) =>
      match ResolvePathLocale(path)
      case None => Err(LocaleNotResolved)
      case Some(locale) => Ok(Parsed(locale, lines, inversed))
  }

  /**
   * Appending one component: it decides the locale when it ends in `.lproj`,
   * otherwise the enclosing path does.
   */
  lemma ResolveAppended(dir: string, name: string)
    requires '/' !in name
    ensures ResolvePathLocale(dir + "/" + name) ==
      if EndsWith(name, ".lproj") then StripSuffix(name, ".lproj") else ResolvePathLocale(dir)
  {
    SplitAround(dir, name, '/');
    SplitWithoutSeparator(name, '/');
    var components := Split(dir, '/') + [name];
    assert Components(dir + "/" + name) == components;
    assert components[..|components| - 1] == Split(dir, '/');
  }

  /**
   * A file directly inside `<locale>.lproj` is tagged with that locale,
   * whatever directory holds the `.lproj` directory.
   */
  lemma ResolveInLocaleDir(dir: string, locale: string, name: string)
    requires '/' !in locale && '/' !in name
    requires !EndsWith(name, ".lproj")
    ensures ResolvePathLocale(dir + "/" + (locale + ".lproj") + "/" + name) == Some(locale)
  {
    var lproj := locale + ".lproj";
    assert '/' !in lproj by {
      forall i | 0 <= i < |lproj| ensures lproj[i] != '/' {
        if i < |locale| { assert lproj[i] == locale[i]; }
      }
    }
    ResolveAppended(dir + "/" + lproj, name);
    ResolveAppended(dir, lproj);
    StripSuffixOfAppended(locale, ".lproj");
  }

  lemma ResolvePathLocaleFound()
    ensures ResolvePathLocale("/p/de.lproj/L.strings") == Some("de")
  {
    assert "/p" + "/" + ("de" + ".lproj") + "/" + "L.strings" == "/p/de.lproj/L.strings";
    ResolveInLocaleDir("/p", "de", "L.strings");
  }

  lemma ResolvePathLocaleNotFound()
    ensures ResolvePathLocale("/p/L.strings") == None
  {
    assert Components("") == [""];
    ResolveAppended("", "p");
    assert "" + "/" + "p" == "/p";
    ResolveAppended("/p", "L.strings");
    assert "/p" + "/" + "L.strings" == "/p/L.strings";
  }
}
