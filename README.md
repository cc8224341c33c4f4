# poly: `.strings` localization parser and project lookup, in Dafny

This project models the core of `poly`, a tool for the localization files of
Apple-platform projects. It has two parts.

- **The parser** (`src/strings.rs`). `Localization::from_params` reads a
  `.strings` file line by line. It keeps a translation map, a comment buffer
  and a cursor. Lines that open or continue a comment are appended to the
  buffer. Every other line is split on `"` and filtered. A line with exactly
  two pieces left becomes a `Translation`, stored under the lowercase of its
  source. `from_file` reads the file and tags the result with the locale of
  the innermost `<locale>.lproj` component of its path
  (`resolve_path_locale`).
- **The project** (`src/proj.rs`):
  - `available_locales` lists the entries under the root whose names end in
    `.lproj`, files included, with that suffix removed.
  - `localizations_for_locale` parses the `.strings` files of one locale
    directory.
  - `translate` looks a phrase up in `en.lproj`, parsed *inversed* (source
    and target swapped). This finds the phrase's id. It then looks the id up
    in the target locale's directory.

Files:

- `text.dfy`: `Wrappers` (`Option`, `Result`) and `Text`, which models the
  standard-library string calls the core uses.
- `strings.dfy`: `Strings`, which holds:
  - the records;
  - the step function `Step` and its fold `Parse`;
  - the loop method `FromParams`, proved equal to `Parse`;
  - `ResolvePathLocale` and `FromFile`.
- `parser_theory.dfy`: `ParserTheory`. It defines the parse a second way,
  line by line:
  - the cursor each line starts under;
  - the comment text in force at each line;
  - the entry each line writes.

  It then proves that the map `Parse` builds is the last write per key of
  those entries, and proves concrete line shapes.
- `proj.dfy`: `Proj`. The filesystem is a value: a map from directory path to
  its listing. Each entry has a name and, when readable, its lines.

Two facts about the code shape the model:

- The comment buffer is never cleared: every entry carries all comment text
  read so far (`CommentGrows`, `EarlierCommentIsPrefix`).
- The id taken from `en.lproj` is the matched entry's `target`; under the
  inversed parse that is the line's first quoted piece, in its original case
  (`TargetForLine`).

## Model

| member | source | states |
|---|---|---|
| Text.StripSuffix | src/strings.rs:86 | a result exists exactly when the text ends with the suffix, and putting the suffix back gives the text |
| Text.SplitPiecesLackSeparator | src/strings.rs:47-48 | no piece of a split holds the separator |
| Text.JoinSplit | src/strings.rs:47-48 | joining the pieces with the separator gives back the text |
| Text.SplitJoin | src/strings.rs:47-48 | splitting separator-free pieces joined by the separator gives back the pieces |
| Text.SplitAround | src/strings.rs:47-48 | splitting a text that has a separator between two parts splits each part on its own |
| Text.SplitWithoutSeparator | src/strings.rs:47-48 | a text without the separator splits into itself alone |
| Text.LowerHasNoUpper | src/strings.rs:59 | a lowered text holds no upper-case letter |
| Text.LowerFixesLowered | src/strings.rs:59 | lowering a text without upper-case letters leaves it unchanged |
| Text.LowerIdempotent | src/strings.rs:59 | lowering twice is lowering once |
| Text.LowerAt | src/strings.rs:59 | lowering keeps the length and maps each character on its own |
| Strings.KeepSegments | src/strings.rs:49 | the kept pieces are non-empty, not `;`, free of `=`, taken from the input, and no more than the input |
| Strings.KeepSegmentsComplete | src/strings.rs:49-50 | every input piece that passes the filter is kept |
| Strings.KeepSegmentsAppend | src/strings.rs:49-50 | the filter keeps order: filtering two runs of pieces in a row gives the two filtered runs in a row |
| Strings.Segments | src/strings.rs:47-50 | every candidate piece of a line passes the filter and holds no `"` |
| Strings.SegmentsComplete | src/strings.rs:47-50 | every piece of the line's `"`-split that passes the filter is a candidate |
| Strings.FromParams | src/strings.rs:31-64 | the loop over the lines always succeeds, keeps the given locale, and builds exactly the map of the fold `Parse` |
| Strings.InnermostLocale | src/strings.rs:81-88 | no locale exactly when no component ends in `.lproj`; otherwise the locale plus `.lproj` is the innermost such component |
| Strings.FromFile | src/strings.rs:66-73 | succeeds exactly when the file is readable and its path names a locale; an unreadable file is reported first; the locale is the one `resolve_path_locale` gives for the path, and the translations are the parse of the content |
| Strings.ResolveAppended | src/strings.rs:81-88 | a trailing component decides the locale when it ends in `.lproj`, otherwise the enclosing path does |
| Strings.ResolveInLocaleDir | src/strings.rs:81-88 | a file directly inside `<locale>.lproj` gets that locale, whatever holds the `.lproj` directory |
| Strings.ResolvePathLocaleFound | src/strings.rs:81-88 | `/p/de.lproj/L.strings` resolves to `de` |
| Strings.ResolvePathLocaleNotFound | src/strings.rs:81-88 | `/p/L.strings` resolves to no locale |
| ParserTheory.ParseCursor | src/strings.rs:36-45 | the parser's cursor after any lines is the one obtained from the comment lines alone |
| ParserTheory.CursorLive | src/strings.rs:21-27 | the cursor is only ever `Whitespace` or `Comment`; `Source` and `Target` are never reached |
| ParserTheory.ParseComment | src/strings.rs:41-45 | the comment buffer is all the comment lines read so far, concatenated in order |
| ParserTheory.CommentGrows | src/strings.rs:42 | the buffer is never cleared: after more lines the earlier buffer is a prefix of the later one |
| ParserTheory.EarlierCommentIsPrefix | src/strings.rs:59 | an entry written by an earlier line has a comment that is a prefix of the comment of an entry written by a later line |
| ParserTheory.StepEntry | src/strings.rs:47-59 | one more line adds its entry to the map, and otherwise leaves the map as it was |
| ParserTheory.ParseIsLastWrite | src/strings.rs:38-61 | the map is the last-write-wins combination of the entries the lines write, in file order |
| ParserTheory.WritesAt | src/strings.rs:38-61 | the write of line `i` is the entry that line makes after the lines before it |
| ParserTheory.LastWriteValue | src/strings.rs:59 | a key holds what the final write to it stored |
| ParserTheory.LastWriteWins | src/strings.rs:59 | a key is present exactly when some write names it, and the value is that of the last such write |
| ParserTheory.FinalWriteExists | src/strings.rs:59 | a key some write names has a last write |
| ParserTheory.EntriesCharacterized | src/strings.rs:38-61 | a key is in the map exactly when some entry line writes it; the value is the entry of the last line writing it, and such a line exists |
| ParserTheory.ParseWellFormed | src/strings.rs:47-59 | every key is the lowercase of its entry's source; source and target pass the filter and hold no `"` |
| ParserTheory.InversedSwapsLine | src/strings.rs:53-57 | an inversed line writes an entry exactly when the canonical reading does, with source and target swapped and keyed by the lowered target |
| ParserTheory.ModeIndependentState | src/strings.rs:38-45 | cursor and comment buffer do not depend on the inversed flag |
| ParserTheory.BlankLineIgnored | src/strings.rs:39 | inserting an empty line anywhere changes nothing |
| ParserTheory.StepInComment | src/strings.rs:41-44 | a line read in a comment, or opening one, that does not close it is appended to the buffer and leaves the cursor in `Comment` |
| ParserTheory.CommentBlock | src/strings.rs:41-44 | an open block comment swallows every following line that does not close it, entries included, adding each to the buffer |
| ParserTheory.CommentBlockCloses | src/strings.rs:43 | a line ending in `*/` closes the block and returns the cursor to `Whitespace` |
| ParserTheory.MalformedLineSkipped | src/strings.rs:52 | a line without exactly two kept pieces leaves the map unchanged |
| ParserTheory.QuotedLineSplit | src/strings.rs:48 | `"a" = "b";` splits on `"` into empty, `a`, ` = `, `b`, `;` |
| ParserTheory.QuotedLineSegments | src/strings.rs:47-50 | `"a" = "b";` leaves exactly the pieces `a` and `b` |
| ParserTheory.QuotedLineStored | src/strings.rs:52-59 | outside a comment, `"a" = "b";` stores the pair with the buffered comment under the lowered source, swapped when inversed |
| ParserTheory.UnquotedValueSegments | src/strings.rs:49 | in `"key" = value;` the unquoted value is dropped with its `=` piece |
| ParserTheory.UnquotedValueSkipped | src/strings.rs:47-52 | a line with an unquoted value writes no entry |
| Proj.IsStringsIff | src/proj.rs:32 | the extension is `strings` exactly when the name ends in `.strings` with something before it |
| Proj.StringsNotLproj | src/proj.rs:32 | a `.strings` name never ends in `.lproj` |
| Proj.LocalesInMembership | src/proj.rs:14-24 | a locale is listed exactly when an entry is named `<locale>.lproj` |
| Proj.LocalesInAppend | src/proj.rs:14-24 | locales keep listing order: two listings in a row give their two lists in a row |
| Proj.AvailableLocales | src/proj.rs:14-24 | the listed locales are exactly the root's entries named `<locale>.lproj`, suffix removed |
| Proj.LocalizationsInMembership | src/proj.rs:26-39 | a localization is produced exactly when some `.strings` entry's canonical parse of its path succeeds with it |
| Proj.LocalizationsForLocaleSpec | src/proj.rs:26-39 | the localizations of a locale are exactly the canonical parses of its readable `.strings` files, each tagged with that locale |
| Proj.FindFile | src/proj.rs:56-65 | finds the first entry that is a `.strings` file parsing to a map holding the word, or reports that none does |
| Proj.TranslateInDir | src/proj.rs:55-71 | fails exactly when the directory cannot be read; no result exactly when no file holds the word; otherwise the target stored by the first file holding it |
| Proj.SkippedEntry | src/proj.rs:58-65 | an entry that does not hold the word, because it is not `.strings`, cannot be read, names no locale or lacks the key, does not change the result |
| Proj.UppercaseNeverHeld | src/proj.rs:62 | no file holds a word with an upper-case letter, because stored keys are lowered and the word is not |
| Proj.UppercaseNotFound | src/proj.rs:55-71 | a word with an upper-case letter is never found in any directory |
| Proj.TargetForLine | src/proj.rs:68 | the found target is the target piece of the file's last entry line whose lowered source is the word |
| Proj.SingleLineLookup | src/proj.rs:55-71 | a locale directory with one file of one line `"a" = "b";` answers the line's lowered source with its target, in either mode |
| Proj.TranslateNeedsBase | src/proj.rs:42-43 | without a readable `en.lproj` every translation fails |
| Proj.TranslateErr | src/proj.rs:41-53 | a translation fails exactly when `en.lproj` cannot be read, or when the phrase is found there and the target directory cannot be read |
| Proj.TranslateFound | src/proj.rs:41-53 | a translation comes from the first target-locale file holding the id, and the id comes from the first `en.lproj` file holding the phrase |
| Proj.FirstHolderUnique | src/proj.rs:58-65 | a listing has at most one first holder of a word |
| Proj.TranslateInDirHit | src/proj.rs:55-71 | when a file holds the word, the lookup returns the target stored by the first such file |
| Proj.TranslateHit | src/proj.rs:41-53 | when `en.lproj` holds the phrase and the target locale holds its id, the translation is the target stored for the id by the first target file holding it |
| Proj.TranslateAbsent | src/proj.rs:51 | a phrase that no file of a readable `en.lproj` holds has no translation, whatever the target locale |
| Proj.TranslateUppercase | src/proj.rs:41-53 | a phrase with an upper-case letter is never translated |
| Proj.ActivityNotTranslated | src/proj.rs:41-71 | as written, `translate("Activity", "de")` finds nothing in a project that defines the phrase |
| Proj.ActivityTranslated | src/proj.rs:41-53 | the case-folded lookup translates `Activity` in the same project |
| Proj.TranslateFoldedIgnoresCase | src/proj.rs:41-53 | the case-folded lookup gives the same answer for a phrase and its lowercase |
| Proj.TranslateFoldedAgrees | src/proj.rs:41-53 | on a lower-case phrase whose id is lower-case, the case-folded lookup agrees with the lookup as written |

## Left out

- `str::lines`: a file's content is given as its lines. Line-ending handling (`\n`, `\r\n`, a final newline) is not modelled.
- `to_lowercase` is modelled for ASCII letters only. Unicode case mapping, including mappings that change the length, is not modelled.
- `HashMap` is modelled as a `map`. Its iteration order plays no part in the core.
- `Path::components` is modelled as splitting on `/`. Normalisation drops empty and `.` components and adds a root component. It cannot change the result, because none of those components end in `.lproj`. Windows prefixes and non-UTF-8 components are not modelled.
- `Path::join` is modelled as `dir + "/" + name`. A second argument that is absolute and replaces the base is not modelled.
- `Path::extension` is modelled on the entry's file name.
- Proj.AvailableLocales: the `unwrap` on `read_dir` of the root is a precondition. So is the `unwrap` in `localizations_for_locale`. Panics on listing entries and on non-UTF-8 names are not modelled.
- Proj.TranslateInDir: a `read_dir` failure is reported as `Unreadable`. The model drops anyhow's error text.
- Proj.TranslateInDir: the found file is read a second time. The model assumes the content is the same on both reads.
- `Localization::write_to_file` is a stub that writes nothing, so it is not modelled.
- Real file I/O is not modelled. A file's content is a parameter, and `None` stands for a file that cannot be opened or read as UTF-8.
- `src/main.rs` (command line, file copying) and `src/source.rs` are not part of this model.

## Findings

| source | as written | input that shows it | evidently intended | confidence | as-written member | corrected member |
|---|---|---|---|---|---|---|
| src/proj.rs:41-71 | the phrase and the id are compared with the stored keys as given, but keys are stored lowercased (src/strings.rs:59) | `Project::translate("Activity", "de")` (the phrase src/main.rs:139 passes to its stub source, not to this function) with `en.lproj/Localizable.strings` holding `"Heading" = "Activity";` and `de.lproj/Localizable.strings` holding `"Heading" = "Aktivitaet";` returns no translation | lower the phrase and the id before each lookup, returning `Aktivitaet` | medium, not executed | Proj.ActivityNotTranslated | Proj.ActivityTranslated |
