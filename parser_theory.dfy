/**
 * A description of what `Localization::from_params` computes, stated per
 * line of the input rather than as a loop, and the lemmas that tie the
 * parser of module Strings to it.
 *
 * Three tracks make up the description: the cursor (which lines are read
 * in the Comment state), the comment buffer (every comment line so far,
 * concatenated), and the entry lines (non-comment lines with exactly two
 * surviving segments). The map holds, for each key, the entry of the LAST
 * entry line with that key.
 */
module ParserTheory {
  import opened Wrappers
  import opened Text
  import opened Strings

  /** How the cursor moves over one line. */
  function NextCursor(c: Cursor, line: string): Cursor {
    if |line| == 0 then c
    else if OpensComment(line) || c == Comment then
      if EndsWith(line, "*/") then Whitespace else Comment
    else c
  }

  /** The cursor before the line that follows `lines`. */
  function CursorAfter(lines: seq<string>): Cursor
    decreases |lines|
  {
    if lines == [] then Whitespace
    else NextCursor(CursorAfter(lines[..|lines| - 1]), lines[|lines| - 1])
  }

  /** `line`, read after `before`, is appended to the comment buffer. */
  predicate InComment(before: seq<string>, line: string) {
    |line| > 0 && (OpensComment(line) || CursorAfter(before) == Comment)
  }

  /** `line`, read after `before`, produces an entry. */
  predicate IsEntry(before: seq<string>, line: string) {
    |line| > 0 && !InComment(before, line) && |Segments(line)| == 2
  }

  /** The concatenation, without separators, of every comment line of `lines`. */
  function CommentText(lines: seq<string>): string
    decreases |lines|
  {
    if lines == [] then ""
    else
      var n := |lines| - 1;
      CommentText(lines[..n]) + (if InComment(lines[..n], lines[n]) then lines[n] else "")
  }

  function SourceOf(line: string, inversed: bool): string
    requires |Segments(line)| == 2
  {
    Segments(line)[if inversed then 1 else 0]
  }

  function TargetOf(line: string, inversed: bool): string
    requires |Segments(line)| == 2
  {
    Segments(line)[if inversed then 0 else 1]
  }

  function KeyOf(line: string, inversed: bool): string
    requires |Segments(line)| == 2
  {
    Lower(SourceOf(line, inversed))
  }

  /** A key and the translation stored under it. */
  datatype Keyed = Keyed(key: string, entry: Translation)

  /** What `line`, read after `before`, stores in the map, if anything. */
  function EntryOf(before: seq<string>, line: string, inversed: bool): Option<Keyed> {
    if IsEntry(before, line)
    then Some(Keyed(KeyOf(line, inversed), Translation(CommentText(before), SourceOf(line, inversed), TargetOf(line, inversed))))
    else None
  }

  /** The writes of all lines, in file order. */
  function Writes(lines: seq<string>, inversed: bool): (r: seq<Option<Keyed>>)
    ensures |r| == |lines|
    decreases |lines|
  {
    if lines == [] then []
    else
      var n := |lines| - 1;
      Writes(lines[..n], inversed) + [EntryOf(lines[..n], lines[n], inversed)]
  }

  /** The map a sequence of writes leaves, each write replacing what its key held. */
  function LastWrite(writes: seq<Option<Keyed>>): map<string, Translation>
    decreases |writes|
  {
    if writes == [] then map[]
    else
      var n := |writes| - 1;
      match writes[n]
      case None => LastWrite(writes[..n])
      case Some(w) => LastWrite(writes[..n])[w.key := w.entry]
  }

  predicate WritesKey(w: Option<Keyed>, k: string) {
    w.Some? && w.value.key == k
  }

  /** Write `i` is to key `k` and no later write is. */
  predicate FinalWrite(writes: seq<Option<Keyed>>, i: int, k: string) {
    && 0 <= i < |writes|
    && WritesKey(writes[i], k)
    && forall j :: i < j < |writes| ==> !WritesKey(writes[j], k)
  }

  /** The parser's cursor follows the cursor track. */
  lemma {:induction false} ParseCursor(lines: seq<string>, inversed: bool)
    ensures Parse(lines, inversed).cursor == CursorAfter(lines)
    decreases |lines|
  {
    if lines != [] {
      ParseCursor(lines[..|lines| - 1], inversed);
    }
  }

  /** Only `Whitespace` and `Comment` are ever reached. */
  lemma {:induction false} CursorLive(lines: seq<string>)
    ensures CursorAfter(lines) == Whitespace || CursorAfter(lines) == Comment
    decreases |lines|
  {
    if lines != [] {
      CursorLive(lines[..|lines| - 1]);
    }
  }

  /** The parser's comment buffer holds every comment line read so far. */
  lemma {:induction false} ParseComment(lines: seq<string>, inversed: bool)
    ensures Parse(lines, inversed).comment == CommentText(lines)
    decreases |lines|
  {
    if lines != [] {
      var n := |lines| - 1;
      ParseComment(lines[..n], inversed);
      ParseCursor(lines[..n], inversed);
    }
  }

  /** The last line adds its entry, if it has one, and changes nothing else in the map. */
  lemma StepEntry(lines: seq<string>, inversed: bool)
    requires |lines| > 0
    ensures var n := |lines| - 1;
      Parse(lines, inversed).translations ==
        match EntryOf(lines[..n], lines[n], inversed)
        case None => Parse(lines[..n], inversed).translations
        case Some(w) => Parse(lines[..n], inversed).translations[w.key := w.entry]
  {
    var n := |lines| - 1;
    ParseCursor(lines[..n], inversed);
    ParseComment(lines[..n], inversed);
  }

  /** The parser's map is the last-write-wins map of the lines' writes. */
  lemma {:induction false} ParseIsLastWrite(lines: seq<string>, inversed: bool)
    ensures Parse(lines, inversed).translations == LastWrite(Writes(lines, inversed))
    decreases |lines|
  {
    if lines != [] {
      var n := |lines| - 1;
      ParseIsLastWrite(lines[..n], inversed);
      StepEntry(lines, inversed);
      var ws := Writes(lines, inversed);
      assert ws[..n] == Writes(lines[..n], inversed);
    }
  }

  /** Write `i` is the write of line `i`, read after the lines before it. */
  lemma {:induction false} WritesAt(lines: seq<string>, inversed: bool)
    ensures |Writes(lines, inversed)| == |lines|
    ensures forall i :: 0 <= i < |lines| ==> Writes(lines, inversed)[i] == EntryOf(lines[..i], lines[i], inversed)
    decreases |lines|
  {
    if lines != [] {
      var n := |lines| - 1;
      var ws := Writes(lines, inversed);
      var init := Writes(lines[..n], inversed);
      WritesAt(lines[..n], inversed);
      assert ws == init + [EntryOf(lines[..n], lines[n], inversed)];
      forall i | 0 <= i < |lines| ensures ws[i] == EntryOf(lines[..i], lines[i], inversed) {
        if i < n {
          assert ws[i] == init[i];
          assert lines[..n][..i] == lines[..i] && lines[..n][i] == lines[i];
        }
      }
    }
  }

  /** A key is written at all exactly when some write is to it. */
  lemma {:induction false} LastWritePresence(writes: seq<Option<Keyed>>, k: string)
    ensures k in LastWrite(writes) <==> exists i :: 0 <= i < |writes| && WritesKey(writes[i], k)
    decreases |writes|
  {
    if writes != [] {
      var n := |writes| - 1;
      var init := writes[..n];
      LastWritePresence(init, k);
      assert k in LastWrite(writes) <==> WritesKey(writes[n], k) || k in LastWrite(init);
      if exists i :: 0 <= i < |writes| && WritesKey(writes[i], k) {
        var i :| 0 <= i < |writes| && WritesKey(writes[i], k);
        if i < n {
          assert init[i] == writes[i];
        }
      }
      if exists i :: 0 <= i < |init| && WritesKey(init[i], k) {
        var i :| 0 <= i < |init| && WritesKey(init[i], k);
        assert init[i] == writes[i];
      }
    }
  }

  /** A key holds what the final write to it stored. */
  lemma {:induction false} LastWriteValue(writes: seq<Option<Keyed>>, k: string, i: int)
    requires FinalWrite(writes, i, k)
    ensures k in LastWrite(writes) && LastWrite(writes)[k] == writes[i].value.entry
    decreases |writes|
  {
    var n := |writes| - 1;
    var init := writes[..n];
    if i < n {
      assert !WritesKey(writes[n], k);
      assert init[i] == writes[i];
      forall j | i < j < |init| ensures !WritesKey(init[j], k) {
        assert init[j] == writes[j];
      }
      LastWriteValue(init, k, i);
    }
  }

  /**
   * Last write wins: a key is in the map exactly when some write is to it,
   * and it then holds what the final write to it stored.
   */
  lemma LastWriteWins(writes: seq<Option<Keyed>>, k: string)
    ensures k in LastWrite(writes) <==> exists i :: 0 <= i < |writes| && WritesKey(writes[i], k)
    ensures forall i :: FinalWrite(writes, i, k) ==> k in LastWrite(writes) && LastWrite(writes)[k] == writes[i].value.entry
  {
    LastWritePresence(writes, k);
    forall i | FinalWrite(writes, i, k)
      ensures k in LastWrite(writes) && LastWrite(writes)[k] == writes[i].value.entry
    {
      LastWriteValue(writes, k, i);
    }
  }

  /** Among the writes to a key, one is the final one. */
  lemma {:induction false} FinalWriteExists(writes: seq<Option<Keyed>>, k: string)
    requires exists i :: 0 <= i < |writes| && WritesKey(writes[i], k)
    ensures exists i :: FinalWrite(writes, i, k)
    decreases |writes|
  {
    var n := |writes| - 1;
    if WritesKey(writes[n], k) {
      assert FinalWrite(writes, n, k);
    } else {
      var init := writes[..n];
      var i0 :| 0 <= i0 < |writes| && WritesKey(writes[i0], k);
      assert init[i0] == writes[i0];
      FinalWriteExists(init, k);
      var i :| FinalWrite(init, i, k);
      assert init[i] == writes[i];
      forall j | i < j < |writes| ensures !WritesKey(writes[j], k) {
        if j < n { assert init[j] == writes[j]; }
      }
      assert FinalWrite(writes, i, k);
    }
  }

  /** Line `i` stores under key `k` and no later line does. */
  predicate LastEntryFor(lines: seq<string>, i: int, k: string, inversed: bool) {
    && 0 <= i < |lines|
    && WritesKey(EntryOf(lines[..i], lines[i], inversed), k)
    && forall j :: i < j < |lines| ==> !WritesKey(EntryOf(lines[..j], lines[j], inversed), k)
  }

  /**
   * The map holds key `k` exactly when some line stores under `k`; it then
   * holds the entry of the last such line, so later entries overwrite
   * earlier ones with the same lowercased source.
   */
  lemma EntriesCharacterized(lines: seq<string>, inversed: bool, k: string)
    ensures k in Parse(lines, inversed).translations <==>
      exists i :: 0 <= i < |lines| && WritesKey(EntryOf(lines[..i], lines[i], inversed), k)
    ensures forall i :: LastEntryFor(lines, i, k, inversed) ==>
      k in Parse(lines, inversed).translations &&
      Parse(lines, inversed).translations[k] == EntryOf(lines[..i], lines[i], inversed).value.entry
    ensures k in Parse(lines, inversed).translations ==> exists i :: LastEntryFor(lines, i, k, inversed)
  {
    var ws := Writes(lines, inversed);
    ParseIsLastWrite(lines, inversed);
    WritesAt(lines, inversed);
    LastWriteWins(ws, k);
    forall i | LastEntryFor(lines, i, k, inversed) ensures FinalWrite(ws, i, k) {
    }
    if k in Parse(lines, inversed).translations {
      FinalWriteExists(ws, k);
      var i :| FinalWrite(ws, i, k);
      assert LastEntryFor(lines, i, k, inversed);
    }
  }

  /**
   * Every stored entry is keyed by the lowercase of its source, and its
   * source and target are non-empty, not `;`, and hold neither `"` nor `=`.
   */
  predicate WellFormed(translations: map<string, Translation>) {
    forall k :: k in translations ==>
      && k == Lower(translations[k].source)
      && Kept(translations[k].source) && '"' !in translations[k].source
      && Kept(translations[k].target) && '"' !in translations[k].target
  }

  lemma {:induction false} ParseWellFormed(lines: seq<string>, inversed: bool)
    ensures WellFormed(Parse(lines, inversed).translations)
    decreases |lines|
  {
    if lines != [] {
      ParseWellFormed(lines[..|lines| - 1], inversed);
    }
  }

  /** The comment buffer only grows: what it held earlier is a prefix of what it holds later. */
  lemma {:induction false} CommentGrows(lines: seq<string>, i: nat, j: nat)
    requires i <= j <= |lines|
    ensures CommentText(lines[..i]) <= CommentText(lines[..j])
    decreases j
  {
    if i < j {
      CommentGrows(lines, i, j - 1);
      assert lines[..j][..j - 1] == lines[..j - 1];
      var extra := if InComment(lines[..j - 1], lines[j - 1]) then lines[j - 1] else "";
      assert CommentText(lines[..j]) == CommentText(lines[..j - 1]) + extra;
    }
  }

  /** An entry read earlier carries a prefix of the comment of an entry read later. */
  lemma EarlierCommentIsPrefix(lines: seq<string>, inversed: bool, k1: string, k2: string, i: nat, j: nat)
    requires LastEntryFor(lines, i, k1, inversed) && LastEntryFor(lines, j, k2, inversed) && i <= j
    ensures k1 in Parse(lines, inversed).translations && k2 in Parse(lines, inversed).translations
    ensures Parse(lines, inversed).translations[k1].comment <= Parse(lines, inversed).translations[k2].comment
  {
    EntriesCharacterized(lines, inversed, k1);
    EntriesCharacterized(lines, inversed, k2);
    CommentGrows(lines, i, j);
  }

  /**
   * A line stores an entry in one mode exactly when it does in the other,
   * with the same comment and the two segments swapped.
   */
  lemma InversedSwapsLine(before: seq<string>, line: string)
    ensures EntryOf(before, line, true).Some? <==> EntryOf(before, line, false).Some?
    ensures EntryOf(before, line, true).Some? ==>
      var inv := EntryOf(before, line, true).value;
      var can := EntryOf(before, line, false).value;
      && inv.key == Lower(can.entry.target)
      && inv.entry == Translation(can.entry.comment, can.entry.target, can.entry.source)
  {
  }

  /** The cursor and the comment buffer do not depend on the mode. */
  lemma ModeIndependentState(lines: seq<string>)
    ensures Parse(lines, true).cursor == Parse(lines, false).cursor
    ensures Parse(lines, true).comment == Parse(lines, false).comment
  {
    ParseCursor(lines, true);
    ParseCursor(lines, false);
    ParseComment(lines, true);
    ParseComment(lines, false);
  }

  /** A blank line anywhere leaves the whole parse as it was. */
  lemma {:induction false} BlankLineIgnored(a: seq<string>, b: seq<string>, inversed: bool)
    ensures Parse(a + [""] + b, inversed) == Parse(a + b, inversed)
    decreases |b|
  {
    if b == [] {
      assert a + [""] + b == a + [""];
      assert (a + [""])[..|a|] == a;
      assert a + b == a;
    } else {
      var m := |b| - 1;
      BlankLineIgnored(a, b[..m], inversed);
      var with := a + [""] + b;
      var without := a + b;
      assert with[..|with| - 1] == a + [""] + b[..m];
      assert without[..|without| - 1] == a + b[..m];
    }
  }

  /** `Parse` reads the last line after all the others. */
  lemma ParseSnoc(lines: seq<string>, line: string, inversed: bool)
    ensures Parse(lines + [line], inversed) == Step(Parse(lines, inversed), line, inversed)
  {
    assert (lines + [line])[..|lines|] == lines;
  }

  /** A line read inside a comment, or opening one, that does not close it goes to the buffer. */
  lemma StepInComment(st: ParseState, line: string, inversed: bool)
    requires st.cursor == Comment || OpensComment(line)
    requires !EndsWith(line, "*/")
    ensures Step(st, line, inversed) == st.(comment := st.comment + line, cursor := Comment)
  {
    if |line| == 0 {
      assert st.comment + line == st.comment;
    }
  }

  // A line that opens a comment (starting with `//` or `/*`) and does not
  // end with `*/` puts the parser in the Comment state, and it stays there
  // over lines that do not end with `*/`: all of them go to the comment
  // buffer and none stores an entry.
  lemma {:induction false} CommentBlock(a: seq<string>, opener: string, b: seq<string>, inversed: bool)
    requires OpensComment(opener) && !EndsWith(opener, "*/")
    requires forall i :: 0 <= i < |b| ==> !EndsWith(b[i], "*/")
    ensures Parse(a + [opener] + b, inversed) ==
      ParseState(Parse(a, inversed).translations, Parse(a, inversed).comment + opener + Concat(b), Comment)
    decreases |b|
  {
    if b == [] {
      assert a + [opener] + b == a + [opener];
      ParseSnoc(a, opener, inversed);
      StepInComment(Parse(a, inversed), opener, inversed);
    } else {
      var m := |b| - 1;
      var init := a + [opener] + b[..m];
      var before := Parse(a, inversed);
      CommentBlock(a, opener, b[..m], inversed);
      var st := Parse(init, inversed);
      assert st == ParseState(before.translations, before.comment + opener + Concat(b[..m]), Comment);
      assert !EndsWith(b[m], "*/");
      StepInComment(st, b[m], inversed);
      assert a + [opener] + b == init + [b[m]];
      ParseSnoc(init, b[m], inversed);
      assert Concat(b) == Concat(b[..m]) + b[m];
    }
  }

  /** The first line that ends with the closing mark returns the parser to the Whitespace state. */
  lemma CommentBlockCloses(a: seq<string>, opener: string, b: seq<string>, closer: string, inversed: bool)
    requires OpensComment(opener) && !EndsWith(opener, "*/")
    requires forall i :: 0 <= i < |b| ==> !EndsWith(b[i], "*/")
    requires EndsWith(closer, "*/")
    ensures Parse(a + [opener] + b + [closer], inversed) ==
      ParseState(Parse(a, inversed).translations, Parse(a, inversed).comment + opener + Concat(b) + closer, Whitespace)
  {
    CommentBlock(a, opener, b, inversed);
    var lines := a + [opener] + b + [closer];
    assert lines[..|lines| - 1] == a + [opener] + b;
  }

  /** A line whose split does not leave exactly two segments stores nothing. */
  lemma MalformedLineSkipped(lines: seq<string>, line: string, inversed: bool)
    requires |Segments(line)| != 2
    ensures Parse(lines + [line], inversed).translations == Parse(lines, inversed).translations
  {
    assert (lines + [line])[..|lines|] == lines;
  }

  lemma KeepCons(piece: string, rest: seq<string>)
    ensures KeepSegments([piece] + rest) == (if Kept(piece) then [piece] else []) + KeepSegments(rest)
  {
    assert ([piece] + rest)[1..] == rest;
  }

  /** The canonical entry syntax `"source" = "target";`. */
  function QuotedLine(source: string, target: string): string {
    "\"" + source + "\" = \"" + target + "\";"
  }

  lemma QuotedLineSplit(source: string, target: string)
    requires '"' !in source && '"' !in target
    ensures Split(QuotedLine(source, target), '"') == ["", source, " = ", target, ";"]
  {
    var q := '"';
    var tail := target + [q] + ";";
    var middle := " = " + [q] + tail;
    var rest := source + [q] + middle;
    assert QuotedLine(source, target) == "" + [q] + rest;
    SplitAround("", rest, q);
    SplitAround(source, middle, q);
    SplitAround(" = ", tail, q);
    SplitAround(target, ";", q);
    SplitWithoutSeparator(source, q);
    SplitWithoutSeparator(" = ", q);
    SplitWithoutSeparator(target, q);
    SplitWithoutSeparator(";", q);
  }

  /** The filter drops the empty, ` = ` and `;` pieces of a quoted line. */
  lemma KeepQuotedPieces(source: string, target: string)
    requires Kept(source) && Kept(target)
    ensures KeepSegments(["", source, " = ", target, ";"]) == [source, target]
  {
    assert !Kept(" = ") by { assert " = "[1] == '='; }
    KeepCons("", [source, " = ", target, ";"]);
    KeepCons(source, [" = ", target, ";"]);
    KeepCons(" = ", [target, ";"]);
    KeepCons(target, [";"]);
    KeepCons(";", []);
  }

  lemma QuotedLineSegments(source: string, target: string)
    requires Kept(source) && '"' !in source
    requires Kept(target) && '"' !in target
    ensures Segments(QuotedLine(source, target)) == [source, target]
  {
    QuotedLineSplit(source, target);
    KeepQuotedPieces(source, target);
  }

  /**
   * Outside a comment, a line `"a" = "b";` stores `a` under its lowercase
   * (or `b` under its lowercase, inversed) with the buffered comment.
   */
  lemma QuotedLineStored(lines: seq<string>, a: string, b: string, inversed: bool)
    requires Kept(a) && '"' !in a && Kept(b) && '"' !in b
    requires Parse(lines, inversed).cursor != Comment
    ensures var st := Parse(lines, inversed);
      var source := if inversed then b else a;
      var target := if inversed then a else b;
      Parse(lines + [QuotedLine(a, b)], inversed) ==
        st.(translations := st.translations[Lower(source) := Translation(st.comment, source, target)])
  {
    QuotedLineSegments(a, b);
    var line := QuotedLine(a, b);
    assert line[0] == '"';
    assert !OpensComment(line);
    assert (lines + [line])[..|lines|] == lines;
  }

  /** A line with a quoted key and an unquoted value, such as `"key" = noquotes;`. */
  function UnquotedValueLine(key: string, value: string): string {
    "\"" + key + "\" = " + value + ";"
  }

  /** Such a line keeps a single segment: the value piece holds `=`. */
  lemma UnquotedValueSegments(key: string, value: string)
    requires Kept(key) && '"' !in key && '"' !in value
    ensures Segments(UnquotedValueLine(key, value)) == [key]
  {
    var q := '"';
    var tail := " = " + value + ";";
    var line := UnquotedValueLine(key, value);
    assert line == "" + [q] + (key + [q] + tail);
    SplitAround("", key + [q] + tail, q);
    SplitAround(key, tail, q);
    SplitWithoutSeparator(key, q);
    assert q !in tail by {
      forall i | 0 <= i < |tail| ensures tail[i] != q {
        if 3 <= i < 3 + |value| { assert tail[i] == value[i - 3]; }
      }
    }
    SplitWithoutSeparator(tail, q);
    assert Split(line, q) == ["", key, tail];
    assert !Kept(tail) by { assert tail[1] == '='; }
    KeepCons("", [key, tail]);
    KeepCons(key, [tail]);
    KeepCons(tail, []);
  }

  /** So a line like `"key" = noquotes;` is skipped without error and stores nothing. */
  lemma UnquotedValueSkipped(lines: seq<string>, key: string, value: string, inversed: bool)
    requires Kept(key) && '"' !in key && '"' !in value
    ensures Parse(lines + [UnquotedValueLine(key, value)], inversed).translations == Parse(lines, inversed).translations
  {
    UnquotedValueSegments(key, value);
    MalformedLineSkipped(lines, UnquotedValueLine(key, value), inversed);
  }
}
