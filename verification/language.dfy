/*******************************************************************************
 *  LanguageSupport: the line-oriented key/value reader for the XML-like
 *  language files, the fallback to "en-CA" when a file is missing, and the
 *  lookup with its "Missing translation" default. The file system is a map
 *  from language code to the file's lines; a code that is not a key has no
 *  file.
 *******************************************************************************/

module Language {
  import opened Wrappers
  import opened JavaText

  const DefaultCode := "en-CA"
  const MissingPrefix := "Missing translation for key: "

  const KeyOpen := "<key>"
  const KeyClose := "</key>"
  const ValueOpen := "<value>"
  const ValueClose := "</value>"

  /* ---------------------------------------------------------------------------
   *  The line reader
   * ------------------------------------------------------------------------- */

  /** The reader's state between lines: the pending key and value (`null` when
      absent) and the table built so far. */
  datatype ParserState = ParserState(key: Option<string>, value: Option<string>, table: map<string, string>)

  /** The state at the start of a successful load: the old table cleared. */
  const Fresh := ParserState(None, None, map[])

  predicate BothPending(st: ParserState) {
    st.key.Some? && st.value.Some?
  }

  predicate IsKeyLine(line: string) {
    StartsWith(line, KeyOpen) && EndsWith(line, KeyClose)
  }

  predicate IsValueLine(line: string) {
    StartsWith(line, ValueOpen) && EndsWith(line, ValueClose)
  }

  /** A tagged line with every occurrence of both tags removed, then trimmed. */
  function Untag(line: string, open: string, close: string): string
    requires 0 < |open| && 0 < |close|
  {
    Trim(RemoveAll(RemoveAll(line, open), close))
  }

  /** A key line sets the pending key, else a value line sets the pending value; any
      other line leaves the state as it is. */
  function Pend(st: ParserState, line: string): (r: ParserState)
    ensures r.table == st.table
    ensures IsKeyLine(line) ==> r.key == Some(Untag(line, KeyOpen, KeyClose)) && r.value == st.value
    ensures !IsKeyLine(line) && IsValueLine(line) ==> r.value == Some(Untag(line, ValueOpen, ValueClose)) && r.key == st.key
    ensures !IsKeyLine(line) && !IsValueLine(line) ==> r == st
  {
    if IsKeyLine(line) then st.(key := Some(Untag(line, KeyOpen, KeyClose)))
    else if IsValueLine(line) then st.(value := Some(Untag(line, ValueOpen, ValueClose)))
    else st
  }

  /** Once both a key and a value are pending, one entry goes into the table and both
      are cleared, whichever of the two arrived first. */
  function Flush(st: ParserState): (r: ParserState)
    ensures !BothPending(r)
    ensures BothPending(st) ==> r == ParserState(None, None, st.table[st.key.value := st.value.value])
    ensures !BothPending(st) ==> r == st
  {
    if BothPending(st) then ParserState(None, None, st.table[st.key.value := st.value.value]) else st
  }

  /** One line of the file: trimmed, recognised, then flushed. */
  function ParseStep(st: ParserState, raw: string): (r: ParserState)
    ensures !BothPending(r)
  {
    Flush(Pend(st, Trim(raw)))
  }

  /** `f` applied to each element of `xs` in turn, starting from `st`. */
  function Fold<S, T>(f: (S, T) -> S, st: S, xs: seq<T>): S
    decreases |xs|
  {
    if |xs| == 0 then st else f(Fold(f, st, xs[..|xs| - 1]), xs[|xs| - 1])
  }

  /** The state after reading `lines` from `st`, one line at a time. */
  function ParseFrom(st: ParserState, lines: seq<string>): (r: ParserState)
    ensures 0 < |lines| ==> !BothPending(r)
  {
    Fold(ParseStep, st, lines)
  }

  /** The translation table a file's lines produce; every key and value has been
      trimmed. */
  function Translations(lines: seq<string>): (r: map<string, string>)
    ensures forall k | k in r :: IsTrimmed(k) && IsTrimmed(r[k])
  {
    ParseFromKeepsTrimmed(Fresh, lines);
    ParseFrom(Fresh, lines).table
  }

  /** Whatever the reader holds, pending or stored, has been trimmed. */
  predicate TrimmedState(st: ParserState) {
    && (st.key.Some? ==> IsTrimmed(st.key.value))
    && (st.value.Some? ==> IsTrimmed(st.value.value))
    && forall k | k in st.table :: IsTrimmed(k) && IsTrimmed(st.table[k])
  }

  lemma ParseStepKeepsTrimmed(st: ParserState, raw: string)
    requires TrimmedState(st)
    ensures TrimmedState(ParseStep(st, raw))
  {
    var pended := Pend(st, Trim(raw));
    assert TrimmedState(pended) by {
      var line := Trim(raw);
      if IsKeyLine(line) {
        var k := Untag(line, KeyOpen, KeyClose);
        assert IsTrimmed(k);
      } else if IsValueLine(line) {
        var v := Untag(line, ValueOpen, ValueClose);
        assert IsTrimmed(v);
      }
    }
    FlushKeepsTrimmed(pended);
  }

  lemma FlushKeepsTrimmed(st: ParserState)
    requires TrimmedState(st)
    ensures TrimmedState(Flush(st))
  {
  }

  lemma {:induction false} ParseFromKeepsTrimmed(st: ParserState, lines: seq<string>)
    requires TrimmedState(st)
    ensures TrimmedState(ParseFrom(st, lines))
    decreases |lines|
  {
    if 0 < |lines| {
      ParseFromKeepsTrimmed(st, lines[..|lines| - 1]);
      ParseStepKeepsTrimmed(ParseFrom(st, lines[..|lines| - 1]), lines[|lines| - 1]);
    }
  }

  /** One line of the reading loop, written the way the loop body does it. */
  lemma LoopStep(st: ParserState, raw: string)
    ensures var line := Trim(raw);
      var key := if IsKeyLine(line) then Some(Untag(line, KeyOpen, KeyClose)) else st.key;
      var value := if !IsKeyLine(line) && IsValueLine(line) then Some(Untag(line, ValueOpen, ValueClose)) else st.value;
      ParseStep(st, raw)
        == if key.Some? && value.Some? then ParserState(None, None, st.table[key.value := value.value])
           else ParserState(key, value, st.table)
  {
  }

  /** The reading loop of `loadLanguageFile`, over the file's lines. */
  method LoadTranslations(lines: seq<string>) returns (translations: map<string, string>)
    ensures translations == Translations(lines)
  {
    translations := map[];
    var key: Option<string> := None;
    var value: Option<string> := None;
    var i := 0;
    while i < |lines|
      invariant 0 <= i <= |lines|
      invariant ParserState(key, value, translations) == ParseFrom(Fresh, lines[..i])
    {
      ghost var before := ParserState(key, value, translations);
      LoopStep(before, lines[i]);
      var line := Trim(lines[i]);
      if IsKeyLine(line) {
        key := Some(Untag(line, KeyOpen, KeyClose));
      } else if IsValueLine(line) {
        value := Some(Untag(line, ValueOpen, ValueClose));
      }
      if key.Some? && value.Some? {
        translations := translations[key.value := value.value];
        key := None;
        value := None;
      }
      assert ParserState(key, value, translations) == ParseStep(before, lines[i]);
      assert lines[..i + 1][..i] == lines[..i];
      i := i + 1;
    }
    assert lines[..|lines|] == lines;
  }

  /** Folding over `a` then `b` is folding over `a + b`. */
  lemma {:induction false} FoldAppend<S, T>(f: (S, T) -> S, st: S, a: seq<T>, b: seq<T>)
    ensures Fold(f, st, a + b) == Fold(f, Fold(f, st, a), b)
    decreases |b|
  {
    if |b| == 0 {
      assert a + b == a;
    } else {
      assert (a + b)[..|a + b| - 1] == a + b[..|b| - 1];
      assert (a + b)[|a + b| - 1] == b[|b| - 1];
      FoldAppend(f, st, a, b[..|b| - 1]);
    }
  }

  lemma FoldTwo<S, T>(f: (S, T) -> S, st: S, x: T, y: T)
    ensures Fold(f, st, [x, y]) == f(f(st, x), y)
  {
    assert [x, y][..1] == [x];
    assert [x][..0] == [];
    assert Fold(f, st, [x]) == f(st, x);
  }

  /** Reading `a` then `b` is reading `a + b`. */
  lemma ParseFromAppend(st: ParserState, a: seq<string>, b: seq<string>)
    ensures ParseFrom(st, a + b) == ParseFrom(ParseFrom(st, a), b)
  {
    FoldAppend(ParseStep, st, a, b);
  }

  lemma ParseTwo(st: ParserState, x: string, y: string)
    ensures ParseFrom(st, [x, y]) == ParseStep(ParseStep(st, x), y)
  {
    FoldTwo(ParseStep, st, x, y);
  }

  /* ---------------------------------------------------------------------------
   *  Writing a table as a file
   * ------------------------------------------------------------------------- */

  /** Text that survives the round trip: no surrounding blanks and no '<'. */
  predicate PlainText(s: string) {
    IsTrimmed(s) && forall i | 0 <= i < |s| :: s[i] != '<'
  }

  function KeyLine(k: string): string {
    KeyOpen + k + KeyClose
  }

  function ValueLine(v: string): string {
    ValueOpen + v + ValueClose
  }

  /** Each entry as a key line followed by a value line. */
  function Render(entries: seq<(string, string)>): (lines: seq<string>)
    ensures |lines| == 2 * |entries|
  {
    if |entries| == 0 then []
    else
      var (k, v) := entries[|entries| - 1];
      Render(entries[..|entries| - 1]) + [KeyLine(k), ValueLine(v)]
  }

  predicate AllPlain(entries: seq<(string, string)>) {
    forall i | 0 <= i < |entries| :: PlainText(entries[i].0) && PlainText(entries[i].1)
  }

  /** `m` with the entries put in order, a later key replacing an earlier one. */
  function Overlay(m: map<string, string>, entries: seq<(string, string)>): (r: map<string, string>)
    ensures r.Keys == m.Keys + set i | 0 <= i < |entries| :: entries[i].0
  {
    if |entries| == 0 then m
    else
      var (k, v) := entries[|entries| - 1];
      Overlay(m, entries[..|entries| - 1])[k := v]
  }

  /** Removing both tags from a tagged plain text gives the text back. */
  lemma {:induction false} StripTags(open: string, close: string, m: string)
    requires 0 < |open| && 0 < |close|
    requires forall i | 0 <= i < |m| :: m[i] != open[0] && m[i] != close[0]
    requires RemoveAll(close, open) == close
    ensures RemoveAll(RemoveAll(open + m + close, open), close) == m
  {
    assert (open + m + close)[..|open|] == open;
    assert (open + m + close)[|open|..] == m + close;
    RemoveAllKeepsPlainPrefix(m, close, open);
    RemoveAllKeepsPlainPrefix(m, close, close);
    assert close[..|close|] == close && close[|close|..] == [];
    assert m + [] == m;
  }

  lemma ClosingTagsSurvive()
    ensures RemoveAll(KeyClose, KeyOpen) == KeyClose
    ensures RemoveAll(ValueClose, ValueOpen) == ValueClose
  {
    assert RemoveAll(KeyClose[5..], KeyOpen) == KeyClose[5..];
    assert RemoveAll(KeyClose[4..], KeyOpen) == KeyClose[4..];
    assert RemoveAll(KeyClose[3..], KeyOpen) == KeyClose[3..];
    assert RemoveAll(KeyClose[2..], KeyOpen) == KeyClose[2..];
    assert RemoveAll(KeyClose[1..], KeyOpen) == KeyClose[1..];
    assert RemoveAll(ValueClose[3..], ValueOpen) == ValueClose[3..];
    assert RemoveAll(ValueClose[2..], ValueOpen) == ValueClose[2..];
    assert RemoveAll(ValueClose[1..], ValueOpen) == ValueClose[1..];
  }

  /** A rendered key line is already trimmed, is recognised as a key line, and gives
      back its key once untagged. */
  lemma KeyLineShape(k: string)
    requires PlainText(k)
    ensures Trim(KeyLine(k)) == KeyLine(k) && IsKeyLine(KeyLine(k))
    ensures Untag(KeyLine(k), KeyOpen, KeyClose) == k
  {
    var line := KeyLine(k);
    assert line[0] == '<' && line[|line| - 1] == '>';
    TrimOfTrimmed(line);
    assert line[..|KeyOpen|] == KeyOpen && line[|line| - |KeyClose|..] == KeyClose;
    ClosingTagsSurvive();
    StripTags(KeyOpen, KeyClose, k);
    TrimOfTrimmed(k);
  }

  /** The same for a rendered value line, which is never taken for a key line. */
  lemma ValueLineShape(v: string)
    requires PlainText(v)
    ensures Trim(ValueLine(v)) == ValueLine(v) && IsValueLine(ValueLine(v)) && !IsKeyLine(ValueLine(v))
    ensures Untag(ValueLine(v), ValueOpen, ValueClose) == v
  {
    var line := ValueLine(v);
    assert line[0] == '<' && line[|line| - 1] == '>';
    TrimOfTrimmed(line);
    assert line[1] == 'v' && KeyOpen[1] == 'k';
    assert line[..|ValueOpen|] == ValueOpen && line[|line| - |ValueClose|..] == ValueClose;
    ClosingTagsSurvive();
    StripTags(ValueOpen, ValueClose, v);
    TrimOfTrimmed(v);
  }

  /** A rendered key line is read back as setting exactly its key. */
  lemma KeyLineReads(st: ParserState, k: string)
    requires PlainText(k)
    ensures ParseStep(st, KeyLine(k)) == Flush(st.(key := Some(k)))
  {
    KeyLineShape(k);
  }

  /** A rendered value line is read back as setting exactly its value. */
  lemma ValueLineReads(st: ParserState, v: string)
    requires PlainText(v)
    ensures ParseStep(st, ValueLine(v)) == Flush(st.(value := Some(v)))
  {
    ValueLineShape(v);
  }

  /** With no value pending, a key line then a value line add exactly that entry. */
  lemma EntryReads(st: ParserState, k: string, v: string)
    requires PlainText(k) && PlainText(v) && st.value.None?
    ensures ParseFrom(st, [KeyLine(k), ValueLine(v)]) == ParserState(None, None, st.table[k := v])
  {
    ParseTwo(st, KeyLine(k), ValueLine(v));
    KeyLineReads(st, k);
    ValueLineReads(ParserState(Some(k), None, st.table), v);
  }

  /** Rendering entries and reading them back from an idle state overlays them on the
      table in order. */
  lemma {:induction false} RenderReadsBack(st: ParserState, entries: seq<(string, string)>)
    requires st.key.None? && st.value.None? && AllPlain(entries)
    ensures ParseFrom(st, Render(entries)) == ParserState(None, None, Overlay(st.table, entries))
    decreases |entries|
  {
    if |entries| > 0 {
      var (k, v) := entries[|entries| - 1];
      var init := entries[..|entries| - 1];
      assert AllPlain(init) by {
        forall i | 0 <= i < |init| ensures PlainText(init[i].0) && PlainText(init[i].1) {
          assert init[i] == entries[i];
        }
      }
      RenderReadsBack(st, init);
      ParseFromAppend(st, Render(init), [KeyLine(k), ValueLine(v)]);
      EntryReads(ParseFrom(st, Render(init)), k, v);
    }
  }

  /** The round trip: a file written from plain entries reads back as those entries,
      the last one for a key winning. */
  lemma TranslationsOfRendered(entries: seq<(string, string)>)
    requires AllPlain(entries)
    ensures Translations(Render(entries)) == Overlay(map[], entries)
  {
    RenderReadsBack(Fresh, entries);
  }

  /** An entry appended to a file replaces whatever the file gave its key, provided no
      value is left pending at the end of the file. */
  lemma LaterEntryWins(lines: seq<string>, k: string, v: string)
    requires PlainText(k) && PlainText(v) && ParseFrom(Fresh, lines).value.None?
    ensures Translations(lines + [KeyLine(k), ValueLine(v)]) == Translations(lines)[k := v]
  {
    ParseFromAppend(Fresh, lines, [KeyLine(k), ValueLine(v)]);
    EntryReads(ParseFrom(Fresh, lines), k, v);
  }

  /** A value may come before its key: the pair is still stored. */
  lemma ValueBeforeKeyPairs(k: string, v: string)
    requires PlainText(k) && PlainText(v)
    ensures Translations([ValueLine(v), KeyLine(k)]) == map[k := v]
  {
    ParseTwo(Fresh, ValueLine(v), KeyLine(k));
    ValueLineReads(Fresh, v);
    KeyLineReads(ParserState(None, Some(v), map[]), k);
  }

  /** A key or a value left unpaired at the end of the file is dropped. */
  lemma UnpairedTailDropped(entries: seq<(string, string)>, s: string)
    requires AllPlain(entries) && PlainText(s)
    ensures Translations(Render(entries) + [KeyLine(s)]) == Overlay(map[], entries)
    ensures Translations(Render(entries) + [ValueLine(s)]) == Overlay(map[], entries)
  {
    RenderReadsBack(Fresh, entries);
    var st := ParseFrom(Fresh, Render(entries));
    assert (Render(entries) + [KeyLine(s)])[..|Render(entries)|] == Render(entries);
    assert (Render(entries) + [ValueLine(s)])[..|Render(entries)|] == Render(entries);
    KeyLineReads(st, s);
    ValueLineReads(st, s);
  }

  /** A line that, once trimmed, is neither a key line nor a value line changes nothing:
      the file reads as if it were not there. */
  lemma IgnoredLine(a: seq<string>, junk: string, b: seq<string>)
    requires !IsKeyLine(Trim(junk)) && !IsValueLine(Trim(junk))
    ensures Translations(a + [junk] + b) == Translations(a + b)
  {
    var st := ParseFrom(Fresh, a);
    assert !BothPending(st);
    assert (a + [junk])[..|a|] == a;
    assert ParseFrom(Fresh, a + [junk]) == st;
    ParseFromAppend(Fresh, a + [junk], b);
    ParseFromAppend(Fresh, a, b);
  }

  /* ---------------------------------------------------------------------------
   *  Loading, switching and looking up
   * ------------------------------------------------------------------------- */

  datatype LanguageSupport = LanguageSupport(languageCode: string, translations: map<string, string>)

  /** `loadLanguageFile(isFallback)`: an existing file replaces the table; a missing one
      switches to "en-CA" and tries once more, unless this already is that second try,
      in which case nothing changes. */
  function LoadLanguageFile(ls: LanguageSupport, isFallback: bool, files: map<string, seq<string>>): (r: LanguageSupport)
    ensures ls.languageCode in files ==> r == ls.(translations := Translations(files[ls.languageCode]))
    ensures ls.languageCode !in files && isFallback ==> r == ls
    ensures ls.languageCode !in files && !isFallback ==> r.languageCode == DefaultCode
    ensures r.languageCode in {ls.languageCode, DefaultCode}
    ensures r.translations == ls.translations || exists c | c in files :: r.translations == Translations(files[c])
    decreases !isFallback
  {
    if ls.languageCode !in files then
      if !isFallback then LoadLanguageFile(ls.(languageCode := DefaultCode), true, files) else ls
    else ls.(translations := Translations(files[ls.languageCode]))
  }

  /** `new LanguageSupport(code)`: the table starts empty and is filled from the
      requested file, else from the default one; with neither it stays empty. */
  function NewLanguageSupport(code: string, files: map<string, seq<string>>): (r: LanguageSupport)
    ensures r.languageCode == if code in files then code else DefaultCode
    ensures code in files ==> r.translations == Translations(files[code])
    ensures code !in files && DefaultCode in files ==> r.translations == Translations(files[DefaultCode])
    ensures code !in files && DefaultCode !in files ==> r.translations == map[]
  {
    LoadLanguageFile(LanguageSupport(code, map[]), false, files)
  }

  /** `setLanguageCode(code)`: switch and reload. */
  function SetLanguageCode(ls: LanguageSupport, code: string, files: map<string, seq<string>>): (r: LanguageSupport)
    ensures r.languageCode == if code in files then code else DefaultCode
  {
    LoadLanguageFile(ls.(languageCode := code), false, files)
  }

  /** Switching to a language whose file, or the default file, exists gives the same
      table whatever was loaded before: the old entries do not linger. */
  lemma SwitchReplacesTable(ls1: LanguageSupport, ls2: LanguageSupport, code: string, files: map<string, seq<string>>)
    requires code in files || DefaultCode in files
    ensures SetLanguageCode(ls1, code, files) == SetLanguageCode(ls2, code, files)
    ensures SetLanguageCode(ls1, code, files).translations
         == Translations(files[if code in files then code else DefaultCode])
  {
  }

  /** When neither the requested nor the default file exists, the code still becomes
      "en-CA" and the previous table stays. */
  lemma SwitchWithoutAnyFile(ls: LanguageSupport, code: string, files: map<string, seq<string>>)
    requires code !in files && DefaultCode !in files
    ensures SetLanguageCode(ls, code, files) == LanguageSupport(DefaultCode, ls.translations)
  {
  }

  /** `getText(key)`: the stored translation, or a placeholder naming the key. */
  function GetText(ls: LanguageSupport, key: string): (r: string)
    ensures key in ls.translations ==> r == ls.translations[key]
    ensures key !in ls.translations ==> StartsWith(r, MissingPrefix) && r[|MissingPrefix|..] == key
  {
    if key in ls.translations then ls.translations[key] else MissingPrefix + key
  }

  /** After switching to a language whose file was written from plain entries, every
      key of those entries reads back as its last value, and any other key as the
      placeholder. */
  lemma GetTextAfterSwitch(ls: LanguageSupport, code: string, entries: seq<(string, string)>,
                           files: map<string, seq<string>>, key: string)
    requires code in files && files[code] == Render(entries) && AllPlain(entries)
    ensures key in Overlay(map[], entries) ==> GetText(SetLanguageCode(ls, code, files), key) == Overlay(map[], entries)[key]
    ensures key !in Overlay(map[], entries) ==> GetText(SetLanguageCode(ls, code, files), key) == MissingPrefix + key
  {
    TranslationsOfRendered(entries);
  }
}
