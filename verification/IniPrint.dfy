/**
 The printed form of an INI structure, and how it relates to parsing: which
 structures survive a round trip, and which texts do.
 */
module IniPrint {
  import opened Wrappers
  import opened Text
  import opened IniStore
  import opened IniLines

  // ----- what the writer emits

  function PrintEntry(e: Entry): string {
    e.key + " = " + CString(e.value) + "\n"
  }

  function PrintEntries(entries: seq<Entry>): string {
    if entries == [] then "" else PrintEntry(entries[0]) + PrintEntries(entries[1..])
  }

  function PrintSection(s: Section): string {
    "[" + s.name + "]\n" + PrintEntries(s.entries)
  }

  function Print(doc: Doc): string {
    if doc == [] then "" else PrintSection(doc[0]) + Print(doc[1..])
  }

  // ----- the printed form in pieces

  lemma PrintEntriesSnoc(entries: seq<Entry>, e: Entry)
    ensures PrintEntries(entries + [e]) == PrintEntries(entries) + PrintEntry(e)
  {
    hide PrintEntry;
    if entries == [] {
      assert [] + [e] == [e];
      assert PrintEntries([e]) == PrintEntry(e) + PrintEntries([]);
    } else {
      assert (entries + [e])[1..] == entries[1..] + [e];
      PrintEntriesSnoc(entries[1..], e);
    }
  }

  lemma PrintEntriesUpTo(entries: seq<Entry>, i: nat)
    requires i < |entries|
    ensures PrintEntries(entries[..i + 1]) == PrintEntries(entries[..i]) + PrintEntry(entries[i])
  {
    assert entries[..i + 1] == entries[..i] + [entries[i]];
    PrintEntriesSnoc(entries[..i], entries[i]);
  }

  lemma {:induction false} PrintEntriesSplit(entries: seq<Entry>, i: nat)
    requires i <= |entries|
    ensures PrintEntries(entries) == PrintEntries(entries[..i]) + PrintEntries(entries[i..])
    decreases |entries| - i
  {
    hide PrintEntry;
    if i == |entries| {
      assert entries[..i] == entries;
    } else {
      PrintEntriesSplit(entries, i + 1);
      PrintEntriesUpTo(entries, i);
      assert entries[i..][1..] == entries[i + 1..];
    }
  }

  lemma PrintSnoc(doc: Doc, s: Section)
    ensures Print(doc + [s]) == Print(doc) + PrintSection(s)
  {
    hide PrintSection;
    if doc == [] {
      assert [] + [s] == [s];
      assert Print([s]) == PrintSection(s) + Print([]);
    } else {
      assert (doc + [s])[1..] == doc[1..] + [s];
      PrintSnoc(doc[1..], s);
    }
  }

  /** The text of a structure that grows at its end: a header line for a section, a line with its value for a key. */
  lemma PrintedForm(doc: Doc, name: string, entries: seq<Entry>, key: string, value: string)
    ensures Print([]) == ""
    ensures Print(doc + [Section(name, [])]) == Print(doc) + ("[" + name + "]\n")
    ensures Print(doc + [Section(name, entries + [Entry(key, value)])])
            == Print(doc + [Section(name, entries)]) + (key + " = " + CString(value) + "\n")
  {
    EntryText(key, value);
    EmptySectionText(name);
    hide Print, PrintEntries, PrintEntry, PrintSection;
    assert Print([]) == "" by { NoText(); }
    PrintSnoc(doc, Section(name, []));
    PrintSnoc(doc, Section(name, entries));
    PrintSnoc(doc, Section(name, entries + [Entry(key, value)]));
    SectionTextGrows(name, entries, Entry(key, value));
    Associative(Print(doc), PrintSection(Section(name, entries)), PrintEntry(Entry(key, value)));
  }

  lemma NoText()
    ensures Print([]) == ""
  {
  }

  lemma EntryText(key: string, value: string)
    ensures PrintEntry(Entry(key, value)) == key + " = " + CString(value) + "\n"
  {
  }

  lemma EmptySectionText(name: string)
    ensures PrintSection(Section(name, [])) == "[" + name + "]\n"
  {
  }

  lemma SectionTextGrows(name: string, entries: seq<Entry>, e: Entry)
    ensures PrintSection(Section(name, entries + [e])) == PrintSection(Section(name, entries)) + PrintEntry(e)
  {
    PrintEntriesSnoc(entries, e);
    hide PrintEntry, PrintEntries;
    Associative("[" + name + "]\n", PrintEntries(entries), PrintEntry(e));
  }

  lemma Associative(a: string, b: string, c: string)
    ensures a + (b + c) == a + b + c
  {
  }

  lemma {:induction false} PrintSplit(doc: Doc, i: nat)
    requires i <= |doc|
    ensures Print(doc) == Print(doc[..i]) + Print(doc[i..])
    ensures i < |doc| ==> Print(doc[..i + 1]) == Print(doc[..i]) + PrintSection(doc[i])
    decreases |doc| - i
  {
    hide PrintSection;
    if i == |doc| {
      assert doc[..i] == doc;
    } else {
      PrintSplit(doc, i + 1);
      assert doc[..i + 1] == doc[..i] + [doc[i]];
      PrintSnoc(doc[..i], doc[i]);
      assert doc[i..][1..] == doc[i + 1..];
    }
  }

  // ----- what can be printed without loss

  predicate PrintableName(name: string) {
    name != "" && ']' !in name && NEWLINE !in name
  }

  predicate PrintableKey(key: string) {
    key != "" && Trimmed(key) && key[0] != '[' && '=' !in key && NEWLINE !in key
  }

  predicate PrintableValue(value: string) {
    Trimmed(value) && NEWLINE !in value && '\0' !in value
  }

  /** Names and keys that read back as themselves. */
  ghost predicate Shaped(doc: Doc) {
    && WellFormed(doc)
    && forall i :: 0 <= i < |doc| ==> PrintableName(doc[i].name) && ShapedEntries(doc[i].entries)
  }

  ghost predicate ShapedEntries(entries: seq<Entry>) {
    forall i :: 0 <= i < |entries| ==> PrintableKey(entries[i].key)
  }

  ghost predicate AllValues(doc: Doc, p: string -> bool) {
    forall i :: 0 <= i < |doc| ==> EntryValues(doc[i].entries, p)
  }

  ghost predicate EntryValues(entries: seq<Entry>, p: string -> bool) {
    forall i :: 0 <= i < |entries| ==> p(entries[i].value)
  }

  ghost predicate Printable(doc: Doc) {
    Shaped(doc) && AllValues(doc, v => PrintableValue(v))
  }

  predicate SingleLine(value: string) {
    NEWLINE !in CString(value)
  }

  /** What is left of a value that was printed and read back. */
  function Reread(value: string): string {
    TrimRight(SkipBlanks(CString(value)))
  }

  function RereadEntries(entries: seq<Entry>): (r: seq<Entry>)
    ensures |r| == |entries|
    ensures forall i :: 0 <= i < |r| ==> r[i] == Entry(entries[i].key, Reread(entries[i].value))
  {
    seq(|entries|, i requires 0 <= i < |entries| => Entry(entries[i].key, Reread(entries[i].value)))
  }

  function RereadDoc(doc: Doc): (r: Doc)
    ensures |r| == |doc|
    ensures forall i :: 0 <= i < |r| ==> r[i] == Section(doc[i].name, RereadEntries(doc[i].entries))
  {
    seq(|doc|, i requires 0 <= i < |doc| => Section(doc[i].name, RereadEntries(doc[i].entries)))
  }

  // ----- one printed line

  lemma LineFrom(st: LineState, text: string, rest: string, line: nat)
    requires NEWLINE !in text
    ensures ParseFrom(st, text + "\n" + rest, line) == ParseFrom(ParseLine(st, text, line, false), rest, line + 1)
  {
    hide ParseLine, ParseFrom;
    var all := text + "\n" + rest;
    IndexOfIs(all, NEWLINE, |text|);
    UnfoldFrom(st, all, line);
    assert all[..|text|] == text;
    assert all[|text| + 1..] == rest;
  }

  lemma HeaderLine(st: LineState, name: string, line: nat)
    requires PrintableName(name)
    ensures ParseLine(st, "[" + name + "]", line, false) ==
            st.(doc := NewSection(st.doc, name), current := Some(name))
  {
    var text := "[" + name + "]";
    BracketLine(st, text, line, false);
    var header := text[1..];
    assert header == name + "]";
    IndexOfIs(header, ']', |name|);
    assert header[..|name|] == name;
    assert header[|name| + 1..] == "";
  }

  lemma TrimKey(key: string)
    requires PrintableKey(key)
    ensures TrimRight(key + " ") == key
  {
    TrimmedLengthIs(key + " ", |key|);
  }

  lemma NulFree(s: string)
    requires '\0' !in s
    ensures CString(s) == s
  {
    IndexOfIs(s, '\0', |s|);
  }

  lemma RereadHasNoNul(value: string)
    ensures '\0' !in Reread(value)
  {
    assert forall k :: 0 <= k < |Reread(value)| ==> Reread(value)[k] == CString(value)[BlankPrefix(CString(value)) + k];
  }

  lemma RereadIs(value: string)
    ensures CString(TrimRight(SkipBlanks(" " + CString(value)))) == Reread(value)
  {
    var v := CString(value);
    assert SkipBlanks(" " + v) == SkipBlanks(v) by {
      BlankPrefixIs(" " + v, BlankPrefix(v) + 1);
    }
    RereadHasNoNul(value);
    NulFree(Reread(value));
  }

  lemma AssignmentLine(st: LineState, key: string, raw: string, line: nat)
    requires PrintableKey(key) && st.current.Some?
    ensures ParseLine(st, key + " = " + raw, line, false) == st.Store(key, CString(TrimRight(SkipBlanks(" " + raw))))
  {
    hide LineState.Store, CString;
    var text := key + " = " + raw;
    BlankPrefixIs(text, 0);
    assert SkipBlanks(text) == text;
    IndexOfIs(text, '=', |key| + 1);
    assert text[..|key| + 1] == key + " ";
    assert text[|key| + 2..] == " " + raw;
    TrimKey(key);
  }

  lemma EntryLine(st: LineState, e: Entry, line: nat)
    requires PrintableKey(e.key) && st.current.Some?
    ensures ParseLine(st, e.key + " = " + CString(e.value), line, false) ==
            st.(doc := PutIn(st.doc, st.current.value, e.key, Reread(e.value)))
  {
    hide PutIn, ParseLine;
    AssignmentLine(st, e.key, CString(e.value), line);
    RereadIs(e.value);
  }

  // ----- the printed form of a section and of a structure

  /** Appending a new key to the last section. */
  lemma PutInLast(done: Doc, name: string, entries: seq<Entry>, key: string, value: string)
    requires FindSection(done, name) == |done|
    requires FindKey(entries, key) == |entries|
    ensures PutIn(done + [Section(name, entries)], name, key, value) ==
            done + [Section(name, entries + [Entry(key, value)])]
  {
    FindSectionIs(done + [Section(name, entries)], name, |done|);
  }

  lemma {:induction false} EntriesFrom(done: Doc, name: string, before: seq<Entry>, entries: seq<Entry>,
                                       rest: string, line: nat)
    requires FindSection(done, name) == |done|
    requires UniqueKeys(before + entries) && ShapedEntries(entries) && EntryValues(entries, v => SingleLine(v))
    ensures ParseFrom(LineState(done + [Section(name, before)], Some(name), []), PrintEntries(entries) + rest, line) ==
            ParseFrom(LineState(done + [Section(name, before + RereadEntries(entries))], Some(name), []),
                      rest, line + |entries|)
    decreases |entries|
  {
    hide ParseFrom, ParseLine, RereadEntries, PutIn, Reread, CString, FindSection, UniqueKeys;
    if entries == [] {
      assert PrintEntries(entries) + rest == rest;
      assert before + RereadEntries(entries) == before;
    } else {
      var e, tail := entries[0], entries[1..];
      var st := LineState(done + [Section(name, before)], Some(name), []);
      var text := e.key + " = " + CString(e.value);
      var next := before + [Entry(e.key, Reread(e.value))];
      assert PrintEntries(entries) + rest == text + "\n" + (PrintEntries(tail) + rest);
      NoNewline(e);
      LineFrom(st, text, PrintEntries(tail) + rest, line);
      EntryLine(st, e, line);
      NewKey(before, entries);
      PutInLast(done, name, before, e.key, Reread(e.value));
      StepKeys(before, entries, Reread(e.value));
      EntriesFrom(done, name, next, tail, rest, line + 1);
      assert next + RereadEntries(tail) == before + RereadEntries(entries);
    }
  }

  lemma NoNewline(e: Entry)
    requires PrintableKey(e.key) && SingleLine(e.value)
    ensures NEWLINE !in e.key + " = " + CString(e.value)
  {
  }

  lemma NewKey(before: seq<Entry>, entries: seq<Entry>)
    requires entries != [] && UniqueKeys(before + entries)
    ensures FindKey(before, entries[0].key) == |before|
  {
    forall k | 0 <= k < |before| ensures before[k].key != entries[0].key {
      assert (before + entries)[k] == before[k];
      assert (before + entries)[|before|] == entries[0];
    }
    FindKeyIs(before, entries[0].key, |before|);
  }

  lemma StepKeys(before: seq<Entry>, entries: seq<Entry>, value: string)
    requires entries != [] && UniqueKeys(before + entries)
    ensures UniqueKeys(before + [Entry(entries[0].key, value)] + entries[1..])
  {
    var a, b := before + entries, before + [Entry(entries[0].key, value)] + entries[1..];
    forall i | 0 <= i < |b| ensures a[i].key == b[i].key {
    }
  }

  /** The section at the front of a structure is new to what precedes it. */
  lemma NewName(done: Doc, doc: Doc)
    requires doc != [] && UniqueNames(done + doc)
    ensures FindSection(done, doc[0].name) == |done|
  {
    forall k | 0 <= k < |done| ensures done[k].name != doc[0].name {
      assert (done + doc)[k] == done[k];
      assert (done + doc)[|done|] == doc[0];
    }
    FindSectionIs(done, doc[0].name, |done|);
  }

  lemma StepNames(done: Doc, doc: Doc, entries: seq<Entry>)
    requires doc != [] && UniqueNames(done + doc)
    ensures UniqueNames(done + [Section(doc[0].name, entries)] + doc[1..])
  {
    var a, b := done + doc, done + [Section(doc[0].name, entries)] + doc[1..];
    forall i | 0 <= i < |b| ensures a[i].name == b[i].name {
    }
  }

  lemma NewSectionLast(done: Doc, name: string)
    requires FindSection(done, name) == |done|
    ensures NewSection(done, name) == done + [Section(name, [])]
  {
  }

  lemma SectionFrom(done: Doc, current: Option<string>, s: Section, rest: string, line: nat)
    requires FindSection(done, s.name) == |done|
    requires PrintableName(s.name) && UniqueKeys(s.entries)
    requires ShapedEntries(s.entries) && EntryValues(s.entries, v => SingleLine(v))
    ensures ParseFrom(LineState(done, current, []), PrintSection(s) + rest, line) ==
            ParseFrom(LineState(done + [Section(s.name, RereadEntries(s.entries))], Some(s.name), []),
                      rest, line + 1 + |s.entries|)
  {
    hide ParseFrom, ParseLine, RereadEntries, PrintEntries, ShapedEntries, EntryValues, NewSection, FindSection;
    NewSectionLast(done, s.name);
    var st := LineState(done, current, []);
    var text := "[" + s.name + "]";
    assert PrintSection(s) + rest == text + "\n" + (PrintEntries(s.entries) + rest);
    LineFrom(st, text, PrintEntries(s.entries) + rest, line);
    HeaderLine(st, s.name, line);
    assert [] + s.entries == s.entries;
    assert [] + RereadEntries(s.entries) == RereadEntries(s.entries);
    EntriesFrom(done, s.name, [], s.entries, rest, line + 1);
  }

  /** The number of lines of the printed form. */
  function PrintedLines(doc: Doc): nat {
    if doc == [] then 0 else 1 + |doc[0].entries| + PrintedLines(doc[1..])
  }

  lemma {:induction false} PrintFrom(done: Doc, current: Option<string>, doc: Doc, rest: string, line: nat)
    requires Shaped(doc) && UniqueNames(done + doc) && AllValues(doc, v => SingleLine(v))
    ensures ParseFrom(LineState(done, current, []), Print(doc) + rest, line) ==
            ParseFrom(LineState(done + RereadDoc(doc), if doc == [] then current else Some(doc[|doc| - 1].name), []),
                      rest, line + PrintedLines(doc))
    decreases |doc|
  {
    hide ParseFrom, RereadEntries, RereadDoc, PrintSection;
    if doc == [] {
      assert done + RereadDoc(doc) == done;
      assert Print(doc) + rest == rest;
    } else {
      var s, tail := doc[0], doc[1..];
      var r := Section(s.name, RereadEntries(s.entries));
      NewName(done, doc);
      assert Print(doc) + rest == PrintSection(s) + (Print(tail) + rest);
      SectionFrom(done, current, s, Print(tail) + rest, line);
      StepNames(done, doc, r.entries);
      PrintFrom(done + [r], Some(s.name), tail, rest, line + 1 + |s.entries|);
      assert done + [r] + RereadDoc(tail) == done + RereadDoc(doc);
    }
  }

  /**
   Printing and reading back keeps all sections, all keys and their order, gives
   no diagnostics, and strips each value of its leading and trailing blanks.
   */
  lemma PrintThenParse(doc: Doc)
    requires Shaped(doc) && AllValues(doc, v => SingleLine(v))
    ensures Parse(Print(doc)).doc == RereadDoc(doc)
    ensures Parse(Print(doc)).diagnostics == []
  {
    hide ParseFrom, RereadDoc, Print;
    assert [] + doc == doc;
    assert [] + RereadDoc(doc) == RereadDoc(doc);
    PrintFrom([], None, doc, "", 1);
    assert Print(doc) + "" == Print(doc);
    EmptyFrom(LineState(RereadDoc(doc), if doc == [] then None else Some(doc[|doc| - 1].name), []), 1 + PrintedLines(doc));
  }

  // ----- what a parser can produce

  /** A value as the parser stores it: cut at a NUL, on one line, starting with a non-blank. */
  predicate ParsedValue(value: string) {
    NEWLINE !in value && '\0' !in value && (value != "" ==> !IsBlank(value[0]))
  }

  predicate EndsInBlank(value: string) {
    value != "" && IsBlank(value[|value| - 1])
  }

  /** What holds of the state between two lines; `p` is what is known of stored values. */
  ghost predicate Between(st: LineState, p: string -> bool) {
    && Shaped(st.doc)
    && AllValues(st.doc, p)
    && (st.current.Some? ==> FindSection(st.doc, st.current.value) < |st.doc|)
  }

  lemma NewSectionShaped(doc: Doc, name: string, p: string -> bool)
    requires Shaped(doc) && AllValues(doc, p) && PrintableName(name)
    ensures Shaped(NewSection(doc, name)) && AllValues(NewSection(doc, name), p)
    ensures FindSection(NewSection(doc, name), name) < |NewSection(doc, name)|
  {
    NewSectionKeeps(doc, name);
  }

  lemma PutShaped(entries: seq<Entry>, key: string, value: string, p: string -> bool)
    requires UniqueKeys(entries) && ShapedEntries(entries) && EntryValues(entries, p)
    requires PrintableKey(key) && p(value)
    ensures UniqueKeys(Put(entries, key, value))
    ensures ShapedEntries(Put(entries, key, value)) && EntryValues(Put(entries, key, value), p)
  {
    hide PrintableKey;
    PutKeepsUnique(entries, key, value);
  }

  lemma PutInShaped(doc: Doc, name: string, key: string, value: string, p: string -> bool)
    requires Shaped(doc) && AllValues(doc, p) && PrintableKey(key) && p(value)
    ensures Shaped(PutIn(doc, name, key, value)) && AllValues(PutIn(doc, name, key, value), p)
    ensures |PutIn(doc, name, key, value)| == |doc|
    ensures forall n :: FindSection(PutIn(doc, name, key, value), n) == FindSection(doc, n)
  {
    hide PrintableKey, PrintableName, Put, UniqueKeys, ShapedEntries, EntryValues;
    var i := FindSection(doc, name);
    if i < |doc| {
      PutShaped(doc[i].entries, key, value, p);
    }
    forall n ensures FindSection(PutIn(doc, name, key, value), n) == FindSection(doc, n) {
      FindSectionIs(PutIn(doc, name, key, value), n, FindSection(doc, n));
    }
  }

  lemma HeaderBetween(st: LineState, header: string, line: nat, atEof: bool, p: string -> bool)
    requires Between(st, p) && NEWLINE !in header
    ensures Between(ParseHeader(st, header, line, atEof), p)
  {
    hide Shaped, AllValues, NewSection, FindSection;
    var i := IndexOf(header, ']');
    if 0 < i < |header| {
      NewSectionShaped(st.doc, header[..i], p);
    }
  }

  lemma KeyIsPrintable(text: string)
    requires text != "" && text[0] != '[' && !IsBlank(text[0]) && NEWLINE !in text
    requires IndexOf(text, '=') > 0
    ensures PrintableKey(TrimRight(text[..IndexOf(text, '=')]))
  {
    var k := text[..IndexOf(text, '=')];
    assert TrimmedLength(k) > 0;
    assert forall j :: 0 <= j < TrimmedLength(k) ==> TrimRight(k)[j] == text[j];
  }

  lemma ValueIsParsed(text: string)
    requires NEWLINE !in text
    ensures ParsedValue(CString(TrimRight(SkipBlanks(text))))
    ensures '\0' !in text ==> PrintableValue(CString(TrimRight(SkipBlanks(text))))
  {
    var t := TrimRight(SkipBlanks(text));
    assert forall k :: 0 <= k < |t| ==> t[k] == text[BlankPrefix(text) + k];
    if '\0' !in text {
      NulFree(t);
    }
  }

  /** `p` holds of whatever an assignment in `text` can store. */
  ghost predicate Covers(p: string -> bool, nulFree: bool) {
    forall v :: ParsedValue(v) && (nulFree ==> PrintableValue(v)) ==> p(v)
  }

  lemma AssignmentBetween(st: LineState, text: string, line: nat, p: string -> bool, nulFree: bool)
    requires Between(st, p) && st.current.Some? && Covers(p, nulFree)
    requires text != "" && text[0] != '[' && !IsBlank(text[0])
    requires NEWLINE !in text && (nulFree ==> '\0' !in text)
    ensures Between(ParseAssignment(st, text, line), p)
  {
    hide Shaped, AllValues, PrintableKey, PutIn, FindSection, ParsedValue, PrintableValue;
    var i := IndexOf(text, '=');
    if 0 < i < |text| {
      var value := text[i + 1..];
      assert NEWLINE !in value && (nulFree ==> '\0' !in value) by {
        assert forall k :: 0 <= k < |value| ==> value[k] == text[i + 1 + k];
      }
      KeyIsPrintable(text);
      ValueIsParsed(value);
      var v := CString(TrimRight(SkipBlanks(value)));
      assert p(v);
      PutInShaped(st.doc, st.current.value, TrimRight(text[..i]), v, p);
    }
  }

  lemma LineBetween(st: LineState, text: string, line: nat, atEof: bool, p: string -> bool, nulFree: bool)
    requires Between(st, p) && Covers(p, nulFree)
    requires NEWLINE !in text && (nulFree ==> '\0' !in text)
    ensures Between(ParseLine(st, text, line, atEof), p)
  {
    hide Between, Covers, ParseHeader, ParseAssignment;
    var t := SkipBlanks(text);
    if t != "" {
      assert forall k :: 0 <= k < |t| ==> t[k] == text[BlankPrefix(text) + k];
      if t[0] == '[' {
        HeaderBetween(st, t[1..], line, atEof, p);
      } else if st.current.Some? {
        AssignmentBetween(st, t, line, p, nulFree);
      } else {
        ComplainBetween(st, JunkOutsideSection, line, p);
      }
    }
  }

  lemma ComplainBetween(st: LineState, complaint: Complaint, line: nat, p: string -> bool)
    requires Between(st, p)
    ensures Between(st.Complain(complaint, line), p)
  {
  }

  lemma {:induction false} TextBetween(st: LineState, text: string, line: nat, p: string -> bool, nulFree: bool)
    requires Between(st, p) && Covers(p, nulFree) && (nulFree ==> '\0' !in text)
    ensures Between(ParseFrom(st, text, line), p)
    decreases |text|
  {
    hide Between, Covers, ParseLine, ParseFrom;
    var i := IndexOf(text, NEWLINE);
    UnfoldFrom(st, text, line);
    if i == |text| {
      LineBetween(st, text, line, true, p, nulFree);
    } else {
      LineBetween(st, text[..i], line, false, p, nulFree);
      TextBetween(ParseLine(st, text[..i], line, false), text[i + 1..], line + 1, p, nulFree);
    }
  }

  /**
   Whatever the parser accepts has printable names and keys, all distinct, and
   one-line values; without NUL characters in the text, everything is printable.
   */
  lemma ParseIsShaped(text: string)
    ensures Shaped(Parse(text).doc) && AllValues(Parse(text).doc, v => ParsedValue(v))
    ensures '\0' !in text ==> Printable(Parse(text).doc)
  {
    hide ParseFrom, ParsedValue, PrintableValue;
    var p := v => ParsedValue(v);
    TextBetween(START, text, 1, p, false);
    if '\0' !in text {
      var q := v => PrintableValue(v);
      TextBetween(START, text, 1, q, true);
    }
  }

  // ----- the round trips

  lemma RereadFixed(value: string)
    requires ParsedValue(value)
    ensures SingleLine(value)
    ensures Reread(value) == value <==> !EndsInBlank(value)
    ensures PrintableValue(value) <==> !EndsInBlank(value)
    ensures PrintableValue(Reread(value))
  {
    NulFree(value);
    BlankPrefixIs(value, 0);
    assert SkipBlanks(value) == value;
    if !EndsInBlank(value) {
      TrimmedLengthIs(value, |value|);
    }
  }

  lemma RereadDocFixed(doc: Doc)
    requires AllValues(doc, v => ParsedValue(v))
    ensures AllValues(doc, v => SingleLine(v))
    ensures RereadDoc(doc) == doc <==> AllValues(doc, v => PrintableValue(v))
    ensures AllValues(RereadDoc(doc), v => PrintableValue(v))
  {
    hide ParsedValue, SingleLine, PrintableValue, Reread;
    forall i, j | 0 <= i < |doc| && 0 <= j < |doc[i].entries|
      ensures SingleLine(doc[i].entries[j].value)
      ensures Reread(doc[i].entries[j].value) == doc[i].entries[j].value <==> PrintableValue(doc[i].entries[j].value)
      ensures PrintableValue(Reread(doc[i].entries[j].value))
    {
      RereadFixed(doc[i].entries[j].value);
    }
    if RereadDoc(doc) == doc {
      forall i, j | 0 <= i < |doc| && 0 <= j < |doc[i].entries| ensures PrintableValue(doc[i].entries[j].value) {
        assert RereadDoc(doc)[i].entries[j] == doc[i].entries[j];
      }
    }
    if AllValues(doc, v => PrintableValue(v)) {
      forall i | 0 <= i < |doc| ensures RereadDoc(doc)[i] == doc[i] {
        assert RereadEntries(doc[i].entries) == doc[i].entries;
      }
    }
  }

  lemma PrintableIsParsed(doc: Doc)
    requires AllValues(doc, v => PrintableValue(v))
    ensures AllValues(doc, v => ParsedValue(v))
  {
  }

  /** Printing then parsing is the identity on exactly the printable structures. */
  lemma RoundTripExactly(doc: Doc)
    ensures Parse(Print(doc)).doc == doc <==> Printable(doc)
  {
    hide Shaped, AllValues, RereadDoc, Parse, Print;
    if Printable(doc) {
      PrintableIsParsed(doc);
    } else if Parse(Print(doc)).doc == doc {
      ParseIsShaped(Print(doc));
    }
    if Shaped(doc) && AllValues(doc, v => ParsedValue(v)) {
      RereadDocFixed(doc);
      PrintThenParse(doc);
    }
  }

  /** A text survives a print and another parse exactly if no value of it was cut behind a blank. */
  lemma ReparseExactly(text: string)
    ensures Parse(Print(Parse(text).doc)).doc == Parse(text).doc <==>
            AllValues(Parse(text).doc, v => !EndsInBlank(v))
    ensures '\0' !in text ==> Parse(Print(Parse(text).doc)).doc == Parse(text).doc
    ensures Parse(Print(Parse(text).doc)).diagnostics == []
  {
    hide Shaped, RereadDoc, Parse, Print;
    var doc := Parse(text).doc;
    ParseIsShaped(text);
    RereadDocFixed(doc);
    PrintThenParse(doc);
    RoundTripExactly(doc);
    forall i, j | 0 <= i < |doc| && 0 <= j < |doc[i].entries|
      ensures PrintableValue(doc[i].entries[j].value) <==> !EndsInBlank(doc[i].entries[j].value)
    {
      RereadFixed(doc[i].entries[j].value);
    }
  }

  /** One rewrite always normalises: the second printed text is read back exactly. */
  lemma SecondPrintIsStable(text: string)
    ensures var once := Parse(Print(Parse(text).doc)).doc;
      Printable(once) && Parse(Print(once)).doc == once
  {
    hide Shaped, AllValues, RereadDoc, Parse, Print;
    var doc := Parse(text).doc;
    ParseIsShaped(text);
    RereadDocFixed(doc);
    PrintThenParse(doc);
    ParseIsShaped(Print(doc));
    RoundTripExactly(RereadDoc(doc));
  }

  /** The failing family is not empty: a NUL behind a blank makes the second parse lose the blank. */
  lemma NulLosesBlank()
    ensures var doc := [Section("s", [Entry("k", "v ")])];
      Parse("[s]\nk = v \0x\n").doc == doc && Parse(Print(doc)).doc != doc
  {
    hide ParseFrom, ParseLine, Parse, Print, Shaped, PutIn;
    var doc := [Section("s", [Entry("k", "v ")])];
    var st := LineState([Section("s", [])], Some("s"), []);
    assert Parse("[s]\nk = v \0x\n").doc == doc by {
      var second := "k = v \0x";
      assert "[s]\nk = v \0x\n" == "[s]" + "\n" + (second + "\n" + "");
      LineFrom(START, "[s]", second + "\n" + "", 1);
      assert "[s]" == "[" + "s" + "]";
      HeaderLine(START, "s", 1);
      assert NewSection([], "s") == [Section("s", [])];
      LineFrom(st, second, "", 2);
      NulLine(st);
      EmptyFrom(st.(doc := doc), 3);
      ParseIsFrom("[s]\nk = v \0x\n");
    }
    RoundTripExactly(doc);
    assert !PrintableValue(doc[0].entries[0].value);
  }

  lemma ParseIsFrom(text: string)
    ensures Parse(text) == ParseFrom(START, text, 1)
  {
  }

  lemma NulLine(st: LineState)
    requires st == LineState([Section("s", [])], Some("s"), [])
    ensures ParseLine(st, "k = v \0x", 2, false) == st.(doc := [Section("s", [Entry("k", "v ")])])
  {
    hide PutIn, ParseLine;
    assert "k = v \0x" == "k" + " = " + "v \0x";
    assert " v \0x" == " " + "v \0x";
    AssignmentLine(st, "k", "v \0x", 2);
    NulValue();
    PutInLast([], "s", [], "k", "v ");
    assert [] + [Section("s", [])] == st.doc;
    assert [] + [Entry("k", "v ")] == [Entry("k", "v ")];
    assert [] + [Section("s", [Entry("k", "v ")])] == [Section("s", [Entry("k", "v ")])];
  }

  lemma NulValue()
    ensures CString(TrimRight(SkipBlanks(" v \0x"))) == "v "
  {
    BlankPrefixIs(" v \0x", 1);
    assert SkipBlanks(" v \0x") == "v \0x";
    TrimmedLengthIs("v \0x", 4);
    assert TrimRight("v \0x") == "v \0x";
    IndexOfIs("v \0x", '\0', 2);
  }
}
