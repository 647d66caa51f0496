/**
 A value with a line feed in it spills into the lines behind it when it is
 printed.  What the spilled lines do is anybody's guess, but the key itself has
 been read by then, and nothing that a parser reads ever goes away again.
 */
module IniSpill {
  import opened Wrappers
  import opened Text
  import opened IniStore
  import opened IniLines
  import opened IniPrint

  ghost predicate Has(doc: Doc, name: string, key: string) {
    var i := FindSection(doc, name);
    i < |doc| && FindKey(doc[i].entries, key) < |doc[i].entries|
  }

  lemma NewSectionKeepsHas(doc: Doc, other: string, name: string, key: string)
    requires Has(doc, name, key)
    ensures Has(NewSection(doc, other), name, key)
  {
    FindSectionIs(NewSection(doc, other), name, FindSection(doc, name));
  }

  lemma PutInKeepsHas(doc: Doc, other: string, k: string, v: string, name: string, key: string)
    requires Has(doc, name, key)
    ensures Has(PutIn(doc, other, k, v), name, key)
  {
    var i := FindSection(doc, name);
    FindSectionIs(PutIn(doc, other, k, v), name, i);
    LookupAfterPut(doc[i].entries, k, v, key);
  }

  lemma LineKeepsHas(st: LineState, text: string, line: nat, atEof: bool, name: string, key: string)
    requires Has(st.doc, name, key)
    ensures Has(ParseLine(st, text, line, atEof).doc, name, key)
  {
    hide Has, PutIn, NewSection;
    forall other ensures Has(NewSection(st.doc, other), name, key) {
      NewSectionKeepsHas(st.doc, other, name, key);
    }
    forall other, k, v ensures Has(PutIn(st.doc, other, k, v), name, key) {
      PutInKeepsHas(st.doc, other, k, v, name, key);
    }
  }

  /** No text makes the parser forget a key. */
  lemma {:induction false} TextKeepsHas(st: LineState, text: string, line: nat, name: string, key: string)
    requires Has(st.doc, name, key)
    ensures Has(ParseFrom(st, text, line).doc, name, key)
    decreases |text|
  {
    hide Has, ParseLine, ParseFrom;
    var i := IndexOf(text, NEWLINE);
    UnfoldFrom(st, text, line);
    if i == |text| {
      LineKeepsHas(st, text, line, true, name, key);
    } else {
      LineKeepsHas(st, text[..i], line, false, name, key);
      TextKeepsHas(ParseLine(st, text[..i], line, false), text[i + 1..], line + 1, name, key);
    }
  }

  /** The first entry whose value spans lines. */
  ghost predicate FirstSpill(doc: Doc, a: nat, b: nat) {
    && a < |doc| && b < |doc[a].entries|
    && AllValues(doc[..a], v => SingleLine(v))
    && EntryValues(doc[a].entries[..b], v => SingleLine(v))
    && !SingleLine(doc[a].entries[b].value)
  }

  lemma PrefixShaped(doc: Doc, a: nat, b: nat)
    requires Shaped(doc) && a < |doc| && b < |doc[a].entries|
    ensures Shaped(doc[..a]) && UniqueKeys(doc[a].entries[..b]) && ShapedEntries(doc[a].entries[..b])
    ensures PrintableName(doc[a].name) && PrintableKey(doc[a].entries[b].key)
    ensures FindSection(doc[..a], doc[a].name) == |doc[..a]|
    ensures FindSection(RereadDoc(doc[..a]), doc[a].name) == |doc[..a]|
  {
    hide PrintableName, PrintableKey, RereadEntries;
    FindSectionIs(doc[..a], doc[a].name, a);
    FindSectionIs(RereadDoc(doc[..a]), doc[a].name, a);
  }

  /** The text of a structure around one of its entries. */
  lemma AroundEntry(doc: Doc, a: nat, b: nat)
    requires a < |doc| && b < |doc[a].entries|
    ensures Print(doc) ==
            Print(doc[..a]) + (PrintSection(Section(doc[a].name, doc[a].entries[..b])) +
                               (PrintEntry(doc[a].entries[b]) +
                                (PrintEntries(doc[a].entries[b + 1..]) + Print(doc[a + 1..]))))
  {
    hide PrintEntry, PrintEntries, Print;
    var e := doc[a].entries;
    PrintSplit(doc, a);
    PrintSplit(doc, a + 1);
    PrintEntriesSplit(e, b + 1);
    PrintEntriesUpTo(e, b);
    PrintSectionPieces(doc[a], b);
  }

  lemma PrintSectionPieces(s: Section, b: nat)
    requires b < |s.entries|
    ensures PrintSection(s) == PrintSection(Section(s.name, s.entries[..b])) + PrintEntry(s.entries[b])
                               + PrintEntries(s.entries[b + 1..])
  {
    hide PrintEntry, PrintEntries;
    PrintEntriesSplit(s.entries, b + 1);
    PrintEntriesUpTo(s.entries, b);
  }

  /** After the first spilled line, the parser has the key. */
  lemma SpilledEntryFrom(done: Doc, name: string, before: seq<Entry>, e: Entry, rest: string, line: nat)
    requires FindSection(done, name) == |done| && PrintableKey(e.key) && !SingleLine(e.value)
    ensures Has(ParseFrom(LineState(done + [Section(name, before)], Some(name), []), PrintEntry(e) + rest, line).doc,
                name, e.key)
  {
    hide ParseFrom, ParseLine, Has, LineState.Store, TrimRight, SkipBlanks, CString, FindSection, PrintableKey, PrintEntry;
    FindSectionIs(done + [Section(name, before)], name, |done|);
    var st := LineState(done + [Section(name, before)], Some(name), []);
    var raw, behind := FirstSpilledLine(e, rest);
    LineFrom(st, e.key + " = " + raw, behind, line);
    SpilledLine(st, name, e.key, raw, line);
    TextKeepsHas(ParseLine(st, e.key + " = " + raw, line, false), behind, line + 1, name, e.key);
  }

  /** Where the first line of a value that spans lines ends. */
  lemma FirstSpilledLine(e: Entry, rest: string) returns (raw: string, behind: string)
    requires PrintableKey(e.key) && !SingleLine(e.value)
    ensures NEWLINE !in e.key + " = " + raw
    ensures PrintEntry(e) + rest == e.key + " = " + raw + "\n" + behind
  {
    hide CString, PrintableKey;
    KeyOnOneLine(e.key);
    var c := CString(e.value);
    var m := IndexOf(c, NEWLINE);
    raw, behind := c[..m], c[m + 1..] + "\n" + rest;
    assert c == raw + "\n" + c[m + 1..];
    assert NEWLINE !in raw;
  }

  lemma SpilledLine(st: LineState, name: string, key: string, raw: string, line: nat)
    requires st.current == Some(name) && FindSection(st.doc, name) < |st.doc| && PrintableKey(key)
    ensures Has(ParseLine(st, key + " = " + raw, line, false).doc, name, key)
  {
    hide ParseLine, Has, LineState.Store, TrimRight, SkipBlanks, CString, FindSection, PrintableKey;
    AssignmentLine(st, key, raw, line);
    StoreHas(st, name, key, CString(TrimRight(SkipBlanks(" " + raw))));
  }

  lemma KeyOnOneLine(key: string)
    requires PrintableKey(key)
    ensures NEWLINE !in key
  {
  }

  lemma StoreHas(st: LineState, name: string, key: string, value: string)
    requires st.current == Some(name) && FindSection(st.doc, name) < |st.doc|
    ensures Has(st.Store(key, value).doc, name, key)
  {
    var i := FindSection(st.doc, name);
    FindSectionIs(st.Store(key, value).doc, name, i);
    LookupAfterPut(st.doc[i].entries, key, value, key);
  }

  /** The parser behind a printed structure, whatever follows. */
  lemma BehindPrinted(doc: Doc, rest: string) returns (current: Option<string>, line: nat)
    requires Shaped(doc) && AllValues(doc, v => SingleLine(v))
    ensures ParseFrom(START, Print(doc) + rest, 1) == ParseFrom(LineState(RereadDoc(doc), current, []), rest, line)
  {
    hide ParseFrom, Shaped, UniqueNames, AllValues, RereadDoc, Print;
    assert [] + doc == doc && [] + RereadDoc(doc) == RereadDoc(doc);
    NamesOfShaped(doc);
    PrintFrom([], None, doc, rest, 1);
    current := if doc == [] then None else Some(doc[|doc| - 1].name);
    line := 1 + PrintedLines(doc);
  }

  /** The parser in front of entry `b` of section `a`, whatever follows. */
  lemma BeforeEntry(doc: Doc, a: nat, b: nat, rest: string) returns (line: nat)
    requires Shaped(doc) && a < |doc| && b < |doc[a].entries|
    requires AllValues(doc[..a], v => SingleLine(v)) && EntryValues(doc[a].entries[..b], v => SingleLine(v))
    ensures ParseFrom(START, Print(doc[..a]) + (PrintSection(Section(doc[a].name, doc[a].entries[..b])) + rest), 1) ==
            ParseFrom(LineState(RereadDoc(doc[..a]) + [Section(doc[a].name, RereadEntries(doc[a].entries[..b]))],
                                Some(doc[a].name), []), rest, line)
  {
    hide *;
    PrefixShaped(doc, a, b);
    var upTo := Section(doc[a].name, doc[a].entries[..b]);
    var current, n := BehindPrinted(doc[..a], PrintSection(upTo) + rest);
    SectionFrom(RereadDoc(doc[..a]), current, upTo, rest, n);
    line := n + 1 + |upTo.entries|;
  }

  /** A key whose value spans lines is still found in its section, with a value that does not. */
  lemma SpilledKeyIsFound(doc: Doc, a: nat, b: nat)
    requires Shaped(doc) && FirstSpill(doc, a, b)
    ensures Has(Parse(Print(doc)).doc, doc[a].name, doc[a].entries[b].key)
  {
    hide ParseFrom, Shaped, AllValues, EntryValues, Has, RereadDoc, RereadEntries, UniqueKeys, ShapedEntries, FindSection,
      PrintSection, PrintEntry, PrintEntries, Print, PrintableName, PrintableKey, SingleLine;
    var s, e := doc[a], doc[a].entries[b];
    var rest := PrintEntries(s.entries[b + 1..]) + Print(doc[a + 1..]);
    PrefixShaped(doc, a, b);
    AroundEntry(doc, a, b);
    var line := BeforeEntry(doc, a, b, PrintEntry(e) + rest);
    SpilledEntryFrom(RereadDoc(doc[..a]), s.name, RereadEntries(s.entries[..b]), e, rest, line);
  }

  lemma NamesOfShaped(doc: Doc)
    requires Shaped(doc)
    ensures UniqueNames(doc)
  {
  }
}
