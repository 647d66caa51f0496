/** What a faulty line costs: how far each kind of error reaches, and which line it is reported for. */
module IniRecovery {
  import opened Wrappers
  import opened Text
  import opened IniStore
  import opened IniLines

  /** What has to stand behind an opening bracket for a section to be opened. */
  predicate OpensSection(header: string) {
    var i := IndexOf(header, ']');
    0 < i < |header| && SkipBlanks(header[i + 1..]) == ""
  }

  predicate IsHeaderLine(text: string) {
    var t := SkipBlanks(text);
    t != "" && t[0] == '['
  }

  predicate OpeningLine(text: string) {
    IsHeaderLine(text) && OpensSection(SkipBlanks(text)[1..])
  }

  /** What is wrong with a header, given what stands behind its opening bracket. */
  function HeaderFault(header: string, atEof: bool): Option<Complaint> {
    if OpensSection(header) then None
    else if ']' in header then Some(if header[0] == ']' then EmptySectionName else JunkAfterHeader)
    else if !atEof then Some(EndOfLineInHeader)
    else if header != "" then Some(EndOfFileInHeader)
    else None
  }

  function Reports(fault: Option<Complaint>, line: nat): seq<Diagnostic> {
    match fault case None => [] case Some(c) => [Diagnostic(c, line)]
  }

  /**
   A header opens its section (anew, or again) or closes the current one, nothing
   in between; it is reported exactly if it opens none, except for a bracket that
   is the last character of the text.
   */
  lemma HeaderExactly(st: LineState, text: string, line: nat, atEof: bool)
    requires IsHeaderLine(text)
    ensures var after := ParseLine(st, text, line, atEof);
      var header := SkipBlanks(text)[1..];
      && after.diagnostics == st.diagnostics + Reports(HeaderFault(header, atEof), line)
      && (HeaderFault(header, atEof) == None <==> OpeningLine(text) || (atEof && header == ""))
      && if OpeningLine(text) then
           var name := header[..IndexOf(header, ']')];
           && after.current == Some(name)
           && FindSection(after.doc, name) < |after.doc|
           && (FindSection(st.doc, name) < |st.doc| ==> after.doc == st.doc)
           && (FindSection(st.doc, name) == |st.doc| ==> after.doc == st.doc + [Section(name, [])])
         else
           after.current == None && after.doc == st.doc
  {
    var header := SkipBlanks(text)[1..];
    var i := IndexOf(header, ']');
    assert i < |header| <==> ']' in header;
    if OpeningLine(text) {
      var name := header[..i];
      FindSectionIs(NewSection(st.doc, name), name, FindSection(st.doc, name));
    }
  }

  /** The bare bracket is a bad header that nobody is told about; a line feed or a blank behind it changes that. */
  lemma BareBracketIsSilent()
    ensures IsHeaderLine("[") && !OpeningLine("[") && Parse("[").diagnostics == []
    ensures Parse("[ ").diagnostics == [Diagnostic(EndOfFileInHeader, 1)]
    ensures Parse("[\n").diagnostics == [Diagnostic(EndOfLineInHeader, 1)]
  {
    hide ParseLine, Parse, HeaderFault, OpensSection, IsHeaderLine, OpeningLine, Reports;
    Alone("", true);
    Alone(" ", true);
    Alone("", false);
    assert "[" + "" == "[" && "[" + " " == "[ " && "[" + "\n" == "[\n";
    OneLine("[");
    OneLine("[ ");
    LineFeedBehind("[");
    NoBracketCloses();
  }

  lemma Alone(header: string, atEof: bool)
    ensures IsHeaderLine("[" + header) && (OpeningLine("[" + header) <==> OpensSection(header))
    ensures ParseLine(START, "[" + header, 1, atEof).diagnostics == Reports(HeaderFault(header, atEof), 1)
  {
    var text := "[" + header;
    BlankPrefixIs(text, 0);
    assert text[0] == '[' && text[1..] == header;
    hide HeaderFault, OpensSection, ParseLine;
    HeaderExactly(START, text, 1, atEof);
  }

  lemma NoBracketCloses()
    ensures !OpensSection("")
    ensures Reports(HeaderFault("", true), 1) == []
    ensures Reports(HeaderFault(" ", true), 1) == [Diagnostic(EndOfFileInHeader, 1)]
    ensures Reports(HeaderFault("", false), 1) == [Diagnostic(EndOfLineInHeader, 1)]
  {
    IndexOfIs(" ", ']', 1);
  }

  lemma LineFeedBehind(text: string)
    requires NEWLINE !in text
    ensures Parse(text + "\n").diagnostics == ParseLine(START, text, 1, false).diagnostics
  {
    hide ParseLine;
    var all := text + "\n";
    UnfoldFrom(START, all, 1);
    IndexOfIs(all, NEWLINE, |text|);
    assert all[..|text|] == text && all[|text| + 1..] == "";
    EmptyFrom(ParseLine(START, text, 1, false), 2);
  }

  lemma OneLine(text: string)
    requires NEWLINE !in text
    ensures Parse(text) == ParseLine(START, text, 1, true)
  {
    hide ParseLine;
    UnfoldFrom(START, text, 1);
  }

  /** Outside of a section, no line up to the next good header has any effect on the structure. */
  lemma {:induction false} DroppedUntilHeader(st: LineState, lines: seq<string>, line: nat)
    requires st.current == None
    requires forall i :: 0 <= i < |lines| ==> !OpeningLine(lines[i])
    ensures Fold(st, lines, line).doc == st.doc && Fold(st, lines, line).current == None
    decreases |lines|
  {
    hide ParseLine, OpeningLine;
    if lines != [] {
      NotOpening(st, lines[0], line, |lines| == 1);
      DroppedUntilHeader(ParseLine(st, lines[0], line, |lines| == 1), lines[1..], line + 1);
    }
  }

  lemma NotOpening(st: LineState, text: string, line: nat, atEof: bool)
    requires st.current == None && !OpeningLine(text)
    ensures ParseLine(st, text, line, atEof).doc == st.doc && ParseLine(st, text, line, atEof).current == None
  {
    if IsHeaderLine(text) {
      HeaderExactly(st, text, line, atEof);
    }
  }

  /** What is wrong with an assignment, from its first non-blank character. */
  function AssignmentFault(t: string): Option<Complaint> {
    if t == "" then None
    else if '=' !in t then Some(MissingAssignment)
    else if t[0] == '=' then Some(MissingKeyName)
    else None
  }

  /** Inside of a section, a line without a header keeps the section open, and a faulty one drops only itself. */
  lemma AssignmentExactly(st: LineState, text: string, line: nat, atEof: bool)
    requires st.current.Some? && !IsHeaderLine(text)
    ensures var after := ParseLine(st, text, line, atEof);
      var t := SkipBlanks(text);
      var i := IndexOf(t, '=');
      && after.current == st.current
      && after.diagnostics == st.diagnostics + Reports(AssignmentFault(t), line)
      && (AssignmentFault(t) == None <==> t == "" || 0 < i < |t|)
      && after.doc ==
         if 0 < i < |t| then
           PutIn(st.doc, st.current.value, TrimRight(t[..i]), CString(TrimRight(SkipBlanks(t[i + 1..]))))
         else st.doc
  {
    hide SkipBlanks, PutIn;
    var t := SkipBlanks(text);
    var i := IndexOf(t, '=');
    assert i < |t| <==> '=' in t;
  }

  /** Lines are numbered by the line feeds in front of them. */
  lemma {:induction false} LinesAreNewlines(text: string)
    ensures |Lines(text)| == 1 + Newlines(text)
    decreases |text|
  {
    var i := IndexOf(text, NEWLINE);
    if i == |text| {
      NoNewlines(text);
    } else {
      LinesAreNewlines(text[i + 1..]);
      NoNewlines(text[..i]);
      assert text[..i + 1][..i] == text[..i];
      NewlinesAdd(text[..i + 1], text[i + 1..]);
      assert text[..i + 1] + text[i + 1..] == text;
    }
  }

  lemma {:induction false} NoNewlines(s: string)
    requires NEWLINE !in s
    ensures Newlines(s) == 0
  {
    if s != "" {
      assert s[|s| - 1] in s;
      NoNewlines(s[..|s| - 1]);
    }
  }

  lemma {:induction false} NewlinesAdd(a: string, b: string)
    ensures Newlines(a + b) == Newlines(a) + Newlines(b)
    decreases |b|
  {
    if b == "" {
      assert a + b == a;
    } else {
      assert (a + b)[..|a + b| - 1] == a + b[..|b| - 1];
      NewlinesAdd(a, b[..|b| - 1]);
    }
  }
}
