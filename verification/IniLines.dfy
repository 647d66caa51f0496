/**
 What an INI text means, line by line.  The only state between two lines is the
 structure built so far, the section that assignments go to (if any), and the
 diagnostics issued.  This is the reference the byte-level parser of `IniParser`
 is proved against.
 */
module IniLines {
  import opened Wrappers
  import opened Text
  import opened IniStore

  datatype Complaint =
    | JunkOutsideSection
    | EndOfFileInHeader
    | EndOfLineInHeader
    | EmptySectionName
    | JunkAfterHeader
    | MissingAssignment
    | MissingKeyName

  /** A complaint and the number of the line that is reported with it. */
  datatype Diagnostic = Diagnostic(complaint: Complaint, line: nat)

  datatype LineState = LineState(doc: Doc, current: Option<string>, diagnostics: seq<Diagnostic>) {
    function Complain(complaint: Complaint, line: nat): LineState {
      this.(diagnostics := diagnostics + [Diagnostic(complaint, line)])
    }

    /** Store into the current section. */
    function Store(key: string, value: string): LineState {
      if current.Some? then this.(doc := PutIn(doc, current.value, key, value)) else this
    }
  }

  const START := LineState([], None, [])

  // ----- one line

  /** A line from behind its opening bracket.  A text that ends in a bare `[` is not complained about. */
  function ParseHeader(st: LineState, header: string, line: nat, atEof: bool): LineState {
    var closed := st.(current := None);
    var i := IndexOf(header, ']');
    if header == "" && atEof then closed
    else if i == |header| then closed.Complain(if atEof then EndOfFileInHeader else EndOfLineInHeader, line)
    else if i == 0 then closed.Complain(EmptySectionName, line)
    else if SkipBlanks(header[i + 1..]) != "" then closed.Complain(JunkAfterHeader, line)
    else st.(doc := NewSection(st.doc, header[..i]), current := Some(header[..i]))
  }

  /** A line inside a section, from its first non-blank character. */
  function ParseAssignment(st: LineState, text: string, line: nat): LineState
    requires st.current.Some?
  {
    var i := IndexOf(text, '=');
    if i == |text| then st.Complain(MissingAssignment, line)
    else if i == 0 then st.Complain(MissingKeyName, line)
    else st.Store(TrimRight(text[..i]), CString(TrimRight(SkipBlanks(text[i + 1..]))))
  }

  function ParseLine(st: LineState, text: string, line: nat, atEof: bool): LineState {
    var t := SkipBlanks(text);
    if t == "" then st
    else if t[0] == '[' then ParseHeader(st, t[1..], line, atEof)
    else if st.current.None? then st.Complain(JunkOutsideSection, line)
    else ParseAssignment(st, t, line)
  }

  // ----- all lines

  /** The lines of a text; a text that ends in a line feed has an empty last line. */
  function Lines(text: string): (ls: seq<string>)
    ensures |ls| > 0
  {
    var i := IndexOf(text, NEWLINE);
    if i == |text| then [text] else [text[..i]] + Lines(text[i + 1..])
  }

  /** The left fold; `line` is the number of the first line, and the last line ends at the end of the file. */
  function Fold(st: LineState, lines: seq<string>, line: nat): LineState
    decreases |lines|
  {
    if lines == [] then st
    else Fold(ParseLine(st, lines[0], line, |lines| == 1), lines[1..], line + 1)
  }

  function ParseFrom(st: LineState, text: string, line: nat): LineState {
    Fold(st, Lines(text), line)
  }

  function Parse(text: string): LineState {
    ParseFrom(START, text, 1)
  }

  // ----- where a parser can be inside a line

  /** The outcome for a parser that stands behind an opening bracket. */
  function HeaderFrom(st: LineState, text: string, line: nat): LineState {
    var i := IndexOf(text, NEWLINE);
    if i == |text| then ParseHeader(st, text, line, true)
    else ParseFrom(ParseHeader(st, text[..i], line, false), text[i + 1..], line + 1)
  }

  /** The outcome for a parser that is about to skip the rest of the line. */
  function SkipFrom(st: LineState, text: string, line: nat): LineState {
    var i := IndexOf(text, NEWLINE);
    if i == |text| then st else ParseFrom(st, text[i + 1..], line + 1)
  }

  lemma FoldCons(st: LineState, first: string, rest: seq<string>, line: nat)
    ensures Fold(st, [first] + rest, line) == Fold(ParseLine(st, first, line, rest == []), rest, line + 1)
  {
    hide ParseLine;
    assert ([first] + rest)[1..] == rest;
  }

  lemma UnfoldFrom(st: LineState, text: string, line: nat)
    ensures var i := IndexOf(text, NEWLINE);
      ParseFrom(st, text, line) ==
      if i == |text| then ParseLine(st, text, line, true)
      else ParseFrom(ParseLine(st, text[..i], line, false), text[i + 1..], line + 1)
  {
    hide ParseLine, IndexOf;
    var i := IndexOf(text, NEWLINE);
    if i < |text| {
      FoldCons(st, text[..i], Lines(text[i + 1..]), line);
    } else {
      assert [text] + [] == [text];
      FoldCons(st, text, [], line);
    }
  }

  lemma EmptyFrom(st: LineState, line: nat)
    ensures ParseFrom(st, "", line) == st
  {
    UnfoldFrom(st, "", line);
  }

  lemma BlanksInLine(st: LineState, text: string, n: nat, line: nat, atEof: bool)
    requires n <= |text|
    requires forall k :: 0 <= k < n ==> IsBlank(text[k])
    ensures ParseLine(st, text[n..], line, atEof) == ParseLine(st, text, line, atEof)
  {
    hide ParseHeader, ParseAssignment;
    BlankPrefixIs(text[n..], BlankPrefix(text) - n);
  }

  /** Leading blanks of the rest of a line do not matter. */
  lemma BlanksFrom(st: LineState, text: string, n: nat, line: nat)
    requires n <= |text|
    requires forall k :: 0 <= k < n ==> IsBlank(text[k])
    ensures ParseFrom(st, text[n..], line) == ParseFrom(st, text, line)
  {
    hide ParseLine, ParseFrom;
    var i := IndexOf(text, NEWLINE);
    var rest := text[n..];
    assert n <= i;
    IndexOfIs(rest, NEWLINE, i - n);
    UnfoldFrom(st, text, line);
    UnfoldFrom(st, rest, line);
    if i < |text| {
      BlanksInLine(st, text[..i], n, line, false);
      assert text[..i][n..] == rest[..i - n];
      assert text[i + 1..] == rest[i - n + 1..];
    } else {
      BlanksInLine(st, text, n, line, true);
    }
  }

  /** A line feed ends the line. */
  lemma NewlineFrom(st: LineState, text: string, line: nat)
    requires text != "" && text[0] == NEWLINE
    ensures ParseFrom(st, text, line) == ParseFrom(st, text[1..], line + 1)
  {
    UnfoldFrom(st, text, line);
    assert text[..0] == "";
  }

  lemma BracketLine(st: LineState, text: string, line: nat, atEof: bool)
    requires text != "" && text[0] == '['
    ensures ParseLine(st, text, line, atEof) == ParseHeader(st, text[1..], line, atEof)
    ensures ParseLine(st.(current := None), text, line, atEof) == ParseLine(st, text, line, atEof)
  {
    BlankPrefixIs(text, 0);
  }

  /** A bracket opens a header whether or not a section is open. */
  lemma BracketFrom(st: LineState, text: string, line: nat)
    requires text != "" && text[0] == '['
    ensures ParseFrom(st, text, line) == HeaderFrom(st, text[1..], line)
    ensures ParseFrom(st, text, line) == ParseFrom(st.(current := None), text, line)
  {
    hide ParseLine, ParseHeader, ParseFrom;
    var i := IndexOf(text, NEWLINE);
    UnfoldFrom(st, text, line);
    UnfoldFrom(st.(current := None), text, line);
    IndexOfIs(text[1..], NEWLINE, i - 1);
    if i < |text| {
      BracketLine(st, text[..i], line, false);
      assert text[..i][1..] == text[1..][..i - 1];
      assert text[i + 1..] == text[1..][i..];
    } else {
      BracketLine(st, text, line, true);
    }
  }

  /** Anything else is junk outside of a section: the line is dropped. */
  lemma JunkFrom(st: LineState, text: string, line: nat)
    requires text != "" && text[0] != NEWLINE && text[0] != '[' && !IsBlank(text[0])
    requires st.current.None?
    ensures ParseFrom(st, text, line) == SkipFrom(st.Complain(JunkOutsideSection, line), text, line)
  {
    var i := IndexOf(text, NEWLINE);
    UnfoldFrom(st, text, line);
    BlankPrefixIs(text[..i], 0);
    BlankPrefixIs(text, 0);
  }

  /** Inside of a section it is an assignment. */
  lemma AssignmentFrom(st: LineState, text: string, line: nat)
    requires text != "" && text[0] != NEWLINE && text[0] != '[' && !IsBlank(text[0])
    requires st.current.Some?
    ensures var i := IndexOf(text, NEWLINE);
      ParseFrom(st, text, line) == SkipFrom(ParseAssignment(st, text[..i], line), text, line)
  {
    var i := IndexOf(text, NEWLINE);
    UnfoldFrom(st, text, line);
    BlankPrefixIs(text[..i], 0);
    BlankPrefixIs(text, 0);
    assert text[..|text|] == text;
  }

  /** The text up to the end of the line. */
  function ThisLine(text: string): string {
    text[..IndexOf(text, NEWLINE)]
  }

  lemma IndexWithinLine(text: string, k: nat)
    requires k <= |text|
    requires forall j :: 0 <= j < k ==> text[j] != NEWLINE
    ensures k <= IndexOf(text, NEWLINE) == k + IndexOf(text[k..], NEWLINE)
  {
    IndexOfIs(text[k..], NEWLINE, IndexOf(text, NEWLINE) - k);
  }

  /** Moving on within the line changes neither its end nor what follows it. */
  lemma WithinLine(text: string, k: nat)
    requires k <= |text|
    requires forall j :: 0 <= j < k ==> text[j] != NEWLINE
    ensures k <= IndexOf(text, NEWLINE) == k + IndexOf(text[k..], NEWLINE)
    ensures ThisLine(text)[k..] == ThisLine(text[k..])
  {
    hide IndexOf;
    IndexWithinLine(text, k);
    var i := IndexOf(text, NEWLINE);
    assert text[..i][k..] == text[k..][..i - k];
  }

  lemma SkipWithinLine(st: LineState, text: string, k: nat, line: nat)
    requires k <= |text|
    requires forall j :: 0 <= j < k ==> text[j] != NEWLINE
    ensures SkipFrom(st, text[k..], line) == SkipFrom(st, text, line)
  {
    hide ParseFrom;
    WithinLine(text, k);
    var i := IndexOf(text, NEWLINE);
    if i < |text| {
      assert text[k..][i - k + 1..] == text[i + 1..];
    }
  }

  // ----- a header, as the scanner meets it

  lemma UnclosedHeaderFrom(st: LineState, text: string, line: nat)
    requires text != "" && ']' !in ThisLine(text)
    ensures var atEof := IndexOf(text, NEWLINE) == |text|;
      HeaderFrom(st, text, line) ==
      SkipFrom(st.(current := None).Complain(if atEof then EndOfFileInHeader else EndOfLineInHeader, line), text, line)
  {
    hide ParseFrom;
    var header := ThisLine(text);
    IndexOfIs(header, ']', |header|);
  }

  lemma EmptyHeaderFrom(st: LineState, text: string, line: nat)
    requires text != "" && text[0] == ']'
    ensures HeaderFrom(st, text, line) == SkipFrom(st.(current := None).Complain(EmptySectionName, line), text, line)
  {
    hide ParseFrom;
    IndexOfIs(ThisLine(text), ']', 0);
  }

  lemma ClosedHeaderFrom(st: LineState, text: string, e: nat, line: nat)
    requires 0 < e < |text| && text[e] == ']'
    requires forall k :: 0 <= k < e ==> text[k] != ']' && text[k] != NEWLINE
    ensures var rest := text[e + 1..];
      HeaderFrom(st, text, line) ==
      if SkipBlanks(ThisLine(rest)) != "" then SkipFrom(st.(current := None).Complain(JunkAfterHeader, line), rest, line)
      else SkipFrom(st.(doc := NewSection(st.doc, text[..e]), current := Some(text[..e])), rest, line)
  {
    hide ParseFrom, SkipFrom;
    var header, rest := ThisLine(text), text[e + 1..];
    WithinLine(text, e + 1);
    IndexOfIs(header, ']', e);
    assert header[..e] == text[..e];
    var st' := ParseHeader(st, header, line, IndexOf(text, NEWLINE) == |text|);
    assert HeaderFrom(st, text, line) == SkipFrom(st', text, line) by {
      HeaderThenSkip(st, text, line);
    }
    SkipWithinLine(st', text, e + 1, line);
  }

  lemma HeaderThenSkip(st: LineState, text: string, line: nat)
    ensures HeaderFrom(st, text, line) ==
            SkipFrom(ParseHeader(st, ThisLine(text), line, IndexOf(text, NEWLINE) == |text|), text, line)
  {
    hide ParseFrom, ParseHeader;
    assert text[..|text|] == text;
  }

  // ----- an assignment, as the scanner meets it

  /** What the rest of a line behind the equals sign stores. */
  function ValueIn(rest: string): string {
    CString(TrimRight(SkipBlanks(ThisLine(rest))))
  }

  ghost predicate StartsAssignment(st: LineState, text: string) {
    st.current.Some? && text != "" && text[0] != NEWLINE && text[0] != '[' && !IsBlank(text[0])
  }

  lemma MissingAssignmentFrom(st: LineState, text: string, line: nat)
    requires StartsAssignment(st, text) && '=' !in ThisLine(text)
    ensures ParseFrom(st, text, line) == SkipFrom(st.Complain(MissingAssignment, line), text, line)
  {
    hide ParseFrom, SkipFrom;
    AssignmentFrom(st, text, line);
    IndexOfIs(ThisLine(text), '=', |ThisLine(text)|);
  }

  lemma MissingKeyFrom(st: LineState, text: string, line: nat)
    requires StartsAssignment(st, text) && text[0] == '='
    ensures ParseFrom(st, text, line) == SkipFrom(st.Complain(MissingKeyName, line), text, line)
  {
    hide ParseFrom, SkipFrom;
    AssignmentFrom(st, text, line);
    IndexOfIs(ThisLine(text), '=', 0);
  }

  lemma StoreFrom(st: LineState, text: string, e: nat, line: nat)
    requires StartsAssignment(st, text) && 0 < e < |text| && text[e] == '='
    requires forall k :: 0 <= k < e ==> text[k] != '=' && text[k] != NEWLINE
    ensures ParseFrom(st, text, line) ==
            SkipFrom(st.Store(TrimRight(text[..e]), ValueIn(text[e + 1..])), text[e + 1..], line)
  {
    hide ParseFrom, SkipFrom, TrimRight, SkipBlanks, CString, LineState.Store, IndexOf;
    AssignmentFrom(st, text, line);
    var all := ThisLine(text);
    IndexOfIs(all, '=', e);
    WithinLine(text, e + 1);
    assert all[..e] == text[..e];
    SkipWithinLine(ParseAssignment(st, all, line), text, e + 1, line);
  }

  lemma BlankValue(rest: string)
    requires forall k :: 0 <= k < IndexOf(rest, NEWLINE) ==> IsBlank(rest[k])
    ensures SkipBlanks(ThisLine(rest)) == "" && ValueIn(rest) == ""
  {
    BlankPrefixIs(ThisLine(rest), |ThisLine(rest)|);
  }

  lemma NonBlankValue(rest: string, b: nat)
    requires b < |rest| && !IsBlank(rest[b]) && rest[b] != NEWLINE
    requires forall k :: 0 <= k < b ==> IsBlank(rest[k])
    ensures SkipBlanks(ThisLine(rest)) == ThisLine(rest[b..]) != ""
  {
    WithinLine(rest, b);
    assert ThisLine(rest)[b] == rest[b];
    BlankPrefixIs(ThisLine(rest), b);
  }
}
