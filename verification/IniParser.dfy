/**
 The byte-level INI parser: a state machine over a buffer, with a position, a
 line counter and a current section that advance in loops.  Its handlers are
 proved to preserve the outcome that `IniLines` assigns to the whole text.
 */
module IniParser {
  import opened Wrappers
  import opened Text
  import opened IniStore
  import opened IniLines
  import opened IniLists
  import opened IniFiles

  datatype ParserState = ExpectSectionBegin | ExpectSectionName | ExpectAssignment
  datatype SkipResult = SkipOk | SkipEol | SkipEof

  /** The number of the line that position `pos` is in. */
  ghost function LineAt(content: string, pos: nat): nat
    requires pos <= |content|
  {
    1 + Newlines(content[..pos])
  }

  lemma LineStep(content: string, pos: nat)
    requires pos < |content|
    ensures LineAt(content, pos + 1) == LineAt(content, pos) + if content[pos] == NEWLINE then 1 else 0
  {
    assert content[..pos + 1][..pos] == content[..pos];
  }

  class Parser {
    const content: string
    const inifile: IniFile
    var current: SectionNode?
    var pos: nat
    var line: nat
    var state: ParserState
    /** The messages issued so far. */
    var diagnostics: seq<Diagnostic>

    ghost predicate Valid()
      reads this, inifile, inifile.nodes, inifile.linked
    {
      && inifile.Valid()
      && (state == ExpectAssignment <==> current != null)
      && (current != null ==> current in inifile.nodes)
      && pos <= |content| + 1
      && (pos < |content| ==> line == LineAt(content, pos))
    }

    /** The state between lines that the parser stands for. */
    ghost function Here(): LineState
      reads this, inifile
    {
      LineState(inifile.contents, if current == null then None else Some(current.name), diagnostics)
    }

    ghost function Rest(): string
      reads this`pos
    {
      if pos <= |content| then content[pos..] else ""
    }

    /** What the rest of the text makes of the current state. */
    ghost function Outcome(): LineState
      reads this, inifile
    {
      if state == ExpectSectionName then HeaderFrom(Here(), Rest(), line) else ParseFrom(Here(), Rest(), line)
    }

    constructor (content: string)
      ensures this.content == content && Valid() && fresh(inifile)
      ensures inifile.nodes == [] && inifile.linked == {}
      ensures Outcome() == Parse(content) && pos == 0 && state == ExpectSectionBegin
    {
      this.content := content;
      this.inifile := new IniFile();
      this.current := null;
      this.pos, this.line := 0, 1;
      this.state := ExpectSectionBegin;
      this.diagnostics := [];
      new;
      assert content[..0] == "";
      assert content[0..] == content;
    }

    // ----- scanning

    method EnterNextLine() returns (r: SkipResult)
      requires pos < |content| && content[pos] == NEWLINE && line == LineAt(content, pos)
      modifies this`pos, this`line
      ensures r == SkipEol && pos == old(pos) + 1 && line == old(line) + 1 == LineAt(content, pos)
    {
      LineStep(content, pos);
      pos := pos + 1;
      line := line + 1;
      return SkipEol;
    }

    method SkipSpaces() returns (r: SkipResult)
      requires pos <= |content| && line == LineAt(content, pos)
      modifies this`pos, this`line
      ensures old(pos) <= pos <= |content| && line == LineAt(content, pos)
      ensures var stop := if r == SkipEol then pos - 1 else pos;
        && old(pos) <= stop
        && forall k :: old(pos) <= k < stop ==> IsBlank(content[k])
      ensures r == SkipOk ==> pos < |content| && !IsBlank(content[pos]) && content[pos] != NEWLINE && line == old(line)
      ensures r == SkipEol ==> content[pos - 1] == NEWLINE && line == old(line) + 1
      ensures r == SkipEof ==> pos == |content| && line == old(line)
    {
      while pos < |content|
        invariant old(pos) <= pos <= |content| && line == old(line) == LineAt(content, pos)
        invariant forall k :: old(pos) <= k < pos ==> IsBlank(content[k])
      {
        var ch := content[pos];
        if !IsBlank(ch) {
          if ch != NEWLINE {
            return SkipOk;
          }
          r := EnterNextLine();
          return;
        }
        LineStep(content, pos);
        pos := pos + 1;
      }
      return SkipEof;
    }

    method SkipUntil(until: char) returns (r: SkipResult)
      requires pos <= |content| && line == LineAt(content, pos)
      modifies this`pos, this`line
      ensures old(pos) <= pos <= |content| && line == LineAt(content, pos)
      ensures var stop := if r == SkipEol then pos - 1 else pos;
        && old(pos) <= stop
        && forall k :: old(pos) <= k < stop ==> content[k] != until && content[k] != NEWLINE
      ensures r == SkipOk ==> pos < |content| && content[pos] == until && line == old(line)
      ensures r == SkipEol ==> content[pos - 1] == NEWLINE != until && line == old(line) + 1
      ensures r == SkipEof ==> pos == |content| && line == old(line)
    {
      while pos < |content|
        invariant old(pos) <= pos <= |content| && line == old(line) == LineAt(content, pos)
        invariant forall k :: old(pos) <= k < pos ==> content[k] != until && content[k] != NEWLINE
      {
        var ch := content[pos];
        if ch == until {
          return SkipOk;
        }
        if ch == NEWLINE {
          r := EnterNextLine();
          return;
        }
        LineStep(content, pos);
        pos := pos + 1;
      }
      return SkipEof;
    }

    method SkipLine() returns (r: SkipResult)
      requires pos <= |content| && line == LineAt(content, pos)
      modifies this`pos, this`line
      ensures pos <= |content| && line == LineAt(content, pos)
      ensures old(pos) <= pos && (old(pos) < |content| ==> old(pos) < pos)
      ensures forall st :: ParseFrom(st, content[pos..], line) == SkipFrom(st, content[old(pos)..], old(line))
    {
      hide ParseFrom, LineAt;
      ghost var p := pos;
      while pos < |content|
        invariant old(pos) <= pos <= |content| && line == old(line) == LineAt(content, pos)
        invariant forall k :: old(pos) <= k < pos ==> content[k] != NEWLINE
      {
        if content[pos] == NEWLINE {
          IndexOfIs(content[p..], NEWLINE, pos - p);
          assert content[p..][pos - p + 1..] == content[pos + 1..];
          r := EnterNextLine();
          return;
        }
        LineStep(content, pos);
        pos := pos + 1;
      }
      IndexOfIs(content[p..], NEWLINE, pos - p);
      assert content[pos..] == "";
      forall st ensures ParseFrom(st, "", line) == st {
        EmptyFrom(st, line);
      }
      return SkipEof;
    }

    /** Walk back over blanks; the caller knows that a non-blank is there to stop at. */
    method SkipSpacesReverse(ghost start: nat) returns (r: SkipResult)
      requires start <= pos < |content|
      requires !IsBlank(content[start]) && forall k :: start <= k <= pos ==> content[k] != NEWLINE
      modifies this`pos
      ensures r == SkipOk && start <= pos <= old(pos)
      ensures !IsBlank(content[pos]) && forall k :: pos < k <= old(pos) ==> IsBlank(content[k])
    {
      while true
        invariant start <= pos <= old(pos)
        invariant forall k :: pos < k <= old(pos) ==> IsBlank(content[k])
        decreases pos
      {
        var ch := content[pos];
        if !IsBlank(ch) {
          if ch != NEWLINE {
            return SkipOk;
          }
          assert false;
        }
        if pos > 0 {
          pos := pos - 1;
        } else {
          assert false;
        }
      }
    }

    method Complain(complaint: Complaint, n: nat)
      modifies this`diagnostics
      ensures diagnostics == old(diagnostics) + [Diagnostic(complaint, n)]
    {
      diagnostics := diagnostics + [Diagnostic(complaint, n)];
    }

    // ----- handlers: 0 to go on, 1 to skip the rest of the line

    /** A handler moves on, or leaves the section without consuming anything. */
    twostate predicate Progress(ret: int)
      reads this
    {
      && ret in {0, 1}
      && old(pos) <= pos
      && (ret == 0 && pos == old(pos) ==> old(state) == ExpectAssignment && state == ExpectSectionBegin)
      && (ret == 1 ==> pos < |content| && state != ExpectSectionName)
    }

    method ParseSectionBegin() returns (ret: int)
      requires Valid() && state == ExpectSectionBegin && pos < |content|
      modifies this`pos, this`line, this`state, this`diagnostics
      ensures Valid() && Progress(ret)
      ensures if ret == 0 then Outcome() == old(Outcome()) else SkipFrom(Here(), Rest(), line) == old(Outcome())
    {
      hide ParseFrom, HeaderFrom, SkipFrom, LineAt, IniFile.Valid;
      ghost var p, st, n := pos, Here(), line;
      var skipped := SkipSpaces();
      BlankRun(st, content, p, if skipped == SkipEol then pos - 1 else pos, n);
      match skipped {
        case SkipEof =>
          return 0;
        case SkipEol =>
          NewlineFrom(st, content[pos - 1..], n);
          assert content[pos - 1..][1..] == content[pos..];
          return 0;
        case SkipOk =>
      }
      if content[pos] != '[' {
        JunkFrom(st, content[pos..], line);
        Complain(JunkOutsideSection, line);
        return 1;
      }
      BracketFrom(st, content[pos..], line);
      assert content[pos..][1..] == content[pos + 1..];
      LineStep(content, pos);
      pos := pos + 1;
      state := ExpectSectionName;
      return 0;
    }

    method ParseSectionName() returns (ret: int)
      requires Valid() && state == ExpectSectionName && pos < |content|
      modifies this`pos, this`line, this`state, this`diagnostics, this`current, inifile, inifile.nodes`next
      ensures Valid() && Progress(ret) && inifile.linked == old(inifile.linked)
      ensures if ret == 0 then Outcome() == old(Outcome()) else SkipFrom(Here(), Rest(), line) == old(Outcome())
      ensures Grown(old(inifile.nodes), inifile.nodes)
    {
      hide ParseFrom, HeaderFrom, SkipFrom, LineAt, IniFile.Valid, IniStore.NewSection;
      ghost var p, st, n := pos, Here(), line;
      var startOfName := pos;
      state := ExpectSectionBegin;
      var skipped := SkipUntil(']');
      match skipped {
        case SkipEof =>
          UnclosedAtEof(st, content, p, n);
          Complain(EndOfFileInHeader, line);
          return 0;
        case SkipEol =>
          UnclosedAtEol(st, content, p, pos, n);
          Complain(EndOfLineInHeader, line - 1);
          return 0;
        case SkipOk =>
      }
      var length := pos - startOfName;
      if length == 0 {
        EmptyHeaderFrom(st, content[p..], line);
        Complain(EmptySectionName, line);
        return 1;
      }
      ret := FinishHeader(startOfName, length);
    }

    /** The closing bracket, the rest of the line, and the section itself. */
    method FinishHeader(start: nat, length: nat) returns (ret: int)
      requires Valid() && state == ExpectSectionBegin && pos < |content| && content[pos] == ']'
      requires 0 < length && pos == start + length
      requires forall k :: start <= k < pos ==> content[k] != ']' && content[k] != NEWLINE
      modifies this`pos, this`line, this`state, this`diagnostics, this`current, inifile, inifile.nodes`next
      ensures Valid() && inifile.linked == old(inifile.linked)
      ensures ret in {0, 1} && old(pos) < pos && (ret == 1 ==> pos < |content| && state == ExpectSectionBegin)
      ensures (if ret == 0 then Outcome() else SkipFrom(Here(), Rest(), line)) ==
              HeaderFrom(old(Here()), content[start..], old(line))
      ensures Grown(old(inifile.nodes), inifile.nodes)
    {
      hide ParseFrom, HeaderFrom, SkipFrom, LineAt, IniFile.Valid, IniStore.NewSection;
      ghost var st, n := Here(), line;
      LineStep(content, pos);
      pos := pos + 1;
      ghost var q := pos;
      var skipped := SkipSpaces();
      ClosedHeader(st, content, start, length, q, pos, skipped, n);
      if skipped == SkipOk {
        Complain(JunkAfterHeader, line);
        return 1;
      }
      OpenSection(start, length);
      return 0;
    }

    method OpenSection(start: nat, length: nat)
      requires inifile.Valid() && 0 < length && start + length <= |content|
      modifies this`state, this`current, inifile, inifile.nodes`next
      ensures inifile.Valid() && inifile.linked == old(inifile.linked)
      ensures state == ExpectAssignment && current != null && current in inifile.nodes
      ensures Here() == LineState(IniStore.NewSection(old(inifile.contents), content[start..start + length]),
                                  Some(content[start..start + length]), diagnostics)
      ensures Grown(old(inifile.nodes), inifile.nodes)
    {
      hide IniFile.Valid, IniStore.NewSection;
      assert content[start..][..length] == content[start..start + length];
      current := inifile.NewSection(content[start..], length);
      state := ExpectAssignment;
    }

    /** The token from `start` to the current position, without trailing blanks. */
    method ParseKeyOrValue(start: nat, complaint: Complaint) returns (ok: bool, length: nat)
      requires start <= pos <= |content| && (start < pos ==> !IsBlank(content[start]))
      requires forall k :: start <= k < pos ==> content[k] != NEWLINE
      modifies this`pos, this`diagnostics
      ensures ok <==> start < old(pos)
      ensures ok ==> pos == old(pos) + 1 && diagnostics == old(diagnostics)
      ensures ok ==> 0 < length && start + length <= old(pos)
                     && content[start..start + length] == TrimRight(content[start..old(pos)])
      ensures !ok ==> pos == old(pos) && diagnostics == old(diagnostics) + [Diagnostic(complaint, line)]
    {
      length := 0;
      if pos == start {
        Complain(complaint, line);
        return false, 0;
      }
      var temp := pos;
      pos := pos - 1;
      var _ := SkipSpacesReverse(start);
      length := pos + 1 - start;
      TrimmedLengthIs(content[start..temp], length);
      pos := temp + 1;
      ok := true;
    }

    /** Store a slice of the buffer, or an empty value if `valueLength` is 0. */
    method StoreSlice(keyStart: nat, keyLength: nat, valueStart: nat, valueLength: nat) returns (kv: KvPair?)
      requires inifile.Valid() && current != null && current in inifile.nodes
      requires 0 < keyLength && keyStart + keyLength <= |content| && valueStart + valueLength <= |content|
      modifies inifile, inifile.nodes, inifile.linked
      ensures inifile.Valid() && inifile.nodes == old(inifile.nodes) && fresh(inifile.linked - old(inifile.linked))
      ensures kv != null
      ensures Here() == old(Here()).Store(content[keyStart..keyStart + keyLength],
                                          CString(content[valueStart..valueStart + valueLength]))
    {
      hide PutIn, IniFile.Valid;
      PairsLinked(inifile, current);
      assert content[keyStart..][..keyLength] == content[keyStart..keyStart + keyLength];
      assert content[valueStart..][..valueLength] == content[valueStart..valueStart + valueLength];
      if valueLength == 0 {
        kv := inifile.SectionStoreEmptyValue(current, content[keyStart..], keyLength);
      } else {
        kv := inifile.SectionStoreValue(current, content[keyStart..], keyLength, content[valueStart..], valueLength);
      }
    }

    method InsertEmptyValueForKey(startOfKey: nat, lengthOfKey: nat) returns (ret: int)
      requires Valid() && state == ExpectAssignment && pos <= |content|
      requires 0 < lengthOfKey && startOfKey + lengthOfKey <= |content|
      modifies inifile, inifile.nodes, inifile.linked
      ensures Valid() && inifile.nodes == old(inifile.nodes) && fresh(inifile.linked - old(inifile.linked))
      ensures ret == 0
      ensures Here() == old(Here()).Store(content[startOfKey..startOfKey + lengthOfKey], "")
    {
      hide LineState.Store, IniFile.Valid, LineAt;
      var kv := StoreSlice(startOfKey, lengthOfKey, pos, 0);
      ret := if kv != null then 0 else -1;
    }

    /** Store the value that ends in front of the current position, without its trailing blanks. */
    method StoreTrimmed(startOfKey: nat, lengthOfKey: nat, startOfValue: nat) returns (kv: KvPair?)
      requires inifile.Valid() && current != null && current in inifile.nodes
      requires 0 < lengthOfKey && startOfKey + lengthOfKey <= |content|
      requires startOfValue < pos <= |content| && !IsBlank(content[startOfValue])
      requires forall k :: startOfValue <= k < pos ==> content[k] != NEWLINE
      modifies this`pos, this`diagnostics, inifile, inifile.nodes, inifile.linked
      ensures inifile.Valid() && inifile.nodes == old(inifile.nodes) && fresh(inifile.linked - old(inifile.linked))
      ensures kv != null && pos == old(pos) + 1
      ensures Here() == old(Here()).Store(content[startOfKey..startOfKey + lengthOfKey],
                                          CString(TrimRight(content[startOfValue..old(pos)])))
    {
      hide IniFile.Valid, LineState.Store, CString, TrimRight;
      var ok, lengthOfValue := ParseKeyOrValue(startOfValue, MissingKeyName);
      kv := StoreSlice(startOfKey, lengthOfKey, startOfValue, lengthOfValue);
    }

    method ParseNonemptyValue(startOfKey: nat, lengthOfKey: nat) returns (ret: int)
      requires Valid() && state == ExpectAssignment && pos < |content|
      requires !IsBlank(content[pos]) && content[pos] != NEWLINE
      requires 0 < lengthOfKey && startOfKey + lengthOfKey <= |content|
      modifies this`pos, this`line, this`diagnostics, inifile, inifile.nodes, inifile.linked
      ensures Valid() && state == ExpectAssignment && inifile.nodes == old(inifile.nodes)
      ensures fresh(inifile.linked - old(inifile.linked))
      ensures ret == 0 && old(pos) < pos
      ensures Outcome() ==
              SkipFrom(old(Here()).Store(content[startOfKey..startOfKey + lengthOfKey],
                                         CString(TrimRight(ThisLine(content[old(pos)..])))),
                       content[old(pos)..], old(line))
    {
      hide ParseFrom, HeaderFrom, SkipFrom, LineAt, IniFile.Valid, LineState.Store, CString, TrimRight, ThisLine, Newlines;
      ghost var p, n := pos, line;
      var startOfValue := pos;
      var skipped := SkipUntil(NEWLINE);
      if skipped == SkipEol {
        assert false;
      }
      ghost var q := pos;
      ValueEnd(old(Here()).Store(content[startOfKey..startOfKey + lengthOfKey], CString(TrimRight(content[p..q]))),
               content, p, q, n);
      var kv := StoreTrimmed(startOfKey, lengthOfKey, startOfValue);
      if skipped == SkipOk {
        LineStep(content, q);
        line := line + 1;
      }
      assert Rest() == if q < |content| then content[q + 1..] else "";
      assert Outcome() == ParseFrom(Here(), Rest(), line);
      hide Rest, Outcome;
      ret := if kv != null then 0 else -1;
    }

    method ParseAssignment() returns (ret: int)
      requires Valid() && state == ExpectAssignment && pos < |content|
      modifies this`pos, this`line, this`state, this`diagnostics, this`current
      modifies inifile, inifile.nodes, inifile.linked
      ensures Valid() && Progress(ret)
      ensures inifile.nodes == old(inifile.nodes) && fresh(inifile.linked - old(inifile.linked))
      ensures if ret == 0 then Outcome() == old(Outcome()) else SkipFrom(Here(), Rest(), line) == old(Outcome())
    {
      hide ParseFrom, HeaderFrom, SkipFrom, LineAt, IniFile.Valid, LineState.Store, IniLines.ParseAssignment, ThisLine;
      ghost var p, st, n := pos, Here(), line;
      var skipped := SkipSpaces();
      BlankRun(st, content, p, if skipped == SkipEol then pos - 1 else pos, n);
      match skipped {
        case SkipEof =>
          return 0;
        case SkipEol =>
          NewlineFrom(st, content[pos - 1..], n);
          assert content[pos - 1..][1..] == content[pos..];
          return 0;
        case SkipOk =>
      }
      if content[pos] == '[' {
        BracketFrom(st, content[pos..], n);
        current := null;
        state := ExpectSectionBegin;
        return 0;
      }
      ret := ParseKeyAndValue();
    }

    /** An assignment from its first non-blank character. */
    method ParseKeyAndValue() returns (ret: int)
      requires Valid() && state == ExpectAssignment && pos < |content|
      requires !IsBlank(content[pos]) && content[pos] != NEWLINE && content[pos] != '['
      modifies this`pos, this`line, this`diagnostics
      modifies inifile, inifile.nodes, inifile.linked
      ensures Valid() && state == ExpectAssignment && ret in {0, 1}
      ensures old(pos) <= pos && (ret == 0 ==> old(pos) < pos) && (ret == 1 ==> pos < |content|)
      ensures inifile.nodes == old(inifile.nodes) && fresh(inifile.linked - old(inifile.linked))
      ensures (if ret == 0 then Outcome() else SkipFrom(Here(), Rest(), line)) == old(Outcome())
    {
      hide ParseFrom, HeaderFrom, SkipFrom, LineAt, IniFile.Valid, LineState.Store, IniLines.ParseAssignment, ThisLine;
      ghost var st, n := Here(), line;
      var startOfKey := pos;
      var skipped := SkipUntil('=');
      match skipped {
        case SkipEof =>
          NoEqualsSign(st, content, startOfKey, pos, false, n);
          line := line + 1;
          Complain(MissingAssignment, line - 1);
          return 0;
        case SkipEol =>
          NoEqualsSign(st, content, startOfKey, pos, true, n);
          Complain(MissingAssignment, line - 1);
          return 0;
        case SkipOk =>
      }
      ret := ParseFromEqualsSign(startOfKey);
    }

    /** The key in front of the equals sign, and then the value. */
    method ParseFromEqualsSign(startOfKey: nat) returns (ret: int)
      requires Valid() && state == ExpectAssignment && startOfKey <= pos < |content| && content[pos] == '='
      requires StartsAssignment(Here(), content[startOfKey..])
      requires forall k :: startOfKey <= k < pos ==> content[k] != '=' && content[k] != NEWLINE
      modifies this`pos, this`line, this`diagnostics
      modifies inifile, inifile.nodes, inifile.linked
      ensures Valid() && state == ExpectAssignment && ret in {0, 1}
      ensures old(pos) <= pos && (ret == 0 ==> old(pos) < pos) && (ret == 1 ==> pos < |content|)
      ensures inifile.nodes == old(inifile.nodes) && fresh(inifile.linked - old(inifile.linked))
      ensures (if ret == 0 then Outcome() else SkipFrom(Here(), Rest(), line)) ==
              ParseFrom(old(Here()), content[startOfKey..], old(line))
    {
      hide ParseFrom, HeaderFrom, SkipFrom, LineAt, IniFile.Valid, LineState.Store, ThisLine, ValueIn, TrimRight;
      ghost var st, e, n := Here(), pos, line;
      LineStep(content, e);
      var ok, lengthOfKey := ParseKeyOrValue(startOfKey, MissingKeyName);
      if !ok {
        MissingKeyFrom(st, content[startOfKey..], n);
        return 1;
      }
      Assigned(st, content, startOfKey, e, n);
      ret := ParseValue(startOfKey, lengthOfKey);
    }

    /** What follows the equals sign. */
    method ParseValue(startOfKey: nat, lengthOfKey: nat) returns (ret: int)
      requires Valid() && state == ExpectAssignment && pos <= |content| && line == LineAt(content, pos)
      requires 0 < lengthOfKey && startOfKey + lengthOfKey <= pos
      modifies this`pos, this`line, this`diagnostics
      modifies inifile, inifile.nodes, inifile.linked
      ensures Valid() && state == ExpectAssignment && ret == 0 && old(pos) <= pos
      ensures inifile.nodes == old(inifile.nodes) && fresh(inifile.linked - old(inifile.linked))
      ensures Outcome() ==
              SkipFrom(old(Here()).Store(content[startOfKey..startOfKey + lengthOfKey], ValueIn(content[old(pos)..])),
                       content[old(pos)..], old(line))
    {
      hide ParseFrom, HeaderFrom, SkipFrom, LineAt, IniFile.Valid, LineState.Store, ThisLine, ValueIn;
      ghost var p, n := pos, line;
      var skipped := SkipSpaces();
      match skipped {
        case SkipEof =>
          BlankStored(content, p, pos, false, n);
          line := line + 1;
          ret := InsertEmptyValueForKey(startOfKey, lengthOfKey);
        case SkipEol =>
          BlankStored(content, p, pos, true, n);
          ret := InsertEmptyValueForKey(startOfKey, lengthOfKey);
        case SkipOk =>
          ghost var v := pos;
          NonBlankStored(content, p, v, n);
          ret := ParseNonemptyValue(startOfKey, lengthOfKey);
      }
    }

    // ----- the loop

    /** Run the handler of the current state, and skip the line if it asks for that. */
    method Step() returns (ret: int)
      requires Valid() && pos < |content|
      modifies this`pos, this`line, this`state, this`diagnostics, this`current
      modifies inifile, inifile.nodes, inifile.linked
      ensures Valid() && ret == 0 && Outcome() == old(Outcome())
      ensures Grown(old(inifile.nodes), inifile.nodes) && fresh(inifile.linked - old(inifile.linked))
      ensures old(pos) <= pos
      ensures pos == old(pos) ==> old(state) == ExpectAssignment && state == ExpectSectionBegin
    {
      hide ParseFrom, HeaderFrom, SkipFrom, LineAt, IniFile.Valid;
      match state {
        case ExpectSectionBegin => ret := ParseSectionBegin();
        case ExpectSectionName => ret := ParseSectionName();
        case ExpectAssignment => ret := ParseAssignment();
      }
      if ret == 1 {
        var _ := SkipLine();
        ret := 0;
      }
    }

    /** Every text is accepted, and what comes out is what its lines mean. */
    method ParseMemory() returns (ret: int)
      requires Valid()
      modifies this`pos, this`line, this`state, this`diagnostics, this`current
      modifies inifile, inifile.nodes, inifile.linked
      ensures Valid() && ret == 0 && Here() == old(Outcome())
      ensures forall i :: 0 <= i < |inifile.nodes| ==> inifile.nodes[i] in old(inifile.nodes) || fresh(inifile.nodes[i])
      ensures fresh(inifile.linked - old(inifile.linked))
    {
      hide ParseFrom, HeaderFrom, IniFile.Valid, LineAt;
      while pos < |content|
        invariant Valid() && Outcome() == old(Outcome())
        invariant forall i :: 0 <= i < |inifile.nodes| ==>
          inifile.nodes[i] in old(inifile.nodes) || fresh(inifile.nodes[i])
        invariant fresh(inifile.linked - old(inifile.linked))
        decreases |content| - pos, if state == ExpectAssignment then 1 else 0
      {
        ret := Step();
        if ret < 0 {
          return -1;
        }
      }
      assert Rest() == "";
      AtEnd(Here(), line);
      return 0;
    }
  }

  /** At the end of the text nothing is left to happen. */
  lemma AtEnd(st: LineState, line: nat)
    ensures ParseFrom(st, "", line) == st
    ensures HeaderFrom(st, "", line) == st.(current := None)
  {
    EmptyFrom(st, line);
  }

  /** `inifile_parse_from_memory`. */
  method ParseFromMemory(content: string) returns (file: IniFile, diagnostics: seq<Diagnostic>, ret: int)
    ensures ret == 0
    ensures fresh(file) && file.Valid() && fresh(file.linked)
    ensures forall i :: 0 <= i < |file.nodes| ==> fresh(file.nodes[i])
    ensures file.contents == Parse(content).doc && diagnostics == Parse(content).diagnostics
  {
    hide Parse, IniFile.Valid;
    var parser := new Parser(content);
    ret := parser.ParseMemory();
    file, diagnostics := parser.inifile, parser.diagnostics;
  }

  /** `inifile_parse_from_file`; a file that is missing or empty cannot be mapped to memory. */
  method ParseFromFile(content: Option<string>) returns (file: IniFile, ret: int)
    ensures ret == if content == None || content == Some("") then 1 else 0
    ensures fresh(file) && file.Valid() && fresh(file.linked)
    ensures forall i :: 0 <= i < |file.nodes| ==> fresh(file.nodes[i])
    ensures file.contents == if ret == 1 then [] else Parse(content.value).doc
  {
    if content == None || content == Some("") {
      file := new IniFile();
      return file, 1;
    }
    var diagnostics;
    file, diagnostics, ret := ParseFromMemory(content.value);
  }

  /** A line without an equals sign, up to where the scanner stopped. */
  lemma NoEqualsSign(st: LineState, content: string, p: nat, q: nat, eol: bool, line: nat)
    requires p < q <= |content| && StartsAssignment(st, content[p..])
    requires if eol then content[q - 1] == NEWLINE else q == |content|
    requires forall k :: p <= k < (if eol then q - 1 else q) ==> content[k] != '=' && content[k] != NEWLINE
    ensures ParseFrom(st, content[p..], line) ==
            ParseFrom(st.Complain(MissingAssignment, line), content[q..], line + 1)
  {
    hide ParseFrom, SkipFrom;
    var st' := st.Complain(MissingAssignment, line);
    if eol {
      SkipToEol(st', content, p, q, line);
    } else {
      SkipToEof(st', content, p, line);
      EmptyFrom(st', line + 1);
      assert content[q..] == "";
    }
    MissingAssignmentFrom(st, content[p..], line);
  }

  /** A line with a key: the rest of it decides what is stored. */
  lemma Assigned(st: LineState, content: string, p: nat, e: nat, line: nat)
    requires p < e < |content| && StartsAssignment(st, content[p..]) && content[e] == '='
    requires forall k :: p <= k < e ==> content[k] != '=' && content[k] != NEWLINE
    ensures ParseFrom(st, content[p..], line) ==
            SkipFrom(st.Store(TrimRight(content[p..e]), ValueIn(content[e + 1..])), content[e + 1..], line)
  {
    hide ParseFrom, SkipFrom, LineState.Store, ValueIn;
    assert content[p..][..e - p] == content[p..e];
    assert content[p..][e - p + 1..] == content[e + 1..];
    StoreFrom(st, content[p..], e - p, line);
  }

  lemma NonBlankStored(content: string, p: nat, v: nat, line: nat)
    requires p <= v < |content| && !IsBlank(content[v]) && content[v] != NEWLINE
    requires forall k :: p <= k < v ==> IsBlank(content[k])
    ensures ValueIn(content[p..]) == CString(TrimRight(ThisLine(content[v..])))
    ensures forall st :: SkipFrom(st, content[p..], line) == SkipFrom(st, content[v..], line)
  {
    hide ParseFrom, SkipFrom, ThisLine;
    assert content[p..][v - p..] == content[v..];
    NonBlankValue(content[p..], v - p);
    forall st ensures SkipFrom(st, content[p..], line) == SkipFrom(st, content[v..], line) {
      SkipRun(st, content, p, v, line);
    }
  }

  lemma BlankStored(content: string, p: nat, q: nat, eol: bool, line: nat)
    requires p <= q <= |content|
    requires if eol then p < q && content[q - 1] == NEWLINE else q == |content|
    requires forall k :: p <= k < (if eol then q - 1 else q) ==> IsBlank(content[k])
    ensures ValueIn(content[p..]) == ""
    ensures forall st :: SkipFrom(st, content[p..], line) == ParseFrom(st, content[q..], line + 1)
  {
    hide ParseFrom, SkipFrom, ValueIn;
    BlankRest(START, content, p, q, eol, line);
    forall st ensures SkipFrom(st, content[p..], line) == ParseFrom(st, content[q..], line + 1) {
      BlankRest(st, content, p, q, eol, line);
      if !eol {
        assert content[q..] == "";
        EmptyFrom(st, line + 1);
      }
    }
  }

  /** All pairs of a linked section are known to the file. */
  lemma PairsLinked(f: IniFile, s: SectionNode)
    requires f.Valid() && s in f.nodes
    ensures forall p :: p in s.pairs ==> p in f.linked
  {
    hide IniFile.Valid, Within, Represents;
    var i := f.PositionOf(s);
    WhatRepresents(s, f.contents[i], f.linked);
  }

  /** The value reaches up to `q`, which is where the line ends. */
  lemma ValueEnd(st: LineState, content: string, p: nat, q: nat, line: nat)
    requires p <= q <= |content| && (q < |content| ==> content[q] == NEWLINE)
    requires forall k :: p <= k < q ==> content[k] != NEWLINE
    ensures ThisLine(content[p..]) == content[p..q]
    ensures SkipFrom(st, content[p..], line) ==
            if q < |content| then ParseFrom(st, content[q + 1..], line + 1) else ParseFrom(st, "", line)
  {
    hide ParseFrom, SkipFrom;
    IndexOfIs(content[p..], NEWLINE, q - p);
    assert content[p..][..q - p] == content[p..q];
    if q < |content| {
      SkipToEol(st, content, p, q + 1, line);
    } else {
      SkipToEof(st, content, p, line);
      EmptyFrom(st, line);
    }
  }

  /** No section was dropped, and added ones are new objects. */
  twostate predicate Grown(before: seq<SectionNode>, new after: seq<SectionNode>) {
    before <= after && forall i :: |before| <= i < |after| ==> fresh(after[i])
  }

  /** The two ways a header with a name can go on. */
  lemma ClosedHeader(st: LineState, content: string, start: nat, length: nat, q: nat, pos: nat,
                     skipped: SkipResult, line: nat)
    requires 0 < length && q == start + length + 1 <= pos <= |content| && content[q - 1] == ']'
    requires forall k :: start <= k < q - 1 ==> content[k] != ']' && content[k] != NEWLINE
    requires forall k :: q <= k < (if skipped == SkipEol then pos - 1 else pos) ==> IsBlank(content[k])
    requires skipped == SkipOk ==> pos < |content| && !IsBlank(content[pos]) && content[pos] != NEWLINE
    requires skipped == SkipEol ==> q < pos && content[pos - 1] == NEWLINE
    requires skipped == SkipEof ==> pos == |content|
    ensures HeaderFrom(st, content[start..], line) ==
            if skipped == SkipOk then
              SkipFrom(st.(current := None).Complain(JunkAfterHeader, line), content[pos..], line)
            else
              ParseFrom(st.(doc := NewSection(st.doc, content[start..q - 1]), current := Some(content[start..q - 1])),
                        content[pos..], if skipped == SkipEol then line + 1 else line)
  {
    hide ParseFrom, HeaderFrom, SkipFrom, NewSection, ThisLine;
    assert content[start..][..length] == content[start..q - 1];
    assert content[start..][length + 1..] == content[q..];
    ClosedHeaderFrom(st, content[start..], length, line);
    if skipped == SkipOk {
      assert content[q..][pos - q..] == content[pos..];
      NonBlankValue(content[q..], pos - q);
      SkipRun(st.(current := None).Complain(JunkAfterHeader, line), content, q, pos, line);
    } else {
      BlankRest(st.(doc := NewSection(st.doc, content[start..q - 1]), current := Some(content[start..q - 1])),
                content, q, pos, skipped == SkipEol, line);
    }
  }

  /** Blanks from `p` to `q` do not change the outcome. */
  lemma BlankRun(st: LineState, content: string, p: nat, q: nat, line: nat)
    requires p <= q <= |content|
    requires forall k :: p <= k < q ==> IsBlank(content[k])
    ensures ParseFrom(st, content[q..], line) == ParseFrom(st, content[p..], line)
  {
    hide ParseFrom;
    assert content[p..][q - p..] == content[q..];
    BlanksFrom(st, content[p..], q - p, line);
  }

  lemma SkipRun(st: LineState, content: string, p: nat, q: nat, line: nat)
    requires p <= q <= |content|
    requires forall k :: p <= k < q ==> content[k] != NEWLINE
    ensures SkipFrom(st, content[q..], line) == SkipFrom(st, content[p..], line)
  {
    hide SkipFrom;
    assert content[p..][q - p..] == content[q..];
    SkipWithinLine(st, content[p..], q - p, line);
  }

  /** Reaching the end of the line, or of the text, by skipping. */
  lemma SkipToEol(st: LineState, content: string, p: nat, q: nat, line: nat)
    requires p < q <= |content| && content[q - 1] == NEWLINE
    requires forall k :: p <= k < q - 1 ==> content[k] != NEWLINE
    ensures IndexOf(content[p..], NEWLINE) == q - 1 - p
    ensures SkipFrom(st, content[p..], line) == ParseFrom(st, content[q..], line + 1)
  {
    hide ParseFrom;
    IndexOfIs(content[p..], NEWLINE, q - 1 - p);
    assert content[p..][q - p..] == content[q..];
  }

  lemma SkipToEof(st: LineState, content: string, p: nat, line: nat)
    requires p <= |content|
    requires forall k :: p <= k < |content| ==> content[k] != NEWLINE
    ensures IndexOf(content[p..], NEWLINE) == |content| - p
    ensures SkipFrom(st, content[p..], line) == st
  {
    hide ParseFrom;
    IndexOfIs(content[p..], NEWLINE, |content| - p);
  }

  lemma UnclosedAtEof(st: LineState, content: string, p: nat, line: nat)
    requires p < |content|
    requires forall k :: p <= k < |content| ==> content[k] != ']' && content[k] != NEWLINE
    ensures var st' := st.(current := None).Complain(EndOfFileInHeader, line);
      HeaderFrom(st, content[p..], line) == st' == ParseFrom(st', content[|content|..], line)
  {
    hide ParseFrom, HeaderFrom, SkipFrom;
    var st' := st.(current := None).Complain(EndOfFileInHeader, line);
    SkipToEof(st', content, p, line);
    UnclosedHeaderFrom(st, content[p..], line);
    EmptyFrom(st', line);
    assert content[|content|..] == "";
  }

  lemma UnclosedAtEol(st: LineState, content: string, p: nat, q: nat, line: nat)
    requires p < q <= |content| && content[q - 1] == NEWLINE
    requires forall k :: p <= k < q - 1 ==> content[k] != ']' && content[k] != NEWLINE
    ensures HeaderFrom(st, content[p..], line) ==
            ParseFrom(st.(current := None).Complain(EndOfLineInHeader, line), content[q..], line + 1)
  {
    hide ParseFrom, HeaderFrom, SkipFrom;
    SkipToEol(st.(current := None).Complain(EndOfLineInHeader, line), content, p, q, line);
    UnclosedHeaderFrom(st, content[p..], line);
  }

  /** Nothing but blanks up to where the scanner stopped. */
  lemma BlankRest(st: LineState, content: string, p: nat, q: nat, eol: bool, line: nat)
    requires p <= q <= |content|
    requires if eol then p < q && content[q - 1] == NEWLINE else q == |content|
    requires forall k :: p <= k < (if eol then q - 1 else q) ==> IsBlank(content[k])
    ensures SkipBlanks(ThisLine(content[p..])) == "" && ValueIn(content[p..]) == ""
    ensures SkipFrom(st, content[p..], line) == ParseFrom(st, content[q..], if eol then line + 1 else line)
    ensures !eol ==> SkipFrom(st, content[p..], line) == st
  {
    hide ParseFrom, SkipFrom, ThisLine, ValueIn;
    if eol {
      SkipToEol(st, content, p, q, line);
    } else {
      SkipToEof(st, content, p, line);
      assert content[q..] == "";
      EmptyFrom(st, line);
    }
    BlankValue(content[p..]);
  }
}
