/**
 What a text means, read off its lines without running the parser: which section a
 line is in, what it assigns, and what is wrong with it.  The parser is proved to
 agree, for every text.
 */
module IniMeaning {
  import opened Wrappers
  import opened Text
  import opened IniStore
  import opened IniLines
  import opened IniRecovery

  /** The state after the first `n` lines. */
  function UpTo(lines: seq<string>, n: nat): LineState
    requires n <= |lines|
  {
    if n == 0 then START else ParseLine(UpTo(lines, n - 1), lines[n - 1], n, n == |lines|)
  }

  lemma {:induction false} FoldUpTo(lines: seq<string>, n: nat)
    requires n <= |lines|
    ensures Fold(UpTo(lines, n), lines[n..], n + 1) == UpTo(lines, |lines|)
    decreases |lines| - n
  {
    hide ParseLine;
    if n < |lines| {
      assert lines[n..][1..] == lines[n + 1..];
      FoldUpTo(lines, n + 1);
    }
  }

  lemma ParseIsUpTo(text: string)
    ensures Parse(text) == UpTo(Lines(text), |Lines(text)|)
  {
    hide ParseLine, UpTo;
    FoldUpTo(Lines(text), 0);
    assert Lines(text)[0..] == Lines(text);
    assert UpTo(Lines(text), 0) == START by { NothingYet(Lines(text)); }
  }

  lemma NothingYet(lines: seq<string>)
    ensures UpTo(lines, 0) == START
  {
  }

  /** The section that is open behind the first `n` lines: that of the last header, if it is a good one. */
  function Governing(lines: seq<string>, n: nat): Option<string>
    requires n <= |lines|
  {
    if n == 0 then None
    else if OpeningLine(lines[n - 1]) then
      var header := SkipBlanks(lines[n - 1])[1..];
      Some(header[..IndexOf(header, ']')])
    else if IsHeaderLine(lines[n - 1]) then None
    else Governing(lines, n - 1)
  }

  /** What is wrong with line `n`, counted from 0. */
  function Fault(lines: seq<string>, n: nat): Option<Complaint>
    requires n < |lines|
  {
    var t := SkipBlanks(lines[n]);
    if t == "" then None
    else if t[0] == '[' then HeaderFault(t[1..], n == |lines| - 1)
    else if Governing(lines, n) == None then Some(JunkOutsideSection)
    else AssignmentFault(t)
  }

  datatype Assignment = Assignment(section: string, key: string, value: string)

  /** What line `n` assigns: only a line inside of a section does, with a key in front of an equals sign. */
  function Assigns(lines: seq<string>, n: nat): Option<Assignment>
    requires n < |lines|
  {
    var t := SkipBlanks(lines[n]);
    var i := IndexOf(t, '=');
    if IsHeaderLine(lines[n]) || Governing(lines, n) == None || i == 0 || i == |t| then None
    else Some(Assignment(Governing(lines, n).value, TrimRight(t[..i]), CString(TrimRight(SkipBlanks(t[i + 1..])))))
  }

  function EntriesOf(doc: Doc, section: string): seq<Entry> {
    var i := FindSection(doc, section);
    if i < |doc| then doc[i].entries else []
  }

  // ----- one line

  lemma NewSectionEntries(doc: Doc, name: string, section: string)
    ensures EntriesOf(NewSection(doc, name), section) == EntriesOf(doc, section)
  {
    var after := NewSection(doc, name);
    var i := FindSection(doc, section);
    FindSectionIs(after, section, if i < |doc| then i else if section == name then |doc| else |after|);
  }

  lemma PutInEntries(doc: Doc, name: string, key: string, value: string, section: string)
    requires FindSection(doc, name) < |doc|
    ensures var after := PutIn(doc, name, key, value);
      && FindSection(after, name) < |after|
      && EntriesOf(after, section) ==
         if section == name then Put(EntriesOf(doc, section), key, value) else EntriesOf(doc, section)
  {
    hide Put;
    var after := PutIn(doc, name, key, value);
    FindSectionIs(after, name, FindSection(doc, name));
    FindSectionIs(after, section, FindSection(doc, section));
  }

  /** The section that is open is there. */
  ghost predicate Settled(lines: seq<string>, n: nat)
    requires n <= |lines|
  {
    var st := UpTo(lines, n);
    && st.current == Governing(lines, n)
    && (st.current.Some? ==> FindSection(st.doc, st.current.value) < |st.doc|)
  }

  /** What line `n` does to the entries of a section. */
  function Effect(lines: seq<string>, n: nat, section: string, before: seq<Entry>): seq<Entry>
    requires n < |lines|
  {
    match Assigns(lines, n)
    case Some(a) => if a.section == section then Put(before, a.key, a.value) else before
    case None => before
  }

  lemma LineExactly(lines: seq<string>, n: nat, section: string)
    requires n < |lines| && Settled(lines, n)
    ensures var before, after := UpTo(lines, n), UpTo(lines, n + 1);
      && Settled(lines, n + 1)
      && after.diagnostics == before.diagnostics + Reports(Fault(lines, n), n + 1)
      && EntriesOf(after.doc, section) == Effect(lines, n, section, EntriesOf(before.doc, section))
  {
    if IsHeaderLine(lines[n]) {
      HeaderLineExactly(lines, n, section);
    } else if Governing(lines, n).Some? {
      AssignmentLineExactly(lines, n, section);
    }
  }

  lemma HeaderLineExactly(lines: seq<string>, n: nat, section: string)
    requires n < |lines| && Settled(lines, n) && IsHeaderLine(lines[n])
    ensures var before, after := UpTo(lines, n), UpTo(lines, n + 1);
      && Settled(lines, n + 1)
      && after.diagnostics == before.diagnostics + Reports(Fault(lines, n), n + 1)
      && EntriesOf(after.doc, section) == EntriesOf(before.doc, section)
      && Assigns(lines, n) == None
  {
    hide ParseLine, EntriesOf, OpensSection, HeaderFault;
    var before, after := UpTo(lines, n), UpTo(lines, n + 1);
    HeaderExactly(before, lines[n], n + 1, n == |lines| - 1);
    if after.current.Some? {
      NewSectionEntries(before.doc, after.current.value, section);
    }
  }

  lemma AssignmentLineExactly(lines: seq<string>, n: nat, section: string)
    requires n < |lines| && Settled(lines, n) && !IsHeaderLine(lines[n]) && Governing(lines, n).Some?
    ensures var before, after := UpTo(lines, n), UpTo(lines, n + 1);
      && Settled(lines, n + 1)
      && after.diagnostics == before.diagnostics + Reports(Fault(lines, n), n + 1)
      && EntriesOf(after.doc, section) == Effect(lines, n, section, EntriesOf(before.doc, section))
  {
    hide UpTo, Assigns, Governing, EntriesOf, Fault, PutIn, Put;
    AfterAssignment(lines, n);
    if Assigns(lines, n).Some? {
      var a := Assigns(lines, n).value;
      PutInEntries(UpTo(lines, n).doc, a.section, a.key, a.value, section);
    }
  }

  lemma AfterAssignment(lines: seq<string>, n: nat)
    requires n < |lines| && !IsHeaderLine(lines[n]) && Governing(lines, n).Some?
    requires UpTo(lines, n).current == Governing(lines, n)
    ensures Governing(lines, n + 1) == Governing(lines, n)
    ensures var before, after, stored := UpTo(lines, n), UpTo(lines, n + 1), Assigns(lines, n);
      && after.current == before.current
      && after.diagnostics == before.diagnostics + Reports(Fault(lines, n), n + 1)
      && after.doc == (if stored.Some? then PutIn(before.doc, stored.value.section, stored.value.key, stored.value.value)
                       else before.doc)
      && (stored.Some? ==> Some(stored.value.section) == Governing(lines, n))
  {
    hide ParseLine, AssignmentFault, PutIn, TrimRight, CString;
    AssignmentExactly(UpTo(lines, n), lines[n], n + 1, n == |lines| - 1);
  }

  lemma {:induction false} AlwaysSettled(lines: seq<string>, n: nat)
    requires n <= |lines|
    ensures Settled(lines, n)
  {
    hide *;
    if n == 0 {
      SettledAtFirst(lines);
    } else {
      AlwaysSettled(lines, n - 1);
      LineExactly(lines, n - 1, "");
    }
  }

  lemma SettledAtFirst(lines: seq<string>)
    ensures Settled(lines, 0)
  {
  }

  lemma EntriesAfter(lines: seq<string>, n: nat, section: string)
    requires n < |lines|
    ensures EntriesOf(UpTo(lines, n + 1).doc, section) ==
            Effect(lines, n, section, EntriesOf(UpTo(lines, n).doc, section))
  {
    hide ParseLine, UpTo, EntriesOf, Effect;
    AlwaysSettled(lines, n);
    LineExactly(lines, n, section);
  }

  // ----- diagnostics

  /** `ds` reports lines up to `n`, in order and none twice. */
  ghost predicate InOrder(ds: seq<Diagnostic>, n: nat) {
    && (forall i :: 0 <= i < |ds| ==> 1 <= ds[i].line <= n)
    && (forall i, j :: 0 <= i < j < |ds| ==> ds[i].line < ds[j].line)
  }

  /** `ds` holds the faults of the first `n` lines, and nothing else. */
  ghost predicate ReportsFaults(ds: seq<Diagnostic>, lines: seq<string>, n: nat)
    requires n <= |lines|
  {
    && InOrder(ds, n)
    && (forall d :: d in ds ==> Fault(lines, d.line - 1) == Some(d.complaint))
    && (forall k :: 0 <= k < n && Fault(lines, k).Some? ==> Diagnostic(Fault(lines, k).value, k + 1) in ds)
  }

  lemma {:induction false} FaultsReported(lines: seq<string>, n: nat)
    requires n <= |lines|
    ensures ReportsFaults(UpTo(lines, n).diagnostics, lines, n)
  {
    hide ParseLine, Fault, Settled, Reports;
    if n > 0 {
      hide InOrder;
      FaultsReported(lines, n - 1);
      AlwaysSettled(lines, n - 1);
      LineExactly(lines, n - 1, "");
      OneMoreFault(UpTo(lines, n - 1).diagnostics, lines, n - 1);
    }
  }

  lemma OneMoreFault(ds: seq<Diagnostic>, lines: seq<string>, n: nat)
    requires n < |lines| && ReportsFaults(ds, lines, n)
    ensures ReportsFaults(ds + Reports(Fault(lines, n), n + 1), lines, n + 1)
  {
    hide Fault;
    if Fault(lines, n).Some? {
      FaultReported(ds, lines, n, Diagnostic(Fault(lines, n).value, n + 1));
    } else {
      assert ds + [] == ds;
    }
  }

  lemma FaultReported(ds: seq<Diagnostic>, lines: seq<string>, n: nat, d: Diagnostic)
    requires n < |lines| && ReportsFaults(ds, lines, n)
    requires d.line == n + 1 && Fault(lines, n) == Some(d.complaint)
    ensures ReportsFaults(ds + [d], lines, n + 1)
  {
    hide Fault;
    var all := ds + [d];
    assert all[|ds|] == d;
    forall x | x in all ensures x in ds || x == d {
    }
  }

  /** A line is reported if and only if it is faulty where it stands: once, in order, with its own complaint. */
  lemma DiagnosticsNameLines(text: string)
    ensures var ds, lines := Parse(text).diagnostics, Lines(text);
      && InOrder(ds, |lines|)
      && forall k, c :: 0 <= k < |lines| ==> (Diagnostic(c, k + 1) in ds <==> Fault(lines, k) == Some(c))
  {
    hide Parse, Fault, UpTo;
    ParseIsUpTo(text);
    FaultsReported(Lines(text), |Lines(text)|);
  }

  // ----- values

  /** Line `n` assigns to this key of this section. */
  predicate AssignsTo(lines: seq<string>, n: nat, section: string, key: string)
    requires n < |lines|
  {
    Assigns(lines, n).Some? && Assigns(lines, n).value.section == section && Assigns(lines, n).value.key == key
  }

  /** Of the first `n` lines, `k` is the last that assigns to the key. */
  ghost predicate LastOf(lines: seq<string>, n: nat, section: string, key: string, k: nat)
    requires n <= |lines|
  {
    k < n && AssignsTo(lines, k, section, key) && forall m :: k < m < n ==> !AssignsTo(lines, m, section, key)
  }

  ghost predicate FirstOf(lines: seq<string>, n: nat, section: string, key: string, k: nat)
    requires n <= |lines|
  {
    k < n && AssignsTo(lines, k, section, key) && forall m :: 0 <= m < k ==> !AssignsTo(lines, m, section, key)
  }

  lemma {:induction false} ValueAfter(lines: seq<string>, n: nat, section: string, key: string)
    requires n <= |lines|
    ensures var found := Lookup(EntriesOf(UpTo(lines, n).doc, section), key);
      && (found.Some? <==> exists k :: 0 <= k < n && AssignsTo(lines, k, section, key))
      && (forall k :: LastOf(lines, n, section, key, k) ==> found == Some(Assigns(lines, k).value.value))
  {
    hide ParseLine, Assigns, Lookup, Put, EntriesOf;
    if n == 0 {
      NothingFound(key, section);
    } else {
      ValueAfter(lines, n - 1, section, key);
      EntriesAfter(lines, n - 1, section);
      var before := EntriesOf(UpTo(lines, n - 1).doc, section);
      if Assigns(lines, n - 1).Some? {
        LookupAfterPut(before, Assigns(lines, n - 1).value.key, Assigns(lines, n - 1).value.value, key);
      }
      if AssignsTo(lines, n - 1, section, key) {
        assert forall k :: LastOf(lines, n, section, key, k) ==> k == n - 1;
      } else {
        forall k | LastOf(lines, n, section, key, k) ensures LastOf(lines, n - 1, section, key, k) {
        }
      }
    }
  }

  lemma NothingFound(key: string, section: string)
    ensures EntriesOf([], section) == [] && Lookup(EntriesOf([], section), key) == None
  {
  }

  /**
   Whatever else the text says: a key is in a section exactly if some line assigns
   to it there, and its value is that of the last such line.
   */
  lemma LastAssignmentWins(text: string, section: string, key: string)
    ensures var lines := Lines(text);
      var found := Lookup(EntriesOf(Parse(text).doc, section), key);
      && (found.Some? <==> exists k :: 0 <= k < |lines| && AssignsTo(lines, k, section, key))
      && (found.Some? ==>
            exists k :: LastOf(lines, |lines|, section, key, k) && found == Some(Assigns(lines, k).value.value))
      && (forall k :: 0 <= k < |lines| && AssignsTo(lines, k, section, key)
                      && (forall m :: k < m < |lines| ==> !AssignsTo(lines, m, section, key))
                      ==> found == Some(Assigns(lines, k).value.value))
  {
    hide Parse, UpTo, Assigns, Lookup, EntriesOf;
    ParseIsUpTo(text);
    var lines := Lines(text);
    ValueAfter(lines, |lines|, section, key);
    ThereIsALast(lines, |lines|, section, key);
    forall k: nat | k < |lines| && AssignsTo(lines, k, section, key)
                    && (forall m :: k < m < |lines| ==> !AssignsTo(lines, m, section, key))
      ensures LastOf(lines, |lines|, section, key, k)
    {
    }
  }

  lemma {:induction false} ThereIsALast(lines: seq<string>, n: nat, section: string, key: string)
    requires n <= |lines|
    ensures (exists k :: 0 <= k < n && AssignsTo(lines, k, section, key)) ==> exists k :: LastOf(lines, n, section, key, k)
  {
    hide AssignsTo;
    if n > 0 {
      if AssignsTo(lines, n - 1, section, key) {
        assert LastOf(lines, n, section, key, n - 1);
      } else {
        ThereIsALast(lines, n - 1, section, key);
        if k :| 0 <= k < n - 1 && AssignsTo(lines, k, section, key) {
          var last :| LastOf(lines, n - 1, section, key, last);
          assert LastOf(lines, n, section, key, last);
        }
      }
    }
  }

  // ----- positions

  lemma PositionAfterPut(entries: seq<Entry>, key: string, value: string, other: string)
    ensures FindKey(Put(entries, key, value), other) ==
            if FindKey(entries, other) < |entries| then FindKey(entries, other)
            else if other == key then |entries|
            else |Put(entries, key, value)|
    ensures |Put(entries, key, value)| == |entries| + if FindKey(entries, key) < |entries| then 0 else 1
  {
    var after := Put(entries, key, value);
    FindKeyIs(after, other, if FindKey(entries, other) < |entries| then FindKey(entries, other)
                            else if other == key then |entries| else |after|);
  }

  lemma {:induction false} PositionsAfter(lines: seq<string>, n: nat, section: string, a: string, b: string, i: nat, j: nat)
    requires n <= |lines| && FirstOf(lines, n, section, a, i) && FirstOf(lines, n, section, b, j) && i < j
    ensures var entries := EntriesOf(UpTo(lines, n).doc, section);
      FindKey(entries, a) < FindKey(entries, b) < |entries|
  {
    hide ParseLine, Assigns, Put, EntriesOf, FindKey;
    var before := EntriesOf(UpTo(lines, n - 1).doc, section);
    EntriesAfter(lines, n - 1, section);
    if Assigns(lines, n - 1).Some? {
      var last := Assigns(lines, n - 1).value;
      PositionAfterPut(before, last.key, last.value, a);
      PositionAfterPut(before, last.key, last.value, b);
    }
    KeyIsThere(lines, n - 1, section, a);
    KeyIsThere(lines, n - 1, section, b);
    if j < n - 1 {
      PositionsAfter(lines, n - 1, section, a, b, i, j);
    }
  }

  lemma KeyIsThere(lines: seq<string>, n: nat, section: string, key: string)
    requires n <= |lines|
    ensures var entries := EntriesOf(UpTo(lines, n).doc, section);
      FindKey(entries, key) < |entries| <==> exists k :: 0 <= k < n && AssignsTo(lines, k, section, key)
  {
    hide UpTo, Assigns, EntriesOf;
    ValueAfter(lines, n, section, key);
  }

  /** The keys of a section stand in the order of the lines that first assign to them. */
  lemma FirstAssignmentPlaces(text: string, section: string, a: string, b: string, i: nat, j: nat)
    requires i < |Lines(text)| && AssignsTo(Lines(text), i, section, a)
    requires j < |Lines(text)| && AssignsTo(Lines(text), j, section, b)
    requires forall m :: 0 <= m < i ==> !AssignsTo(Lines(text), m, section, a)
    requires forall m :: 0 <= m < j ==> !AssignsTo(Lines(text), m, section, b)
    ensures var entries := EntriesOf(Parse(text).doc, section);
      && FindKey(entries, a) < |entries| && FindKey(entries, b) < |entries|
      && (FindKey(entries, a) < FindKey(entries, b) <==> i < j)
  {
    hide Parse, UpTo, Assigns, EntriesOf, FindKey;
    var lines := Lines(text);
    assert FirstOf(lines, |lines|, section, a, i) && FirstOf(lines, |lines|, section, b, j);
    ParseIsUpTo(text);
    KeyIsThere(lines, |lines|, section, a);
    KeyIsThere(lines, |lines|, section, b);
    if i < j {
      PositionsAfter(lines, |lines|, section, a, b, i, j);
    } else if j < i {
      PositionsAfter(lines, |lines|, section, b, a, j, i);
    }
  }
}
