/** Writing an INI structure to a file, walking the linked lists. */
module IniWriter {
  import opened Wrappers
  import opened Text
  import opened IniStore
  import opened IniPrint
  import opened IniLists
  import opened IniFiles
  import opened OsWrite

  /** What the operating system is going to allow during one write. */
  datatype Environment = Environment(creatable: bool, deletable: bool, schedule: seq<Answer>)

  /** A place in the file system. */
  class Target {
    var content: Option<string>
    /** What was in the file when its deletion was last requested. */
    ghost var abandoned: Option<string>

    constructor (content: Option<string>)
      ensures this.content == content && abandoned == None
    {
      this.content := content;
      this.abandoned := None;
    }
  }

  /** `text` was written behind `before`, or a proper prefix of it if `ok` is false. */
  ghost predicate Emitted(before: string, text: string, after: string, ok: bool) {
    if ok then after == before + text else before <= after < before + text
  }

  lemma EmittedThen(before: string, a: string, middle: string, b: string, after: string, ok: bool)
    requires Emitted(before, a, middle, true) && Emitted(middle, b, after, ok)
    ensures Emitted(before, a + b, after, ok)
  {
    assert before + (a + b) == before + a + b;
  }

  lemma EmittedShort(before: string, a: string, after: string, b: string)
    requires Emitted(before, a, after, false)
    ensures Emitted(before, a + b, after, false)
  {
    assert before + (a + b) == before + a + b;
  }

  lemma EmittedFromEmpty(text: string, after: string, ok: bool)
    requires Emitted("", text, after, ok)
    ensures if ok then after == text else after < text
  {
    assert "" + text == text;
  }

  method WritePiece(d: Descriptor, text: string) returns (ok: bool)
    modifies d
    ensures Emitted(old(d.written), text, d.written, ok)
    ensures Failed !in old(d.schedule) ==> ok && Failed !in d.schedule
  {
    var ret := d.WriteFromBuffer(text);
    ok := 0 <= ret;
  }

  method WritePair(kv: KvPair, d: Descriptor) returns (ok: bool)
    modifies d
    ensures Emitted(old(d.written), PrintEntry(Entry(kv.key, kv.value)), d.written, ok)
    ensures Failed !in old(d.schedule) ==> ok && Failed !in d.schedule
  {
    hide Emitted;
    ghost var w0 := d.written;
    var value := CString(kv.value);
    ok := WritePiece(d, kv.key);
    ghost var text := kv.key;
    if ok {
      ghost var w := d.written;
      ok := WritePiece(d, " = ");
      EmittedThen(w0, text, w, " = ", d.written, ok);
      text := text + " = ";
      if ok && |value| > 0 {
        w := d.written;
        ok := WritePiece(d, value);
        EmittedThen(w0, text, w, value, d.written, ok);
        text := text + value;
      }
      if ok {
        w := d.written;
        ok := WritePiece(d, "\n");
        EmittedThen(w0, text, w, "\n", d.written, ok);
        text := text + "\n";
        assert text == kv.key + " = " + value + "\n";
      }
    }
    if !ok {
      PairPrefix(w0, text, d.written, Entry(kv.key, kv.value));
    }
  }

  lemma PairPrefix(before: string, text: string, after: string, e: Entry)
    requires Emitted(before, text, after, false) && text <= PrintEntry(e)
    ensures Emitted(before, PrintEntry(e), after, false)
  {
    var rest := PrintEntry(e)[|text|..];
    assert text + rest == PrintEntry(e);
    EmittedShort(before, text, after, rest);
  }

  method WriteSection(s: SectionNode, d: Descriptor) returns (ok: bool)
    requires s.Valid()
    modifies d
    ensures Emitted(old(d.written), PrintSection(Section(s.name, s.Entries())), d.written, ok)
    ensures Failed !in old(d.schedule) ==> ok && Failed !in d.schedule
  {
    hide Emitted, PrintEntries, PrintEntry;
    ghost var w0, entries := d.written, s.Entries();
    ghost var header := "[" + s.name + "]\n";
    ok := WriteHeader(s.name, d);
    if !ok {
      EmittedShort(w0, header, d.written, PrintEntries(entries));
      return;
    }
    var kv := s.valuesHead;
    ghost var i := 0;
    NoEntries(entries);
    assert header + "" == header;
    while kv != null
      invariant ok && s.Valid() && s.Entries() == entries
      invariant Failed !in old(d.schedule) ==> Failed !in d.schedule
      invariant i <= |s.pairs| && kv == s.PairAt(i)
      invariant Emitted(w0, header + PrintEntries(entries[..i]), d.written, true)
      decreases |s.pairs| - i
    {
      ghost var w := d.written;
      ok := WritePair(kv, d);
      PairWritten(w0, header, entries, i, w, d.written, ok);
      if !ok {
        return;
      }
      kv := kv.next;
      i := i + 1;
    }
    assert entries[..i] == entries;
  }

  /** One more pair is out, or the writing ended within it. */
  lemma PairWritten(w0: string, header: string, entries: seq<Entry>, i: nat, w: string, after: string, ok: bool)
    requires i < |entries|
    requires Emitted(w0, header + PrintEntries(entries[..i]), w, true)
    requires Emitted(w, PrintEntry(entries[i]), after, ok)
    ensures ok ==> Emitted(w0, header + PrintEntries(entries[..i + 1]), after, true)
    ensures !ok ==> Emitted(w0, header + PrintEntries(entries), after, false)
  {
    hide Emitted, PrintEntries, PrintEntry;
    EmittedThen(w0, header + PrintEntries(entries[..i]), w, PrintEntry(entries[i]), after, ok);
    PrintEntriesUpTo(entries, i);
    assert header + PrintEntries(entries[..i]) + PrintEntry(entries[i]) == header + PrintEntries(entries[..i + 1]);
    if !ok {
      PrintEntriesSplit(entries, i + 1);
      assert header + PrintEntries(entries) == header + PrintEntries(entries[..i + 1]) + PrintEntries(entries[i + 1..]);
      EmittedShort(w0, header + PrintEntries(entries[..i + 1]), after, PrintEntries(entries[i + 1..]));
    }
  }

  lemma NoEntries(entries: seq<Entry>)
    ensures PrintEntries(entries[..0]) == ""
  {
  }

  method WriteHeader(name: string, d: Descriptor) returns (ok: bool)
    modifies d
    ensures Emitted(old(d.written), "[" + name + "]\n", d.written, ok)
    ensures Failed !in old(d.schedule) ==> ok && Failed !in d.schedule
  {
    hide Emitted;
    ghost var w0 := d.written;
    ghost var text := "[";
    ok := WritePiece(d, "[");
    if ok {
      ghost var w := d.written;
      ok := WritePiece(d, name);
      EmittedThen(w0, text, w, name, d.written, ok);
      text := text + name;
      if ok {
        w := d.written;
        ok := WritePiece(d, "]\n");
        EmittedThen(w0, text, w, "]\n", d.written, ok);
        text := text + "]\n";
      }
    }
    if !ok {
      ghost var all := "[" + name + "]\n";
      assert all == text + all[|text|..];
      EmittedShort(w0, text, d.written, all[|text|..]);
    }
  }

  method WriteSections(file: IniFile, d: Descriptor) returns (ok: bool)
    requires file.Valid()
    modifies d
    ensures Emitted(old(d.written), Print(file.contents), d.written, ok)
    ensures Failed !in old(d.schedule) ==> ok && Failed !in d.schedule
  {
    hide Emitted, Print, PrintSection, SectionNode.Valid;
    ghost var w0, doc := d.written, file.contents;
    var s := file.sectionsHead;
    ghost var i := 0;
    NoSections(doc, w0);
    ok := true;
    while s != null
      invariant ok && file.Valid() && file.contents == doc
      invariant Failed !in old(d.schedule) ==> Failed !in d.schedule
      invariant i <= |file.nodes| && s == file.NodeAt(i)
      invariant Emitted(w0, Print(doc[..i]), d.written, true)
      decreases |file.nodes| - i
    {
      ghost var w := d.written;
      ok := WriteSection(s, d);
      EmittedThen(w0, Print(doc[..i]), w, PrintSection(doc[i]), d.written, ok);
      PrintSplit(doc, i);
      if !ok {
        PrintSplit(doc, i + 1);
        EmittedShort(w0, Print(doc[..i + 1]), d.written, Print(doc[i + 1..]));
        return;
      }
      s := s.next;
      i := i + 1;
    }
    assert doc[..i] == doc;
  }

  lemma NoSections(doc: Doc, w: string)
    ensures Print(doc[..0]) == "" && Emitted(w, "", w, true)
  {
  }

  /**
   `inifile_write_to_file`: either the printed form is in the file, or the file
   could not be created and is as it was, or a proper prefix of the printed form
   was in it when its deletion was requested.
   */
  method WriteToFile(file: IniFile, target: Target, env: Environment) returns (ret: int)
    requires file.Valid()
    modifies target
    ensures ret == 0 || ret == -1
    ensures ret == 0 ==> target.content == Some(Print(file.contents)) && target.abandoned == old(target.abandoned)
    ensures !env.creatable ==>
      ret == -1 &&
      target.content == old(target.content) && target.abandoned == old(target.abandoned)
    ensures ret == -1 && env.creatable ==>
      && target.abandoned.Some? && target.abandoned.value < Print(file.contents)
      && target.content == if env.deletable then None else target.abandoned
    ensures env.creatable && Failed !in env.schedule ==> ret == 0
  {
    hide Print, Emitted, IniFile.Valid;
    if !env.creatable {
      return -1;
    }
    target.content := Some("");
    var d := new Descriptor(env.schedule);
    var ok := WriteSections(file, d);
    EmittedFromEmpty(Print(file.contents), d.written, ok);
    target.content := Some(d.written);
    if ok {
      return 0;
    }
    target.abandoned := target.content;
    if env.deletable {
      target.content := None;
    }
    return -1;
  }
}
