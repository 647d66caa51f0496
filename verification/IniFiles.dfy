/** The list of sections, and the operations on a whole INI structure. */
module IniFiles {
  import opened Text
  import opened IniStore
  import opened IniLists

  ghost predicate DistinctNames(nodes: seq<SectionNode>) {
    forall i, j :: 0 <= i < j < |nodes| ==> nodes[i].name != nodes[j].name
  }

  /** Section `n` is a proper list that reads as `s`. */
  ghost predicate Represents(n: SectionNode, s: Section)
    reads n`valuesHead, n`valuesTail, n`pairs, n.pairs
  {
    n.Valid() && n.name == s.name && n.Entries() == s.entries
  }

  ghost predicate Within(n: SectionNode, linked: set<KvPair>)
    reads n`pairs
  {
    forall p :: p in n.pairs ==> p in linked
  }

  ghost predicate AllRepresent(nodes: seq<SectionNode>, doc: Doc, linked: set<KvPair>)
    reads nodes`valuesHead, nodes`valuesTail, nodes`pairs, linked
  {
    && |nodes| == |doc|
    && forall i :: 0 <= i < |nodes| ==> Within(nodes[i], linked) && Represents(nodes[i], doc[i])
  }

  lemma AllRepresentAppend(nodes: seq<SectionNode>, doc: Doc, linked: set<KvPair>, n: SectionNode, s: Section)
    requires AllRepresent(nodes, doc, linked) && Within(n, linked) && Represents(n, s)
    ensures AllRepresent(nodes + [n], doc + [s], linked)
  {
    hide Represents;
  }

  class IniFile {
    var sectionsHead: SectionNode?
    var sectionsTail: SectionNode?
    /** The linked sections in list order, what they read as, and all pairs linked into them. */
    ghost var nodes: seq<SectionNode>
    ghost var contents: Doc
    ghost var linked: set<KvPair>

    ghost predicate Linked()
      reads this`sectionsHead, this`sectionsTail, this`nodes, nodes`next
    {
      && sectionsHead == NodeAt(0)
      && (forall i {:trigger nodes[i].next} :: 0 <= i < |nodes| ==> nodes[i].next == NodeAt(i + 1))
      && (nodes != [] ==> sectionsTail == nodes[|nodes| - 1])
    }

    ghost function NodeAt(i: nat): SectionNode?
      reads this`nodes
    {
      if i < |nodes| then nodes[i] else null
    }

    ghost predicate Valid()
      reads this, nodes, linked
    {
      && Linked()
      && DistinctNames(nodes)
      && AllRepresent(nodes, contents, linked)
    }

    constructor ()
      ensures Valid() && contents == [] && nodes == [] && linked == {}
    {
      sectionsHead, sectionsTail, nodes, contents, linked := null, null, [], [], {};
    }

    /** The section of the given name and the one in front of it. */
    method FindSectionByName(name: string) returns (s: SectionNode?, preceding: SectionNode?, ghost i: nat)
      requires Valid()
      ensures i == FindSection(contents, name) && |contents| == |nodes|
      ensures s == (if FindSection(contents, name) == |contents| then null else nodes[FindSection(contents, name)])
      ensures s == NodeAt(i) && preceding == if i == 0 then null else NodeAt(i - 1)
    {
      hide SectionNode.Valid;
      preceding, s, i := null, sectionsHead, 0;
      while s != null
        invariant i <= |nodes| && s == NodeAt(i)
        invariant preceding == if i == 0 then null else NodeAt(i - 1)
        invariant forall k :: 0 <= k < i ==> contents[k].name != name
        decreases |nodes| - i
      {
        if s.name == name {
          break;
        }
        preceding := s;
        s := s.next;
        i := i + 1;
      }
      FindSectionIs(contents, name, i);
    }

    method FindSectionByPointer(section: SectionNode) returns (s: SectionNode?, preceding: SectionNode?, ghost i: nat)
      requires Valid()
      ensures s != null <==> section in nodes
      ensures s != null ==> s == section && s == NodeAt(i) && preceding == if i == 0 then null else NodeAt(i - 1)
    {
      hide SectionNode.Valid, AllRepresent;
      preceding, s, i := null, sectionsHead, 0;
      while s != null
        invariant i <= |nodes| && s == NodeAt(i)
        invariant preceding == if i == 0 then null else NodeAt(i - 1)
        invariant section !in nodes[..i]
        decreases |nodes| - i
      {
        if s == section {
          break;
        }
        preceding := s;
        s := s.next;
        i := i + 1;
      }
    }

    /** `inifile_new_section`: find or append. */
    method NewSection(name: string, length: nat) returns (s: SectionNode?)
      requires Valid() && length <= |name|
      modifies this, nodes`next
      ensures Valid() && linked == old(linked)
      ensures var n := CArgument(name, length);
        && contents == (if n == "" then old(contents) else IniStore.NewSection(old(contents), n))
        && (s == null <==> n == "")
        && (s != null ==> s in nodes && s.name == n)
      ensures nodes == old(nodes) || (fresh(s) && nodes == old(nodes) + [s])
    {
      hide SectionNode.Valid, FindSection, CArgument, Represents;
      var n := CArgument(name, length);
      if n == "" {
        return null;
      }
      var found, _, i := FindSectionByName(n);
      if found != null {
        s := found;
        NameOf(i);
      } else {
        s := new SectionNode(n);
        NamesDiffer(n);
        AppendSection(s);
      }
    }

    lemma NameOf(i: nat)
      requires Valid() && i < |nodes|
      ensures nodes[i].name == contents[i].name
    {
    }

    lemma NamesDiffer(name: string)
      requires Valid() && FindSection(contents, name) == |contents|
      ensures forall i :: 0 <= i < |nodes| ==> nodes[i].name != name
    {
      forall i | 0 <= i < |nodes| ensures nodes[i].name != name {
        NameOf(i);
      }
    }

    /** Link a new, empty section behind the last one. */
    method AppendSection(s: SectionNode)
      requires Valid() && s !in nodes && s.Valid() && s.next == null && s.pairs == []
      requires forall i :: 0 <= i < |nodes| ==> nodes[i].name != s.name
      modifies this, nodes`next
      ensures Valid() && nodes == old(nodes) + [s] && linked == old(linked)
      ensures contents == old(contents) + [Section(s.name, [])]
    {
      hide SectionNode.Valid, FindSection, AllRepresent;
      AllRepresentAppend(nodes, contents, linked, s, Section(s.name, []));
      if sectionsHead == null {
        sectionsHead := s;
      } else {
        sectionsTail.next := s;
      }
      sectionsTail := s;
      nodes := nodes + [s];
      contents := contents + [Section(s.name, [])];
    }

    // ----- removing sections

    /** `remove_section`: redirect the pointers around the section at position `i`. */
    method Relink(section: SectionNode, preceding: SectionNode?, ghost i: nat)
      requires Linked() && DistinctNames(nodes) && i < |nodes| && section == nodes[i]
      requires preceding == if i == 0 then null else NodeAt(i - 1)
      modifies this`sectionsHead, this`sectionsTail, this`nodes, nodes`next
      ensures Linked()
      ensures nodes == old(nodes)[..i] + old(nodes)[i + 1..]
    {
      if preceding != null {
        preceding.next := section.next;
        if preceding.next == null {
          sectionsTail := preceding;
        }
      } else if section.next != null {
        sectionsHead := section.next;
      } else {
        sectionsHead := null;
        sectionsTail := null;
      }
      nodes := nodes[..i] + nodes[i + 1..];
      forall j | 0 <= j < |nodes| ensures nodes[j].next == NodeAt(j + 1) {
        assert nodes[j] == old(nodes)[if j < i then j else j + 1];
      }
    }

    /** Take the section at position `i` out of the structure. */
    method UnlinkSection(section: SectionNode, preceding: SectionNode?, ghost i: nat)
      requires Valid() && i < |nodes| && section == nodes[i]
      requires preceding == if i == 0 then null else NodeAt(i - 1)
      modifies this, nodes`next
      ensures Valid() && linked == old(linked)
      ensures TakenOut(old(nodes), i, nodes)
      ensures contents == IniStore.RemoveSection(old(contents), i)
    {
      hide SectionNode.Valid, FindSection, AllRepresent, Linked, DistinctNames;
      AllRepresentTakenOut(nodes, contents, linked, i);
      Relink(section, preceding, i);
      contents := IniStore.RemoveSection(contents, i);
    }

    /** `inifile_remove_section` for a non-null pointer. */
    method RemoveSection(section: SectionNode) returns (removed: bool)
      requires Valid()
      modifies this, nodes`next
      ensures Valid()
      ensures removed <==> section in old(nodes)
      ensures if removed
        then exists i :: 0 <= i < |old(nodes)| && old(nodes)[i] == section
                         && TakenOut(old(nodes), i, nodes) && contents == IniStore.RemoveSection(old(contents), i)
        else nodes == old(nodes) && contents == old(contents)
    {
      hide SectionNode.Valid, FindSection, AllRepresent, DistinctNames, IniStore.RemoveSection, Linked;
      var s, preceding, i := FindSectionByPointer(section);
      if s == null {
        return false;
      }
      UnlinkSection(s, preceding, i);
      return true;
    }

    method RemoveSectionByName(name: string, length: nat) returns (removed: bool)
      requires Valid() && length <= |name|
      modifies this, nodes`next
      ensures Valid()
      ensures var i := FindSection(old(contents), CArgument(name, length));
        && (removed <==> i < |old(contents)|)
        && contents == (if removed then IniStore.RemoveSection(old(contents), i) else old(contents))
        && (if removed then TakenOut(old(nodes), i, nodes) else nodes == old(nodes))
    {
      hide SectionNode.Valid, FindSection, DistinctNames, IniStore.RemoveSection, Linked;
      var s, preceding, i := FindSectionByName(CArgument(name, length));
      if s == null {
        return false;
      }
      UnlinkSection(s, preceding, i);
      return true;
    }

    // ----- storing into and removing from a linked section

    lemma PositionOf(s: SectionNode) returns (i: nat)
      requires Valid() && s in nodes
      ensures i < |nodes| && nodes[i] == s && i == FindSection(contents, s.name)
      ensures |nodes| == |contents| && contents[i].name == s.name
      ensures forall j :: 0 <= j < |nodes| ==> Within(nodes[j], linked) && Represents(nodes[j], contents[j])
      ensures forall j :: 0 <= j < |nodes| && j != i ==> nodes[j] != s
    {
      hide SectionNode.Valid, Linked;
      i :| 0 <= i < |nodes| && nodes[i] == s;
      FindSectionIs(contents, s.name, i);
    }

    /** `inifile_section_store_value` and `..._store_empty_value` behind their argument checks. */
    method StoreInto(s: SectionNode, key: string, value: string) returns (kv: KvPair)
      requires Valid() && s in nodes
      modifies this`contents, this`linked, s`valuesHead, s`valuesTail, s`pairs, s.pairs
      ensures Valid()
      ensures contents == PutIn(old(contents), s.name, key, value)
      ensures kv.key == key && kv.value == value
      ensures fresh(linked - old(linked))
    {
      hide SectionNode.Valid, FindSection, DistinctNames, Put, Linked, AllRepresent, Represents, Within;
      ghost var i := PositionOf(s);
      WhatRepresents(s, contents[i], linked);
      PairsApart(nodes, contents, i);
      kv := s.DoStoreValue(key, value);
      forall j | 0 <= j < |nodes| && j != i ensures Represents(nodes[j], contents[j]) {
        assert old(Represents(nodes[j], contents[j]));
        assert forall k :: 0 <= k < |nodes[j].pairs| ==> nodes[j].pairs[k] !in old(s.pairs);
      }
      NowRepresents(s, linked + {kv});
      AllRepresentUpdate(nodes, contents, linked, i, Section(s.name, s.Entries()), linked + {kv});
      linked := linked + {kv};
      contents := PutIn(contents, s.name, key, value);
    }

    /** `inifile_section_store_value`: an empty key or value is refused. */
    method SectionStoreValue(s: SectionNode, key: string, keyLength: nat, value: string, valueLength: nat)
      returns (kv: KvPair?)
      requires Valid() && s in nodes
      requires keyLength <= |key| && valueLength <= |value|
      modifies this`contents, this`linked, s`valuesHead, s`valuesTail, s`pairs, s.pairs
      ensures Valid()
      ensures var k, v := CArgument(key, keyLength), CArgument(value, valueLength);
        && (kv == null <==> k == "" || v == "")
        && contents == if kv == null then old(contents) else PutIn(old(contents), s.name, k, CString(v))
      ensures fresh(linked - old(linked))
    {
      hide *;
      var k, v := CArgument(key, keyLength), CArgument(value, valueLength);
      if k == "" || v == "" {
        return null;
      }
      kv := StoreInto(s, k, CString(v));
    }

    /** `inifile_section_store_empty_value`. */
    method SectionStoreEmptyValue(s: SectionNode, key: string, keyLength: nat) returns (kv: KvPair?)
      requires Valid() && s in nodes && keyLength <= |key|
      modifies this`contents, this`linked, s`valuesHead, s`valuesTail, s`pairs, s.pairs
      ensures Valid()
      ensures var k := CArgument(key, keyLength);
        && (kv == null <==> k == "")
        && contents == if kv == null then old(contents) else PutIn(old(contents), s.name, k, "")
      ensures fresh(linked - old(linked))
    {
      hide *;
      var k := CArgument(key, keyLength);
      if k == "" {
        return null;
      }
      kv := StoreInto(s, k, "");
    }

    /** `inifile_section_remove_value`. */
    method SectionRemoveValue(s: SectionNode, key: string, keyLength: nat) returns (removed: bool)
      requires Valid() && s in nodes && keyLength <= |key|
      modifies this`contents, s`valuesHead, s`valuesTail, s`pairs, s.pairs`next
      ensures Valid()
      ensures contents == RemoveIn(old(contents), s.name, CArgument(key, keyLength))
      ensures removed <==> Lookup(old(s.Entries()), CArgument(key, keyLength)).Some?
      ensures var i := FindKey(old(s.Entries()), CArgument(key, keyLength));
        if removed then TakenOut(old(s.pairs), i, s.pairs) && TakenOut(old(s.Entries()), i, s.Entries())
        else s.pairs == old(s.pairs)
    {
      hide SectionNode.Valid, FindSection, FindKey, TakenOut, DistinctNames, Remove, Linked, AllRepresent, Represents, Within, CArgument;
      ghost var i := PositionOf(s);
      WhatRepresents(s, contents[i], linked);
      PairsApart(nodes, contents, i);
      removed := s.RemoveValue(CArgument(key, keyLength));
      forall j | 0 <= j < |nodes| && j != i ensures Represents(nodes[j], contents[j]) {
        assert old(Represents(nodes[j], contents[j]));
        assert forall k :: 0 <= k < |nodes[j].pairs| ==> nodes[j].pairs[k] !in old(s.pairs);
      }
      NowRepresents(s, linked);
      AllRepresentUpdate(nodes, contents, linked, i, Section(s.name, s.Entries()), linked);
      contents := RemoveIn(contents, s.name, CArgument(key, keyLength));
    }
  }

  lemma WhatRepresents(n: SectionNode, s: Section, linked: set<KvPair>)
    requires Represents(n, s) && Within(n, linked)
    ensures n.Valid() && s == Section(n.name, n.Entries())
    ensures forall p :: p in n.pairs ==> p in linked
  {
  }

  lemma NowRepresents(n: SectionNode, linked: set<KvPair>)
    requires n.Valid() && forall p :: p in n.pairs ==> p in linked
    ensures Represents(n, Section(n.name, n.Entries())) && Within(n, linked)
  {
  }

  /** No pair is linked into two sections. */
  lemma PairsApart(nodes: seq<SectionNode>, doc: Doc, i: nat)
    requires i < |nodes| == |doc|
    requires forall j :: 0 <= j < |nodes| ==> Represents(nodes[j], doc[j])
    requires forall j :: 0 <= j < |nodes| && j != i ==> nodes[j] != nodes[i]
    ensures forall j, k :: 0 <= j < |nodes| && j != i && 0 <= k < |nodes[j].pairs| ==> nodes[j].pairs[k] !in nodes[i].pairs
  {
    forall j, k | 0 <= j < |nodes| && j != i && 0 <= k < |nodes[j].pairs|
      ensures nodes[j].pairs[k] !in nodes[i].pairs
    {
      assert Represents(nodes[j], doc[j]) && Represents(nodes[i], doc[i]);
    }
  }

  lemma AllRepresentUpdate(nodes: seq<SectionNode>, doc: Doc, linked: set<KvPair>,
                           i: nat, s: Section, linked': set<KvPair>)
    requires i < |nodes| == |doc| && Represents(nodes[i], s) && Within(nodes[i], linked')
    requires forall j :: 0 <= j < |nodes| && j != i ==> Within(nodes[j], linked) && Represents(nodes[j], doc[j])
    requires linked <= linked'
    ensures AllRepresent(nodes, doc[i := s], linked')
  {
    hide Represents;
  }

  lemma AllRepresentTakenOut(nodes: seq<SectionNode>, doc: Doc, linked: set<KvPair>, i: nat)
    requires AllRepresent(nodes, doc, linked) && DistinctNames(nodes) && i < |nodes|
    ensures |nodes| == |doc|
    ensures AllRepresent(nodes[..i] + nodes[i + 1..], RemoveSection(doc, i), linked)
    ensures DistinctNames(nodes[..i] + nodes[i + 1..])
    ensures TakenOut(nodes, i, nodes[..i] + nodes[i + 1..])
  {
    hide Represents;
  }
}
