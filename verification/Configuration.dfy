/**
 Loading and storing a table of settings through an INI file, and the manager
 that does so around batches of changes.
 */
module Configuration {
  import opened Wrappers
  import opened Text
  import opened IniStore
  import opened IniLines
  import opened IniPrint
  import opened IniLists
  import opened IniFiles
  import opened IniParser
  import opened IniWriter
  import opened OsWrite
  import opened Settings

  /** The structure after the first `n` values were stored. */
  function StoreInDocUpTo(doc: Doc, section: string, keys: seq<Key>, values: seq<Value>, n: nat): Doc
    requires n <= |keys| == |values|
  {
    var all := NewSection(doc, section);
    var i := FindSection(all, section);
    if i < |all| then all[i := Section(section, StoreFirst(all[i].entries, keys, values, n))] else all
  }

  lemma StoreInDocStart(doc: Doc, section: string, keys: seq<Key>, values: seq<Value>)
    requires |keys| == |values|
    ensures StoreInDocUpTo(doc, section, keys, values, 0) == NewSection(doc, section)
    ensures StoreInDocUpTo(doc, section, keys, values, |keys|) == StoreInDoc(doc, section, keys, values)
  {
    var all := NewSection(doc, section);
    var i := FindSection(all, section);
    if i < |all| {
      assert all[i] == Section(section, all[i].entries);
    }
  }

  lemma StoreInDocStep(doc: Doc, section: string, keys: seq<Key>, values: seq<Value>, n: nat)
    requires n < |keys| == |values|
    ensures StoreInDocUpTo(doc, section, keys, values, n + 1) ==
            if keys[n].LocalName() == "" then StoreInDocUpTo(doc, section, keys, values, n)
            else PutIn(StoreInDocUpTo(doc, section, keys, values, n), section, keys[n].LocalName(), Buffered(values[n]))
  {
    hide Key.LocalName, Buffered, Put;
    var before := StoreInDocUpTo(doc, section, keys, values, n);
    var all := NewSection(doc, section);
    FindSectionIs(before, section, FindSection(all, section));
  }

  lemma BufferedIsCString(v: Value)
    ensures CArgument(Buffered(v), 0) == Buffered(v) == CString(Buffered(v))
  {
    NulFree(Buffered(v));
  }

  /** Store one value, empty or not. */
  method StoreOne(file: IniFile, node: SectionNode, key: Key, v: Value)
    requires file.Valid() && node in file.nodes
    modifies file`contents, file`linked, node`valuesHead, node`valuesTail, node`pairs, node.pairs
    ensures file.Valid() && fresh(file.linked - old(file.linked))
    ensures file.contents ==
            if key.LocalName() == "" then old(file.contents)
            else PutIn(old(file.contents), node.name, key.LocalName(), Buffered(v))
  {
    hide IniFile.Valid, PutIn, Buffered, Key.LocalName;
    var name, buffer := key.LocalName(), Buffered(v);
    BufferedIsCString(v);
    NameArgument(name);
    if buffer != "" {
      var _ := file.SectionStoreValue(node, name, |name|, buffer, 0);
    } else {
      var _ := file.SectionStoreEmptyValue(node, name, |name|);
    }
  }

  lemma NameArgument(s: string)
    ensures CArgument(s, |s|) == s
  {
    assert s[..|s|] == s;
  }

  lemma SameSize(file: IniFile)
    requires file.Valid()
    ensures |file.contents| == |file.nodes|
  {
  }

  lemma SectionAt(file: IniFile, i: nat)
    requires file.Valid() && i < |file.nodes|
    ensures |file.contents| == |file.nodes| && file.contents[i].name == file.nodes[i].name
  {
    file.NameOf(i);
  }

  /** Find the section, or open it. */
  method OpenSection(file: IniFile, section: string) returns (node: SectionNode?)
    requires file.Valid()
    modifies file, file.nodes`next
    ensures file.Valid() && file.linked == old(file.linked)
    ensures node == null <==> section == "" && FindSection(old(file.contents), section) == |old(file.contents)|
    ensures node != null ==> node in file.nodes && node.name == section
    ensures node != null ==> file.contents == NewSection(old(file.contents), section)
    ensures file.nodes == old(file.nodes) || (fresh(node) && file.nodes == old(file.nodes) + [node])
  {
    hide IniFile.Valid;
    NameArgument(section);
    SameSize(file);
    var found, _, i := file.FindSectionByName(CArgument(section, |section|));
    node := found;
    if node == null {
      node := file.NewSection(section, |section|);
    } else {
      SectionAt(file, i);
    }
  }

  /** `try_store`: false only if the section cannot be opened; a failed write is not reported. */
  method TryStore(target: Target, env: Environment, section: string, keys: seq<Key>, values: seq<Value>)
    returns (ok: bool)
    requires |keys| == |values|
    modifies target
    ensures !ok ==> section == "" && target.content == old(target.content)
    ensures section != "" ==> ok
    ensures ok && env.creatable && Failed !in env.schedule ==>
      target.content == Some(Stored(old(target.content), section, keys, values))
    ensures ok && env.creatable && Failed !in env.schedule && PrintableName(section) && GoodKeys(keys) ==>
      exists doc :: target.content == Some(Print(doc)) && HoldsTable(doc, section, keys, values)
    ensures ok && env.creatable && target.content != Some(Stored(old(target.content), section, keys, values)) ==>
      && target.abandoned.Some? && target.abandoned.value < Stored(old(target.content), section, keys, values)
      && target.content == if env.deletable then None else target.abandoned
    ensures ok && !env.creatable ==> target.content == old(target.content)
  {
    hide IniFile.Valid, StoreInDoc, StoreInDocUpTo, IniStore.NewSection, Parse, Print, Buffered, Key.LocalName,
      PrintableName, GoodKeys, HoldsTable;
    ghost var doc := FileDoc(target.content);
    if PrintableName(section) && GoodKeys(keys) {
      StoredUnderItsName(doc, section, keys, values);
    }
    var file, _ := ParseFromFile(target.content);
    FileDocIs(target.content);
    var node := OpenSection(file, section);
    if node == null {
      return false;
    }
    StoreInDocStart(doc, section, keys, values);
    StoreAll(file, node, doc, section, keys, values);
    var _ := WriteToFile(file, target, env);
    return true;
  }

  lemma FileDocIs(content: Option<string>)
    ensures FileDoc(content) == if content == None || content == Some("") then [] else Parse(content.value).doc
  {
    hide Parse;
  }

  method StoreAll(file: IniFile, node: SectionNode, ghost doc: Doc, section: string, keys: seq<Key>, values: seq<Value>)
    requires file.Valid() && node in file.nodes && node.name == section && |keys| == |values|
    requires file.contents == StoreInDocUpTo(doc, section, keys, values, 0)
    modifies file`contents, file`linked, node`valuesHead, node`valuesTail, node`pairs, file.linked
    ensures file.Valid() && file.contents == StoreInDoc(doc, section, keys, values)
  {
    hide IniFile.Valid, StoreInDoc, StoreInDocUpTo, PutIn, Buffered, Key.LocalName;
    for n := 0 to |keys|
      invariant file.Valid() && node in file.nodes
      invariant fresh(file.linked - old(file.linked))
      invariant file.contents == StoreInDocUpTo(doc, section, keys, values, n)
    {
      PairsLinked(file, node);
      StoreOne(file, node, keys[n], values[n]);
      StoreInDocStep(doc, section, keys, values, n);
    }
    StoreInDocStart(doc, section, keys, values);
  }

  /** `try_load`, with the defaults as what the table holds before. */
  method TryLoad(target: Target, section: string, keys: seq<Key>, defaults: seq<Value>)
    returns (ok: bool, values: seq<Value>)
    requires |keys| == |defaults|
    ensures (if ok then Some(values) else None) == Loaded(target.content, section, keys, defaults)
  {
    hide IniFile.Valid, LoadFirst, Parse, Key.LocalName, FindSection;
    values := defaults;
    var file, ret := ParseFromFile(target.content);
    FileDocIs(target.content);
    if ret != 0 {
      return false, values;
    }
    NameArgument(section);
    SameSize(file);
    var node, _, i := file.FindSectionByName(CArgument(section, |section|));
    if node == null {
      return false, values;
    }
    values := LoadAll(file, node, i, keys, defaults);
    return true, values;
  }

  method LoadAll(file: IniFile, node: SectionNode, ghost i: nat, keys: seq<Key>, defaults: seq<Value>)
    returns (values: seq<Value>)
    requires file.Valid() && i < |file.nodes| == |file.contents| && node == file.nodes[i] && |keys| == |defaults|
    ensures values == LoadFirst(file.contents[i].entries, keys, defaults, |keys|).0
  {
    hide IniFile.Valid, Deserialize, Key.LocalName;
    values := defaults;
    var erange := false;
    NodeReads(file, i);
    for n := 0 to |keys|
      invariant |values| == |keys|
      invariant (values, erange) == LoadFirst(file.contents[i].entries, keys, defaults, n)
    {
      var kv := node.LookupKvPair(keys[n].LocalName());
      if kv != null {
        var r := Deserialize(keys[n].kind, kv.value, erange);
        if r.0.Some? {
          values := values[n := r.0.value];
        }
        erange := r.1;
      }
    }
  }

  lemma NodeReads(file: IniFile, i: nat)
    requires file.Valid() && i < |file.nodes|
    ensures |file.nodes| == |file.contents| && file.nodes[i].Valid()
    ensures file.nodes[i].Entries() == file.contents[i].entries
  {
    hide SectionNode.Valid;
    assert Represents(file.nodes[i], file.contents[i]);
  }

  /** Loading gives each key a value of its kind. */
  lemma {:induction false} LoadFirstTyped(entries: seq<Entry>, keys: seq<Key>, defaults: seq<Value>, n: nat)
    requires n <= |keys| && Typed(keys, defaults)
    requires forall i :: 0 <= i < |keys| ==> keys[i].kind.UintKind? ==> keys[i].kind.bits in {16, 32, 64}
    ensures Typed(keys, LoadFirst(entries, keys, defaults, n).0)
  {
    hide Lookup, Deserialize, OfKind, Key.LocalName;
    if n > 0 {
      LoadFirstTyped(entries, keys, defaults, n - 1);
      var before := LoadFirst(entries, keys, defaults, n - 1);
      match Lookup(entries, keys[n - 1].LocalName())
      case None =>
      case Some(text) => DeserializeTyped(keys[n - 1].kind, text, before.1);
    }
  }

  lemma DeserializeTyped(kind: Kind, text: string, erange: bool)
    requires kind.UintKind? ==> kind.bits in {16, 32, 64}
    ensures Deserialize(kind, text, erange).0.Some? ==> OfKind(Deserialize(kind, text, erange).0.value, kind)
  {
  }

  /** `ConfigManager` with the `Settings` it embeds. */
  class ConfigManager {
    const section: string
    const keys: seq<Key>
    const defaults: seq<Value>
    const target: Target
    var isUpdating: bool
    var values: seq<Value>
    var isValid: bool
    var hasPendingChanges: bool
    var changed: seq<bool>
    /** The values when changes were last processed, or the table last loaded. */
    ghost var published: seq<Value>

    ghost predicate Valid()
      reads this
    {
      && Typed(keys, defaults) && Typed(keys, values)
      && |published| == |changed| == |keys|
      && (hasPendingChanges <==> exists i :: 0 <= i < |keys| && changed[i])
      && (forall i :: 0 <= i < |keys| && values[i] != published[i] ==> changed[i])
      && (!isUpdating ==> !hasPendingChanges)
    }

    /** `initial` is what a default-constructed table holds. */
    constructor (section: string, keys: seq<Key>, defaults: seq<Value>, initial: seq<Value>, target: Target)
      requires Typed(keys, defaults) && Typed(keys, initial)
      ensures Valid() && !isUpdating && !isValid && values == initial
      ensures this.section == section && this.keys == keys && this.defaults == defaults && this.target == target
    {
      this.section, this.keys, this.defaults, this.target := section, keys, defaults, target;
      isUpdating, isValid, hasPendingChanges := false, false, false;
      values, published := initial, initial;
      changed := seq(|keys|, _ => false);
    }

    method Load() returns (ok: bool)
      requires Valid() && !isUpdating
      modifies this
      ensures Valid() && !isUpdating && ok && isValid
      ensures values == match Loaded(target.content, section, keys, defaults) case Some(v) => v case None => defaults
      ensures published == values
    {
      hide OfKind, LoadFirst;
      var loaded;
      ok, loaded := TryLoad(target, section, keys, defaults);
      if ok {
        LoadedTyped(target.content, section, keys, defaults);
        values := loaded;
      } else {
        values := defaults;
      }
      published := values;
      isValid := true;
      return isValid;
    }

    method UpdateBegin()
      requires Valid() && !isUpdating
      modifies this`isUpdating
      ensures Valid() && isUpdating
    {
      isUpdating := true;
    }

    /** Change one value; the key is marked exactly if the new value differs. */
    method Update(id: nat, value: Value) returns (isDifferent: bool)
      requires Valid() && isUpdating && id < |keys| && OfKind(value, keys[id].kind)
      modifies this`values, this`hasPendingChanges, this`changed
      ensures Valid() && isUpdating
      ensures isDifferent <==> value != old(values)[id]
      ensures values == old(values)[id := value]
      ensures changed == if isDifferent then old(changed)[id := true] else old(changed)
    {
      if values[id] == value {
        return false;
      }
      hasPendingChanges := true;
      changed := changed[id := true];
      values := values[id := value];
      assert changed[id];
      return true;
    }

    /**
     End of a batch.  If anything was changed, the table is stored and observers
     are told which keys; if the write goes through, a later load finds exactly
     this table whenever that is possible at all.
     */
    method UpdateDone(env: Environment) returns (notified: bool, ids: seq<bool>)
      requires Valid() && isUpdating
      modifies this, target
      ensures Valid() && !isUpdating && values == old(values) && isValid == old(isValid)
      ensures notified <==> old(hasPendingChanges)
      ensures ids == old(changed)
      ensures forall i :: 0 <= i < |keys| && values[i] != old(published)[i] ==> notified && ids[i]
      ensures !notified ==> values == old(published) && target.content == old(target.content)
      ensures published == values
      ensures notified && PrintableName(section) && GoodKeys(keys) && env.creatable && Failed !in env.schedule ==>
        forall fallback :: |fallback| == |keys| ==>
          (Loaded(target.content, section, keys, fallback) == Some(values) <==> AllStorable(values))
    {
      hide OfKind, Loaded, Stored, AllStorable, PrintableName, GoodKeys;
      isUpdating := false;
      notified, ids := hasPendingChanges, changed;
      if hasPendingChanges {
        ghost var before := target.content;
        var _ := TryStore(target, env, section, keys, values);
        if PrintableName(section) && GoodKeys(keys) && env.creatable && Failed !in env.schedule {
          NameNotEmpty(section);
          forall fallback | |fallback| == |keys|
            ensures Loaded(target.content, section, keys, fallback) == Some(values) <==> AllStorable(values)
          {
            LoadAfterStoreExactly(before, section, keys, values, fallback);
          }
        }
        hasPendingChanges := false;
        changed := seq(|keys|, _ => false);
      }
      published := values;
    }
  }

  lemma NameNotEmpty(name: string)
    requires PrintableName(name)
    ensures name != ""
  {
  }

  lemma LoadedTyped(content: Option<string>, section: string, keys: seq<Key>, defaults: seq<Value>)
    requires Typed(keys, defaults)
    ensures Loaded(content, section, keys, defaults).Some? ==>
      Typed(keys, Loaded(content, section, keys, defaults).value)
  {
    hide LoadFirst, OfKind, FileDoc, FindSection;
    if Loaded(content, section, keys, defaults).Some? {
      var doc := FileDoc(content);
      BitsKnown(keys, defaults);
      LoadFirstTyped(doc[FindSection(doc, section)].entries, keys, defaults, |keys|);
    }
  }

  lemma BitsKnown(keys: seq<Key>, values: seq<Value>)
    requires Typed(keys, values)
    ensures forall i :: 0 <= i < |keys| ==> keys[i].kind.UintKind? ==> keys[i].kind.bits in {16, 32, 64}
  {
    forall i | 0 <= i < |keys| ensures keys[i].kind.UintKind? ==> keys[i].kind.bits in {16, 32, 64} {
      assert OfKind(values[i], keys[i].kind);
    }
  }
}
