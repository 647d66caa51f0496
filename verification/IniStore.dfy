/**
 The abstract content of an INI structure: an ordered map from section names to
 ordered maps from keys to values.  Every operation of the C interface has its
 effect written here as a function; the heap lists in `IniLists` refine them.
 */
module IniStore {
  import opened Wrappers

  datatype Entry = Entry(key: string, value: string)
  datatype Section = Section(name: string, entries: seq<Entry>)
  type Doc = seq<Section>

  // ----- one section

  /** Position of `key`, or the number of entries. */
  function FindKey(entries: seq<Entry>, key: string): (i: nat)
    ensures i <= |entries|
    ensures i < |entries| ==> entries[i].key == key
    ensures forall k :: 0 <= k < i ==> entries[k].key != key
  {
    if entries == [] || entries[0].key == key then 0 else 1 + FindKey(entries[1..], key)
  }

  function Lookup(entries: seq<Entry>, key: string): Option<string> {
    var i := FindKey(entries, key);
    if i < |entries| then Some(entries[i].value) else None
  }

  /** Replace in place, or append. */
  function Put(entries: seq<Entry>, key: string, value: string): seq<Entry> {
    var i := FindKey(entries, key);
    if i < |entries| then entries[i := Entry(key, value)] else entries + [Entry(key, value)]
  }

  function Remove(entries: seq<Entry>, key: string): seq<Entry> {
    var i := FindKey(entries, key);
    if i < |entries| then entries[..i] + entries[i + 1..] else entries
  }

  ghost predicate UniqueKeys(entries: seq<Entry>) {
    forall i, j :: 0 <= i < j < |entries| ==> entries[i].key != entries[j].key
  }

  // ----- the whole structure

  function FindSection(doc: Doc, name: string): (i: nat)
    ensures i <= |doc|
    ensures i < |doc| ==> doc[i].name == name
    ensures forall k :: 0 <= k < i ==> doc[k].name != name
  {
    if doc == [] || doc[0].name == name then 0 else 1 + FindSection(doc[1..], name)
  }

  /** Find or append. */
  function NewSection(doc: Doc, name: string): (r: Doc) {
    if FindSection(doc, name) < |doc| then doc else doc + [Section(name, [])]
  }

  function RemoveSection(doc: Doc, i: nat): Doc
    requires i < |doc|
  {
    doc[..i] + doc[i + 1..]
  }

  /** Store into the section called `name`. */
  function PutIn(doc: Doc, name: string, key: string, value: string): Doc {
    var i := FindSection(doc, name);
    if i < |doc| then doc[i := Section(name, Put(doc[i].entries, key, value))] else doc
  }

  function RemoveIn(doc: Doc, name: string, key: string): Doc {
    var i := FindSection(doc, name);
    if i < |doc| then doc[i := Section(name, Remove(doc[i].entries, key))] else doc
  }

  ghost predicate UniqueNames(doc: Doc) {
    forall i, j :: 0 <= i < j < |doc| ==> doc[i].name != doc[j].name
  }

  ghost predicate WellFormed(doc: Doc) {
    && UniqueNames(doc)
    && forall i :: 0 <= i < |doc| ==> UniqueKeys(doc[i].entries)
  }

  // ----- the ordered map it stands for

  function Keys(entries: seq<Entry>): (ks: seq<string>)
    ensures |ks| == |entries|
    ensures forall i :: 0 <= i < |ks| ==> ks[i] == entries[i].key
  {
    seq(|entries|, i requires 0 <= i < |entries| => entries[i].key)
  }

  /** The key-to-value map, built without reference to positions. */
  function ToMap(entries: seq<Entry>): map<string, string> {
    if entries == [] then map[]
    else ToMap(entries[..|entries| - 1])[entries[|entries| - 1].key := entries[|entries| - 1].value]
  }

  lemma {:induction false} ToMapAt(entries: seq<Entry>, key: string)
    requires UniqueKeys(entries)
    ensures key in ToMap(entries) <==> FindKey(entries, key) < |entries|
    ensures key in ToMap(entries) ==> ToMap(entries)[key] == entries[FindKey(entries, key)].value
  {
    if entries != [] {
      var n := |entries| - 1;
      ToMapAt(entries[..n], key);
      FindKeyIs(entries[..n], key, if FindKey(entries, key) < n then FindKey(entries, key) else n);
    }
  }

  lemma FindKeyIs(entries: seq<Entry>, key: string, i: nat)
    requires i <= |entries|
    requires i < |entries| ==> entries[i].key == key
    requires forall k :: 0 <= k < i ==> entries[k].key != key
    ensures FindKey(entries, key) == i
  {
  }

  lemma FindSectionIs(doc: Doc, name: string, i: nat)
    requires i <= |doc|
    requires i < |doc| ==> doc[i].name == name
    requires forall k :: 0 <= k < i ==> doc[k].name != name
    ensures FindSection(doc, name) == i
  {
  }

  lemma LookupIsMap(entries: seq<Entry>, key: string)
    requires UniqueKeys(entries)
    ensures Lookup(entries, key) == if key in ToMap(entries) then Some(ToMap(entries)[key]) else None
  {
    ToMapAt(entries, key);
  }

  /** A stored value is found again, and no other key notices. */
  lemma LookupAfterPut(entries: seq<Entry>, key: string, value: string, other: string)
    ensures Lookup(Put(entries, key, value), other) == if other == key then Some(value) else Lookup(entries, other)
  {
    var after := Put(entries, key, value);
    FindKeyIs(after, other, if other == key then FindKey(entries, key)
                            else if FindKey(entries, other) < |entries| then FindKey(entries, other) else |after|);
  }

  /** A removed key is gone, and no other key notices. */
  lemma LookupAfterRemove(entries: seq<Entry>, key: string, other: string)
    requires UniqueKeys(entries)
    ensures Lookup(Remove(entries, key), other) == if other == key then None else Lookup(entries, other)
  {
    var after := Remove(entries, key);
    var i, j := FindKey(entries, key), FindKey(entries, other);
    FindKeyIs(after, other, if j == |entries| || j == i then |after| else if j < i then j else j - 1);
  }

  lemma PutKeepsUnique(entries: seq<Entry>, key: string, value: string)
    requires UniqueKeys(entries)
    ensures UniqueKeys(Put(entries, key, value))
    ensures Keys(Put(entries, key, value)) ==
            Keys(entries) + if FindKey(entries, key) < |entries| then [] else [key]
  {
  }

  /** `after` is `before` with the element at `i` taken out and the order of the rest kept. */
  ghost predicate TakenOut<T>(before: seq<T>, i: nat, after: seq<T>) {
    && i < |before| == |after| + 1
    && (forall k :: 0 <= k < i ==> after[k] == before[k])
    && (forall k :: i <= k < |after| ==> after[k] == before[k + 1])
  }

  lemma RemoveTakesOut(entries: seq<Entry>, key: string)
    requires FindKey(entries, key) < |entries|
    ensures TakenOut(entries, FindKey(entries, key), Remove(entries, key))
  {
  }

  lemma RemoveKeepsUnique(entries: seq<Entry>, key: string)
    requires UniqueKeys(entries)
    ensures UniqueKeys(Remove(entries, key))
  {
    if FindKey(entries, key) < |entries| {
      RemoveTakesOut(entries, key);
      var after, i := Remove(entries, key), FindKey(entries, key);
      forall j, k | 0 <= j < k < |after| ensures after[j].key != after[k].key {
        assert after[j] == entries[if j < i then j else j + 1];
        assert after[k] == entries[if k < i then k else k + 1];
      }
    }
  }

  /** Storing is a map update that keeps the order of the keys and appends a new one. */
  lemma PutRefinesMap(entries: seq<Entry>, key: string, value: string)
    requires UniqueKeys(entries)
    ensures UniqueKeys(Put(entries, key, value))
    ensures ToMap(Put(entries, key, value)) == ToMap(entries)[key := value]
    ensures Keys(Put(entries, key, value)) == Keys(entries) + if key in ToMap(entries) then [] else [key]
  {
    var after := Put(entries, key, value);
    PutKeepsUnique(entries, key, value);
    ToMapAt(entries, key);
    forall k: string ensures MapGet(ToMap(after), k) == MapGet(ToMap(entries)[key := value], k) {
      LookupIsMap(entries, k);
      LookupIsMap(after, k);
      LookupAfterPut(entries, key, value, k);
    }
    SameMap(ToMap(after), ToMap(entries)[key := value]);
  }

  lemma MapAfterRemove(entries: seq<Entry>, key: string, k: string)
    requires UniqueKeys(entries)
    ensures MapGet(ToMap(Remove(entries, key)), k) == MapGet(ToMap(entries) - {key}, k)
  {
    RemoveKeepsUnique(entries, key);
    LookupIsMap(entries, k);
    LookupIsMap(Remove(entries, key), k);
    LookupAfterRemove(entries, key, k);
  }

  /** Removing is a map removal that keeps the order of the survivors. */
  lemma RemoveRefinesMap(entries: seq<Entry>, key: string)
    requires UniqueKeys(entries)
    ensures UniqueKeys(Remove(entries, key))
    ensures ToMap(Remove(entries, key)) == ToMap(entries) - {key}
    ensures FindKey(entries, key) < |entries| ==> TakenOut(entries, FindKey(entries, key), Remove(entries, key))
  {
    RemoveKeepsUnique(entries, key);
    if FindKey(entries, key) < |entries| {
      RemoveTakesOut(entries, key);
    }
    assert ToMap(Remove(entries, key)) == ToMap(entries) - {key} by {
      forall k: string ensures MapGet(ToMap(Remove(entries, key)), k) == MapGet(ToMap(entries) - {key}, k) {
        MapAfterRemove(entries, key, k);
      }
      SameMap(ToMap(Remove(entries, key)), ToMap(entries) - {key});
    }
  }

  function MapGet(m: map<string, string>, k: string): Option<string> {
    if k in m then Some(m[k]) else None
  }

  lemma SameMap(m: map<string, string>, m': map<string, string>)
    requires forall k: string :: MapGet(m, k) == MapGet(m', k)
    ensures m == m'
  {
    forall k ensures k in m <==> k in m' {
      assert MapGet(m, k) == MapGet(m', k);
    }
    forall k | k in m ensures m[k] == m'[k] {
      assert MapGet(m, k) == MapGet(m', k);
    }
  }

  /** Removing a key that a store appended undoes the store. */
  lemma RemoveUndoesPut(entries: seq<Entry>, key: string, value: string)
    requires FindKey(entries, key) == |entries|
    ensures Remove(Put(entries, key, value), key) == entries
  {
    FindKeyIs(Put(entries, key, value), key, |entries|);
  }

  // ----- every operation keeps the structure an ordered map of ordered maps

  lemma NewSectionKeeps(doc: Doc, name: string)
    requires WellFormed(doc)
    ensures WellFormed(NewSection(doc, name))
    ensures doc <= NewSection(doc, name)
    ensures FindSection(NewSection(doc, name), name) == FindSection(doc, name) < |NewSection(doc, name)|
  {
    FindSectionIs(NewSection(doc, name), name, FindSection(doc, name));
  }

  lemma PutInKeeps(doc: Doc, name: string, key: string, value: string)
    requires WellFormed(doc)
    ensures WellFormed(PutIn(doc, name, key, value))
    ensures |PutIn(doc, name, key, value)| == |doc|
    ensures forall i :: 0 <= i < |doc| ==> PutIn(doc, name, key, value)[i].name == doc[i].name
    ensures forall i :: 0 <= i < |doc| && doc[i].name != name ==> PutIn(doc, name, key, value)[i] == doc[i]
  {
    hide Put, UniqueKeys, FindSection, FindKey;
    var i := FindSection(doc, name);
    if i < |doc| {
      PutKeepsUnique(doc[i].entries, key, value);
    }
  }

  /** In the section itself the stored key is found with its value, and every other key as before. */
  lemma LookupAfterPutIn(doc: Doc, name: string, key: string, value: string, other: string)
    requires FindSection(doc, name) < |doc|
    ensures var i, after := FindSection(doc, name), PutIn(doc, name, key, value);
      && |after| == |doc| && after[i].name == name
      && Lookup(after[i].entries, other) == if other == key then Some(value) else Lookup(doc[i].entries, other)
  {
    hide Put, Lookup, FindSection;
    LookupAfterPut(doc[FindSection(doc, name)].entries, key, value, other);
  }

  /** Removing in one section takes out the pair of the key there, and nothing else anywhere. */
  lemma RemoveInKeeps(doc: Doc, name: string, key: string)
    requires WellFormed(doc)
    ensures WellFormed(RemoveIn(doc, name, key))
    ensures |RemoveIn(doc, name, key)| == |doc|
    ensures forall i :: 0 <= i < |doc| ==> RemoveIn(doc, name, key)[i].name == doc[i].name
    ensures forall i :: 0 <= i < |doc| && doc[i].name != name ==> RemoveIn(doc, name, key)[i] == doc[i]
    ensures var i := FindSection(doc, name);
      i < |doc| ==>
        var before, after := doc[i].entries, RemoveIn(doc, name, key)[i].entries;
        if FindKey(before, key) < |before| then TakenOut(before, FindKey(before, key), after) else after == before
  {
    hide UniqueKeys, FindSection, FindKey;
    var i := FindSection(doc, name);
    if i < |doc| {
      RemoveKeepsUnique(doc[i].entries, key);
    }
  }

  /** In the section itself the key is gone, and every other key is found as before. */
  lemma LookupAfterRemoveIn(doc: Doc, name: string, key: string, other: string)
    requires WellFormed(doc) && FindSection(doc, name) < |doc|
    ensures var i, after := FindSection(doc, name), RemoveIn(doc, name, key);
      && |after| == |doc| && after[i].name == name
      && Lookup(after[i].entries, other) == if other == key then None else Lookup(doc[i].entries, other)
  {
    hide Remove, Lookup, UniqueKeys, FindSection;
    LookupAfterRemove(doc[FindSection(doc, name)].entries, key, other);
  }

  lemma RemoveSectionKeeps(doc: Doc, i: nat)
    requires WellFormed(doc) && i < |doc|
    ensures WellFormed(RemoveSection(doc, i))
    ensures FindSection(RemoveSection(doc, i), doc[i].name) == |RemoveSection(doc, i)|
    ensures TakenOut(doc, i, RemoveSection(doc, i))
  {
    var after := RemoveSection(doc, i);
    forall k | 0 <= k < |after| ensures after[k].name != doc[i].name {
      assert after[k] == doc[if k < i then k else k + 1];
    }
  }
}
