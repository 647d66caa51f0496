/**
 The linked lists behind an INI structure: sections and key/value pairs are
 singly linked with a tail pointer, and every operation rewrites them in place.
 Each method is proved to have the effect that `IniStore` gives it.
 */
module IniLists {
  import opened IniStore

  class KvPair {
    var next: KvPair?
    const key: string
    var value: string
    /** The section this pair is linked into. */
    ghost const owner: SectionNode

    constructor (key: string, value: string, ghost owner: SectionNode)
      ensures this.key == key && this.value == value && this.next == null && this.owner == owner
    {
      this.next := null;
      this.key := key;
      this.value := value;
      this.owner := owner;
    }
  }

  ghost predicate DistinctKeys(pairs: seq<KvPair>) {
    forall i, j :: 0 <= i < j < |pairs| ==> pairs[i].key != pairs[j].key
  }

  ghost predicate OwnedBy(pairs: seq<KvPair>, s: SectionNode) {
    forall i :: 0 <= i < |pairs| ==> pairs[i].owner == s
  }

  ghost function EntriesOf(pairs: seq<KvPair>): (es: seq<Entry>)
    reads pairs
  {
    seq(|pairs|, i requires 0 <= i < |pairs| reads pairs => Entry(pairs[i].key, pairs[i].value))
  }

  class SectionNode {
    var next: SectionNode?
    var valuesHead: KvPair?
    var valuesTail: KvPair?
    const name: string
    /** The linked pairs, in list order. */
    ghost var pairs: seq<KvPair>

    ghost predicate Valid()
      reads this`valuesHead, this`valuesTail, this`pairs, pairs`next
    {
      && Linked()
      && (pairs != [] ==> valuesTail == pairs[|pairs| - 1])
      && OwnedBy(pairs, this)
      && DistinctKeys(pairs)
    }

    /** The next pointers run through `pairs` and end in null. */
    ghost predicate Linked()
      reads this`valuesHead, this`pairs, pairs`next
    {
      && valuesHead == PairAt(0)
      && forall i {:trigger pairs[i].next} :: 0 <= i < |pairs| ==> pairs[i].next == PairAt(i + 1)
    }

    ghost function PairAt(i: nat): KvPair?
      reads this`pairs
    {
      if i < |pairs| then pairs[i] else null
    }

    ghost function Entries(): (es: seq<Entry>)
      reads this`pairs, pairs
      ensures |es| == |pairs|
      ensures forall i :: 0 <= i < |es| ==> es[i] == Entry(pairs[i].key, pairs[i].value)
    {
      EntriesOf(pairs)
    }

    constructor (name: string)
      ensures Valid() && this.name == name && next == null && pairs == []
    {
      this.next := null;
      this.valuesHead := null;
      this.valuesTail := null;
      this.name := name;
      this.pairs := [];
    }

    method LookupKvPair(key: string) returns (kv: KvPair?)
      requires Valid()
      ensures kv == PairAt(FindKey(Entries(), key))
    {
      kv := valuesHead;
      ghost var i := 0;
      while kv != null
        invariant i <= |pairs| && kv == PairAt(i)
        invariant forall k :: 0 <= k < i ==> pairs[k].key != key
        decreases |pairs| - i
      {
        if kv.key == key {
          FindKeyIs(Entries(), key, i);
          return;
        }
        kv := kv.next;
        i := i + 1;
      }
      FindKeyIs(Entries(), key, |pairs|);
    }

    /** Link a new pair behind the last one. */
    method Append(kv: KvPair)
      requires Valid() && kv.owner == this && kv.next == null
      requires forall i :: 0 <= i < |pairs| ==> pairs[i].key != kv.key
      modifies this`valuesHead, this`valuesTail, this`pairs, pairs`next
      ensures Valid() && pairs == old(pairs) + [kv]
    {
      if valuesHead == null {
        valuesHead := kv;
      } else {
        valuesTail.next := kv;
      }
      valuesTail := kv;
      pairs := pairs + [kv];
    }

    method DoStoreValue(key: string, value: string) returns (kv: KvPair)
      requires Valid()
      modifies this`valuesHead, this`valuesTail, this`pairs, pairs
      ensures Valid()
      ensures Entries() == Put(old(Entries()), key, value)
      ensures kv in pairs && kv.key == key && kv.value == value
      ensures pairs == old(pairs) || (fresh(kv) && pairs == old(pairs) + [kv])
    {
      ghost var before, i := Entries(), FindKey(Entries(), key);
      var found := LookupKvPair(key);
      if found != null {
        kv := found;
        Replace(kv, value, i);
      } else {
        kv := new KvPair(key, value, this);
        Append(kv);
      }
      assert i == |before| ==> Entries() == before + [Entry(key, value)];
    }

    /** Overwrite the value of the pair at position `i`. */
    method Replace(kv: KvPair, value: string, ghost i: nat)
      requires Valid() && i < |pairs| && kv == pairs[i]
      modifies kv`value
      ensures Valid() && kv.value == value
      ensures Entries() == old(Entries())[i := Entry(kv.key, value)]
    {
      kv.value := value;
    }

    /** The pair with the given key and the one in front of it. */
    method FindPair(key: string) returns (kv: KvPair?, preceding: KvPair?, ghost i: nat)
      requires Valid()
      ensures i == FindKey(Entries(), key)
      ensures kv == PairAt(i) && preceding == if i == 0 then null else PairAt(i - 1)
    {
      preceding, kv, i := null, valuesHead, 0;
      while kv != null
        invariant i <= |pairs| && kv == PairAt(i)
        invariant preceding == if i == 0 then null else PairAt(i - 1)
        invariant forall k :: 0 <= k < i ==> pairs[k].key != key
        decreases |pairs| - i
      {
        if kv.key == key {
          break;
        }
        preceding := kv;
        kv := kv.next;
        i := i + 1;
      }
      FindKeyIs(Entries(), key, i);
    }

    method RemoveValue(key: string) returns (removed: bool)
      requires Valid()
      modifies this`valuesHead, this`valuesTail, this`pairs, pairs`next
      ensures Valid()
      ensures removed <==> FindKey(old(Entries()), key) < |old(Entries())|
      ensures Entries() == Remove(old(Entries()), key)
      ensures if removed then TakenOut(old(pairs), FindKey(old(Entries()), key), pairs) else pairs == old(pairs)
      ensures removed ==> TakenOut(old(Entries()), FindKey(old(Entries()), key), Entries())
      ensures forall p :: p in pairs ==> p in old(pairs)
    {
      hide Remove, FindKey, Valid;
      var kv, preceding, i := FindPair(key);
      removed := kv != null;
      if kv != null {
        UnlinkEntry(kv, preceding, i);
        UnlinkedEntries(old(Entries()), key, Entries());
      } else {
        NothingToRemove(Entries(), key);
      }
    }

    method UnlinkEntry(kv: KvPair, preceding: KvPair?, ghost i: nat)
      requires Valid() && i < |pairs| && kv == pairs[i]
      requires preceding == if i == 0 then null else PairAt(i - 1)
      modifies this`valuesHead, this`valuesTail, this`pairs, pairs`next
      ensures Valid()
      ensures TakenOut(old(pairs), i, pairs) && TakenOut(old(Entries()), i, Entries())
    {
      hide Valid;
      Unlink(kv, preceding, i);
    }

    /** Redirect the pointers around the pair at position `i`. */
    method Relink(kv: KvPair, preceding: KvPair?, ghost i: nat)
      requires i < |pairs| && kv == pairs[i]
      requires Linked() && DistinctKeys(pairs) && valuesTail == pairs[|pairs| - 1]
      requires preceding == if i == 0 then null else PairAt(i - 1)
      modifies this`valuesHead, this`valuesTail, this`pairs, pairs`next
      ensures Linked() && pairs == old(pairs)[..i] + old(pairs)[i + 1..]
      ensures pairs != [] ==> valuesTail == pairs[|pairs| - 1]
    {
      if valuesHead == kv {
        valuesHead := kv.next;
      } else {
        preceding.next := kv.next;
      }
      if valuesTail == kv {
        valuesTail := preceding;
      }
      pairs := pairs[..i] + pairs[i + 1..];
      forall j | 0 <= j < |pairs| ensures pairs[j].next == PairAt(j + 1) {
        assert pairs[j] == old(pairs)[if j < i then j else j + 1];
      }
    }

    /** Take the pair at position `i` out of the list. */
    method Unlink(kv: KvPair, preceding: KvPair?, ghost i: nat)
      requires Valid() && i < |pairs| && kv == pairs[i]
      requires preceding == if i == 0 then null else PairAt(i - 1)
      modifies this`valuesHead, this`valuesTail, this`pairs, pairs`next
      ensures Valid()
      ensures TakenOut(old(pairs), i, pairs)
    {
      hide Linked, DistinctKeys, OwnedBy, TakenOut;
      TakenOutPairs(pairs, i, pairs[..i] + pairs[i + 1..], this);
      Relink(kv, preceding, i);
    }
  }

  lemma TakenOutPairs(before: seq<KvPair>, i: nat, after: seq<KvPair>, s: SectionNode)
    requires i < |before| && after == before[..i] + before[i + 1..]
    requires DistinctKeys(before) && OwnedBy(before, s)
    ensures TakenOut(before, i, after) && DistinctKeys(after) && OwnedBy(after, s)
  {
  }

  lemma UnlinkedEntries(before: seq<Entry>, key: string, after: seq<Entry>)
    requires TakenOut(before, FindKey(before, key), after)
    ensures after == Remove(before, key)
  {
  }

  lemma NothingToRemove(before: seq<Entry>, key: string)
    requires FindKey(before, key) == |before|
    ensures before == Remove(before, key)
  {
  }
}
