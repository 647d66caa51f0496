/**
 Settings as they are kept in one section of an INI file: how a value becomes
 text and back, what a store makes of an old file, and what a load finds.
 */
module Settings {
  import opened Wrappers
  import opened Text
  import opened Numbers
  import opened IniStore
  import opened IniLines
  import opened IniPrint
  import opened IniSpill

  datatype Kind = TextKind | UintKind(bits: nat) | FlagKind

  datatype Value = TextValue(s: string) | UintValue(n: nat) | FlagValue(b: bool)

  /** A key such as `@owner:section:name`; only the part behind the last colon gets into the file. */
  datatype Key = Key(name: string, kind: Kind) {
    function LocalName(): string {
      name[FindVarnameOffset(name)..]
    }
  }

  /** Size of the buffer that values are serialized to, terminator included. */
  const BUFFER_SIZE := 128

  /** Behind the last colon, or 0. */
  function FindVarnameOffset(key: string): (i: nat)
    ensures i <= |key|
    ensures i > 0 ==> key[i - 1] == ':'
    ensures forall k :: i <= k < |key| ==> key[k] != ':'
  {
    if key == "" then 0
    else if key[|key| - 1] == ':' then |key|
    else FindVarnameOffset(key[..|key| - 1])
  }

  /** What a key is called in the file: the part of its name behind all colons. */
  ghost predicate IsCalled(key: Key, local: string) {
    ':' !in local && (key.name == local || exists prefix :: key.name == prefix + ":" + local)
  }

  lemma LocalNameIs(key: Key, local: string)
    ensures IsCalled(key, local) <==> key.LocalName() == local
  {
    HasLocalName(key);
    if IsCalled(key, local) {
      if key.name == local {
        OffsetIs(key.name, 0);
      } else {
        var prefix :| key.name == prefix + ":" + local;
        OffsetBehind(key.name, prefix, local);
      }
    }
  }

  lemma HasLocalName(key: Key)
    ensures IsCalled(key, key.LocalName())
  {
    var i := FindVarnameOffset(key.name);
    if i > 0 {
      assert key.name == key.name[..i - 1] + ":" + key.LocalName();
    }
  }

  lemma OffsetIs(name: string, i: nat)
    requires i <= |name| && (i > 0 ==> name[i - 1] == ':') && forall k :: i <= k < |name| ==> name[k] != ':'
    ensures FindVarnameOffset(name) == i
  {
    hide FindVarnameOffset;
  }

  lemma OffsetBehind(name: string, prefix: string, local: string)
    requires name == prefix + ":" + local && ':' !in local
    ensures FindVarnameOffset(name) == |prefix| + 1 && name[|prefix| + 1..] == local
  {
    assert forall k :: |prefix| < k < |name| ==> name[k] == local[k - |prefix| - 1];
    OffsetIs(name, |prefix| + 1);
  }

  /** Whatever is in front of the last colon, such as an owner and a section, does not get into the file. */
  lemma PrefixIsDropped(prefix: string, local: string, kind: Kind)
    requires ':' !in local
    ensures Key(prefix + ":" + local, kind).LocalName() == local
    ensures Key(local, kind).LocalName() == local
  {
    LocalNameIs(Key(prefix + ":" + local, kind), local);
    LocalNameIs(Key(local, kind), local);
  }

  predicate OfKind(v: Value, kind: Kind) {
    match kind
    case TextKind => v.TextValue?
    case UintKind(bits) => v.UintValue? && bits in {16, 32, 64} && v.n < MaxPlusOne(bits)
    case FlagKind => v.FlagValue?
  }

  function MaxPlusOne(bits: nat): nat {
    if bits == 16 then 0x1_0000 else if bits == 32 then 0x1_0000_0000 else U64_LIMIT
  }

  // ----- one value

  function Serialize(v: Value): string {
    match v
    case TextValue(s) => s
    case UintValue(n) => Decimal(n)
    case FlagValue(b) => if b then "true" else "false"
  }

  /** What a C function sees in the buffer afterwards. */
  function Buffered(v: Value): string {
    var s := Serialize(v);
    CString(s[..if |s| < BUFFER_SIZE - 1 then |s| else BUFFER_SIZE - 1])
  }

  /** `default_deserialize`: the value, if the text is accepted, and errno afterwards. */
  function Deserialize(kind: Kind, text: string, erange: bool): (Option<Value>, bool) {
    match kind
    case TextKind => (Some(TextValue(text)), erange)
    case FlagKind => (Some(FlagValue(text == "true")), erange)
    case UintKind(bits) =>
      var r := StrToUll(text, erange);
      if r.end != |text| || (r.value == U64_LIMIT - 1 && r.erange) then (None, r.erange)
      else if r.value >= MaxPlusOne(bits) then (None, r.erange)
      else (Some(UintValue(r.value)), r.erange)
  }

  /** The text in the buffer is the longest that fits: all of it, up to a NUL, or 127 characters. */
  lemma BufferedExactly(v: Value)
    ensures var b, s := Buffered(v), Serialize(v);
      && b <= s && |b| < BUFFER_SIZE && '\0' !in b
      && (|b| < BUFFER_SIZE - 1 && |b| < |s| ==> s[|b|] == '\0')
  {
    var s := Serialize(v);
    var cut := s[..if |s| < BUFFER_SIZE - 1 then |s| else BUFFER_SIZE - 1];
    assert Buffered(v) == cut[..|Buffered(v)|];
  }

  /** Flags are these two words, and every other text is read as false. */
  lemma FlagTexts(text: string, erange: bool)
    ensures Serialize(FlagValue(true)) == "true" && Serialize(FlagValue(false)) == "false"
    ensures Deserialize(FlagKind, text, erange) == (Some(FlagValue(text == "true")), erange)
    ensures Serialize(TextValue(text)) == text && Deserialize(TextKind, text, erange) == (Some(TextValue(text)), erange)
  {
  }

  /** The one number that a stale range error makes unreadable. */
  predicate Suspicious(v: Value) {
    v == UintValue(U64_LIMIT - 1)
  }

  /** A value comes back from its own text, with errno as it was, unless it is mistaken for an overflow. */
  lemma DeserializeSerialized(v: Value, kind: Kind, erange: bool)
    requires OfKind(v, kind)
    ensures Deserialize(kind, Serialize(v), erange) == (if erange && Suspicious(v) then None else Some(v), erange)
  {
    if v.UintValue? {
      ReadPrinted(v.n, erange);
    }
  }

  /**
   Exactly these texts are numbers, whoever wrote them: the empty one is zero, a
   sign is allowed, and a range error that is still pending costs the largest one.
   */
  lemma NumberIsReadExactly(text: string, bits: nat, erange: bool, n: nat)
    ensures Deserialize(UintKind(bits), text, erange).0 == Some(UintValue(n)) <==>
            && n < MaxPlusOne(bits)
            && ((text == "" && n == 0) ||
                (exists spaces, sign, digits ::
                   && text == spaces + sign + digits && IsNumberText(spaces, sign, digits)
                   && DigitsValue(digits) < U64_LIMIT && n == Represented(sign, digits)
                   && !(erange && n == U64_LIMIT - 1)))
  {
    hide StrToUll, DigitsValue;
    if text == "" {
      EmptyIsZero(erange);
    } else {
      if StrToUll(text, erange).end == |text| {
        var spaces, sign, digits := OnlyNumberTextIsRead(text, erange);
        assert text == spaces + sign + digits + "";
        NumberTextIsRead(text, spaces, sign, digits, "", erange);
      }
      forall spaces, sign, digits | text == spaces + sign + digits && IsNumberText(spaces, sign, digits)
        ensures StrToUll(text, erange) ==
                if DigitsValue(digits) >= U64_LIMIT then Scanned(U64_LIMIT - 1, |text|, true)
                else Scanned(Represented(sign, digits), |text|, erange)
      {
        assert text == spaces + sign + digits + "";
        NumberTextIsRead(text, spaces, sign, digits, "", erange);
      }
    }
  }

  /** What is made of a printed number behind white space and a sign, and how large it may be. */
  lemma PrintedNumberIsRead(spaces: string, sign: string, n: nat, bits: nat)
    requires forall k :: 0 <= k < |spaces| ==> spaces[k] as int == 32 || 9 <= spaces[k] as int <= 13
    requires sign == "" || sign == "+" || sign == "-"
    requires bits in {16, 32, 64} && n < 18446744073709551616
    ensures var value := if sign == "-" && n > 0 then 18446744073709551616 - n else n;
      Deserialize(UintKind(bits), spaces + sign + Decimal(n), false).0 ==
      if (bits == 16 && value > 65535) || (bits == 32 && value > 4294967295) then None else Some(UintValue(value))
  {
    hide StrToUll, Decimal, DigitsValue;
    var text := spaces + sign + Decimal(n);
    DecimalValue(n);
    assert text == spaces + sign + Decimal(n) + "";
    NumberTextIsRead(text, spaces, sign, Decimal(n), "", false);
  }

  lemma EmptyIsZero(erange: bool)
    ensures StrToUll("", erange) == Scanned(0, 0, erange)
  {
  }

  /** Which values get into the file, and back out of it, as they are. */
  predicate Storable(v: Value) {
    v.TextValue? ==> PrintableValue(v.s) && |v.s| < BUFFER_SIZE
  }

  lemma NumbersAreStorable(v: Value, kind: Kind)
    requires OfKind(v, kind) && !v.TextValue?
    ensures PrintableValue(Serialize(v)) && |Serialize(v)| < BUFFER_SIZE
  {
    if v.UintValue? {
      U64Length(v.n);
    }
  }

  lemma StorableIsBuffered(v: Value, kind: Kind)
    requires OfKind(v, kind) && Storable(v)
    ensures Buffered(v) == Serialize(v) && PrintableValue(Serialize(v))
  {
    if !v.TextValue? {
      NumbersAreStorable(v, kind);
    }
    var s := Serialize(v);
    assert s[..|s|] == s;
    NulFree(s);
  }

  // ----- the whole table

  ghost predicate Typed(keys: seq<Key>, values: seq<Value>) {
    |values| == |keys| && forall i :: 0 <= i < |keys| ==> OfKind(values[i], keys[i].kind)
  }

  /** Distinct names that are good INI keys. */
  ghost predicate GoodKeys(keys: seq<Key>) {
    && (forall i :: 0 <= i < |keys| ==> PrintableKey(keys[i].LocalName()))
    && (forall i, j :: 0 <= i < j < |keys| ==> keys[i].LocalName() != keys[j].LocalName())
  }

  /** The entries of the section after the first `n` values were stored. */
  function StoreFirst(entries: seq<Entry>, keys: seq<Key>, values: seq<Value>, n: nat): seq<Entry>
    requires n <= |keys| == |values|
  {
    if n == 0 then entries
    else
      var before := StoreFirst(entries, keys, values, n - 1);
      if keys[n - 1].LocalName() == "" then before
      else Put(before, keys[n - 1].LocalName(), Buffered(values[n - 1]))
  }

  /** The structure that a store writes. */
  function StoreInDoc(doc: Doc, section: string, keys: seq<Key>, values: seq<Value>): Doc
    requires |keys| == |values|
  {
    var all := NewSection(doc, section);
    var i := FindSection(all, section);
    if i < |all| then all[i := Section(section, StoreFirst(all[i].entries, keys, values, |keys|))] else all
  }

  /** What the parser makes of a file; a missing or empty one cannot be mapped. */
  function FileDoc(content: Option<string>): Doc {
    if content.None? || content.value == "" then [] else Parse(content.value).doc
  }

  /** The file after a store. */
  function Stored(content: Option<string>, section: string, keys: seq<Key>, values: seq<Value>): string
    requires |keys| == |values|
  {
    Print(StoreInDoc(FileDoc(content), section, keys, values))
  }

  /**
   The table after the first `n` keys were looked up, and whether there is a range
   error in errno; mapping and unmapping the file have cleared it before.
   */
  function LoadFirst(entries: seq<Entry>, keys: seq<Key>, values: seq<Value>, n: nat): (r: (seq<Value>, bool))
    requires n <= |keys| == |values|
    ensures |r.0| == |keys|
  {
    if n == 0 then (values, false)
    else
      var before := LoadFirst(entries, keys, values, n - 1);
      match Lookup(entries, keys[n - 1].LocalName())
      case None => before
      case Some(text) =>
        var r := Deserialize(keys[n - 1].kind, text, before.1);
        (if r.0.Some? then before.0[n - 1 := r.0.value] else before.0, r.1)
  }

  /** `try_load`: the loaded table, on top of the defaults. */
  function Loaded(content: Option<string>, section: string, keys: seq<Key>, defaults: seq<Value>)
    : Option<seq<Value>>
    requires |keys| == |defaults|
  {
    if content.None? || content.value == "" then None
    else
      var doc := FileDoc(content);
      var i := FindSection(doc, section);
      if i == |doc| then None else Some(LoadFirst(doc[i].entries, keys, defaults, |keys|).0)
  }

  // ----- storing

  lemma {:induction false} StoreFirstLookup(entries: seq<Entry>, keys: seq<Key>, values: seq<Value>, n: nat, name: string)
    requires n <= |keys| == |values| && GoodKeys(keys)
    ensures forall i :: 0 <= i < n && keys[i].LocalName() == name ==>
      Lookup(StoreFirst(entries, keys, values, n), name) == Some(Buffered(values[i]))
    ensures (forall i :: 0 <= i < n ==> keys[i].LocalName() != name) ==>
      Lookup(StoreFirst(entries, keys, values, n), name) == Lookup(entries, name)
  {
    hide Lookup, Put, Buffered, PrintableKey, Key.LocalName;
    if n > 0 {
      assert keys[n - 1].LocalName() != "" by { KeyNotEmpty(keys[n - 1].LocalName()); }
      StoreFirstLookup(entries, keys, values, n - 1, name);
      LookupAfterPut(StoreFirst(entries, keys, values, n - 1), keys[n - 1].LocalName(), Buffered(values[n - 1]), name);
    }
  }

  lemma KeyNotEmpty(key: string)
    requires PrintableKey(key)
    ensures key != ""
  {
  }

  /** Storing keeps the other keys where they are, and appends what is new. */
  lemma {:induction false} StoreFirstOrder(entries: seq<Entry>, keys: seq<Key>, values: seq<Value>, n: nat)
    requires n <= |keys| == |values| && GoodKeys(keys) && UniqueKeys(entries)
    ensures var after := StoreFirst(entries, keys, values, n);
      && UniqueKeys(after)
      && |entries| <= |after|
      && (forall j :: 0 <= j < |entries| ==> after[j].key == entries[j].key)
      && (forall j :: 0 <= j < |entries| && (forall i :: 0 <= i < n ==> keys[i].LocalName() != entries[j].key) ==>
            after[j] == entries[j])
      && (forall j :: |entries| <= j < |after| ==> exists i :: 0 <= i < n && keys[i].LocalName() == after[j].key)
  {
    hide Buffered, PrintableKey, Key.LocalName, UniqueKeys;
    if n > 0 {
      StoreFirstOrder(entries, keys, values, n - 1);
      var before := StoreFirst(entries, keys, values, n - 1);
      PutKeepsUnique(before, keys[n - 1].LocalName(), Buffered(values[n - 1]));
    }
  }

  // ----- the structure that is written

  /** One section is rewritten or appended; all other sections are copied. */
  lemma StoreInDocShape(doc: Doc, section: string, keys: seq<Key>, values: seq<Value>)
    requires Shaped(doc) && PrintableName(section) && GoodKeys(keys) && |keys| == |values|
    ensures var after := StoreInDoc(doc, section, keys, values);
      var i := FindSection(doc, section);
      && Shaped(after)
      && FindSection(after, section) == i < |after|
      && |after| == (if i < |doc| then |doc| else |doc| + 1)
      && (forall j :: 0 <= j < |doc| && j != i ==> after[j] == doc[j])
      && after[i] == Section(section, StoreFirst(if i < |doc| then doc[i].entries else [], keys, values, |keys|))
  {
    hide StoreFirst, PrintableKey, PrintableName;
    NewSectionShaped(doc, section, v => true);
    var all := NewSection(doc, section);
    NewSectionKeeps(doc, section);
    var i := FindSection(doc, section);
    StoredEntriesShaped(all[i].entries, keys, values);
    var after := StoreInDoc(doc, section, keys, values);
    FindSectionIs(after, section, i);
  }

  lemma StoredEntriesShaped(entries: seq<Entry>, keys: seq<Key>, values: seq<Value>)
    requires UniqueKeys(entries) && ShapedEntries(entries) && GoodKeys(keys) && |keys| == |values|
    ensures var after := StoreFirst(entries, keys, values, |keys|);
      UniqueKeys(after) && ShapedEntries(after)
  {
    hide StoreFirst, PrintableKey;
    StoreFirstOrder(entries, keys, values, |keys|);
  }

  /** Where a value in the stored section comes from. */
  lemma StoredValue(entries: seq<Entry>, keys: seq<Key>, values: seq<Value>, j: nat) returns (i: nat)
    requires GoodKeys(keys) && |keys| == |values| && UniqueKeys(entries)
    requires j < |StoreFirst(entries, keys, values, |keys|)|
    ensures var after := StoreFirst(entries, keys, values, |keys|);
      || (i < |keys| && keys[i].LocalName() == after[j].key && after[j].value == Buffered(values[i]))
      || (j < |entries| && after[j] == entries[j])
  {
    hide StoreFirst, PrintableKey, Key.LocalName, Buffered;
    var after := StoreFirst(entries, keys, values, |keys|);
    StoreFirstOrder(entries, keys, values, |keys|);
    i := 0;
    if k :| 0 <= k < |keys| && keys[k].LocalName() == after[j].key {
      i := k;
      StoreFirstLookup(entries, keys, values, |keys|, after[j].key);
      FindKeyIs(after, after[j].key, j);
    }
  }

  // ----- loading what was stored

  /** Every key is found with the text that `texts` gives for it. */
  ghost predicate AllFound(entries: seq<Entry>, keys: seq<Key>, texts: seq<string>) {
    |texts| == |keys| && forall i :: 0 <= i < |keys| ==> Lookup(entries, keys[i].LocalName()) == Some(texts[i])
  }

  // ----- what a load makes of each key, and what a range error costs

  /** Among the first `n` keys there is one whose text is a number beyond 64 bits. */
  ghost predicate SpoiltBefore(entries: seq<Entry>, keys: seq<Key>, n: nat)
    requires n <= |keys|
  {
    exists j :: 0 <= j < n && Spoils(entries, keys[j])
  }

  ghost predicate Spoils(entries: seq<Entry>, key: Key) {
    key.kind.UintKind? && Lookup(entries, key.LocalName()).Some? && Overflows(Lookup(entries, key.LocalName()).value)
  }

  lemma DeserializeLeaves(kind: Kind, text: string, erange: bool)
    ensures Deserialize(kind, text, erange).1 <==> erange || (kind.UintKind? && Overflows(text))
  {
    hide StrToUll, Overflows;
    RangeErrorExactly(text, erange);
  }

  /** A range error is pending exactly behind a key with such a text. */
  lemma {:induction false} RangeErrorPending(entries: seq<Entry>, keys: seq<Key>, defaults: seq<Value>, n: nat)
    requires n <= |keys| == |defaults|
    ensures LoadFirst(entries, keys, defaults, n).1 <==> SpoiltBefore(entries, keys, n)
  {
    hide Lookup, Deserialize, Key.LocalName, Overflows, Spoils;
    if n > 0 {
      RangeErrorPending(entries, keys, defaults, n - 1);
      SpoilsOrNot(entries, keys, defaults, n);
      assert SpoiltBefore(entries, keys, n) <==> SpoiltBefore(entries, keys, n - 1) || Spoils(entries, keys[n - 1]);
    }
  }

  lemma SpoilsOrNot(entries: seq<Entry>, keys: seq<Key>, defaults: seq<Value>, n: nat)
    requires 0 < n <= |keys| == |defaults|
    ensures LoadFirst(entries, keys, defaults, n).1 <==>
            LoadFirst(entries, keys, defaults, n - 1).1 || Spoils(entries, keys[n - 1])
  {
    hide Lookup, Deserialize, Key.LocalName, Overflows;
    var found := Lookup(entries, keys[n - 1].LocalName());
    if found.Some? {
      DeserializeLeaves(keys[n - 1].kind, found.value, LoadFirst(entries, keys, defaults, n - 1).1);
    }
  }

  /** Each key is looked up and read for itself, but for a range error from a key in front of it. */
  lemma {:induction false} LoadFirstAt(entries: seq<Entry>, keys: seq<Key>, defaults: seq<Value>, n: nat, i: nat)
    requires n <= |keys| == |defaults| && i < |keys|
    ensures LoadFirst(entries, keys, defaults, n).0[i] ==
            if i < n && Lookup(entries, keys[i].LocalName()).Some? then
              var d := Deserialize(keys[i].kind, Lookup(entries, keys[i].LocalName()).value,
                                   SpoiltBefore(entries, keys, i)).0;
              if d.Some? then d.value else defaults[i]
            else defaults[i]
  {
    hide Lookup, Deserialize, Key.LocalName, SpoiltBefore;
    if n > 0 {
      LoadFirstAt(entries, keys, defaults, n - 1, i);
      RangeErrorPending(entries, keys, defaults, n - 1);
    }
  }

  /**
   In any file, a text that stands for the largest 64-bit number is refused exactly
   if an earlier key of the table has a text that is a number beyond 64 bits.
   */
  lemma MaximumIsRefusedExactly(content: string, section: string, keys: seq<Key>, defaults: seq<Value>, i: nat,
                                spaces: string, sign: string, digits: string)
    requires |defaults| == |keys| && i < |keys| && keys[i].kind == UintKind(64)
    requires IsNumberText(spaces, sign, digits)
    requires DigitsValue(digits) < U64_LIMIT && Represented(sign, digits) == U64_LIMIT - 1
    requires content != "" && FindSection(Parse(content).doc, section) < |Parse(content).doc|
    requires var entries := Parse(content).doc[FindSection(Parse(content).doc, section)].entries;
      Lookup(entries, keys[i].LocalName()) == Some(spaces + sign + digits)
    ensures var entries := Parse(content).doc[FindSection(Parse(content).doc, section)].entries;
      var loaded := Loaded(Some(content), section, keys, defaults);
      && loaded.Some?
      && loaded.value[i] ==
         if exists j :: 0 <= j < i && Spoils(entries, keys[j]) then defaults[i] else UintValue(U64_LIMIT - 1)
  {
    hide Parse, Lookup, Key.LocalName, Spoils, IsNumberText, DigitsValue, Represented, LoadFirst, Deserialize;
    var entries := Parse(content).doc[FindSection(Parse(content).doc, section)].entries;
    LoadFirstAt(entries, keys, defaults, |keys|, i);
    MaximumIsRead(spaces, sign, digits, SpoiltBefore(entries, keys, i));
  }

  lemma MaximumIsRead(spaces: string, sign: string, digits: string, erange: bool)
    requires IsNumberText(spaces, sign, digits)
    requires DigitsValue(digits) < U64_LIMIT && Represented(sign, digits) == U64_LIMIT - 1
    ensures Deserialize(UintKind(64), spaces + sign + digits, erange).0 ==
            if erange then None else Some(UintValue(U64_LIMIT - 1))
  {
    var text := spaces + sign + digits;
    assert text == spaces + sign + digits + "";
    NumberTextIsRead(text, spaces, sign, digits, "", erange);
    hide StrToUll, IsNumberText, DigitsValue, Represented;
  }

  const TOO_LARGE := "18446" + "74407" + "37095" + "51616"
  const LARGEST := "18446" + "74407" + "37095" + "51615"

  lemma LargeDigits()
    ensures AllDigits(TOO_LARGE) && DigitsValue(TOO_LARGE) == U64_LIMIT
    ensures AllDigits(LARGEST) && DigitsValue(LARGEST) == U64_LIMIT - 1
  {
    FiveDigits("18446");
    FiveMore("18446", "74407");
    FiveMore("18446" + "74407", "37095");
    FiveMore("18446" + "74407" + "37095", "51616");
    FiveMore("18446" + "74407" + "37095", "51615");
    hide DigitsValue;
  }

  lemma FiveDigits(s: string)
    requires |s| == 5 && AllDigits(s)
    ensures DigitsValue(s) == 10000 * ValueOf(s[0]) + 1000 * ValueOf(s[1]) + 100 * ValueOf(s[2])
                              + 10 * ValueOf(s[3]) + ValueOf(s[4])
  {
    assert s[..4][..3] == s[..3] && s[..3][..2] == s[..2] && s[..2][..1] == s[..1] && s[..1][..0] == "";
    assert DigitsValue(s[..1]) == ValueOf(s[0]);
    assert DigitsValue(s[..2]) == DigitsValue(s[..1]) * 10 + ValueOf(s[1]);
    assert DigitsValue(s[..3]) == DigitsValue(s[..2]) * 10 + ValueOf(s[2]);
    assert DigitsValue(s[..4]) == DigitsValue(s[..3]) * 10 + ValueOf(s[3]);
  }

  lemma FiveMore(s: string, t: string)
    requires AllDigits(s) && |t| == 5 && AllDigits(t)
    ensures AllDigits(s + t)
    ensures DigitsValue(s + t) == DigitsValue(s) * 100000 + 10000 * ValueOf(t[0]) + 1000 * ValueOf(t[1])
                                  + 100 * ValueOf(t[2]) + 10 * ValueOf(t[3]) + ValueOf(t[4])
  {
    FiveDigits(t);
    DigitsConcat(s, t);
    assert Power10(5) == 100000;
  }

  lemma ReadLarge()
    ensures TOO_LARGE != "" && AllDigits(TOO_LARGE) && IsNumberText("", "", LARGEST) && DigitsValue(LARGEST) == U64_LIMIT - 1
    ensures Overflows(TOO_LARGE)
    ensures Deserialize(UintKind(64), TOO_LARGE, false) == (None, true)
  {
    LargeDigits();
    assert TOO_LARGE == "" + "" + TOO_LARGE + "";
    hide DigitsValue;
    NumberTextIsRead(TOO_LARGE, "", "", TOO_LARGE, "", false);
  }

  function SmallDoc(a: string, b: string): Doc {
    [Section("s", [Entry("a", a), Entry("b", b)])]
  }

  lemma SmallIsPrintable(a: string, b: string)
    requires PrintableValue(a) && PrintableValue(b)
    ensures Printable(SmallDoc(a, b))
  {
    hide PrintableValue;
    assert "a"[0] != "b"[0];
    assert PrintableKey("a") && PrintableKey("b") && PrintableName("s");
  }

  lemma SmallPrinted(a: string, b: string)
    requires CString(a) == a && CString(b) == b
    ensures Print(SmallDoc(a, b)) == "[s]\na = " + a + "\nb = " + b + "\n"
  {
    hide CString;
    var ea, eb := Entry("a", a), Entry("b", b);
    assert [ea, eb][1..] == [eb] && [eb][1..] == [];
    assert PrintEntries([eb]) == PrintEntry(eb) + "";
    assert PrintEntries([ea, eb]) == PrintEntry(ea) + PrintEntries([eb]);
    assert SmallDoc(a, b)[1..] == [];
    assert Print(SmallDoc(a, b)) == PrintSection(SmallDoc(a, b)[0]) + "";
  }

  lemma SmallFound(a: string, b: string)
    ensures Lookup([Entry("a", a), Entry("b", b)], "a") == Some(a)
    ensures Lookup([Entry("a", a), Entry("b", b)], "b") == Some(b)
    ensures FindSection(SmallDoc(a, b), "s") == 0
  {
    assert "a"[0] != "b"[0];
    FindKeyIs([Entry("a", a), Entry("b", b)], "b", 1);
  }

  lemma SmallKeys()
    ensures Key("a", UintKind(64)).LocalName() == "a" && Key("b", UintKind(64)).LocalName() == "b"
  {
  }

  lemma SmallLoads(content: string, a: string, b: string)
    requires content != "" && Parse(content).doc == SmallDoc(a, b)
    requires IsNumberText("", "", b) && DigitsValue(b) == U64_LIMIT - 1
    requires Overflows(a) ==> Deserialize(UintKind(64), a, false).0 == None
    ensures var loaded := Loaded(Some(content), "s", [Key("a", UintKind(64)), Key("b", UintKind(64))],
                                 [UintValue(0), UintValue(0)]);
      && loaded.Some? && |loaded.value| == 2
      && (Overflows(a) ==> loaded.value == [UintValue(0), UintValue(0)])
      && (!Overflows(a) ==> loaded.value[1] == UintValue(U64_LIMIT - 1))
  {
    hide Parse, Overflows, DigitsValue, IsNumberText, StrToUll, Deserialize, LoadFirst, Lookup, Key.LocalName, SmallDoc;
    var keys, zeros := [Key("a", UintKind(64)), Key("b", UintKind(64))], [UintValue(0), UintValue(0)];
    var entries := [Entry("a", a), Entry("b", b)];
    SmallKeys();
    SmallFound(a, b);
    SmallSection(a, b);
    assert b == "" + "" + b;
    MaximumIsRefusedExactly(content, "s", keys, zeros, 1, "", "", b);
    assert Spoils(entries, keys[0]) <==> Overflows(a);
    LoadFirstAt(entries, keys, zeros, 2, 0);
  }

  lemma SmallSection(a: string, b: string)
    ensures |SmallDoc(a, b)| == 1 && SmallDoc(a, b)[0].entries == [Entry("a", a), Entry("b", b)]
  {
  }

  lemma DigitsArePrintable(s: string)
    requires s != "" && AllDigits(s)
    ensures PrintableValue(s) && CString(s) == s
  {
    NulFree(s);
  }

  /** A number that does not fit costs the largest one behind it: both keys keep their defaults. */
  lemma OverflowCostsMaximum()
    ensures Loaded(Some("[s]\na = " + TOO_LARGE + "\nb = " + LARGEST + "\n"), "s",
                   [Key("a", UintKind(64)), Key("b", UintKind(64))], [UintValue(0), UintValue(0)]) ==
            Some([UintValue(0), UintValue(0)])
  {
    ReadLarge();
    hide *;
    OverflowCosts(TOO_LARGE, LARGEST);
  }

  lemma OverflowCosts(a: string, b: string)
    requires a != "" && AllDigits(a) && Overflows(a) && Deserialize(UintKind(64), a, false).0 == None
    requires IsNumberText("", "", b) && DigitsValue(b) == U64_LIMIT - 1
    ensures Loaded(Some("[s]\na = " + a + "\nb = " + b + "\n"), "s",
                   [Key("a", UintKind(64)), Key("b", UintKind(64))], [UintValue(0), UintValue(0)]) ==
            Some([UintValue(0), UintValue(0)])
  {
    DigitsArePrintable(a);
    DigitsArePrintable(b);
    hide *;
    SmallIsPrintable(a, b);
    SmallPrinted(a, b);
    var content := "[s]\na = " + a + "\nb = " + b + "\n";
    RoundTripExactly(SmallDoc(a, b));
    SmallLoads(content, a, b);
  }

  /** A text value that is found is taken as it is. */
  lemma {:induction false} LoadFirstText(entries: seq<Entry>, keys: seq<Key>, defaults: seq<Value>, n: nat, i: nat)
    requires i < n <= |keys| == |defaults| && keys[i].kind == TextKind
    requires Lookup(entries, keys[i].LocalName()).Some?
    ensures LoadFirst(entries, keys, defaults, n).0[i] ==
            TextValue(Lookup(entries, keys[i].LocalName()).value)
  {
    hide Lookup, Key.LocalName;
    if i < n - 1 {
      LoadFirstText(entries, keys, defaults, n - 1, i);
    }
  }

  lemma {:induction false} RereadLookup(entries: seq<Entry>, name: string)
    ensures Lookup(RereadEntries(entries), name) ==
            match Lookup(entries, name) case None => None case Some(v) => Some(Reread(v))
  {
    FindKeyIs(RereadEntries(entries), name, FindKey(entries, name));
  }

  lemma RereadFind(doc: Doc, name: string)
    ensures FindSection(RereadDoc(doc), name) == FindSection(doc, name)
  {
    FindSectionIs(RereadDoc(doc), name, FindSection(doc, name));
  }

  /** What becomes of one value: it comes back exactly if it fits, and leaves no range error. */
  lemma OneValue(v: Value, kind: Kind, fallback: Value)
    requires OfKind(v, kind) && SingleLine(Buffered(v))
    ensures !Deserialize(kind, Reread(Buffered(v)), false).1
    ensures var d := Deserialize(kind, Reread(Buffered(v)), false).0;
      (if d.Some? then d.value else fallback) == v <==> Storable(v)
  {
    hide Reread, Buffered, StrToUll, Decimal, PrintableValue;
    if Storable(v) {
      StorableIsBuffered(v, kind);
      RereadPrintable(Serialize(v));
      DeserializeSerialized(v, kind, false);
    } else {
      TextNotStorable(v);
    }
  }

  lemma RereadPrintable(s: string)
    requires PrintableValue(s)
    ensures Reread(s) == s
  {
    RereadFixed(s);
  }

  lemma TextNotStorable(v: Value)
    requires v.TextValue? && !Storable(v) && SingleLine(Buffered(v))
    ensures Reread(Buffered(v)) != v.s
  {
    var b := Buffered(v);
    assert |b| < BUFFER_SIZE && '\0' !in b;
    NulFree(b);
    assert NEWLINE !in b;
    var t := Reread(b);
    assert |t| <= |b|;
    RereadIsPrintable(b);
  }

  lemma RereadIsPrintable(b: string)
    requires '\0' !in b && NEWLINE !in b
    ensures PrintableValue(Reread(b))
  {
    NulFree(b);
    var t := SkipBlanks(b);
    assert forall k :: 0 <= k < |Reread(b)| ==> Reread(b)[k] == b[BlankPrefix(b) + k];
    if Reread(b) != "" {
      assert TrimmedLength(t) > 0;
      assert t[0] == b[BlankPrefix(b)];
    }
  }

  // ----- no stored value spans lines

  ghost predicate AllSingleLine(values: seq<Value>) {
    forall i :: 0 <= i < |values| ==> SingleLine(Buffered(values[i]))
  }

  ghost predicate AllStorable(values: seq<Value>) {
    forall i :: 0 <= i < |values| ==> Storable(values[i])
  }

  function BufferedTexts(values: seq<Value>): (ts: seq<string>)
    ensures |ts| == |values| && forall i :: 0 <= i < |ts| ==> ts[i] == Reread(Buffered(values[i]))
  {
    seq(|values|, i requires 0 <= i < |values| => Reread(Buffered(values[i])))
  }

  lemma StoredAreFound(entries: seq<Entry>, keys: seq<Key>, values: seq<Value>)
    requires GoodKeys(keys) && |keys| == |values|
    ensures AllFound(RereadEntries(StoreFirst(entries, keys, values, |keys|)), keys, BufferedTexts(values))
  {
    hide StoreFirst, Lookup, Reread, Buffered, PrintableKey, Key.LocalName;
    forall i | 0 <= i < |keys|
      ensures Lookup(RereadEntries(StoreFirst(entries, keys, values, |keys|)), keys[i].LocalName()) ==
              Some(Reread(Buffered(values[i])))
    {
      StoreFirstLookup(entries, keys, values, |keys|, keys[i].LocalName());
      RereadLookup(StoreFirst(entries, keys, values, |keys|), keys[i].LocalName());
    }
  }

  lemma StoredAllSingleLine(doc: Doc, section: string, keys: seq<Key>, values: seq<Value>)
    requires Shaped(doc) && AllValues(doc, v => ParsedValue(v))
    requires PrintableName(section) && GoodKeys(keys) && |keys| == |values| && AllSingleLine(values)
    ensures AllValues(StoreInDoc(doc, section, keys, values), v => SingleLine(v))
  {
    hide StoreInDoc, StoreFirst, PrintableKey, PrintableName, ParsedValue, SingleLine, Key.LocalName, Buffered;
    StoreInDocShape(doc, section, keys, values);
    var after, i := StoreInDoc(doc, section, keys, values), FindSection(doc, section);
    forall j, k | 0 <= j < |after| && 0 <= k < |after[j].entries| ensures SingleLine(after[j].entries[k].value) {
      if j == i {
        var source := StoredValue(if i < |doc| then doc[i].entries else [], keys, values, k);
        if !(source < |keys| && after[j].entries[k].value == Buffered(values[source])) {
          RereadFixed(doc[i].entries[k].value);
        }
      } else {
        RereadFixed(doc[j].entries[k].value);
      }
    }
  }

  lemma FileDocShaped(content: Option<string>)
    ensures Shaped(FileDoc(content)) && AllValues(FileDoc(content), v => ParsedValue(v))
    ensures content.Some? && '\0' !in content.value ==> Printable(FileDoc(content))
  {
    hide Parse, ParsedValue, PrintableValue, WellFormed;
    if content.Some? && content.value != "" {
      ParseIsShaped(content.value);
    } else {
      assert WellFormed([]) by { EmptyWellFormed(); }
    }
  }

  lemma EmptyWellFormed()
    ensures WellFormed([])
  {
  }

  /** The written file reads back as the written structure, with blanks around values stripped. */
  lemma StoredReadsBack(content: Option<string>, section: string, keys: seq<Key>, values: seq<Value>)
    requires PrintableName(section) && GoodKeys(keys) && |keys| == |values| && AllSingleLine(values)
    ensures FileDoc(Some(Stored(content, section, keys, values))) ==
            RereadDoc(StoreInDoc(FileDoc(content), section, keys, values))
    ensures Stored(content, section, keys, values) != ""
  {
    hide StoreInDoc, FileDoc, Parse, Print, RereadDoc, Shaped, AllValues, PrintableName;
    var doc := FileDoc(content);
    FileDocShaped(content);
    StoredAllSingleLine(doc, section, keys, values);
    StoreInDocShape(doc, section, keys, values);
    PrintThenParse(StoreInDoc(doc, section, keys, values));
    PrintNotEmpty(StoreInDoc(doc, section, keys, values));
    FileDocOf(Stored(content, section, keys, values));
  }

  lemma PrintNotEmpty(doc: Doc)
    requires doc != []
    ensures Print(doc) != ""
  {
  }

  lemma FileDocOf(text: string)
    requires text != ""
    ensures FileDoc(Some(text)) == Parse(text).doc
  {
    hide Parse;
  }

  lemma SingleLineSurvival(content: Option<string>, section: string, keys: seq<Key>, values: seq<Value>,
                           defaults: seq<Value>)
    requires PrintableName(section) && GoodKeys(keys) && Typed(keys, values) && |defaults| == |keys|
    requires AllSingleLine(values)
    ensures Loaded(Some(Stored(content, section, keys, values)), section, keys, defaults) == Some(values) <==>
            AllStorable(values)
  {
    hide StoreInDoc, StoreFirst, FileDoc, Stored, LoadFirst, Shaped, PrintableName, Storable, OfKind, SingleLine,
      Buffered, Reread, GoodKeys, RereadDoc, RereadEntries, AllFound;
    var doc := FileDoc(content);
    var after := StoreInDoc(doc, section, keys, values);
    StoredReadsBack(content, section, keys, values);
    FileDocShaped(content);
    StoreInDocShape(doc, section, keys, values);
    RereadFind(after, section);
    var i := FindSection(doc, section);
    var former := if i < |doc| then doc[i].entries else [];
    StoredAreFound(former, keys, values);
    var entries := RereadEntries(StoreFirst(former, keys, values, |keys|));
    var loaded := LoadFirst(entries, keys, defaults, |keys|).0;
    FoundAreLoaded(entries, keys, values, defaults);
    assert Loaded(Some(Stored(content, section, keys, values)), section, keys, defaults) == Some(loaded);
    if forall k :: 0 <= k < |keys| ==> loaded[k] == values[k] {
      assert loaded == values;
    }
  }

  lemma FoundAreLoaded(entries: seq<Entry>, keys: seq<Key>, values: seq<Value>, defaults: seq<Value>)
    requires Typed(keys, values) && |defaults| == |keys| && AllSingleLine(values)
    requires AllFound(entries, keys, BufferedTexts(values))
    ensures forall k :: 0 <= k < |keys| ==>
      (LoadFirst(entries, keys, defaults, |keys|).0[k] == values[k] <==> Storable(values[k]))
  {
    hide Lookup, Deserialize, Key.LocalName, Overflows, Storable, OfKind, SingleLine, Buffered, Reread, LoadFirst;
    forall k | 0 <= k < |keys| ensures !Spoils(entries, keys[k]) {
      OneValue(values[k], keys[k].kind, defaults[k]);
      DeserializeLeaves(keys[k].kind, BufferedTexts(values)[k], false);
    }
    forall k | 0 <= k < |keys|
      ensures LoadFirst(entries, keys, defaults, |keys|).0[k] == values[k] <==> Storable(values[k])
    {
      OneValue(values[k], keys[k].kind, defaults[k]);
      LoadFirstAt(entries, keys, defaults, |keys|, k);
    }
  }

  // ----- a stored value spans lines

  lemma FirstLongEntry(entries: seq<Entry>) returns (b: nat)
    requires !EntryValues(entries, v => SingleLine(v))
    ensures b < |entries| && !SingleLine(entries[b].value)
    ensures EntryValues(entries[..b], v => SingleLine(v))
  {
    hide SingleLine;
    b := 0;
    while SingleLine(entries[b].value)
      invariant b < |entries|
      invariant forall k :: 0 <= k < b ==> SingleLine(entries[k].value)
      decreases |entries| - b
    {
      b := b + 1;
      if b == |entries| {
        assert false;
      }
    }
  }

  /** A value that spans lines is found again under its key, but not as it was. */
  lemma SpilledIsLost(content: Option<string>, section: string, keys: seq<Key>, values: seq<Value>,
                      defaults: seq<Value>)
    requires PrintableName(section) && GoodKeys(keys) && Typed(keys, values) && |defaults| == |keys|
    requires !AllSingleLine(values)
    ensures Loaded(Some(Stored(content, section, keys, values)), section, keys, defaults) != Some(values)
  {
    hide StoreInDoc, StoreFirst, FileDoc, LoadFirst, Shaped, PrintableName, Has, RereadDoc, Lookup,
      OfKind, SingleLine, Buffered, GoodKeys, Parse, Print, ParsedValue, AllValues, Key.LocalName;
    var doc := FileDoc(content);
    var after, i := StoreInDoc(doc, section, keys, values), FindSection(doc, section);
    FileDocShaped(content);
    StoreInDocShape(doc, section, keys, values);
    var former := if i < |doc| then doc[i].entries else [];
    SomeLongEntry(former, keys, values);
    var b := FirstLongEntry(after[i].entries);
    ShapedParts(doc, i);
    assert AllValues(after[..i], v => SingleLine(v)) by {
      OthersAreSingleLine(doc, after, i);
    }
    assert FirstSpill(after, i, b);
    SpilledKeyIsFound(after, i, b);
    var k := LongValueSource(former, keys, values, b);
    var text := Print(after);
    PrintNotEmpty(after);
    FileDocOf(text);
    ParseIsShaped(text);
    FoundIsOneLine(Parse(text).doc, section, keys[k].LocalName());
    var loaded := Parse(text).doc[FindSection(Parse(text).doc, section)].entries;
    LongValueIsText(values[k], keys[k].kind);
    LoadFirstText(loaded, keys, defaults, |keys|, k);
  }

  lemma ShapedParts(doc: Doc, i: nat)
    requires Shaped(doc) && AllValues(doc, v => ParsedValue(v))
    ensures i < |doc| ==> UniqueKeys(doc[i].entries) && EntryValues(doc[i].entries, v => ParsedValue(v))
  {
  }

  lemma OthersAreSingleLine(doc: Doc, after: Doc, i: nat)
    requires AllValues(doc, v => ParsedValue(v)) && i <= |doc| && i <= |after|
    requires forall j :: 0 <= j < i ==> after[j] == doc[j]
    ensures AllValues(after[..i], v => SingleLine(v))
  {
    hide ParsedValue, SingleLine;
    forall j, k | 0 <= j < i && 0 <= k < |after[j].entries| ensures SingleLine(after[j].entries[k].value) {
      RereadFixed(doc[j].entries[k].value);
    }
  }

  lemma SomeLongEntry(entries: seq<Entry>, keys: seq<Key>, values: seq<Value>)
    requires GoodKeys(keys) && |keys| == |values| && !AllSingleLine(values)
    ensures !EntryValues(StoreFirst(entries, keys, values, |keys|), v => SingleLine(v))
  {
    hide StoreFirst, SingleLine, Buffered, PrintableKey, Key.LocalName;
    var k :| 0 <= k < |values| && !SingleLine(Buffered(values[k]));
    var after := StoreFirst(entries, keys, values, |keys|);
    StoreFirstLookup(entries, keys, values, |keys|, keys[k].LocalName());
    assert after[FindKey(after, keys[k].LocalName())].value == Buffered(values[k]);
  }

  /** A long value in the stored section was put there by the store. */
  lemma LongValueSource(entries: seq<Entry>, keys: seq<Key>, values: seq<Value>, b: nat) returns (k: nat)
    requires GoodKeys(keys) && |keys| == |values| && UniqueKeys(entries)
    requires EntryValues(entries, v => ParsedValue(v))
    requires b < |StoreFirst(entries, keys, values, |keys|)|
    requires !SingleLine(StoreFirst(entries, keys, values, |keys|)[b].value)
    ensures k < |keys| && keys[k].LocalName() == StoreFirst(entries, keys, values, |keys|)[b].key
    ensures !SingleLine(Buffered(values[k]))
  {
    hide StoreFirst, SingleLine, Buffered, PrintableKey, Key.LocalName, ParsedValue;
    k := StoredValue(entries, keys, values, b);
    if b < |entries| && StoreFirst(entries, keys, values, |keys|)[b] == entries[b] {
      RereadFixed(entries[b].value);
    }
  }

  lemma FoundIsOneLine(doc: Doc, name: string, key: string)
    requires Has(doc, name, key) && AllValues(doc, v => ParsedValue(v))
    ensures var i := FindSection(doc, name);
      i < |doc| && Lookup(doc[i].entries, key).Some? && NEWLINE !in Lookup(doc[i].entries, key).value
  {
    var i := FindSection(doc, name);
    assert ParsedValue(doc[i].entries[FindKey(doc[i].entries, key)].value);
  }

  lemma LongValueIsText(v: Value, kind: Kind)
    requires OfKind(v, kind) && !SingleLine(Buffered(v))
    ensures kind == TextKind && v.TextValue? && NEWLINE in v.s && !Storable(v)
  {
    if !v.TextValue? {
      StorableIsBuffered(v, kind);
      NulFree(Buffered(v));
    } else {
      var s := v.s[..if |v.s| < BUFFER_SIZE - 1 then |v.s| else BUFFER_SIZE - 1];
      var c := CString(CString(s));
      var k :| 0 <= k < |c| && c[k] == NEWLINE;
      assert c[k] == v.s[k];
    }
  }

  /**
   A table that was stored over any old file is loaded again exactly if each of
   its texts is printable and fits into the buffer.
   */
  lemma LoadAfterStoreExactly(content: Option<string>, section: string, keys: seq<Key>, values: seq<Value>,
                              defaults: seq<Value>)
    requires PrintableName(section) && GoodKeys(keys) && Typed(keys, values) && |defaults| == |keys|
    ensures Loaded(Some(Stored(content, section, keys, values)), section, keys, defaults) == Some(values) <==>
            AllStorable(values)
  {
    hide Loaded, Stored, PrintableName, GoodKeys, OfKind, Storable, SingleLine, Buffered;
    if AllSingleLine(values) {
      SingleLineSurvival(content, section, keys, values, defaults);
    } else {
      SpilledIsLost(content, section, keys, values, defaults);
      var k :| 0 <= k < |values| && !SingleLine(Buffered(values[k]));
      LongValueIsText(values[k], keys[k].kind);
    }
  }

  /** The section holds the text of each value, under what its key is called. */
  ghost predicate HoldsTable(doc: Doc, section: string, keys: seq<Key>, values: seq<Value>)
    requires |keys| == |values|
  {
    var i := FindSection(doc, section);
    && i < |doc|
    && forall k, local :: 0 <= k < |keys| && IsCalled(keys[k], local) ==>
         Lookup(doc[i].entries, local) == Some(Buffered(values[k]))
  }

  lemma StoredUnderItsName(doc: Doc, section: string, keys: seq<Key>, values: seq<Value>)
    requires PrintableName(section) && GoodKeys(keys) && |keys| == |values|
    ensures HoldsTable(StoreInDoc(doc, section, keys, values), section, keys, values)
  {
    hide StoreFirst, Lookup, Buffered, PrintableName, IsCalled, Key.LocalName, FindSection;
    var all := NewSection(doc, section);
    var i := FindSection(doc, section);
    FindNewSection(doc, section);
    var entries := StoreFirst(all[i].entries, keys, values, |keys|);
    FindSectionIs(all[i := Section(section, entries)], section, i);
    forall k, local | 0 <= k < |keys| && IsCalled(keys[k], local)
      ensures Lookup(entries, local) == Some(Buffered(values[k]))
    {
      LocalNameIs(keys[k], local);
      StoreFirstLookup(all[i].entries, keys, values, |keys|, local);
    }
  }

  lemma FindNewSection(doc: Doc, section: string)
    ensures FindSection(NewSection(doc, section), section) == FindSection(doc, section) < |NewSection(doc, section)|
  {
    FindSectionIs(NewSection(doc, section), section, FindSection(doc, section));
  }

  /** A load looks for each key under what it is called. */
  lemma LoadedByItsName(content: string, section: string, keys: seq<Key>, defaults: seq<Value>, k: nat, local: string)
    requires |defaults| == |keys| && k < |keys| && IsCalled(keys[k], local)
    requires content != "" && FindSection(Parse(content).doc, section) < |Parse(content).doc|
    ensures var entries := Parse(content).doc[FindSection(Parse(content).doc, section)].entries;
      var loaded := Loaded(Some(content), section, keys, defaults);
      && loaded.Some?
      && loaded.value[k] ==
         match Lookup(entries, local)
         case None => defaults[k]
         case Some(text) =>
           var d := Deserialize(keys[k].kind, text, SpoiltBefore(entries, keys, k)).0;
           if d.Some? then d.value else defaults[k]
  {
    hide Parse, Lookup, Key.LocalName, IsCalled, SpoiltBefore, LoadFirst, Deserialize, FindSection;
    LocalNameIs(keys[k], local);
    LoadFirstAt(Parse(content).doc[FindSection(Parse(content).doc, section)].entries, keys, defaults, |keys|, k);
  }

  /** All other content of a file without NULs is kept: sections, keys, values and their order. */
  lemma StoreKeepsTheRest(content: Option<string>, section: string, keys: seq<Key>, values: seq<Value>)
    requires PrintableName(section) && GoodKeys(keys) && Typed(keys, values)
    requires AllStorable(values)
    requires content.Some? ==> '\0' !in content.value
    ensures var before, after := FileDoc(content), FileDoc(Some(Stored(content, section, keys, values)));
      var i := FindSection(before, section);
      && after == StoreInDoc(before, section, keys, values)
      && |after| == (if i < |before| then |before| else |before| + 1)
      && (forall j :: 0 <= j < |before| && j != i ==> after[j] == before[j])
      && after[i].name == section
      && (i < |before| ==>
            && |before[i].entries| <= |after[i].entries|
            && (forall j :: 0 <= j < |before[i].entries| ==> after[i].entries[j].key == before[i].entries[j].key)
            && (forall j :: 0 <= j < |before[i].entries| &&
                            (forall k :: 0 <= k < |keys| ==> keys[k].LocalName() != before[i].entries[j].key) ==>
                  after[i].entries[j] == before[i].entries[j]))
  {
    hide StoreInDoc, StoreFirst, FileDoc, Stored, PrintableName, PrintableKey, PrintableValue, OfKind, Storable,
      Buffered, SingleLine, RereadDoc, Key.LocalName;
    var before := FileDoc(content);
    var after, i := StoreInDoc(before, section, keys, values), FindSection(before, section);
    FileDocPrintable(content);
    StorableIsSingleLine(keys, values);
    StoreInDocShape(before, section, keys, values);
    StoredReadsBack(content, section, keys, values);
    StoredPrintable(before, section, keys, values);
    RereadPrintableDoc(after);
    if i < |before| {
      StoreFirstOrder(before[i].entries, keys, values, |keys|);
    }
  }

  lemma FileDocPrintable(content: Option<string>)
    requires content.Some? ==> '\0' !in content.value
    ensures Printable(FileDoc(content))
  {
    FileDocShaped(content);
  }

  lemma StorableIsSingleLine(keys: seq<Key>, values: seq<Value>)
    requires Typed(keys, values) && AllStorable(values)
    ensures AllSingleLine(values)
    ensures forall i :: 0 <= i < |values| ==> PrintableValue(Buffered(values[i]))
  {
    hide Buffered, Storable, OfKind, PrintableValue, SingleLine;
    forall i | 0 <= i < |values| ensures SingleLine(Buffered(values[i])) && PrintableValue(Buffered(values[i])) {
      StorableIsBuffered(values[i], keys[i].kind);
      RereadFixed(Buffered(values[i])) by {
        PrintableIsOneLine(Buffered(values[i]));
      }
    }
  }

  lemma PrintableIsOneLine(v: string)
    requires PrintableValue(v)
    ensures ParsedValue(v)
  {
  }

  lemma StoredPrintable(doc: Doc, section: string, keys: seq<Key>, values: seq<Value>)
    requires Printable(doc) && PrintableName(section) && GoodKeys(keys) && |keys| == |values|
    requires forall i :: 0 <= i < |values| ==> PrintableValue(Buffered(values[i]))
    ensures AllValues(StoreInDoc(doc, section, keys, values), v => PrintableValue(v))
  {
    hide StoreInDoc, StoreFirst, PrintableKey, PrintableName, PrintableValue, Key.LocalName, Buffered;
    StoreInDocShape(doc, section, keys, values);
    var after, i := StoreInDoc(doc, section, keys, values), FindSection(doc, section);
    forall j, k | 0 <= j < |after| && 0 <= k < |after[j].entries| ensures PrintableValue(after[j].entries[k].value) {
      if j == i {
        var source := StoredValue(if i < |doc| then doc[i].entries else [], keys, values, k);
      }
    }
  }

  lemma RereadPrintableDoc(doc: Doc)
    requires AllValues(doc, v => PrintableValue(v))
    ensures RereadDoc(doc) == doc
  {
    PrintableIsParsed(doc);
    RereadDocFixed(doc);
  }
}
