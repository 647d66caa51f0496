# Verification of the Streaming Board daemons' core data handling

Dafny models of the parts of the T+A streaming daemons where a small mistake
would go unnoticed for long, with proofs of what these parts promise.
`dafny verify dfyconfig.toml` checks everything.

## What is modelled

**INI files** (`src/inifile.c`). `IniStore` has the meaning of a file: an ordered
map of ordered maps. `IniLists` and `IniFiles` are the linked lists with their tail
pointers as classes over nodes, proved to refine that meaning under every
operation. `IniParser` is the three-state parser with its position, line counter
and current section as a class; each handler is proved to preserve the outcome
that `IniLines` gives to the text, which is a left fold over its lines whose only
state is the structure, the open section, and the diagnostics. `IniRecovery` says
what a faulty line costs, and `IniMeaning` reads off the lines of any text what it means:
which line governs, assigns, wins and is reported. `IniPrint` is the printed form with the round trips, and
`IniSpill` follows values that would span lines when printed. `OsWrite` and
`IniWriter` write the printed form through a kernel that takes pieces, interrupts
and fails as it likes.

**Settings** (`src/configuration.hh`, `src/configuration.cc`). `Numbers` prints and
reads numbers, `Settings` has what a store makes of an old file and what a load
finds, and `Configuration` the loading and storing methods on the linked lists and
the manager around them. The main result composes everything above: which tables
survive being stored over an arbitrary old file, and what happens to the rest of it.

**MD5** (`src/md5.cc`). `Md5Spec` is RFC 1321 written as a specification, `Md5` the
streaming implementation with its block buffer, split counter and unrolled
transform, proved equal to it for every message and every way to feed it in.
`Md5Answers` works out two digests from the specification, byte by byte.

**Lock ownership** (`src/logged_lock.hh`, with logging enabled). `LockOwnership` is a
state machine of micro-steps (check, raw lock, record, clear, raw unlock, condition
wait with its predicate) in which any number of threads interleave. `LockRoundTrips` has what
one thread does and undoes from any state with true records, and `LockObjects` what lock
objects own in every state that careful threads can reach.

**Asynchronous calls** (`src/dbus/taddybus.hh`). `AsyncCalls` is a state machine of
calls, completions and handlers that may call back in or throw, and the proxy class
whose methods are proved to do exactly its steps.

**Smaller cores.** `FixPoint` (`src/fixpoint.hh`), `ExpectationSequence`
(`tests_new/mock_expectation.hh`), and `VariantRefs` with `VariantPrograms`
(`src/gvariantwrapper.cc`).

`Text` and `Wrappers` are helpers.

## Where the code does less than one would expect

The code is kept as it is; the condition under which it does meet the expectation
is proved as an equivalence.

* A NUL cuts a stored value, possibly behind a blank, and the blank is lost at the
  next rewrite. `IniPrint.NulLosesBlank` is such a file, `IniPrint.ReparseExactly`
  the condition. Texts without NUL are never affected.
* Texts of 128 bytes and more are cut before they are stored, and line feeds, NULs and
  blanks at the ends of texts do not survive. `Settings.LoadAfterStoreExactly` is the
  exact condition.
* `strtoull()` is called without clearing `errno`. Mapping and unmapping the file clear
  it before the first key is read (`src/os.c:626`, `src/os.c:709`), but within one load a
  number beyond 64 bits costs a later key its largest value:
  `Settings.MaximumIsRefusedExactly`, with the file in `Settings.OverflowCostsMaximum`.
* Move assignment onto a `UniqueLock` that owns its mutex unlocks it without
  clearing its owner: `LockOwnership.MoveAssignExactly`.
* A condition wait clears the owner while the caller's predicate is evaluated with the
  mutex held. A predicate that locks the mutex of its own wait deadlocks without the
  report (`LockOwnership.SilentDeadlock`), and one that unlocks it, or waits on it, is
  reported although it has it. `LockOwnership.DeadlockExactly` and
  `LockOwnership.RunIsSafe` have the conditions.
* A failed recursive `try_lock()` reads count and owner without holding the mutex, some
  time after the raw attempt, and so may conclude that it should have succeeded:
  `LockOwnership.TryMisfiresExactly`, with runs in `LockOwnership.HolderNotRecorded` and
  `LockOwnership.HolderHasLeft`; `LockOwnership.QuietTryIsFine` is what a caller can do.
* A negative fix point number below 1/32 is encoded to the two bytes that stand for
  "not a number" (`FixPoint.ThroughBytesExactly`), and the bytes do not have the flag that
  suppresses rounding (`FixPoint.IntegerThroughBytesExactly`).
* A bracket that is the very last byte of an INI file is not reported, although an
  unclosed section name is an error everywhere else: `IniRecovery.HeaderExactly`, with the
  text in `IniRecovery.BareBracketIsSilent`.

## Modelling decisions

Texts are Dafny strings; the code treats bytes uniformly except for a handful of
ASCII characters. `isblank()` is space or tab. What the environment decides becomes a
parameter: whether a file can be created or deleted, how the kernel answers each
write, the address that the allocator picks for a call, the order in which threads
take steps, and what wait predicates and completion handlers do. The number type of the fix point
conversions is `real` with a sign flag, so that negative zero exists.

## Model

| member | source | states |
|---|---|---|
| `IniStore.LookupIsMap` | src/inifile.c:949-966 | looking a key up in a section is looking it up in the map that the list of pairs stands for |
| `IniStore.LookupAfterPut` | src/inifile.c:822-897 | a stored value is found again under its key, and every other key is found as before |
| `IniStore.LookupAfterRemove` | src/inifile.c:915-947 | a removed key is gone, every other key is found as before |
| `IniStore.PutRefinesMap` | src/inifile.c:822-873 | storing is a map update; keys stay distinct, a known key keeps its position, a new one goes to the end |
| `IniStore.RemoveRefinesMap` | src/inifile.c:915-947 | removing is a map removal; keys stay distinct and the survivors keep their order |
| `IniStore.RemoveUndoesPut` | src/inifile.c:822-947 | removing a key that a store added gives the former section back |
| `IniStore.NewSectionKeeps` | src/inifile.c:557-597 | asking for a section never disturbs the sections there are, and afterwards there is exactly one of that name |
| `IniStore.PutInKeeps` | src/inifile.c:875-913 | storing in one section keeps all names, their order, and every other section |
| `IniStore.RemoveInKeeps` | src/inifile.c:915-947 | removing a key takes exactly its pair out of the section that is named, with the order of the survivors; all names and all other sections stay, and a missing section changes nothing |
| `IniStore.LookupAfterPutIn` | src/inifile.c:875-913 | in a whole file, a stored value is found under its section and key, and every other key of every section as before |
| `IniStore.LookupAfterRemoveIn` | src/inifile.c:915-947 | in a whole file, a removed key is gone from its section, and every other key of every section is found as before |
| `IniStore.RemoveSectionKeeps` | src/inifile.c:672-699 | after a section was removed no section of its name is left, names stay distinct |
| `IniLists.SectionNode.LookupKvPair` | src/inifile.c:949-966 | the walk over the linked pairs finds the pair exactly if the key is there, and the right one |
| `IniLists.SectionNode.Append` | src/inifile.c:845-872 | a new node is linked behind the tail; the list then stands for the old pairs and the new one |
| `IniLists.SectionNode.DoStoreValue` | src/inifile.c:822-873 | on the linked list, storing is `Put`: in place for a known key, behind the tail for a new one; the list stays acyclic with its tail the last node |
| `IniLists.SectionNode.RemoveValue` | src/inifile.c:915-947 | unlinking at head, middle or tail is `Remove` on the list of pairs, and reports whether the key was there |
| `IniFiles.IniFile.constructor` | src/inifile.c:64-70 | a new file has no sections and satisfies the list invariant |
| `IniFiles.IniFile.FindSectionByName` | src/inifile.c:621-646 | the section found is the one at the position of the first section with that name; null exactly if there is none |
| `IniFiles.IniFile.FindSectionByPointer` | src/inifile.c:599-619 | the walk finds the very node, with its predecessor |
| `IniFiles.IniFile.NewSection` | src/inifile.c:557-597 | null exactly for an empty name; otherwise the section is found, or linked behind the tail, so that there is exactly one of the name |
| `IniFiles.IniFile.RemoveSection` | src/inifile.c:701-719 | the section is unlinked and the order of the others kept; refused exactly for a node that is not in the list |
| `IniFiles.IniFile.RemoveSectionByName` | src/inifile.c:721-738 | the first section with the name is taken out, refused exactly if there is none |
| `IniFiles.IniFile.SectionStoreValue` | src/inifile.c:875-897 | storing through a section node is `PutIn` on the whole file; all other sections' lists are untouched |
| `IniFiles.IniFile.SectionStoreEmptyValue` | src/inifile.c:899-913 | an empty value is stored like any other |
| `IniFiles.IniFile.SectionRemoveValue` | src/inifile.c:915-947 | true exactly if the section has the key, and then its pair is taken out of the linked list, the survivors in order, and nothing else in the file changes |
| `IniParser.Parser.EnterNextLine` | src/inifile.c:82-90 | at a line feed, position and line counter advance together |
| `IniParser.Parser.SkipSpaces` | src/inifile.c:92-118 | stops at the first non-blank or at the end of the line or text, and says at which |
| `IniParser.Parser.SkipSpacesReverse` | src/inifile.c:120-154 | finds the last non-blank of a token without passing its start |
| `IniParser.Parser.SkipUntil` | src/inifile.c:156-177 | stops at the first occurrence of the character, or reports end of line or text |
| `IniParser.Parser.SkipLine` | src/inifile.c:179-188 | moves behind the next line feed or to the end of the text with the line counter exact; what follows is read as if the line had ended there |
| `IniParser.Parser.ParseSectionBegin` | src/inifile.c:204-230 | whatever it consumes, the outcome that the lines assign to the rest of the text does not change; junk outside of a section costs its line |
| `IniParser.Parser.ParseSectionName` | src/inifile.c:241-302 | the same for a header: it opens a section, or leaves none open and reports why, for the line the header is in |
| `IniParser.Parser.ParseKeyOrValue` | src/inifile.c:304-326 | a token ends at its delimiter without its trailing blanks, all reads inside the buffer |
| `IniParser.Parser.ParseNonemptyValue` | src/inifile.c:328-361 | the value up to the end of the line, trimmed, is what the line stores |
| `IniParser.Parser.InsertEmptyValueForKey` | src/inifile.c:363-372 | a key without a value is stored with the empty value |
| `IniParser.Parser.ParseAssignment` | src/inifile.c:384-446 | outcome preserved for an assignment; a bracket gives up the section without consuming anything |
| `IniParser.Parser.Step` | src/inifile.c:457-477 | every handler call consumes something, or goes from assignment to section begin; the state is assignment exactly if there is a current section |
| `IniParser.Parser.ParseMemory` | src/inifile.c:457-477 | the loop terminates by (bytes left, rank of state) with position at most one past the end, and ends in the outcome of the fold over all lines |
| `IniParser.ParseFromMemory` | src/inifile.c:500-526 | every text is accepted; structure and diagnostics are those of the line fold |
| `IniParser.ParseFromFile` | src/inifile.c:479-498 | a missing or empty file gives 1 and no sections, everything else 0 and the parsed structure |
| `IniLines.BlanksFrom` | src/inifile.c:204-230 | leading blanks of a line are without meaning |
| `IniLines.BracketFrom` | src/inifile.c:399-404 | a bracket opens a header whether or not a section is open, with the same outcome |
| `IniLines.JunkFrom` | src/inifile.c:204-230 | outside of a section a line that is no header is reported and dropped |
| `IniLines.ClosedHeaderFrom` | src/inifile.c:241-302 | a closed header opens its section if nothing but blanks follows it on its line, and is dropped otherwise |
| `IniLines.StoreFrom` | src/inifile.c:384-446 | key and value of an assignment are trimmed and the value is cut at a NUL |
| `IniRecovery.HeaderExactly` | src/inifile.c:204-302 | a header opens its section, anew or again, or leaves none open, and nothing in between; it is reported, with its complaint and line, if and only if it opens none and is not a bracket that ends the text |
| `IniRecovery.BareBracketIsSilent` | src/inifile.c:457-477 | the text of one bracket is such a bad header without a report; with a blank or a line feed behind it there is one |
| `IniRecovery.DroppedUntilHeader` | src/inifile.c:204-302 | without an open section no line up to the next good header has any effect on the structure |
| `IniRecovery.AssignmentExactly` | src/inifile.c:384-446 | a faulty assignment drops only its own line; it is reported, with its complaint, if and only if the line is not blank and has no key with an equals sign |
| `IniMeaning.EntriesAfter` | src/inifile.c:457-477 | the only lines that change a section are those that assign to it, read off the text by the last header in front of them |
| `IniMeaning.LastAssignmentWins` | src/inifile.c:822-873 | in any text, with bad headers, other sections and repeated headers in between: a key is in a section if and only if some line assigns to it there, and its value is that of the last such line |
| `IniMeaning.FirstAssignmentPlaces` | src/inifile.c:845-872 | keys stand in their section in the order of the lines that first assign to them |
| `IniMeaning.DiagnosticsNameLines` | src/inifile.c:204-446 | line n is reported, with complaint c, if and only if c is what is wrong with it in the section that governs it; in order and no line twice |
| `IniRecovery.LinesAreNewlines` | src/inifile.c:82-90 | the number of lines is one plus the number of line feeds |
| `IniPrint.PrintedForm` | src/inifile.c:762-783 | a section is printed behind all others as its name in brackets on a line, and a key behind all others of the last section as key, ` = ` and value up to a NUL on a line |
| `IniPrint.PrintThenParse` | src/inifile.c:762-783 | printing and parsing keeps all sections, keys and their order without a diagnostic, and trims one-line values |
| `IniPrint.ParseIsShaped` | src/inifile.c:457-477 | whatever the parser accepts has distinct printable names and keys; of a text without NUL everything is printable |
| `IniPrint.RoundTripExactly` | src/inifile.c:762-783 | parsing what was printed gives the same structure if and only if the structure is printable |
| `IniPrint.ReparseExactly` | src/inifile.c:457-477 | parse, print, parse gives the first result if and only if no stored value ends in a blank; always for a text without NUL |
| `IniPrint.SecondPrintIsStable` | src/inifile.c:762-783 | after one rewrite of any text, rewriting changes nothing any more |
| `IniPrint.NulLosesBlank` | src/inifile.c:328-361 | a concrete text with a NUL behind a blank whose rewrite reads back differently |
| `IniSpill.TextKeepsHas` | src/inifile.c:457-477 | no text that is parsed behind it makes a key disappear that was stored |
| `IniSpill.SpilledKeyIsFound` | src/inifile.c:762-783 | a key whose printed value spans lines is still found in its section after a rewrite, however the spilled lines are read |
| `OsWrite.OnlyFailuresFail` | src/os.c:67-100 | short writes and interruptions alone never make a write fail, whatever their schedule |
| `OsWrite.FailsExactly` | src/os.c:67-100 | the first failing call ends the write behind what the calls before it took, if and only if these do not take everything |
| `OsWrite.FailedIsShort` | src/os.c:67-100 | a failed write is short by a byte at least and due to a failed call |
| `OsWrite.Descriptor.WriteUninterrupted` | src/os.c:74-81 | interrupted calls are repeated until one is not, with no byte written twice |
| `OsWrite.Descriptor.WriteFromBuffer` | src/os.c:67-100 | for every schedule the file grows by exactly the buffer on success and by a proper prefix of it on failure |
| `IniWriter.WritePair` | src/inifile.c:770-783 | one printed line per pair, or a proper prefix of it |
| `IniWriter.WriteSection` | src/inifile.c:762-783 | header and pairs in list order |
| `IniWriter.WriteToFile` | src/inifile.c:751-804 | success leaves exactly the printed form in the file; a failure leaves a proper prefix that is then deleted; a file that cannot be created is left alone |
| `Numbers.DecimalValue` | src/configuration.cc:146-153 | the printed digits have the value of the number |
| `Numbers.DecimalDigits` | src/configuration.cc:146-153 | the digits stand for powers of ten, and there is no leading zero |
| `Numbers.ReadPrinted` | src/configuration.cc:155-170 | reading a printed 64-bit number gives the number, consumes all digits, and leaves errno alone |
| `Settings.FindVarnameOffset` | src/configuration.cc:219-223 | the offset is behind the last colon, or 0 without one |
| `Settings.LocalNameIs` | src/configuration.cc:219-223 | a key is stored under `local` if and only if `local` has no colon and is the whole name or what follows a colon in it |
| `Settings.PrefixIsDropped` | src/configuration.cc:219-223 | for a name without a colon, with or without any prefix and colon in front, the stored name is that name |
| `Settings.DeserializeSerialized` | src/configuration.cc:34-63 | every value comes back from its text, except the largest 64-bit number while a range error is pending |
| `Numbers.RangeErrorExactly` | src/configuration.cc:155-170 | a text leaves a range error behind if and only if it starts with a number beyond 64 bits, whatever follows |
| `Settings.NumberIsReadExactly` | src/configuration.cc:155-170 | exactly which texts are accepted as a number and as which one: white space, a sign and digits below the type's limit; the empty text is zero; a pending range error costs the largest 64-bit number |
| `Settings.PrintedNumberIsRead` | src/configuration.cc:155-170 | white space, a sign and the digits of a number below 2^64 are read as it, or as 2^64 less it, and refused exactly beyond 65535 and 4294967295 where 16 and 32 bits are asked for |
| `Settings.BufferedExactly` | src/configuration.cc:34-63 | what is stored is the longest prefix of the text without NUL that fits into 127 characters |
| `Settings.FlagTexts` | src/configuration.cc:202-217 | flags are written as `true` and `false`, and every text but `true` is read as false |
| `Settings.StorableIsBuffered` | src/configuration.cc:34-63 | numbers and flags always fit into the buffer unchanged, texts if they are printable and short enough |
| `Settings.StoreFirstLookup` | src/configuration.hh:278-291 | after all keys were stored each is found with the text of its own value, and every other name as before |
| `Settings.StoredUnderItsName` | src/configuration.hh:278-291 | after a store the section has, under the bare name of every key, the buffered text of its value |
| `Settings.LoadedByItsName` | src/configuration.hh:233-242 | a load looks for every key under its bare name, and keeps the default exactly if it is missing or unreadable |
| `Settings.StoreFirstOrder` | src/configuration.hh:278-291 | storing keeps the old keys, their order, and the values of keys that are not in the table |
| `Settings.SpilledIsLost` | src/configuration.hh:217-297 | a table with a text that spans lines is never loaded as it was stored |
| `Settings.LoadAfterStoreExactly` | src/configuration.hh:217-297 | for any old file: a stored table is loaded again with the same values if and only if each text is printable and fits the buffer |
| `Settings.LoadFirstAt` | src/configuration.hh:233-242 | each key is looked up and read for itself, with a range error pending if and only if an earlier key of the table has a number beyond 64 bits |
| `Settings.MaximumIsRefusedExactly` | src/configuration.cc:155-170 | in any file, a text for the largest 64-bit number is refused if and only if an earlier key of the table has a text that is a number beyond 64 bits |
| `Settings.OverflowCostsMaximum` | src/configuration.cc:155-170 | a concrete file of two keys in which this happens |
| `Settings.StoreKeepsTheRest` | src/configuration.hh:249-297 | storing printable values into a file without NUL, all other sections and keys keep content and order |
| `Configuration.OpenSection` | src/configuration.hh:253-276 | the section is found or appended; it fails exactly for an empty name that does not exist |
| `Configuration.TryStore` | src/configuration.hh:249-297 | for any write schedule: the file is a printed structure whose section has every value under the bare name of its key and keeps the rest of the old file, or could not be created, or its deletion was requested over a proper prefix of it; only a section that cannot be opened gives false |
| `Configuration.TryLoad` | src/configuration.hh:217-247 | false exactly without file or section, otherwise every key that is found under its bare name and readable is taken over, errno being clear at the start of the loop |
| `Configuration.ConfigManager.constructor` | src/configuration.hh:105-114 | a new manager is not updating and has nothing to announce |
| `Configuration.ConfigManager.Load` | src/configuration.hh:121-133 | the values are what the file says over the defaults, or the defaults; either makes the table valid |
| `Configuration.ConfigManager.Update` | src/configuration_settings.hh:99-111 | a key is marked as changed exactly if its new value differs |
| `Configuration.ConfigManager.UpdateDone` | src/configuration.hh:200-214 | every key whose value differs from the last published table is announced; after a write without failures a later load finds exactly this table whenever that is possible |
| `Md5Spec.CircularIsRotation` | src/md5.cc:73-77 | the two shifts of the step macro are a rotation |
| `Md5Spec.ProcessAllSplit` | src/md5.cc:113-218 | processing blocks one after the other is processing them together |
| `Md5Spec.LittleEndianIs` | src/md5.cc:98-107 | bytes written for a word are its four base-256 digits, least significant first |
| `Md5Spec.WordsAndBytes` | src/md5.cc:98-107 | word i of a block is made of its bytes 4i to 4i+3, and written out gives them back |
| `Md5Spec.InitialBytes` | src/md5.cc:220-229 | the initial registers are the bytes 01 23 .. ef fe .. 10 of section 3.3 of RFC 1321 |
| `Md5.FastMixIsMix` | src/md5.cc:64-68 | the rewritten F and G, H and H2, and I are the functions of section 3.4 of RFC 1321 |
| `Md5.StepIsRotated` | src/md5.cc:73-77 | one step macro is one operation of section 3.4 of RFC 1321 with the registers rotated |
| `Md5.Context.Rounds` | src/md5.cc:125-204 | 64 unrolled steps are the 64 table-driven operations, and every word a later round takes from the block was set in the first |
| `Md5.Context.OneBlock` | src/md5.cc:125-215 | one pass of the loop is the processing of one 16-word block: the registers after 64 operations, with the saved registers added modulo 2^32 |
| `Md5.Context.Body` | src/md5.cc:113-218 | the loop is the fold of the transform over all blocks |
| `Md5.CountSplit` | src/md5.cc:236-241 | the carry that is detected by comparing makes the two halves count correctly for every length, wrapping of the sum included |
| `Md5.CounterIsLength` | src/md5.cc:236-241 | the halves together are the number of bytes modulo 2^61 |
| `Md5.LengthIs` | src/md5.cc:289-294 | the shifted counter is the 64-bit length field of section 3.2 of RFC 1321 |
| `Md5.AbsorbShort` | src/md5.cc:243-254 | less than a block more only extends the tail |
| `Md5.AbsorbBlocks` | src/md5.cc:255-263 | what reaches a block boundary is processed and the tail is empty |
| `Md5.Context.constructor` | src/md5.cc:220-229 | the initial registers are those of section 3.3 of RFC 1321, nothing counted |
| `Md5.Context.Update` | src/md5.cc:231-263 | after any sequence of calls the registers are the fold over all full blocks of everything fed in, and the buffer starts with the rest |
| `Md5.Context.PadBuffer` | src/md5.cc:271-288 | padding fits in front of the length field, or fills a block of its own first |
| `Md5.DigestEnd` | src/md5.cc:271-301 | both padding cases hash the padded message of sections 3.1 and 3.2 of RFC 1321 |
| `Md5.Context.Finish` | src/md5.cc:271-302 | the digest of RFC 1321 for the whole message, and the context is wiped |
| `Md5.DigestOfChunks` | src/md5.cc:220-302 | however a message is cut into chunks, the digest is that of the whole |
| `Md5Answers.DigestOfNothing` | tests_new/test_md5.cc:53-70 | the digest of the empty message, byte by byte |
| `Md5Answers.DigestOfDigits` | src/md5.cc:220-302 | the digest of the two-block message of section A.5 of RFC 1321, byte by byte |
| `LockOwnership.StepKeepsInv` | src/logged_lock.hh:237-317 | every micro-step keeps owner and count in agreement with the raw mutex, up to the step its holder is in, and reports exactly what is expected of the raw mutexes |
| `LockOwnership.RunIsSafe` | src/logged_lock.hh:237-613 | in every interleaving, wait predicates that lock, unlock and wait included: `set_owner` and `ref_owner` never report; a run ends with a deadlock of a thread that has the plain mutex it asks for, with the misuse of a mutex in its own wait predicate, or with a failed recursive try that found no record |
| `LockOwnership.DeadlockExactly` | src/logged_lock.hh:237-242 | asking for a plain mutex, directly or through any lock object, reports a deadlock if and only if the caller has it and is not in a predicate of a wait on it |
| `LockOwnership.MisuseInPredicateExactly` | src/logged_lock.hh:1119-1164 | unlocking a mutex and waiting on it are reported if and only if the caller is in a predicate of a wait on it |
| `LockOwnership.SilentDeadlock` | src/logged_lock.hh:1119-1164 | a wait predicate that asks for the mutex of its own wait is not warned and never gets any further, in any continuation |
| `LockOwnership.RecordsAreTrue` | src/logged_lock.hh:295-613 | a non-zero owner is the raw holder; between steps the recursive count is the raw depth, inside of one it is one less; at most one thread is inside of one |
| `LockOwnership.WaitRestoresOwner` | src/logged_lock.hh:1119-1164 | a wait that comes back has its mutex, is its recorded owner and is out of exactly this wait, whatever other threads did meanwhile and whatever its predicate did, nested waits included |
| `LockOwnership.MoveAssignExactly` | src/logged_lock.hh:957-972 | move assignment keeps the records true if and only if the target does not own its mutex |
| `LockOwnership.MoveAssignMisleads` | src/logged_lock.hh:957-972 | otherwise, outside of wait predicates, the next thread to take the mutex is reported for replacing an owner |
| `LockOwnership.TryMisfiresExactly` | src/logged_lock.hh:514-539 | a failed recursive try is reported if and only if, when the count is read, the mutex is free or its holder has it once and is in the middle of a step; reading the owner never reports |
| `LockOwnership.HolderNotRecorded` | src/logged_lock.hh:514-539 | a run in which the holder was not recorded yet |
| `LockOwnership.HolderHasLeft` | src/logged_lock.hh:514-539 | a run in which the holder was recorded when the try failed and left before the record was read |
| `LockOwnership.QuietTryIsFine` | src/logged_lock.hh:514-539 | there is no report if no other thread locks or unlocks the mutex during the call |
| `LockRoundTrips.LockThenUnlock` | src/logged_lock.hh:1003-1027 | from any state with true records: a mutex that is free, or recursive and the caller's, is taken by `lock()`, directly or through a lock object, with owner, count, depth and ownership of the object, and unlocking restores the very state |
| `LockRoundTrips.TryThenUnlock` | src/logged_lock.hh:509-543 | the same for `try_lock()`, without a report |
| `LockRoundTrips.HeldIsRefused` | src/logged_lock.hh:509-543 | a mutex that somebody else has is not given out, and a try changes neither it nor any lock object |
| `LockRoundTrips.WaitAndReturn` | src/logged_lock.hh:1119-1164 | a wait that sleeps any number of times gives up mutex and ownership in its sleep and ends in the very state it started in |
| `LockRoundTrips.MoveStep` | src/logged_lock.hh:942-972 | moves change two lock objects: the target is what the source was, the source manages nothing and does not own |
| `LockObjects.StepKeepsLockInv` | src/logged_lock.hh:870-1093 | every step of careful threads keeps it that lock objects manage what they are logged for, own what their threads hold through them, and are no more than the depth of the mutex |
| `LockObjects.OwnersAreRight` | src/logged_lock.hh:870-1093 | in every state that careful threads reach: an owning object's mutex is locked, no more objects own a mutex than its depth, and a plain mutex has one owning object at most |
| `LockObjects.LockedThrough` | src/logged_lock.hh:1003-1027 | locked through an object, it owns the mutex, the caller is recorded, and can unlock it and wait with it |
| `LockObjects.UnlockedThrough` | src/logged_lock.hh:1067-1077 | unlocked through an object, which did own, it does not own any more, and the mutex is given up once |
| `LockObjects.WaitedWith` | src/logged_lock.hh:1119-1164 | after a wait its lock object owns the mutex again, the caller is recorded, and can unlock it |
| `LockObjects.MoveKeepsOwners` | src/logged_lock.hh:942-972 | a move hands ownership from one object to one object, for every mutex |
| `LockObjects.ThereAndBack` | src/logged_lock.hh:1003-1164 | a run from the start through locking with an object, a wait, sleep, waking up, and unlocking, with the states in between |
| `LockObjects.OneThreadIsCareful` | src/logged_lock.hh:870-1093 | a single thread that moves and destroys no object and unlocks through objects is careful in every run |
| `AsyncCalls.StartKeepsInv` | src/dbus/taddybus.hh:759-777 | starting a call, also from inside of a handler, keeps records and pending calls in bijection |
| `AsyncCalls.ArriveFindsCall` | src/dbus/taddybus.hh:907-918 | a completion that is on its way always finds its call |
| `AsyncCalls.ReturnIs` | src/dbus/taddybus.hh:926-937 | when a handler is done exactly its call and its record go |
| `AsyncCalls.NoneIsStray` | src/dbus/taddybus.hh:907-938 | in every run, the call at the address of an arriving completion is the one it is for, with its cookie, and its handler runs for the first time: the branch for stray completions is never taken |
| `AsyncCalls.RunningCallsStay` | src/dbus/taddybus.hh:907-938 | while a handler runs its call stays pending, whatever is started or completed from inside of it |
| `AsyncCalls.EveryRun` | src/dbus/taddybus.hh:494-545 | in every run, nested and throwing handlers included: bijection, no bug reported, each accepted call's handler run once and each record deleted once when everything has come back |
| `AsyncCalls.CookiesAreCounted` | src/dbus/taddybus.hh:457-461 | in every run, the next cookie is the number of calls that were started with a connection |
| `AsyncCalls.EveryCallIsHandled` | src/dbus/taddybus.hh:759-938 | in every run with n accepted calls: when everything has come back, each of the cookies 0 to n-1 was handled once and nothing else was |
| `AsyncCalls.CallComesBack` | src/dbus/taddybus.hh:759-938 | whatever else is pending or running: a call that is started, completed and handled runs its handler once, deletes its record once, and leaves the rest as it was |
| `AsyncCalls.EverythingCanComeBack` | src/dbus/taddybus.hh:907-938 | from every state there is a run in which all that is out comes back |
| `AsyncCalls.ReturnIsCleanExactly` | src/dbus/taddybus.hh:919-938 | a returning handler reports nothing if and only if its call is still there with the record that came back |
| `AsyncCalls.Proxy.StartCall` | src/dbus/taddybus.hh:759-777 | with a connection exactly one call and one record in flight are added, under the next cookie, which is the handle; without one nothing changes |
| `AsyncCalls.Proxy.CompletionArrives` | src/dbus/taddybus.hh:907-918 | the handler runs exactly if the call at the record's address has its cookie; the record leaves the flight, and is deleted if no handler runs |
| `AsyncCalls.Proxy.HandlerReturned` | src/dbus/taddybus.hh:919-938 | taking, comparing, erasing and deleting leaves everything as it was but for the call, its record, and the running handler |
| `AsyncCalls.Proxy.KillUnfinishedCalls` | src/dbus/taddybus.hh:875-883 | every record on its way is deleted once, no call is left, and the result is their number |
| `FixPoint.FromDoubleIs` | src/fixpoint.hh:98-123 | a double in range becomes its sign and its magnitude in sixteenths, rounded once, carry included |
| `FixPoint.OutOfRangeIsNan` | src/fixpoint.hh:98-147 | exactly the numbers in the open range are represented |
| `FixPoint.ToDoubleIsNearest` | src/fixpoint.hh:98-161 | the represented number is the nearest multiple of 1/16, ties away from zero |
| `FixPoint.RoundIsNearest` | src/fixpoint.hh:108-108 | no integer is nearer than the rounded one, and of two the one away from zero is taken |
| `FixPoint.ToDoubleIsMonotone` | src/fixpoint.hh:98-161 | larger inputs never give smaller numbers |
| `FixPoint.ToInt16RoundsOnce` | src/fixpoint.hh:163-170 | the integer is the original input rounded half away from zero, never the sixteenths rounded again |
| `FixPoint.FromIntIs` | src/fixpoint.hh:80-96 | an integer from -511 to 511 becomes the number that represents it, which its double would too, any other becomes no number |
| `FixPoint.IntRoundTrip` | src/fixpoint.hh:89-96 | integers in range come back, all others become the smallest 16-bit integer |
| `FixPoint.ReconversionIsStable` | src/fixpoint.hh:98-161 | converting the represented number again does not change it |
| `FixPoint.ToBuffer` | src/fixpoint.hh:172-189 | two bytes are written, or a buffer that is too short is left alone |
| `FixPoint.BytesRoundTrip` | src/fixpoint.hh:125-189 | two bytes come back except for their two unused bits |
| `FixPoint.NumberRoundTrip` | src/fixpoint.hh:125-189 | a number comes back from its bytes without its rounding flag; negative zero becomes the code for no number |
| `FixPoint.ThroughBytesExactly` | src/fixpoint.hh:125-189 | the represented number is kept if and only if the input was not negative with a magnitude below 1/32 |
| `FixPoint.SuppressedExactly` | src/fixpoint.hh:116-117 | rounding is suppressed if and only if the fraction of the input is in the 1/32 below one half |
| `FixPoint.IntegerThroughBytesExactly` | src/fixpoint.hh:125-189 | the integer is kept through bytes if and only if the input is not negative with a magnitude below 1/32 and its fraction is not in the 1/32 below one half |
| `ExpectationSequence.MoveBlockExactly` | tests_new/mock_expectation.hh:186-213 | the block arrives at its destination in its order and the rest keeps its order; no other list has both properties |
| `ExpectationSequence.MoveBlockBack` | tests_new/mock_expectation.hh:167-231 | moving a block back undoes the move |
| `ExpectationSequence.MoveBlockKeeps` | tests_new/mock_expectation.hh:215-228 | only the range between the two positions is affected |
| `ExpectationSequence.MoveBlockPermutes` | tests_new/mock_expectation.hh:201-213 | a move loses and doubles nothing |
| `ExpectationSequence.RightIsLeft` | tests_new/mock_expectation.hh:188-190 | every move to the right is a move to the left with other parameters |
| `ExpectationSequence.SwapIsMove` | tests_new/mock_expectation.hh:233-264 | swapping neighbours is moving one over the other |
| `ExpectationSequence.SwappedIs` | tests_new/mock_expectation.hh:233-264 | two elements change places, all others stay, and a second swap undoes the first |
| `ExpectationSequence.MoveIndicesExactly` | tests_new/mock_expectation.hh:288-303 | exactly the elements that are not checked yet can be named, from the front or from the end |
| `ExpectationSequence.MockExpectationSequence.Done` | tests_new/mock_expectation.hh:92-112 | accepted exactly if all expectations were checked |
| `ExpectationSequence.MockExpectationSequence.RegisterExpectation` | tests_new/mock_expectation.hh:114-118 | serial numbers and positions agree if and only if the expectation was not registered before |
| `ExpectationSequence.MockExpectationSequence.Check` | tests_new/mock_expectation.hh:120-143 | only the next serial number is accepted, and only then the sequence moves on |
| `ExpectationSequence.MockExpectationSequence.CheckedInListOrder` | tests_new/mock_expectation.hh:120-143 | registered expectations are all accepted if and only if they come in the order of the list |
| `ExpectationSequence.MockExpectationSequence.MoveRange` | tests_new/mock_expectation.hh:167-231 | in both directions the list becomes the moved list with element i carrying serial i, refused calls change nothing, and the checked prefix never moves |
| `ExpectationSequence.MockExpectationSequence.SwapSlots` | tests_new/mock_expectation.hh:233-259 | two elements trade places and serial numbers, refused calls change nothing, and the checked prefix never moves |
| `ExpectationSequence.MockExpectationSequence.ReverseLastSlots` | tests_new/mock_expectation.hh:261-264 | the last element moves in front of the one before it, refused with fewer than two unchecked elements |
| `VariantRefs.GVariantWrapper.constructor` | src/gvariantwrapper.hh:50-52 | an empty wrapper changes no count |
| `VariantRefs.FreedExactly` | src/gvariantwrapper.cc:41-45 | a variant is freed if and only if nobody else refers to it and no wrapper points at it |
| `VariantRefs.OutsideRef` | src/gvariantwrapper.cc:36-39 | others may take references at any time, counts are conserved |
| `VariantRefs.OutsideUnref` | src/gvariantwrapper.cc:41-45 | others may drop references; the variant is freed if and only if it was the last one and no wrapper points at it |
| `VariantRefs.NeverDangling` | src/gvariantwrapper.cc:133-137 | no wrapper points at a variant that was freed |
| `VariantRefs.GVariantWrapper.TakeOwnership` | src/gvariantwrapper.cc:147-160 | a floating reference becomes the wrapper's, a full one stays with the others; counts are conserved |
| `VariantRefs.GVariantWrapper.JustMove` | src/gvariantwrapper.cc:147-160 | a full reference changes hands, counts are conserved |
| `VariantRefs.GVariantWrapper.Copy` | src/gvariantwrapper.cc:162-166 | a copy holds a reference of its own |
| `VariantRefs.GVariantWrapper.Move` | src/gvariantwrapper.cc:168-172 | the reference moves, the source is empty |
| `VariantRefs.GVariantWrapper.CopyAssign` | src/gvariantwrapper.cc:174-184 | conserves all counts, also for the same wrapper and the same variant |
| `VariantRefs.GVariantWrapper.MoveAssign` | src/gvariantwrapper.cc:186-196 | conserves all counts, also for the same wrapper and the same variant |
| `VariantRefs.GVariantWrapper.Release` | src/gvariantwrapper.cc:198-201 | the wrapper's reference goes and the wrapper is empty |
| `VariantRefs.GVariantWrapper.Destroy` | src/gvariantwrapper.hh:55-58 | a wrapper that is destroyed leaves all counts right without it |
| `VariantRefs.GVariantWrapper.MoveOut` | src/gvariantwrapper.hh:96-101 | the wrapper's reference becomes the caller's |
| `VariantPrograms.Run` | src/gvariantwrapper.cc:121-201 | after any sequence of operations, pointers are where the operations put them, each count is the outside references plus the wrappers pointing at the variant, and a variant is freed if and only if nothing refers to it |
| `VariantPrograms.ReferencesChange` | src/gvariantwrapper.cc:36-201 | for every operation and variant, how many references there are more or fewer: copies, `ref`, sinking and taking what does not float add one, wrappers that point elsewhere afterwards and `unref` lose one, all else hands on |
| `VariantPrograms.ThroughAllPictures` | src/gvariantwrapper.cc:121-201 | a program of fourteen operations of all kinds, with pointers and references after each |

## Left out

- `src/os.c` apart from the write loop: mapping, opening, closing, `fsync`, directories, processes, and `os_try_read_to_buffer` are system calls or thin wrappers around them.
- Allocation failures, `inifile_free` and the `parser_malloc` family: they add branches to every operation and nothing to its result.
- Message texts, levels, colours, backtraces and the names of locks.
- `GVariant` boxing, `lookup_boxed`, `key_extract_section_name` and `to_local_key`: template plumbing over library functions.
- Connecting a proxy, signals, synchronous calls and `cancel_async_call_by_cookie`; the leak report for results that a handler did not pick up.
- `TMutex`, `RecTMutex` and timed locks: copies of the modelled classes with a deadline.
- The variant of the MD5 `SET` and `GET` macros for machines that allow unaligned access, and `to_string`.
- Stream operators, `Maybe`, `Guard`, hexadecimal helpers, XML escaping and stream identifiers: small functions without state.
- `MockBase` around the expectation sequence: it forwards to it.
- OsWrite.Deliver: a schedule of kernel answers is finite, and everything after its end is taken at once; an endless series of interruptions is not modelled, for the loop does not end then.
- OsWrite.Descriptor.WriteFromBuffer: offsets are unbounded integers, `ssize_t` overflow for buffers beyond half of the address space is not modelled.
- Md5Spec.Sine: the 64 constants are those printed in RFC 1321, they are not derived from the sine function.
- Md5.Context.Update: chunks are shorter than 2^64 bytes, the range of `size_t`.
- Md5.Context.Rounds: the sixteen steps of a round are grouped by four into methods, which the code does not do.
- LockOwnership.StepKeepsInv: the machine works on values, with one micro-step for each access to shared state, since a class method in Dafny is not interruptible; `lock_count_` does not overflow.
- LockOwnership.RunIsSafe: threads unlock only what they hold and do not move-assign onto an owning lock object, and everything stops at a report; destroying an owning lock object is an unlock followed by the destruction.
- LockObjects.OwnersAreRight: threads are careful, as lock objects ask of their users: no thread touches a lock object that another one is in the middle of an operation or a wait with, none moves or destroys an object that it is using itself, and none unlocks a mutex directly that it holds through lock objects only.
- LockRoundTrips.LockThenUnlock: a mutex is taken without contention, what other threads do in between is the subject of `LockOwnership.RunIsSafe`.
- LockOwnership.SilentDeadlock: `std::unique_lock` throws where a lock object owns its mutex already, the model has the thread stay where it is; exceptions, from there or out of wait predicates, are not modelled, and neither are the reports for lock objects without a mutex.
- AsyncCalls.EveryRun: cookies are unbounded, so a 32-bit cookie is not used twice; every record comes back at most once and not before the call was accepted; the proxy stays where it is, and handlers throw nothing but `std::exception`.
- AsyncCalls.Proxy.KillUnfinishedCalls: called while no handler is running; the source reserves it for unit tests.
- FixPoint.FromDouble: doubles are reals with a sign flag; every operation on an input in range is exact, so rounding of the floating point unit does not occur.
- Settings.LoadAfterStoreExactly: the names of section and keys are fixed in the program and have to be good INI names; texts are compared as the load leaves them.
- Configuration.ConfigManager.constructor: the values of a default-constructed table are a parameter.
- Configuration.TryStore: the old content is read before the file is opened for writing, changes by other processes in between are not modelled.
- ExpectationSequence.MockExpectationSequence.MoveRange: positions and counts do not reach 2^32, where their sum would wrap; the verbose output is left out together with the requirements of its own that it checks.
- ExpectationSequence.MockExpectationSequence.Check: the list of missing expectations that is printed on failure is not modelled, only that printing it may abort.
- VariantRefs.GVariantWrapper.JustMove: the assertion that the reference is a full one is the caller's duty.
- VariantRefs.FreedExactly: contents of variants and what freeing does to them, in particular references from one variant to another.
