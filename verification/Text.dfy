/**
 Scanning primitives shared by the INI parser, the INI writer and the settings
 code: the position of a character, blank skipping, and C strings.
 */
module Text {

  const NEWLINE: char := '\n'

  /** `isblank` in the C locale. */
  predicate IsBlank(c: char) {
    c == ' ' || c == '\t'
  }

  /** The number of characters in front of the first `c`, or the length of `s`. */
  function IndexOf(s: string, c: char): (i: nat)
    ensures i <= |s|
    ensures i < |s| ==> s[i] == c
    ensures forall k :: 0 <= k < i ==> s[k] != c
  {
    if s == "" || s[0] == c then 0 else 1 + IndexOf(s[1..], c)
  }

  /** The number of leading blanks. */
  function BlankPrefix(s: string): (i: nat)
    ensures i <= |s|
    ensures i < |s| ==> !IsBlank(s[i])
    ensures forall k :: 0 <= k < i ==> IsBlank(s[k])
  {
    if s == "" || !IsBlank(s[0]) then 0 else 1 + BlankPrefix(s[1..])
  }

  /** The length of `s` without its trailing blanks. */
  function TrimmedLength(s: string): (n: nat)
    ensures n <= |s|
    ensures n > 0 ==> !IsBlank(s[n - 1])
    ensures forall k :: n <= k < |s| ==> IsBlank(s[k])
  {
    if s == "" || !IsBlank(s[|s| - 1]) then |s| else TrimmedLength(s[..|s| - 1])
  }

  function SkipBlanks(s: string): string {
    s[BlankPrefix(s)..]
  }

  function TrimRight(s: string): string {
    s[..TrimmedLength(s)]
  }

  /** What a C function sees of a buffer: everything up to the first NUL. */
  function CString(s: string): string {
    s[..IndexOf(s, '\0')]
  }

  /** A pointer and a length, where length 0 asks for `strlen`. */
  function CArgument(s: string, length: nat): string
    requires length <= |s|
  {
    if length == 0 then CString(s) else s[..length]
  }

  predicate Trimmed(s: string) {
    s != "" ==> !IsBlank(s[0]) && !IsBlank(s[|s| - 1])
  }

  /** Positions pinned down by their defining property. */
  lemma IndexOfIs(s: string, c: char, i: nat)
    requires i <= |s|
    requires i < |s| ==> s[i] == c
    requires forall k :: 0 <= k < i ==> s[k] != c
    ensures IndexOf(s, c) == i
  {
  }

  lemma BlankPrefixIs(s: string, i: nat)
    requires i <= |s|
    requires i < |s| ==> !IsBlank(s[i])
    requires forall k :: 0 <= k < i ==> IsBlank(s[k])
    ensures BlankPrefix(s) == i
  {
  }

  lemma TrimmedLengthIs(s: string, n: nat)
    requires n <= |s|
    requires n > 0 ==> !IsBlank(s[n - 1])
    requires forall k :: n <= k < |s| ==> IsBlank(s[k])
    ensures TrimmedLength(s) == n
  {
  }

  /** The number of line feeds in `s`. */
  function Newlines(s: string): (n: nat) {
    if s == "" then 0 else Newlines(s[..|s| - 1]) + (if s[|s| - 1] == NEWLINE then 1 else 0)
  }
}
