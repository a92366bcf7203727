/**
 * The string operations of the .NET base library that the settings, the output file and the
 * command-line parser depend on: `string.IsNullOrWhiteSpace`, ordinal case-insensitive
 * equality, `StartsWith` and `Encoding.ASCII.GetBytes`. A string is a `seq<char>` and a null
 * string is `None`.
 */
module Text {
  import opened Binary
  import opened Wrappers

  /** `char.IsWhiteSpace`: the Unicode space separators, line and paragraph separators, the C0 controls 9..13, U+0085 and U+00A0. */
  predicate IsWhiteSpace(c: char) {
    ('\t' <= c <= '\r') || c == ' ' || c == '\U{0085}' || c == '\U{00A0}' || c == '\U{1680}'
    || ('\U{2000}' <= c <= '\U{200A}') || c == '\U{2028}' || c == '\U{2029}' || c == '\U{202F}'
    || c == '\U{205F}' || c == '\U{3000}'
  }

  /** `string.IsNullOrWhiteSpace`. */
  predicate IsNullOrWhiteSpace(s: Option<string>) {
    s.None? || forall i :: 0 <= i < |s.value| ==> IsWhiteSpace(s.value[i])
  }

  lemma EmptyIsWhiteSpace()
    ensures IsNullOrWhiteSpace(Some(""))
    ensures IsNullOrWhiteSpace(None)
  {
  }

  /** A string holding one character that is not white space is never "null or white space". */
  lemma NonSpaceCharacterCounts(s: string, i: int)
    requires 0 <= i < |s| && !IsWhiteSpace(s[i])
    ensures !IsNullOrWhiteSpace(Some(s))
  {
  }

  /** The upper-case form ordinal case-insensitive comparison uses, for the ASCII letters. */
  function ToUpper(c: char): (r: char)
    ensures 'a' <= c <= 'z' ==> r as int == c as int - 32
    ensures !('a' <= c <= 'z') ==> r == c
  {
    if 'a' <= c <= 'z' then (c as int - 32) as char else c
  }

  /** `a.Equals(b, StringComparison.OrdinalIgnoreCase)` on non-null strings. */
  predicate EqualsIgnoreCase(a: string, b: string) {
    |a| == |b| && forall i :: 0 <= i < |a| ==> ToUpper(a[i]) == ToUpper(b[i])
  }

  /** Ordinal case-insensitive equality is an equivalence relation. */
  lemma EqualsIgnoreCaseIsEquivalence(a: string, b: string, c: string)
    ensures EqualsIgnoreCase(a, a)
    ensures EqualsIgnoreCase(a, b) ==> EqualsIgnoreCase(b, a)
    ensures EqualsIgnoreCase(a, b) && EqualsIgnoreCase(b, c) ==> EqualsIgnoreCase(a, c)
  {
  }

  /** Letters that differ only in case compare equal; other characters must be identical. */
  lemma EqualsIgnoreCaseExamples()
    ensures EqualsIgnoreCase("--CpuThreads", "--cputhreads")
    ensures !EqualsIgnoreCase("-a", "-b")
  {
    assert "-a"[1] == 'a' && "-b"[1] == 'b';
    assert ToUpper("-a"[1]) != ToUpper("-b"[1]);
  }

  /** `value.StartsWith(prefix)`, compared ordinally. */
  predicate StartsWith(value: string, prefix: string) {
    |prefix| <= |value| && value[..|prefix|] == prefix
  }

  /** `Encoding.ASCII.GetBytes`: one byte per character, with `?` for every character outside ASCII. */
  function AsciiBytes(s: string): (r: seq<byte>)
    ensures |r| == |s|
    ensures forall i :: 0 <= i < |s| ==> r[i] as int == (if s[i] as int < 128 then s[i] as int else '?' as int)
  {
    if s == [] then [] else AsciiByte(s[0]) + AsciiBytes(s[1..])
  }

  function AsciiByte(c: char): seq<byte> {
    if c as int < 128 then [c as int as byte] else ['?' as int as byte]
  }
}
