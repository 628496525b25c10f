/**
 * Character classes and case mapping used by the string code.
 *
 * The Rust source asks `char::is_uppercase` / `char::is_lowercase` and calls
 * `to_uppercase` / `to_lowercase`; this model restricts case to ASCII letters:
 * every other character is caseless and maps to itself.
 */
module Chars {

  predicate IsUpper(c: char) { 'A' <= c <= 'Z' }

  predicate IsLower(c: char) { 'a' <= c <= 'z' }

  predicate IsAscii(c: char) { c < 128 as char }

  function ToLower(c: char): (r: char)
    ensures IsUpper(c) ==> IsLower(r)
    ensures !IsUpper(c) ==> r == c
    ensures !IsUpper(r)
  {
    if IsUpper(c) then (c as int + 32) as char else c
  }

  function ToUpper(c: char): (r: char)
    ensures IsLower(c) ==> IsUpper(r)
    ensures !IsLower(c) ==> r == c
    ensures !IsLower(r)
  {
    if IsLower(c) then (c as int - 32) as char else c
  }

  /** `str::to_lowercase`, character by character. */
  function Lowercase(s: string): (r: string)
    ensures |r| == |s|
    ensures forall i :: 0 <= i < |s| ==> r[i] == ToLower(s[i])
  {
    if s == [] then [] else [ToLower(s[0])] + Lowercase(s[1..])
  }

  /** `str::to_uppercase`, character by character. */
  function Uppercase(s: string): (r: string)
    ensures |r| == |s|
    ensures forall i :: 0 <= i < |s| ==> r[i] == ToUpper(s[i])
  {
    if s == [] then [] else [ToUpper(s[0])] + Uppercase(s[1..])
  }

  /** `char::eq_ignore_ascii_case`: equal after ASCII lower-casing. */
  predicate EqIgnoreAsciiCase(a: char, b: char) { ToLower(a) == ToLower(b) }

  /** Number of bytes `c` takes in UTF-8 (what Rust's `str::len` counts). */
  function Utf8Width(c: char): (w: nat)
    ensures 1 <= w <= 4
  {
    if c < 0x80 as char then 1
    else if c < 0x800 as char then 2
    else if c < 0x1_0000 as char then 3
    else 4
  }

  /** Byte length of a string in UTF-8. */
  function Utf8Len(s: string): (n: nat)
    ensures |s| <= n <= 4 * |s|
    ensures n == 0 <==> s == []
  {
    if s == [] then 0 else Utf8Width(s[0]) + Utf8Len(s[1..])
  }
}
