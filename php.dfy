/** The few PHP runtime rules the backend relies on: string truthiness, trim() and strtolower(). */
module Php {

  import opened Wrappers
  import Text

  /** PHP converts a string to false exactly when it is "" or "0". */
  predicate FalsyString(s: string) {
    s == "" || s == "0"
  }

  /** A nullable string attribute or request value is falsy when null or a falsy string. */
  predicate Falsy(v: Option<string>) {
    v.None? || FalsyString(v.value)
  }

  /** The characters trim() strips by default: space, tab, newline, carriage return, NUL and vertical tab. */
  predicate IsTrimSpace(c: char) {
    c as int in {0x20, 0x09, 0x0A, 0x0D, 0x00, 0x0B}
  }

  function Trim(s: string): string {
    Text.Trim(s, IsTrimSpace)
  }

  /** ASCII lower-casing, as strtolower() does since PHP 8.2 (bytes outside A-Z are kept). */
  function LowerChar(c: char): (r: char)
    ensures !('A' <= r <= 'Z')
    ensures !('A' <= c <= 'Z') ==> r == c
  {
    if 'A' <= c <= 'Z' then (c as int + 32) as char else c
  }

  function Lower(s: string): (r: string)
    ensures |r| == |s|
    ensures forall i :: 0 <= i < |s| ==> r[i] == LowerChar(s[i])
  {
    if s == [] then [] else [LowerChar(s[0])] + Lower(s[1..])
  }
}
