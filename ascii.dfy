/** Characters and strings of the model. Every string the model handles is ASCII:
    the ECMAScript URI functions then encode one character as at most one `%XX`
    triplet, and never throw. */
module Ascii {

  type AChar = c: char | c as int < 128

  type AString = seq<AChar>

  /** A parameter `{key, value}` as the source passes it around. */
  datatype Param = Param(key: AString, value: AString)

  predicate IsAlpha(c: AChar) { 'a' <= c <= 'z' || 'A' <= c <= 'Z' }

  predicate IsDigit(c: AChar) { '0' <= c <= '9' }

  predicate IsAlnum(c: AChar) { IsAlpha(c) || IsDigit(c) }

  predicate IsAlnumString(s: AString) { forall i | 0 <= i < |s| :: IsAlnum(s[i]) }

  predicate IsHexDigit(c: AChar) { IsDigit(c) || 'a' <= c <= 'f' || 'A' <= c <= 'F' }

  /** The code point of `c`, as `charCodeAt(0)` gives it. */
  function Code(c: AChar): (n: nat)
    ensures n < 128
  {
    c as int
  }

  function FromCode(n: nat): (c: AChar)
    requires n < 128
    ensures Code(c) == n
  {
    n as char
  }

  /** The value of one hexadecimal digit, in either case. */
  function HexValue(c: AChar): (n: nat)
    requires IsHexDigit(c)
    ensures n < 16
  {
    if IsDigit(c) then c as int - '0' as int
    else if 'a' <= c <= 'f' then c as int - 'a' as int + 10
    else c as int - 'A' as int + 10
  }

  /** The digit `%XX` escapes use: `0`-`9`, `A`-`F`. */
  function UpperHexDigit(n: nat): (c: AChar)
    requires n < 16
    ensures IsHexDigit(c) && HexValue(c) == n
    ensures !('a' <= c <= 'z')
  {
    if n < 10 then ('0' as int + n) as char else ('A' as int + n - 10) as char
  }

  /** The digit `Number.prototype.toString(16)` uses: `0`-`9`, `a`-`f`. */
  function LowerHexDigit(n: nat): (c: AChar)
    requires n < 16
    ensures IsHexDigit(c) && HexValue(c) == n
    ensures !('A' <= c <= 'Z')
  {
    if n < 10 then ('0' as int + n) as char else ('a' as int + n - 10) as char
  }
}
