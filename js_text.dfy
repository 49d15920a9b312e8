/** Character classes and digit values of ECMAScript, as the JavaScript
    built-ins `BigInt(string)`, `parseInt`, `Number.prototype.toString` and the
    regular-expression `.` use them. A Dafny `char` is a Unicode scalar value. It
    stands for one code unit of a JavaScript string when it is at most U+FFFF.
    A lone surrogate has no `char`, and a character above U+FFFF is two code
    units in JavaScript but one `char` here. */
module JsText {

  /** WhiteSpace (section 12.2 of ECMA-262): TAB, VT, FF, ZWNBSP and the
      space separators of category Zs. */
  predicate IsWhiteSpace(c: char)
  {
    var n := c as int;
    n == 0x09 || n == 0x0B || n == 0x0C || n == 0xFEFF ||
    n == 0x20 || n == 0xA0 || n == 0x1680 || (0x2000 <= n <= 0x200A) ||
    n == 0x202F || n == 0x205F || n == 0x3000
  }

  /** LineTerminator (section 12.3 of ECMA-262): LF, CR, LS and PS. The
      regular-expression `.` matches every code unit except these. */
  predicate IsLineTerminator(c: char)
  {
    var n := c as int;
    n == 0x0A || n == 0x0D || n == 0x2028 || n == 0x2029
  }

  /** StrWhiteSpaceChar: what string-to-number conversions trim. */
  predicate IsStrWhiteSpace(c: char)
  {
    IsWhiteSpace(c) || IsLineTerminator(c)
  }

  /** The value of `c` as a digit in bases up to 36 (letters in either case),
      or -1 when `c` is not a letter or a decimal digit. */
  function DigitValue(c: char): (v: int)
    ensures -1 <= v < 36
    ensures v >= 0 <==> ('0' <= c <= '9' || 'a' <= c <= 'z' || 'A' <= c <= 'Z')
  {
    if '0' <= c <= '9' then c as int - '0' as int
    else if 'a' <= c <= 'z' then c as int - 'a' as int + 10
    else if 'A' <= c <= 'Z' then c as int - 'A' as int + 10
    else -1
  }

  predicate IsDigitIn(c: char, radix: int)
  {
    0 <= DigitValue(c) < radix
  }

  /** The lower-case digit that `Number.prototype.toString(radix)` writes for
      the value `d`. */
  function DigitChar(d: int): (c: char)
    requires 0 <= d < 36
    ensures DigitValue(c) == d
    ensures '0' <= c <= '9' || 'a' <= c <= 'z'
  {
    if d < 10 then ('0' as int + d) as char else ('a' as int + d - 10) as char
  }

  /** The lower-case form of a letter; other characters are kept. */
  function ToLower(c: char): (l: char)
    ensures DigitValue(l) == DigitValue(c)
    ensures !('A' <= l <= 'Z')
  {
    if 'A' <= c <= 'Z' then (c as int - 'A' as int + 'a' as int) as char else c
  }
}
