/** The text form of JavaScript BigInt values on the wire of the key-agreement
    servers: the `BigInt(string)` constructor that reads a request field and the
    `toString()` that writes a response field. */
module JsBigInt {
  import opened Common
  import opened JsText

  // ---------------------------------------------------------------------------
  // Digit strings

  predicate AllDigits(s: string, radix: int)
  {
    forall k :: 0 <= k < |s| ==> IsDigitIn(s[k], radix)
  }

  /** The value of a string of digits in base `radix`, most significant first. */
  function DigitsValue(s: string, radix: int): int
    decreases |s|
  {
    if s == [] then 0
    else DigitsValue(s[..|s| - 1], radix) * radix + DigitValue(s[|s| - 1])
  }

  /** The digits of `n` in base `radix` with no leading zero, lower case. */
  function Digits(n: nat, radix: int): (s: string)
    requires 2 <= radix <= 36
    decreases n
  {
    if n < radix then [DigitChar(n)] else Digits(n / radix, radix) + [DigitChar(n % radix)]
  }

  /** `n.toString(radix)` of a BigInt: a minus sign for negative values, then the
      digits of the magnitude. */
  function ToStringRadix(n: int, radix: int): string
    requires 2 <= radix <= 36
  {
    if n < 0 then "-" + Digits(-n, radix) else Digits(n, radix)
  }

  /** `n.toString()`: the decimal form the servers put in their JSON replies. */
  function DecimalString(n: int): string
  {
    ToStringRadix(n, 10)
  }

  /** Reading back the digits of `n` gives `n`; they are all digits of the
      base, and there is no leading zero. */
  lemma {:induction false} DigitsRoundTrip(n: nat, radix: int)
    requires 2 <= radix <= 36
    ensures |Digits(n, radix)| >= 1
    ensures AllDigits(Digits(n, radix), radix)
    ensures DigitsValue(Digits(n, radix), radix) == n
    ensures |Digits(n, radix)| > 1 ==> Digits(n, radix)[0] != '0'
    decreases n
  {
    if n < radix {
      DigitsAppend([], n, radix);
      assert Digits(n, radix) == [] + [DigitChar(n)];
    } else {
      DigitsRoundTrip(n / radix, radix);
      DigitsStep(n, radix);
    }
  }

  lemma DigitsStep(n: nat, radix: int)
    requires 2 <= radix <= n && radix <= 36
    requires AllDigits(Digits(n / radix, radix), radix)
    requires DigitsValue(Digits(n / radix, radix), radix) == n / radix
    requires |Digits(n / radix, radix)| > 1 ==> Digits(n / radix, radix)[0] != '0'
    ensures |Digits(n, radix)| >= 2
    ensures AllDigits(Digits(n, radix), radix)
    ensures DigitsValue(Digits(n, radix), radix) == n
    ensures Digits(n, radix)[0] != '0'
  {
    var q, r := n / radix, n % radix;
    var front := Digits(q, radix);
    DigitsAppend(front, r, radix);
    assert Digits(n, radix) == front + [DigitChar(r)];
    DivMod(n, radix);
    if |front| == 1 {
      assert DigitValue(front[0]) == q >= 1;
    }
  }

  lemma DivMod(n: nat, radix: int)
    requires radix >= 2
    ensures n == (n / radix) * radix + n % radix
  {
  }

  /** Appending one digit multiplies the value by the base and adds the digit. */
  lemma DigitsAppend(front: string, d: int, radix: int)
    requires 2 <= radix <= 36 && 0 <= d < radix && AllDigits(front, radix)
    ensures var s := front + [DigitChar(d)];
            AllDigits(s, radix) && DigitsValue(s, radix) == DigitsValue(front, radix) * radix + d &&
            (front != [] ==> s[0] == front[0])
  {
    var s := front + [DigitChar(d)];
    assert s[..|s| - 1] == front;
    assert forall k :: 0 <= k < |front| ==> s[k] == front[k];
  }

  // ---------------------------------------------------------------------------
  // BigInt(string)

  function TrimStart(s: string): (t: string)
    ensures |t| <= |s| && (t != [] ==> !IsStrWhiteSpace(t[0]))
    decreases |s|
  {
    if s != [] && IsStrWhiteSpace(s[0]) then TrimStart(s[1..]) else s
  }

  function TrimEnd(s: string): (t: string)
    ensures |t| <= |s| && (t != [] ==> !IsStrWhiteSpace(t[|t| - 1]))
    decreases |s|
  {
    if s != [] && IsStrWhiteSpace(s[|s| - 1]) then TrimEnd(s[..|s| - 1]) else s
  }

  /** The base that the second character of a `0x`, `0o` or `0b` prefix selects,
      or 0 when it selects none. */
  function PrefixRadix(c: char): int
  {
    if c == 'x' || c == 'X' then 16
    else if c == 'o' || c == 'O' then 8
    else if c == 'b' || c == 'B' then 2
    else 0
  }

  /** `BigInt(s)` for a string `s` (StringToBigInt, section 7.1.14 of ECMA-262):
      surrounding white space is ignored, an empty remainder is 0, a decimal
      literal may carry a sign, a `0x`/`0o`/`0b` literal may not. `None` stands
      for the SyntaxError thrown on anything else. */
  function StringToBigInt(s: string): Option<int>
  {
    var t := TrimEnd(TrimStart(s));
    if t == [] then Some(0)
    else if |t| >= 2 && t[0] == '0' && PrefixRadix(t[1]) != 0 then
      var radix := PrefixRadix(t[1]);
      if |t| > 2 && AllDigits(t[2..], radix) then Some(DigitsValue(t[2..], radix)) else None
    else if t[0] == '+' || t[0] == '-' then
      if |t| > 1 && AllDigits(t[1..], 10)
      then Some(if t[0] == '-' then -DigitsValue(t[1..], 10) else DigitsValue(t[1..], 10))
      else None
    else if AllDigits(t, 10) then Some(DigitsValue(t, 10))
    else None
  }

  lemma TrimDigits(s: string)
    requires s != [] && (s[0] == '-' || IsDigitIn(s[0], 10))
    requires IsDigitIn(s[|s| - 1], 10)
    ensures TrimEnd(TrimStart(s)) == s
  {
  }

  /** The decimal form of every BigInt reads back as the same value: what one
      server writes into `y` or `K`, a client's `BigInt(...)` recovers exactly,
      however far beyond 64 bits it is. */
  lemma DecimalRoundTrip(n: int)
    ensures StringToBigInt(DecimalString(n)) == Some(n)
  {
    var m := if n < 0 then -n else n;
    DigitsRoundTrip(m, 10);
    var d := Digits(m, 10);
    var s := DecimalString(n);
    assert IsDigitIn(d[0], 10) && IsDigitIn(d[|d| - 1], 10);
    if n < 0 {
      assert s == "-" + d;
      assert s[1..] == d;
    } else {
      assert s == d;
    }
    TrimDigits(s);
  }

  /** Distinct values have distinct decimal forms. */
  lemma DecimalStringInjective(m: int, n: int)
    requires DecimalString(m) == DecimalString(n)
    ensures m == n
  {
    DecimalRoundTrip(m);
    DecimalRoundTrip(n);
  }
}
