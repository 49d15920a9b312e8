/** The hexadecimal helpers of utils/crypto.js that carry ML-KEM keys and
    ciphertexts between the browser and the server: `fromHex` cuts a string
    into the matches of `/.{1,2}/g`, reads each with `parseInt(_, 16)` and stores
    it in a `Uint8Array`; `toHex` writes each byte with `toString(16)` padded to
    two characters. */
module HexCodec {
  import opened Common
  import opened JsText
  import opened JsBigInt

  predicate NoLineTerminator(s: string)
  {
    forall k :: 0 <= k < |s| ==> !IsLineTerminator(s[k])
  }

  /** The matches of `/.{1,2}/g` in `s`, left to right. `.` matches any code
      unit but a line terminator, so a match is two characters when two such
      are at hand, one when the next is a line terminator or the end, and the
      scan steps over a line terminator without a match. */
  function Chunks(s: string): (cs: seq<string>)
    ensures forall k :: 0 <= k < |cs| ==> 1 <= |cs[k]| <= 2 && NoLineTerminator(cs[k])
    decreases |s|
  {
    if s == [] then []
    else if IsLineTerminator(s[0]) then Chunks(s[1..])
    else if |s| >= 2 && !IsLineTerminator(s[1]) then [s[..2]] + Chunks(s[2..])
    else [s[..1]] + Chunks(s[1..])
  }

  /** The longest prefix of `s` made of hexadecimal digits. */
  function HexDigitPrefix(s: string): (p: string)
    ensures |p| <= |s| && p == s[..|p|] && AllDigits(p, 16)
    ensures |p| < |s| ==> !IsDigitIn(s[|p|], 16)
    decreases |s|
  {
    if s != [] && IsDigitIn(s[0], 16) then [s[0]] + HexDigitPrefix(s[1..]) else []
  }

  /** `parseInt(s, 16)` (section 19.2.5 of ECMA-262): leading white space is
      skipped, one `+` or `-` is read, then a `0x` or `0X` prefix is dropped and
      the longest run of hexadecimal digits is the magnitude. `None` is NaN,
      the result when that run is empty. */
  function ParseIntHex(s: string): Option<int>
  {
    var t := TrimStart(s);
    var sign := if t != [] && t[0] == '-' then -1 else 1;
    var u := if t != [] && (t[0] == '-' || t[0] == '+') then t[1..] else t;
    var v := if |u| >= 2 && u[0] == '0' && (u[1] == 'x' || u[1] == 'X') then u[2..] else u;
    var digits := HexDigitPrefix(v);
    if digits == [] then None else Some(sign * DigitsValue(digits, 16))
  }

  /** ToUint8 (section 7.1.10 of ECMA-262), the conversion a `Uint8Array`
      applies to each element: NaN becomes 0, an integer is taken modulo 256. */
  function ToUint8(n: Option<int>): (b: byte)
  {
    match n
    case None => 0
    case Some(v) => v % 256
  }

  /** `fromHex(s)`. When `s` has no match, `match` returns `null` and the call
      to `map` on it throws a TypeError. */
  function FromHex(s: string): Result<seq<byte>>
  {
    var cs := Chunks(s);
    if cs == [] then Throw(TypeError)
    else Ok(seq(|cs|, k requires 0 <= k < |cs| => ToUint8(ParseIntHex(cs[k]))))
  }

  /** `s.padStart(n, [c])`. */
  function PadStart(s: string, n: nat, c: char): (t: string)
    decreases n - |s|
  {
    if |s| >= n then s else PadStart([c] + s, n, c)
  }

  /** `b.toString(16).padStart(2, '0')`. */
  function HexByte(b: byte): string
  {
    PadStart(Digits(b, 16), 2, '0')
  }

  /** `toHex(bytes)`: a left fold that appends each byte's two digits. */
  function ToHex(bs: seq<byte>): string
    decreases |bs|
  {
    if bs == [] then "" else ToHex(bs[..|bs| - 1]) + HexByte(bs[|bs| - 1])
  }

  /** Lower-case every letter of `s`. */
  function Lower(s: string): string
  {
    seq(|s|, k requires 0 <= k < |s| => ToLower(s[k]))
  }

  /** A hexadecimal digit is neither white space nor a line terminator. */
  lemma DigitIsNotSpace(c: char)
    requires IsDigitIn(c, 16)
    ensures !IsStrWhiteSpace(c) && !IsLineTerminator(c)
  {
  }

  // ---------------------------------------------------------------------------
  // toHex

  /** Every byte is written as exactly two lower-case digits, high nibble first. */
  lemma HexByteDigits(b: byte)
    ensures HexByte(b) == [DigitChar(b / 16), DigitChar(b % 16)]
  {
    if b < 16 {
      assert Digits(b, 16) == [DigitChar(b)];
      assert ['0'] + [DigitChar(b)] == ['0', DigitChar(b)];
      assert HexByte(b) == ['0', DigitChar(b)];
      assert b / 16 == 0 && b % 16 == b;
      assert DigitChar(0) == '0';
    } else {
      assert Digits(b, 16) == Digits(b / 16, 16) + [DigitChar(b % 16)];
      assert Digits(b / 16, 16) == [DigitChar(b / 16)];
    }
  }

  /** `toHex` writes two characters per byte: the high and the low nibble of
      byte `k` are characters `2k` and `2k + 1`. */
  lemma {:induction false} ToHexDigits(bs: seq<byte>)
    ensures |ToHex(bs)| == 2 * |bs|
    ensures forall k :: 0 <= k < |bs| ==>
      ToHex(bs)[2 * k] == DigitChar(bs[k] / 16) && ToHex(bs)[2 * k + 1] == DigitChar(bs[k] % 16)
    decreases |bs|
  {
    if bs != [] {
      var front := bs[..|bs| - 1];
      ToHexDigits(front);
      HexByteDigits(bs[|bs| - 1]);
      forall k | 0 <= k < |bs|
        ensures ToHex(bs)[2 * k] == DigitChar(bs[k] / 16) && ToHex(bs)[2 * k + 1] == DigitChar(bs[k] % 16)
      {
        if k < |front| {
          assert bs[k] == front[k];
        }
      }
    }
  }

  /** The output of `toHex` consists of lower-case hexadecimal digits only. */
  lemma ToHexIsLowerHex(bs: seq<byte>)
    ensures AllDigits(ToHex(bs), 16) && Lower(ToHex(bs)) == ToHex(bs)
  {
    ToHexDigits(bs);
    var h := ToHex(bs);
    forall i | 0 <= i < |h|
      ensures IsDigitIn(h[i], 16) && ToLower(h[i]) == h[i]
    {
      var k := i / 2;
      if i == 2 * k {
        assert h[i] == DigitChar(bs[k] / 16);
      } else {
        assert i == 2 * k + 1;
        assert h[i] == DigitChar(bs[k] % 16);
      }
    }
    assert Lower(h) == h;
  }

  // ---------------------------------------------------------------------------
  // fromHex

  /** On a string of hexadecimal digits the matches are its consecutive pairs,
      with a single last digit when the length is odd. */
  lemma {:induction false} ChunksOfDigits(s: string)
    requires AllDigits(s, 16)
    ensures |Chunks(s)| == (|s| + 1) / 2
    ensures forall k :: 0 <= k < |s| / 2 ==> Chunks(s)[k] == [s[2 * k], s[2 * k + 1]]
    ensures |s| % 2 == 1 ==> Chunks(s)[|s| / 2] == [s[|s| - 1]]
    decreases |s|
  {
    if |s| == 1 {
      DigitIsNotSpace(s[0]);
      assert Chunks(s) == [s[..1]] + Chunks([]);
    } else if |s| >= 2 {
      var rest := s[2..];
      ChunksPair(s);
      ChunksOfDigits(rest);
      ChunksShift(s, Chunks(s), rest, Chunks(rest));
    }
  }

  lemma ChunksPair(s: string)
    requires |s| >= 2 && AllDigits(s, 16)
    ensures AllDigits(s[2..], 16)
    ensures Chunks(s) == [[s[0], s[1]]] + Chunks(s[2..])
  {
    DigitIsNotSpace(s[0]);
    DigitIsNotSpace(s[1]);
    var rest := s[2..];
    forall k | 0 <= k < |rest| ensures IsDigitIn(rest[k], 16) {
      assert rest[k] == s[k + 2];
    }
    assert s[..2] == [s[0], s[1]];
  }

  /** The pairs of `s` are its first pair followed by the pairs of the rest. */
  lemma ChunksShift(s: string, cs: seq<string>, rest: string, rs: seq<string>)
    requires |s| >= 2 && rest == s[2..] && cs == [[s[0], s[1]]] + rs
    requires |rs| == (|rest| + 1) / 2
    requires forall k :: 0 <= k < |rest| / 2 ==> rs[k] == [rest[2 * k], rest[2 * k + 1]]
    requires |rest| % 2 == 1 ==> rs[|rest| / 2] == [rest[|rest| - 1]]
    ensures |cs| == (|s| + 1) / 2
    ensures forall k :: 0 <= k < |s| / 2 ==> cs[k] == [s[2 * k], s[2 * k + 1]]
    ensures |s| % 2 == 1 ==> cs[|s| / 2] == [s[|s| - 1]]
  {
    forall k | 0 <= k < |s| / 2
      ensures cs[k] == [s[2 * k], s[2 * k + 1]]
    {
      if k > 0 {
        assert cs[k] == rs[k - 1];
        assert rest[2 * (k - 1)] == s[2 * k] && rest[2 * (k - 1) + 1] == s[2 * k + 1];
      }
    }
    if |s| % 2 == 1 {
      assert cs[|s| / 2] == rs[|rest| / 2];
    }
  }

  /** Two hexadecimal digits read as `16 * high + low`; a `0x` prefix cannot
      occur because `x` is not a hexadecimal digit. */
  lemma ParsePair(c: char, d: char)
    requires IsDigitIn(c, 16) && IsDigitIn(d, 16)
    ensures ParseIntHex([c, d]) == Some(16 * DigitValue(c) + DigitValue(d))
    ensures ToUint8(ParseIntHex([c, d])) == 16 * DigitValue(c) + DigitValue(d)
  {
    var s := [c, d];
    DigitIsNotSpace(c);
    assert TrimStart(s) == s;
    assert [c][..0] == [];
    assert HexDigitPrefix(s[1..]) == [d];
    assert HexDigitPrefix(s) == s;
    assert DigitsValue([c], 16) == DigitValue(c);
  }

  /** A single hexadecimal digit reads as its value. */
  lemma ParseSingle(c: char)
    requires IsDigitIn(c, 16)
    ensures ParseIntHex([c]) == Some(DigitValue(c))
    ensures ToUint8(ParseIntHex([c])) == DigitValue(c)
  {
    DigitIsNotSpace(c);
    assert TrimStart([c]) == [c];
    assert HexDigitPrefix([c]) == [c];
    assert [c][..0] == [];
    assert DigitsValue([c], 16) == DigitValue(c);
  }

  /** A string of hexadecimal digits decodes pair by pair: byte `k` is
      `16 * digit(2k) + digit(2k + 1)`, and an odd last digit stands alone as
      the last byte. */
  lemma FromHexOfDigits(s: string)
    requires s != [] && AllDigits(s, 16)
    ensures FromHex(s).Ok? && |FromHex(s).value| == (|s| + 1) / 2
    ensures forall k :: 0 <= k < |s| / 2 ==>
      FromHex(s).value[k] == 16 * DigitValue(s[2 * k]) + DigitValue(s[2 * k + 1])
    ensures |s| % 2 == 1 ==> FromHex(s).value[|s| / 2] == DigitValue(s[|s| - 1])
  {
    ChunksOfDigits(s);
    var cs := Chunks(s);
    assert cs != [];
    var bytes := FromHex(s).value;
    assert |bytes| == |cs|;
    forall k | 0 <= k < |s| / 2
      ensures bytes[k] == 16 * DigitValue(s[2 * k]) + DigitValue(s[2 * k + 1])
    {
      assert cs[k] == [s[2 * k], s[2 * k + 1]];
      ParsePair(s[2 * k], s[2 * k + 1]);
      assert bytes[k] == ToUint8(ParseIntHex(cs[k]));
    }
    if |s| % 2 == 1 {
      assert cs[|s| / 2] == [s[|s| - 1]];
      ParseSingle(s[|s| - 1]);
      assert bytes[|s| / 2] == ToUint8(ParseIntHex(cs[|s| / 2]));
    }
  }

  /** `fromHex` throws exactly when the string holds nothing but line
      terminators, the empty string included. */
  lemma {:induction false} FromHexThrowsIff(s: string)
    ensures FromHex(s).Throw? <==> forall k :: 0 <= k < |s| ==> IsLineTerminator(s[k])
    ensures FromHex(s).Throw? ==> FromHex(s).error == TypeError
    decreases |s|
  {
    if s != [] {
      FromHexThrowsIff(s[1..]);
      if IsLineTerminator(s[0]) {
        assert forall k :: 1 <= k < |s| ==> s[k] == s[1..][k - 1];
      }
    }
  }

  /** A chunk that starts with neither white space, a sign nor a hexadecimal
      digit is NaN and is stored as 0. */
  lemma NonHexChunkIsZero(c: string)
    requires c != [] && !IsStrWhiteSpace(c[0]) && c[0] != '-' && c[0] != '+' && !IsDigitIn(c[0], 16)
    ensures ToUint8(ParseIntHex(c)) == 0
  {
    assert TrimStart(c) == c;
  }

  /** A chunk `-d` reads as the negative value and is stored modulo 256. */
  lemma NegativeChunkWraps(d: char)
    requires IsDigitIn(d, 16)
    ensures ParseIntHex(['-', d]) == Some(-DigitValue(d))
    ensures ToUint8(ParseIntHex(['-', d])) == (256 - DigitValue(d)) % 256
  {
    var s := ['-', d];
    assert TrimStart(s) == s;
    assert s[1..] == [d];
    assert HexDigitPrefix([d]) == [d];
    assert [d][..0] == [];
    assert DigitsValue([d], 16) == DigitValue(d);
  }

  // ---------------------------------------------------------------------------
  // Round trips

  /** Decoding what `toHex` wrote gives the bytes back, for any non-empty
      array. */
  lemma FromHexToHex(bs: seq<byte>)
    requires bs != []
    ensures FromHex(ToHex(bs)) == Ok(bs)
  {
    var h := ToHex(bs);
    ToHexDigits(bs);
    ToHexIsLowerHex(bs);
    FromHexOfDigits(h);
    var r := FromHex(h).value;
    assert |h| / 2 == |bs| && |r| == |bs|;
    forall k | 0 <= k < |bs|
      ensures r[k] == bs[k]
    {
      assert h[2 * k] == DigitChar(bs[k] / 16) && h[2 * k + 1] == DigitChar(bs[k] % 16);
      assert r[k] == 16 * DigitValue(h[2 * k]) + DigitValue(h[2 * k + 1]);
      assert r[k] == 16 * (bs[k] / 16) + bs[k] % 16;
    }
    assert r == bs;
  }

  /** The empty array does not survive: `toHex` writes "" and `fromHex("")`
      throws. */
  lemma EmptyDoesNotRoundTrip()
    ensures ToHex([]) == "" && FromHex(ToHex([])) == Throw(TypeError)
  {
    FromHexThrowsIff("");
  }

  /** Each hexadecimal digit is written back as its lower-case form. */
  lemma DigitCharOfValue(c: char)
    requires IsDigitIn(c, 16)
    ensures DigitChar(DigitValue(c)) == ToLower(c)
  {
  }

  /** Encoding what `fromHex` read from an even-length string of hexadecimal
      digits gives the string back in lower case. */
  lemma ToHexFromHex(s: string)
    requires s != [] && |s| % 2 == 0 && AllDigits(s, 16)
    ensures FromHex(s).Ok? && ToHex(FromHex(s).value) == Lower(s)
  {
    FromHexOfDigits(s);
    var bs := FromHex(s).value;
    ToHexDigits(bs);
    var h := ToHex(bs);
    forall k | 0 <= k < |bs|
      ensures h[2 * k] == ToLower(s[2 * k]) && h[2 * k + 1] == ToLower(s[2 * k + 1])
    {
      PairWrittenBack(s[2 * k], s[2 * k + 1], bs[k]);
    }
    forall i | 0 <= i < |s|
      ensures h[i] == ToLower(s[i])
    {
      var k := i / 2;
      assert i == 2 * k || i == 2 * k + 1;
    }
  }

  /** The byte read from the digits `c` and `d` is written back as their
      lower-case forms. */
  lemma PairWrittenBack(c: char, d: char, b: byte)
    requires IsDigitIn(c, 16) && IsDigitIn(d, 16)
    requires b == 16 * DigitValue(c) + DigitValue(d)
    ensures DigitChar(b / 16) == ToLower(c) && DigitChar(b % 16) == ToLower(d)
  {
    assert b / 16 == DigitValue(c) && b % 16 == DigitValue(d);
    DigitCharOfValue(c);
    DigitCharOfValue(d);
  }
}
