/** Values shared by every part of the model: bytes, optional values and the
    JavaScript exceptions the modelled code can throw. */
module Common {

  /** An unsigned 8-bit value: a C `unsigned char`, an element of a JavaScript
      `Uint8Array` or `Buffer`. */
  type byte = x: int | 0 <= x < 256

  datatype Option<+T> = None | Some(value: T)

  /** The JavaScript exceptions that the modelled code can raise. */
  datatype JsError =
    | SyntaxError   // BigInt(s) on a string that is not an integer literal
    | RangeError    // BigInt `%` by 0n
    | TypeError     // BigInt(undefined), or `.map` called on null

  /** The outcome of a JavaScript expression that may throw. */
  datatype Result<+T> = Ok(value: T) | Throw(error: JsError)

  /** `2^width`. */
  function TwoTo(width: nat): (r: nat)
    ensures r >= 1
  {
    if width == 0 then 1 else 2 * TwoTo(width - 1)
  }

  /** Bitwise exclusive or of the low `width` bits of `a` and `b`, one bit at a
      time from the least significant; it stops early once no bits are left. */
  function XorBits(a: nat, b: nat, width: nat): (r: nat)
    ensures r < TwoTo(width)
    decreases width
  {
    if width == 0 || (a == 0 && b == 0) then 0
    else (a % 2 + b % 2) % 2 + 2 * XorBits(a / 2, b / 2, width - 1)
  }

  /** C's `^` on two `unsigned char` values. */
  function Xor(a: byte, b: byte): byte
  {
    assert TwoTo(8) == 256;
    XorBits(a, b, 8)
  }

  /** Writing `c` as a low bit plus twice the rest recovers both. */
  lemma LowBitAndRest(c: int, bit: int, rest: int)
    requires 0 <= bit < 2 && c == bit + 2 * rest
    ensures c % 2 == bit && c / 2 == rest
  {
  }

  /** Adding the same bit twice modulo 2 gives the first bit back. */
  lemma ParityCancel(x: int, y: int)
    requires 0 <= x < 2 && 0 <= y < 2
    ensures ((x + y) % 2 + y) % 2 == x
  {
  }

  /** One bit of `XorBits`: the low bits combined, and the rest shifted. */
  lemma XorBitsStep(a: nat, b: nat, width: nat)
    requires width > 0
    ensures XorBits(a, b, width) == (a % 2 + b % 2) % 2 + 2 * XorBits(a / 2, b / 2, width - 1)
  {
  }

  lemma {:induction false} XorBitsTwice(a: nat, b: nat, width: nat)
    requires a < TwoTo(width)
    ensures XorBits(XorBits(a, b, width), b, width) == a
    decreases width
  {
    if width > 0 {
      var rest := XorBits(a / 2, b / 2, width - 1);
      var c := XorBits(a, b, width);
      var cbit := (a % 2 + b % 2) % 2;
      XorBitsStep(a, b, width);
      LowBitAndRest(c, cbit, rest);
      XorBitsStep(c, b, width);
      XorBitsTwice(a / 2, b / 2, width - 1);
      ParityCancel(a % 2, b % 2);
      assert XorBits(c, b, width) == a % 2 + 2 * (a / 2);
    }
  }

  /** XOR with the same byte twice is the identity. */
  lemma XorTwice(d: byte, k: byte)
    ensures Xor(Xor(d, k), k) == d
  {
    assert TwoTo(8) == 256;
    XorBitsTwice(d, k, 8);
  }
}
