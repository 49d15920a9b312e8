# Verified model of the cryptography lab routines

This project models the arithmetic and byte-level cores of a set of cryptography
lab exercises, and proves properties of them in Dafny:

- **Diffie–Hellman over square-and-multiply modular exponentiation**, in three
  independent implementations, all proved against one specification
  `ModArith.ModPowSpec`.
  - The Node server of `Lab_Test_MNS2025015` has `modPowBigInt`, the
    rejection sampler `randomBigIntBelow` and the `POST /api/dh` handler.
  - The Node server of `Lab_Test_MNS2025020` has `modexp` and the
    `POST /compute` handler.
  - The C function `modexp` of `Lab_Test_MNS2025006` works over `int` and
    `long long`.
- **RC4** (`rc4_crypt` of `Assignment4`): key scheduling, keystream generation
  and the XOR into the caller's output buffer. The model works in place on
  arrays, as the C code does.
- **The hexadecimal codec** `fromHex` / `toHex` of `utils/crypto.js`.

## Modelling choices

- **Remainder.** JavaScript BigInt `%` and C `%` both truncate: the remainder
  takes the sign of the dividend. `ModArith.TruncRem` models that remainder
  explicitly, so negative bases and moduli are covered instead of excluded.
- **The one specification.** It is
  `ModPowSpec(b, e, m) = if e <= 0 then 1 else TruncRem(b^e, m)`.
  - All three loops return the initial `1` unreduced when the exponent is 0 or
    negative. So `modexp(_, 0, 1)` is `1`, not `0`, and a zero exponent breaks
    agreement for modulus 1 (`ModArith.ZeroExponentBreaksAgreement`).
- **Zero modulus.**
  - In JavaScript, `% 0n` throws a `RangeError`, which the model returns as
    `Throw(RangeError)`.
  - In C, a zero modulus is undefined behaviour, as is `INT_MIN % -1`. Both are
    excluded by `requires`.
- **Fixed width in C.** `NativeModExp.ModExp` uses 32- and 64-bit newtypes, so
  Dafny's range checks prove two things:
  - no `long long` product overflows;
  - the final `(int)` cast is lossless.
- **Randomness becomes a parameter.**
  - `crypto.randomBytes` is an explicit byte stream, `entropy`. The sampler
    consumes it one draw of `ceil(bitlen(max)/8)` bytes at a time.
  - `Math.floor(Math.random() * (Number(p) - 3))` is an integer `draw`. Its
    range is a precondition.
- **Exponent ranges.** `Lab_Test_MNS2025015` draws the server exponent from
  `[1, p-2]` with `randomBigIntBelow(p - 1)`, as its comments at `server.js:12`
  and `server.js:52` say, and uses `1` whenever `p <= 3`. `Lab_Test_MNS2025020`
  draws from `[2, p-2]` (`server.js:32-33`) when `p > 3`.
- **`Number(p)` overflow in `Lab_Test_MNS2025020`.** For `|p| >= 2^1024 - 2^970`,
  `Number(p)` is an infinity, the product with `Math.random()` is an infinity
  or NaN, and `BigInt` of it throws a RangeError. The model throws exactly
  there (`DhServer020.NumberOverflows`).
- **Request fields.** A request field is absent (`None`) or a string.
  - `BigInt(string)` is modelled by `JsBigInt.StringToBigInt`: white space is
    trimmed, a sign or a `0x`/`0o`/`0b` prefix is accepted, and the empty
    string reads as 0.
  - `toString()` is modelled by `JsBigInt.DecimalString`.
- **`fromHex` chunking and parsing.** It follows the JavaScript semantics
  exactly:
  - `/.{1,2}/g` skips line terminators.
  - `parseInt(_, 16)` accepts leading white space, a sign and a `0x` prefix,
    and reads the longest digit prefix.
  - `Uint8Array` stores NaN as 0 and reduces every other value modulo 256.
  - A string with no match makes `.map` on `null` throw a `TypeError`.

## Model

| member | source | states |
|---|---|---|
| ModArith.TruncRem | Lab_Test_MNS2025006/server/myProg.c:3 | the truncating remainder is smaller in magnitude than the modulus, is zero or has the sign of the dividend, and differs from the dividend by a multiple of the modulus |
| ModArith.PowCongruent | Lab_Test_MNS2025015/server.js:30 | reducing the base before exponentiating does not change the final remainder |
| ModArith.ModPowStep | Lab_Test_MNS2025015/server.js:34-37 | one pass of the square-and-multiply loop keeps `result * base^exp` in the residue class of the original `base0^exp0` |
| ModArith.ModPowSpecNonNegative | Lab_Test_MNS2025015/server.js:29-40 | for `base >= 0`, `mod >= 1`, `exp >= 1` the specification is the ordinary `base^exp mod mod`, in `[0, mod)` |
| ModArith.Agreement | Lab_Test_MNS2025015/server.js:55-58 | Diffie–Hellman agreement: `(g^a)^b` and `(g^b)^a` give the same residue, `g^(ab)`, for positive exponents |
| ModArith.WorkedExample | Lab_Test_MNS2025015/server.js:55-58 | for `p = 23`, `g = 5`, `a = 6`, `b = 15`: `x = 8`, `y = 19`, and both sides derive the key 2 |
| ModArith.ZeroExponentBreaksAgreement | Lab_Test_MNS2025015/server.js:33-39 | with exponent 0 and modulus 1 the unreduced `1` differs from the reduced `0`, so agreement needs positive exponents |
| JsBigInt.StringToBigInt | Lab_Test_MNS2025015/server.js:49 | `BigInt(string)`; characterised by `JsBigInt.DecimalRoundTrip`, which reads back every decimal `toString`, and by `DhWire.FieldRoundTrip` |
| JsBigInt.DecimalString | Lab_Test_MNS2025015/server.js:61 | `toString()`; characterised by `JsBigInt.DigitsRoundTrip`, `JsBigInt.DecimalRoundTrip` and `JsBigInt.DecimalStringInjective` |
| JsBigInt.DigitsRoundTrip | Lab_Test_MNS2025015/server.js:61 | `toString` digits are non-empty, all digits of the base, without a leading zero, and read back as the number |
| JsBigInt.DecimalRoundTrip | Lab_Test_MNS2025015/server.js:61 | `BigInt(n.toString())` is `n` for every integer, negative ones included |
| JsBigInt.DecimalStringInjective | Lab_Test_MNS2025020/server.js:42-45 | two different values never share a decimal reply string |
| DhWire.FieldRoundTrip | Lab_Test_MNS2025015/server.js:47-49 | a field holding the decimal form of `n` is truthy and converts back to `n` through `BigInt` (`DhWire.FieldToBigInt`, which throws TypeError for a missing field and SyntaxError for a non-literal) |
| DhServer015.RandomBigIntBelow | Lab_Test_MNS2025015/server.js:13-26 | the retry loop with its inner big-endian accumulation returns exactly the draw that the specification `RandomBelow` describes |
| DhServer015.ByteCountPositive | Lab_Test_MNS2025015/server.js:17 | a bound above 2 needs at least one byte per draw |
| DhServer015.SampleFromFirstAccepted | Lab_Test_MNS2025015/server.js:18-25 | the value returned is the raw big-endian value of one whole draw, with no reduction, and every earlier draw was rejected |
| DhServer015.RandomBelowRange | Lab_Test_MNS2025015/server.js:15-25 | a bound of at most 2 gives exactly 1 with no bytes drawn; otherwise the result lies strictly between 0 and the bound |
| DhServer015.BigEndianBound | Lab_Test_MNS2025015/server.js:20-23 | `n` bytes read big-endian stay below `256^n` |
| DhServer015.ToBigEndianRoundTrip | Lab_Test_MNS2025015/server.js:20-23 | every value below `256^n` is the big-endian reading of an `n`-byte draw |
| DhServer015.BigEndianRoundTrip | Lab_Test_MNS2025015/server.js:20-23 | an `n`-byte draw is determined by its big-endian value |
| DhServer015.BitLengthBound | Lab_Test_MNS2025015/server.js:17 | a value is below 2 to the power of the length of its binary `toString(2)` |
| DhServer015.EveryCandidateDrawable | Lab_Test_MNS2025015/server.js:17-24 | `ceil(bitlen(max)/8)` bytes suffice: every value below `max` is the reading of exactly one draw |
| DhServer015.ModPowBigInt | Lab_Test_MNS2025015/server.js:29-40 | throws RangeError for a zero modulus; otherwise returns the specification, which is 1 for `exp <= 0` and smaller in magnitude than the modulus for `exp > 0` |
| DhServer015.HandleDh | Lab_Test_MNS2025015/server.js:44-66 | the handler gives exactly the reply that `Respond` describes: 400, 500 with the thrown error, no reply yet, or 200 with `y` and `K` |
| DhServer015.MissingFieldsIff | Lab_Test_MNS2025015/server.js:47 | status 400 exactly when `g`, `p` or `x` is absent or empty |
| DhServer015.ReplyUsesOneSecret | Lab_Test_MNS2025015/server.js:52-61 | a 200 reply holds `y = g^b mod p` and `K = x^b mod p` for one drawn `b`, which lies in `[1, p-2]` (or is 1 when `p <= 3`); the reply has no field for `b` |
| DhServer015.ClientDerivesSameKey | Lab_Test_MNS2025015/server.js:55-61 | a client that sent `x = g^a mod p` and raises the returned `y` to `a` obtains the returned `K` |
| DhServer020.ModExp | Lab_Test_MNS2025020/server.js:9-22 | throws RangeError for `n = 0`; otherwise returns the specification, which is 1 for `b <= 0` (also when `n = 1`) and smaller in magnitude than `n` for `b > 0` |
| DhServer020.HandleCompute | Lab_Test_MNS2025020/server.js:25-46 | the handler gives exactly the reply that `Respond` describes, for a draw in the range `Math.random` can produce, including the RangeError when `Number(p)` overflows to an infinity |
| DhServer020.SecretInRange | Lab_Test_MNS2025020/server.js:33-34 | for `p > 3` the server exponent lies in `[2, p-2]` |
| DhServer020.ThrowsIff | Lab_Test_MNS2025020/server.js:28-37 | the handler throws exactly when a field is missing or not an integer literal, when `Number(p)` overflows (`p` of magnitude at least `2^1024 - 2^970`, RangeError from `BigInt(rand)`), or when `p` is 0; the first missing field in the order `g`, `p`, `x` throws TypeError |
| DhServer020.ReplyUsesOneSecret | Lab_Test_MNS2025020/server.js:37-45 | a reply holds `K = x^b mod p` and `y = g^b mod p` for the same `b = draw + 2`, and nothing else; `p` is non-zero and `Number(p)` finite |
| DhServer020.ClientDerivesSameKey | Lab_Test_MNS2025020/server.js:37-45 | whenever the server exponent is at least 1, a client that sent `x = g^a mod p` obtains `K` from `y^a mod p` |
| NativeModExp.ProductFits | Lab_Test_MNS2025006/server/myProg.c:7-8 | a product of two magnitudes of at most `2^31` fits in `long long` |
| NativeModExp.ModExp | Lab_Test_MNS2025006/server/myProg.c:1-12 | returns the specification with no overflow and a lossless cast: 1 for `exp <= 0` (also when `mod = 1`), a truncating residue smaller in magnitude than `mod` otherwise |
| Common.XorTwice | Assignment4/rc4.c:32 | XORing a byte twice with the same keystream byte gives it back |
| Rc4Cipher.SwapEffect | Assignment4/rc4.c:17-19 | the exchange through `temp` (`Rc4Cipher.Swap`) puts `S[j]` at `i`, `S[i]` at `j`, and leaves every other entry alone |
| Rc4Cipher.SwapKeepsMultiset | Assignment4/rc4.c:17-19 | a swap keeps the multiset of entries |
| Rc4Cipher.IdentityIsPermutation | Assignment4/rc4.c:11-13 | the initial `S[i] = i` holds each byte value exactly once |
| Rc4Cipher.KsaFromKeepsMultiset | Assignment4/rc4.c:15-20 | the key-scheduling swaps keep the multiset of the state |
| Rc4Cipher.KsaIsPermutation | Assignment4/rc4.c:11-20 | after key scheduling `S` is a permutation of 0..255, whatever the key |
| Rc4Cipher.PrgaAfter | Assignment4/rc4.c:26-27 | `i` and `j` stay in `[0, 255]` after any number of PRGA steps |
| Rc4Cipher.PrgaAfterStep | Assignment4/rc4.c:26-30 | the state after `n + 1` PRGA steps is one step past the state after `n` steps |
| Rc4Cipher.PrgaAt | Assignment4/rc4.c:26-31 | keystream byte `n` is the byte emitted by the step taken from the state after `n` steps |
| Rc4Cipher.PrgaKeepsPermutation | Assignment4/rc4.c:26-30 | every PRGA step keeps `S` a permutation |
| Rc4Cipher.PrgaPrefix | Assignment4/rc4.c:25-31 | fewer steps yield a prefix of the longer keystream |
| Rc4Cipher.KeystreamPrefix | Assignment4/rc4.c:25-31 | the keystream depends only on the key and the position, not on the data or its length |
| Rc4Cipher.CryptAt | Assignment4/rc4.c:31-32 | output byte `n` is `data[n]` XOR keystream byte `n` |
| Rc4Cipher.CryptInvolution | Assignment4/rc4.c:25-32 | encrypting twice with one key gives the data back |
| Rc4Cipher.InitState | Assignment4/rc4.c:11-13 | the first loop leaves `S` as the identity |
| Rc4Cipher.RemOfNegativeDivisor | Assignment4/rc4.c:16 | for `i >= 0`, `i % key_len` is `i % abs(key_len)` and lies in `[0, abs(key_len))`, so the key index stays in bounds for a negative `key_len` too |
| Rc4Cipher.ScheduleKey | Assignment4/rc4.c:15-20 | the in-place key-scheduling loop leaves `S` as the key schedule of the key's first `abs(key_len)` bytes (C's `%` with a non-negative dividend, `Rc4Cipher.RemOfNegativeDivisor`) |
| Rc4Cipher.NextByte | Assignment4/rc4.c:26-31 | one pass of the keystream loop is one PRGA step: new `i`, `j`, swapped `S`, and the byte `K` |
| Rc4Cipher.EmitByte | Assignment4/rc4.c:26-32 | one pass of the third loop moves the state from step `n` to step `n + 1` and writes `data[n]` XOR keystream byte `n` into `output[n]`, and nothing else |
| Rc4Cipher.GenerateInto | Assignment4/rc4.c:23-33 | the third loop writes `data[n]` XOR keystream byte `n` into each `output[n]` with `n < data_len`, and nothing beyond it |
| Rc4Cipher.Rc4Crypt | Assignment4/rc4.c:6-34 | for any non-zero `key_len`, `output[0..data_len)` becomes the RC4 encryption of `data` under the key's first `abs(key_len)` bytes; the rest of `output`, `data` and `key` are unchanged |
| HexCodec.FromHex | utils/crypto.js:4-5 | `fromHex`; characterised by `HexCodec.FromHexOfDigits`, `HexCodec.FromHexThrowsIff` and `HexCodec.FromHexToHex` |
| HexCodec.ToHex | utils/crypto.js:7-8 | `toHex`; characterised by `HexCodec.ToHexDigits`, `HexCodec.ToHexIsLowerHex` and `HexCodec.ToHexFromHex` |
| HexCodec.ParseIntHex | utils/crypto.js:5 | `parseInt(chunk, 16)`; characterised by `HexCodec.HexDigitPrefix`, `HexCodec.ParsePair`, `HexCodec.ParseSingle`, `HexCodec.NonHexChunkIsZero` and `HexCodec.NegativeChunkWraps` |
| HexCodec.ToUint8 | utils/crypto.js:5 | `Uint8Array` storage of a parsed chunk: NaN as 0, anything else modulo 256; characterised by `HexCodec.NonHexChunkIsZero` and `HexCodec.NegativeChunkWraps` |
| HexCodec.Chunks | utils/crypto.js:5 | every match of `/.{1,2}/g` has one or two characters and no line terminator |
| HexCodec.HexDigitPrefix | utils/crypto.js:5 | `parseInt` reads the longest run of hex digits: a prefix of its input, all digits, followed by a non-digit or the end |
| HexCodec.HexByteDigits | utils/crypto.js:8 | `toString(16).padStart(2, '0')` writes exactly the high and the low nibble as lower-case digits |
| HexCodec.ToHexDigits | utils/crypto.js:7-8 | `toHex` output is twice as long as the bytes, and characters `2k`, `2k+1` are the nibbles of byte `k` |
| HexCodec.ToHexIsLowerHex | utils/crypto.js:7-8 | `toHex` writes lower-case hexadecimal digits only |
| HexCodec.ChunksOfDigits | utils/crypto.js:5 | on a hex-digit string the matches are its consecutive pairs, and a single last digit when its length is odd |
| HexCodec.ParsePair | utils/crypto.js:5 | two hex digits read as `16 * high + low`, which `Uint8Array` stores unchanged |
| HexCodec.ParseSingle | utils/crypto.js:5 | a single hex digit reads as its value, which `Uint8Array` stores unchanged |
| HexCodec.FromHexOfDigits | utils/crypto.js:4-5 | a hex string of length `2n` gives `n` bytes, byte `k` being the value of characters `2k..2k+1`; an odd last digit is the last byte |
| HexCodec.FromHexThrowsIff | utils/crypto.js:5 | `fromHex` throws TypeError exactly when the string holds only line terminators, the empty string included |
| HexCodec.NonHexChunkIsZero | utils/crypto.js:5 | a chunk starting with neither white space, a sign nor a hex digit is NaN and stored as 0 |
| HexCodec.NegativeChunkWraps | utils/crypto.js:5 | a chunk `-d` reads as `-d` and is stored modulo 256 |
| HexCodec.FromHexToHex | utils/crypto.js:4-8 | `fromHex(toHex(bytes))` gives back every non-empty byte array |
| HexCodec.EmptyDoesNotRoundTrip | utils/crypto.js:4-8 | `toHex` of no bytes is `''`, and `fromHex('')` throws |
| HexCodec.ToHexFromHex | utils/crypto.js:4-8 | `toHex(fromHex(s))` is `s` in lower case, for every non-empty even-length hex string |

## Left out

- HTTP plumbing is not modelled: Express routing, JSON body parsing, static
  files, `app.listen` and `console.error`. A handler is a function from the
  request fields to the reply.
- Request fields that JSON delivers as numbers, booleans or objects are not
  modelled. A field is absent or a string.
- `crypto.randomBytes` and `Math.random` are not modelled; they are parameters.
  - `DhServer015.RandomBigIntBelow`: a finite byte stream stands in for the
    endless source. When the stream runs out before a draw is accepted, the
    model reports `Exhausted` (no reply yet), where the real loop would keep
    drawing.
- `DhServer020.HandleCompute`: the floating-point product, and the loss of
  precision in `Number(p)` for `2^53 < |p| < 2^1024 - 2^970`, are not
  modelled; the draw is an integer in the range the expression yields for
  exact arithmetic. The overflow of `Number(p)` to an infinity is modelled.
- The handlers of the WebAssembly-backed servers are left out. They are glue
  over floating-point `Number` and `Math.random` values.
  - `Lab_Test_MNS2025006/server/server.js` calls `wasm.modexp`, compiled from
    `myProg.c`, which `NativeModExp.ModExp` models.
  - The source of the module behind `LAB_TEST_MNS2025022/server/server.js` is
    not available.
- ML-KEM encapsulation and AES-GCM in `encryptMessage` and `decryptMessage` are
  library calls and are left out.
- `Rc4Cipher.Rc4Crypt`:
  - requires `output` to be distinct from `data` and from `key`, as its caller
    allocates them, so in-place encryption through aliased `data` and `output`
    is not modelled (`data` and `key` may alias);
  - requires `key_len != 0`, because `i % key_len` divides by zero in C; its
    only caller, `Assignment4/src/app/page.js:49`, passes the length of a key
    that `page.js:64` and `page.js:79` check to be non-empty.
- The RC4 test vectors of RFC 6229 are not checked as concrete cases. Unfolding
  256 key-scheduling swaps on literal data is beyond what the verifier does
  cheaply.
- A Dafny `char` is a Unicode scalar value, so the character-level model of
  JavaScript strings does not capture two cases:
  - a lone surrogate code unit cannot be represented;
  - a character above U+FFFF is one `char`, where JavaScript stores two code
    units. `/.{1,2}/g` and `toString` lengths then differ.
