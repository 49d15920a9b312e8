/** The Diffie-Hellman responder of Lab_Test_MNS2025015/server.js: a rejection
    sampler for the secret exponent over a byte source, square-and-multiply
    modular exponentiation on BigInt, and the POST /api/dh handler that answers
    a client's `<g, p, x>` with `<y, K>`. The byte source of
    `crypto.randomBytes` is an explicit input sequence. */
module DhServer015 {
  import opened Common
  import opened ModArith
  import opened JsBigInt
  import opened DhWire

  // ---------------------------------------------------------------------------
  // randomBigIntBelow

  /** `max.toString(2).length`. */
  function BitLength(n: nat): nat
  {
    |Digits(n, 2)|
  }

  /** `Math.ceil(BitLength(max) / 8)`: the number of random bytes one draw takes. */
  function ByteCount(max: nat): nat
  {
    (BitLength(max) + 7) / 8
  }

  /** The unsigned big-endian value of a byte string, as the loop
      `cand = (cand << 8n) + BigInt(buf[i])` accumulates it. */
  function BigEndian(bs: seq<byte>): nat
    decreases |bs|
  {
    if bs == [] then 0 else BigEndian(bs[..|bs| - 1]) * 256 + bs[|bs| - 1]
  }

  /** The `n`-byte big-endian encoding of `v` (the inverse of BigEndian). */
  function ToBigEndian(v: nat, n: nat): (bs: seq<byte>)
    ensures |bs| == n
    decreases n
  {
    if n == 0 then [] else ToBigEndian(v / 256, n - 1) + [v % 256]
  }

  /** The byte offset at which the `k`-th draw of `n` bytes ends. */
  function DrawEnd(n: nat, k: nat): nat
  {
    k * n + n
  }

  /** Each draw ends `n` bytes after the previous one. */
  lemma DrawEndStep(n: nat, k: nat)
    ensures DrawEnd(n, k) >= n && DrawEnd(n, k + 1) == DrawEnd(n, k) + n
  {
    assert (k + 1) * n == k * n + n;
  }

  lemma DrawEndMonotone(n: nat, k: nat, j: nat)
    requires k <= j
    ensures DrawEnd(n, k) <= DrawEnd(n, j)
  {
    assert j * n == k * n + (j - k) * n;
  }

  /** The bytes of the `k`-th draw of `n` bytes from the byte source. */
  function Block(entropy: seq<byte>, n: nat, k: nat): seq<byte>
    requires DrawEnd(n, k) <= |entropy|
  {
    entropy[DrawEnd(n, k) - n .. DrawEnd(n, k)]
  }

  /** What the sampler has produced: an accepted candidate together with the
      number of bytes drawn so far, or `Exhausted` when the byte source ran
      out before a draw was accepted (the JavaScript loop would keep drawing). */
  datatype Draw = Drawn(value: int, used: nat) | Exhausted

  predicate Accepted(cand: int, max: int)
  {
    cand > 0 && cand < max
  }

  /** Rejection sampling from the `k`-th draw on, `n` bytes per draw. */
  function SampleFrom(max: int, n: nat, entropy: seq<byte>, k: nat): Draw
    requires n >= 1
    decreases |entropy| - DrawEnd(n, k)
  {
    DrawEndStep(n, k);
    if DrawEnd(n, k) > |entropy| then Exhausted
    else
      var cand := BigEndian(Block(entropy, n, k));
      if Accepted(cand, max) then Drawn(cand, DrawEnd(n, k)) else SampleFrom(max, n, entropy, k + 1)
  }

  /** randomBigIntBelow(max) over the byte source `entropy`. */
  function RandomBelow(max: int, entropy: seq<byte>): Draw
  {
    if max <= 2 then Drawn(1, 0)
    else
      ByteCountPositive(max);
      SampleFrom(max, ByteCount(max), entropy, 0)
  }

  lemma ByteCountPositive(max: int)
    requires max > 2
    ensures ByteCount(max) >= 1
  {
    DigitsRoundTrip(max, 2);
  }

  /** `randomBigIntBelow`: 1 for a bound of at most 2; otherwise draws of
      `ByteCount(max)` bytes read big-endian until one lies in `(0, max)`. */
  method RandomBigIntBelow(maxExclusive: int, entropy: seq<byte>) returns (d: Draw)
    ensures d == RandomBelow(maxExclusive, entropy)
  {
    var max := maxExclusive;
    if max <= 2 {
      return Drawn(1, 0);
    }
    ByteCountPositive(max);
    var bytes := (|Digits(max, 2)| + 7) / 8;
    var pos, k := 0, 0;
    while true
      invariant pos + bytes == DrawEnd(bytes, k) && pos <= |entropy|
      invariant SampleFrom(max, bytes, entropy, k) == RandomBelow(max, entropy)
      decreases |entropy| - pos
    {
      if pos + bytes > |entropy| {
        return Exhausted;
      }
      var buf := entropy[pos..pos + bytes];
      assert buf == Block(entropy, bytes, k);
      pos, k := pos + bytes, k + 1;
      var cand := 0;
      for i := 0 to |buf|
        invariant cand == BigEndian(buf[..i])
      {
        assert buf[..i + 1][..i] == buf[..i];
        cand := cand * 256 + buf[i];
      }
      assert buf[..|buf|] == buf;
      if cand > 0 && cand < max {
        return Drawn(cand, pos);
      }
    }
  }

  // ---------------------------------------------------------------------------
  // Properties of the sampler

  /** Every accepted draw is the raw value of one whole draw, taken without any
      reduction, and every draw before it was rejected; when the source runs
      out, every complete draw was rejected. */
  lemma {:induction false} SampleFromFirstAccepted(max: int, n: nat, entropy: seq<byte>, k: nat)
    requires n >= 1
    ensures var d := SampleFrom(max, n, entropy, k);
            d.Drawn? ==> DrawEnd(n, k) <= d.used <= |entropy| && Accepted(d.value, max) &&
                         d.value == BigEndian(entropy[d.used - n .. d.used])
    ensures var d := SampleFrom(max, n, entropy, k);
            forall j :: k <= j && DrawEnd(n, j) <= |entropy| && (d.Drawn? ==> DrawEnd(n, j) < d.used) ==>
              !Accepted(BigEndian(Block(entropy, n, j)), max)
    decreases |entropy| - DrawEnd(n, k)
  {
    if DrawEnd(n, k) > |entropy| || Accepted(BigEndian(Block(entropy, n, k)), max) {
      forall j | k <= j
        ensures DrawEnd(n, k) <= DrawEnd(n, j)
      {
        DrawEndMonotone(n, k, j);
      }
    } else {
      SampleFromFirstAccepted(max, n, entropy, k + 1);
    }
  }

  /** randomBigIntBelow returns exactly 1 for a bound of at most 2, and
      otherwise a value strictly between 0 and the bound, read from the bytes
      of the last draw it consumed. */
  lemma RandomBelowRange(max: int, entropy: seq<byte>)
    ensures max <= 2 ==> RandomBelow(max, entropy) == Drawn(1, 0)
    ensures max > 2 && RandomBelow(max, entropy).Drawn? ==>
              var d := RandomBelow(max, entropy);
              0 < d.value < max && ByteCount(max) <= d.used <= |entropy| &&
              d.value == BigEndian(entropy[d.used - ByteCount(max) .. d.used])
  {
    if max > 2 {
      ByteCountPositive(max);
      var n := ByteCount(max);
      SampleFromFirstAccepted(max, n, entropy, 0);
      var d := RandomBelow(max, entropy);
    }
  }

  /** An `n`-byte draw reads as a value below `256^n`. */
  lemma {:induction false} BigEndianBound(bs: seq<byte>)
    ensures BigEndian(bs) < Pow(256, |bs|)
    decreases |bs|
  {
    if bs != [] {
      var front := bs[..|bs| - 1];
      BigEndianBound(front);
      var b, p := BigEndian(front), Pow(256, |front|);
      assert b * 256 <= (p - 1) * 256;
    }
  }

  /** Reading the `n`-byte encoding of a value below `256^n` gives it back. */
  lemma {:induction false} ToBigEndianRoundTrip(v: nat, n: nat)
    requires v < Pow(256, n)
    ensures BigEndian(ToBigEndian(v, n)) == v
    decreases n
  {
    if n > 0 {
      var bs := ToBigEndian(v, n);
      ModUnique(v, 256, v / 256, v % 256);
      ToBigEndianRoundTrip(v / 256, n - 1);
      assert bs[..|bs| - 1] == ToBigEndian(v / 256, n - 1);
    }
  }

  /** Encoding the value of a draw gives back the draw: different draws of one
      length never read as the same candidate. */
  lemma {:induction false} BigEndianRoundTrip(bs: seq<byte>)
    ensures ToBigEndian(BigEndian(bs), |bs|) == bs
    decreases |bs|
  {
    if bs != [] {
      var front, last := bs[..|bs| - 1], bs[|bs| - 1];
      var v := BigEndian(bs);
      ModUnique(v, 256, BigEndian(front), last);
      BigEndianRoundTrip(front);
      assert bs == front + [last];
    }
  }

  /** A value of at least 1 is below two to the power of its bit length. */
  lemma {:induction false} BitLengthBound(m: nat)
    requires m >= 1
    ensures m < Pow(2, BitLength(m))
    decreases m
  {
    DigitsRoundTrip(m, 2);
    if m >= 2 {
      BitLengthBound(m / 2);
      assert |Digits(m, 2)| == |Digits(m / 2, 2)| + 1;
      assert BitLength(m) == BitLength(m / 2) + 1;
    }
  }

  lemma {:induction false} PowMonotone(b: int, e1: nat, e2: nat)
    requires b >= 1 && e1 <= e2
    ensures 1 <= Pow(b, e1) <= Pow(b, e2)
    decreases e2
  {
    if e2 > e1 {
      PowMonotone(b, e1, e2 - 1);
      assert Pow(b, e2) == b * Pow(b, e2 - 1);
      assert b * Pow(b, e2 - 1) >= 1 * Pow(b, e2 - 1);
    } else if e1 > 0 {
      PowMonotone(b, 0, e1 - 1);
      assert b * Pow(b, e1 - 1) >= 1 * Pow(b, e1 - 1);
    }
  }

  /** `ceil(bitlen(max)/8)` bytes are enough: every candidate below `max` is the
      value of exactly one draw, so an accepted value is uniform over `(0, max)`. */
  lemma EveryCandidateDrawable(max: int, v: nat)
    requires max > 2 && v < max
    ensures |ToBigEndian(v, ByteCount(max))| == ByteCount(max)
    ensures BigEndian(ToBigEndian(v, ByteCount(max))) == v
    ensures forall bs: seq<byte> :: |bs| == ByteCount(max) && BigEndian(bs) == v ==>
              bs == ToBigEndian(v, ByteCount(max))
  {
    var len, c := BitLength(max), ByteCount(max);
    BitLengthBound(max);
    PowMonotone(2, len, 8 * c);
    PowMul(2, 8, c);
    assert Pow(2, 8) == 256;
    ToBigEndianRoundTrip(v, c);
    forall bs: seq<byte> | |bs| == c && BigEndian(bs) == v
      ensures bs == ToBigEndian(v, c)
    {
      BigEndianRoundTrip(bs);
    }
  }

  // ---------------------------------------------------------------------------
  // modPowBigInt

  /** `modPowBigInt(base, exp, mod)`: the base is reduced with BigInt's
      truncating `%` (which throws a RangeError for a zero modulus), then one
      pass per bit of the exponent squares the base and, on a set bit, multiplies
      it into the result. An exponent of 0 or less returns 1 unreduced. */
  method ModPowBigInt(base: int, exp: int, mod: int) returns (r: Result<int>)
    ensures mod == 0 ==> r == Throw(RangeError)
    ensures mod != 0 ==> r == Ok(ModPowSpec(base, exp, mod))
    ensures mod != 0 && exp <= 0 ==> r == Ok(1)
    ensures mod != 0 && exp > 0 ==> r.Ok? && Abs(r.value) < Abs(mod)
  {
    if mod == 0 {
      return Throw(RangeError);
    }
    var b := TruncRem(base, mod);
    var e := exp;
    var result := 1;
    ghost var target := ModPowSpec(base, exp, mod);
    if exp > 0 {
      PowCongruent(base, exp, mod);
    }
    while e > 0
      invariant exp <= 0 ==> e == exp && result == 1
      invariant exp > 0 ==> 0 <= e && TruncRem(result * Pow(b, e), mod) == target
      invariant exp > 0 ==> e > 0 || TruncRem(result, mod) == result
    {
      ModPowStep(result, b, e, mod);
      if e % 2 == 1 {
        result := TruncRem(result * b, mod);
        TruncRemIdempotent(result, mod);
      }
      b := TruncRem(b * b, mod);
      e := e / 2;
    }
    return Ok(result);
  }

  // ---------------------------------------------------------------------------
  // POST /api/dh

  /** The replies of POST /api/dh: status 200 with `{ y, K }` as decimal
      strings, status 400 `{ error: 'missing g/p/x' }`, status 500
      `{ error: 'server error', details }` naming the exception, or no reply
      while the sampler is still drawing. */
  datatype Reply =
    | Json(y: string, K: string)
    | MissingFields
    | ServerError(details: JsError)
    | NoReply

  /** The secret exponent the handler draws for a modulus `p`. */
  function ServerSecret(p: int, entropy: seq<byte>): Draw
  {
    RandomBelow(p - 1, entropy)
  }

  /** What the POST /api/dh handler answers to a request, given the bytes its
      sampler draws. */
  function Respond(req: Request, entropy: seq<byte>): Reply
  {
    if !Truthy(req.g) || !Truthy(req.p) || !Truthy(req.x) then MissingFields
    else
      match FieldToBigInt(req.p)
      case Throw(e) => ServerError(e)
      case Ok(p) =>
        match ServerSecret(p, entropy)
        case Exhausted => NoReply
        case Drawn(b, _) =>
          match FieldToBigInt(req.g)
          case Throw(e) => ServerError(e)
          case Ok(g) =>
            if p == 0 then ServerError(RangeError)
            else
              match FieldToBigInt(req.x)
              case Throw(e) => ServerError(e)
              case Ok(x) => Json(DecimalString(ModPowSpec(g, b, p)), DecimalString(ModPowSpec(x, b, p)))
  }

  /** The handler: check the three fields, read `p`, draw `b`, compute
      `y = g^b mod p` and `K = x^b mod p`, reply with both in decimal. */
  method HandleDh(req: Request, entropy: seq<byte>) returns (reply: Reply)
    ensures reply == Respond(req, entropy)
  {
    if !Truthy(req.g) || !Truthy(req.p) || !Truthy(req.x) {
      return MissingFields;
    }
    var pBig := FieldToBigInt(req.p);
    if pBig.Throw? {
      return ServerError(pBig.error);
    }
    var p := pBig.value;
    var draw := RandomBigIntBelow(p - 1, entropy);
    if draw.Exhausted? {
      return NoReply;
    }
    var b := draw.value;
    var gBig := FieldToBigInt(req.g);
    if gBig.Throw? {
      return ServerError(gBig.error);
    }
    var y := ModPowBigInt(gBig.value, b, p);
    if y.Throw? {
      return ServerError(y.error);
    }
    var xBig := FieldToBigInt(req.x);
    if xBig.Throw? {
      return ServerError(xBig.error);
    }
    var k := ModPowBigInt(xBig.value, b, p);  // cannot throw: p is non-zero here
    return Json(DecimalString(y.value), DecimalString(k.value));
  }

  // ---------------------------------------------------------------------------
  // Properties of the handler

  /** The handler answers 400 exactly when one of `g`, `p`, `x` is absent or
      empty, and then it has drawn nothing and computed nothing. */
  lemma MissingFieldsIff(req: Request, entropy: seq<byte>)
    ensures Respond(req, entropy) == MissingFields <==>
            !Truthy(req.g) || !Truthy(req.p) || !Truthy(req.x)
  {
  }

  /** A successful reply carries exactly `y = g^b mod p` and `K = x^b mod p` for
      one secret `b` drawn from `[1, p-2]` (or `b = 1` when `p <= 3`); the reply
      has no field for `b`. */
  lemma ReplyUsesOneSecret(req: Request, entropy: seq<byte>)
    requires Respond(req, entropy).Json?
    ensures FieldToBigInt(req.g).Ok? && FieldToBigInt(req.p).Ok? && FieldToBigInt(req.x).Ok?
    ensures var g, p, x := FieldToBigInt(req.g).value, FieldToBigInt(req.p).value, FieldToBigInt(req.x).value;
            var d := ServerSecret(p, entropy);
            p != 0 && d.Drawn? &&
            (p <= 3 ==> d.value == 1) && (p > 3 ==> 1 <= d.value <= p - 2) &&
            Respond(req, entropy) == Json(DecimalString(ModPowSpec(g, d.value, p)),
                                          DecimalString(ModPowSpec(x, d.value, p)))
  {
    var p := FieldToBigInt(req.p).value;
    RandomBelowRange(p - 1, entropy);
  }

  /** A client that sent `x = g^a mod p` for its own secret `a >= 1` and raises
      the `y` it reads back to `a` obtains the `K` of the reply. */
  lemma ClientDerivesSameKey(req: Request, entropy: seq<byte>, a: int)
    requires Respond(req, entropy).Json? && a >= 1
    requires FieldToBigInt(req.p).Ok? && FieldToBigInt(req.g).Ok? && FieldToBigInt(req.x).Ok?
    requires FieldToBigInt(req.p).value != 0
    requires FieldToBigInt(req.x).value ==
             ModPowSpec(FieldToBigInt(req.g).value, a, FieldToBigInt(req.p).value)
    ensures var reply := Respond(req, entropy);
            var p := FieldToBigInt(req.p).value;
            StringToBigInt(reply.y).Some? && StringToBigInt(reply.K).Some? &&
            StringToBigInt(reply.K).value == ModPowSpec(StringToBigInt(reply.y).value, a, p)
  {
    var g, p := FieldToBigInt(req.g).value, FieldToBigInt(req.p).value;
    ReplyUsesOneSecret(req, entropy);
    var b := ServerSecret(p, entropy).value;
    Agreement(g, a, b, p);
    DecimalRoundTrip(ModPowSpec(g, b, p));
    DecimalRoundTrip(ModPowSpec(ModPowSpec(g, a, p), b, p));
  }
}
