/** The Diffie-Hellman responder of Lab_Test_MNS2025020/server.js: BigInt
    square-and-multiply `modexp` and the POST /compute handler, which converts
    `g`, `p`, `x` with `BigInt(...)` without any validation, picks
    `b = floor(Math.random() * (p - 3)) + 2` and answers `{ K, y }`. The value of
    `floor(Math.random() * (Number(p) - 3))` is an explicit input. */
module DhServer020 {
  import opened Common
  import opened ModArith
  import opened JsBigInt
  import opened DhWire

  /** `modexp(a, b, n)`: `result` starts at 1, `a` is reduced with BigInt's
      truncating `%` (a RangeError for `n == 0`), and each pass over a bit of
      `b` multiplies on a set bit and squares. */
  method ModExp(a: int, b: int, n: int) returns (r: Result<int>)
    ensures n == 0 ==> r == Throw(RangeError)
    ensures n != 0 ==> r == Ok(ModPowSpec(a, b, n))
    ensures n != 0 && b <= 0 ==> r == Ok(1)
    ensures n != 0 && b > 0 ==> r.Ok? && Abs(r.value) < Abs(n)
  {
    var result := 1;
    if n == 0 {
      return Throw(RangeError);
    }
    var base := TruncRem(a, n);
    var e := b;
    ghost var target := ModPowSpec(a, b, n);
    if b > 0 {
      PowCongruent(a, b, n);
    }
    while e > 0
      invariant b <= 0 ==> e == b && result == 1
      invariant b > 0 ==> 0 <= e && TruncRem(result * Pow(base, e), n) == target
      invariant b > 0 ==> e > 0 || TruncRem(result, n) == result
    {
      ModPowStep(result, base, e, n);
      if e % 2 == 1 {
        result := TruncRem(result * base, n);
        TruncRemIdempotent(result, n);
      }
      base := TruncRem(base * base, n);
      e := e / 2;
    }
    return Ok(result);
  }

  /** The least magnitude that `Number` rounds to an infinity: halfway between
      the largest finite double, `2^1024 - 2^971`, and `2^1024`, which the
      round-half-to-even rule sends up. It is `2^1024 - 2^970`. */
  const NumberOverflowBound: int :=
    0xFFFFFFFFFFFFFC00_0000000000000000_0000000000000000_0000000000000000_0000000000000000_0000000000000000_0000000000000000_0000000000000000_0000000000000000_0000000000000000_0000000000000000_0000000000000000_0000000000000000_0000000000000000_0000000000000000_0000000000000000

  /** `Number(p)` is an infinity, so `Math.random() * (Number(p) - 3)` is an
      infinity or NaN, and `BigInt` of its floor throws a RangeError. */
  predicate NumberOverflows(p: int)
  {
    p >= NumberOverflowBound || p <= -NumberOverflowBound
  }

  /** The replies of POST /compute: `{ K, y }` as decimal strings, or an
      exception that escapes the handler (Express then answers with its
      default error page). */
  datatype Reply = Json(K: string, y: string) | Thrown(error: JsError)

  /** The values `floor(Math.random() * (p - 3))` can take for a modulus `p`,
      with `Math.random()` in `[0, 1)`. */
  predicate DrawInRange(p: int, draw: int)
  {
    if p > 3 then 0 <= draw <= p - 4 else p - 3 <= draw <= 0
  }

  /** The secret exponent `b = draw + 2`. */
  function ServerSecret(draw: int): int
  {
    draw + 2
  }

  /** What the POST /compute handler answers, given its random draw. */
  function Respond(req: Request, draw: int): Reply
  {
    match FieldToBigInt(req.g)
    case Throw(e) => Thrown(e)
    case Ok(g) =>
      match FieldToBigInt(req.p)
      case Throw(e) => Thrown(e)
      case Ok(p) =>
        match FieldToBigInt(req.x)
        case Throw(e) => Thrown(e)
        case Ok(x) =>
          var b := ServerSecret(draw);
          if NumberOverflows(p) then Thrown(RangeError)
          else if p == 0 then Thrown(RangeError)
          else Json(DecimalString(ModPowSpec(x, b, p)), DecimalString(ModPowSpec(g, b, p)))
  }

  /** The handler: convert the three fields, pick `b`, compute `y = g^b mod p`
      and `K = x^b mod p`, reply with both in decimal. */
  method HandleCompute(req: Request, draw: int) returns (reply: Reply)
    requires FieldToBigInt(req.p).Ok? && !NumberOverflows(FieldToBigInt(req.p).value) ==>
             DrawInRange(FieldToBigInt(req.p).value, draw)
    ensures reply == Respond(req, draw)
  {
    var bigG := FieldToBigInt(req.g);
    if bigG.Throw? {
      return Thrown(bigG.error);
    }
    var bigP := FieldToBigInt(req.p);
    if bigP.Throw? {
      return Thrown(bigP.error);
    }
    var bigX := FieldToBigInt(req.x);
    if bigX.Throw? {
      return Thrown(bigX.error);
    }
    if NumberOverflows(bigP.value) {
      return Thrown(RangeError);
    }
    var b := draw + 2;
    var y := ModExp(bigG.value, b, bigP.value);
    if y.Throw? {
      return Thrown(y.error);
    }
    var k := ModExp(bigX.value, b, bigP.value);  // cannot throw: p is non-zero here
    return Json(DecimalString(k.value), DecimalString(y.value));
  }

  // ---------------------------------------------------------------------------
  // Properties of the handler

  /** For a modulus above 3 the secret exponent lies in `[2, p-2]`. */
  lemma SecretInRange(p: int, draw: int)
    requires p > 3 && DrawInRange(p, draw)
    ensures 2 <= ServerSecret(draw) <= p - 2
  {
  }

  /** Nothing is validated: the handler throws exactly when a field is missing
      (TypeError) or not an integer literal (SyntaxError), when `Number(p)`
      overflows so that `BigInt` of the draw fails (RangeError), or when `p` is
      0 (RangeError). The fields are converted in the order `g`, `p`, `x`, so
      the first missing one throws TypeError unless an earlier one has already
      thrown. */
  lemma ThrowsIff(req: Request, draw: int)
    ensures Respond(req, draw).Thrown? <==>
            FieldToBigInt(req.g).Throw? || FieldToBigInt(req.p).Throw? ||
            FieldToBigInt(req.x).Throw? || NumberOverflows(FieldToBigInt(req.p).value) ||
            FieldToBigInt(req.p).value == 0
    ensures (FieldToBigInt(req.g).Ok? && FieldToBigInt(req.p).Ok? && FieldToBigInt(req.x).Ok? &&
             NumberOverflows(FieldToBigInt(req.p).value))
            ==> Respond(req, draw) == Thrown(RangeError)
    ensures req.g.None? ==> Respond(req, draw) == Thrown(TypeError)
    ensures req.g.Some? && req.p.None? && FieldToBigInt(req.g).Ok? ==> Respond(req, draw) == Thrown(TypeError)
    ensures FieldToBigInt(req.g).Ok? && FieldToBigInt(req.p).Ok? && req.x.None? ==>
            Respond(req, draw) == Thrown(TypeError)
  {
  }

  /** A successful reply carries exactly `K = x^b mod p` and `y = g^b mod p`
      for the one secret `b = draw + 2`; the reply has no field for `b`. */
  lemma ReplyUsesOneSecret(req: Request, draw: int)
    requires Respond(req, draw).Json?
    ensures FieldToBigInt(req.g).Ok? && FieldToBigInt(req.p).Ok? && FieldToBigInt(req.x).Ok?
    ensures var g, p, x := FieldToBigInt(req.g).value, FieldToBigInt(req.p).value, FieldToBigInt(req.x).value;
            var b := ServerSecret(draw);
            p != 0 && !NumberOverflows(p) &&
            Respond(req, draw) == Json(DecimalString(ModPowSpec(x, b, p)), DecimalString(ModPowSpec(g, b, p)))
  {
  }

  /** A client that sent `x = g^a mod p` for its own secret `a >= 1` and raises
      the `y` it reads back to `a` obtains the `K` of the reply, whenever the
      server's exponent is positive (always the case for a draw in range). */
  lemma ClientDerivesSameKey(req: Request, draw: int, a: int)
    requires Respond(req, draw).Json? && a >= 1
    requires FieldToBigInt(req.p).Ok? && FieldToBigInt(req.g).Ok? && FieldToBigInt(req.x).Ok?
    requires ServerSecret(draw) >= 1
    requires FieldToBigInt(req.x).value ==
             ModPowSpec(FieldToBigInt(req.g).value, a, FieldToBigInt(req.p).value)
    ensures var reply := Respond(req, draw);
            var p := FieldToBigInt(req.p).value;
            StringToBigInt(reply.y).Some? && StringToBigInt(reply.K).Some? &&
            StringToBigInt(reply.K).value == ModPowSpec(StringToBigInt(reply.y).value, a, p)
  {
    var g, p := FieldToBigInt(req.g).value, FieldToBigInt(req.p).value;
    var b := ServerSecret(draw);
    Agreement(g, a, b, p);
    DecimalRoundTrip(ModPowSpec(g, b, p));
    DecimalRoundTrip(ModPowSpec(ModPowSpec(g, a, p), b, p));
  }
}
