/** The JSON request that a Diffie-Hellman client posts to the lab servers:
    the generator `g`, the modulus `p` and the client's public value `x`, each a
    decimal string, any of which may be absent. */
module DhWire {
  import opened Common
  import opened JsBigInt

  datatype Request = Request(g: Option<string>, p: Option<string>, x: Option<string>)

  /** JavaScript truthiness of a string field: `undefined` and `''` are falsy. */
  predicate Truthy(f: Option<string>)
  {
    f.Some? && f.value != ""
  }

  /** `BigInt(field)`: `BigInt(undefined)` throws a TypeError and a string that
      is not an integer literal a SyntaxError. */
  function FieldToBigInt(f: Option<string>): Result<int>
  {
    match f
    case None => Throw(TypeError)
    case Some(s) =>
      match StringToBigInt(s)
      case None => Throw(SyntaxError)
      case Some(n) => Ok(n)
  }

  /** A field that a client filled with the decimal form of a value reads back
      as that value. */
  lemma FieldRoundTrip(n: int)
    ensures Truthy(Some(DecimalString(n)))
    ensures FieldToBigInt(Some(DecimalString(n))) == Ok(n)
  {
    DecimalRoundTrip(n);
    DigitsRoundTrip(if n < 0 then -n else n, 10);
  }
}
