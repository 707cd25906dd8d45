// The basic types of include/privacy_pass/core/types.hpp.
module Types {
  type byte = x: int | 0 <= x < 0x100
  type uint16 = x: int | 0 <= x < 0x1_0000
  type uint32 = x: int | 0 <= x < 0x1_0000_0000
  type uint64 = x: int | 0 <= x < 0x1_0000_0000_0000_0000
  type Bytes = seq<byte>

  // nonces, challenge digests and key identifiers are 32 octets long
  type Bytes32 = b: Bytes | |b| == 32 witness seq(32, _ => 0)
  type Hash384 = b: Bytes | |b| == 48 witness seq(48, _ => 0)

  datatype Option<+T> = None | Some(value: T)
  {
    function OrElse(error: ErrorCode): Result<T> { if Some? then Ok(value) else Err(error) }
  }

  datatype ErrorCode =
    | INVALID_LENGTH | MALFORMED_DATA | UNEXPECTED_END
    | CRYPTO_ERROR | INVALID_KEY | BLINDING_FAILED | UNBLINDING_FAILED | VERIFICATION_FAILED
    | TOKEN_INVALID | TOKEN_REPLAYED | ISSUER_UNKNOWN | TOKEN_MALFORMED
    | UNSUPPORTED_TOKEN_TYPE | INVALID_CHALLENGE
    | INVALID_HEADER | MISSING_PARAMETER | INVALID_BASE64

  datatype Result<+T> = Ok(value: T) | Err(error: ErrorCode)
  {
    predicate IsFailure() { Err? }

    function PropagateFailure<U>(): Result<U>
      requires Err?
    {
      Err(error)
    }

    function Extract(): T
      requires Ok?
    {
      value
    }
  }

  // elements collected before a list that may fail
  function Prepend<T>(done: seq<T>, tail: Result<seq<T>>): Result<seq<T>> {
    match tail
    case Err(error) => Err(error)
    case Ok(elements) => Ok(done + elements)
  }

  lemma PrependNothing<T>(tail: Result<seq<T>>)
    ensures Prepend([], tail) == tail
  {
    match tail
    case Err(_) =>
    case Ok(elements) => assert [] + elements == elements;
  }

  // A token type is any 16-bit value; these are the ones the library knows.
  type TokenType = uint16
  const VOPRF_P384_SHA384: TokenType := 0x0001
  const BLIND_RSA: TokenType := 0x0002
  const VOPRF_RISTRETTO255_SHA512: TokenType := 0x0005
  const PARTIALLY_BLIND_RSA: TokenType := 0xDA7A
  const ARC_P256: TokenType := 0xE5AC

  predicate IsKnownType(t: TokenType) {
    t in {VOPRF_P384_SHA384, BLIND_RSA, VOPRF_RISTRETTO255_SHA512, PARTIALLY_BLIND_RSA, ARC_P256}
  }

  predicate IsRsa(t: TokenType) { t == BLIND_RSA || t == PARTIALLY_BLIND_RSA }

  // the truncated form of a key identifier
  function LastByte(id: Bytes32): byte { id[31] }

  function AuthenticatorSize(t: TokenType): nat {
    if t == VOPRF_P384_SHA384 then 48
    else if t == BLIND_RSA || t == PARTIALLY_BLIND_RSA then 256
    else if t == VOPRF_RISTRETTO255_SHA512 then 64
    else if t == ARC_P256 then 65
    else 0
  }

  function BlindedElementSize(t: TokenType): nat {
    if t == VOPRF_P384_SHA384 then 49
    else if t == BLIND_RSA || t == PARTIALLY_BLIND_RSA then 256
    else if t == VOPRF_RISTRETTO255_SHA512 then 32
    else if t == ARC_P256 then 65
    else 0
  }

  // A std::string holds octets: ToBytes views it as them, ToText goes back.
  function ToBytes(t: string): (b: Bytes)
    ensures |b| == |t|
  {
    seq(|t|, i requires 0 <= i < |t| => t[i] as int % 0x100)
  }

  function ToText(b: Bytes): (t: string)
    ensures |t| == |b|
  {
    seq(|b|, i requires 0 <= i < |b| => b[i] as char)
  }

  ghost predicate IsText(t: string) { forall i | 0 <= i < |t| :: t[i] < 0x100 as char }

  lemma BytesRoundTrip(t: string)
    requires IsText(t)
    ensures ToText(ToBytes(t)) == t
  {
  }
}
