// The token of section 2.2 of RFC 9577: src/core/token.cpp.
module Tokens {
  import opened Types
  import opened Octets
  import opened Wire

  datatype AuthenticatorInput = AuthenticatorInput(
    tokenType: TokenType, nonce: Bytes32, challengeDigest: Bytes32, tokenKeyId: Bytes32)

  datatype Token = Token(
    tokenType: TokenType, nonce: Bytes32, challengeDigest: Bytes32, tokenKeyId: Bytes32, authenticator: Bytes)
  {
    function Input(): AuthenticatorInput { AuthenticatorInput(tokenType, nonce, challengeDigest, tokenKeyId) }

    // what validate() accepts
    function Validated(): Result<()> {
      if AuthenticatorSize(tokenType) == 0 then Err(UNSUPPORTED_TOKEN_TYPE)
      else if |authenticator| != AuthenticatorSize(tokenType) then Err(TOKEN_MALFORMED)
      else Ok(())
    }
  }

  function PrintInput(a: AuthenticatorInput): Bytes {
    U16(a.tokenType) + (a.nonce + (a.challengeDigest + a.tokenKeyId))
  }

  function PrintToken(t: Token): Bytes {
    U16(t.tokenType) + (t.nonce + (t.challengeDigest + (t.tokenKeyId + t.authenticator)))
  }

  // three 32-octet fields and what follows them
  function ParseFields(s: Bytes): Option<(Bytes32, Bytes32, Bytes32, Bytes)> {
    match ParseBytes(s, 32)
    case None => None
    case Some((a, s1)) =>
      match ParseBytes(s1, 32)
      case None => None
      case Some((b, s2)) =>
        match ParseBytes(s2, 32)
        case None => None
        case Some((c, rest)) => Some((a, b, c, rest))
  }

  function ParseInput(s: Bytes): Result<AuthenticatorInput> {
    match ParseU16(s)
    case None => Err(UNEXPECTED_END)
    case Some((t, rest)) =>
      match ParseFields(rest)
      case None => Err(UNEXPECTED_END)
      case Some((nonce, digest, keyId, _)) => Ok(AuthenticatorInput(t, nonce, digest, keyId))
  }

  function ParseToken(s: Bytes): Result<Token> {
    match ParseU16(s)
    case None => Err(UNEXPECTED_END)
    case Some((t, rest)) =>
      if !IsKnownType(t) then Err(UNSUPPORTED_TOKEN_TYPE)
      else
        match ParseFields(rest)
        case None => Err(UNEXPECTED_END)
        case Some((nonce, digest, keyId, tail)) =>
          if |tail| < AuthenticatorSize(t) then Err(UNEXPECTED_END)
          else if |tail| > AuthenticatorSize(t) then Err(MALFORMED_DATA)
          else Ok(Token(t, nonce, digest, keyId, tail))
  }

  lemma FieldsParse(s: Bytes, a: Bytes32, b: Bytes32, c: Bytes32, rest: Bytes)
    ensures ParseFields(s) == Some((a, b, c, rest)) <==> s == a + (b + (c + rest))
  {
    hide ParseBytes;
    BytesParse(s, a, b + (c + rest));
    BytesParse(b + (c + rest), b, c + rest);
    BytesParse(c + rest, c, rest);
    if ParseFields(s) == Some((a, b, c, rest)) {
      var s1 := ParseBytes(s, 32).value.1;
      var s2 := ParseBytes(s1, 32).value.1;
      BytesParse(s, a, s1);
      BytesParse(s1, b, s2);
      BytesParse(s2, c, rest);
    }
  }

  // exactly the printed form of a valid token of a known type is accepted
  lemma TokenParses(s: Bytes, t: Token)
    ensures ParseToken(s) == Ok(t) <==> s == PrintToken(t) && IsKnownType(t.tokenType) && t.Validated() == Ok(())
  {
    var rest := t.nonce + (t.challengeDigest + (t.tokenKeyId + t.authenticator));
    U16Parses(s, t.tokenType, rest);
    FieldsParse(rest, t.nonce, t.challengeDigest, t.tokenKeyId, t.authenticator);
    if ParseToken(s).Ok? {
      var read := ParseU16(s).value;
      U16Parses(s, read.0, read.1);
      FieldsParse(read.1, t.nonce, t.challengeDigest, t.tokenKeyId, t.authenticator);
    }
  }

  // cutting octets off a valid token, or adding some, is detected
  lemma TokenFramed(t: Token, s: Bytes)
    requires IsKnownType(t.tokenType) && t.Validated() == Ok(())
    ensures s < PrintToken(t) ==> ParseToken(s) == Err(UNEXPECTED_END)
    ensures PrintToken(t) < s ==> ParseToken(s) == Err(MALFORMED_DATA)
  {
    var p := PrintToken(t);
    if (s < p || p < s) && |s| >= 2 {
      assert s[0] == p[0] && s[1] == p[1];
      U16Parses(s, t.tokenType, s[2..]);
    }
  }

  // any text that starts with the printed input yields it: trailing data is not refused
  lemma InputParses(s: Bytes, a: AuthenticatorInput)
    ensures ParseInput(s) == Ok(a) <==> PrintInput(a) <= s
  {
    var fields := a.nonce + (a.challengeDigest + a.tokenKeyId);
    if PrintInput(a) <= s {
      var rest := s[|PrintInput(a)|..];
      assert s == PrintInput(a) + rest;
      assert s == U16(a.tokenType) + (a.nonce + (a.challengeDigest + (a.tokenKeyId + rest)));
      U16Parses(s, a.tokenType, a.nonce + (a.challengeDigest + (a.tokenKeyId + rest)));
      var fields := a.nonce + (a.challengeDigest + (a.tokenKeyId + rest));
      FieldsParse(fields, a.nonce, a.challengeDigest, a.tokenKeyId, rest);
    }
    if ParseInput(s) == Ok(a) {
      var read := ParseU16(s).value;
      U16Parses(s, read.0, read.1);
      var tail := ParseFields(read.1).value.3;
      FieldsParse(read.1, a.nonce, a.challengeDigest, a.tokenKeyId, tail);
      assert s == PrintInput(a) + tail;
    }
  }

  // what is signed is the token's own front: two tokens with the same printed input differ in the authenticator alone
  lemma InputOfToken(t: Token, u: Token)
    ensures PrintInput(t.Input()) + t.authenticator == PrintToken(t)
    ensures PrintInput(t.Input()) == PrintInput(u.Input()) ==> u == t.(authenticator := u.authenticator)
  {
    assert PrintInput(t.Input()) + t.authenticator == PrintToken(t);
    if PrintInput(t.Input()) == PrintInput(u.Input()) {
      InputParses(PrintInput(t.Input()), t.Input());
      InputParses(PrintInput(t.Input()), u.Input());
    }
  }

  // where each field of a token stands
  lemma TokenLayout(t: Token)
    ensures var s := PrintToken(t);
            && |s| == 98 + |t.authenticator| && s[..2] == BigEndian(t.tokenType, 2) && s[2..34] == t.nonce
            && s[34..66] == t.challengeDigest && s[66..98] == t.tokenKeyId && s[98..] == t.authenticator
            && s[..98] == PrintInput(t.Input())
  {
    ReadsBigEndian([], t.tokenType);
    assert t.tokenType % 0x1_0000 == t.tokenType;
  }

  method SerializeInput(a: AuthenticatorInput) returns (r: Bytes)
    ensures r == PrintInput(a)
  {
    hide U16, ByteWriter.Room, ByteWriter.View, ByteWriter.Valid;
    var writer := new ByteWriter();
    var ok := writer.WriteU16(a.tokenType);
    ok := writer.WriteBytes(a.nonce);
    ok := writer.WriteBytes(a.challengeDigest);
    ok := writer.WriteBytes(a.tokenKeyId);
    Nested(U16(a.tokenType), a.nonce, a.challengeDigest, a.tokenKeyId, []);
    r := writer.View();
  }

  lemma Nested(a: Bytes, b: Bytes, c: Bytes, d: Bytes, e: Bytes)
    ensures [] + a + b + c + d == a + (b + (c + d))
    ensures [] + a + b + c + d + e == a + (b + (c + (d + e)))
  {
    assert [] + a + b + c + d == a + (b + (c + d));
  }

  method SerializeToken(t: Token) returns (r: Bytes)
    ensures r == PrintToken(t)
  {
    hide U16, ByteWriter.Room, ByteWriter.View, ByteWriter.Valid;
    var writer := new ByteWriter();
    var ok := writer.WriteU16(t.tokenType);
    ok := writer.WriteBytes(t.nonce);
    ok := writer.WriteBytes(t.challengeDigest);
    ok := writer.WriteBytes(t.tokenKeyId);
    ok := writer.WriteBytes(t.authenticator);
    Nested(U16(t.tokenType), t.nonce, t.challengeDigest, t.tokenKeyId, t.authenticator);
    r := writer.View();
  }

  method DeserializeInput(data: Bytes) returns (r: Result<AuthenticatorInput>)
    ensures r == ParseInput(data)
  {
    var reader := new ByteReader(data);
    var tokenType := reader.ReadU16();
    if tokenType == None {
      return Err(UNEXPECTED_END);
    }
    var nonce := reader.ReadBytes(32);
    if nonce == None {
      return Err(UNEXPECTED_END);
    }
    var digest := reader.ReadBytes(32);
    if digest == None {
      return Err(UNEXPECTED_END);
    }
    var keyId := reader.ReadBytes(32);
    if keyId == None {
      return Err(UNEXPECTED_END);
    }
    r := Ok(AuthenticatorInput(tokenType.value, nonce.value, digest.value, keyId.value));
  }

  method DeserializeToken(data: Bytes) returns (r: Result<Token>)
    ensures r == ParseToken(data)
  {
    var reader := new ByteReader(data);
    var tokenType := reader.ReadU16();
    if tokenType == None {
      return Err(UNEXPECTED_END);
    }
    if !IsKnownType(tokenType.value) {
      return Err(UNSUPPORTED_TOKEN_TYPE);
    }
    var nonce := reader.ReadBytes(32);
    if nonce == None {
      return Err(UNEXPECTED_END);
    }
    var digest := reader.ReadBytes(32);
    if digest == None {
      return Err(UNEXPECTED_END);
    }
    var keyId := reader.ReadBytes(32);
    if keyId == None {
      return Err(UNEXPECTED_END);
    }
    var size := AuthenticatorSize(tokenType.value);
    if size == 0 {
      return Err(UNSUPPORTED_TOKEN_TYPE);
    }
    ghost var tail := reader.Rest();
    var authenticator := reader.ReadBytes(size);
    if authenticator == None {
      return Err(UNEXPECTED_END);
    }
    var empty := reader.Empty();
    if !empty {
      return Err(MALFORMED_DATA);
    }
    assert tail == authenticator.value;
    r := Ok(Token(tokenType.value, nonce.value, digest.value, keyId.value, authenticator.value));
  }
}
