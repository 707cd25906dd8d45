// The two clients, and whole runs from challenge to redemption: src/core/client.cpp.
module Clients {
  import opened Types
  import opened Tokens
  import opened TokenChallenges
  import opened TokenRequests
  import opened TokenResponses
  import opened Issuers
  import Rsa = BlindRsa
  import Voprf
  import Origins = PublicOrigins
  import opened AuthScheme

  // what the library functions contribute: the padding scheme, the Montgomery radix and the digest
  datatype Library = Library(pss: Rsa.Pss, bits: nat, sha256: Bytes -> Bytes32)

  // blinding is the inverse of the blind for RSA, and a scalar, an element and an input for VOPRF
  datatype Blinding = RsaBlinding(inverse: Bytes) | VoprfBlinding(data: Voprf.FinalizationData)

  datatype FinalizationData = FinalizationData(
    tokenType: TokenType, nonce: Bytes32, challengeDigest: Bytes32, tokenKeyId: Bytes32, blinding: Blinding)
  {
    function Input(): AuthenticatorInput { AuthenticatorInput(tokenType, nonce, challengeDigest, tokenKeyId) }

    function WithAuthenticator(authenticator: Bytes): Token {
      Token(tokenType, nonce, challengeDigest, tokenKeyId, authenticator)
    }
  }

  // ---- publicly verifiable tokens

  function CreateRequest(challenge: TokenChallenge, key: Rsa.PublicKey, keyId: Bytes32, nonce: Bytes32, salt: Bytes,
                         draws: seq<nat>, lib: Library): Result<(TokenRequest, FinalizationData)>
  {
    var digest :- Digest(challenge, lib.sha256);
    var input := AuthenticatorInput(challenge.tokenType, nonce, digest, keyId);
    var blinded :- Rsa.Blind(key, PrintInput(input), salt, draws, lib.pss, lib.bits);
    Ok((TokenRequest(challenge.tokenType, LastByte(keyId), blinded.blindedMsg),
        FinalizationData(challenge.tokenType, nonce, digest, keyId, RsaBlinding(blinded.inverse))))
  }

  function FinalizeToken(response: TokenResponse, f: FinalizationData, key: Rsa.PublicKey,
                         lib: Library): Result<Token> {
    if !response.response.BlindRsa? || !f.blinding.RsaBlinding? then Err(TOKEN_MALFORMED)
    else
      var (signature, _) :=
        Rsa.Finalize(key, response.response.blindSig, f.blinding.inverse, PrintInput(f.Input()), lib.pss, lib.bits);
      var authenticator :- signature;
      Ok(f.WithAuthenticator(authenticator))
  }

  method CreateTokenRequest(challenge: TokenChallenge, key: Rsa.PublicKey, keyId: Bytes32, nonce: Bytes32, salt: Bytes,
                            draws: seq<nat>, lib: Library) returns (r: Result<(TokenRequest, FinalizationData)>)
    ensures r == CreateRequest(challenge, key, keyId, nonce, salt, draws, lib)
  {
    hide PrintInput, Rsa.Blind;
    var digested := new DigestedChallenge(challenge, lib.sha256);
    var digest := digested.GetDigest();
    if digest.Err? {
      return Err(digest.error);
    }
    var input := AuthenticatorInput(challenge.tokenType, nonce, digest.value, keyId);
    var inputBytes := SerializeInput(input);
    var blinded := Rsa.BlindMessage(key, inputBytes, salt, draws, lib.pss, lib.bits);
    if blinded.Err? {
      return Err(blinded.error);
    }
    var request := TokenRequest(challenge.tokenType, LastByte(keyId), blinded.value.blindedMsg);
    var blinding := RsaBlinding(blinded.value.inverse);
    r := Ok((request, FinalizationData(challenge.tokenType, nonce, digest.value, keyId, blinding)));
  }

  method FinalizeTokenRequest(response: TokenResponse, f: FinalizationData, key: Rsa.PublicKey, lib: Library)
    returns (r: Result<Token>)
    ensures r == FinalizeToken(response, f, key, lib)
  {
    hide PrintInput, Rsa.Finalize;
    if !response.response.BlindRsa? {
      return Err(TOKEN_MALFORMED);
    }
    if !f.blinding.RsaBlinding? {
      return Err(TOKEN_MALFORMED);
    }
    var inputBytes := SerializeInput(f.Input());
    var authenticator, _ :=
      Rsa.FinalizeSignature(key, response.response.blindSig, f.blinding.inverse, inputBytes, lib.pss, lib.bits);
    if authenticator.Err? {
      return Err(authenticator.error);
    }
    r := Ok(f.WithAuthenticator(authenticator.value));
  }

  // an RSA key pair as the issuer and the origin use it
  datatype RsaKey = RsaKey(key: Rsa.PrivateKey, keyId: Bytes32) {
    function Issuer(lib: Library): PublicIssuer { PublicIssuer(keyId, (m: Bytes) => Rsa.BlindSign(key, m, lib.bits)) }

    function AtOrigin(lib: Library): Origins.IssuerKey {
      Origins.IssuerKey(keyId, (msg: Bytes, signature: Bytes) => Ok(Rsa.Verify(key.Public(), msg, signature, lib.pss)))
    }
  }

  // Whatever the response, a token the client accepts is one that an origin with the key accepts.
  lemma FinalizedVerifies(response: TokenResponse, f: FinalizationData, k: RsaKey, lib: Library)
    requires IsRsa(f.tokenType) && k.key.size == 256 && FinalizeToken(response, f, k.key.Public(), lib).Ok?
    ensures
      var token := FinalizeToken(response, f, k.key.Public(), lib).value;
      && token.Input() == f.Input()
      && Origins.Verified(token, Ok(f.challengeDigest), Some(k.AtOrigin(lib))) == Ok(true)
  {
    hide PrintInput;
  }

  // An honest run: no step fails, and the token verifies at an origin with the key, whatever the blind was.
  lemma HonestToken(challenge: TokenChallenge, k: RsaKey, nonce: Bytes32, salt: Bytes, draws: seq<nat>, lib: Library)
    requires k.key.Valid() && k.key.size == 256 && IsRsa(challenge.tokenType) && Digest(challenge, lib.sha256).Ok?
    requires Rsa.FirstUnit(draws, k.key.n).Some?
    requires
      var input := AuthenticatorInput(challenge.tokenType, nonce, Digest(challenge, lib.sha256).value, k.keyId);
      lib.pss.IsEncoding(PrintInput(input), salt, k.key.size)
    ensures
      var input := AuthenticatorInput(challenge.tokenType, nonce, Digest(challenge, lib.sha256).value, k.keyId);
      var created := CreateRequest(challenge, k.key.Public(), k.keyId, nonce, salt, draws, lib);
      && created.Ok?
      && var (request, f) := created.value;
      var response := IssuePublic(k.Issuer(lib), request);
      && response.Ok?
      && var token := Token(input.tokenType, nonce, input.challengeDigest, k.keyId,
                            Rsa.PlainSignature(k.key, lib.pss.encode(PrintInput(input), salt)));
      && FinalizeToken(response.value, f, k.key.Public(), lib) == Ok(token)
      && Origins.Verified(token, Digest(challenge, lib.sha256), Some(k.AtOrigin(lib))) == Ok(true)
  {
    hide PrintInput, Rsa.Blind, Rsa.BlindSign, Rsa.Finalize, Rsa.PlainSignature, Rsa.Verify;
    var digest := Digest(challenge, lib.sha256).value;
    var input := AuthenticatorInput(challenge.tokenType, nonce, digest, k.keyId);
    Rsa.HonestSignature(k.key, PrintInput(input), salt, draws, lib.pss, lib.bits);
    Rsa.PlainSignatureVerifies(k.key, PrintInput(input), salt, lib.pss);
  }

  // The run survives the wire: its request, its response and its token are read back as they were written.
  lemma HonestWire(challenge: TokenChallenge, k: RsaKey, nonce: Bytes32, salt: Bytes, draws: seq<nat>, lib: Library)
    requires k.key.Valid() && k.key.size == 256 && IsRsa(challenge.tokenType) && Digest(challenge, lib.sha256).Ok?
    requires Rsa.FirstUnit(draws, k.key.n).Some?
    requires
      var input := AuthenticatorInput(challenge.tokenType, nonce, Digest(challenge, lib.sha256).value, k.keyId);
      lib.pss.IsEncoding(PrintInput(input), salt, k.key.size)
    ensures
      var created := CreateRequest(challenge, k.key.Public(), k.keyId, nonce, salt, draws, lib);
      && created.Ok?
      && var (request, f) := created.value;
      var response := IssuePublic(k.Issuer(lib), request);
      && response.Ok?
      && var token := FinalizeToken(response.value, f, k.key.Public(), lib);
      && token.Ok?
      && ParseRequest(PrintRequest(request)) == Ok(request)
      && ParseResponse(BLIND_RSA, PrintResponse(response.value)) == Ok(response.value)
      && ParseAuthorization(BuildAuthorization(token.value)) == Ok(token.value)
  {
    HonestToken(challenge, k, nonce, salt, draws, lib);
    var (request, f) := CreateRequest(challenge, k.key.Public(), k.keyId, nonce, salt, draws, lib).value;
    var response := IssuePublic(k.Issuer(lib), request).value;
    var token := FinalizeToken(response, f, k.key.Public(), lib).value;
    RequestParses(PrintRequest(request), request);
    ResponseParses(BLIND_RSA, PrintResponse(response), response);
    PresentedToken(token);
  }

  // Of many live keys with the last byte of the client's key, the first listed that signs the request answers; the
  // run ends with the client's token exactly when what that key answers is the signature of the client's own key.
  lemma IntendedToken(rsa: Flat<PublicIssuer>, voprf: Flat<PrivateIssuer>, challenge: TokenChallenge, k: RsaKey,
                      nonce: Bytes32, salt: Bytes, draws: seq<nat>, lib: Library) returns (i: nat)
    requires k.key.Valid() && IsRsa(challenge.tokenType) && Digest(challenge, lib.sha256).Ok?
    requires Rsa.FirstUnit(draws, k.key.n).Some?
    requires
      var input := AuthenticatorInput(challenge.tokenType, nonce, Digest(challenge, lib.sha256).value, k.keyId);
      lib.pss.IsEncoding(PrintInput(input), salt, k.key.size)
    requires k.keyId in rsa.order && k.keyId in rsa.keys && rsa.keys[k.keyId] == k.Issuer(lib)
    ensures
      var input := AuthenticatorInput(challenge.tokenType, nonce, Digest(challenge, lib.sha256).value, k.keyId);
      var created := CreateRequest(challenge, k.key.Public(), k.keyId, nonce, salt, draws, lib);
      && created.Ok?
      && var (request, f) := created.value;
      && FirstSigner(rsa, request, i)
      && var answer := IssueFlat(rsa, voprf, request);
      && answer.Ok?
      && var token := f.WithAuthenticator(Rsa.PlainSignature(k.key, lib.pss.encode(PrintInput(input), salt)));
      FinalizeToken(answer.value, f, k.key.Public(), lib) == Ok(token)
      <==> rsa.keys[rsa.order[i]].blindSign(request.blindedMsg) == Rsa.BlindSign(k.key, request.blindedMsg, lib.bits)
  {
    hide PrintInput, Rsa.Blind, Rsa.BlindSign, Rsa.Finalize, Rsa.PlainSignature;
    var input := AuthenticatorInput(challenge.tokenType, nonce, Digest(challenge, lib.sha256).value, k.keyId);
    Rsa.HonestSignature(k.key, PrintInput(input), salt, draws, lib.pss, lib.bits);
    var (request, f) := CreateRequest(challenge, k.key.Public(), k.keyId, nonce, salt, draws, lib).value;
    i := AnswerIndex(rsa.order, rsa.keys, (issuer: PublicIssuer) => IssuePublic(issuer, request));
    IssuedByFirst(rsa, voprf, request, i);
    var answer := rsa.keys[rsa.order[i]].blindSign(request.blindedMsg).value;
    Rsa.OnlyOwnSignature(k.key, PrintInput(input), salt, draws, answer, lib.pss, lib.bits);
  }

  // ---- privately verifiable tokens

  function CreatePrivateRequest<P(!new)>(s: Voprf.Suite<P>, challenge: TokenChallenge, keyId: Bytes32, nonce: Bytes32,
                                         r: nat, sha256: Bytes -> Bytes32): Result<(TokenRequest, FinalizationData)>
    requires s.Shaped()
  {
    var digest :- Digest(challenge, sha256);
    var input := AuthenticatorInput(challenge.tokenType, nonce, digest, keyId);
    var blinded :- Voprf.ClientBlind(s, PrintInput(input), r);
    Ok((TokenRequest(challenge.tokenType, LastByte(keyId), blinded.blindedElement),
        FinalizationData(challenge.tokenType, nonce, digest, keyId, VoprfBlinding(blinded))))
  }

  function FinalizePrivateToken<P(!new)>(s: Voprf.Suite<P>, response: TokenResponse, f: FinalizationData,
                                         key: P): Result<Token>
    requires s.Shaped()
  {
    if !response.response.Voprf? || !f.blinding.VoprfBlinding? then Err(TOKEN_MALFORMED)
    else
      var evaluation := Voprf.Evaluation(response.response.evaluateMsg, response.response.evaluateProof);
      var authenticator :- Voprf.ClientFinalize(s, key, f.blinding.data, evaluation);
      Ok(f.WithAuthenticator(authenticator))
  }

  function PrivateIssuerOf<P(!new)>(s: Voprf.Suite<P>, k: nat, keyId: Bytes32, draws: seq<nat>): PrivateIssuer
    requires s.Shaped()
  {
    PrivateIssuer(keyId, (m: Bytes) =>
      match Voprf.BlindEvaluate(s, k, m, draws)
      case Err(error) => Err(error)
      case Ok(evaluation) => Ok((evaluation.evaluatedElement, evaluation.proof)))
  }

  // the issuer's own check of a token
  function VerifyPrivate<P(!new)>(s: Voprf.Suite<P>, k: nat, token: Token): Result<bool>
    requires s.Shaped()
  {
    if token.tokenType != VOPRF_P384_SHA384 then Err(UNSUPPORTED_TOKEN_TYPE)
    else Voprf.VerifyFinalize(s, k, PrintInput(token.Input()), token.authenticator)
  }

  // An honest private run succeeds exactly when the input does not hash to the identity, and its token then passes
  // the issuer's check, whatever the blind and the proof's nonce were.
  lemma HonestPrivateToken<P(!new)>(s: Voprf.Suite<P>, challenge: TokenChallenge, k: nat, keyId: Bytes32,
                                    nonce: Bytes32, r: nat, draws: seq<nat>, sha256: Bytes -> Bytes32)
    requires s.Shaped() && s.Valid() && 0 < k < s.g.order && 0 < r < s.g.order && Voprf.FirstNonZero(draws).Some?
    requires challenge.tokenType == VOPRF_P384_SHA384 && Digest(challenge, sha256).Ok?
    ensures
      var input := AuthenticatorInput(challenge.tokenType, nonce, Digest(challenge, sha256).value, keyId);
      var created := CreatePrivateRequest(s, challenge, keyId, nonce, r, sha256);
      && created.Ok? && Voprf.HashToCurve(s, PrintInput(input)).Ok?
      && var (request, f) := created.value;
      var response := IssuePrivate(PrivateIssuerOf(s, k, keyId, draws), request);
      if Voprf.HashToCurve(s, PrintInput(input)).value == s.g.zero then response == Err(CRYPTO_ERROR)
      else
        && response.Ok?
        && var token := FinalizePrivateToken(s, response.value, f, s.g.Mul(k, s.g.base));
        && token.Ok? && token.value.Input() == input && token.value.Validated() == Ok(())
        && VerifyPrivate(s, k, token.value) == Ok(true)
  {
    hide PrintInput, Voprf.ClientBlind, Voprf.BlindEvaluate, Voprf.ClientFinalize, Voprf.HashToCurve;
    hide Voprf.VerifyFinalize;
    var input := AuthenticatorInput(challenge.tokenType, nonce, Digest(challenge, sha256).value, keyId);
    InputLength(input);
    Voprf.HonestRun(s, k, PrintInput(input), r, draws);
  }

  lemma InputLength(a: AuthenticatorInput)
    ensures |PrintInput(a)| == 98
  {
  }

  // ---- redemption, in any interleaving

  // A verified token is accepted unless its nonce was reserved within the window and is still held; once it is
  // accepted, every redemption of the same nonce within the window is a replay while it is held.
  lemma VerifiedRedemption(events: seq<Origins.Event>, n: nat, token: Token, challenge: TokenChallenge, tick: nat,
                           k: RsaKey, added: nat, lib: Library, window: nat, max: nat)
    requires Origins.EventClock(events) && n < |events| && events[n] == Origins.Redeem(token, challenge, tick)
    requires Origins.Verified(token, Digest(challenge, lib.sha256), Some(k.AtOrigin(lib))) == Ok(true)
    requires token.tokenKeyId == k.keyId && Origins.Latest(Origins.KeyOps(events[..n]), added, k.keyId)
    requires Origins.KeyOps(events[..n])[added] == Origins.KeyOp.Add(k.AtOrigin(lib))
    ensures Origins.Redeemed(events, n, lib.sha256, window, max)
         == if Origins.Refused(events, n, window, max) then Err(TOKEN_REPLAYED) else Ok(true)
    ensures Origins.Redeemed(events, n, lib.sha256, window, max) == Ok(true) ==>
              forall m: nat | n < m < |events| && ReplayOf(events, n, m, window, max) ::
                Origins.Redeemed(events, m, lib.sha256, window, max) == Err(TOKEN_REPLAYED)
  {
    hide Origins.Reserves, Origins.Verified, Origins.KeyOps, Origins.IndexAfter, Origins.EventClock;
    hide Origins.KeyOf, Origins.StillHeld;
    Origins.ReplayedIffHeld(events, n, window, max);
    Origins.LatestKey(Origins.KeyOps(events[..n]), k.keyId);
    if Origins.Redeemed(events, n, lib.sha256, window, max) == Ok(true) {
      forall m: nat | n < m < |events| && ReplayOf(events, n, m, window, max)
        ensures Origins.Redeemed(events, m, lib.sha256, window, max) == Err(TOKEN_REPLAYED)
      {
        assert Origins.BlockedBy(events, m, n, window, max);
        Origins.ReplayedIffHeld(events, m, window, max);
      }
    }
  }

  // event m redeems the nonce of event n again, within the window and before it is evicted
  ghost predicate ReplayOf(events: seq<Origins.Event>, n: nat, m: nat, window: nat, max: nat)
    requires n < m < |events| && events[n].Redeem?
  {
    && events[m].Redeem? && events[m].token.nonce == events[n].token.nonce
    && events[m].tick < events[n].tick + window && Origins.StillHeld(events, n, m, window, max)
  }

  // From the challenge to the second redemption: an honest run for the challenge ends with a token that the origin
  // accepts, unless its nonce was reserved before and is still held, and that is a replay ever after within the window.
  lemma HonestRedemption(events: seq<Origins.Event>, n: nat, challenge: TokenChallenge, tick: nat, k: RsaKey,
                         added: nat, nonce: Bytes32, salt: Bytes, draws: seq<nat>, lib: Library, window: nat, max: nat)
    requires k.key.Valid() && k.key.size == 256 && IsRsa(challenge.tokenType) && Digest(challenge, lib.sha256).Ok?
    requires Rsa.FirstUnit(draws, k.key.n).Some?
    requires
      var input := AuthenticatorInput(challenge.tokenType, nonce, Digest(challenge, lib.sha256).value, k.keyId);
      lib.pss.IsEncoding(PrintInput(input), salt, k.key.size)
    requires Origins.EventClock(events) && n < |events|
    requires Origins.Latest(Origins.KeyOps(events[..n]), added, k.keyId)
    requires Origins.KeyOps(events[..n])[added] == Origins.KeyOp.Add(k.AtOrigin(lib))
    ensures
      var created := CreateRequest(challenge, k.key.Public(), k.keyId, nonce, salt, draws, lib);
      && created.Ok?
      && var (request, f) := created.value;
      var response := IssuePublic(k.Issuer(lib), request);
      && response.Ok?
      && var token := FinalizeToken(response.value, f, k.key.Public(), lib);
      && token.Ok?
      && (events[n] == Origins.Redeem(token.value, challenge, tick) ==>
            && Origins.Redeemed(events, n, lib.sha256, window, max)
               == (if Origins.Refused(events, n, window, max) then Err(TOKEN_REPLAYED) else Ok(true))
            && (Origins.Redeemed(events, n, lib.sha256, window, max) == Ok(true) ==>
                  forall m: nat | n < m < |events| && ReplayOf(events, n, m, window, max) ::
                    Origins.Redeemed(events, m, lib.sha256, window, max) == Err(TOKEN_REPLAYED)))
  {
    hide PrintInput, CreateRequest, FinalizeToken, IssuePublic, Rsa.PlainSignature, Origins.Redeemed, Origins.Verified;
    hide Origins.KeyOps, Origins.Latest, Origins.EventClock, Origins.Refused, ReplayOf;
    HonestToken(challenge, k, nonce, salt, draws, lib);
    var (request, f) := CreateRequest(challenge, k.key.Public(), k.keyId, nonce, salt, draws, lib).value;
    var token := FinalizeToken(IssuePublic(k.Issuer(lib), request).value, f, k.key.Public(), lib).value;
    if events[n] == Origins.Redeem(token, challenge, tick) {
      VerifiedRedemption(events, n, token, challenge, tick, k, added, lib, window, max);
    }
  }
}
