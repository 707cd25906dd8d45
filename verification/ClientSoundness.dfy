// What requests hide and what tokens prove: src/core/client.cpp with the issuers' and origins' checks.
module ClientSoundness {
  import opened Types
  import opened Congruence
  import opened Octets
  import opened Tokens
  import opened TokenChallenges
  import opened TokenRequests
  import opened TokenResponses
  import opened Issuers
  import opened Clients
  import opened AuthScheme
  import Rsa = BlindRsa
  import RsaSound = BlindRsaSoundness
  import Transcripts
  import Voprf
  import VoprfSound = VoprfSoundness
  import Origins = PublicOrigins

  // ---- publicly verifiable tokens

  // An origin with the key accepts a token exactly when its authenticator is the plain signature of an encoding that
  // verifies for the token's other fields.
  lemma AcceptedIff(token: Token, digest: Result<Bytes32>, k: RsaKey, lib: Library)
    requires k.key.Valid()
    ensures Origins.Verified(token, digest, Some(k.AtOrigin(lib))) == Ok(true)
       <==> && token.Validated() == Ok(()) && IsRsa(token.tokenType) && digest == Ok(token.challengeDigest)
            && exists em :: RsaSound.Signs(k.key, PrintInput(token.Input()), token.authenticator, lib.pss, em)
  {
    hide PrintInput, Rsa.Verify, RsaSound.Signs, Rsa.PrivateKey.Valid;
    Origins.VerifiedIff(token, digest, Some(k.AtOrigin(lib)));
    RsaSound.VerifyIff(k.key, PrintInput(token.Input()), token.authenticator, lib.pss);
  }

  // The client ends with a token exactly when it has the fields it asked for and an authenticator that the answer
  // unblinds to and that verifies.
  lemma FinalizedIff(response: TokenResponse, f: FinalizationData, k: RsaKey, lib: Library, token: Token)
    requires k.key.Valid()
    ensures FinalizeToken(response, f, k.key.Public(), lib) == Ok(token)
       <==> && response.response.BlindRsa? && f.blinding.RsaBlinding? && token.Input() == f.Input()
            && exists em :: RsaSound.Unblinds(k.key, response.response.blindSig, f.blinding.inverse,
                                              PrintInput(token.Input()), token.authenticator, lib.pss, em)
  {
    hide PrintInput, Rsa.Finalize, RsaSound.Unblinds, Rsa.PrivateKey.Valid;
    if response.response.BlindRsa? && f.blinding.RsaBlinding? {
      RsaSound.FinalizeIff(k.key, response.response.blindSig, f.blinding.inverse, PrintInput(f.Input()),
                           token.authenticator, lib.pss, lib.bits);
      assert token.Input() == f.Input() ==> token == f.WithAuthenticator(token.authenticator);
    }
  }

  // the client's request for this input with the single draw r carries the number b
  ghost predicate Requests(challenge: TokenChallenge, k: RsaKey, nonce: Bytes32, salt: Bytes, r: nat, lib: Library,
                           b: nat) {
    var created := CreateRequest(challenge, k.key.Public(), k.keyId, nonce, salt, [r], lib);
    created.Ok? && FromBigEndian(created.value.0.blindedMsg) == b
  }

  // Unlinkability: each unit is what the request carries for exactly one draw, whatever challenge and nonce it is for.
  lemma RequestHides(challenge: TokenChallenge, k: RsaKey, nonce: Bytes32, salt: Bytes, lib: Library, mi: nat, b: nat,
                     bi: nat) returns (r: nat)
    requires k.key.Valid() && Digest(challenge, lib.sha256).Ok? && b < k.key.n && Cong(b * bi, 1, k.key.n)
    requires
      var input := AuthenticatorInput(challenge.tokenType, nonce, Digest(challenge, lib.sha256).value, k.keyId);
      Cong(FromBigEndian(lib.pss.encode(PrintInput(input), salt)) * mi, 1, k.key.n)
    ensures r < k.key.n
    ensures forall r': nat | r' < k.key.n :: Requests(challenge, k, nonce, salt, r', lib, b) <==> r' == r
  {
    hide PrintInput, Rsa.Blind, Digest, Rsa.PrivateKey.Valid, Cong;
    var input := AuthenticatorInput(challenge.tokenType, nonce, Digest(challenge, lib.sha256).value, k.keyId);
    r := RsaSound.MessageHidden(k.key, PrintInput(input), salt, lib.pss, lib.bits, mi, b, bi);
    forall r': nat | r' < k.key.n ensures Requests(challenge, k, nonce, salt, r', lib, b) <==> r' == r {
      assert RsaSound.BlindsTo(k.key.Public(), PrintInput(input), salt, r', lib.pss, lib.bits, b) <==> r' == r;
    }
  }

  // ---- privately verifiable tokens

  lemma PrivateInput<P(!new)>(s: Voprf.Suite<P>, input: AuthenticatorInput)
    requires s.Shaped() && s.Valid()
    ensures |PrintInput(input)| == 98 && Voprf.HashToCurve(s, PrintInput(input)).Ok?
  {
    hide Voprf.HashToCurve, PrintInput;
    InputLength(input);
    Voprf.HashToCurveTotal(s, PrintInput(input));
  }

  // The issuer accepts a private token exactly when its authenticator is the hash of the transcript of its other
  // fields and k times their point, and refuses every other one.
  lemma PrivateVerdict<P(!new)>(s: Voprf.Suite<P>, k: nat, token: Token, h: P)
    requires s.Shaped() && s.g.Valid() && token.tokenType == VOPRF_P384_SHA384
    requires Voprf.HashToCurve(s, PrintInput(token.Input())) == Ok(h)
    ensures var input, element := PrintInput(token.Input()), s.g.encode(s.g.Mul(k, h));
            && VerifyPrivate(s, k, token)
               == Ok(token.authenticator == s.hash(Voprf.FinalizeTranscript(input, element)))
            && Transcripts.ReadFields(Voprf.FinalizeTranscript(input, element), 2)
               == Some(([input, element], ToBytes("Finalize")))
  {
    hide PrintInput, Voprf.HashToCurve, Voprf.FinalizeTranscript, Transcripts.ReadFields, ToBytes;
    InputLength(token.Input());
    assert s.g.Encodable(s.g.Mul(k, h));
    VoprfSound.FinalizeReads(PrintInput(token.Input()), s.g.encode(s.g.Mul(k, h)));
  }

  // A private token ends with the fields asked for and the output that the proof allows.
  lemma PrivatelyFinalizedIff<P(!new)>(s: Voprf.Suite<P>, response: TokenResponse, f: FinalizationData, key: P,
                                       token: Token)
    requires s.Shaped() && s.g.Valid()
    ensures FinalizePrivateToken(s, response, f, key) == Ok(token)
       <==> && response.response.Voprf? && f.blinding.VoprfBlinding? && token.Input() == f.Input()
            && var e := Voprf.Evaluation(response.response.evaluateMsg, response.response.evaluateProof);
            exists r: P, z: P, n: P ::
              VoprfSound.Finalizes(s, key, f.blinding.data, e, r, z, n, token.authenticator)
  {
    hide Voprf.ClientFinalize, VoprfSound.Finalizes;
    if response.response.Voprf? && f.blinding.VoprfBlinding? {
      var e := Voprf.Evaluation(response.response.evaluateMsg, response.response.evaluateProof);
      VoprfSound.FinalizeIff(s, key, f.blinding.data, e, token.authenticator);
      assert token.Input() == f.Input() ==> token == f.WithAuthenticator(token.authenticator);
    }
  }

  // A token that a client accepts under the public key k G, whoever answered, passes the issuer's check under k, or a
  // wrong element was passed by luck.
  lemma AcceptedPrivately<P(!new)>(s: Voprf.Suite<P>, challenge: TokenChallenge, k: nat, keyId: Bytes32, nonce: Bytes32,
                                   r: nat, response: TokenResponse, sha256: Bytes -> Bytes32)
    requires s.Shaped() && s.Valid() && 0 < k < s.g.order && 0 < r < s.g.order
    requires challenge.tokenType == VOPRF_P384_SHA384
    requires CreatePrivateRequest(s, challenge, keyId, nonce, r, sha256).Ok?
    ensures
      var (request, f) := CreatePrivateRequest(s, challenge, keyId, nonce, r, sha256).value;
      var token := FinalizePrivateToken(s, response, f, s.g.Mul(k, s.g.base));
      token.Ok? ==>
        && response.response.Voprf?
        && var e := Voprf.Evaluation(response.response.evaluateMsg, response.response.evaluateProof);
        VerifyPrivate(s, k, token.value) == Ok(true) || VoprfSound.LuckyEvaluation(s, k, request.blindedMsg, e)
  {
    hide PrintInput, Voprf.HashToCurve, Voprf.ClientBlind, Voprf.ClientFinalize, VoprfSound.LuckyEvaluation, Digest;
    hide Voprf.FinalizeOutput;
    var f := CreatePrivateRequest(s, challenge, keyId, nonce, r, sha256).value.1;
    var token := FinalizePrivateToken(s, response, f, s.g.Mul(k, s.g.base));
    if token.Ok? {
      var evaluation := Voprf.Evaluation(response.response.evaluateMsg, response.response.evaluateProof);
      VoprfSound.FinalizedIsEvaluation(s, k, PrintInput(f.Input()), r, evaluation, token.value.authenticator);
      EvaluationPasses(s, k, token.value);
    }
  }

  lemma EvaluationPasses<P(!new)>(s: Voprf.Suite<P>, k: nat, token: Token)
    requires s.Shaped() && token.tokenType == VOPRF_P384_SHA384
    ensures Voprf.Evaluate(s, k, PrintInput(token.Input())) == Ok(token.authenticator) ==>
              VerifyPrivate(s, k, token) == Ok(true)
  {
    hide PrintInput, Voprf.HashToCurve, Voprf.FinalizeOutput;
  }

  // the client's private request for this input with the blind r carries this point
  ghost predicate PrivatelyRequests<P(!new)>(s: Voprf.Suite<P>, challenge: TokenChallenge, keyId: Bytes32,
                                             nonce: Bytes32, r: nat, sha256: Bytes -> Bytes32, target: P)
    requires s.Shaped()
  {
    var created := CreatePrivateRequest(s, challenge, keyId, nonce, r, sha256);
    created.Ok? && created.value.0.blindedMsg == s.g.encode(target)
  }

  // Unlinkability: each point but the identity is what the request carries for exactly one blind.
  lemma PrivateRequestHides<P(!new)>(s: Voprf.Suite<P>, challenge: TokenChallenge, keyId: Bytes32, nonce: Bytes32,
                                     sha256: Bytes -> Bytes32, target: P) returns (r: nat)
    requires s.Shaped() && s.Valid() && s.g.Cyclic() && target != s.g.zero && Digest(challenge, sha256).Ok?
    requires
      var input := AuthenticatorInput(challenge.tokenType, nonce, Digest(challenge, sha256).value, keyId);
      Voprf.HashToCurve(s, PrintInput(input)) != Ok(s.g.zero)
    ensures 0 < r < s.g.order
    ensures forall r': nat | 0 < r' < s.g.order ::
              PrivatelyRequests(s, challenge, keyId, nonce, r', sha256, target) <==> r' == r
  {
    hide PrintInput, Voprf.HashToCurve, Voprf.ClientBlind, Digest;
    var input := AuthenticatorInput(challenge.tokenType, nonce, Digest(challenge, sha256).value, keyId);
    PrivateInput(s, input);
    r := VoprfSound.UniformBlind(s, PrintInput(input), target);
  }

  lemma EvaluationSizes<P(!new)>(s: Voprf.Suite<P>, k: nat, blinded: Bytes, draws: seq<nat>)
    requires s.Shaped() && s.g.Valid() && 0 < k < s.g.order && Voprf.BlindEvaluate(s, k, blinded, draws).Ok?
    ensures var e := Voprf.BlindEvaluate(s, k, blinded, draws).value;
            && |blinded| == s.g.elementSize && |e.evaluatedElement| == s.g.elementSize
            && |e.proof| == 2 * s.g.scalarSize
  {
    hide Voprf.BlindEvaluate, Voprf.Composites, Voprf.DleqChallenge;
    VoprfSound.EvaluationVerifies(s, k, blinded, draws);
    var e := Voprf.BlindEvaluate(s, k, blinded, draws).value;
    assert s.g.Decodable(blinded) && s.g.Decodable(e.evaluatedElement);
  }

  lemma RequestType<P(!new)>(s: Voprf.Suite<P>, challenge: TokenChallenge, keyId: Bytes32, nonce: Bytes32, r: nat,
                             sha256: Bytes -> Bytes32)
    requires s.Shaped() && CreatePrivateRequest(s, challenge, keyId, nonce, r, sha256).Ok?
    ensures CreatePrivateRequest(s, challenge, keyId, nonce, r, sha256).value.0.tokenType == challenge.tokenType
  {
    hide Voprf.ClientBlind, Digest, PrintInput;
  }

  // The private run survives the wire, for elements of 49 octets and scalars of 48.
  lemma HonestPrivateWire<P(!new)>(s: Voprf.Suite<P>, challenge: TokenChallenge, k: nat, keyId: Bytes32,
                                   nonce: Bytes32, r: nat, draws: seq<nat>, sha256: Bytes -> Bytes32)
    requires s.Shaped() && s.Valid() && 0 < k < s.g.order && 0 < r < s.g.order && Voprf.FirstNonZero(draws).Some?
    requires s.g.elementSize == 49 && s.g.scalarSize == 48
    requires challenge.tokenType == VOPRF_P384_SHA384 && Digest(challenge, sha256).Ok?
    requires
      var input := AuthenticatorInput(challenge.tokenType, nonce, Digest(challenge, sha256).value, keyId);
      Voprf.HashToCurve(s, PrintInput(input)) != Ok(s.g.zero)
    ensures
      var created := CreatePrivateRequest(s, challenge, keyId, nonce, r, sha256);
      && created.Ok?
      && var (request, f) := created.value;
      var response := IssuePrivate(PrivateIssuerOf(s, k, keyId, draws), request);
      && response.Ok?
      && var token := FinalizePrivateToken(s, response.value, f, s.g.Mul(k, s.g.base));
      && token.Ok?
      && ParseRequest(PrintRequest(request)) == Ok(request)
      && ParseResponse(VOPRF_P384_SHA384, PrintResponse(response.value)) == Ok(response.value)
      && ParseAuthorization(BuildAuthorization(token.value)) == Ok(token.value)
  {
    hide PrintInput, PrintRequest, PrintResponse, BuildAuthorization, ParseRequest, ParseResponse, ParseAuthorization;
    hide CreatePrivateRequest, FinalizePrivateToken, VerifyPrivate, Digest, Voprf.HashToCurve, Voprf.BlindEvaluate;
    HonestPrivateToken(s, challenge, k, keyId, nonce, r, draws, sha256);
    var (request, f) := CreatePrivateRequest(s, challenge, keyId, nonce, r, sha256).value;
    var response := IssuePrivate(PrivateIssuerOf(s, k, keyId, draws), request).value;
    var token := FinalizePrivateToken(s, response, f, s.g.Mul(k, s.g.base)).value;
    EvaluationSizes(s, k, request.blindedMsg, draws);
    RequestType(s, challenge, keyId, nonce, r, sha256);
    RequestParses(PrintRequest(request), request);
    ResponseParses(VOPRF_P384_SHA384, PrintResponse(response), response);
    PresentedToken(token);
  }
}
