# Privacy Pass: issuance, redemption and wire formats, proved

A Dafny 4.11 model of a Privacy Pass library (RFC 9577 tokens, issued with blind RSA signatures of RFC 9474 or with the
VOPRF of RFC 9497) and of its MoQ authorization extension. `dafny verify dfyconfig.toml` checks everything.

The model has four parts.

- **Algebra.** `Sswu`, `ExpandMessage`, `Voprf` and `BlindRsa` follow the field, group and Montgomery steps of the code
  on integers. `HashToField`, `VoprfSoundness` and `BlindRsaSoundness` say what they compute and accept: what
  each hash reads (`Transcripts`), which proofs and signatures pass, what a blinded value hides, and what the outputs
  are bound to. What they rest on (Fermat's little theorem, inverses modulo a prime, Euler's criterion for p = 3
  mod 4, RSA's identity, big-endian strings, byte-wise selection, prime-order groups) is proved in `Collections`,
  `Congruence`, `NumberTheory`, `Division`, `ModularField`, `QuadraticResidues`, `RsaArithmetic`, `Octets` and
  `PrimeOrderGroup`.
- **Replay caches.** `ReplayCache` (time buckets) and `TokenAuthenticator` (a queue, beside its checks and its table of
  issuers) are classes with the redundant fields of the source, each proved equal step by step to a plain set or, in
  `RedemptionQueue`, a plain list of dated nonces; theorems about whole runs follow. A locked method is one step, and
  the clock reading is a parameter that does not decrease.
- **Codecs.** `Wire`, `Base64Url`, `Tokens`, `TokenChallenges`, `Batches`, `TokenRequests`, `TokenResponses`,
  `AuthParams`, `AuthChallenges`, `AuthScheme`, `MoqScopes` and `MoqInfo`. Printers and parsers are functions; the
  readers and writers of the source are classes and loops proved to compute them; every round trip is stated with the
  exact condition under which it holds.
- **Protocol.** `Issuers`, `PublicOrigins` and `Clients` tie these together: key indexes, honest runs for both kinds of
  tokens, and redemption in any interleaving. `ClientSoundness` takes the two soundness modules to whole tokens: which
  are accepted, and that requests do not tell them apart.

Conventions. A specification is a function on values (`ParseToken`, `Step`, `IssueFlat`, ...), a method of similar name
performs the source's loops and is proved to return it, and lemmas say what the function means. Hash functions, random
draws, clock readings, EMSA-PSS and affine point construction are parameters. Key identifiers are given with the keys.
Nothing is said of probabilities: a statement about a random draw counts the draws ("exactly one"), and a statement
about a hash names the two different inputs that would have to collide. Facts about the curve are hypotheses: p is a
prime with p = 3 mod 4, Z is not a square and g(B / (Z A)) is one (`Sswu.Curve.Valid`), for `Sswu.MapIsTheRfcPoint` no
point has ordinate 0, and for the uniformity of VOPRF blinding every point is a multiple of the generator; `Witnesses`
has a small curve, RSA key pair, group and suite that meet what the theorems ask of them. A `std::string` is a string
whose characters are below 256 (`IsText`); `char` is signed, so octets from 0x80 up are not key characters in a header.

Findings. Each is a theorem for all inputs and runs that says exactly when it happens, and has a concrete instance in
`Instances`.

- `TokenChallenges.SplitIsPieces`: the limit of 100 origins is checked before the rest of the text is looked at, so a
  challenge with exactly 100 entries is refused if two commas end it (`HundredOrigins`).
- `AuthScheme.TokenHeaderRoundTrip`, `AuthChallenges.ChallengeHeadersRoundTrip`: `format` does not escape, so a token,
  or any list of challenge headers, comes back exactly when no value holds a quote or a backslash (`QuoteInToken`,
  `QuoteInTokenKey`). The parsers do unescape: had the values been escaped, every list without an empty
  challenge would come back (`AuthChallenges.ParseAllEscaped`, `AuthScheme.EscapedToken`).
- `PublicOrigins.StaleIffReadded`: an origin's index by last byte keeps unreachable entries exactly when some identifier
  was added while it was live; the index by full identifier, which verification uses, is always exact (`SameKeyTwice`).
- `PublicOrigins.ReplayedIffHeld`: the nonce is reserved before the token is verified, so a bad token uses it up
  (`BadTokenUsesNonce`).
- `MoqScopes.TrackMatches`: a search in an empty track name finds nothing, not even an empty pattern
  (`NothingInEmptyName`).
- `ReplayCache.UnlimitedAtFirst`: the size limit is not enforced while the clock is below the window (`LimitIgnored`).
- `ReplayCache.DoubleAcceptanceIsEviction`: a nonce is accepted twice within the window exactly when a call in between,
  or the second one itself, finds more entries from its tick on than fit (`AcceptedTwice`).
- `RedemptionQueue.RefusedIffRemembered`: redemption looks before it prunes, so an expired nonce is refused until some
  other operation prunes it (`ExpiredIsRefused`).
- `TokenAuthenticator.UntrustedKeyVerifies`: removing a trusted issuer does not take its keys from the origin that
  verifies, so its tokens still pass (`RemovedStillPasses`).
- `Issuers.IssuedByFirst`, `Clients.IntendedToken`: of several live keys with one last byte the first that can answer
  does, whichever was meant, and the client gets its token exactly when that key's answer is its own key's signature
  (`WrongKeyAnswers`).

## Model

| member | source | states |
|---|---|---|
| Octets.MaskedByte | src/crypto/voprf.cpp:304-307 | x ^ (mask & (x ^ y)) is x for mask 0 and y for mask 0xFF |
| Octets.MaskedSelect | src/crypto/voprf.cpp:304-307 | the in-place masking loop leaves the first array for mask 0 and the second for mask 0xFF |
| Octets.SelectNumber | src/crypto/voprf.cpp:291-310 | padding, masking and reading back selects between two numbers |
| Octets.DecodeBigEndian | src/crypto/voprf.cpp:255-263 | a number that fits is read back from its padded big-endian octets |
| Octets.EncodeFromBigEndian | src/crypto/blind_rsa.cpp:130-130 | octets are the padded big-endian form of the number they denote |
| QuadraticResidues.EulerCriterion | src/crypto/voprf.cpp:247-250 | for p = 3 mod 4, h^((p-1)/2) is 1 for unit squares and -1 for the others |
| QuadraticResidues.SquareTest | src/crypto/voprf.cpp:247-263 | squaring the candidate root h^((p+1)/4) gives h back exactly when h is a square |
| QuadraticResidues.CubeOfNonSquares | src/crypto/voprf.cpp:274-287 | t^3 g is a square when neither t nor g is one |
| Sswu.SecondIsSquare | src/crypto/voprf.cpp:274-287 | when g(x1) has no root, g of the second candidate has one |
| Sswu.FirstXMeetsRfc | src/crypto/voprf.cpp:215-240 | the first abscissa is that of section 6.6.2 of RFC 9380, in the ordinary and the exceptional case |
| Sswu.SecondRhs | src/crypto/voprf.cpp:274-279 | g(x2) = (Z u^2)^3 g(x1) for ordinary inputs |
| Sswu.ExceptionalIsSquare | src/crypto/voprf.cpp:228-234 | for the exceptional inputs (u = 0, Z u^2 = -1) g(x1) is a square |
| Sswu.SelectedOnCurve | src/crypto/voprf.cpp:242-310 | whichever candidate is selected, its root squares to g of its abscissa |
| Sswu.MapIsRfcMap | src/crypto/voprf.cpp:187-340 | for every u the map succeeds with a point on the curve that section 6.6.2 of RFC 9380 allows, its parity that of u |
| Sswu.RfcMapUnique | src/crypto/voprf.cpp:187-340 | the relation of section 6.6.2 allows only one point for each u |
| Sswu.MapIsTheRfcPoint | src/crypto/voprf.cpp:187-340 | on a curve without points of ordinate 0 the code's point is exactly the one the relation allows, with y reduced |
| Sswu.FirstCandidate | src/crypto/voprf.cpp:209-240 | the straight-line BIGNUM steps compute the first abscissa, or fail when the inversion does |
| Sswu.CurveRhs | src/crypto/voprf.cpp:242-245 | four steps compute x^3 + A x + B modulo p |
| Sswu.SquaresTo | src/crypto/voprf.cpp:252-263 | comparing the padded octets decides whether the root squares back |
| Sswu.MapToCurveSswu | src/crypto/voprf.cpp:187-340 | the whole method with its two masked selections returns MapToCurve |
| ExpandMessage.ExpandMessageXmd | src/crypto/voprf.cpp:123-185 | the block loop returns the recursively defined expansion of section 5.3.1 of RFC 9380, or refuses more than 255 blocks or tag octets |
| ExpandMessage.OctetOfBlock | src/crypto/voprf.cpp:163-184 | octet j of the result is octet j mod 48 of block j / 48 + 1, whose counter fits one octet |
| ExpandMessage.XorBlocks | src/crypto/voprf.cpp:165-168 | the inner loop is the octet-wise exclusive or of two blocks |
| HashToField.MsgPrimeInjective | src/crypto/voprf.cpp:130-153 | the first text hashed fixes message, tag and length |
| HashToField.TwoBlocks | src/crypto/voprf.cpp:123-185 | 72 octets are the first block and half of the second, each written out as the hash of the octets it is of |
| HashToField.ThreeBlocks | src/crypto/voprf.cpp:123-185 | 144 octets are three such blocks |
| HashToField.ScalarIs | src/crypto/voprf.cpp:379-392 | a scalar is 72 octets under the tag HashToScalar-OPRFV1-, 1, -P384-SHA384 and its length, modulo the order |
| HashToField.CurvePointIs | src/crypto/voprf.cpp:342-377 | a point is the sum of the two that section 6.6.2 of RFC 9380 gives for the two halves of 144 octets under the tag HashToGroup-..., each modulo p |
| PrimeOrderGroup.MulCong | src/crypto/voprf.cpp:433-440 | scalars equal modulo the order multiply alike |
| PrimeOrderGroup.MulNonZero | src/crypto/voprf.cpp:774-777 | a scalar that is not 0 modulo the order does not send a point to the identity |
| Voprf.HashToCurveTotal | src/crypto/voprf.cpp:342-377 | hashing to the curve succeeds exactly for inputs that are not too large |
| Voprf.CompositesLinear | src/crypto/voprf.cpp:426-441 | when Z = k R, the composites keep that relation |
| Voprf.ProofVerifies | src/crypto/voprf.cpp:468-571 | a generated DLEQ proof verifies, for every key and every nonce t |
| Voprf.ProofsDetermineKey | src/crypto/voprf.cpp:544-571 | two proofs with different challenges and the same commitments give the one k below the order with Y = k G, and composite Z = k M with it |
| Voprf.CompositesDetermineEvaluation | src/crypto/voprf.cpp:426-441 | unless the composite scalar is 0, the composites are related by k exactly when the elements are |
| Voprf.Unblinded | src/crypto/voprf.cpp:849-857 | r^-1 (k (r H)) = k H |
| Voprf.HonestEvaluation | src/crypto/voprf.cpp:881-939 | the server's answer to an honest client, an error exactly for the identity |
| Voprf.HonestFinalize | src/crypto/voprf.cpp:791-865 | the client's output is that of the input and k H, whatever the blind and the nonce; VoprfSoundness.FinalizeReads and OutputBinds say what an output is |
| Voprf.HonestRun | src/crypto/voprf.cpp:754-982 | for every input blind, evaluate, finalize and verify_finalize agree: errors exactly for oversized inputs, for the identity and past 65535 octets, else one output that no blind or nonce changes and that alone is accepted |
| Voprf.ComputeCompositeScalar | src/crypto/voprf.cpp:394-424 | the transcripts grown piece by piece are the specified ones |
| Voprf.ComputeDleqChallenge | src/crypto/voprf.cpp:443-466 | the challenge hashes the key, the composites and the commitments, each with its length |
| Voprf.GenerateDleqProof | src/crypto/voprf.cpp:468-514 | the steps with the rejection loop for t compute the proof for the first non-zero draw |
| Voprf.VerifyDleqProof | src/crypto/voprf.cpp:516-571 | the steps decide the verification that VoprfSoundness.VerifiesIff describes, wrong sizes and scalars out of range included |
| Voprf.EvaluateBlinded | src/crypto/voprf.cpp:881-939 | the steps compute the specified evaluation |
| Voprf.FinalizeEvaluation | src/crypto/voprf.cpp:791-865 | the steps compute the output or error that VoprfSoundness.FinalizeIff describes |
| VoprfSoundness.ChallengeReads | src/crypto/voprf.cpp:443-466 | reading five length-prefixed fields off the challenge's transcript gives the key, both composites and both commitments, and leaves "Challenge" |
| VoprfSoundness.CompositeReads | src/crypto/voprf.cpp:409-424 | the composite scalar hashes the seed, a zero, both elements and "Composite", each in its field |
| VoprfSoundness.SeedReads | src/crypto/voprf.cpp:404-416 | the seed hashes the key and the tag Seed-OPRFV1-, 1, -P384-SHA384 |
| VoprfSoundness.FinalizeReads | src/crypto/voprf.cpp:70-86 | the output hashes input and element, each with its length, and "Finalize" |
| VoprfSoundness.VerifiesIff | src/crypto/voprf.cpp:516-571 | a proof is accepted exactly when it is a challenge and an answer below the order, the answer meets both equations for some commitments, and the challenge is the hash of the transcript that reads as key, composites and these; it is an error exactly when it is not two scalars in range |
| VoprfSoundness.TwoAnswers | src/crypto/voprf.cpp:544-571 | two accepted proofs with one challenge and two answers show two transcripts with one hash |
| VoprfSoundness.WrongEvaluation | src/crypto/voprf.cpp:516-571 | a proof accepted for a wrong element has commitments that one challenge only could answer, and the hash of their transcript was that one |
| VoprfSoundness.ProofCommits | src/crypto/voprf.cpp:468-514 | from a generated proof the verifier recomputes t G and t M for the nonce t |
| VoprfSoundness.AnswerHidesKey | src/crypto/voprf.cpp:501-504 | for every key and challenge each answer below the order comes from exactly one nonce |
| VoprfSoundness.FirstNonZeroIs | src/crypto/voprf.cpp:481-487 | the nonce is the first draw that is not zero |
| VoprfSoundness.EvaluationVerifies | src/crypto/voprf.cpp:881-939 | the server answers exactly readable elements, with k times the element and a proof that verifies, else with one error |
| VoprfSoundness.UniformBlind | src/crypto/voprf.cpp:754-789 | every point but the identity is the blinded element for exactly one blind |
| VoprfSoundness.FinalizeIff | src/crypto/voprf.cpp:791-865 | the client has an output exactly when elements and key are readable and the proof verifies, and it is the hash of the input and of the element that blinds to the evaluated one |
| VoprfSoundness.UnverifiedRefused | src/crypto/voprf.cpp:832-839 | a readable evaluation is refused with VERIFICATION_FAILED exactly when its proof does not verify |
| VoprfSoundness.FinalizedIsEvaluation | src/crypto/voprf.cpp:791-865 | whatever a server answers, the client's output under the key k G is the function's value under k, or this answer's proof hit the one challenge it could answer, or the composite scalar was 0 |
| VoprfSoundness.OutputBinds | src/crypto/voprf.cpp:70-86 | equal outputs are of the same input and element, or show two transcripts with one hash |
| VoprfSoundness.KeysSeparate | src/crypto/voprf.cpp:941-980 | the check under one key refuses what was computed under another, unless two transcripts collide |
| RsaArithmetic.RsaIdentity | src/crypto/blind_rsa.cpp:369-371 | x^(ed) = x modulo p q when e d = 1 modulo p - 1 and q - 1, for every x |
| RsaArithmetic.MontCtxExists | src/crypto/blind_rsa.cpp:147-149 | an odd modulus always has a Montgomery context |
| RsaArithmetic.MixedProduct | src/crypto/blind_rsa.cpp:157-161 | an ordinary number times a number in Montgomery form is their ordinary product |
| BlindRsa.KeyFromPrimes | src/crypto/blind_rsa.cpp:279-292 | keys made from two primes satisfy the identity the model asks of a key |
| BlindRsa.UnblindSigned | src/crypto/blind_rsa.cpp:151-219 | unblinding the signature of a blinded representative is m^d, whatever r was |
| BlindRsa.SignatureOpens | src/crypto/blind_rsa.cpp:235-263 | the signature's e-th power is the representative |
| BlindRsa.BlindedInRange | src/crypto/blind_rsa.cpp:359-362 | neither the blinded message nor its signature is 0, so no range check rejects them |
| BlindRsa.PerfectBlindness | src/crypto/blind_rsa.cpp:151-161 | each unit message becomes each unit blinded value under exactly one blind, itself a unit |
| BlindRsa.EncodingInRange | src/crypto/blind_rsa.cpp:127-133 | the padded message is a representative between 0 and n |
| BlindRsa.PlainSignatureVerifies | src/crypto/blind_rsa.cpp:235-263 | the plain signature of an encoding verifies |
| BlindRsa.HonestSignature | src/crypto/blind_rsa.cpp:111-376 | blind, blind_sign and finalize all succeed and give the plain signature, whatever r was |
| BlindRsa.BlindMessage | src/crypto/blind_rsa.cpp:111-172 | the method with its rejection loop returns the blinding that BlindRsaSoundness.BlindIs and MessageHidden describe |
| BlindRsa.SignBlinded | src/crypto/blind_rsa.cpp:326-376 | the method returns the specified signature or error |
| BlindRsa.FinalizeSignature | src/crypto/blind_rsa.cpp:174-233 | the method returns the result that BlindRsaSoundness.FinalizeIff and FinalizeFails describe, and what is left of the inverse |
| BlindRsa.InverseSpent | src/crypto/blind_rsa.cpp:174-233 | an attempt empties the inverse exactly when it reached unblinding, and every attempt after that is refused for its sizes |
| BlindRsa.UnblindInjective | src/crypto/blind_rsa.cpp:215-219 | different blind signatures unblind to different numbers |
| BlindRsa.OnlyOwnSignature | src/crypto/blind_rsa.cpp:174-233 | finalize gives the plain signature for the key's own blind signature and for no other answer |
| BlindRsaSoundness.FirstUnitIs | src/crypto/blind_rsa.cpp:151-155 | the blind is the first draw that is not 0 and has an inverse |
| BlindRsaSoundness.BlindIs | src/crypto/blind_rsa.cpp:111-172 | the blinded message is m r^e and the inverse kept is that of r, modulo n, both padded and below n |
| BlindRsaSoundness.BlindFails | src/crypto/blind_rsa.cpp:111-172 | blinding fails exactly for a modulus of the wrong size and when no draw is a unit |
| BlindRsaSoundness.MessageHidden | src/crypto/blind_rsa.cpp:151-172 | for a unit encoding, each unit below n is what is sent for exactly one draw below n |
| BlindRsaSoundness.VerifyIff | src/crypto/blind_rsa.cpp:235-263 | a signature verifies exactly when it is the plain signature of an encoding that PSS accepts for the message |
| BlindRsaSoundness.SignsIff | src/crypto/blind_rsa.cpp:326-376 | exactly messages of the key's size between 0 and n are signed, with the one number whose e-th power they are |
| BlindRsaSoundness.FinalizeIff | src/crypto/blind_rsa.cpp:174-233 | finalize returns a signature exactly when the sizes fit, it is the answer times the inverse, and it is the plain signature of an accepted encoding |
| BlindRsaSoundness.FinalizeFails | src/crypto/blind_rsa.cpp:174-233 | each of its errors, with the condition under which it is given |
| ReplayCache.Structure | src/core/origin.cpp:41-43 | buckets are non-empty and disjoint, their union is the nonce set, their keys the strictly increasing order |
| ReplayCache.ReplayCache.DropUntil | src/core/origin.cpp:67-76 | the first pruning loop terminates and keeps exactly the entries after the cutoff |
| ReplayCache.ReplayCache.DropToCapacity | src/core/origin.cpp:78-87 | the second pruning loop terminates and drops oldest ticks until the size fits |
| ReplayCache.ReplayCache.PruneExpired | src/core/origin.cpp:64-88 | both together, skipped while the clock is below the window |
| ReplayCache.ReplayCache.CheckAndAdd | src/core/origin.cpp:98-118 | the three structures change as one step of a set of dated nonces, with the same answer |
| ReplayCache.ReplayCache.PruneNow | src/core/origin.cpp:125-128 | the public prune does what a call does before it looks |
| ReplayCache.ReplayCache.Contains | src/core/origin.cpp:120-123 | a nonce is in the set exactly when some entry has it |
| ReplayCache.ReplayCache.Size | src/core/origin.cpp:130-133 | the size of the set is the number of entries |
| ReplayCache.CacheIsHistory | src/core/origin.cpp:64-118 | over any run without overfull calls, a nonce is accepted exactly when no earlier call within the window accepted it |
| ReplayCache.RejectionIsReplay | src/core/origin.cpp:98-118 | in every run, evictions or not, a rejected nonce was accepted within the window |
| ReplayCache.EvictMember | src/core/origin.cpp:78-87 | the capacity loop keeps an entry exactly when at most max_size entries are of its tick or later |
| ReplayCache.AcceptedIffNotHeld | src/core/origin.cpp:64-118 | over any run of calls and prunes, a nonce is accepted exactly when every call within the window that accepted it has been evicted since |
| ReplayCache.DoubleAcceptanceIsEviction | src/core/origin.cpp:78-87 | of two consecutive calls for a nonce within the window, the first accepted, the second is accepted too exactly when some call after the first, up to the second, evicts it |
| ReplayCache.ShortRunsFit | src/core/origin.cpp:78-87 | among the first max_size + 1 calls of a run none finds more entries than fit |
| ReplayCache.SizeLimit | src/core/origin.cpp:64-118 | once the clock has reached the window, at most max_size + 1 entries remain after a call |
| ReplayCache.UnlimitedAtFirst | src/core/origin.cpp:65-65 | before that no accepted nonce is ever dropped, whatever the limit |
| TokenAuthenticator.Authenticator.PruneExpired | src/core/token_authenticator.cpp:316-326 | entries from before the cutoff leave the queue and the set, and no others |
| TokenAuthenticator.Authenticator.DropToCapacity | src/core/token_authenticator.cpp:91-96 | oldest entries go until one more fits |
| TokenAuthenticator.Authenticator.CheckAndAddNonce | src/core/token_authenticator.cpp:81-107 | set and queue stay in agreement and change as the specified queue does |
| TokenAuthenticator.Authenticator.Validate | src/core/token_authenticator.cpp:196-239 | structure, digest and the origin's verification are checked in the source's order, with its errors |
| TokenAuthenticator.CheckPasses | src/core/token_authenticator.cpp:196-239 | the checks pass exactly for a well-formed RSA token bound to the challenge whose signature the origin's key for its identifier accepts, and return its digest |
| TokenAuthenticator.Authenticator.ValidateAndRedeem | src/core/token_authenticator.cpp:241-299 | a known nonce is refused first, then the checks are made, then the nonce is added; the late race branch is unreachable |
| TokenAuthenticator.Authenticator.WouldBeReplay | src/core/token_authenticator.cpp:301-304 | answers whether some entry has the nonce |
| TokenAuthenticator.Authenticator.MarkRedeemed | src/core/token_authenticator.cpp:306-309 | adds the nonce without any check |
| TokenAuthenticator.Authenticator.RedemptionCacheSize | src/core/token_authenticator.cpp:311-314 | the size of the set is the number of queue entries |
| RedemptionQueue.ReachableWellFormed | src/core/token_authenticator.cpp:81-107 | in every reachable state nonces are distinct, times do not decrease and the size is within the cap |
| RedemptionQueue.AbsentIsAdded | src/core/token_authenticator.cpp:241-299 | a nonce found absent is still absent when it is added |
| RedemptionQueue.DoubleRedemptionNeedsPressure | src/core/token_authenticator.cpp:91-96 | a nonce added a second time while unexpired had at least cap - 1 other additions after it |
| RedemptionQueue.EntryOrigin | src/core/token_authenticator.cpp:81-107 | every entry was added by a mark or a verified redemption, has one entry behind it for every addition since, and was left alone by every operation since |
| RedemptionQueue.RefusedIffRemembered | src/core/token_authenticator.cpp:81-107 | over any run, a verified redemption or a mark is refused exactly when an operation added its nonce and none since, a mark itself included, pruned it as expired or trimmed it |
| RedemptionQueue.RefusedIffNotPruned | src/core/token_authenticator.cpp:241-299 | while fewer than cap nonces were added: refused exactly when it was added and no pruning operation since came after its window |
| TokenAuthenticator.Authenticator.AddTrustedRsaKey | src/core/token_authenticator.cpp:116-138 | the key goes to the origin's index and to the issuer's list |
| TokenAuthenticator.Authenticator.AddTrustedVoprfKey | src/core/token_authenticator.cpp:140-161 | the key goes to the issuer's list |
| TokenAuthenticator.Authenticator.RemoveTrustedIssuer | src/core/token_authenticator.cpp:163-169 | both lists of the issuer go, and the origin's index stays |
| TokenAuthenticator.Authenticator.IsTrusted | src/core/token_authenticator.cpp:171-175 | an issuer is trusted while either list of it is there |
| TokenAuthenticator.TrustedIff | src/core/token_authenticator.cpp:116-175 | over any run an issuer is trusted exactly when it was given a key of either kind and not removed since |
| TokenAuthenticator.VerifyingKey | src/core/token_authenticator.cpp:116-169 | over any run the key that verifies is the latest ever added with the token's identifier, removals or not |
| TokenAuthenticator.UntrustedKeyVerifies | src/core/token_authenticator.cpp:163-169 | the issuer of a verifying key is not trusted exactly when it was removed after that key and given none since |
| TokenAuthenticator.CreateChallenge | src/core/token_authenticator.cpp:177-194 | the caller's origin entries come first, then the configured names |
| Wire.ByteReader.ReadU8 | include/privacy_pass/core/serialization.hpp:23-26 | reads one octet or leaves the position alone |
| Wire.ByteReader.ReadU16 | include/privacy_pass/core/serialization.hpp:29-35 | reads a 16-bit number or leaves the position alone |
| Wire.ByteReader.ReadU32 | include/privacy_pass/core/serialization.hpp:38-46 | reads a 32-bit number or leaves the position alone |
| Wire.ByteReader.ReadVarint | include/privacy_pass/core/serialization.hpp:49-93 | reads what the varint at the position denotes, and exactly its octets |
| Wire.ByteReader.ReadBytes | include/privacy_pass/core/serialization.hpp:96-101 | reads that many octets or leaves the position alone |
| Wire.ByteWriter.WriteBytes | include/privacy_pass/core/serialization.hpp:248-257 | appends, or sets overflow when the external buffer has no room |
| Wire.ByteWriter.WriteU8 | include/privacy_pass/core/serialization.hpp:183-191 | the same for one octet |
| Wire.ByteWriter.WriteU16 | include/privacy_pass/core/serialization.hpp:194-204 | the same for two octets, high one first |
| Wire.ByteWriter.WriteVarint | include/privacy_pass/core/serialization.hpp:224-245 | appends the varint, or a prefix of it up to the end of the buffer |
| Wire.U16Parses | include/privacy_pass/core/serialization.hpp:29-35 | a text yields a number and a rest exactly when it is the number's two octets and the rest |
| Wire.ReadsBigEndian | include/privacy_pass/core/serialization.hpp:29-35 | the two octets of a number are its big-endian ones |
| Wire.FieldParses | src/core/token_challenge.cpp:103-112 | the same for a field with a 16-bit length before it |
| Wire.VarintRoundTrip | include/privacy_pass/core/serialization.hpp:224-245 | reading after writing returns the low 62 bits and leaves what follows, for every 64-bit value |
| Wire.VarintReads | include/privacy_pass/core/serialization.hpp:49-93 | the two high bits of the first octet are the binary logarithm of the length, the other bits of that many octets the value, high one first |
| Wire.VarintMinimal | include/privacy_pass/core/serialization.hpp:311-316 | varint_size is the least size among all encodings accepted for the value |
| Wire.VarintPrefixFree | include/privacy_pass/core/serialization.hpp:49-93 | no encoding is a proper prefix of another |
| Base64Url.DecodeEncode | src/core/serialization.cpp:35-126 | decoding undoes encoding, padded and not, for every octet string |
| Base64Url.EncodeDecode | src/core/serialization.cpp:82-126 | a successful decoding has 3n/4 octets and encodes back exactly when the left-over bits are 0 |
| Base64Url.EncodedNumber | src/core/serialization.cpp:35-72 | the sextets are the digits in base 64 of the octets' number in base 256, after the zero bits that fill the last one |
| Base64Url.Alphabet | src/core/serialization.cpp:11-12 | A to Z, a to z, 0 to 9 in order, then '-' and '_' |
| Base64Url.ShiftedOctets | src/core/serialization.cpp:109-123 | the 32-bit buffer may wrap: its low two sextets are all that matters |
| Base64Url.OctetsAppend | src/core/serialization.cpp:109-123 | one more sextet adds at most the octet that its position completes |
| Base64Url.EncodedIsPlain | src/core/serialization.cpp:74-80 | padded text has alphabet characters and '=' only, and a multiple of four of them |
| Base64Url.EncodeBytes | src/core/serialization.cpp:35-72 | the loop over three octets and the remainder computes the encoding |
| Base64Url.EncodePaddedBytes | src/core/serialization.cpp:74-80 | the padding loop computes the padded encoding |
| Base64Url.DecodeString | src/core/serialization.cpp:82-126 | stripping, checks and the buffer loop compute the decoding, errors included |
| Tokens.TokenParses | src/core/token.cpp:77-160 | deserialize accepts exactly the printed form of tokens of a known type that validate |
| Tokens.TokenFramed | src/core/token.cpp:103-160 | cutting octets off a printed token, or adding some, gives the end and trailing errors |
| Tokens.InputParses | src/core/token.cpp:14-54 | an authenticator input is read from exactly the texts that start with its printed form |
| Tokens.InputOfToken | src/core/token.cpp:162-169 | the signed input is the token's own front and fixes all but the authenticator |
| Tokens.TokenLayout | src/core/token.cpp:77-87 | type, nonce, challenge digest, key identifier and authenticator stand at octets 0, 2, 34, 66 and 98 |
| Tokens.SerializeInput | src/core/token.cpp:14-23 | the writer's calls print the input |
| Tokens.SerializeToken | src/core/token.cpp:77-87 | the writer's calls print the token |
| Tokens.DeserializeInput | src/core/token.cpp:25-54 | the reader's calls parse the input |
| Tokens.DeserializeToken | src/core/token.cpp:103-160 | the reader's calls parse the token, in the source's order of errors |
| TokenChallenges.SplitIsPieces | src/core/token_challenge.cpp:158-180 | the loop with its limit yields the non-empty pieces between commas exactly when fewer than 100, or 100 without two commas at the end |
| TokenChallenges.PiecesOfJoin | src/core/token_challenge.cpp:24-31 | the pieces of joined entries are the pieces of each |
| TokenChallenges.SplitJoin | src/core/token_challenge.cpp:158-180 | a list comes back from joining and splitting exactly when its entries are non-empty, comma-free and at most 100 |
| TokenChallenges.ParsePrinted | src/core/token_challenge.cpp:52-187 | what serialize printed is read back with its origins normalised, or refused for too many |
| TokenChallenges.ChallengeRoundTrip | src/core/token_challenge.cpp:52-187 | a challenge comes back unchanged exactly under that condition |
| TokenChallenges.ParsedPrints | src/core/token_challenge.cpp:94-187 | whatever is accepted serializes again and is read back as it was |
| TokenChallenges.ChallengeLayout | src/core/token_challenge.cpp:52-92 | type, issuer name, redemption context and origin info are read back in this order |
| TokenChallenges.OriginInfoString | src/core/token_challenge.cpp:24-31 | the loop joins the entries with commas |
| TokenChallenges.SerializedSize | src/core/token_challenge.cpp:33-50 | the computed size is the number of octets printed |
| TokenChallenges.SerializeChallenge | src/core/token_challenge.cpp:52-92 | the writer's calls print the challenge, or the lengths are refused |
| TokenChallenges.SplitOrigins | src/core/token_challenge.cpp:158-180 | the loop over pos computes the split |
| TokenChallenges.DeserializeChallenge | src/core/token_challenge.cpp:94-187 | the reader's calls parse the challenge, in the source's order of errors |
| TokenChallenges.DigestedChallenge.GetDigest | src/core/token_challenge.cpp:189-207 | the cached digest is always the digest |
| TokenChallenges.DigestBinds | src/core/token_challenge.cpp:189-207 | equal digests are of challenges with the same fields, or show two texts with one hash |
| Batches.BatchRoundTrip | src/core/token_response.cpp:160-259 | a batch comes back exactly when its elements are readable, at most 10000, and together at most 65535 octets |
| Batches.ParsedBatch | src/core/token_response.cpp:194-259 | what is accepted is the elements' printed forms behind some varint of their size |
| Batches.LimitUnreached | src/core/token_request.cpp:131-134 | a limit on elements that are too long to reach it makes no difference, on any input |
| Batches.PrintedPayload | src/core/token_request.cpp:110-124 | a printed payload is read back, or refused as malformed when it is too large |
| Batches.ReadPayload | src/core/token_request.cpp:107-124 | the reader's calls find the payload, errors included |
| TokenRequests.RequestParses | src/core/token_request.cpp:25-72 | exactly the printed requests whose blinded message has its type's size are accepted |
| TokenRequests.RequestLayout | src/core/token_request.cpp:25-33 | type, last byte of the key identifier and blinded message stand at octets 0, 2 and 3 |
| TokenRequests.ReadableRequest | src/core/token_request.cpp:136-160 | the size predicted from the header is the printed one exactly for well-sized requests of a known type |
| TokenRequests.RequestBatchRoundTrip | src/core/token_request.cpp:83-164 | a batch of requests comes back exactly when each is well sized and the payload fits |
| TokenRequests.RequestLimitNeverFires | src/core/token_request.cpp:131-134 | on every input the 10000 limit makes no difference |
| TokenRequests.SerializeRequest | src/core/token_request.cpp:25-33 | the writer's calls print the request |
| TokenRequests.DeserializeRequest | src/core/token_request.cpp:35-72 | the reader's calls parse it |
| TokenRequests.BatchSerializedSize | src/core/token_request.cpp:75-81 | the computed size is the number of octets printed |
| TokenRequests.SerializeBatch | src/core/token_request.cpp:83-101 | the loops print the batch |
| TokenRequests.DeserializeBatch | src/core/token_request.cpp:107-164 | the loop parses the batch, in the source's order of errors |
| TokenResponses.ResponseParses | src/core/token_response.cpp:11-104 | exactly the printed responses of a supported type and of its sizes are accepted |
| TokenResponses.OptionalParses | src/core/token_response.cpp:106-157 | the same for optional responses |
| TokenResponses.ResponseLayout | src/core/token_response.cpp:106-122 | status, type and signature, or element and proof, stand at octets 0, 1 and 3, the proof at 52; an absent response is one zero |
| TokenResponses.ReadableResponse | src/core/token_response.cpp:223-255 | the size predicted from status and type is the printed one exactly for well-formed responses |
| TokenResponses.ResponseBatchRoundTrip | src/core/token_response.cpp:160-259 | a batch of responses comes back exactly when each is well formed, at most 10000, and the payload fits |
| TokenResponses.SerializeOptional | src/core/token_response.cpp:106-122 | the writer's calls print the optional response |
| TokenResponses.DeserializeOptional | src/core/token_response.cpp:124-157 | the reader's calls parse it |
| TokenResponses.SerializeBatch | src/core/token_response.cpp:160-188 | the loops print the batch, or refuse a size that a size_t cannot hold |
| TokenResponses.DeserializeBatch | src/core/token_response.cpp:194-259 | the loop parses the batch, in the source's order of errors |
| AuthParams.UnquoteLength | src/http/auth_scheme.cpp:60-88 | a quoted value is no longer than its text, and as long only if nothing was escaped |
| AuthParams.UnquoteEscaped | src/http/auth_scheme.cpp:60-88 | a value with a backslash before each quote and backslash is read as the value, whatever it holds and whatever follows |
| AuthParams.ParamConsumes | src/http/auth_scheme.cpp:15-111 | every parameter parsed consumes at least its key, '=' and its value, so the loops end |
| AuthParams.SpacedKey | src/http/auth_scheme.cpp:16-57 | a token key is found with white space before it, around '=' and before the value |
| AuthParams.UnquotedParam | src/http/auth_scheme.cpp:89-111 | key=value is read up to a separator or the end |
| AuthParams.QuotedParam | src/http/auth_scheme.cpp:15-111 | key="value", the value escaped, is read whatever it holds and whatever follows |
| AuthParams.StoulOfDecimal | src/http/auth_scheme.cpp:208-217 | std::stoul undoes std::to_string |
| AuthParams.StoulReads | src/http/auth_scheme.cpp:208-215 | white space, a sign and text after the digits are passed over, a minus sign negates modulo 2^64, and only numbers past 64 bits throw |
| AuthChallenges.SplitFormats | src/http/auth_scheme.cpp:113-149 | splitting joined challenges with escaped values gives them back, whatever quotes, commas and scheme names they hold |
| AuthChallenges.ParseFormat | src/http/auth_scheme.cpp:154-223 | a formatted challenge with its values escaped is read back with its token key and age, or refused when the challenge is empty |
| AuthChallenges.ParseAllEscaped | src/http/auth_scheme.cpp:113-229 | parse_all of any formatted list whose values are escaped returns the list, or MISSING_PARAMETER exactly when a challenge is empty |
| AuthChallenges.ParseAllFormatted | src/http/auth_scheme.cpp:154-229 | parse_all of formatted challenges joined by ", " returns the list, for values without quote and backslash |
| AuthChallenges.UnquoteSame | src/http/auth_scheme.cpp:60-88 | only a value without quote and backslash is what its own quoted form is read as, whatever follows |
| AuthChallenges.ReadParamsNeed | src/http/auth_scheme.cpp:189-223 | the parameters read into a header take at least the characters of their keys and values, commas, spaces and quotes aside |
| AuthChallenges.FormattedNeed | src/http/auth_scheme.cpp:154-171 | a formatted list has exactly that many |
| AuthChallenges.ChallengeHeadersRoundTrip | src/http/auth_scheme.cpp:154-229 | a list of challenge headers joined by ", " comes back from parse_all exactly when every challenge is non-empty and no challenge or token key has a quote or a backslash |
| AuthChallenges.ChallengeHeaderRoundTrip | src/http/auth_scheme.cpp:154-229 | the same for one header alone |
| AuthChallenges.SchemeRequired | src/http/auth_scheme.cpp:188-192 | the header is refused as not of this scheme exactly when it does not start with the scheme's name |
| AuthScheme.TokenHeaderRoundTrip | src/http/auth_scheme.cpp:249-280 | a token string comes back exactly when it is non-empty and without quote and backslash |
| AuthScheme.EscapedToken | src/http/auth_scheme.cpp:249-280 | an escaped token is read back whatever it holds, unless it is empty |
| AuthParams.ParseAuthParam | src/http/auth_scheme.cpp:15-111 | the scanning loops compute the specified parameter and rest |
| AuthParams.ReadQuotedString | src/http/auth_scheme.cpp:60-88 | the loop with its escape flag computes the unquoted value |
| AuthChallenges.SplitPrivateTokenChallenges | src/http/auth_scheme.cpp:113-149 | the loop with its two flags computes the split |
| AuthChallenges.FormatChallenge | src/http/auth_scheme.cpp:154-171 | the appended pieces are the specified text |
| AuthChallenges.ReadChallenge | src/http/auth_scheme.cpp:189-223 | the parameter loop of one challenge computes the specified header or error |
| AuthChallenges.ParseAllChallenges | src/http/auth_scheme.cpp:185-229 | the outer loop computes the specified list or the first error |
| AuthScheme.ParseTokenParam | src/http/auth_scheme.cpp:253-280 | the loop computes the last token parameter |
| AuthScheme.AnnouncedChallenge | src/http/auth_scheme.cpp:231-308 | a built challenge header is read back as one challenge with its age, key and normalised challenge |
| AuthScheme.PresentedToken | src/http/auth_scheme.cpp:310-329 | a built authorization is read back as the token exactly when the token's type is known and its size right |
| Issuers.IssueSpec | src/core/issuer.cpp:316-366 | issue succeeds exactly when a live key of the kind with the request's last byte can answer, and else names key or type |
| Issuers.BucketSuffices | src/core/issuer.cpp:316-366 | trying the keys of one byte in order gives what trying all keys would |
| Issuers.FirstAnswerAt | src/core/issuer.cpp:316-366 | the answer is that of the first listed live key that can give one |
| Issuers.IssuedByFirst | src/core/issuer.cpp:316-366 | for either kind, of the live keys with the request's byte the first added that can answers |
| Issuers.RemoveKept | src/core/issuer.cpp:296-314 | erasing the listed keys of a byte removes exactly the keys with that byte |
| Issuers.LiveKeys | src/core/issuer.cpp:252-314 | over any run a key of either kind is live exactly when it was added and its byte not removed since, in its latest version |
| Issuers.MultiKeyIssuer.AddBlindRsaKey | src/core/issuer.cpp:252-272 | both levels change as the flat list does, duplicates included |
| Issuers.MultiKeyIssuer.AddVoprfKey | src/core/issuer.cpp:274-294 | the same for VOPRF keys |
| Issuers.MultiKeyIssuer.RemoveKey | src/core/issuer.cpp:296-314 | exactly the RSA and VOPRF keys with the byte go |
| Issuers.MultiKeyIssuer.Issue | src/core/issuer.cpp:316-366 | the two-level search answers as the flat list does |
| Issuers.IssueBatch | src/core/issuer.cpp:69-91 | one answer for every request, in order, absent exactly where issuing fails |
| PublicOrigins.LatestKey | src/core/origin.cpp:265-289 | the full-identifier index points at the latest key with that identifier that was not removed, and only then at one |
| PublicOrigins.StaleIffReadded | src/core/origin.cpp:265-289 | the last-byte index lists an unreachable key exactly when some identifier was added while live |
| PublicOrigins.AfterValid | src/core/origin.cpp:265-289 | in every reachable state the two indexes agree on every live key |
| PublicOrigins.PublicOrigin.AddIssuerKey | src/core/origin.cpp:265-273 | list and indexes change as specified |
| PublicOrigins.PublicOrigin.RemoveIssuerKey | src/core/origin.cpp:275-289 | list and indexes change as specified |
| PublicOrigins.PublicOrigin.CreateChallenge | src/core/origin.cpp:172-191 | a challenge for blind RSA with the configured names and the caller's context, a random one exactly when one is required and none given |
| PublicOrigins.PublicOrigin.Verify | src/core/origin.cpp:193-243 | the verdict that PublicOrigins.VerifiedIff and OtherChallenge describe, with the live key of the token's identifier |
| PublicOrigins.VerifiedIff | src/core/origin.cpp:193-243 | a token is accepted exactly when it validates, is RSA, carries the digest of the expected challenge, and a key is there that accepts its signature |
| PublicOrigins.OtherChallenge | src/core/origin.cpp:216-221 | a well-formed RSA token gets INVALID_CHALLENGE exactly when its digest is another |
| PublicOrigins.PublicOrigin.VerifyAndRedeem | src/core/origin.cpp:245-263 | the nonce is checked and reserved first, then the token verified |
| PublicOrigins.ReplayedIffHeld | src/core/origin.cpp:245-263 | in any interleaving a redemption is a replay exactly when one within the window reserved its nonce, good token or not, and was not evicted since |
| PublicOrigins.ReplayedIffReserved | src/core/origin.cpp:245-263 | so while no redemption has found the cache overfull it is one exactly when one within the window reserved its nonce |
| PublicOrigins.RedeemedIff | src/core/origin.cpp:245-263 | over any run a redemption is accepted exactly when it is no replay, the token validates and carries the digest of that redemption's challenge, and the latest live key with its identifier accepts the signature |
| Clients.CreateTokenRequest | src/core/client.cpp:18-78 | the steps compute the specified request and finalization data |
| Clients.FinalizeTokenRequest | src/core/client.cpp:80-126 | the steps compute the specified token or error |
| Clients.FinalizedVerifies | src/core/client.cpp:80-126 | whatever the response, a token the client accepts verifies at an origin with the key |
| Clients.HonestToken | src/core/client.cpp:18-126 | create_token_request, issue and finalize succeed and the token verifies, whatever the blind |
| Clients.HonestWire | src/core/client.cpp:18-126 | the run's request, response and token are read back from the wire as they were written |
| Clients.IntendedToken | src/core/client.cpp:80-126 | with many live keys of one byte some first one signs, and the client ends with its token exactly when what that key signs is what its own key would |
| Clients.HonestPrivateToken | src/core/client.cpp:136-257 | the private run succeeds exactly when the input does not hash to the identity, and its token passes the issuer's check |
| Clients.VerifiedRedemption | src/core/origin.cpp:245-263 | a verified token is accepted unless its nonce is reserved and held, and once accepted is a replay within the window while held |
| Clients.HonestRedemption | src/core/client.cpp:18-126 | from the challenge through request, signature and token to an accepted redemption, and every later one a replay, in any interleaving |
| ClientSoundness.AcceptedIff | src/core/origin.cpp:193-243 | an origin with the key accepts a token exactly when its authenticator is the plain signature of an accepted encoding of its other fields |
| ClientSoundness.FinalizedIff | src/core/client.cpp:80-126 | the client has a token exactly when it carries the fields asked for and an authenticator that the answer unblinds to and that verifies |
| ClientSoundness.RequestHides | src/core/client.cpp:18-78 | each unit is what the request carries for exactly one draw, whatever challenge and nonce it is for |
| ClientSoundness.PrivateVerdict | src/core/issuer.cpp:205-226 | the issuer accepts exactly the hash of the transcript of the token's other fields and k times their point, and refuses every other authenticator |
| ClientSoundness.PrivatelyFinalizedIff | src/core/client.cpp:211-257 | the same for private tokens, with the output that VoprfSoundness.FinalizeIff describes |
| ClientSoundness.AcceptedPrivately | src/core/client.cpp:136-257 | a token the client accepts under k G passes the issuer's check under k, whoever answered, or that answer was the luck of VoprfSoundness.FinalizedIsEvaluation |
| ClientSoundness.PrivateRequestHides | src/core/client.cpp:136-209 | each point but the identity is what the request carries for exactly one blind |
| ClientSoundness.HonestPrivateWire | src/core/client.cpp:136-257 | the private run's request, response and token come back from the wire, for elements of 49 octets and scalars of 48 |
| MoqScopes.NamespaceMatches | extensions/moq/src/auth_scope.cpp:11-45 | the loops decide equality, prefix, suffix and containment of element lists |
| MoqScopes.TrackMatches | extensions/moq/src/auth_scope.cpp:48-66 | the same for track names, except that nothing is found in an empty name |
| MoqScopes.ScopeAuthorizes | extensions/moq/src/auth_scope.cpp:144-180 | action, namespace and track must all be allowed |
| MoqScopes.PrefixParses | extensions/moq/src/auth_scope.cpp:182-366 | exactly the printed scopes whose sizes fit their fields are read |
| MoqScopes.ScopeRoundTrip | extensions/moq/src/auth_scope.cpp:182-366 | a scope comes back exactly when its counts and lengths fit, whatever follows it |
| MoqScopes.SerializeScope | extensions/moq/src/auth_scope.cpp:182-219 | the writer's calls print the scope, sizes truncated to their fields |
| MoqScopes.DeserializeScope | extensions/moq/src/auth_scope.cpp:255-366 | the reader's loops parse the scope, in the source's order of errors |
| MoqScopes.ScopeBuilder.AllowActions | extensions/moq/src/auth_scope.cpp:74-79 | actions are appended in order and the matches stay |
| MoqInfo.AuthorizesOne | extensions/moq/src/authorization_info.cpp:31-42 | some scope authorizes |
| MoqInfo.AuthorizesAll | extensions/moq/src/authorization_info.cpp:44-55 | every action is authorized by some scope |
| MoqInfo.InfoRoundTrip | extensions/moq/src/authorization_info.cpp:57-109 | the list comes back exactly when all counts and lengths fit, and whatever is accepted is such a list |
| MoqInfo.SerializeInfo | extensions/moq/src/authorization_info.cpp:57-76 | the loop prints the list |
| MoqInfo.DeserializeInfo | extensions/moq/src/authorization_info.cpp:78-109 | the loop parses the list |
| MoqInfo.InfoSurvives | extensions/moq/src/authorization_info.cpp:111-127 | through origin_info, challenge, base64url, header and back the list is unchanged, and so what it authorizes |
| MoqInfo.Presets | extensions/moq/src/authorization_info.cpp:130-180 | exactly what each preset allows |
| Division.DividedIs | src/crypto/voprf.cpp:361-365 | the remainder that stands for BN_mod is the ordinary one |
| Instances.HundredOrigins | src/core/token_challenge.cpp:158-163 | "a," a hundred times is accepted, with one more comma refused |
| Instances.HeadersRead | src/http/auth_scheme.cpp:154-251 | the text of a challenge header with key and age, and of a token header |
| Instances.ScopeOctets | extensions/moq/src/auth_scope.cpp:182-219 | the octets of two scopes |
| Instances.QuoteInToken | src/http/auth_scheme.cpp:249-280 | the token a"b is read back as a |
| Instances.QuoteInTokenKey | src/http/auth_scheme.cpp:154-229 | a header with token key a"b does not come back |
| Instances.SameKeyTwice | src/core/origin.cpp:265-273 | a key added twice leaves a listed entry that nothing reaches |
| Instances.BadTokenUsesNonce | src/core/origin.cpp:245-263 | a good token is accepted on its own and a replay after a bad one with its nonce |
| Instances.RemovedStillPasses | src/core/token_authenticator.cpp:163-169 | an issuer is added and removed, is not trusted, and its token passes the checks |
| Instances.NothingInEmptyName | extensions/moq/src/auth_scope.cpp:48-66 | the empty pattern is contained in the empty name and not found there |
| Instances.LimitIgnored | src/core/origin.cpp:65-65 | a cache for one nonce holds three below the window |
| Instances.AcceptedTwice | src/core/origin.cpp:78-87 | a cache for one nonce accepts one twice, a second apart, in a window of ten |
| Instances.ExpiredIsRefused | src/core/token_authenticator.cpp:241-299 | a nonce is refused ten windows later and accepted once something has pruned |
| Instances.WrongKeyAnswers | src/core/issuer.cpp:316-340 | of two RSA keys with one last byte the one added first signs, and the client does not get its token |

## Left out

- OpenSSL and BoringSSL: big numbers are integers, points a prime-order group with stated laws, SHA-2 and EMSA-PSS
  parameters; allocation failures are not modelled.
- SPKI, PKCS8 and DER, key generation, and key identifiers as hashes.
- Timing, memory zeroing and locking: each locked method is one atomic step.
- src/core/token_provider.cpp, `Origin`, `PrivateOrigin` and `Client` dispatch, `MultiKeyIssuer::public_keys` and
  `config`, name tables, logging and error texts: delegation and easy claims.
- Sswu.MapIsTheRfcPoint: the concrete constants of P-384 are not checked against the curve hypotheses, which stay
  hypotheses.
- BlindRsa.HonestSignature: key size is a parameter (256 in the source), and EMSA-PSS is assumed to give an encoding
  that verifies, starts with a clear bit and ends in 0xbc.
- BlindRsa.BlindMessage: random draws are a list, and running out of them stands for a failing random source.
- BlindRsa.FinalizeSignature: the caller's inverse is passed in and returned instead of cleared in place.
- Voprf.HonestRun: the conversion of affine coordinates to a point is a parameter that accepts points on the curve.
- ReplayCache.CacheIsHistory: calls that evict for capacity are excluded here; ReplayCache.AcceptedIffNotHeld is the
  same without that exclusion.
- Issuers.IssueBatch: the batch method of the VOPRF issuer is the same loop and is not repeated.
- Clients.HonestPrivateToken: the private client's steps are functions on values, without a method of their own.
- TokenChallenges.DigestedChallenge.GetDigest: fields are fixed once the digest may be cached.
- Wire.ByteWriter.WriteVarint: `write_u32`, the one-byte length prefixes, `peek`, `skip`, `reset` and `clear` have no
  caller in the modelled code and are not modelled.
