// The token authenticator of src/core/token_authenticator.cpp: its checks, its table of trusted issuers, and its
// first-in first-out redemption cache.
module TokenAuthenticator {
  import opened Types
  import opened RedemptionQueue
  import opened TokenChallenges
  import opened Tokens
  import Origins = PublicOrigins

  // ---- the checks

  // the checks before a nonce is used up, given the challenge's digest and the origin's verification
  function Check(token: Token, digest: Result<Bytes32>, verified: Result<bool>): Result<Bytes32> {
    if token.Validated().Err? then Err(token.Validated().error)
    else
      match digest
      case Err(_) => Err(CRYPTO_ERROR)
      case Ok(expected) =>
        if token.challengeDigest != expected then Err(INVALID_CHALLENGE)
        else
          match verified
          case Err(error) => Err(error)
          case Ok(good) => if good then Ok(expected) else Err(TOKEN_INVALID)
  }

  // A token passes exactly when it is well formed, of an RSA type, bound to the challenge, and the origin's latest key
  // with its identifier accepts its signature; then its digest is returned.
  lemma CheckPasses(token: Token, digest: Result<Bytes32>, key: Option<Origins.IssuerKey>)
    ensures var checked := Check(token, digest, Origins.Verified(token, digest, key));
            && (checked.Ok? <==> && token.Validated() == Ok(()) && IsRsa(token.tokenType)
                                 && digest == Ok(token.challengeDigest) && key.Some?
                                 && key.value.verify(PrintInput(token.Input()), token.authenticator) == Ok(true))
            && (checked.Ok? ==> checked.value == token.challengeDigest)
    ensures token.Validated() == Ok(()) && digest.Ok? && digest.value != token.challengeDigest ==>
              Check(token, digest, Origins.Verified(token, digest, key)) == Err(INVALID_CHALLENGE)
  {
    hide PrintInput;
  }

  // ---- trusted issuers: a table of keys for each name, and the index of the origin that verifies

  datatype Trust = Trust(rsaKeys: map<string, seq<Origins.IssuerKey>>, voprfKeys: map<string, seq<Bytes>>,
                         index: Origins.Index)
  {
    predicate Trusted(issuer: string) { issuer in rsaKeys || issuer in voprfKeys }
  }

  datatype TrustOp =
    | AddRsa(issuer: string, key: Origins.IssuerKey) | AddVoprf(issuer: string, publicKey: Bytes)
    | RemoveIssuer(issuer: string)

  function Listed<K>(keys: map<string, seq<K>>, issuer: string): seq<K> {
    if issuer in keys then keys[issuer] else []
  }

  // removing an issuer takes its tables away and leaves the origin alone
  function ApplyTrust(t: Trust, op: TrustOp): Trust {
    match op
    case AddRsa(issuer, key) =>
      t.(rsaKeys := t.rsaKeys[issuer := Listed(t.rsaKeys, issuer) + [key]], index := t.index.Add(key))
    case AddVoprf(issuer, key) => t.(voprfKeys := t.voprfKeys[issuer := Listed(t.voprfKeys, issuer) + [key]])
    case RemoveIssuer(issuer) => t.(rsaKeys := t.rsaKeys - {issuer}, voprfKeys := t.voprfKeys - {issuer})
  }

  function TrustAfter(ops: seq<TrustOp>): Trust {
    if ops == [] then Trust(map[], map[], Origins.NO_KEYS)
    else ApplyTrust(TrustAfter(ops[..|ops| - 1]), ops[|ops| - 1])
  }

  // operation i gives the issuer a key and no later one removes the issuer
  ghost predicate Trusts(ops: seq<TrustOp>, i: nat, issuer: string) {
    && i < |ops| && ops[i] != RemoveIssuer(issuer) && ops[i].issuer == issuer
    && forall j | i < j < |ops| :: ops[j] != RemoveIssuer(issuer)
  }

  lemma {:induction false} TrustedIff(ops: seq<TrustOp>, issuer: string)
    ensures TrustAfter(ops).Trusted(issuer) <==> exists i: nat :: Trusts(ops, i, issuer)
  {
    hide Listed;
    if ops != [] {
      var last := |ops| - 1;
      TrustedIff(ops[..last], issuer);
      if i: nat :| Trusts(ops[..last], i, issuer) {
        assert Trusts(ops, i, issuer) || ops[last] == RemoveIssuer(issuer);
      }
      if i: nat :| Trusts(ops, i, issuer) {
        assert i < last ==> Trusts(ops[..last], i, issuer);
      }
      if ops[last] != RemoveIssuer(issuer) && ops[last].issuer == issuer {
        assert Trusts(ops, last, issuer);
      }
    }
  }

  // operation i is the last to add a key with this identifier, for whatever issuer
  ghost predicate LastAdds(ops: seq<TrustOp>, i: nat, id: Bytes32) {
    && i < |ops| && ops[i].AddRsa? && ops[i].key.keyId == id
    && forall j | i < j < |ops| && ops[j].AddRsa? :: ops[j].key.keyId != id
  }

  // The key that verifies a token is the latest ever added with its identifier; removing issuers never changes that.
  lemma {:induction false} VerifyingKey(ops: seq<TrustOp>, id: Bytes32)
    ensures TrustAfter(ops).index.Valid()
    ensures Origins.KeyOf(TrustAfter(ops).index, id).Some? <==> exists i: nat :: LastAdds(ops, i, id)
    ensures forall i: nat :: LastAdds(ops, i, id) ==> Origins.KeyOf(TrustAfter(ops).index, id) == Some(ops[i].key)
  {
    hide Origins.KeyOf, Origins.Index.Valid, Origins.Index.Add, Origins.Apply;
    if ops == [] {
      NoKeys(id);
    } else {
      var last := |ops| - 1;
      var before := TrustAfter(ops[..last]).index;
      VerifyingKey(ops[..last], id);
      if ops[last].AddRsa? {
        Origins.ApplyValid(before, Origins.KeyOp.Add(ops[last].key));
        Origins.KeyOfApply(before, Origins.KeyOp.Add(ops[last].key), id);
        Origins.ApplyAdd(before, ops[last].key);
      }
      if ops[last].AddRsa? && ops[last].key.keyId == id {
        assert LastAdds(ops, last, id);
      } else {
        forall i: nat ensures LastAdds(ops, i, id) <==> LastAdds(ops[..last], i, id) {
          LastAddsPrefix(ops, i, id);
        }
      }
    }
  }

  lemma LastAddsPrefix(ops: seq<TrustOp>, i: nat, id: Bytes32)
    requires ops != [] && (ops[|ops| - 1].AddRsa? ==> ops[|ops| - 1].key.keyId != id)
    ensures LastAdds(ops, i, id) <==> LastAdds(ops[..|ops| - 1], i, id)
  {
  }

  lemma NoKeys(id: Bytes32)
    ensures Origins.NO_KEYS.Valid() && Origins.KeyOf(Origins.NO_KEYS, id) == None
  {
  }

  // removal j is the last operation on the issuer
  ghost predicate LastRemoves(ops: seq<TrustOp>, j: nat, issuer: string) {
    j < |ops| && ops[j] == RemoveIssuer(issuer) && forall k | j < k < |ops| :: ops[k].issuer != issuer
  }

  // So a key verifies for an issuer that is not trusted exactly when it is the latest with its identifier and the
  // issuer was removed after it was added, with no key of its added since.
  lemma UntrustedKeyVerifies(ops: seq<TrustOp>, i: nat, id: Bytes32)
    requires LastAdds(ops, i, id)
    ensures var t := TrustAfter(ops);
            && Origins.KeyOf(t.index, id) == Some(ops[i].key)
            && (!t.Trusted(ops[i].issuer) <==> exists j: nat :: i < j && LastRemoves(ops, j, ops[i].issuer))
  {
    hide Origins.KeyOf, TrustAfter;
    var issuer := ops[i].issuer;
    VerifyingKey(ops, id);
    TrustedIff(ops, issuer);
    if !TrustAfter(ops).Trusted(issuer) {
      var j := LastOperation(ops, i, issuer);
      assert !Trusts(ops, j, issuer);
      assert LastRemoves(ops, j, issuer);
    }
    forall j: nat, k: nat | LastRemoves(ops, j, issuer) ensures !Trusts(ops, k, issuer) {
      assert k < j ==> ops[j] == RemoveIssuer(issuer);
    }
  }

  lemma {:induction false} LastOperation(ops: seq<TrustOp>, i: nat, issuer: string) returns (j: nat)
    requires i < |ops| && ops[i].issuer == issuer
    ensures i <= j < |ops| && ops[j].issuer == issuer && forall k | j < k < |ops| :: ops[k].issuer != issuer
  {
    var last := |ops| - 1;
    if ops[last].issuer == issuer {
      j := last;
    } else {
      j := LastOperation(ops[..last], i, issuer);
    }
  }

  // ---- the class

  class Authenticator {
    const sha256: Bytes -> Bytes32
    const origin: Origins.PublicOrigin
    const replayWindow: nat
    const maxReplayCacheSize: nat
    var rsaKeys: map<string, seq<Origins.IssuerKey>>
    var voprfKeys: map<string, seq<Bytes>>
    var redeemedNonces: set<Bytes32>
    var nonceEntries: seq<Entry<Bytes32>>

    ghost function TrustState(): Trust
      reads this, origin
    {
      Trust(rsaKeys, voprfKeys, origin.KeyIndex())
    }

    ghost predicate Valid()
      reads this
    {
      redeemedNonces == Nonces(nonceEntries) && WellFormed(nonceEntries, Capacity(maxReplayCacheSize))
    }

    constructor (issuerName: string, originNames: seq<string>, requireRedemptionContext: bool,
                 sha256: Bytes -> Bytes32, redemptionWindow: nat, replayWindow: nat, maxReplayCacheSize: nat)
      ensures Valid() && nonceEntries == []
      ensures fresh(origin) && origin.Valid() && origin.sha256 == this.sha256 == sha256
      ensures TrustState() == TrustAfter([])
      ensures this.replayWindow == replayWindow && this.maxReplayCacheSize == maxReplayCacheSize
    {
      this.sha256 := sha256;
      origin := new Origins.PublicOrigin(issuerName, originNames, requireRedemptionContext, sha256, redemptionWindow,
                                         DEFAULT_MAX_SIZE);
      this.replayWindow, this.maxReplayCacheSize := replayWindow, maxReplayCacheSize;
      rsaKeys, voprfKeys := map[], map[];
      redeemedNonces, nonceEntries := {}, [];
    }

    // the key goes to the origin first and then to the issuer's table
    method AddTrustedRsaKey(issuer: string, key: Origins.IssuerKey)
      requires origin.Valid()
      modifies this`rsaKeys, origin
      ensures origin.Valid() && TrustState() == ApplyTrust(old(TrustState()), AddRsa(issuer, key))
    {
      hide Origins.Index.Add, Origins.Index.Valid;
      origin.AddIssuerKey(key);
      if issuer in rsaKeys {
        rsaKeys := rsaKeys[issuer := rsaKeys[issuer] + [key]];
      } else {
        rsaKeys := rsaKeys[issuer := [key]];
        assert [key] == [] + [key];
      }
    }

    method AddTrustedVoprfKey(issuer: string, publicKey: Bytes)
      modifies this`voprfKeys
      ensures TrustState() == ApplyTrust(old(TrustState()), AddVoprf(issuer, publicKey))
    {
      if issuer in voprfKeys {
        voprfKeys := voprfKeys[issuer := voprfKeys[issuer] + [publicKey]];
      } else {
        voprfKeys := voprfKeys[issuer := [publicKey]];
        assert [publicKey] == [] + [publicKey];
      }
    }

    method RemoveTrustedIssuer(issuer: string)
      modifies this`rsaKeys, this`voprfKeys
      ensures TrustState() == ApplyTrust(old(TrustState()), RemoveIssuer(issuer))
    {
      if issuer in rsaKeys {
        rsaKeys := rsaKeys - {issuer};
      }
      if issuer in voprfKeys {
        voprfKeys := voprfKeys - {issuer};
      }
    }

    method IsTrusted(issuer: string) returns (trusted: bool)
      ensures trusted == TrustState().Trusted(issuer)
    {
      trusted := issuer in rsaKeys || issuer in voprfKeys;
    }

    // what the checks say of a token, by the origin's keys alone
    ghost function Checked(token: Token, challenge: TokenChallenge): Result<Bytes32>
      reads origin
    {
      var digest := Digest(challenge, sha256);
      Check(token, digest, Origins.Verified(token, digest, Origins.KeyOf(origin.KeyIndex(), token.tokenKeyId)))
    }

    method DropFront()
      requires Valid() && nonceEntries != []
      modifies this`redeemedNonces, this`nonceEntries
      ensures Valid() && nonceEntries == old(nonceEntries)[1..]
    {
      SuffixWellFormed(nonceEntries, 1, Capacity(maxReplayCacheSize));
      RemoveFirst(nonceEntries);
      redeemedNonces := redeemedNonces - {nonceEntries[0].nonce};
      nonceEntries := nonceEntries[1..];
    }

    method PruneExpired(now: int)
      requires Valid()
      modifies this`redeemedNonces, this`nonceEntries
      ensures Valid() && nonceEntries == Expire(old(nonceEntries), now - replayWindow)
    {
      var cutoff := now - replayWindow;
      while nonceEntries != [] && nonceEntries[0].time < cutoff
        invariant Valid() && Expire(nonceEntries, cutoff) == Expire(old(nonceEntries), cutoff)
        decreases |nonceEntries|
      {
        DropFront();
      }
    }

    // make room for one more entry
    method DropToCapacity()
      requires Valid()
      modifies this`redeemedNonces, this`nonceEntries
      ensures Valid() && nonceEntries == Trim(old(nonceEntries), Capacity(maxReplayCacheSize))
    {
      var maxSize := Capacity(maxReplayCacheSize);
      SizeOfNonces(nonceEntries);
      while |redeemedNonces| >= maxSize && nonceEntries != []
        invariant Valid() && |redeemedNonces| == |nonceEntries|
        invariant Trim(nonceEntries, maxSize) == Trim(old(nonceEntries), maxSize)
        decreases |nonceEntries|
      {
        DropFront();
        SizeOfNonces(nonceEntries);
      }
    }

    method CheckAndAddNonce(nonce: Bytes32, now: int) returns (added: bool)
      requires Valid() && NotAfter(nonceEntries, now)
      modifies this`redeemedNonces, this`nonceEntries
      ensures Valid() && NotAfter(nonceEntries, now)
      ensures (nonceEntries, added)
           == AddNonce(old(nonceEntries), nonce, now, replayWindow, Capacity(maxReplayCacheSize))
    {
      hide Expire, Trim, WellFormed, Capacity;
      AddKeepsWellFormed(nonceEntries, nonce, now, replayWindow, Capacity(maxReplayCacheSize));
      PruneExpired(now);
      DropToCapacity();
      added := nonce !in redeemedNonces;
      if added {
        AddToNonces(nonceEntries, Entry(nonce, now));
        redeemedNonces := redeemedNonces + {nonce};
        nonceEntries := nonceEntries + [Entry(nonce, now)];
      }
    }

    method Validate(token: Token, challenge: TokenChallenge) returns (result: Result<Bytes32>)
      requires origin.Valid() && origin.sha256 == sha256
      ensures result == Checked(token, challenge)
    {
      hide Digest, PrintInput, Origins.KeyOf, Origins.Index.Valid;
      var valid := token.Validated();
      if valid.Err? {
        return Err(valid.error);
      }
      var expectedDigest := Digest(challenge, sha256);
      if expectedDigest.Err? {
        return Err(CRYPTO_ERROR);
      }
      if token.challengeDigest != expectedDigest.value {
        return Err(INVALID_CHALLENGE);
      }
      // the origin only has keys for RSA types
      if !IsRsa(token.tokenType) {
        return Err(UNSUPPORTED_TOKEN_TYPE);
      }
      var verified := origin.Verify(token, challenge);
      if verified.Err? {
        return Err(verified.error);
      }
      if !verified.value {
        return Err(TOKEN_INVALID);
      }
      result := expectedDigest;
    }

    method ValidateAndRedeem(token: Token, challenge: TokenChallenge, now: int) returns (result: Result<Bytes32>)
      requires Valid() && NotAfter(nonceEntries, now) && origin.Valid() && origin.sha256 == sha256
      modifies this`redeemedNonces, this`nonceEntries
      ensures Valid() && NotAfter(nonceEntries, now)
      ensures (nonceEntries, result)
           == Redeem(old(nonceEntries), token.nonce, Checked(token, challenge), now, replayWindow,
                     Capacity(maxReplayCacheSize))
    {
      hide Check, WellFormed, Capacity, Origins.Verified, Origins.KeyOf, Origins.Index.Valid;
      if token.nonce in redeemedNonces {
        return Err(TOKEN_REPLAYED);
      }
      result := Validate(token, challenge);
      if result.Err? {
        return;
      }
      AbsentIsAdded(nonceEntries, token.nonce, now, replayWindow, Capacity(maxReplayCacheSize));
      var added := CheckAndAddNonce(token.nonce, now);
      if !added {
        // the source reports a race here; no run gets this far
        assert false;
      }
    }

    method WouldBeReplay(token: Token) returns (replay: bool)
      requires Valid()
      ensures replay == Seen(nonceEntries, token.nonce)
    {
      replay := token.nonce in redeemedNonces;
    }

    method MarkRedeemed(token: Token, now: int)
      requires Valid() && NotAfter(nonceEntries, now)
      modifies this`redeemedNonces, this`nonceEntries
      ensures Valid() && NotAfter(nonceEntries, now)
      ensures nonceEntries
           == AddNonce(old(nonceEntries), token.nonce, now, replayWindow, Capacity(maxReplayCacheSize)).0
    {
      var _ := CheckAndAddNonce(token.nonce, now);
    }

    method RedemptionCacheSize() returns (n: nat)
      requires Valid()
      ensures n == |nonceEntries|
    {
      SizeOfNonces(nonceEntries);
      n := |redeemedNonces|;
    }
  }

  // ---- challenges: what the caller adds comes before the configured names

  method CreateChallenge(tokenType: TokenType, issuerName: string, redemptionContext: Option<Bytes32>,
                         additionalOriginInfo: seq<string>, originNames: seq<string>) returns (c: TokenChallenge)
    ensures c == TokenChallenge(tokenType, issuerName, redemptionContext, additionalOriginInfo + originNames)
  {
    var originInfo := additionalOriginInfo;
    for i := 0 to |originNames|
      invariant originInfo == additionalOriginInfo + originNames[..i]
    {
      originInfo := originInfo + [originNames[i]];
      assert originNames[..i + 1] == originNames[..i] + [originNames[i]];
    }
    assert originNames[..|originNames|] == originNames;
    c := TokenChallenge(tokenType, issuerName, redemptionContext, originInfo);
  }
}
