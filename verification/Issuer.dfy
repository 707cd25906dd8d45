// Issuers with one key and with many: src/core/issuer.cpp.
module Issuers {
  import opened Types
  import opened TokenRequests
  import opened TokenResponses

  // a key with its identifier, and what it answers to a blinded message
  datatype PublicIssuer = PublicIssuer(keyId: Bytes32, blindSign: Bytes -> Result<Bytes>)
  datatype PrivateIssuer = PrivateIssuer(keyId: Bytes32, blindEvaluate: Bytes -> Result<(Bytes, Bytes)>)

  function IssuePublic(i: PublicIssuer, request: TokenRequest): Result<TokenResponse> {
    if !IsRsa(request.tokenType) then Err(UNSUPPORTED_TOKEN_TYPE)
    else if request.truncatedTokenKeyId != LastByte(i.keyId) then Err(ISSUER_UNKNOWN)
    else
      var blindSig :- i.blindSign(request.blindedMsg);
      Ok(TokenResponse(BLIND_RSA, BlindRsa(blindSig)))
  }

  function IssuePrivate(i: PrivateIssuer, request: TokenRequest): Result<TokenResponse> {
    if request.tokenType != VOPRF_P384_SHA384 then Err(UNSUPPORTED_TOKEN_TYPE)
    else if request.truncatedTokenKeyId != LastByte(i.keyId) then Err(ISSUER_UNKNOWN)
    else
      var evaluation :- i.blindEvaluate(request.blindedMsg);
      Ok(TokenResponse(VOPRF_P384_SHA384, Voprf(evaluation.0, evaluation.1)))
  }

  // ---- many keys, as a flat list in order of addition

  // order holds the identifiers added and not removed since, keys the latest issuer for each
  datatype Flat<!K> = Flat(order: seq<Bytes32>, keys: map<Bytes32, K>) {
    function Add(id: Bytes32, key: K): Flat<K> { Flat(order + [id], keys[id := key]) }

    function Remove(last: byte): Flat<K> {
      Flat(Without(order, last), map id | id in keys && LastByte(id) != last :: keys[id])
    }
  }

  function With(order: seq<Bytes32>, last: byte): seq<Bytes32> {
    if order == [] then []
    else (if LastByte(order[0]) == last then [order[0]] else []) + With(order[1..], last)
  }

  function Without(order: seq<Bytes32>, last: byte): seq<Bytes32> {
    if order == [] then []
    else (if LastByte(order[0]) != last then [order[0]] else []) + Without(order[1..], last)
  }

  // the first answer among the keys tried in order
  function FirstAnswer<K>(ids: seq<Bytes32>, keys: map<Bytes32, K>,
                          issue: K -> Result<TokenResponse>): Result<TokenResponse> {
    if ids == [] then Err(ISSUER_UNKNOWN)
    else if ids[0] in keys && issue(keys[ids[0]]).Ok? then issue(keys[ids[0]])
    else FirstAnswer(ids[1..], keys, issue)
  }

  function IssueFlat(rsa: Flat<PublicIssuer>, voprf: Flat<PrivateIssuer>,
                     request: TokenRequest): Result<TokenResponse> {
    if IsRsa(request.tokenType) then FirstAnswer(rsa.order, rsa.keys, (i: PublicIssuer) => IssuePublic(i, request))
    else if request.tokenType == VOPRF_P384_SHA384 then
      FirstAnswer(voprf.order, voprf.keys, (i: PrivateIssuer) => IssuePrivate(i, request))
    else Err(UNSUPPORTED_TOKEN_TYPE)
  }

  // ---- the two-level index and the list it stands for

  function Bucket(byLast: map<byte, seq<Bytes32>>, last: byte): seq<Bytes32> {
    if last in byLast then byLast[last] else []
  }

  ghost predicate Represents<K>(flat: Flat<K>, byLast: map<byte, seq<Bytes32>>) {
    && (forall last: byte :: Bucket(byLast, last) == With(flat.order, last))
    && (forall id: Bytes32 :: id in flat.order <==> id in flat.keys)
  }

  lemma {:induction false} WithAppend(order: seq<Bytes32>, id: Bytes32, last: byte)
    ensures With(order + [id], last) == With(order, last) + if LastByte(id) == last then [id] else []
  {
    if order == [] {
      assert (order + [id])[1..] == [];
    } else {
      assert (order + [id])[1..] == order[1..] + [id];
      WithAppend(order[1..], id, last);
    }
  }

  lemma {:induction false} WithWithout(order: seq<Bytes32>, last: byte, other: byte)
    ensures With(Without(order, last), other) == if other == last then [] else With(order, other)
  {
    if order != [] {
      WithWithout(order[1..], last, other);
      if LastByte(order[0]) != last {
        assert Without(order, last)[1..] == Without(order[1..], last);
      } else {
        assert Without(order, last) == Without(order[1..], last);
      }
    }
  }

  lemma {:induction false} WithoutHas(order: seq<Bytes32>, last: byte, id: Bytes32)
    ensures id in Without(order, last) <==> id in order && LastByte(id) != last
  {
    if order != [] {
      WithoutHas(order[1..], last, id);
    }
  }

  lemma {:induction false} WithHas(order: seq<Bytes32>, last: byte, id: Bytes32)
    ensures id in With(order, last) <==> id in order && LastByte(id) == last
  {
    if order != [] {
      WithHas(order[1..], last, id);
    }
  }

  lemma AddKept<K>(flat: Flat<K>, byLast: map<byte, seq<Bytes32>>, id: Bytes32, key: K)
    requires Represents(flat, byLast)
    ensures Represents(flat.Add(id, key), byLast[LastByte(id) := Bucket(byLast, LastByte(id)) + [id]])
  {
    var byLast' := byLast[LastByte(id) := Bucket(byLast, LastByte(id)) + [id]];
    forall last: byte ensures Bucket(byLast', last) == With(flat.Add(id, key).order, last) {
      WithAppend(flat.order, id, last);
      assert Bucket(byLast, last) == With(flat.order, last);
    }
  }

  // erasing the listed keys of a bucket removes exactly the keys with that byte
  lemma RemoveKept<K>(flat: Flat<K>, byLast: map<byte, seq<Bytes32>>, last: byte)
    requires Represents(flat, byLast)
    ensures Represents(flat.Remove(last), byLast - {last})
    ensures flat.Remove(last).keys == map id | id in flat.keys && id !in Bucket(byLast, last) :: flat.keys[id]
    ensures last !in byLast ==> byLast - {last} == byLast && flat.Remove(last).keys == flat.keys
    ensures forall id: Bytes32 :: id in Bucket(byLast, last) <==> id in flat.keys && LastByte(id) == last
  {
    hide LastByte, With, Without;
    forall other: byte ensures Bucket(byLast - {last}, other) == With(flat.Remove(last).order, other) {
      WithWithout(flat.order, last, other);
      assert Bucket(byLast, other) == With(flat.order, other);
    }
    forall id: Bytes32
      ensures id in flat.Remove(last).order <==> id in flat.Remove(last).keys
      ensures id in Bucket(byLast, last) <==> id in flat.keys && LastByte(id) == last
    {
      WithoutHas(flat.order, last, id);
      WithHas(flat.order, last, id);
    }
  }

  // keys with another last byte never answer, so trying a bucket is trying them all
  lemma {:induction false} BucketSuffices<K>(order: seq<Bytes32>, keys: map<Bytes32, K>,
                                             issue: K -> Result<TokenResponse>, last: byte)
    requires forall id | id in keys && LastByte(id) != last :: issue(keys[id]).Err?
    ensures FirstAnswer(With(order, last), keys, issue) == FirstAnswer(order, keys, issue)
  {
    if order != [] {
      BucketSuffices(order[1..], keys, issue, last);
      if LastByte(order[0]) == last {
        assert With(order, last)[1..] == With(order[1..], last);
      } else {
        assert With(order, last) == With(order[1..], last);
      }
    }
  }

  // the answer is that of some key tried, and there is one as soon as some key has one
  lemma {:induction false} FirstAnswerSpec<K>(ids: seq<Bytes32>, keys: map<Bytes32, K>,
                                              issue: K -> Result<TokenResponse>)
    ensures FirstAnswer(ids, keys, issue).Ok? <==> exists id :: id in ids && id in keys && issue(keys[id]).Ok?
    ensures FirstAnswer(ids, keys, issue).Ok? ==>
              exists id :: id in ids && id in keys && issue(keys[id]) == FirstAnswer(ids, keys, issue)
    ensures FirstAnswer(ids, keys, issue).Err? ==> FirstAnswer(ids, keys, issue) == Err(ISSUER_UNKNOWN)
  {
    if ids != [] {
      FirstAnswerSpec(ids[1..], keys, issue);
      assert ids[0] in ids;
    }
  }

  // the key at position i can answer and no live one listed earlier can
  ghost predicate AnswersAt<K>(ids: seq<Bytes32>, i: nat, keys: map<Bytes32, K>, issue: K -> Result<TokenResponse>) {
    && i < |ids| && ids[i] in keys && issue(keys[ids[i]]).Ok?
    && forall j | 0 <= j < i && ids[j] in keys :: issue(keys[ids[j]]).Err?
  }

  lemma {:induction false} FirstAnswerAt<K>(ids: seq<Bytes32>, i: nat, keys: map<Bytes32, K>,
                                            issue: K -> Result<TokenResponse>)
    requires AnswersAt(ids, i, keys, issue)
    ensures FirstAnswer(ids, keys, issue) == issue(keys[ids[i]])
  {
    if i > 0 {
      assert forall j | 0 <= j < i - 1 && ids[1..][j] in keys :: ids[1..][j] == ids[j + 1];
      FirstAnswerAt(ids[1..], i - 1, keys, issue);
    }
  }

  lemma {:induction false} AnswerIndex<K>(ids: seq<Bytes32>, keys: map<Bytes32, K>,
                                          issue: K -> Result<TokenResponse>) returns (i: nat)
    requires exists id :: id in ids && id in keys && issue(keys[id]).Ok?
    ensures AnswersAt(ids, i, keys, issue)
  {
    if ids[0] in keys && issue(keys[ids[0]]).Ok? {
      i := 0;
    } else {
      i := AnswerIndex(ids[1..], keys, issue);
      i := i + 1;
      assert forall j | 0 < j < i :: ids[1..][j - 1] == ids[j];
    }
  }

  ghost predicate OwnIds(rsa: map<Bytes32, PublicIssuer>, voprf: map<Bytes32, PrivateIssuer>) {
    && (forall id | id in rsa :: rsa[id].keyId == id)
    && (forall id | id in voprf :: voprf[id].keyId == id)
  }

  // some live key of the request's kind, with the request's byte, can answer it
  ghost predicate CanIssue(rsa: map<Bytes32, PublicIssuer>, voprf: map<Bytes32, PrivateIssuer>, request: TokenRequest) {
    if IsRsa(request.tokenType) then
      exists id :: id in rsa && LastByte(id) == request.truncatedTokenKeyId && rsa[id].blindSign(request.blindedMsg).Ok?
    else
      && request.tokenType == VOPRF_P384_SHA384
      && exists id ::
        id in voprf && LastByte(id) == request.truncatedTokenKeyId && voprf[id].blindEvaluate(request.blindedMsg).Ok?
  }

  // Issuing succeeds exactly when some live key can answer; otherwise the key or the type is unknown.
  lemma IssueSpec(rsa: Flat<PublicIssuer>, voprf: Flat<PrivateIssuer>, rsaByLast: map<byte, seq<Bytes32>>,
                  voprfByLast: map<byte, seq<Bytes32>>, request: TokenRequest)
    requires Represents(rsa, rsaByLast) && Represents(voprf, voprfByLast) && OwnIds(rsa.keys, voprf.keys)
    ensures IssueFlat(rsa, voprf, request).Ok? <==> CanIssue(rsa.keys, voprf.keys, request)
    ensures
      var known := IsRsa(request.tokenType) || request.tokenType == VOPRF_P384_SHA384;
      IssueFlat(rsa, voprf, request).Err? ==>
        IssueFlat(rsa, voprf, request) == Err(if known then ISSUER_UNKNOWN else UNSUPPORTED_TOKEN_TYPE)
  {
    if IsRsa(request.tokenType) {
      FirstAnswerSpec(rsa.order, rsa.keys, (i: PublicIssuer) => IssuePublic(i, request));
    } else if request.tokenType == VOPRF_P384_SHA384 {
      FirstAnswerSpec(voprf.order, voprf.keys, (i: PrivateIssuer) => IssuePrivate(i, request));
    }
  }

  // the key at position i is the first live one with the request's byte that signs
  ghost predicate FirstSigner(rsa: Flat<PublicIssuer>, request: TokenRequest, i: nat) {
    AnswersAt(rsa.order, i, rsa.keys, (issuer: PublicIssuer) => IssuePublic(issuer, request))
  }

  ghost predicate FirstEvaluator(voprf: Flat<PrivateIssuer>, request: TokenRequest, i: nat) {
    AnswersAt(voprf.order, i, voprf.keys, (issuer: PrivateIssuer) => IssuePrivate(issuer, request))
  }

  // Of all live keys with the request's byte the first listed that can answers, whichever the client meant.
  lemma IssuedByFirst(rsa: Flat<PublicIssuer>, voprf: Flat<PrivateIssuer>, request: TokenRequest, i: nat)
    ensures IsRsa(request.tokenType) && FirstSigner(rsa, request, i) ==>
              && LastByte(rsa.keys[rsa.order[i]].keyId) == request.truncatedTokenKeyId
              && var blindSig := rsa.keys[rsa.order[i]].blindSign(request.blindedMsg);
              blindSig.Ok? && IssueFlat(rsa, voprf, request) == Ok(TokenResponse(BLIND_RSA, BlindRsa(blindSig.value)))
    ensures request.tokenType == VOPRF_P384_SHA384 && FirstEvaluator(voprf, request, i) ==>
              && LastByte(voprf.keys[voprf.order[i]].keyId) == request.truncatedTokenKeyId
              && var evaluation := voprf.keys[voprf.order[i]].blindEvaluate(request.blindedMsg);
              && evaluation.Ok?
              && IssueFlat(rsa, voprf, request)
                 == Ok(TokenResponse(VOPRF_P384_SHA384, Voprf(evaluation.value.0, evaluation.value.1)))
  {
    if IsRsa(request.tokenType) && FirstSigner(rsa, request, i) {
      FirstAnswerAt(rsa.order, i, rsa.keys, (issuer: PublicIssuer) => IssuePublic(issuer, request));
    }
    if request.tokenType == VOPRF_P384_SHA384 && FirstEvaluator(voprf, request, i) {
      FirstAnswerAt(voprf.order, i, voprf.keys, (issuer: PrivateIssuer) => IssuePrivate(issuer, request));
    }
  }

  class MultiKeyIssuer {
    var rsaIssuers: map<Bytes32, PublicIssuer>
    var voprfIssuers: map<Bytes32, PrivateIssuer>
    var rsaKeysByTruncatedId: map<byte, seq<Bytes32>>
    var voprfKeysByTruncatedId: map<byte, seq<Bytes32>>
    // the flat lists the index stands for
    ghost var rsa: Flat<PublicIssuer>
    ghost var voprf: Flat<PrivateIssuer>

    ghost predicate Valid()
      reads this
    {
      && rsa.keys == rsaIssuers && voprf.keys == voprfIssuers
      && Represents(rsa, rsaKeysByTruncatedId) && Represents(voprf, voprfKeysByTruncatedId)
      && OwnIds(rsaIssuers, voprfIssuers)
    }

    constructor ()
      ensures Valid() && rsa == Flat([], map[]) && voprf == Flat([], map[])
    {
      rsaIssuers, voprfIssuers, rsaKeysByTruncatedId, voprfKeysByTruncatedId := map[], map[], map[], map[];
      rsa, voprf := Flat([], map[]), Flat([], map[]);
    }

    method AddBlindRsaKey(issuer: PublicIssuer)
      requires Valid()
      modifies this
      ensures Valid() && rsa == old(rsa).Add(issuer.keyId, issuer) && voprf == old(voprf)
    {
      hide LastByte;
      var keyId := issuer.keyId;
      var truncatedId := LastByte(keyId);
      AddKept(rsa, rsaKeysByTruncatedId, keyId, issuer);
      rsa := rsa.Add(keyId, issuer);
      rsaIssuers := rsaIssuers[keyId := issuer];
      rsaKeysByTruncatedId := rsaKeysByTruncatedId[truncatedId := Bucket(rsaKeysByTruncatedId, truncatedId) + [keyId]];
    }

    method AddVoprfKey(issuer: PrivateIssuer)
      requires Valid()
      modifies this
      ensures Valid() && voprf == old(voprf).Add(issuer.keyId, issuer) && rsa == old(rsa)
    {
      hide LastByte;
      var keyId := issuer.keyId;
      var truncatedId := LastByte(keyId);
      AddKept(voprf, voprfKeysByTruncatedId, keyId, issuer);
      voprf := voprf.Add(keyId, issuer);
      voprfIssuers := voprfIssuers[keyId := issuer];
      var bucket := Bucket(voprfKeysByTruncatedId, truncatedId) + [keyId];
      voprfKeysByTruncatedId := voprfKeysByTruncatedId[truncatedId := bucket];
    }

    method RemoveKey(truncatedKeyId: byte)
      requires Valid()
      modifies this
      ensures Valid() && rsa == old(rsa).Remove(truncatedKeyId) && voprf == old(voprf).Remove(truncatedKeyId)
    {
      hide LastByte, Represents, Flat.Remove;
      RemoveKept(rsa, rsaKeysByTruncatedId, truncatedKeyId);
      RemoveKept(voprf, voprfKeysByTruncatedId, truncatedKeyId);
      if truncatedKeyId in rsaKeysByTruncatedId {
        rsaIssuers := EraseAll(rsaIssuers, rsaKeysByTruncatedId[truncatedKeyId]);
        rsaKeysByTruncatedId := rsaKeysByTruncatedId - {truncatedKeyId};
      }
      if truncatedKeyId in voprfKeysByTruncatedId {
        voprfIssuers := EraseAll(voprfIssuers, voprfKeysByTruncatedId[truncatedKeyId]);
        voprfKeysByTruncatedId := voprfKeysByTruncatedId - {truncatedKeyId};
      }
      rsa, voprf := rsa.Remove(truncatedKeyId), voprf.Remove(truncatedKeyId);
    }

    method Issue(request: TokenRequest) returns (r: Result<TokenResponse>)
      requires Valid()
      ensures r == IssueFlat(rsa, voprf, request)
    {
      var last := request.truncatedTokenKeyId;
      if IsRsa(request.tokenType) {
        ghost var issue := (i: PublicIssuer) => IssuePublic(i, request);
        BucketSuffices(rsa.order, rsa.keys, issue, last);
        if last !in rsaKeysByTruncatedId || rsaKeysByTruncatedId[last] == [] {
          return Err(ISSUER_UNKNOWN);
        }
        var ids := rsaKeysByTruncatedId[last];
        for i := 0 to |ids|
          invariant FirstAnswer(ids, rsaIssuers, issue) == FirstAnswer(ids[i..], rsaIssuers, issue)
        {
          if ids[i] in rsaIssuers {
            var result := IssuePublic(rsaIssuers[ids[i]], request);
            if result.Ok? {
              return result;
            }
          }
        }
        return Err(ISSUER_UNKNOWN);
      } else if request.tokenType == VOPRF_P384_SHA384 {
        ghost var issue := (i: PrivateIssuer) => IssuePrivate(i, request);
        BucketSuffices(voprf.order, voprf.keys, issue, last);
        if last !in voprfKeysByTruncatedId || voprfKeysByTruncatedId[last] == [] {
          return Err(ISSUER_UNKNOWN);
        }
        var ids := voprfKeysByTruncatedId[last];
        for i := 0 to |ids|
          invariant FirstAnswer(ids, voprfIssuers, issue) == FirstAnswer(ids[i..], voprfIssuers, issue)
        {
          if ids[i] in voprfIssuers {
            var result := IssuePrivate(voprfIssuers[ids[i]], request);
            if result.Ok? {
              return result;
            }
          }
        }
        return Err(ISSUER_UNKNOWN);
      }
      r := Err(UNSUPPORTED_TOKEN_TYPE);
    }
  }

  method EraseAll<K>(issuers: map<Bytes32, K>, ids: seq<Bytes32>) returns (left: map<Bytes32, K>)
    ensures left == map id | id in issuers && id !in ids :: issuers[id]
  {
    left := issuers;
    for i := 0 to |ids|
      invariant left == map id | id in issuers && id !in ids[..i] :: issuers[id]
    {
      left := left - {ids[i]};
      assert ids[..i + 1] == ids[..i] + [ids[i]];
    }
    assert ids[..|ids|] == ids;
  }

  // ---- whole runs, for the keys of either kind

  datatype KeyOperation<!K> = AddKey(id: Bytes32, key: K) | RemoveByte(last: byte)

  // the flat list after the operations
  function Run<K>(operations: seq<KeyOperation<K>>): Flat<K> {
    if operations == [] then Flat([], map[])
    else
      var before := Run(operations[..|operations| - 1]);
      match operations[|operations| - 1]
      case AddKey(id, key) => before.Add(id, key)
      case RemoveByte(last) => before.Remove(last)
  }

  // operation i is the last to add this key, and its byte was not removed since
  ghost predicate Latest<K>(operations: seq<KeyOperation<K>>, i: nat, id: Bytes32) {
    && i < |operations| && operations[i].AddKey? && operations[i].id == id
    && forall j | i < j < |operations| :: !Touches(operations[j], id)
  }

  predicate Touches<K>(operation: KeyOperation<K>, id: Bytes32) {
    match operation
    case AddKey(added, _) => added == id
    case RemoveByte(last) => last == LastByte(id)
  }

  lemma RunStep<K>(operations: seq<KeyOperation<K>>, id: Bytes32)
    requires operations != []
    ensures var n := |operations| - 1;
            var before, after := Run(operations[..n]).keys, Run(operations).keys;
            if !Touches(operations[n], id) then
              (id in after <==> id in before) && (id in after ==> after[id] == before[id])
            else if operations[n].AddKey? then id in after && after[id] == operations[n].key
            else id !in after
  {
    hide LastByte, Without;
  }

  lemma {:induction false} LatestIsLive<K>(operations: seq<KeyOperation<K>>, i: nat, id: Bytes32)
    requires Latest(operations, i, id)
    ensures id in Run(operations).keys && Run(operations).keys[id] == operations[i].key
  {
    hide Run, Touches;
    var n := |operations| - 1;
    RunStep(operations, id);
    if i < n {
      assert Latest(operations[..n], i, id);
      LatestIsLive(operations[..n], i, id);
    } else {
      AddTouches(operations[n]);
    }
  }

  lemma AddTouches<K>(operation: KeyOperation<K>)
    requires operation.AddKey?
    ensures Touches(operation, operation.id)
  {
  }

  lemma {:induction false} LiveHasLatest<K>(operations: seq<KeyOperation<K>>, id: Bytes32) returns (i: nat)
    requires id in Run(operations).keys
    ensures Latest(operations, i, id)
  {
    var n := |operations| - 1;
    RunStep(operations, id);
    if Touches(operations[n], id) {
      i := n;
    } else {
      i := LiveHasLatest(operations[..n], id);
      assert forall j | i < j < n :: operations[j] == operations[..n][j];
    }
  }

  // A key is live exactly when it was added and its last byte not removed since, and then in its latest version.
  lemma LiveKeys<K>(operations: seq<KeyOperation<K>>, id: Bytes32)
    ensures id in Run(operations).keys <==> exists i: nat :: Latest(operations, i, id)
    ensures forall i: nat :: Latest(operations, i, id) ==>
              id in Run(operations).keys && Run(operations).keys[id] == operations[i].key
  {
    hide Run, Touches;
    forall i: nat | Latest(operations, i, id)
      ensures id in Run(operations).keys && Run(operations).keys[id] == operations[i].key
    {
      LatestIsLive(operations, i, id);
    }
    if id in Run(operations).keys {
      var i := LiveHasLatest(operations, id);
    }
  }

  // ---- batches

  function IssueOptional(i: PublicIssuer, request: TokenRequest): OptionalTokenResponse {
    match IssuePublic(i, request)
    case Ok(response) => OptionalTokenResponse(true, Some(response))
    case Err(_) => ABSENT
  }

  // one answer for every request, in order
  method IssueBatch(issuer: PublicIssuer, requests: seq<TokenRequest>) returns (responses: seq<OptionalTokenResponse>)
    ensures |responses| == |requests|
    ensures forall k | 0 <= k < |requests| :: responses[k] == IssueOptional(issuer, requests[k])
  {
    responses := [];
    for k := 0 to |requests|
      invariant |responses| == k && forall j | 0 <= j < k :: responses[j] == IssueOptional(issuer, requests[j])
    {
      var response := IssuePublic(issuer, requests[k]);
      var optional := ABSENT;
      if response.Ok? {
        optional := OptionalTokenResponse(true, Some(response.value));
      }
      responses := responses + [optional];
    }
  }
}
