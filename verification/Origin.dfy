// Origins that verify tokens of publicly known keys: PublicOrigin in src/core/origin.cpp.
module PublicOrigins {
  import opened Types
  import opened Tokens
  import opened TokenChallenges
  import opened ReplayCache

  // a key with its identifier, and how it judges a message and a signature
  datatype IssuerKey = IssuerKey(keyId: Bytes32, verify: (Bytes, Bytes) -> Result<bool>)

  // ---- the key index

  // keys are never taken out of the list; an index of them is live while byFull points at it
  datatype Index = Index(keys: seq<IssuerKey>, byTruncated: map<byte, seq<nat>>, byFull: map<Bytes32, nat>) {
    function Bucket(last: byte): seq<nat> { if last in byTruncated then byTruncated[last] else [] }

    function Add(key: IssuerKey): Index {
      var last, index := LastByte(key.keyId), |keys|;
      Index(keys + [key], byTruncated[last := Bucket(last) + [index]], byFull[key.keyId := index])
    }

    function Remove(id: Bytes32): Index {
      if id !in byFull then this
      else
        var last := LastByte(id);
        var bucket := Drop(Bucket(last), byFull[id]);
        Index(keys, if bucket == [] then byTruncated - {last} else byTruncated[last := bucket], byFull - {id})
    }

    // an identifier points at a key that has it
    ghost predicate FullPoints() { forall id | id in byFull :: byFull[id] < |keys| && keys[byFull[id]].keyId == id }

    // an index is listed under its key's last byte
    ghost predicate RightAt(last: byte, i: nat) { i in Bucket(last) ==> i < |keys| && LastByte(keys[i].keyId) == last }

    ghost predicate ListedRightly() { forall last: byte, i: nat :: RightAt(last, i) }

    // what an identifier points at is listed
    ghost predicate FullListed() { forall id | id in byFull :: byFull[id] in Bucket(LastByte(id)) }

    ghost predicate Valid() { FullPoints() && ListedRightly() && FullListed() }

    ghost predicate Current(i: nat)
      requires i < |keys|
    {
      keys[i].keyId in byFull && byFull[keys[i].keyId] == i
    }

    // listed, though its key's identifier points elsewhere or nowhere
    ghost predicate Stale(i: nat) { i < |keys| && i in Bucket(LastByte(keys[i].keyId)) && !Current(i) }
  }

  const NO_KEYS := Index([], map[], map[])

  function Drop(bucket: seq<nat>, index: nat): (r: seq<nat>)
    ensures forall i :: i in r <==> i in bucket && i != index
  {
    if bucket == [] then []
    else (if bucket[0] == index then [] else [bucket[0]]) + Drop(bucket[1..], index)
  }

  datatype KeyOp = Add(key: IssuerKey) | Remove(id: Bytes32)

  function Apply(index: Index, op: KeyOp): Index {
    match op
    case Add(key) => index.Add(key)
    case Remove(id) => index.Remove(id)
  }

  function IndexAfter(ops: seq<KeyOp>): Index {
    if ops == [] then NO_KEYS else Apply(IndexAfter(ops[..|ops| - 1]), ops[|ops| - 1])
  }

  // i is listed under this byte after the operation
  ghost predicate Listed(index: Index, op: KeyOp, last: byte, i: nat) {
    match op
    case Add(key) => i in index.Bucket(last) || (last == LastByte(key.keyId) && i == |index.keys|)
    case Remove(id) => i in index.Bucket(last) && !(id in index.byFull && i == index.byFull[id] && last == LastByte(id))
  }

  lemma ApplyBuckets(index: Index, op: KeyOp, last: byte)
    ensures forall i: nat :: i in Apply(index, op).Bucket(last) <==> Listed(index, op, last, i)
  {
    hide LastByte;
  }

  lemma ApplyValid(index: Index, op: KeyOp)
    requires index.Valid()
    ensures Apply(index, op).Valid()
  {
    hide LastByte, Index.Bucket;
    ApplyPoints(index, op);
    ApplyListed(index, op);
    ApplyFull(index, op);
  }

  lemma ApplyListed(index: Index, op: KeyOp)
    requires index.Valid()
    ensures Apply(index, op).ListedRightly()
  {
    hide LastByte, Index.Bucket, Drop;
    var next := Apply(index, op);
    forall last: byte, i: nat ensures next.RightAt(last, i) {
      ApplyBuckets(index, op, last);
      assert index.RightAt(last, i) && (i in next.Bucket(last) <==> Listed(index, op, last, i));
    }
  }

  lemma ApplyFull(index: Index, op: KeyOp)
    requires index.Valid()
    ensures Apply(index, op).FullListed()
  {
    hide LastByte, Index.Bucket, Drop;
    var next := Apply(index, op);
    forall id | id in next.byFull ensures next.byFull[id] in next.Bucket(LastByte(id)) {
      ApplyBuckets(index, op, LastByte(id));
      if id in index.byFull {
        assert index.byFull[id] in index.Bucket(LastByte(id));
      }
    }
  }

  lemma ApplyPoints(index: Index, op: KeyOp)
    requires index.FullPoints()
    ensures Apply(index, op).FullPoints()
  {
    hide LastByte, Index.Bucket, Drop;
  }

  lemma {:induction false} AfterValid(ops: seq<KeyOp>)
    ensures IndexAfter(ops).Valid()
  {
    hide LastByte;
    if ops != [] {
      AfterValid(ops[..|ops| - 1]);
      ApplyValid(IndexAfter(ops[..|ops| - 1]), ops[|ops| - 1]);
    }
  }

  // ---- the identifier index points at the latest key that was not removed

  ghost predicate Latest(ops: seq<KeyOp>, n: nat, id: Bytes32) {
    && n < |ops| && ops[n].Add? && ops[n].key.keyId == id
    && forall m | n < m < |ops| :: ops[m] != Remove(id) && (ops[m].Add? ==> ops[m].key.keyId != id)
  }

  // the live key with this identifier
  function KeyOf(index: Index, id: Bytes32): Option<IssuerKey> {
    if id in index.byFull && index.byFull[id] < |index.keys| then Some(index.keys[index.byFull[id]]) else None
  }

  lemma KeyOfApply(index: Index, op: KeyOp, id: Bytes32)
    requires index.Valid()
    ensures KeyOf(Apply(index, op), id) == if op.Add? && op.key.keyId == id then Some(op.key)
                                           else if op == Remove(id) then None
                                           else KeyOf(index, id)
  {
    hide LastByte, Drop, Index.Bucket;
  }

  lemma {:induction false} LatestIsKey(ops: seq<KeyOp>, n: nat, id: Bytes32)
    requires Latest(ops, n, id)
    ensures KeyOf(IndexAfter(ops), id) == Some(ops[n].key)
  {
    hide KeyOf, Apply;
    var last := |ops| - 1;
    AfterValid(ops[..last]);
    KeyOfApply(IndexAfter(ops[..last]), ops[last], id);
    if n < last {
      LatestPrefix(ops, n, id);
      LatestIsKey(ops[..last], n, id);
    }
  }

  lemma {:induction false} KeyHasLatest(ops: seq<KeyOp>, id: Bytes32) returns (n: nat)
    requires KeyOf(IndexAfter(ops), id).Some?
    ensures Latest(ops, n, id)
  {
    var last := |ops| - 1;
    AfterValid(ops[..last]);
    KeyOfApply(IndexAfter(ops[..last]), ops[last], id);
    hide KeyOf, Apply;
    if ops[last].Add? && ops[last].key.keyId == id {
      n := last;
    } else {
      n := KeyHasLatest(ops[..last], id);
      LatestPrefix(ops, n, id);
    }
  }

  // A key can be found by its identifier exactly when it was added and not removed since; it is then the latest added.
  lemma LatestKey(ops: seq<KeyOp>, id: Bytes32)
    ensures KeyOf(IndexAfter(ops), id).Some? <==> exists n: nat :: Latest(ops, n, id)
    ensures forall n: nat :: Latest(ops, n, id) ==> KeyOf(IndexAfter(ops), id) == Some(ops[n].key)
  {
    hide KeyOf, IndexAfter;
    forall n: nat | Latest(ops, n, id) ensures KeyOf(IndexAfter(ops), id) == Some(ops[n].key) {
      LatestIsKey(ops, n, id);
    }
    if KeyOf(IndexAfter(ops), id).Some? {
      var n := KeyHasLatest(ops, id);
    }
  }

  lemma LatestPrefix(ops: seq<KeyOp>, m: nat, id: Bytes32)
    requires m < |ops| - 1
    ensures var n := |ops| - 1;
            Latest(ops, m, id)
            <==> Latest(ops[..n], m, id) && !(ops[n].Add? && ops[n].key.keyId == id) && ops[n] != Remove(id)
  {
    var n := |ops| - 1;
    assert forall k | 0 <= k < n :: ops[..n][k] == ops[k];
  }

  // ---- the byte index can list keys that are no longer reachable

  // operation n adds an identifier that is live
  ghost predicate Readds(ops: seq<KeyOp>, n: nat) {
    n < |ops| && ops[n].Add? && ops[n].key.keyId in IndexAfter(ops[..n]).byFull
  }

  lemma StaleStays(index: Index, op: KeyOp, i: nat)
    requires index.Valid() && index.Stale(i)
    ensures Apply(index, op).Stale(i)
  {
    hide LastByte, Drop, Index.Bucket;
    ApplyBuckets(index, op, LastByte(index.keys[i].keyId));
    assert Listed(index, op, LastByte(index.keys[i].keyId), i);
  }

  lemma ReaddMakesStale(index: Index, key: IssuerKey)
    requires index.Valid() && key.keyId in index.byFull
    ensures index.Add(key).Stale(index.byFull[key.keyId])
  {
    hide LastByte, Drop, Index.Bucket;
    var i, last := index.byFull[key.keyId], LastByte(key.keyId);
    ApplyBuckets(index, KeyOp.Add(key), last);
    assert Listed(index, KeyOp.Add(key), last, i);
  }

  lemma StaleOrigin(index: Index, op: KeyOp, i: nat)
    requires index.Valid() && Apply(index, op).Stale(i)
    ensures index.Stale(i) || (op.Add? && op.key.keyId in index.byFull)
  {
    hide LastByte, Drop, Index.Bucket;
    var next := Apply(index, op);
    var last := LastByte(next.keys[i].keyId);
    ApplyBuckets(index, op, last);
    assert Listed(index, op, last, i);
    assert index.RightAt(last, i);
  }

  ghost predicate SomeStale(index: Index) { exists i: nat :: index.Stale(i) }

  lemma StaleStep(index: Index, op: KeyOp)
    requires index.Valid()
    ensures SomeStale(Apply(index, op)) <==> SomeStale(index) || (op.Add? && op.key.keyId in index.byFull)
  {
    hide Apply, Index.Stale, Index.Valid;
    if i: nat :| index.Stale(i) {
      StaleStays(index, op, i);
    }
    if i: nat :| Apply(index, op).Stale(i) {
      StaleOrigin(index, op, i);
    }
    if op.Add? && op.key.keyId in index.byFull {
      ReaddMakesStale(index, op.key);
      ApplyAdd(index, op.key);
      assert Apply(index, op).Stale(index.byFull[op.key.keyId]);
    }
  }

  lemma ApplyAdd(index: Index, key: IssuerKey)
    ensures Apply(index, KeyOp.Add(key)) == index.Add(key)
  {
  }

  ghost predicate SomeReadd(ops: seq<KeyOp>) { exists n: nat :: Readds(ops, n) }

  lemma ReaddStep(ops: seq<KeyOp>)
    requires ops != []
    ensures var n := |ops| - 1; SomeReadd(ops) <==> SomeReadd(ops[..n]) || Readds(ops, n)
  {
    hide IndexAfter;
    var n := |ops| - 1;
    forall m: nat | m < n ensures Readds(ops, m) <==> Readds(ops[..n], m) {
      assert ops[..n][..m] == ops[..m];
    }
    if m: nat :| Readds(ops, m) {
      assert m < n ==> Readds(ops[..n], m);
    }
    if m: nat :| Readds(ops[..n], m) {
      assert Readds(ops, m);
    }
  }

  // Over any run, the byte index has a stale entry exactly when some identifier was added while it was live.
  lemma {:induction false} StaleIffReadded(ops: seq<KeyOp>)
    ensures SomeStale(IndexAfter(ops)) <==> SomeReadd(ops)
  {
    if ops == [] {
      assert forall n: nat :: !Readds(ops, n);
      assert forall i: nat :: !NO_KEYS.Stale(i);
    } else {
      hide Apply, SomeStale, SomeReadd;
      var n := |ops| - 1;
      StaleIffReadded(ops[..n]);
      AfterValid(ops[..n]);
      StaleStep(IndexAfter(ops[..n]), ops[n]);
      ReaddStep(ops);
    }
  }

  // ---- verifying and redeeming

  // what verify answers when key is the live key with the token's identifier
  function Verified(token: Token, digest: Result<Bytes32>, key: Option<IssuerKey>): Result<bool> {
    var _ :- token.Validated();
    if !IsRsa(token.tokenType) then Err(UNSUPPORTED_TOKEN_TYPE)
    else
      var expected :- digest;
      if token.challengeDigest != expected then Err(INVALID_CHALLENGE)
      else if key == None then Err(ISSUER_UNKNOWN)
      else key.value.verify(PrintInput(token.Input()), token.authenticator)
  }

  // A token is accepted exactly when it is well formed, of an RSA type, bound to the expected challenge, and a key is
  // there that accepts its signature.
  lemma VerifiedIff(token: Token, digest: Result<Bytes32>, key: Option<IssuerKey>)
    ensures Verified(token, digest, key) == Ok(true)
       <==> && token.Validated() == Ok(()) && IsRsa(token.tokenType) && digest == Ok(token.challengeDigest)
            && key.Some? && key.value.verify(PrintInput(token.Input()), token.authenticator) == Ok(true)
  {
    hide PrintInput;
  }

  // a well-formed RSA token is refused for its challenge exactly when it was issued for another one
  lemma OtherChallenge(token: Token, expected: Bytes32, key: Option<IssuerKey>)
    requires token.Validated() == Ok(()) && IsRsa(token.tokenType)
    requires key.Some? ==> key.value.verify(PrintInput(token.Input()), token.authenticator) != Err(INVALID_CHALLENGE)
    ensures Verified(token, Ok(expected), key) == Err(INVALID_CHALLENGE) <==> token.challengeDigest != expected
    ensures token.challengeDigest == expected && key == None ==>
              Verified(token, Ok(expected), key) == Err(ISSUER_UNKNOWN)
  {
    hide PrintInput;
  }

  class PublicOrigin {
    const issuerName: string
    const originNames: seq<string>
    const requireRedemptionContext: bool
    const sha256: Bytes -> Bytes32
    var issuerKeys: seq<IssuerKey>
    var keyIndicesByTruncatedId: map<byte, seq<nat>>
    var keyIndexByFullId: map<Bytes32, nat>
    const replayCache: ReplayCache<Bytes32>

    function KeyIndex(): Index
      reads this
    {
      Index(issuerKeys, keyIndicesByTruncatedId, keyIndexByFullId)
    }

    ghost predicate Valid()
      reads this, replayCache
    {
      KeyIndex().Valid() && replayCache.Valid()
    }

    constructor (issuerName: string, originNames: seq<string>, requireRedemptionContext: bool, sha256: Bytes -> Bytes32,
                 window: nat, maxReplayCacheSize: nat)
      ensures Valid() && KeyIndex() == NO_KEYS && fresh(replayCache) && replayCache.live == {}
      ensures this.sha256 == sha256
      ensures replayCache.windowSeconds == window && replayCache.maxSize == maxReplayCacheSize
    {
      this.issuerName, this.originNames, this.sha256 := issuerName, originNames, sha256;
      this.requireRedemptionContext := requireRedemptionContext;
      issuerKeys, keyIndicesByTruncatedId, keyIndexByFullId := [], map[], map[];
      replayCache := new ReplayCache(window, maxReplayCacheSize);
    }

    method AddIssuerKey(key: IssuerKey)
      requires Valid()
      modifies this
      ensures Valid() && KeyIndex() == old(KeyIndex()).Add(key)
    {
      hide LastByte, Index.Valid;
      ApplyValid(KeyIndex(), KeyOp.Add(key));
      var index, last := |issuerKeys|, LastByte(key.keyId);
      var bucket := if last in keyIndicesByTruncatedId then keyIndicesByTruncatedId[last] else [];
      keyIndicesByTruncatedId := keyIndicesByTruncatedId[last := bucket + [index]];
      keyIndexByFullId := keyIndexByFullId[key.keyId := index];
      issuerKeys := issuerKeys + [key];
    }

    method RemoveIssuerKey(keyId: Bytes32)
      requires Valid()
      modifies this
      ensures Valid() && KeyIndex() == old(KeyIndex()).Remove(keyId)
    {
      hide LastByte, Index.Valid, Drop;
      ApplyValid(KeyIndex(), KeyOp.Remove(keyId));
      if keyId in keyIndexByFullId {
        var index := keyIndexByFullId[keyId];
        keyIndexByFullId := keyIndexByFullId - {keyId};
        var truncated := LastByte(keyId);
        var bucket := if truncated in keyIndicesByTruncatedId then keyIndicesByTruncatedId[truncated] else [];
        bucket := Drop(bucket, index);
        assert keyIndicesByTruncatedId[truncated := bucket] - {truncated} == keyIndicesByTruncatedId - {truncated};
        keyIndicesByTruncatedId := keyIndicesByTruncatedId[truncated := bucket];
        if bucket == [] {
          keyIndicesByTruncatedId := keyIndicesByTruncatedId - {truncated};
        }
      }
    }

    // a random context is only drawn when one is required and none was given
    method CreateChallenge(redemptionContext: Option<Bytes32>, random: Result<Bytes32>)
      returns (r: Result<TokenChallenge>)
      ensures var drawn := requireRedemptionContext && redemptionContext == None;
              && (r.Err? <==> drawn && random.Err?)
              && (r.Err? ==> r.error == random.error)
              && (r.Ok? ==>
                    && r.value.tokenType == BLIND_RSA && r.value.issuerName == issuerName
                    && r.value.originInfo == originNames
                    && r.value.redemptionContext == if drawn then Some(random.value) else redemptionContext)
    {
      var context := redemptionContext;
      if requireRedemptionContext && context == None {
        if random.Err? {
          return Err(random.error);
        }
        context := Some(random.value);
      }
      r := Ok(TokenChallenge(BLIND_RSA, issuerName, context, originNames));
    }

    method Verify(token: Token, expectedChallenge: TokenChallenge) returns (r: Result<bool>)
      requires Valid()
      ensures r == Verified(token, Digest(expectedChallenge, sha256), KeyOf(KeyIndex(), token.tokenKeyId))
    {
      hide PrintInput;
      var valid := token.Validated();
      if valid.Err? {
        return Err(valid.error);
      }
      if !IsRsa(token.tokenType) {
        return Err(UNSUPPORTED_TOKEN_TYPE);
      }
      var challenge := new DigestedChallenge(expectedChallenge, sha256);
      var expectedDigest := challenge.GetDigest();
      if expectedDigest.Err? {
        return Err(expectedDigest.error);
      }
      if token.challengeDigest != expectedDigest.value {
        return Err(INVALID_CHALLENGE);
      }
      if token.tokenKeyId !in keyIndexByFullId {
        return Err(ISSUER_UNKNOWN);
      }
      var key := issuerKeys[keyIndexByFullId[token.tokenKeyId]];
      var input := SerializeInput(token.Input());
      r := key.verify(input, token.authenticator);
    }

    // the nonce is taken before the token is looked at
    method VerifyAndRedeem(token: Token, expectedChallenge: TokenChallenge, tick: nat) returns (r: Result<bool>)
      requires Valid() && forall e | e in replayCache.live :: e.tick <= tick
      modifies replayCache
      ensures Valid()
      ensures var window, max := replayCache.windowSeconds, replayCache.maxSize;
              var (live, isNew) := Step(old(replayCache.live), token.nonce, tick, window, max);
              && replayCache.live == live
              && r == if !isNew then Err(TOKEN_REPLAYED)
                      else Verified(token, Digest(expectedChallenge, sha256), KeyOf(KeyIndex(), token.tokenKeyId))
    {
      hide Verified, KeyOf, Step, Index.Valid;
      var isNew := replayCache.CheckAndAdd(token.nonce, tick);
      if !isNew {
        return Err(TOKEN_REPLAYED);
      }
      r := Verify(token, expectedChallenge);
    }
  }

  // ---- whole runs

  datatype Event = Keys(op: KeyOp) | Redeem(token: Token, challenge: TokenChallenge, tick: nat)

  function KeyOps(events: seq<Event>): seq<KeyOp> {
    if events == [] then []
    else
      var e := events[|events| - 1];
      KeyOps(events[..|events| - 1]) + if e.Keys? then [e.op] else []
  }

  // what the replay cache is asked, in order
  function Calls(events: seq<Event>): seq<Call<Bytes32>> {
    if events == [] then []
    else
      var e := events[|events| - 1];
      Calls(events[..|events| - 1]) + if e.Redeem? then [Call(e.token.nonce, e.tick)] else []
  }

  // the position among these calls of the one that event n makes
  function CallOf(events: seq<Event>, n: nat): nat
    requires n < |events|
  {
    |Calls(events[..n])|
  }

  // event n finds its nonce new, and reserves it
  ghost predicate Reserves(events: seq<Event>, n: nat, window: nat, max: nat)
    requires n < |events| && events[n].Redeem?
  {
    CallsPrefix(events, n);
    Answer(Calls(events), CallOf(events, n), window, max)
  }

  // the answer to event n, a redemption
  ghost function Redeemed(events: seq<Event>, n: nat, sha256: Bytes -> Bytes32, window: nat, max: nat): Result<bool>
    requires n < |events| && events[n].Redeem?
  {
    var e := events[n];
    if Reserves(events, n, window, max) then
      Verified(e.token, Digest(e.challenge, sha256), KeyOf(IndexAfter(KeyOps(events[..n])), e.token.tokenKeyId))
    else Err(TOKEN_REPLAYED)
  }

  // the calls of a prefix come first
  lemma {:induction false} CallsPrefix(events: seq<Event>, n: nat)
    requires n < |events|
    ensures Calls(events[..n]) <= Calls(events)
    ensures events[n].Redeem? ==>
              && CallOf(events, n) < |Calls(events)|
              && Calls(events)[CallOf(events, n)] == Call(events[n].token.nonce, events[n].tick)
  {
    var last := |events| - 1;
    if n < last {
      CallsPrefix(events[..last], n);
      assert events[..last][..n] == events[..n];
    }
  }

  ghost predicate EventClock(events: seq<Event>) {
    forall i, j | 0 <= i < j < |events| && events[i].Redeem? && events[j].Redeem? :: events[i].tick <= events[j].tick
  }

  lemma {:induction false} CallClock(events: seq<Event>)
    requires EventClock(events)
    ensures ClockRuns(Calls(events))
    ensures forall c | c in Calls(events) ::
              exists n :: 0 <= n < |events| && events[n].Redeem? && events[n].tick == c.tick
  {
    if events != [] {
      var last := |events| - 1;
      CallClock(events[..last]);
      assert forall n | 0 <= n < last :: events[..last][n] == events[n];
      var before := Calls(events[..last]);
      forall c | c in before
        ensures exists n :: 0 <= n < |events| && events[n].Redeem? && events[n].tick == c.tick
      {
        var n :| 0 <= n < last && events[..last][n].Redeem? && events[..last][n].tick == c.tick;
        assert events[n].tick == c.tick;
      }
      forall i, j | 0 <= i < j < |Calls(events)| ensures Calls(events)[i].tick <= Calls(events)[j].tick {
        if j == |before| {
          assert before[i] in before;
        }
      }
    }
  }

  // no call up to event n found the cache overfull
  ghost predicate NeverOverfull(events: seq<Event>, n: nat, window: nat, max: nat)
    requires n < |events| && events[n].Redeem?
  {
    CallsPrefix(events, n);
    forall m | 0 <= m <= CallOf(events, n) :: !Overfull(Calls(events), m, window, max)
  }

  lemma CallsIncrease(events: seq<Event>, n: nat, m: nat)
    requires n < m < |events| && events[n].Redeem?
    ensures CallOf(events, n) < CallOf(events, m)
  {
    assert events[..m][..n] == events[..n] && events[..m][n] == events[n];
    CallsPrefix(events[..m], n);
  }

  lemma {:induction false} EventOfCall(events: seq<Event>, i: nat) returns (n: nat)
    requires i < |Calls(events)|
    ensures n < |events| && events[n].Redeem? && CallOf(events, n) == i
  {
    var last := |events| - 1;
    if i < |Calls(events[..last])| {
      n := EventOfCall(events[..last], i);
      assert events[..last][..n] == events[..n];
    } else {
      n := last;
    }
  }

  // redemption n reserved the nonce that redemption m brings within the window
  ghost predicate BlockedBy(events: seq<Event>, m: nat, n: nat, window: nat, max: nat)
    requires m < |events| && events[m].Redeem?
  {
    && n < m && events[n].Redeem? && Reserves(events, n, window, max)
    && events[n].token.nonce == events[m].token.nonce && events[m].tick < events[n].tick + window
  }

  // no redemption after n, up to m, evicts what n reserved
  ghost predicate StillHeld(events: seq<Event>, n: nat, m: nat, window: nat, max: nat)
    requires n < m < |events| && events[n].Redeem? && events[m].Redeem?
  {
    CallsPrefix(events, m);
    CallsIncrease(events, n, m);
    Held(Calls(events), CallOf(events, n), CallOf(events, m), window, max)
  }

  // some redemption before m reserved its nonce within the window and is still held
  ghost predicate Refused(events: seq<Event>, m: nat, window: nat, max: nat)
    requires m < |events| && events[m].Redeem?
  {
    exists n :: BlockedBy(events, m, n, window, max) && StillHeld(events, n, m, window, max)
  }

  // redemptions block each other as their calls to the cache do
  lemma BlockedByCall(events: seq<Event>, m: nat, i: nat, window: nat, max: nat) returns (n: nat)
    requires m < |events| && events[m].Redeem? && i < |Calls(events)| && CallOf(events, m) < |Calls(events)|
    requires Blocks(Calls(events), i, CallOf(events, m), window, max)
    ensures BlockedBy(events, m, n, window, max) && CallOf(events, n) == i
  {
    hide Answer, CallOf, Calls;
    CallsPrefix(events, m);
    n := EventOfCall(events, i);
    CallsPrefix(events, n);
    if m < n {
      CallsIncrease(events, m, n);
    }
  }

  lemma CallBlocks(events: seq<Event>, m: nat, n: nat, window: nat, max: nat)
    requires m < |events| && events[m].Redeem? && BlockedBy(events, m, n, window, max)
    ensures CallOf(events, n) < CallOf(events, m) < |Calls(events)|
    ensures Blocks(Calls(events), CallOf(events, n), CallOf(events, m), window, max)
  {
    hide Answer, CallOf, Calls;
    CallsPrefix(events, m);
    CallsPrefix(events, n);
    CallsIncrease(events, n, m);
  }

  // In any interleaving with other redemptions and with key changes, a redemption is turned away as a replay exactly
  // when one before it, within the window, reserved its nonce, good token or not, and was not evicted since.
  lemma ReplayedIffHeld(events: seq<Event>, m: nat, window: nat, max: nat)
    requires EventClock(events) && m < |events| && events[m].Redeem?
    ensures !Reserves(events, m, window, max) <==> Refused(events, m, window, max)
  {
    hide Answer, CallOf, Calls, Held;
    var calls, c := Calls(events), CallOf(events, m);
    CallsPrefix(events, m);
    CallClock(events);
    AcceptedIffNotHeld(calls, c, window, max);
    if i: nat :| Blocks(calls, i, c, window, max) && Held(calls, i, c, window, max) {
      var n := BlockedByCall(events, m, i, window, max);
      assert StillHeld(events, n, m, window, max);
    }
    forall n: nat | BlockedBy(events, m, n, window, max) && StillHeld(events, n, m, window, max)
      ensures !Reserves(events, m, window, max)
    {
      CallBlocks(events, m, n, window, max);
    }
  }

  // the same while no redemption has found the cache overfull
  lemma ReplayedIffReserved(events: seq<Event>, m: nat, window: nat, max: nat)
    requires EventClock(events) && m < |events| && events[m].Redeem? && NeverOverfull(events, m, window, max)
    ensures !Reserves(events, m, window, max) <==> exists n: nat :: BlockedBy(events, m, n, window, max)
  {
    hide Answer, Overfull, CallOf, Calls;
    var calls, c := Calls(events), CallOf(events, m);
    CallsPrefix(events, m);
    CallClock(events);
    CacheIsHistory(calls, c, window, max);
    if i: nat :| Blocks(calls, i, c, window, max) {
      var n := BlockedByCall(events, m, i, window, max);
    }
    if n: nat :| BlockedBy(events, m, n, window, max) {
      CallBlocks(events, m, n, window, max);
    }
  }

  // addition i of a key is the latest with the token's identifier, and the key accepts the token's signature
  ghost predicate SignedBy(ops: seq<KeyOp>, i: nat, token: Token) {
    && Latest(ops, i, token.tokenKeyId)
    && ops[i].key.verify(PrintInput(token.Input()), token.authenticator) == Ok(true)
  }

  // In any interleaving a redemption succeeds exactly when its nonce is not held, the token is well formed and bound to
  // the challenge it is presented for, and the latest key with its identifier that was not removed accepts it.
  lemma RedeemedIff(events: seq<Event>, n: nat, sha256: Bytes -> Bytes32, window: nat, max: nat)
    requires EventClock(events) && n < |events| && events[n].Redeem?
    ensures var token := events[n].token;
            Redeemed(events, n, sha256, window, max) == Ok(true)
            <==> && !Refused(events, n, window, max)
                 && token.Validated() == Ok(()) && IsRsa(token.tokenType)
                 && Digest(events[n].challenge, sha256) == Ok(token.challengeDigest)
                 && exists i: nat :: SignedBy(KeyOps(events[..n]), i, token)
  {
    hide Reserves, Refused, EventClock, KeyOps, IndexAfter, KeyOf, PrintInput, Digest, Verified;
    var token, ops := events[n].token, KeyOps(events[..n]);
    var key := KeyOf(IndexAfter(ops), token.tokenKeyId);
    ReplayedIffHeld(events, n, window, max);
    VerifiedIff(token, Digest(events[n].challenge, sha256), key);
    LatestKey(ops, token.tokenKeyId);
    if key.Some? {
      var i: nat :| Latest(ops, i, token.tokenKeyId);
      assert key == Some(ops[i].key);
      assert key.value.verify(PrintInput(token.Input()), token.authenticator) == Ok(true) ==> SignedBy(ops, i, token);
    }
  }
}
