// Inputs at which the code does not do what a caller might expect, one for each such finding, and what a header and a
// scope look like.
module Instances {
  import opened Types
  import opened Collections
  import opened Tokens
  import opened TokenChallenges
  import opened Congruence
  import opened NumberTheory
  import opened ModularField
  import opened Octets
  import opened RsaArithmetic
  import Rsa = BlindRsa
  import Witnesses
  import Cache = ReplayCache
  import Queue = RedemptionQueue
  import Authenticator = TokenAuthenticator
  import Origins = PublicOrigins
  import Issuers
  import opened Clients
  import opened AuthParams
  import opened AuthChallenges
  import opened AuthScheme
  import Moq = MoqScopes

  function Zeros(): Bytes32 { seq(32, _ => 0) }
  function Ones(): Bytes32 { seq(32, _ => 1) }

  // ---- a hundred origins are accepted, and refused when a second comma ends them

  function Listed(n: nat): string { if n == 0 then "" else "a," + Listed(n - 1) }

  lemma OneMore(s: string)
    ensures Pieces("a," + s) == ["a"] + Pieces(s)
  {
    var t := "a," + s;
    assert t[0] == 'a' && t[1..][0] == ',' && t[2..] == s;
    assert Before(t[1..]) == "";
    assert Before(t) == "a";
  }

  lemma {:induction false} ListedPieces(n: nat, tail: string)
    requires Pieces(tail) == []
    ensures |Pieces(Listed(n) + tail)| == n
  {
    hide Pieces;
    if n == 0 {
      assert Listed(0) + tail == tail;
    } else {
      assert Listed(n) + tail == "a," + (Listed(n - 1) + tail);
      OneMore(Listed(n - 1) + tail);
      ListedPieces(n - 1, tail);
    }
  }

  lemma {:induction false} ListedEnd(n: nat)
    requires n > 0
    ensures var s := Listed(n); |s| >= 2 && s[|s| - 1] == ',' && s[|s| - 2] == 'a'
  {
    if n > 1 {
      ListedEnd(n - 1);
    }
  }

  lemma HundredOrigins()
    ensures Split(Listed(100), 0).Some? && |Split(Listed(100), 0).value| == 100
    ensures Split(Listed(100) + ",", 0) == None
  {
    hide Listed, Pieces, Split;
    var s := Listed(100);
    assert Pieces("") == [] && Pieces(",") == [] by { NoEntries(); }
    ListedEnd(100);
    ListedPieces(100, "");
    ListedPieces(100, ",");
    assert s + "" == s;
    SplitIsPieces(s, 0);
    SplitIsPieces(s + ",", 0);
  }

  lemma NoEntries()
    ensures Pieces("") == [] && Pieces(",") == []
  {
    assert ","[1..] == "";
  }

  // ---- what headers look like

  lemma HeadersRead()
    ensures Format(ChallengeHeader("ab", Some("12"), Some(10)))
         == "PrivateToken " + "challenge=\"ab\"" + ", token-key=\"12\"" + ", max-age=10"
    ensures FormatToken(AuthorizationHeader("ab")) == "PrivateToken " + "token=\"ab\""
  {
    hide Quoted, Decimal, FormatTokenKey, FormatMaxAge;
    QuotedValues();
    AgeIs();
  }

  lemma QuotedValues()
    ensures Quoted("challenge", "ab") == "challenge=\"ab\"" && Quoted("token", "ab") == "token=\"ab\""
    ensures FormatTokenKey(Some("12")) == ", token-key=\"12\""
  {
    assert "token-key" + "=\"" + "12" + "\"" == "token-key=\"12\"";
  }

  lemma AgeIs()
    ensures FormatMaxAge(Some(10)) == ", max-age=10"
  {
    assert Decimal(1) == "1" && "1" + "0" == "10";
    assert "max-age" + "=" + "10" == "max-age=10";
  }

  // ---- a token with a quote in it comes back cut off, and so does a token key

  lemma QuoteInToken()
    ensures ParseTokenHeader(FormatToken(AuthorizationHeader("a\"b")))
         == Ok(AuthorizationHeader("a"))
  {
    hide ReadToken, ParseParam, SkipSeparator;
    var t := "a\"b";
    assert FormatToken(AuthorizationHeader(t))[|SCHEME|..] == Quoted("token", t);
    FirstToken(t);
    UnquoteClean("a", "b\"");
    assert "a" + "\"" + "b\"" == t + "\"";
    NoParameter();
  }

  lemma NoParameter()
    ensures SkipSeparator("b\"") == "b\"" && ReadToken("b\"", "a") == "a"
  {
    var s := "b\"";
    assert SkipOws(s) == s;
    assert ParseKey(s) == None by { UntilIs(s, IsEquals, 2); }
  }

  lemma QuoteInTokenKey()
    ensures var h := ChallengeHeader("c", Some("a\"b"), None); ParseAll(Format(h)) != Ok([h])
  {
    hide ParseAll, Format;
    assert '"' in "a\"b";
    ChallengeHeaderRoundTrip(ChallengeHeader("c", Some("a\"b"), None));
  }

  // ---- an origin given the same key twice keeps an entry that nothing reaches

  function AcceptOnes(msg: Bytes, signature: Bytes): Result<bool> { Ok(signature != [] && signature[0] == 1) }

  const KEY := Origins.IssuerKey(Ones(), AcceptOnes)

  lemma SameKeyTwice()
    ensures Origins.SomeStale(Origins.IndexAfter([Origins.KeyOp.Add(KEY), Origins.KeyOp.Add(KEY)]))
  {
    hide LastByte, Origins.SomeStale, Origins.Index.Valid;
    var add := Origins.KeyOp.Add(KEY);
    assert [add, add][..1] == [add] && [add][..0] == [];
    Origins.AfterValid([add]);
    Origins.StaleStep(Origins.IndexAfter([add]), add);
  }

  // ---- a bad token uses up its nonce: the good one after it is turned away

  const CHALLENGE := TokenChallenge(BLIND_RSA, "a", None, [])

  function Sha(data: Bytes): Bytes32 { Zeros() }

  function TokenWith(authenticator: Bytes): Token { Token(BLIND_RSA, Zeros(), Zeros(), Ones(), authenticator) }

  const GOOD := TokenWith(seq(256, _ => 1))
  const BAD := TokenWith(seq(256, _ => 0))

  function Redemptions(first: Token, second: Token): seq<Origins.Event> {
    [Origins.Keys(Origins.KeyOp.Add(KEY)), Origins.Redeem(first, CHALLENGE, 0), Origins.Redeem(second, CHALLENGE, 0)]
  }

  lemma BadTokenUsesNonce()
    ensures Origins.Redeemed(Redemptions(GOOD, BAD), 1, Sha, 10, 5) == Ok(true)
    ensures Origins.Redeemed(Redemptions(BAD, GOOD), 1, Sha, 10, 5) == Ok(false)
    ensures Origins.Redeemed(Redemptions(BAD, GOOD), 2, Sha, 10, 5) == Err(TOKEN_REPLAYED)
  {
    hide Origins.Reserves, Origins.Verified, TokenWith, Origins.KeyOf, Origins.IndexAfter, Origins.KeyOps;
    hide Origins.StillHeld, Sha;
    SameFields();
    Judged(seq(256, _ => 1));
    Judged(seq(256, _ => 0));
    FirstRedemption(GOOD, BAD);
    FirstRedemption(BAD, GOOD);
    SecondRedemption(BAD, GOOD);
  }

  lemma SameFields()
    ensures BAD.nonce == GOOD.nonce && GOOD.tokenKeyId == Ones() && BAD.tokenKeyId == Ones()
  {
  }

  lemma Digested()
    ensures Digest(CHALLENGE, Sha) == Ok(Zeros())
  {
    hide PrintChallenge;
    assert Join([]) == "";
    assert Digest(CHALLENGE, Sha) == Ok(Sha(PrintChallenge(CHALLENGE)));
  }

  lemma Judged(authenticator: Bytes)
    requires |authenticator| == 256
    ensures Origins.Verified(TokenWith(authenticator), Digest(CHALLENGE, Sha), Some(KEY)) == Ok(authenticator[0] == 1)
  {
    hide PrintInput, Digest;
    Digested();
    assert TokenWith(authenticator).Validated() == Ok(());
  }

  // the first redemption reserves its nonce, and the key is there
  lemma FirstRedemption(first: Token, second: Token)
    ensures Origins.Reserves(Redemptions(first, second), 1, 10, 5)
    ensures Origins.KeyOf(Origins.IndexAfter(Origins.KeyOps(Redemptions(first, second)[..1])), Ones()) == Some(KEY)
  {
    hide Origins.KeyOf, Origins.IndexAfter, Origins.StillHeld, Origins.Reserves;
    var events, adding := Redemptions(first, second), [Origins.KeyOp.Add(KEY)];
    Origins.ReplayedIffHeld(events, 1, 10, 5);
    assert events[..1] == [Origins.Keys(Origins.KeyOp.Add(KEY))] && events[..1][..0] == [];
    assert Origins.KeyOps(events[..1]) == [] + adding == adding;
    Origins.LatestKey(adding, Ones());
    assert Origins.Latest(adding, 0, Ones());
  }

  // below the window nothing is evicted, so the nonce is still held
  lemma SecondRedemption(first: Token, second: Token)
    requires first.nonce == second.nonce
    ensures !Origins.Reserves(Redemptions(first, second), 2, 10, 5)
  {
    hide Origins.Reserves, Origins.KeyOps, Origins.StillHeld;
    var events := Redemptions(first, second);
    FirstRedemption(first, second);
    NothingEvicted(events);
    assert Origins.BlockedBy(events, 2, 1, 10, 5);
    Origins.ReplayedIffHeld(events, 2, 10, 5);
  }

  lemma NothingEvicted(events: seq<Origins.Event>)
    requires |events| == 3 && events[1].Redeem? && events[2].Redeem? && Origins.EventClock(events)
    requires forall e | e in events && e.Redeem? :: e.tick < 10
    ensures Origins.StillHeld(events, 1, 2, 10, 5)
  {
    hide Origins.CallOf, Origins.Calls, Cache.LiveBefore;
    Origins.CallsPrefix(events, 2);
    Origins.CallsIncrease(events, 1, 2);
    Origins.CallClock(events);
    var calls := Origins.Calls(events);
    forall m | 0 <= m < |calls| ensures calls[m].tick < 10 {
      assert calls[m] in calls;
    }
  }

  // ---- an issuer is removed, is not trusted any more, and its tokens still pass

  lemma RemovedStillPasses()
    ensures
      var t := Authenticator.TrustAfter([Authenticator.AddRsa("a", KEY), Authenticator.RemoveIssuer("a")]);
      var digest := Digest(CHALLENGE, Sha);
      && !t.Trusted("a")
      && Authenticator.Check(GOOD, digest, Origins.Verified(GOOD, digest, Origins.KeyOf(t.index, GOOD.tokenKeyId)))
         == Ok(Zeros())
  {
    hide Origins.KeyOf, Origins.Verified, Digest, Authenticator.TrustAfter, Sha;
    var ops := [Authenticator.AddRsa("a", KEY), Authenticator.RemoveIssuer("a")];
    assert Authenticator.LastAdds(ops, 0, Ones()) && Authenticator.LastRemoves(ops, 1, "a");
    Authenticator.UntrustedKeyVerifies(ops, 0, Ones());
    SameFields();
    Digested();
    Judged(seq(256, _ => 1));
  }

  // ---- a pattern that is contained in every name is not found in the empty one

  lemma NothingInEmptyName()
    ensures Moq.Matches<byte>(Moq.Contains, [], []) && !Moq.TrackAllowed(Moq.Rule(Moq.Contains, []), [])
  {
    assert Moq.At<byte>([], [], 0);
  }

  // ---- what a scope looks like

  lemma ScopeOctets()
    ensures Moq.PrintScope(Moq.AuthScope([4, 7], Moq.Rule(Moq.Prefix, [[10, 11], [12]]), Moq.Rule(Moq.Suffix, [13])))
         == [2, 4, 7, 1, 2, 0, 2, 10, 11, 0, 1, 12, 2, 0, 1, 13]
    ensures Moq.PrintScope(Moq.AuthScope([8], Moq.Wildcard, Moq.Rule(Moq.Contains, []))) == [1, 8, 255, 3, 0, 0]
  {
    var all: seq<Bytes>, last: seq<Bytes> := [[10, 11], [12]], [[12]];
    assert all[1..] == last && Moq.PrintElements(last[1..]) == [];
    assert Moq.PrintElements(last) == [0, 1, 12];
  }

  // ---- below the window a cache for one nonce holds three, and past it a nonce is accepted twice within the window

  lemma LimitIgnored(a: Bytes32, b: Bytes32, c: Bytes32)
    requires a != b && b != c && a != c
    ensures |Cache.Run([Cache.Call(a, 0), Cache.Call(b, 0), Cache.Call(c, 0)], 10, 1).0| == 3
  {
    hide Cache.Answer, Cache.Run;
    var calls := [Cache.Call(a, 0), Cache.Call(b, 0), Cache.Call(c, 0)];
    Cache.AcceptedIffNotHeld(calls, 0, 10, 1);
    Cache.AcceptedIffNotHeld(calls, 1, 10, 1);
    Cache.AcceptedIffNotHeld(calls, 2, 10, 1);
    Answers(calls);
    assert Cache.Run(calls, 10, 1).1 == [true, true, true];
    assert [true, true, true][..2] == [true, true] && [true, true][..1] == [true] && [true][..0] == [];
    assert Cache.Accepted([true, true, true]) == 3;
    Cache.UnlimitedAtFirst(calls, 10, 1);
  }

  lemma Answers(calls: seq<Cache.Call<Bytes32>>)
    requires |calls| == 3
    ensures var answers := Cache.Run(calls, 10, 1).1;
            forall n | 0 <= n < 3 :: answers[n] == Cache.Answer(calls, n, 10, 1)
  {
    assert calls[..3] == calls && calls[..2][..1] == calls[..1];
    assert Cache.Run(calls, 10, 1).1[..2] == Cache.Run(calls[..2], 10, 1).1;
  }

  lemma AcceptedTwice(a: Bytes32, b: Bytes32)
    requires a != b
    ensures var calls := [Cache.Call(a, 10), Cache.Call(b, 10), Cache.Call(a, 11)];
            Cache.Answer(calls, 0, 10, 1) && Cache.Answer(calls, 2, 10, 1)
  {
    hide Cache.Answer, Cache.LiveBefore, Cache.Prune;
    var calls := [Cache.Call(a, 10), Cache.Call(b, 10), Cache.Call(a, 11)];
    Cache.AcceptedIffNotHeld(calls, 0, 10, 1);
    Cache.AcceptedIffNotHeld(calls, 1, 10, 1);
    OneEntry(calls);
    Cache.EntryStays(calls, 0, 2, 10, 1);
    Cache.EntryStays(calls, 1, 2, 10, 1);
    var both, live := {Cache.Entry(a, 10), Cache.Entry(b, 10)}, Cache.LiveBefore(calls, 2, 10, 1);
    Cardinality(both, Cache.AtLeast(live, 10));
    assert Cache.Evicts(calls, 0, 2, 10, 1);
    Cache.DoubleAcceptanceIsEviction(calls, 0, 2, 10, 1);
  }

  // the second call finds one entry and evicts nothing
  lemma OneEntry(calls: seq<Cache.Call<Bytes32>>)
    requires |calls| == 3
    ensures !Cache.Evicts(calls, 0, 1, 10, 1)
  {
    hide Cache.Answer, Cache.LiveBefore;
    Cache.ShortRunsFit(calls, 1, 10, 1);
    var live := Cache.LiveBefore(calls, 1, 10, 1);
    Cardinality(Cache.AtLeast(live, calls[0].tick), live);
  }

  // ---- a nonce is refused past its window until something prunes, and accepted afterwards

  function ExpiringRun(nonce: Bytes32, digest: Bytes32): seq<Queue.Op<Bytes32>> {
    [Queue.RedeemOp(nonce, Ok(digest), 0), Queue.RedeemOp(nonce, Ok(digest), 100), Queue.PruneOp(101),
     Queue.RedeemOp(nonce, Ok(digest), 102)]
  }

  lemma ExpiredIsRefused(nonce: Bytes32, digest: Bytes32)
    ensures var ops := ExpiringRun(nonce, digest);
            Queue.Added(ops, 0, 10, 5) && !Queue.Added(ops, 1, 10, 5) && Queue.Added(ops, 3, 10, 5)
  {
    var ops, e := ExpiringRun(nonce, digest), Queue.Entry(nonce, 0);
    assert Queue.After(ops[..0], 10, 5) == [];
    Queue.AfterStep(ops, 0, 10, 5);
    assert Queue.After(ops[..1], 10, 5) == [] + [e] == [e];
    Queue.AfterStep(ops, 1, 10, 5);
    assert Queue.Seen([e], nonce) by { assert [e][0].nonce == nonce; }
    assert Queue.After(ops[..2], 10, 5) == [e];
    Queue.AfterStep(ops, 2, 10, 5);
    assert [e][1..] == [];
    assert Queue.After(ops[..3], 10, 5) == Queue.Expire([e], 91) == [];
  }

  // ---- of two keys with one last byte, the one added first answers for the other

  const OTHER := Rsa.PrivateKey(34571, 11, 311, 2)

  lemma OtherIsValid()
    ensures OTHER.Valid()
  {
    Witnesses.PrimeBy(181, 14);
    Witnesses.PrimeBy(191, 14);
    CongBy(11 * 311, 1, 180, 19);
    CongBy(11 * 311, 1, 190, 18);
    assert Pow(256, 1) == 256 && Pow(256, 2) == 65536;
    forall x: nat ensures OTHER.Opens(x) {
      Rsa.KeyFromPrimes(181, 191, OTHER, x);
    }
  }

  // the keys sign 188 differently
  lemma SignaturesDiffer()
    ensures ExpMod(188, 2443, 34571) != ExpMod(188, 311, 34571)
  {
    var n, z := 34571, ExpMod(188, 2443, 34571);
    Witnesses.KeyIsValid();
    OtherIsValid();
    Rsa.SignatureOpens(188, Witnesses.KEY);
    Rsa.SignatureOpens(188, OTHER);
    if z == ExpMod(188, 311, n) {
      RootsAgree(z, n);
      assert Pow(188, 7) % n == 4880 && Pow(188, 11) % n == 15954 by { Powers(); }
      CongModEq(Pow(188, 11), Pow(188, 7), n);
    }
  }

  lemma RootsAgree(z: nat, n: nat)
    requires n > 0 && ExpMod(z, 7, n) == 188 && ExpMod(z, 11, n) == 188
    ensures Cong(Pow(188, 11), Pow(188, 7), n)
  {
    CongRefl(z, n);
    ExpModCong(z, z, 7, n);
    ExpModCong(z, z, 11, n);
    PowCong(188, Pow(z, 7), 11, n);
    PowCong(188, Pow(z, 11), 7, n);
    Rsa.PowSwap(z, 7, 11);
    CongSym(Pow(188, 7), Pow(Pow(z, 11), 7), n);
    CongTrans(Pow(188, 11), Pow(Pow(z, 7), 11), Pow(188, 7), n);
  }

  lemma Powers()
    ensures Pow(188, 7) == 8300513205665792 && Pow(188, 11) == 10368987284463733138522112
  {
    assert Pow(188, 3) == 6644672;
    PowAdd(188, 3, 3);
    PowAdd(188, 6, 1);
    PowAdd(188, 7, 4);
  }

  function EncodePss(msg: Bytes, salt: Bytes): Bytes { [0, 0xBC] }
  predicate VerifyPss(msg: Bytes, em: Bytes) { em == [0, 0xBC] }

  const LIB := Library(Rsa.Pss(EncodePss, VerifyPss), 16, Sha)

  // blinding with 1 leaves the representative 188
  lemma BlindedByOne(msg: Bytes)
    ensures Rsa.FirstUnit([1], 34571) == Some(1)
    ensures var data := Rsa.Blind(Witnesses.KEY.Public(), msg, [], [1], LIB.pss, LIB.bits);
            data.Ok? && data.value.blindedMsg == BigEndian(188, 2)
  {
    var n, key := 34571, Witnesses.KEY;
    Witnesses.KeyIsValid();
    ModInverseSpec(1, n);
    CongRefl(1, n);
    assert Cong(1 * 1, 1, n);
    assert Rsa.FirstUnit([1], n) == Some(1);
    assert LIB.pss.IsEncoding(msg, [], 2);
    Rsa.HonestSignature(key, msg, [], [1], LIB.pss, LIB.bits);
    MontCtxExists(n, LIB.bits);
    var ctx := MontCtxSet(n, LIB.bits).value;
    Represents188();
    Rsa.BlindCong(188, 1, key.e, ctx);
    PowOne(key.e);
    CongResidue(Rsa.BlindRepresentative(188, 1, key.e, ctx), 188, n);
  }

  lemma Represents188()
    ensures FromBigEndian([0, 0xBC]) == 188 && FromBigEndian(BigEndian(188, 2)) == 188
  {
    assert [0, 0xBC][..1] == [0] && [0][..0] == [];
    assert Pow(256, 2) == 65536;
    DecodeBigEndian(188, 2);
  }

  // two live keys with last byte 0, the other one added first
  function Mine(): RsaKey { RsaKey(Witnesses.KEY, Zeros()) }
  function Theirs(): RsaKey { RsaKey(OTHER, Zeros()[0 := 1]) }

  function BothKeys(): Issuers.Flat<Issuers.PublicIssuer> {
    var none: Issuers.Flat<Issuers.PublicIssuer> := Issuers.Flat([], map[]);
    none.Add(Theirs().keyId, Theirs().Issuer(LIB)).Add(Mine().keyId, Mine().Issuer(LIB))
  }

  lemma BothSign()
    ensures var m := BigEndian(188, 2);
            && Rsa.BlindSign(OTHER, m, LIB.bits).Ok? && Rsa.BlindSign(Witnesses.KEY, m, LIB.bits).Ok?
            && Rsa.BlindSign(OTHER, m, LIB.bits) != Rsa.BlindSign(Witnesses.KEY, m, LIB.bits)
  {
    hide ExpMod;
    Represents188();
    SignaturesDiffer();
    MontCtxExists(34571, LIB.bits);
    assert Pow(256, 1) == 256 && Pow(256, 2) == 65536;
    Rsa.NumBytesExact(34571, 2);
    DecodeBigEndian(ExpMod(188, 2443, 34571), 2);
    DecodeBigEndian(ExpMod(188, 311, 34571), 2);
  }

  lemma KeysAre()
    ensures Mine().key == Witnesses.KEY && Theirs().key == OTHER && Mine().keyId != Theirs().keyId
    ensures LastByte(Mine().keyId) == 0 && LastByte(Theirs().keyId) == 0
  {
    assert Mine().keyId[0] == 0 && Theirs().keyId[0] == 1;
  }

  lemma Encoded(msg: Bytes)
    ensures LIB.pss.encode(msg, []) == [0, 0xBC]
  {
  }

  // a client asks for a token under the second key; the first one signs, and the client does not get its token
  lemma WrongKeyAnswers(nonce: Bytes32)
    ensures
      var key := Mine().key;
      var created := CreateRequest(CHALLENGE, key.Public(), Mine().keyId, nonce, [], [1], LIB);
      && created.Ok?
      && var (request, f) := created.value;
      && Issuers.FirstSigner(BothKeys(), request, 0)
      && Issuers.IssuePublic(Mine().Issuer(LIB), request).Ok?
      && var answer := Issuers.IssueFlat(BothKeys(), Issuers.Flat([], map[]), request);
      && answer.Ok?
      && FinalizeToken(answer.value, f, key.Public(), LIB)
         != Ok(f.WithAuthenticator(Rsa.PlainSignature(key, [0, 0xBC])))
  {
    hide Mine, Theirs, Rsa.Blind, Rsa.BlindSign, Rsa.PlainSignature, FinalizeToken, PrintInput, Digest, LastByte;
    var mine, theirs := Mine(), Theirs();
    KeysAre();
    assert BothKeys().order == [theirs.keyId, mine.keyId];
    Witnesses.KeyIsValid();
    BothSign();
    Digested();
    var input := AuthenticatorInput(BLIND_RSA, nonce, Zeros(), mine.keyId);
    BlindedByOne(PrintInput(input));
    var i := IntendedToken(BothKeys(), Issuers.Flat([], map[]), CHALLENGE, mine, nonce, [], [1], LIB);
    var (request, f) := CreateRequest(CHALLENGE, mine.key.Public(), mine.keyId, nonce, [], [1], LIB).value;
    assert Issuers.IssuePublic(theirs.Issuer(LIB), request).Ok?;
    assert i == 0;
    Encoded(PrintInput(input));
  }
}
