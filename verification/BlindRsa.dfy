// Blind RSA signatures: src/crypto/blind_rsa.cpp.
module BlindRsa {
  import opened Types
  import opened Congruence
  import opened NumberTheory
  import opened ModularField
  import opened Octets
  import opened RsaArithmetic

  type Modulus = n: nat | n > 0 witness 1

  // the limit on octets that are handed over as an int
  const MAX_INPUT_SIZE: nat := 0x7FFF_FFFF

  // size is the length of the modulus in octets, 256 in the source
  datatype PublicKey = PublicKey(n: Modulus, e: nat, size: nat)

  datatype PrivateKey = PrivateKey(n: Modulus, e: nat, d: nat, size: nat) {
    function Public(): PublicKey { PublicKey(n, e, size) }

    // raising to e and then to d is the identity modulo n
    ghost predicate Opens(x: nat) { Cong(Pow(Pow(x, e), d), x, n) }

    // a key pair whose odd modulus has full length
    ghost predicate Valid() {
      && n % 2 == 1 && e >= 1 && d >= 1
      && 0 < size <= MAX_INPUT_SIZE && 128 * Pow(256, size - 1) <= n < Pow(256, size)
      && forall x: nat :: Opens(x)
    }
  }

  // two primes and exponents inverse to each other modulo p - 1 and q - 1 make such a pair
  lemma KeyFromPrimes(p: nat, q: nat, k: PrivateKey, x: nat)
    requires Prime(p) && Prime(q) && p != q && k.n == p * q
    requires k.e * k.d >= 1 && Cong(k.e * k.d, 1, p - 1) && Cong(k.e * k.d, 1, q - 1)
    ensures k.Opens(x)
  {
    PowMul(x, k.e, k.d);
    RsaIdentity(x, k.e, k.d, p, q);
  }

  // EMSA-PSS: encode takes the message and the random salt, verify a message and an encoding
  datatype Pss = Pss(encode: (Bytes, Bytes) -> Bytes, verify: (Bytes, Bytes) -> bool) {
    // an encoding verifies, has its top bit clear and ends in 0xbc
    ghost predicate IsEncoding(msg: Bytes, salt: Bytes, size: nat) {
      var em := encode(msg, salt);
      && |em| == size > 0 && em[0] < 0x80 && em[size - 1] == 0xBC
      && verify(msg, em)
    }
  }

  datatype BlindingData = BlindingData(inverse: Bytes, blindedMsg: Bytes)

  // ---- on representatives

  function BlindRepresentative(m: nat, r: nat, e: nat, ctx: MontCtx): (b: nat)
    requires ctx.n > 0
    ensures b < ctx.n
  {
    MulMontgomery(m, ToMontgomery(ExpMod(r, e, ctx.n), ctx), ctx)
  }

  function UnblindRepresentative(z: nat, rInverse: nat, ctx: MontCtx): (s: nat)
    requires ctx.n > 0
    ensures s < ctx.n
  {
    MulMontgomery(z, ToMontgomery(rInverse, ctx), ctx)
  }

  lemma BlindCong(m: nat, r: nat, e: nat, ctx: MontCtx)
    requires ctx.Valid()
    ensures Cong(BlindRepresentative(m, r, e, ctx), m * Pow(r, e), ctx.n)
  {
    var x := ExpMod(r, e, ctx.n);
    MixedProduct(m, x, ctx);
    CongRefl(m, ctx.n);
    CongRefl(r, ctx.n);
    ExpModCong(r, r, e, ctx.n);
    CongMul(m, m, x, Pow(r, e), ctx.n);
    CongTrans(BlindRepresentative(m, r, e, ctx), m * x, m * Pow(r, e), ctx.n);
  }

  // (m r^e)^d = m^d r
  lemma SignedBlind(m: nat, r: nat, b: nat, k: PrivateKey)
    requires k.Valid() && Cong(b, m * Pow(r, k.e), k.n)
    ensures Cong(Pow(b, k.d), Pow(m, k.d) * r, k.n)
  {
    var n := k.n;
    PowCong(b, m * Pow(r, k.e), k.d, n);
    PowBase(m, Pow(r, k.e), k.d);
    assert k.Opens(r);
    CongRefl(Pow(m, k.d), n);
    CongMul(Pow(m, k.d), Pow(m, k.d), Pow(Pow(r, k.e), k.d), r, n);
    CongTrans(Pow(b, k.d), Pow(m, k.d) * Pow(Pow(r, k.e), k.d), Pow(m, k.d) * r, n);
  }

  lemma CancelFactor(a: int, r: int, ri: int, z: int, n: nat)
    requires Cong(r * ri, 1, n) && Cong(z, a * r, n)
    ensures Cong(z * ri, a, n)
  {
    CongRefl(ri, n);
    CongRefl(a, n);
    CongMul(z, a * r, ri, ri, n);
    CongMul(a, a, r * ri, 1, n);
    assert a * r * ri == a * (r * ri);
    CongTrans(z * ri, a * r * ri, a, n);
  }

  // unblinding the signature of a blinded representative gives the plain signature, whatever r was
  lemma UnblindSigned(m: nat, r: nat, ri: nat, k: PrivateKey, ctx: MontCtx)
    requires k.Valid() && ctx.Valid() && ctx.n == k.n && Cong(r * ri, 1, ctx.n)
    ensures
      var z := ExpMod(BlindRepresentative(m, r, k.e, ctx), k.d, ctx.n);
      UnblindRepresentative(z, ri, ctx) == ExpMod(m, k.d, ctx.n)
  {
    var n := ctx.n;
    var b := BlindRepresentative(m, r, k.e, ctx);
    var z := ExpMod(b, k.d, n);
    BlindCong(m, r, k.e, ctx);
    SignedBlind(m, r, b, k);
    CongRefl(b, n);
    CongRefl(m, n);
    ExpModCong(b, b, k.d, n);
    ExpModCong(m, m, k.d, n);
    CongTrans(z, Pow(b, k.d), Pow(m, k.d) * r, n);
    CancelFactor(Pow(m, k.d), r, ri, z, n);
    MixedProduct(z, ri, ctx);
    var s := UnblindRepresentative(z, ri, ctx);
    CongTrans(s, z * ri, Pow(m, k.d), n);
    CongSym(ExpMod(m, k.d, n), Pow(m, k.d), n);
    CongTrans(s, Pow(m, k.d), ExpMod(m, k.d, n), n);
    CongResidue(s, ExpMod(m, k.d, n), n);
  }

  // different blind signatures unblind to different numbers
  lemma UnblindInjective(z: nat, z': nat, r: nat, ri: nat, ctx: MontCtx)
    requires ctx.Valid() && Cong(r * ri, 1, ctx.n) && z < ctx.n && z' < ctx.n
    requires UnblindRepresentative(z, ri, ctx) == UnblindRepresentative(z', ri, ctx)
    ensures z == z'
  {
    var n, s := ctx.n, UnblindRepresentative(z, ri, ctx);
    MixedProduct(z, ri, ctx);
    MixedProduct(z', ri, ctx);
    CongSym(s, z * ri, n);
    CongTrans(z * ri, s, z' * ri, n);
    assert z * ri == ri * z && z' * ri == ri * z' && r * ri == ri * r;
    CancelUnit(ri, r, z, z', n);
    CongResidue(z, z', n);
  }

  lemma PowSwap(x: nat, a: nat, b: nat)
    ensures Pow(Pow(x, a), b) == Pow(Pow(x, b), a)
  {
    PowMul(x, a, b);
    PowMul(x, b, a);
    assert a * b == b * a;
  }

  // raising a signature to the public exponent gives the representative back
  lemma SignatureOpens(m: nat, k: PrivateKey)
    requires k.Valid() && m < k.n
    ensures ExpMod(ExpMod(m, k.d, k.n), k.e, k.n) == m
  {
    var n := k.n;
    var s := ExpMod(m, k.d, n);
    CongRefl(m, n);
    ExpModCong(m, m, k.d, n);
    ExpModCong(s, Pow(m, k.d), k.e, n);
    PowSwap(m, k.d, k.e);
    assert k.Opens(m);
    CongTrans(ExpMod(s, k.e, n), Pow(Pow(m, k.e), k.d), m, n);
    CongResidue(ExpMod(s, k.e, n), m, n);
  }

  // neither the blinded message nor its signature is zero, so no range check rejects them
  lemma BlindedInRange(m: nat, r: nat, ri: nat, k: PrivateKey, ctx: MontCtx)
    requires k.Valid() && ctx.Valid() && ctx.n == k.n && Cong(r * ri, 1, ctx.n) && 0 < m < ctx.n
    ensures BlindRepresentative(m, r, k.e, ctx) != 0
    ensures ExpMod(BlindRepresentative(m, r, k.e, ctx), k.d, ctx.n) != 0
  {
    var b := BlindRepresentative(m, r, k.e, ctx);
    UnblindSigned(m, r, ri, k, ctx);
    SignatureOpens(m, k);
    ZeroStays(k.e, ri, ctx);
    ZeroStays(k.d, ri, ctx);
  }

  lemma ZeroStays(e: nat, ri: nat, ctx: MontCtx)
    requires ctx.n > 0 && e >= 1
    ensures ExpMod(0, e, ctx.n) == 0 && UnblindRepresentative(0, ri, ctx) == 0
  {
    assert Pow(0, e) == 0;
  }

  // ---- perfect blindness: each blinded value comes from each message under exactly one blind

  // the blind that turns m into b: (b / m)^d
  lemma BlindExists(m: nat, mi: nat, b: nat, k: PrivateKey, ctx: MontCtx) returns (r: nat)
    requires k.Valid() && ctx.Valid() && ctx.n == k.n && Cong(m * mi, 1, ctx.n) && b < ctx.n
    ensures r < ctx.n && BlindRepresentative(m, r, k.e, ctx) == b
  {
    var n := ctx.n;
    var q := MulMod(b, mi, n);
    r := ExpMod(q, k.d, n);
    SignatureOpens(q, k);
    PowNonNegative(r, k.e);
    RemCong(Pow(r, k.e), n);
    CongSym(q, Pow(r, k.e), n);
    RemCong(b * mi, n);
    CongTrans(Pow(r, k.e), q, b * mi, n);
    BlindCong(m, r, k.e, ctx);
    CongRefl(m, n);
    CongMul(m, m, Pow(r, k.e), b * mi, n);
    CongRefl(b, n);
    CongMul(b, b, m * mi, 1, n);
    assert m * (b * mi) == b * (m * mi);
    CongTrans(BlindRepresentative(m, r, k.e, ctx), m * Pow(r, k.e), b * (m * mi), n);
    CongTrans(BlindRepresentative(m, r, k.e, ctx), b * (m * mi), b, n);
    CongResidue(BlindRepresentative(m, r, k.e, ctx), b, n);
  }

  lemma BlindUnique(m: nat, mi: nat, r: nat, r': nat, k: PrivateKey, ctx: MontCtx)
    requires k.Valid() && ctx.Valid() && ctx.n == k.n && Cong(m * mi, 1, ctx.n)
    requires r < ctx.n && r' < ctx.n
    requires BlindRepresentative(m, r, k.e, ctx) == BlindRepresentative(m, r', k.e, ctx)
    ensures r == r'
  {
    var n := ctx.n;
    BlindCong(m, r, k.e, ctx);
    BlindCong(m, r', k.e, ctx);
    CongSym(BlindRepresentative(m, r, k.e, ctx), m * Pow(r, k.e), n);
    CongTrans(m * Pow(r, k.e), BlindRepresentative(m, r, k.e, ctx), m * Pow(r', k.e), n);
    CancelUnit(m, mi, Pow(r, k.e), Pow(r', k.e), n);
    PowCong(Pow(r, k.e), Pow(r', k.e), k.d, n);
    assert k.Opens(r) && k.Opens(r');
    CongSym(Pow(Pow(r, k.e), k.d), r, n);
    CongTrans(r, Pow(Pow(r, k.e), k.d), Pow(Pow(r', k.e), k.d), n);
    CongTrans(r, Pow(Pow(r', k.e), k.d), r', n);
    CongResidue(r, r', n);
  }

  lemma BlindIsUnit(m: nat, r: nat, b: nat, bi: nat, k: PrivateKey, ctx: MontCtx)
    requires k.Valid() && ctx.Valid() && ctx.n == k.n && Cong(b * bi, 1, ctx.n)
    requires BlindRepresentative(m, r, k.e, ctx) == b
    ensures exists ri: nat :: Cong(r * ri, 1, ctx.n)
  {
    var n := ctx.n;
    BlindCong(m, r, k.e, ctx);
    PowNonNegative(r, k.e - 1);
    FactorOfUnit(m, r, Pow(r, k.e - 1), Pow(r, k.e), b, bi, n);
  }

  lemma FactorOfUnit(m: nat, r: nat, rest: nat, re: int, b: nat, bi: nat, n: nat)
    requires re == r * rest && Cong(b, m * re, n) && Cong(b * bi, 1, n)
    ensures exists ri: nat :: Cong(r * ri, 1, n)
  {
    var ri: nat := (m * rest) * bi;
    CongRefl(bi, n);
    CongMul(b, m * re, bi, bi, n);
    CongSym(b * bi, m * re * bi, n);
    Shuffle(m, r, rest, bi);
    CongTrans(r * ri, b * bi, 1, n);
  }

  lemma Shuffle(m: int, r: int, rest: int, bi: int)
    ensures m * (r * rest) * bi == r * ((m * rest) * bi)
  {
    assert m * (r * rest) == r * (m * rest);
  }

  // for units m and b there is exactly one blind that turns m into b, and it is a unit
  lemma PerfectBlindness(m: nat, mi: nat, b: nat, bi: nat, k: PrivateKey, ctx: MontCtx) returns (r: nat)
    requires k.Valid() && ctx.Valid() && ctx.n == k.n && b < ctx.n
    requires Cong(m * mi, 1, ctx.n) && Cong(b * bi, 1, ctx.n)
    ensures r < ctx.n && exists ri: nat :: Cong(r * ri, 1, ctx.n)
    ensures forall r': nat | r' < ctx.n :: BlindRepresentative(m, r', k.e, ctx) == b <==> r' == r
  {
    r := BlindExists(m, mi, b, k, ctx);
    BlindIsUnit(m, r, b, bi, k, ctx);
    forall r': nat | r' < ctx.n && BlindRepresentative(m, r', k.e, ctx) == b ensures r' == r {
      BlindUnique(m, mi, r, r', k, ctx);
    }
  }

  // ---- on octet strings

  // the first draw that is not zero and has an inverse
  function FirstUnit(draws: seq<nat>, n: nat): (r: Option<nat>)
    requires n > 0
    ensures r.Some? ==> ModInverse(r.value, n).Some?
  {
    if draws == [] then None
    else if draws[0] != 0 && ModInverse(draws[0], n).Some? then Some(draws[0])
    else FirstUnit(draws[1..], n)
  }

  function BlindWith(key: PublicKey, m: nat, r: nat, rInverse: nat, ctx: MontCtx): BlindingData
    requires ctx.n > 0
  {
    BlindingData(BigEndian(rInverse, key.size), BigEndian(BlindRepresentative(m, r, key.e, ctx), key.size))
  }

  function Blind(key: PublicKey, msg: Bytes, salt: Bytes, draws: seq<nat>, pss: Pss, bits: nat): Result<BlindingData>
  {
    if NumBytes(key.n) != key.size then Err(INVALID_KEY)
    else
      match MontCtxSet(key.n, bits)
      case None => Err(CRYPTO_ERROR)
      case Some(ctx) =>
        match FirstUnit(draws, key.n)
        case None => Err(BLINDING_FAILED)
        case Some(r) =>
          Ok(BlindWith(key, FromBigEndian(pss.encode(msg, salt)), r, ModInverse(r, key.n).value, ctx))
  }

  function BlindSign(key: PrivateKey, blindedMsg: Bytes, bits: nat): Result<Bytes>
  {
    var m := FromBigEndian(blindedMsg);
    if |blindedMsg| > MAX_INPUT_SIZE then Err(CRYPTO_ERROR)
    else if NumBytes(key.n) != key.size then Err(INVALID_KEY)
    else if |blindedMsg| != key.size then Err(INVALID_LENGTH)
    else if m == 0 || m >= key.n then Err(INVALID_LENGTH)
    else if MontCtxSet(key.n, bits).None? then Err(CRYPTO_ERROR)
    else Ok(BigEndian(ExpMod(m, key.d, key.n), key.size))
  }

  predicate Verify(key: PublicKey, msg: Bytes, signature: Bytes, pss: Pss)
  {
    var s := FromBigEndian(signature);
    |signature| == key.size && s < key.n && pss.verify(msg, BigEndian(ExpMod(s, key.e, key.n), key.size))
  }

  // the result, and what is left of the caller's inverse
  function Finalize(key: PublicKey, blindSig: Bytes, inverse: Bytes, msg: Bytes, pss: Pss,
                    bits: nat): (Result<Bytes>, Bytes)
  {
    var z := FromBigEndian(blindSig);
    if |blindSig| > MAX_INPUT_SIZE || |inverse| > MAX_INPUT_SIZE then (Err(CRYPTO_ERROR), inverse)
    else if NumBytes(key.n) != key.size then (Err(INVALID_KEY), inverse)
    else if |blindSig| != key.size || |inverse| != key.size then (Err(INVALID_LENGTH), inverse)
    else if z == 0 || z >= key.n then (Err(UNBLINDING_FAILED), inverse)
    else
      match MontCtxSet(key.n, bits)
      case None => (Err(UNBLINDING_FAILED), inverse)
      case Some(ctx) =>
        var signature := BigEndian(UnblindRepresentative(z, FromBigEndian(inverse), ctx), key.size);
        (if Verify(key, msg, signature, pss) then Ok(signature) else Err(VERIFICATION_FAILED), [])
  }

  lemma {:induction false} FirstUnitSpec(draws: seq<nat>, n: nat)
    requires n > 0
    ensures FirstUnit(draws, n).Some? ==>
              var r := FirstUnit(draws, n).value; ModInverse(r, n).Some? && Cong(r * ModInverse(r, n).value, 1, n)
  {
    if draws != [] {
      ModInverseSpec(draws[0], n);
      FirstUnitSpec(draws[1..], n);
    }
  }

  lemma {:induction false} NumBytesExact(n: nat, size: nat)
    requires size > 0 && Pow(256, size - 1) <= n < Pow(256, size)
    ensures NumBytes(n) == size
  {
    PowPositive(256, size - 1);
    if size == 1 {
      assert NumBytes(n / 256) == 0;
    } else {
      NumBytesExact(n / 256, size - 1);
    }
  }

  // the encoded message is a representative in range
  lemma EncodingInRange(k: PrivateKey, msg: Bytes, salt: Bytes, pss: Pss)
    requires k.Valid() && pss.IsEncoding(msg, salt, k.size)
    ensures 0 < FromBigEndian(pss.encode(msg, salt)) < k.n
  {
    var em := pss.encode(msg, salt);
    LeadingOctet(em);
    PowPositive(256, k.size - 1);
    Scale(em[0] + 1, 128, Pow(256, k.size - 1));
  }

  lemma Scale(a: nat, b: nat, c: nat)
    requires a <= b
    ensures a * c <= b * c
  {
  }

  // the signature a full run ends with: it depends on the key and the encoding alone
  function PlainSignature(k: PrivateKey, em: Bytes): Bytes
  {
    BigEndian(ExpMod(FromBigEndian(em), k.d, k.n), k.size)
  }

  lemma PlainSignatureVerifies(k: PrivateKey, msg: Bytes, salt: Bytes, pss: Pss)
    requires k.Valid() && pss.IsEncoding(msg, salt, k.size)
    ensures Verify(k.Public(), msg, PlainSignature(k, pss.encode(msg, salt)), pss)
  {
    var em := pss.encode(msg, salt);
    var m := FromBigEndian(em);
    EncodingInRange(k, msg, salt, pss);
    SignatureOpens(m, k);
    DecodeBigEndian(ExpMod(m, k.d, k.n), k.size);
    EncodeFromBigEndian(em);
  }

  // blind, sign and unblind: no check on the way fails, and the result does not depend on the blind
  lemma HonestSignature(k: PrivateKey, msg: Bytes, salt: Bytes, draws: seq<nat>, pss: Pss, bits: nat)
    requires k.Valid() && pss.IsEncoding(msg, salt, k.size)
    requires FirstUnit(draws, k.n).Some?
    ensures
      var data := Blind(k.Public(), msg, salt, draws, pss, bits);
      && data.Ok?
      && var blindSig := BlindSign(k, data.value.blindedMsg, bits);
      && blindSig.Ok?
      && Finalize(k.Public(), blindSig.value, data.value.inverse, msg, pss, bits)
         == (Ok(PlainSignature(k, pss.encode(msg, salt))), [])
  {
    var n := k.n;
    var m := FromBigEndian(pss.encode(msg, salt));
    MontCtxExists(n, bits);
    var ctx := MontCtxSet(n, bits).value;
    var r := FirstUnit(draws, n).value;
    FirstUnitSpec(draws, n);
    ModInverseSpec(r, n);
    var ri := ModInverse(r, n).value;
    NumBytesExact(n, k.size);
    EncodingInRange(k, msg, salt, pss);
    BlindedInRange(m, r, ri, k, ctx);
    UnblindSigned(m, r, ri, k, ctx);
    var b := BlindRepresentative(m, r, k.e, ctx);
    DecodeBigEndian(b, k.size);
    DecodeBigEndian(ri, k.size);
    DecodeBigEndian(ExpMod(b, k.d, n), k.size);
    PlainSignatureVerifies(k, msg, salt, pss);
  }

  lemma FinalizeInjective(key: PublicKey, blindSig: Bytes, blindSig': Bytes, r: nat, inverse: Bytes, msg: Bytes,
                          pss: Pss, bits: nat)
    requires key.n % 2 == 1 && key.n < Pow(256, key.size) && Cong(r * FromBigEndian(inverse), 1, key.n)
    requires Finalize(key, blindSig, inverse, msg, pss, bits).0.Ok?
    requires Finalize(key, blindSig', inverse, msg, pss, bits).0 == Finalize(key, blindSig, inverse, msg, pss, bits).0
    ensures blindSig == blindSig'
  {
    hide NumBytes, Verify, UnblindRepresentative;
    MontCtxExists(key.n, bits);
    var ctx, ri := MontCtxSet(key.n, bits).value, FromBigEndian(inverse);
    var z, z' := FromBigEndian(blindSig), FromBigEndian(blindSig');
    DecodeBigEndian(UnblindRepresentative(z, ri, ctx), key.size);
    DecodeBigEndian(UnblindRepresentative(z', ri, ctx), key.size);
    UnblindInjective(z, z', r, ri, ctx);
    EncodeFromBigEndian(blindSig);
    EncodeFromBigEndian(blindSig');
  }

  // no other answer than the key's own signature of the blinded message ends a run with this signature
  lemma OnlyOwnSignature(k: PrivateKey, msg: Bytes, salt: Bytes, draws: seq<nat>, answer: Bytes, pss: Pss, bits: nat)
    requires k.Valid() && pss.IsEncoding(msg, salt, k.size)
    requires FirstUnit(draws, k.n).Some?
    ensures
      var data := Blind(k.Public(), msg, salt, draws, pss, bits);
      && data.Ok?
      && (Finalize(k.Public(), answer, data.value.inverse, msg, pss, bits).0
            == Ok(PlainSignature(k, pss.encode(msg, salt)))
          <==> BlindSign(k, data.value.blindedMsg, bits) == Ok(answer))
  {
    hide Finalize, BlindSign, PlainSignature, Pss.IsEncoding;
    HonestSignature(k, msg, salt, draws, pss, bits);
    var data := Blind(k.Public(), msg, salt, draws, pss, bits).value;
    var own := BlindSign(k, data.blindedMsg, bits).value;
    var r := FirstUnit(draws, k.n).value;
    FirstUnitSpec(draws, k.n);
    ModInverseSpec(r, k.n);
    DecodeBigEndian(ModInverse(r, k.n).value, k.size);
    if Finalize(k.Public(), answer, data.inverse, msg, pss, bits).0 == Ok(PlainSignature(k, pss.encode(msg, salt))) {
      FinalizeInjective(k.Public(), own, answer, r, data.inverse, msg, pss, bits);
    }
  }

  // ---- the operations as the source performs them

  method BlindMessage(key: PublicKey, msg: Bytes, salt: Bytes, draws: seq<nat>, pss: Pss, bits: nat)
    returns (result: Result<BlindingData>)
    ensures result == Blind(key, msg, salt, draws, pss, bits)
  {
    var modSize := NumBytes(key.n);
    if modSize != key.size {
      return Err(INVALID_KEY);
    }
    var m := FromBigEndian(pss.encode(msg, salt));
    var mont := MontCtxSet(key.n, bits);
    if mont.None? {
      return Err(CRYPTO_ERROR);
    }
    // rejection sampling: the random source fails once the draws are used up
    var i, r := 0, 0;
    var rInverse: Option<nat> := None;
    while r == 0 || rInverse.None?
      invariant 0 <= i <= |draws|
      invariant (r == 0 || rInverse.None?) ==> FirstUnit(draws, key.n) == FirstUnit(draws[i..], key.n)
      invariant r != 0 && rInverse.Some? ==> FirstUnit(draws, key.n) == Some(r) && rInverse == ModInverse(r, key.n)
      decreases |draws| - i, r == 0 || rInverse.None?
    {
      if i == |draws| {
        return Err(BLINDING_FAILED);
      }
      r := draws[i];
      rInverse := ModInverse(r, key.n);
      i := i + 1;
    }
    var x := ExpMod(r, key.e, key.n);
    var xMont := ToMontgomery(x, mont.value);
    var blinded := MulMontgomery(m, xMont, mont.value);
    var inverse := BigEndian(rInverse.value, modSize);
    result := Ok(BlindingData(inverse, BigEndian(blinded, modSize)));
  }

  method SignBlinded(key: PrivateKey, blindedMsg: Bytes, bits: nat) returns (result: Result<Bytes>)
    ensures result == BlindSign(key, blindedMsg, bits)
  {
    if |blindedMsg| > MAX_INPUT_SIZE {
      return Err(CRYPTO_ERROR);
    }
    var n := key.n;
    if NumBytes(n) != key.size {
      return Err(INVALID_KEY);
    }
    if |blindedMsg| != key.size {
      return Err(INVALID_LENGTH);
    }
    var m := FromBigEndian(blindedMsg);
    if m == 0 || m >= n {
      return Err(INVALID_LENGTH);
    }
    if MontCtxSet(n, bits).None? {
      return Err(CRYPTO_ERROR);
    }
    result := Ok(BigEndian(ExpMod(m, key.d, n), key.size));
  }

  // the caller's inverse is cleared as soon as it has been used, before the signature is verified
  method FinalizeSignature(key: PublicKey, blindSig: Bytes, inverse: Bytes, msg: Bytes, pss: Pss, bits: nat)
    returns (result: Result<Bytes>, inverse': Bytes)
    ensures (result, inverse') == Finalize(key, blindSig, inverse, msg, pss, bits)
  {
    inverse' := inverse;
    if |blindSig| > MAX_INPUT_SIZE || |inverse'| > MAX_INPUT_SIZE {
      return Err(CRYPTO_ERROR), inverse';
    }
    if NumBytes(key.n) != key.size {
      return Err(INVALID_KEY), inverse';
    }
    if |blindSig| != key.size || |inverse'| != key.size {
      return Err(INVALID_LENGTH), inverse';
    }
    var z := FromBigEndian(blindSig);
    var rInverse := FromBigEndian(inverse');
    if z == 0 || z >= key.n {
      return Err(UNBLINDING_FAILED), inverse';
    }
    var mont := MontCtxSet(key.n, bits);
    if mont.None? {
      return Err(UNBLINDING_FAILED), inverse';
    }
    var rInverseMont := ToMontgomery(rInverse, mont.value);
    var sig := MulMontgomery(z, rInverseMont, mont.value);
    var signature := BigEndian(sig, key.size);
    inverse' := [];
    if !Verify(key, msg, signature, pss) {
      return Err(VERIFICATION_FAILED), inverse';
    }
    result := Ok(signature);
  }

  // A blind is good for one use: an attempt clears it exactly when it got as far as unblinding, and then the next
  // attempt is refused for its length.
  lemma InverseSpent(key: PublicKey, blindSig: Bytes, inverse: Bytes, msg: Bytes, blindSig': Bytes, msg': Bytes,
                     pss: Pss, bits: nat)
    requires key.size > 0
    ensures
      var (first, left) := Finalize(key, blindSig, inverse, msg, pss, bits);
      && (left == if first.Ok? || first == Err(VERIFICATION_FAILED) then [] else inverse)
      && (first.Ok? || first == Err(VERIFICATION_FAILED) ==>
            inverse != []
            && Finalize(key, blindSig', left, msg', pss, bits)
               == (Err(if |blindSig'| > MAX_INPUT_SIZE then CRYPTO_ERROR else INVALID_LENGTH), []))
  {
  }
}
