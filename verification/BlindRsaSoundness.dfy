// Which blinded messages and signatures src/crypto/blind_rsa.cpp makes, signs, unblinds and accepts.
module BlindRsaSoundness {
  import opened Types
  import opened Congruence
  import opened NumberTheory
  import Division
  import opened ModularField
  import opened Octets
  import opened RsaArithmetic
  import opened BlindRsa

  lemma ModulusFits(k: PrivateKey)
    requires k.Valid()
    ensures NumBytes(k.n) == k.size && 1 < k.n < Pow(256, k.size)
  {
    PowPositive(256, k.size - 1);
    NumBytesExact(k.n, k.size);
  }

  // ---- verification

  // (s^e)^d = s
  lemma OpensBack(s: nat, k: PrivateKey)
    requires k.Valid() && s < k.n
    ensures ExpMod(ExpMod(s, k.e, k.n), k.d, k.n) == s
  {
    var n := k.n;
    var m := ExpMod(s, k.e, n);
    CongRefl(s, n);
    ExpModCong(s, s, k.e, n);
    ExpModCong(m, Pow(s, k.e), k.d, n);
    assert k.Opens(s);
    CongTrans(ExpMod(m, k.d, n), Pow(Pow(s, k.e), k.d), s, n);
    CongResidue(ExpMod(m, k.d, n), s, n);
  }

  // an encoding of the message of which this is the plain signature
  ghost predicate Signs(k: PrivateKey, msg: Bytes, signature: Bytes, pss: Pss, em: Bytes) {
    && |em| == k.size && FromBigEndian(em) < k.n && pss.verify(msg, em)
    && signature == PlainSignature(k, em)
  }

  // A signature is accepted exactly when it is the plain signature of some encoding that verifies for the message.
  lemma VerifyIff(k: PrivateKey, msg: Bytes, signature: Bytes, pss: Pss)
    requires k.Valid()
    ensures Verify(k.Public(), msg, signature, pss) <==> exists em :: Signs(k, msg, signature, pss, em)
  {
    hide ExpMod, FromBigEndian, BigEndian;
    ModulusFits(k);
    var s := FromBigEndian(signature);
    if Verify(k.Public(), msg, signature, pss) {
      var em := BigEndian(ExpMod(s, k.e, k.n), k.size);
      DecodeBigEndian(ExpMod(s, k.e, k.n), k.size);
      OpensBack(s, k);
      EncodeFromBigEndian(signature);
      assert Signs(k, msg, signature, pss, em);
    }
    if em :| Signs(k, msg, signature, pss, em) {
      var m := FromBigEndian(em);
      SignatureOpens(m, k);
      DecodeBigEndian(ExpMod(m, k.d, k.n), k.size);
      EncodeFromBigEndian(em);
    }
  }

  // ---- blinding

  // the draw that is used is the first that is not zero and has an inverse
  lemma {:induction false} FirstUnitIs(draws: seq<nat>, n: nat, r: nat)
    requires n > 0
    ensures FirstUnit(draws, n) == Some(r)
       <==> && IsUnit(r, n)
            && exists i: nat :: i < |draws| && draws[i] == r && forall j | 0 <= j < i :: !IsUnit(draws[j], n)
  {
    if draws != [] {
      FirstUnitIs(draws[1..], n, r);
      UnitIff(draws[0], n);
      if i: nat :| i < |draws| && draws[i] == r && forall j | 0 <= j < i :: !IsUnit(draws[j], n) {
        if i > 0 {
          assert draws[1..][i - 1] == r && forall j | 0 <= j < i - 1 :: draws[1..][j] == draws[j + 1];
        }
      }
      if !IsUnit(draws[0], n) && FirstUnit(draws, n) == Some(r) {
        var i: nat :| i < |draws[1..]| && draws[1..][i] == r && forall j | 0 <= j < i :: !IsUnit(draws[1..][j], n);
        assert draws[i + 1] == r && forall j | 0 < j < i + 1 :: draws[j] == draws[1..][j - 1];
      }
    }
  }

  ghost predicate IsUnit(r: nat, n: nat) { r != 0 && exists ri: nat :: Cong(r * ri, 1, n) }

  lemma UnitIff(r: nat, n: nat)
    requires n > 0
    ensures IsUnit(r, n) <==> r != 0 && ModInverse(r, n).Some?
  {
    ModInverseSpec(r, n);
    if ri: nat :| Cong(r * ri, 1, n) {
      var w := Division.Rem(ri, n);
      RemCong(ri, n);
      CongRefl(r, n);
      CongMul(r, r, w, ri, n);
      CongTrans(r * w, r * ri, 1, n);
    }
  }

  // The blinded message is m r^e and the stored inverse undoes r, for the first draw r that has one.
  lemma BlindIs(key: PublicKey, msg: Bytes, salt: Bytes, draws: seq<nat>, pss: Pss, bits: nat) returns (r: nat)
    requires key.n % 2 == 1 && Blind(key, msg, salt, draws, pss, bits).Ok?
    ensures FirstUnit(draws, key.n) == Some(r)
    ensures var data, m := Blind(key, msg, salt, draws, pss, bits).value, FromBigEndian(pss.encode(msg, salt));
            && |data.inverse| == key.size && |data.blindedMsg| == key.size
            && FromBigEndian(data.inverse) < key.n && Cong(r * FromBigEndian(data.inverse), 1, key.n)
            && FromBigEndian(data.blindedMsg) < key.n
            && Cong(FromBigEndian(data.blindedMsg), m * Pow(r, key.e), key.n)
  {
    hide FromBigEndian, BigEndian, BlindRepresentative, ModInverse;
    var n, m := key.n, FromBigEndian(pss.encode(msg, salt));
    MontCtxExists(n, bits);
    var ctx := MontCtxSet(n, bits).value;
    r := FirstUnit(draws, n).value;
    FirstUnitSpec(draws, n);
    ModInverseSpec(r, n);
    NumBytesBounds(n);
    BlindCong(m, r, key.e, ctx);
    DecodeBigEndian(ModInverse(r, n).value, key.size);
    DecodeBigEndian(BlindRepresentative(m, r, key.e, ctx), key.size);
  }

  // it fails exactly for a modulus of another length, and when no draw has an inverse
  lemma BlindFails(key: PublicKey, msg: Bytes, salt: Bytes, draws: seq<nat>, pss: Pss, bits: nat)
    requires key.n % 2 == 1
    ensures var result := Blind(key, msg, salt, draws, pss, bits);
            && (result == Err(INVALID_KEY) <==> NumBytes(key.n) != key.size)
            && (result == Err(BLINDING_FAILED)
                <==> NumBytes(key.n) == key.size && forall i | 0 <= i < |draws| :: !IsUnit(draws[i], key.n))
            && (result.Ok? || result == Err(INVALID_KEY) || result == Err(BLINDING_FAILED))
  {
    hide FromBigEndian, BigEndian, BlindRepresentative, ModInverse, NumBytes, FirstUnit, IsUnit;
    MontCtxExists(key.n, bits);
    NoUnit(draws, key.n);
  }

  lemma {:induction false} NoUnit(draws: seq<nat>, n: nat)
    requires n > 0
    ensures FirstUnit(draws, n) == None <==> forall i | 0 <= i < |draws| :: !IsUnit(draws[i], n)
  {
    hide IsUnit;
    if draws != [] {
      NoUnit(draws[1..], n);
      UnitIff(draws[0], n);
      assert forall i | 0 < i < |draws| :: draws[i] == draws[1..][i - 1];
    }
  }

  // blinding with the single draw r sends b
  ghost predicate BlindsTo(key: PublicKey, msg: Bytes, salt: Bytes, r: nat, pss: Pss, bits: nat, b: nat) {
    var data := Blind(key, msg, salt, [r], pss, bits);
    data.Ok? && FromBigEndian(data.value.blindedMsg) == b
  }

  lemma BlindsToIff(k: PrivateKey, msg: Bytes, salt: Bytes, r: nat, pss: Pss, bits: nat, b: nat, ctx: MontCtx)
    requires k.Valid() && MontCtxSet(k.n, bits) == Some(ctx)
    ensures BlindsTo(k.Public(), msg, salt, r, pss, bits, b)
       <==> IsUnit(r, k.n) && BlindRepresentative(FromBigEndian(pss.encode(msg, salt)), r, k.e, ctx) == b
  {
    hide BigEndian, FromBigEndian, BlindRepresentative, ModInverse, Cong, NumBytes, IsUnit;
    ModulusFits(k);
    DecodeBigEndian(BlindRepresentative(FromBigEndian(pss.encode(msg, salt)), r, k.e, ctx), k.size);
    UnitIff(r, k.n);
    assert [r][1..] == [] && FirstUnit([], k.n) == None;
  }

  // Blindness: for a unit encoding, each unit is the blinded message for exactly one draw.
  lemma MessageHidden(k: PrivateKey, msg: Bytes, salt: Bytes, pss: Pss, bits: nat, mi: nat, b: nat, bi: nat)
      returns (r: nat)
    requires k.Valid() && b < k.n && Cong(b * bi, 1, k.n) && Cong(FromBigEndian(pss.encode(msg, salt)) * mi, 1, k.n)
    ensures r < k.n
    ensures forall r': nat | r' < k.n :: BlindsTo(k.Public(), msg, salt, r', pss, bits, b) <==> r' == r
  {
    hide BlindsTo, FromBigEndian, BlindRepresentative, IsUnit;
    MontCtxExists(k.n, bits);
    ModulusFits(k);
    var ctx := MontCtxSet(k.n, bits).value;
    r := PerfectBlindness(FromBigEndian(pss.encode(msg, salt)), mi, b, bi, k, ctx);
    UnitNotZero(r, k.n);
    forall r': nat | r' < k.n ensures BlindsTo(k.Public(), msg, salt, r', pss, bits, b) <==> r' == r {
      BlindsToIff(k, msg, salt, r', pss, bits, b, ctx);
    }
  }

  lemma UnitNotZero(r: nat, n: nat)
    requires n > 1 && exists ri: nat :: Cong(r * ri, 1, n)
    ensures IsUnit(r, n)
  {
    if r == 0 {
      var ri: nat :| Cong(r * ri, 1, n);
      CongResidue(0, 1, n);
    }
  }

  // ---- signing

  // The issuer signs exactly the numbers between 0 and n, and the signature's e-th power is the number.
  lemma SignsIff(k: PrivateKey, blinded: Bytes, bits: nat)
    requires k.Valid()
    ensures BlindSign(k, blinded, bits).Ok? <==> |blinded| == k.size && 0 < FromBigEndian(blinded) < k.n
    ensures BlindSign(k, blinded, bits).Ok? ==>
              var signature := BlindSign(k, blinded, bits).value;
              && |signature| == k.size && FromBigEndian(signature) < k.n
              && ExpMod(FromBigEndian(signature), k.e, k.n) == FromBigEndian(blinded)
    ensures BlindSign(k, blinded, bits).Err? ==>
              BlindSign(k, blinded, bits) == Err(if |blinded| > MAX_INPUT_SIZE then CRYPTO_ERROR else INVALID_LENGTH)
  {
    hide BigEndian, FromBigEndian, ExpMod, NumBytes;
    ModulusFits(k);
    MontCtxExists(k.n, bits);
    var m := FromBigEndian(blinded);
    if m < k.n {
      SignatureOpens(m, k);
      DecodeBigEndian(ExpMod(m, k.d, k.n), k.size);
    }
  }

  // ---- unblinding

  // the answer is in range and unblinds to the plain signature of an encoding that verifies
  ghost predicate Unblinds(k: PrivateKey, blindSig: Bytes, inverse: Bytes, msg: Bytes, signature: Bytes, pss: Pss,
                           em: Bytes) {
    && |blindSig| == k.size && |inverse| == k.size && 0 < FromBigEndian(blindSig) < k.n
    && Signs(k, msg, signature, pss, em)
    && Cong(FromBigEndian(blindSig) * FromBigEndian(inverse), FromBigEndian(signature), k.n)
  }

  // The client ends with a signature exactly when the answer unblinds to it and it verifies.
  lemma FinalizeIff(k: PrivateKey, blindSig: Bytes, inverse: Bytes, msg: Bytes, signature: Bytes, pss: Pss, bits: nat)
    requires k.Valid()
    ensures Finalize(k.Public(), blindSig, inverse, msg, pss, bits).0 == Ok(signature)
       <==> exists em :: Unblinds(k, blindSig, inverse, msg, signature, pss, em)
  {
    hide BigEndian, FromBigEndian, ExpMod, NumBytes, Verify, Signs, UnblindRepresentative, Cong;
    ModulusFits(k);
    MontCtxExists(k.n, bits);
    var ctx := MontCtxSet(k.n, bits).value;
    var z, ri := FromBigEndian(blindSig), FromBigEndian(inverse);
    var s := UnblindRepresentative(z, ri, ctx);
    MixedProduct(z, ri, ctx);
    Unblinded(z, ri, ctx);
    CongSym(s, z * ri, k.n);
    DecodeBigEndian(s, k.size);
    VerifyIff(k, msg, signature, pss);
    if em :| Unblinds(k, blindSig, inverse, msg, signature, pss, em) {
      SignedInRange(k, msg, signature, pss, em);
      CongTrans(s, z * ri, FromBigEndian(signature), k.n);
      CongResidue(s, FromBigEndian(signature), k.n);
      EncodeFromBigEndian(signature);
    }
    if Finalize(k.Public(), blindSig, inverse, msg, pss, bits).0 == Ok(signature) {
      var em :| Signs(k, msg, signature, pss, em);
      assert Unblinds(k, blindSig, inverse, msg, signature, pss, em);
    }
  }

  lemma Unblinded(z: nat, ri: nat, ctx: MontCtx)
    requires ctx.Valid()
    ensures UnblindRepresentative(z, ri, ctx) < ctx.n
    ensures Cong(UnblindRepresentative(z, ri, ctx), z * ri, ctx.n)
  {
    MixedProduct(z, ri, ctx);
  }

  lemma SignedInRange(k: PrivateKey, msg: Bytes, signature: Bytes, pss: Pss, em: Bytes)
    requires k.Valid() && Signs(k, msg, signature, pss, em)
    ensures |signature| == k.size && FromBigEndian(signature) < k.n
  {
    ModulusFits(k);
    DecodeBigEndian(ExpMod(FromBigEndian(em), k.d, k.n), k.size);
  }

  // otherwise the error says how far it got
  lemma FinalizeFails(k: PrivateKey, blindSig: Bytes, inverse: Bytes, msg: Bytes, pss: Pss, bits: nat)
    requires k.Valid()
    ensures var result := Finalize(k.Public(), blindSig, inverse, msg, pss, bits).0;
            var tooLong := |blindSig| > MAX_INPUT_SIZE || |inverse| > MAX_INPUT_SIZE;
            var sized := |blindSig| == k.size && |inverse| == k.size;
            var inRange := 0 < FromBigEndian(blindSig) < k.n;
            && (result == Err(CRYPTO_ERROR) <==> tooLong)
            && (result == Err(INVALID_LENGTH) <==> !tooLong && !sized)
            && (result == Err(UNBLINDING_FAILED) <==> sized && !inRange)
            && (result == Err(VERIFICATION_FAILED) <==> sized && inRange && result.Err?)
  {
    hide BigEndian, FromBigEndian, NumBytes, Verify, UnblindRepresentative;
    ModulusFits(k);
    MontCtxExists(k.n, bits);
  }
}
