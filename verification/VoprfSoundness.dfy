// What the proofs and outputs of src/crypto/voprf.cpp bind: which of them are accepted, and to what.
module VoprfSoundness {
  import opened Types
  import opened Congruence
  import opened NumberTheory
  import opened ModularField
  import opened Octets
  import opened PrimeOrderGroup
  import opened Transcripts
  import opened Voprf

  // ---- what the transcripts hold

  lemma EncodingsDiffer<P(!new)>(g: Group<P>, a: P, b: P)
    requires g.Valid() && g.encode(a) == g.encode(b)
    ensures a == b
  {
    assert g.Encodable(a) && g.Encodable(b);
  }

  // the challenge is a hash of the key, the composites and the commitments, in this order
  lemma ChallengeReads<P(!new)>(s: Suite<P>, y: P, m: P, z: P, a: P, b: P)
    requires s.g.Valid()
    ensures ReadFields(ChallengeTranscript(s, y, m, z, a, b), 5)
         == Some(([s.g.encode(y), s.g.encode(m), s.g.encode(z), s.g.encode(a), s.g.encode(b)], ToBytes("Challenge")))
  {
    hide ReadFields, Prefixed, ToBytes;
    var e := s.g.encode;
    assert s.g.Encodable(y) && s.g.Encodable(m) && s.g.Encodable(z) && s.g.Encodable(a) && s.g.Encodable(b);
    var t0 := ToBytes("Challenge");
    var t1 := Prefixed(e(b)) + t0;
    var t2 := Prefixed(e(a)) + t1;
    var t3 := Prefixed(e(z)) + t2;
    var t4 := Prefixed(e(m)) + t3;
    var t5 := Prefixed(e(y)) + t4;
    Regrouped(Prefixed(e(y)), Prefixed(e(m)), Prefixed(e(z)), Prefixed(e(a)), Prefixed(e(b)), t0);
    ReadNone(t0);
    var all := [e(y), e(m), e(z), e(a), e(b)];
    assert all[5..] == [];
    ReadFirst(t1, e(b), t0, 0, all[4..], t0);
    ReadFirst(t2, e(a), t1, 1, all[3..], t0);
    ReadFirst(t3, e(z), t2, 2, all[2..], t0);
    ReadFirst(t4, e(m), t3, 3, all[1..], t0);
    ReadFirst(t5, e(y), t4, 4, all, t0);
  }

  lemma Regrouped(a: Bytes, b: Bytes, c: Bytes, d: Bytes, e: Bytes, f: Bytes)
    ensures a + b + c + d + e + f == a + (b + (c + (d + (e + f))))
  {
  }

  // the composite scalar is a hash of a hash of the key, of the index 0 (an empty field) and of the two elements
  lemma CompositeReads<P(!new)>(s: Suite<P>, y: P, c: P, d: P)
    requires s.g.Valid()
    ensures ReadFields(SeedTranscript(s, y), 2) == Some(([s.g.encode(y), DST_SEED], []))
    ensures ReadFields(CompositeTranscript(s, y, c, d), 4)
         == Some(([s.hash(SeedTranscript(s, y)), [], s.g.encode(c), s.g.encode(d)], ToBytes("Composite")))
  {
    hide ReadFields, Prefixed, ToBytes, SeedTranscript;
    var e, seed := s.g.encode, s.hash(SeedTranscript(s, y));
    assert s.g.Encodable(y) && s.g.Encodable(c) && s.g.Encodable(d);
    var t0 := ToBytes("Composite");
    var t1 := Prefixed(e(d)) + t0;
    var t2 := Prefixed(e(c)) + t1;
    var t3 := Prefixed([]) + t2;
    var t4 := Prefixed(seed) + t3;
    NoOctets();
    assert CompositeTranscript(s, y, c, d) == t4;
    ReadNone(t0);
    var all := [seed, [], e(c), e(d)];
    assert all[4..] == [];
    ReadFirst(t1, e(d), t0, 0, all[3..], t0);
    ReadFirst(t2, e(c), t1, 1, all[2..], t0);
    ReadFirst(t3, [], t2, 2, all[1..], t0);
    ReadFirst(t4, seed, t3, 3, all, t0);
    SeedReads(s, y);
  }

  lemma NoOctets()
    ensures Prefixed([]) == Wire.U16(0)
  {
  }

  lemma SeedReads<P(!new)>(s: Suite<P>, y: P)
    requires s.g.Valid()
    ensures ReadFields(SeedTranscript(s, y), 2) == Some(([s.g.encode(y), DST_SEED], []))
  {
    hide ReadFields, Prefixed, ToBytes;
    assert s.g.Encodable(y);
    DstLengths();
    var t1 := Prefixed(DST_SEED) + [];
    assert t1 == Prefixed(DST_SEED);
    ReadNone([]);
    var all := [s.g.encode(y), DST_SEED];
    assert all[2..] == [];
    ReadFirst(t1, DST_SEED, [], 0, all[1..], []);
    ReadFirst(SeedTranscript(s, y), s.g.encode(y), t1, 1, all, []);
  }

  // the output is a hash of the input and the element
  lemma FinalizeReads(input: Bytes, element: Bytes)
    requires |input| <= MAX_U16 && |element| <= MAX_U16
    ensures ReadFields(FinalizeTranscript(input, element), 2) == Some(([input, element], ToBytes("Finalize")))
  {
    hide ReadFields, Prefixed, ToBytes;
    var t0 := ToBytes("Finalize");
    var t1 := Prefixed(element) + t0;
    assert FinalizeTranscript(input, element) == Prefixed(input) + t1;
    ReadNone(t0);
    var all := [input, element];
    assert all[2..] == [];
    ReadFirst(t1, element, t0, 0, all[1..], t0);
    ReadFirst(FinalizeTranscript(input, element), input, t1, 1, all, t0);
  }

  // ---- which proofs are accepted

  // the two equations that an answer sc to the challenge c must meet for the commitments a and b
  ghost predicate Answers<P(!new)>(g: Group<P>, y: P, m: P, z: P, c: nat, sc: nat, a: P, b: P) {
    && c < g.order && sc < g.order
    && g.add(a, g.Mul(g.order - c, y)) == g.Mul(sc, g.base)
    && g.add(b, g.Mul(g.order - c, z)) == g.Mul(sc, m)
  }

  // a + (q - c) y = d says the same as a = d + c y
  lemma Transposed<P(!new)>(g: Group<P>, c: nat, a: P, y: P, d: P)
    requires g.Valid() && c <= g.order
    ensures g.add(a, g.Mul(g.order - c, y)) == d <==> a == g.add(d, g.Mul(c, y))
  {
    var n := g.Mul(g.order - c, y);
    MulAdd(g, g.order - c, c, y);
    MulAdd(g, c, g.order - c, y);
    assert g.Annihilated(y);
    AddZero(g, a);
    AddZero(g, d);
    assert g.Associative(a, n, g.Mul(c, y)) && g.Associative(d, g.Mul(c, y), n);
  }

  lemma AnswersIff<P(!new)>(g: Group<P>, y: P, m: P, z: P, c: nat, sc: nat, a: P, b: P)
    requires g.Valid() && c < g.order && sc < g.order
    ensures Answers(g, y, m, z, c, sc, a, b) <==> a == CommitmentG(g, y, c, sc) && b == CommitmentM(g, m, z, c, sc)
  {
    Transposed(g, c, a, y, g.Mul(sc, g.base));
    Transposed(g, c, b, z, g.Mul(sc, m));
  }

  // t is the transcript of these points
  ghost predicate ReadsAs<P(!new)>(s: Suite<P>, t: Bytes, y: P, m: P, z: P, a: P, b: P) {
    var e := s.g.encode;
    ReadFields(t, 5) == Some(([e(y), e(m), e(z), e(a), e(b)], ToBytes("Challenge")))
  }

  // The proof is the challenge c and the answer sc; sc answers c for the commitments a and b, and c is the hash of
  // their transcript.
  ghost predicate Accepted<P(!new)>(s: Suite<P>, y: P, m: P, z: P, proof: Bytes, c: nat, sc: nat, a: P, b: P, t: Bytes)
    requires s.Shaped()
  {
    && proof == BigEndian(c, s.g.scalarSize) + BigEndian(sc, s.g.scalarSize)
    && Answers(s.g, y, m, z, c, sc, a, b)
    && ReadsAs(s, t, y, m, z, a, b) && c == HashToScalar(s, t)
  }

  ghost predicate IsScalars<P(!new)>(g: Group<P>, proof: Bytes, c: nat, sc: nat) {
    c < g.order && sc < g.order && proof == BigEndian(c, g.scalarSize) + BigEndian(sc, g.scalarSize)
  }

  lemma ScalarsRead<P(!new)>(g: Group<P>, proof: Bytes, c: nat, sc: nat)
    requires g.Valid() && IsScalars(g, proof, c, sc)
    ensures |proof| == 2 * g.scalarSize
    ensures FromBigEndian(proof[..g.scalarSize]) == c && FromBigEndian(proof[g.scalarSize..]) == sc
  {
    DecodeBigEndian(c, g.scalarSize);
    DecodeBigEndian(sc, g.scalarSize);
    assert proof[..g.scalarSize] == BigEndian(c, g.scalarSize);
    assert proof[g.scalarSize..] == BigEndian(sc, g.scalarSize);
  }

  lemma ScalarsWritten<P(!new)>(g: Group<P>, proof: Bytes)
    requires |proof| == 2 * g.scalarSize
    ensures var c, sc := FromBigEndian(proof[..g.scalarSize]), FromBigEndian(proof[g.scalarSize..]);
            c < g.order && sc < g.order ==> IsScalars(g, proof, c, sc)
  {
    EncodeFromBigEndian(proof[..g.scalarSize]);
    EncodeFromBigEndian(proof[g.scalarSize..]);
    assert proof == proof[..g.scalarSize] + proof[g.scalarSize..];
  }

  lemma VerifiedIsAccepted<P(!new)>(s: Suite<P>, y: P, r: P, z: P, proof: Bytes) returns (c: nat, sc: nat, a: P, b: P)
    requires s.Shaped() && s.g.Valid() && VerifyProof(s, y, r, z, proof) == Ok(true)
    ensures var (m, zc) := Composites(s, y, r, z);
            Accepted(s, y, m, zc, proof, c, sc, a, b, ChallengeTranscript(s, y, m, zc, a, b))
  {
    hide FromBigEndian, BigEndian, HashToScalar, ChallengeTranscript, Composites, ReadFields;
    var (m, zc) := Composites(s, y, r, z);
    ScalarsWritten(s.g, proof);
    c, sc := FromBigEndian(proof[..s.g.scalarSize]), FromBigEndian(proof[s.g.scalarSize..]);
    a, b := CommitmentG(s.g, y, c, sc), CommitmentM(s.g, m, zc, c, sc);
    AnswersIff(s.g, y, m, zc, c, sc, a, b);
    ChallengeReads(s, y, m, zc, a, b);
    BigEndianInjective(c, DleqChallenge(s, y, m, zc, a, b), s.g.scalarSize);
  }

  lemma AcceptedIsVerified<P(!new)>(s: Suite<P>, y: P, r: P, z: P, proof: Bytes, c: nat, sc: nat, a: P, b: P, t: Bytes)
    requires s.Shaped() && s.g.Valid()
    requires var (m, zc) := Composites(s, y, r, z); Accepted(s, y, m, zc, proof, c, sc, a, b, t)
    ensures VerifyProof(s, y, r, z, proof) == Ok(true)
  {
    hide FromBigEndian, BigEndian, HashToScalar, ChallengeTranscript, Composites, ReadFields;
    var (m, zc) := Composites(s, y, r, z);
    ScalarsRead(s.g, proof, c, sc);
    AnswersIff(s.g, y, m, zc, c, sc, a, b);
    ChallengeReads(s, y, m, zc, a, b);
    ReadFieldsInjective(t, ChallengeTranscript(s, y, m, zc, a, b), 5);
  }

  // A proof is accepted exactly when it is an answer to the hash of its own transcript, and it is an error exactly
  // when it is not two scalars in range.
  lemma VerifiesIff<P(!new)>(s: Suite<P>, y: P, r: P, z: P, proof: Bytes)
    requires s.Shaped() && s.g.Valid()
    ensures var (m, zc) := Composites(s, y, r, z);
            VerifyProof(s, y, r, z, proof) == Ok(true)
            <==> exists c: nat, sc: nat, a: P, b: P, t: Bytes :: Accepted(s, y, m, zc, proof, c, sc, a, b, t)
    ensures VerifyProof(s, y, r, z, proof) == Err(VERIFICATION_FAILED)
       <==> !exists c: nat, sc: nat :: IsScalars(s.g, proof, c, sc)
  {
    hide VerifyProof, Composites, Accepted;
    var (m, zc) := Composites(s, y, r, z);
    if VerifyProof(s, y, r, z, proof) == Ok(true) {
      var c, sc, a, b := VerifiedIsAccepted(s, y, r, z, proof);
    }
    forall c: nat, sc: nat, a: P, b: P, t: Bytes | Accepted(s, y, m, zc, proof, c, sc, a, b, t)
      ensures VerifyProof(s, y, r, z, proof) == Ok(true)
    {
      AcceptedIsVerified(s, y, r, z, proof, c, sc, a, b, t);
    }
    RefusedIff(s, y, r, z, proof);
  }

  lemma RefusedIff<P(!new)>(s: Suite<P>, y: P, r: P, z: P, proof: Bytes)
    requires s.Shaped() && s.g.Valid()
    ensures VerifyProof(s, y, r, z, proof) == Err(VERIFICATION_FAILED)
       <==> !exists c: nat, sc: nat :: IsScalars(s.g, proof, c, sc)
  {
    hide FromBigEndian, BigEndian, Composites, DleqChallenge, IsScalars;
    forall c: nat, sc: nat | IsScalars(s.g, proof, c, sc) ensures VerifyProof(s, y, r, z, proof).Ok? {
      ScalarsRead(s.g, proof, c, sc);
      InRange(s.g, proof, c, sc);
    }
    if VerifyProof(s, y, r, z, proof).Ok? {
      ScalarsWritten(s.g, proof);
    }
  }

  lemma InRange<P(!new)>(g: Group<P>, proof: Bytes, c: nat, sc: nat)
    requires IsScalars(g, proof, c, sc)
    ensures c < g.order && sc < g.order
  {
  }

  // Two accepted proofs with one challenge and two answers show two transcripts of one key and one pair of
  // composites, with different commitments, that hash to one scalar.
  lemma TwoAnswers<P(!new)>(s: Suite<P>, y: P, r: P, z: P, proof: Bytes, proof': Bytes)
      returns (a: P, b: P, a': P, b': P)
    requires s.Shaped() && s.g.Valid() && proof != proof'
    requires VerifyProof(s, y, r, z, proof) == Ok(true) && VerifyProof(s, y, r, z, proof') == Ok(true)
    requires proof[..s.g.scalarSize] == proof'[..s.g.scalarSize]
    ensures var (m, zc) := Composites(s, y, r, z);
            var t, t' := ChallengeTranscript(s, y, m, zc, a, b), ChallengeTranscript(s, y, m, zc, a', b');
            a != a' && t != t' && HashToScalar(s, t) == HashToScalar(s, t')
  {
    hide FromBigEndian, BigEndian, HashToScalar, ChallengeTranscript, Composites, ReadFields, VerifyProof;
    var (m, zc) := Composites(s, y, r, z);
    var c, sc, c', sc';
    c, sc, a, b := VerifiedIsAccepted(s, y, r, z, proof);
    c', sc', a', b' := VerifiedIsAccepted(s, y, r, z, proof');
    ScalarsRead(s.g, proof, c, sc);
    ScalarsRead(s.g, proof', c', sc');
    if a == a' {
      ScalarUnique(s.g, sc, sc', s.g.base);
    }
    TranscriptsDiffer(s, y, m, zc, a, b, a', b');
  }

  lemma TranscriptsDiffer<P(!new)>(s: Suite<P>, y: P, m: P, z: P, a: P, b: P, a': P, b': P)
    requires s.g.Valid() && (a != a' || b != b')
    ensures ChallengeTranscript(s, y, m, z, a, b) != ChallengeTranscript(s, y, m, z, a', b')
  {
    hide ChallengeTranscript, ReadFields;
    ChallengeReads(s, y, m, z, a, b);
    ChallengeReads(s, y, m, z, a', b');
    var e := s.g.encode;
    var all, all' := [e(y), e(m), e(z), e(a), e(b)], [e(y), e(m), e(z), e(a'), e(b')];
    if all == all' {
      assert all[3] == all'[3] && all[4] == all'[4];
      EncodingsDiffer(s.g, a, a');
      EncodingsDiffer(s.g, b, b');
    }
  }

  // ---- soundness: for a wrong evaluation the commitments leave one challenge to hit

  lemma OneChallenge<P(!new)>(g: Group<P>, k: nat, y: P, m: P, z: P, a: P, b: P, c: nat, sc: nat, c': nat, sc': nat)
    requires g.Valid() && k < g.order && y == g.Mul(k, g.base) && z != g.Mul(k, m)
    requires Answers(g, y, m, z, c, sc, a, b) && Answers(g, y, m, z, c', sc', a, b)
    ensures c == c'
  {
    AnswersIff(g, y, m, z, c, sc, a, b);
    AnswersIff(g, y, m, z, c', sc', a, b);
    if c != c' {
      ProofsDetermineKey(g, y, m, z, c, sc, c', sc');
    }
  }

  // The proof is accepted with the challenge c, and its commitments a and b could be answered for no other challenge:
  // the hash of the transcript that holds them had to be that one.
  ghost predicate OnlyHit<P(!new)>(s: Suite<P>, y: P, r: P, z: P, proof: Bytes, c: nat, sc: nat, a: P, b: P)
    requires s.Shaped()
  {
    var (m, zc) := Composites(s, y, r, z);
    && Accepted(s, y, m, zc, proof, c, sc, a, b, ChallengeTranscript(s, y, m, zc, a, b))
    && forall c': nat, sc': nat | Answers(s.g, y, m, zc, c', sc', a, b) :: c' == c
  }

  // so it is with every proof accepted for an element that is not k times the blinded one, under the key k G
  lemma WrongEvaluation<P(!new)>(s: Suite<P>, k: nat, y: P, r: P, z: P, proof: Bytes)
      returns (c: nat, sc: nat, a: P, b: P)
    requires s.Shaped() && s.g.Valid() && k < s.g.order && y == s.g.Mul(k, s.g.base) && z != s.g.Mul(k, r)
    requires CompositeScalar(s, y, r, z) != 0 && VerifyProof(s, y, r, z, proof) == Ok(true)
    ensures OnlyHit(s, y, r, z, proof, c, sc, a, b)
  {
    hide VerifyProof, HashToScalar, ChallengeTranscript, ReadFields, BigEndian, Answers;
    var (m, zc) := Composites(s, y, r, z);
    c, sc, a, b := VerifiedIsAccepted(s, y, r, z, proof);
    CompositesDetermineEvaluation(s, k, y, r, z);
    forall c': nat, sc': nat | Answers(s.g, y, m, zc, c', sc', a, b) ensures c' == c {
      OneChallenge(s.g, k, y, m, zc, a, b, c, sc, c', sc');
    }
  }

  // ---- what a proof gives away

  // the verifier recomputes t G and t M from a proof made with the nonce t
  lemma ProofCommits<P(!new)>(s: Suite<P>, k: nat, y: P, r: P, z: P, t: nat) returns (c: nat, sc: nat)
    requires s.Shaped() && s.g.Valid() && y == s.g.Mul(k, s.g.base) && z == s.g.Mul(k, r)
    ensures IsScalars(s.g, Prove(s, k, y, r, z, t), c, sc)
    ensures var (m, zc) := Composites(s, y, r, z); Answers(s.g, y, m, zc, c, sc, s.g.Mul(t, s.g.base), s.g.Mul(t, m))
  {
    hide HashToScalar, ChallengeTranscript, BigEndian;
    var g := s.g;
    var (m, zc) := Composites(s, y, r, z);
    c := DleqChallenge(s, y, m, zc, g.Mul(t, g.base), g.Mul(t, m));
    sc := SubMod(t, MulMod(c, k, g.order), g.order);
    CompositesLinear(s, k, y, r, z);
    Opening(g, k, t, c, g.base);
    Opening(g, k, t, c, m);
    AnswersIff(g, y, m, zc, c, sc, g.Mul(t, g.base), g.Mul(t, m));
  }

  // whatever the key and the challenge, each answer below the order comes from exactly one nonce below it
  lemma AnswerHidesKey(q: nat, c: nat, k: nat, sc: nat) returns (t: nat)
    requires sc < q
    ensures t < q
    ensures forall t': nat | t' < q :: SubMod(t', MulMod(c, k, q), q) == sc <==> t' == t
  {
    var ck := MulMod(c, k, q);
    t := AddMod(sc, ck, q);
    ShiftBack(sc, ck, t, q);
    forall t': nat | t' < q ensures SubMod(t', ck, q) == sc <==> t' == t {
      ShiftBack(SubMod(t', ck, q), ck, t', q);
      ShiftForth(t', ck, q);
    }
  }

  // t = s + d modulo q gives s = t - d
  lemma ShiftBack(sc: nat, d: nat, t: nat, q: nat)
    requires sc < q && d < q && t < q
    ensures t == AddMod(sc, d, q) ==> SubMod(t, d, q) == sc
  {
    RemCong(t + (q - d), q);
    RemCong(sc + d, q);
    if t == AddMod(sc, d, q) {
      CongRefl(q - d, q);
      CongAdd(t, sc + d, q - d, q - d, q);
      CongTrans(SubMod(t, d, q), t + (q - d), sc + d + (q - d), q);
      CongBy(sc + d + (q - d), sc, q, 1);
      CongTrans(SubMod(t, d, q), sc + d + (q - d), sc, q);
      CongResidue(SubMod(t, d, q), sc, q);
    }
  }

  lemma ShiftForth(t: nat, d: nat, q: nat)
    requires d < q && t < q
    ensures AddMod(SubMod(t, d, q), d, q) == t
  {
    var sc := SubMod(t, d, q);
    RemCong(t + (q - d), q);
    RemCong(sc + d, q);
    CongRefl(d, q);
    CongAdd(sc, t + (q - d), d, d, q);
    CongTrans(AddMod(sc, d, q), sc + d, t + (q - d) + d, q);
    CongBy(t + (q - d) + d, t, q, 1);
    CongTrans(AddMod(sc, d, q), t + (q - d) + d, t, q);
    CongResidue(AddMod(sc, d, q), t, q);
  }

  // ---- the server: every answer to a readable element is k times it, with a proof that verifies

  lemma EvaluationVerifies<P(!new)>(s: Suite<P>, k: nat, blinded: Bytes, draws: seq<nat>)
    requires s.Shaped() && s.g.Valid() && 0 < k < s.g.order
    ensures BlindEvaluate(s, k, blinded, draws).Ok? <==> s.g.decode(blinded).Some? && FirstNonZero(draws).Some?
    ensures BlindEvaluate(s, k, blinded, draws).Err? ==> BlindEvaluate(s, k, blinded, draws) == Err(CRYPTO_ERROR)
    ensures BlindEvaluate(s, k, blinded, draws).Ok? ==>
              var e, r := BlindEvaluate(s, k, blinded, draws).value, s.g.decode(blinded).value;
              && s.g.decode(e.evaluatedElement) == Some(s.g.Mul(k, r))
              && VerifyProof(s, s.g.Mul(k, s.g.base), r, s.g.Mul(k, r), e.proof) == Ok(true)
  {
    hide VerifyProof, Prove;
    var g := s.g;
    assert g.Decodable(blinded);
    if g.decode(blinded).Some? {
      var r := g.decode(blinded).value;
      ScalarUnit(k, g.order);
      MulNonZero(g, k, g.base);
      MulNonZero(g, k, r);
      assert g.Encodable(g.Mul(k, g.base)) && g.Encodable(g.Mul(k, r));
      if FirstNonZero(draws).Some? {
        ProofVerifies(s, k, g.Mul(k, g.base), r, g.Mul(k, r), FirstNonZero(draws).value);
      }
    }
  }

  // the nonce is the first draw that is not zero
  lemma {:induction false} FirstNonZeroIs(draws: seq<nat>, t: nat)
    ensures FirstNonZero(draws) == Some(t)
       <==> t != 0 && exists i: nat :: i < |draws| && draws[i] == t && forall j | 0 <= j < i :: draws[j] == 0
  {
    if draws != [] {
      FirstNonZeroIs(draws[1..], t);
      if i: nat :| i < |draws| && draws[i] == t && forall j | 0 <= j < i :: draws[j] == 0 {
        if i > 0 {
          assert draws[1..][i - 1] == t && forall j | 0 <= j < i - 1 :: draws[1..][j] == draws[j + 1];
        }
      }
      if draws[0] == 0 && FirstNonZero(draws) == Some(t) {
        var i: nat :| i < |draws[1..]| && draws[1..][i] == t && forall j | 0 <= j < i :: draws[1..][j] == 0;
        assert draws[i + 1] == t && forall j | 0 < j < i + 1 :: draws[j] == draws[1..][j - 1];
      }
    }
  }

  // ---- the client's blinding

  // every point but the identity is the blinded element for exactly one blind
  lemma UniformBlind<P(!new)>(s: Suite<P>, input: Bytes, target: P) returns (r: nat)
    requires s.Shaped() && s.g.Valid() && s.g.Cyclic() && target != s.g.zero
    requires HashToCurve(s, input).Ok? && HashToCurve(s, input).value != s.g.zero
    ensures 0 < r < s.g.order
    ensures forall r': nat | 0 < r' < s.g.order ::
              && ClientBlind(s, input, r').Ok?
              && FromBigEndian(ClientBlind(s, input, r').value.blindScalar) == r'
              && (ClientBlind(s, input, r').value.blindedElement == s.g.encode(target) <==> r' == r)
  {
    hide HashToCurve;
    var g, h := s.g, HashToCurve(s, input).value;
    r := QuotientOf(g, h, target);
    forall r': nat | 0 < r' < g.order
      ensures FromBigEndian(ClientBlind(s, input, r').value.blindScalar) == r'
      ensures ClientBlind(s, input, r').value.blindedElement == g.encode(target) <==> r' == r
    {
      DecodeBigEndian(r', g.scalarSize);
      if g.encode(g.Mul(r', h)) == g.encode(target) {
        EncodingsDiffer(g, g.Mul(r', h), target);
        ScalarUnique(g, r', r, h);
      }
    }
  }

  lemma QuotientOf<P(!new)>(g: Group<P>, h: P, target: P) returns (r: nat)
    requires g.Valid() && g.Cyclic() && h != g.zero && target != g.zero
    ensures 0 < r < g.order && g.Mul(r, h) == target
  {
    assert g.Generated(h) && g.Generated(target);
    var i: nat :| i < g.order && h == g.Mul(i, g.base);
    var j: nat :| j < g.order && target == g.Mul(j, g.base);
    ScalarUnit(i, g.order);
    var w := UnitInverse(i, g.order);
    r := MulMod(j, w, g.order);
    RemCong(j * w, g.order);
    MulCong(g, r, j * w, h);
    MulMul(g, j, w, h);
    MulInverse(g, i, w, g.base);
  }

  // ---- the client's output

  // The output is made from the element n that blinds to the evaluated one; the proof verifies.
  ghost predicate Finalizes<P(!new)>(s: Suite<P>, key: P, data: FinalizationData, evaluation: Evaluation,
                                     r: P, z: P, n: P, output: Bytes)
    requires s.Shaped()
  {
    && s.g.decode(data.blindedElement) == Some(r) && s.g.decode(evaluation.evaluatedElement) == Some(z)
    && key != s.g.zero && VerifyProof(s, key, r, z, evaluation.proof) == Ok(true)
    && |data.blindScalar| <= MAX_INPUT_SIZE && s.g.Mul(FromBigEndian(data.blindScalar), n) == z
    && |data.input| <= MAX_U16 && output == s.hash(FinalizeTranscript(data.input, s.g.encode(n)))
  }

  lemma KeyTravels<P(!new)>(g: Group<P>, key: P)
    requires g.Valid()
    ensures g.decode(g.encode(key)) == if key == g.zero then None else Some(key)
  {
    assert g.Encodable(key) && g.Decodable(g.encode(key));
  }

  lemma FinalizedHas<P(!new)>(s: Suite<P>, key: P, data: FinalizationData, evaluation: Evaluation, output: Bytes)
      returns (r: P, z: P, n: P)
    requires s.Shaped() && s.g.Valid() && ClientFinalize(s, key, data, evaluation) == Ok(output)
    ensures Finalizes(s, key, data, evaluation, r, z, n, output)
  {
    hide VerifyProof, FinalizeTranscript, FromBigEndian;
    var g, blind := s.g, FromBigEndian(data.blindScalar);
    KeyTravels(g, key);
    r, z := g.decode(data.blindedElement).value, g.decode(evaluation.evaluatedElement).value;
    ModInverseSpec(blind, g.order);
    var inverse := ModInverse(blind, g.order).value;
    n := g.Mul(inverse, z);
    assert blind * inverse == inverse * blind;
    MulInverse(g, inverse, blind, z);
  }

  lemma FinalizesOk<P(!new)>(s: Suite<P>, key: P, data: FinalizationData, evaluation: Evaluation,
                             r: P, z: P, n: P, output: Bytes)
    requires s.Shaped() && s.g.Valid() && Finalizes(s, key, data, evaluation, r, z, n, output)
    ensures ClientFinalize(s, key, data, evaluation) == Ok(output)
  {
    hide FinalizeTranscript, FromBigEndian, Composites, DleqChallenge, BigEndian;
    var g, blind := s.g, FromBigEndian(data.blindScalar);
    KeyTravels(g, key);
    assert g.Decodable(data.blindedElement) && g.Decodable(evaluation.evaluatedElement) && g.Encodable(n);
    if Cong(blind, 0, g.order) {
      MulCong(g, blind, 0, n);
    }
    var w := UnitInverse(blind, g.order);
    ModInverseSpec(blind, g.order);
    var inverse := ModInverse(blind, g.order).value;
    MulInverse(g, blind, inverse, n);
  }

  // The client ends with an output exactly when elements and key are readable, the proof verifies, and the output is
  // the hash of the input and of the element that blinds to the evaluated one.
  lemma FinalizeIff<P(!new)>(s: Suite<P>, key: P, data: FinalizationData, evaluation: Evaluation, output: Bytes)
    requires s.Shaped() && s.g.Valid()
    ensures ClientFinalize(s, key, data, evaluation) == Ok(output)
       <==> exists r: P, z: P, n: P :: Finalizes(s, key, data, evaluation, r, z, n, output)
  {
    hide ClientFinalize, Finalizes;
    if ClientFinalize(s, key, data, evaluation) == Ok(output) {
      var r, z, n := FinalizedHas(s, key, data, evaluation, output);
    }
    forall r: P, z: P, n: P | Finalizes(s, key, data, evaluation, r, z, n, output)
      ensures ClientFinalize(s, key, data, evaluation) == Ok(output)
    {
      FinalizesOk(s, key, data, evaluation, r, z, n, output);
    }
  }

  // a readable evaluation with a proof of the right size that does not verify is refused as such
  lemma UnverifiedRefused<P(!new)>(s: Suite<P>, key: P, data: FinalizationData, evaluation: Evaluation, r: P, z: P)
    requires s.Shaped() && s.g.Valid() && key != s.g.zero && |data.blindScalar| <= MAX_INPUT_SIZE
    requires s.g.decode(data.blindedElement) == Some(r) && s.g.decode(evaluation.evaluatedElement) == Some(z)
    requires |evaluation.proof| == 2 * s.g.scalarSize
    ensures VerifyProof(s, key, r, z, evaluation.proof) != Ok(true)
       <==> ClientFinalize(s, key, data, evaluation) == Err(VERIFICATION_FAILED)
  {
    hide FinalizeTranscript, FromBigEndian, Composites, DleqChallenge, BigEndian;
    KeyTravels(s.g, key);
    assert s.g.Decodable(data.blindedElement) && s.g.Decodable(evaluation.evaluatedElement);
  }

  // a wrong element passed: the composite scalar was 0, or the hash was the one challenge that could be answered
  ghost predicate LuckyProof<P(!new)>(s: Suite<P>, k: nat, y: P, r: P, z: P, proof: Bytes)
    requires s.Shaped()
  {
    && z != s.g.Mul(k, r)
    && (CompositeScalar(s, y, r, z) == 0
        || exists c: nat, sc: nat, a: P, b: P :: OnlyHit(s, y, r, z, proof, c, sc, a, b))
  }

  // it did so in this answer to this blinded element
  ghost predicate LuckyEvaluation<P(!new)>(s: Suite<P>, k: nat, blinded: Bytes, evaluation: Evaluation)
    requires s.Shaped()
  {
    && s.g.decode(blinded).Some? && s.g.decode(evaluation.evaluatedElement).Some?
    && LuckyProof(s, k, s.g.Mul(k, s.g.base), s.g.decode(blinded).value,
                  s.g.decode(evaluation.evaluatedElement).value, evaluation.proof)
  }

  // Verifiability: whatever a server answers, a client that finalizes under the key k G has the value of the function
  // under k for its input, or has been passed a wrong element by such luck.
  lemma FinalizedIsEvaluation<P(!new)>(s: Suite<P>, k: nat, input: Bytes, blind: nat, evaluation: Evaluation,
                                       output: Bytes)
    requires s.Shaped() && s.g.Valid() && 0 < k < s.g.order && 0 < blind < s.g.order
    requires ClientBlind(s, input, blind).Ok?
    requires ClientFinalize(s, s.g.Mul(k, s.g.base), ClientBlind(s, input, blind).value, evaluation) == Ok(output)
    ensures Evaluate(s, k, input) == Ok(output)
         || LuckyEvaluation(s, k, ClientBlind(s, input, blind).value.blindedElement, evaluation)
  {
    hide VerifyProof, FinalizeTranscript, HashToCurve, LuckyProof, ClientFinalize;
    var g, h, key := s.g, HashToCurve(s, input).value, s.g.Mul(k, s.g.base);
    var data := ClientBlind(s, input, blind).value;
    var r, z, n := FinalizedHas(s, key, data, evaluation, output);
    KeyTravels(g, g.Mul(blind, h));
    assert r == g.Mul(blind, h);
    if z == g.Mul(k, r) {
      DecodeBigEndian(blind, g.scalarSize);
      MulCommutes(g, k, blind, h);
      ScalarUnit(blind, g.order);
      CancelMul(g, blind, n, g.Mul(k, h));
      assert g.Encodable(n);
    } else {
      Lucky(s, k, key, r, z, evaluation.proof);
    }
  }

  lemma Lucky<P(!new)>(s: Suite<P>, k: nat, y: P, r: P, z: P, proof: Bytes)
    requires s.Shaped() && s.g.Valid() && k < s.g.order && y == s.g.Mul(k, s.g.base) && z != s.g.Mul(k, r)
    requires VerifyProof(s, y, r, z, proof) == Ok(true)
    ensures LuckyProof(s, k, y, r, z, proof)
  {
    hide VerifyProof, HashToScalar, ChallengeTranscript, Answers, Composites;
    if CompositeScalar(s, y, r, z) != 0 {
      var c, sc, a, b := WrongEvaluation(s, k, y, r, z, proof);
    }
  }

  // outputs differ with the input or the element, unless two transcripts collide
  lemma OutputBinds<P(!new)>(s: Suite<P>, input: Bytes, element: Bytes, input': Bytes, element': Bytes)
    requires FinalizeOutput(s, input, element).Ok?
    requires FinalizeOutput(s, input', element') == FinalizeOutput(s, input, element)
    ensures (input == input' && element == element')
         || var t, t' := FinalizeTranscript(input, element), FinalizeTranscript(input', element');
            t != t' && s.hash(t) == s.hash(t')
  {
    hide FinalizeTranscript, ReadFields;
    FinalizeReads(input, element);
    FinalizeReads(input', element');
    assert [input, element][0] == input && [input, element][1] == element;
    assert [input', element'][0] == input' && [input', element'][1] == element';
  }

  // two keys give one input two outputs, unless two transcripts collide; so the check under one key refuses what was
  // computed under another
  lemma KeysSeparate<P(!new)>(s: Suite<P>, k: nat, k': nat, input: Bytes, output: Bytes)
    requires s.Shaped() && s.g.Valid() && k < s.g.order && k' < s.g.order && k != k'
    requires HashToCurve(s, input).Ok? && HashToCurve(s, input).value != s.g.zero
    requires Evaluate(s, k, input) == Ok(output)
    ensures VerifyFinalize(s, k', input, output) == Ok(true) ==>
              var h := HashToCurve(s, input).value;
              var t := FinalizeTranscript(input, s.g.encode(s.g.Mul(k, h)));
              var t' := FinalizeTranscript(input, s.g.encode(s.g.Mul(k', h)));
              t != t' && s.hash(t) == s.hash(t')
  {
    hide FinalizeTranscript, HashToCurve;
    var g, h := s.g, HashToCurve(s, input).value;
    if VerifyFinalize(s, k', input, output) == Ok(true) {
      OutputBinds(s, input, g.encode(g.Mul(k, h)), input, g.encode(g.Mul(k', h)));
      if g.encode(g.Mul(k, h)) == g.encode(g.Mul(k', h)) {
        EncodingsDiffer(g, g.Mul(k, h), g.Mul(k', h));
        ScalarUnique(g, k, k', h);
      }
    }
  }
}
