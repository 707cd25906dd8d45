// The verifiable oblivious pseudorandom function of src/crypto/voprf.cpp: RFC 9497 with a DLEQ proof.
module Voprf {
  import opened Types
  import opened Congruence
  import opened Division
  import opened NumberTheory
  import opened ModularField
  import opened Octets
  import opened ExpandMessage
  import opened PrimeOrderGroup
  import opened Transcripts
  import opened Wire
  import Sswu

  const CONTEXT_STRING: Bytes := ToBytes("OPRFV1-") + [1] + ToBytes("-P384-SHA384")
  const DST_H2C: Bytes := ToBytes("HashToGroup-") + CONTEXT_STRING
  const DST_H2S: Bytes := ToBytes("HashToScalar-") + CONTEXT_STRING
  const DST_SEED: Bytes := ToBytes("Seed-") + CONTEXT_STRING
  const MAX_INPUT_SIZE: nat := 0x7FFF_FFFF
  const MAX_U16: nat := 0xFFFF

  datatype Suite<!P(!new)> = Suite(g: Group<P>, hash: Hash, curve: Sswu.Curve, fromAffine: (nat, nat) -> Option<P>) {
    predicate Shaped() { 12 < curve.p && curve.A < curve.p && 0 < g.order }

    // affine coordinates on the curve make a point; the ordinate need not be reduced
    ghost predicate Accepts(x: nat, y: nat) {
      x < curve.p && y <= curve.p && curve.OnCurve(x, y) ==> fromAffine(x, y).Some?
    }

    ghost predicate Valid() {
      g.Valid() && curve.Valid() && forall x: nat, y: nat :: Accepts(x, y)
    }
  }

  datatype FinalizationData = FinalizationData(blindScalar: Bytes, blindedElement: Bytes, input: Bytes)
  datatype Evaluation = Evaluation(evaluatedElement: Bytes, proof: Bytes)

  // ---- hashing to the group and to the scalars

  function HashToCurve<P(!new)>(s: Suite<P>, input: Bytes): Result<P>
    requires s.Shaped()
  {
    if |input| > MAX_INPUT_SIZE then Err(CRYPTO_ERROR)
    else
      match Expand(s.hash, input, DST_H2C, 144)
      case Err(e) => Err(e)
      case Ok(uniform) =>
        var q0 := PointOf(s, Rem(FromBigEndian(uniform[..72]), s.curve.p));
        var q1 := PointOf(s, Rem(FromBigEndian(uniform[72..]), s.curve.p));
        if q0.Some? && q1.Some? then Ok(s.g.add(q0.value, q1.value)) else Err(CRYPTO_ERROR)
  }

  function PointOf<P(!new)>(s: Suite<P>, u: nat): Option<P>
    requires s.Shaped()
  {
    match Sswu.MapToCurve(s.curve, u)
    case None => None
    case Some((x, y)) => s.fromAffine(x, y)
  }

  function HashToScalar<P(!new)>(s: Suite<P>, input: Bytes): (c: nat)
    requires s.Shaped()
    ensures c < s.g.order
  {
    DstLengths();
    Rem(FromBigEndian(Expand(s.hash, input, DST_H2S, 72).value), s.g.order)
  }

  lemma DstLengths()
    ensures |DST_H2C| <= 255 && |DST_H2S| <= 255 && |DST_SEED| <= 255
  {
  }

  // the map always yields a point, so hashing to the curve fails on oversized inputs only
  lemma HashToCurveTotal<P(!new)>(s: Suite<P>, input: Bytes)
    requires s.Shaped() && s.Valid()
    ensures HashToCurve(s, input).Ok? <==> |input| <= MAX_INPUT_SIZE
  {
    DstLengths();
    if |input| <= MAX_INPUT_SIZE {
      var uniform := Expand(s.hash, input, DST_H2C, 144).value;
      PointOfTotal(s, Rem(FromBigEndian(uniform[..72]), s.curve.p));
      PointOfTotal(s, Rem(FromBigEndian(uniform[72..]), s.curve.p));
    }
  }

  lemma PointOfTotal<P(!new)>(s: Suite<P>, u: nat)
    requires s.Shaped() && s.Valid()
    ensures PointOf(s, u).Some?
  {
    Sswu.MapIsRfcMap(s.curve, u);
    var (x, y) := Sswu.MapToCurve(s.curve, u).value;
    var x1 :| Sswu.IsMapVia(s.curve, u, x1, x, y);
    assert s.Accepts(x, y);
  }

  // ---- transcripts

  function SeedTranscript<P(!new)>(s: Suite<P>, y: P): Bytes { Prefixed(s.g.encode(y)) + Prefixed(DST_SEED) }

  function CompositeTranscript<P(!new)>(s: Suite<P>, y: P, c: P, d: P): Bytes {
    Prefixed(s.hash(SeedTranscript(s, y))) + U16(0) + Prefixed(s.g.encode(c)) + Prefixed(s.g.encode(d))
    + ToBytes("Composite")
  }

  function CompositeScalar<P(!new)>(s: Suite<P>, y: P, c: P, d: P): (w: nat)
    requires s.Shaped()
    ensures w < s.g.order
  {
    HashToScalar(s, CompositeTranscript(s, y, c, d))
  }

  function Composites<P(!new)>(s: Suite<P>, y: P, c: P, d: P): (P, P)
    requires s.Shaped()
  {
    var w := CompositeScalar(s, y, c, d);
    (s.g.Mul(w, c), s.g.Mul(w, d))
  }

  function ChallengeTranscript<P(!new)>(s: Suite<P>, y: P, m: P, z: P, a: P, b: P): Bytes {
    Prefixed(s.g.encode(y)) + Prefixed(s.g.encode(m)) + Prefixed(s.g.encode(z)) +
    Prefixed(s.g.encode(a)) + Prefixed(s.g.encode(b)) + ToBytes("Challenge")
  }

  function DleqChallenge<P(!new)>(s: Suite<P>, y: P, m: P, z: P, a: P, b: P): (c: nat)
    requires s.Shaped()
    ensures c < s.g.order
  {
    HashToScalar(s, ChallengeTranscript(s, y, m, z, a, b))
  }

  // ---- the proof that log_G(y) = log_r(z)

  function SubMod(a: nat, b: nat, n: nat): (r: nat)
    requires b < n
    ensures r < n
  {
    Rem(a + (n - b), n)
  }

  function Prove<P(!new)>(s: Suite<P>, k: nat, y: P, r: P, z: P, t: nat): Bytes
    requires s.Shaped()
  {
    var (m, zc) := Composites(s, y, r, z);
    var c := DleqChallenge(s, y, m, zc, s.g.Mul(t, s.g.base), s.g.Mul(t, m));
    var response := SubMod(t, MulMod(c, k, s.g.order), s.g.order);
    BigEndian(c, s.g.scalarSize) + BigEndian(response, s.g.scalarSize)
  }

  // A' = s G + c Y and B' = s M + c Z, recomputed by the verifier
  function CommitmentG<P(!new)>(g: Group<P>, y: P, c: nat, sc: nat): P { g.add(g.Mul(sc, g.base), g.Mul(c, y)) }

  function CommitmentM<P(!new)>(g: Group<P>, m: P, z: P, c: nat, sc: nat): P { g.add(g.Mul(sc, m), g.Mul(c, z)) }

  function VerifyProof<P(!new)>(s: Suite<P>, y: P, r: P, z: P, proof: Bytes): Result<bool>
    requires s.Shaped()
  {
    if |proof| != 2 * s.g.scalarSize then Err(VERIFICATION_FAILED)
    else
      var c := FromBigEndian(proof[..s.g.scalarSize]);
      var sc := FromBigEndian(proof[s.g.scalarSize..]);
      if c >= s.g.order || sc >= s.g.order then Err(VERIFICATION_FAILED)
      else
        var (m, zc) := Composites(s, y, r, z);
        var c' := DleqChallenge(s, y, m, zc, CommitmentG(s.g, y, c, sc), CommitmentM(s.g, m, zc, c, sc));
        Ok(BigEndian(c, s.g.scalarSize) == BigEndian(c', s.g.scalarSize))
  }

  // (t - c k) P + c (k P) = t P
  lemma Opening<P(!new)>(g: Group<P>, k: nat, t: nat, c: nat, a: P)
    requires g.Valid() && 0 < g.order
    ensures var sc := SubMod(t, MulMod(c, k, g.order), g.order);
            g.add(g.Mul(sc, a), g.Mul(c, g.Mul(k, a))) == g.Mul(t, a)
  {
    var q := g.order;
    var ck := MulMod(c, k, q);
    var sc := SubMod(t, ck, q);
    MulMul(g, c, k, a);
    MulAdd(g, sc, c * k, a);
    RemCong(t + (q - ck), q);
    RemCong(c * k, q);
    CongSym(ck, c * k, q);
    CongAdd(sc, t + (q - ck), c * k, ck, q);
    CongBy(t + q, t, q, 1);
    CongTrans(sc + c * k, t + q, t, q);
    MulCong(g, sc + c * k, t, a);
  }

  lemma CompositesLinear<P(!new)>(s: Suite<P>, k: nat, y: P, r: P, z: P)
    requires s.Shaped() && s.g.Valid() && z == s.g.Mul(k, r)
    ensures var (m, zc) := Composites(s, y, r, z); zc == s.g.Mul(k, m)
  {
    MulCommutes(s.g, CompositeScalar(s, y, r, z), k, r);
  }

  // completeness: an honest proof verifies, and the verifier recomputes t G and t M
  lemma ProofVerifies<P(!new)>(s: Suite<P>, k: nat, y: P, r: P, z: P, t: nat)
    requires s.Shaped() && s.g.Valid() && y == s.g.Mul(k, s.g.base) && z == s.g.Mul(k, r)
    ensures VerifyProof(s, y, r, z, Prove(s, k, y, r, z, t)) == Ok(true)
  {
    var g := s.g;
    var (m, zc) := Composites(s, y, r, z);
    var c := DleqChallenge(s, y, m, zc, g.Mul(t, g.base), g.Mul(t, m));
    var sc := SubMod(t, MulMod(c, k, g.order), g.order);
    CompositesLinear(s, k, y, r, z);
    Opening(g, k, t, c, g.base);
    Opening(g, k, t, c, m);
    DecodeBigEndian(c, g.scalarSize);
    DecodeBigEndian(sc, g.scalarSize);
    var proof := Prove(s, k, y, r, z, t);
    assert proof[..g.scalarSize] == BigEndian(c, g.scalarSize);
    assert proof[g.scalarSize..] == BigEndian(sc, g.scalarSize);
  }

  // special soundness: two answers to different challenges for the same commitments give the key
  function ExtractKey(q: nat, c: nat, sc: nat, c': nat, sc': nat): nat
    requires c < q && sc' < q
  {
    match ModInverse(SubMod(c', c, q), q)
    case None => 0
    case Some(inverse) => MulMod(SubMod(sc, sc', q), inverse, q)
  }

  lemma ExtractFor<P(!new)>(g: Group<P>, c: nat, sc: nat, c': nat, sc': nat, a: P, b: P)
    requires g.Valid() && c < g.order && sc < g.order && c' < g.order && sc' < g.order && c != c'
    requires g.add(g.Mul(sc, a), g.Mul(c, b)) == g.add(g.Mul(sc', a), g.Mul(c', b))
    ensures b == g.Mul(ExtractKey(g.order, c, sc, c', sc'), a)
  {
    var q := g.order;
    var dc, ds := SubMod(c', c, q), SubMod(sc, sc', q);
    Differences(g, c, sc, c', sc', a, b);
    DifferenceUnit(c, c', q);
    var w := UnitInverse(dc, q);
    ModInverseSpec(dc, q);
    SolveFor(g, ds, dc, ModInverse(dc, q).value, a, b);
  }

  lemma Differences<P(!new)>(g: Group<P>, c: nat, sc: nat, c': nat, sc': nat, a: P, b: P)
    requires g.Valid() && c < g.order && sc < g.order && c' < g.order && sc' < g.order
    requires g.add(g.Mul(sc, a), g.Mul(c, b)) == g.add(g.Mul(sc', a), g.Mul(c', b))
    ensures g.Mul(SubMod(sc, sc', g.order), a) == g.Mul(SubMod(c', c, g.order), b)
  {
    Separate(g, sc, c, sc', c', a, b);
    RemCong(sc + (g.order - sc'), g.order);
    RemCong(c' + (g.order - c), g.order);
    MulCong(g, SubMod(sc, sc', g.order), sc + (g.order - sc'), a);
    MulCong(g, SubMod(c', c, g.order), c' + (g.order - c), b);
  }

  // n a = d b gives b = (n / d) a
  lemma SolveFor<P(!new)>(g: Group<P>, n: nat, d: nat, inverse: nat, a: P, b: P)
    requires g.Valid() && 0 < g.order && Cong(d * inverse, 1, g.order) && g.Mul(n, a) == g.Mul(d, b)
    ensures b == g.Mul(MulMod(n, inverse, g.order), a)
  {
    MulInverse(g, d, inverse, b);
    MulMul(g, inverse, n, a);
    RemCong(n * inverse, g.order);
    assert n * inverse == inverse * n;
    MulCong(g, MulMod(n, inverse, g.order), inverse * n, a);
  }

  lemma DifferenceUnit(c: nat, c': nat, q: nat)
    requires c < q && c' < q && c != c'
    ensures !Cong(SubMod(c', c, q), 0, q)
  {
    RemCong(c' + (q - c), q);
    if Cong(SubMod(c', c, q), 0, q) {
      CongSym(SubMod(c', c, q), c' + (q - c), q);
      CongTrans(c' + (q - c), SubMod(c', c, q), 0, q);
      CongRefl(c, q);
      CongAdd(c' + (q - c), 0, c, c, q);
      CongBy(c', c' + q, q, -1);
      CongTrans(c', c' + q, c, q);
      CongResidue(c', c, q);
    }
  }

  lemma ProofsDetermineKey<P(!new)>(g: Group<P>, y: P, m: P, z: P, c: nat, sc: nat, c': nat, sc': nat)
    requires g.Valid() && c < g.order && sc < g.order && c' < g.order && sc' < g.order && c != c'
    requires CommitmentG(g, y, c, sc) == CommitmentG(g, y, c', sc')
    requires CommitmentM(g, m, z, c, sc) == CommitmentM(g, m, z, c', sc')
    ensures
      var k := ExtractKey(g.order, c, sc, c', sc');
      && k < g.order && y == g.Mul(k, g.base) && z == g.Mul(k, m)
      && forall k': nat | k' < g.order && y == g.Mul(k', g.base) :: k' == k
  {
    ExtractFor(g, c, sc, c', sc', g.base, y);
    ExtractFor(g, c, sc, c', sc', m, z);
    var k := ExtractKey(g.order, c, sc, c', sc');
    forall k': nat | k' < g.order && y == g.Mul(k', g.base) ensures k' == k {
      ScalarUnique(g, k, k', g.base);
    }
  }

  // and then the evaluation itself used that key, unless the composite scalar is zero
  lemma CompositesDetermineEvaluation<P(!new)>(s: Suite<P>, k: nat, y: P, r: P, z: P)
    requires s.Shaped() && s.g.Valid() && CompositeScalar(s, y, r, z) != 0
    ensures var (m, zc) := Composites(s, y, r, z); zc == s.g.Mul(k, m) <==> z == s.g.Mul(k, r)
  {
    var w := CompositeScalar(s, y, r, z);
    MulCommutes(s.g, w, k, r);
    if Cong(w, 0, s.g.order) {
      CongResidue(w, 0, s.g.order);
    }
    if s.g.Mul(w, z) == s.g.Mul(k, s.g.Mul(w, r)) {
      CancelMul(s.g, w, z, s.g.Mul(k, r));
    }
  }

  // ---- the client and the server

  function FinalizeTranscript(input: Bytes, element: Bytes): Bytes {
    Prefixed(input) + Prefixed(element) + ToBytes("Finalize")
  }

  function FinalizeOutput<P(!new)>(s: Suite<P>, input: Bytes, element: Bytes): Result<Bytes> {
    if |input| > MAX_U16 || |element| > MAX_U16 then Err(INVALID_LENGTH)
    else Ok(s.hash(FinalizeTranscript(input, element)))
  }

  // r is the single scalar the client draws
  function ClientBlind<P(!new)>(s: Suite<P>, input: Bytes, r: nat): Result<FinalizationData>
    requires s.Shaped()
  {
    match HashToCurve(s, input)
    case Err(e) => Err(e)
    case Ok(h) =>
      if r == 0 then Err(BLINDING_FAILED)
      else Ok(FinalizationData(BigEndian(r, s.g.scalarSize), s.g.encode(s.g.Mul(r, h)), input))
  }

  // the first non-zero scalar among the draws
  function FirstNonZero(draws: seq<nat>): Option<nat> {
    if draws == [] then None else if draws[0] != 0 then Some(draws[0]) else FirstNonZero(draws[1..])
  }

  function BlindEvaluate<P(!new)>(s: Suite<P>, k: nat, blindedElement: Bytes, draws: seq<nat>): Result<Evaluation>
    requires s.Shaped()
  {
    if |blindedElement| > MAX_INPUT_SIZE then Err(CRYPTO_ERROR)
    else
      match s.g.decode(blindedElement)
      case None => Err(CRYPTO_ERROR)
      case Some(r) =>
        var z := s.g.Mul(k, r);
        match s.g.decode(s.g.encode(s.g.Mul(k, s.g.base)))
        case None => Err(CRYPTO_ERROR)
        case Some(y) =>
          match FirstNonZero(draws)
          case None => Err(CRYPTO_ERROR)
          case Some(t) => Ok(Evaluation(s.g.encode(z), Prove(s, k, y, r, z, t)))
  }

  function ClientFinalize<P(!new)>(s: Suite<P>, publicKey: P, data: FinalizationData,
                                   evaluation: Evaluation): Result<Bytes>
    requires s.Shaped()
  {
    if |evaluation.evaluatedElement| > MAX_INPUT_SIZE || |evaluation.proof| != 2 * s.g.scalarSize
       || |data.blindScalar| > MAX_INPUT_SIZE || |data.blindedElement| > MAX_INPUT_SIZE then Err(CRYPTO_ERROR)
    else
      var keyRead := s.g.decode(s.g.encode(publicKey));
      match (s.g.decode(evaluation.evaluatedElement), s.g.decode(data.blindedElement), keyRead)
      case (None, _, _) => Err(UNBLINDING_FAILED)
      case (_, None, _) => Err(UNBLINDING_FAILED)
      case (_, _, None) => Err(CRYPTO_ERROR)
      case (Some(z), Some(r), Some(y)) =>
        match VerifyProof(s, y, r, z, evaluation.proof)
        case Err(e) => Err(e)
        case Ok(false) => Err(VERIFICATION_FAILED)
        case Ok(true) =>
          match ModInverse(FromBigEndian(data.blindScalar), s.g.order)
          case None => Err(UNBLINDING_FAILED)
          case Some(inverse) => FinalizeOutput(s, data.input, s.g.encode(s.g.Mul(inverse, z)))
  }

  function VerifyFinalize<P(!new)>(s: Suite<P>, k: nat, input: Bytes, output: Bytes): Result<bool>
    requires s.Shaped()
  {
    match HashToCurve(s, input)
    case Err(e) => Err(e)
    case Ok(h) =>
      match FinalizeOutput(s, input, s.g.encode(s.g.Mul(k, h)))
      case Err(e) => Err(e)
      case Ok(expected) => Ok(output == expected)
  }

  // the value a run computes: the hash of the input and k H(input)
  function Evaluate<P(!new)>(s: Suite<P>, k: nat, input: Bytes): Result<Bytes>
    requires s.Shaped()
  {
    match HashToCurve(s, input)
    case Err(e) => Err(e)
    case Ok(h) => FinalizeOutput(s, input, s.g.encode(s.g.Mul(k, h)))
  }

  lemma ScalarUnit(k: nat, q: nat)
    requires 0 < k < q
    ensures !Cong(k, 0, q)
  {
    if Cong(k, 0, q) {
      CongResidue(k, 0, q);
    }
  }

  // r^-1 (k (r h)) = k h
  lemma Unblinded<P(!new)>(g: Group<P>, k: nat, r: nat, h: P)
    requires g.Valid() && 0 < r < g.order
    ensures ModInverse(r, g.order).Some?
    ensures g.Mul(ModInverse(r, g.order).value, g.Mul(k, g.Mul(r, h))) == g.Mul(k, h)
  {
    ScalarUnit(r, g.order);
    var w := UnitInverse(r, g.order);
    ModInverseSpec(r, g.order);
    MulCommutes(g, k, r, h);
    MulInverse(g, r, ModInverse(r, g.order).value, g.Mul(k, h));
  }

  // the server's answer to an honest client
  lemma HonestEvaluation<P(!new)>(s: Suite<P>, k: nat, r: nat, h: P, draws: seq<nat>)
    requires s.Shaped() && s.g.Valid() && 0 < k < s.g.order && 0 < r < s.g.order && FirstNonZero(draws).Some?
    ensures
      var evaluation := BlindEvaluate(s, k, s.g.encode(s.g.Mul(r, h)), draws);
      if h == s.g.zero then evaluation == Err(CRYPTO_ERROR)
      else
        evaluation == Ok(Evaluation(
          s.g.encode(s.g.Mul(k, s.g.Mul(r, h))),
          Prove(s, k, s.g.Mul(k, s.g.base), s.g.Mul(r, h), s.g.Mul(k, s.g.Mul(r, h)), FirstNonZero(draws).value)))
  {
    var g := s.g;
    if h == g.zero {
      MulZero(g, r);
      assert g.Decodable(g.encode(g.zero)) && g.Encodable(g.zero);
    } else {
      HonestPoints(g, k, r, h);
    }
  }

  // the client's output
  lemma HonestFinalize<P(!new)>(s: Suite<P>, k: nat, input: Bytes, r: nat, h: P, t: nat)
    requires s.Shaped() && s.g.Valid() && 0 < k < s.g.order && 0 < r < s.g.order && h != s.g.zero
    ensures
      var blinded := s.g.Mul(r, h);
      var z := s.g.Mul(k, blinded);
      var data := FinalizationData(BigEndian(r, s.g.scalarSize), s.g.encode(blinded), input);
      var evaluation := Evaluation(s.g.encode(z), Prove(s, k, s.g.Mul(k, s.g.base), blinded, z, t));
      ClientFinalize(s, s.g.Mul(k, s.g.base), data, evaluation) == FinalizeOutput(s, input, s.g.encode(s.g.Mul(k, h)))
  {
    var g := s.g;
    HonestPoints(g, k, r, h);
    ProofVerifies(s, k, g.Mul(k, g.base), g.Mul(r, h), g.Mul(k, g.Mul(r, h)), t);
    Unblinded(g, k, r, h);
    DecodeBigEndian(r, g.scalarSize);
  }

  // A whole honest run, for every input, key, blind and proof nonce: it fails at the start on inputs over the size
  // limit, at the server on those that hash to the identity, at the end on those over 65535 octets, which the check
  // refuses alike; otherwise its output is Evaluate, whatever r and t were, and the check accepts that output alone.
  lemma HonestRun<P(!new)>(s: Suite<P>, k: nat, input: Bytes, r: nat, draws: seq<nat>)
    requires s.Shaped() && s.Valid() && 0 < k < s.g.order && 0 < r < s.g.order
    requires FirstNonZero(draws).Some?
    ensures HashToCurve(s, input).Ok? <==> |input| <= MAX_INPUT_SIZE
    ensures |input| > MAX_INPUT_SIZE ==>
              && ClientBlind(s, input, r) == Err(CRYPTO_ERROR)
              && forall claimed: Bytes :: VerifyFinalize(s, k, input, claimed) == Err(CRYPTO_ERROR)
    ensures |input| <= MAX_INPUT_SIZE ==>
              && ClientBlind(s, input, r).Ok?
              && var data := ClientBlind(s, input, r).value;
              var evaluation := BlindEvaluate(s, k, data.blindedElement, draws);
              if HashToCurve(s, input).value == s.g.zero then evaluation == Err(CRYPTO_ERROR)
              else
                && evaluation.Ok?
                && var output := ClientFinalize(s, s.g.Mul(k, s.g.base), data, evaluation.value);
                && output == Evaluate(s, k, input)
                && (if |input| <= MAX_U16 then output.Ok? else output == Err(INVALID_LENGTH))
                && forall claimed: Bytes ::
                  VerifyFinalize(s, k, input, claimed)
                  == if output.Ok? then Ok(claimed == output.value) else Err(INVALID_LENGTH)
  {
    hide BlindEvaluate, ClientFinalize;
    HashToCurveTotal(s, input);
    if |input| <= MAX_INPUT_SIZE {
      var h := HashToCurve(s, input).value;
      HonestEvaluation(s, k, r, h, draws);
      if h != s.g.zero {
        HonestFinalize(s, k, input, r, h, FirstNonZero(draws).value);
        assert s.g.Encodable(s.g.Mul(k, h));
      }
    } else {
      Oversized(s, input);
    }
  }

  lemma Oversized<P(!new)>(s: Suite<P>, input: Bytes)
    requires s.Shaped() && |input| > MAX_INPUT_SIZE
    ensures HashToCurve(s, input) == Err(CRYPTO_ERROR)
  {
  }

  lemma HonestPoints<P(!new)>(g: Group<P>, k: nat, r: nat, h: P)
    requires g.Valid() && 0 < k < g.order && 0 < r < g.order && h != g.zero
    ensures Travels(g, g.Mul(k, g.base)) && Travels(g, g.Mul(r, h)) && Travels(g, g.Mul(k, g.Mul(r, h)))
  {
    ScalarUnit(k, g.order);
    ScalarUnit(r, g.order);
    MulNonZero(g, k, g.base);
    MulNonZero(g, r, h);
    MulNonZero(g, k, g.Mul(r, h));
    assert g.Encodable(g.Mul(k, g.base)) && g.Encodable(g.Mul(r, h)) && g.Encodable(g.Mul(k, g.Mul(r, h)));
  }

  // the point survives encoding and decoding
  ghost predicate Travels<P(!new)>(g: Group<P>, a: P) {
    |g.encode(a)| == g.elementSize && g.decode(g.encode(a)) == Some(a)
  }

  // ---- the operations as the source performs them

  method AppendPrefixed(transcript: Bytes, data: Bytes) returns (grown: Bytes)
    ensures grown == transcript + Prefixed(data)
  {
    grown := transcript + [|data| / 0x100 % 0x100];
    grown := grown + [|data| % 0x100];
    grown := grown + data;
  }

  method ComputeCompositeScalar<P(!new)>(s: Suite<P>, y: P, c: P, d: P) returns (w: nat)
    requires s.Shaped()
    ensures w == CompositeScalar(s, y, c, d)
  {
    var seedTranscript := AppendPrefixed([], s.g.encode(y));
    seedTranscript := AppendPrefixed(seedTranscript, DST_SEED);
    assert seedTranscript == SeedTranscript(s, y);
    var seed := s.hash(seedTranscript);
    var transcript := AppendPrefixed([], seed);
    transcript := transcript + [0, 0];
    transcript := AppendPrefixed(transcript, s.g.encode(c));
    transcript := AppendPrefixed(transcript, s.g.encode(d));
    transcript := transcript + ToBytes("Composite");
    assert transcript == CompositeTranscript(s, y, c, d);
    w := HashToScalar(s, transcript);
  }

  method ComputeDleqChallenge<P(!new)>(s: Suite<P>, y: P, m: P, z: P, a: P, b: P) returns (c: nat)
    requires s.Shaped()
    ensures c == DleqChallenge(s, y, m, z, a, b)
  {
    var transcript := AppendPrefixed([], s.g.encode(y));
    transcript := AppendPrefixed(transcript, s.g.encode(m));
    transcript := AppendPrefixed(transcript, s.g.encode(z));
    transcript := AppendPrefixed(transcript, s.g.encode(a));
    transcript := AppendPrefixed(transcript, s.g.encode(b));
    transcript := transcript + ToBytes("Challenge");
    assert transcript == ChallengeTranscript(s, y, m, z, a, b);
    c := HashToScalar(s, transcript);
  }

  method GenerateDleqProof<P(!new)>(s: Suite<P>, k: nat, y: P, r: P, z: P, draws: seq<nat>)
    returns (proof: Result<Bytes>)
    requires s.Shaped()
    ensures proof == match FirstNonZero(draws)
                     case None => Err(CRYPTO_ERROR)
                     case Some(t) => Ok(Prove(s, k, y, r, z, t))
  {
    var w := ComputeCompositeScalar(s, y, r, z);
    var m := s.g.Mul(w, r);
    var zc := s.g.Mul(w, z);
    var i, t := 0, 0;
    while t == 0
      invariant 0 <= i <= |draws|
      invariant FirstNonZero(draws) == if t == 0 then FirstNonZero(draws[i..]) else Some(t)
      decreases |draws| - i, t == 0
    {
      if i == |draws| {
        return Err(CRYPTO_ERROR);
      }
      t := draws[i];
      i := i + 1;
    }
    var a := s.g.Mul(t, s.g.base);
    var b := s.g.Mul(t, m);
    var c := ComputeDleqChallenge(s, y, m, zc, a, b);
    var ck := MulMod(c, k, s.g.order);
    var response := SubMod(t, ck, s.g.order);
    proof := Ok(BigEndian(c, s.g.scalarSize) + BigEndian(response, s.g.scalarSize));
  }

  method VerifyDleqProof<P(!new)>(s: Suite<P>, y: P, r: P, z: P, proof: Bytes) returns (verdict: Result<bool>)
    requires s.Shaped()
    ensures verdict == VerifyProof(s, y, r, z, proof)
  {
    if |proof| != 2 * s.g.scalarSize {
      return Err(VERIFICATION_FAILED);
    }
    var c := FromBigEndian(proof[..s.g.scalarSize]);
    var sc := FromBigEndian(proof[s.g.scalarSize..]);
    if c >= s.g.order || sc >= s.g.order {
      return Err(VERIFICATION_FAILED);
    }
    var w := ComputeCompositeScalar(s, y, r, z);
    var m := s.g.Mul(w, r);
    var zc := s.g.Mul(w, z);
    var commitmentG := s.g.add(s.g.Mul(sc, s.g.base), s.g.Mul(c, y));
    var sM := s.g.Mul(sc, m);
    var cZ := s.g.Mul(c, zc);
    var commitmentM := s.g.add(sM, cZ);
    var c' := ComputeDleqChallenge(s, y, m, zc, commitmentG, commitmentM);
    verdict := Ok(BigEndian(c, s.g.scalarSize) == BigEndian(c', s.g.scalarSize));
  }

  method EvaluateBlinded<P(!new)>(s: Suite<P>, k: nat, blindedElement: Bytes, draws: seq<nat>)
    returns (result: Result<Evaluation>)
    requires s.Shaped()
    ensures result == BlindEvaluate(s, k, blindedElement, draws)
  {
    if |blindedElement| > MAX_INPUT_SIZE {
      return Err(CRYPTO_ERROR);
    }
    var r := s.g.decode(blindedElement);
    if r.None? {
      return Err(CRYPTO_ERROR);
    }
    var z := s.g.Mul(k, r.value);
    var publicPoint := s.g.Mul(k, s.g.base);
    var y := s.g.decode(s.g.encode(publicPoint));
    if y.None? {
      return Err(CRYPTO_ERROR);
    }
    var proof := GenerateDleqProof(s, k, y.value, r.value, z, draws);
    if proof.Err? {
      return Err(proof.error);
    }
    result := Ok(Evaluation(s.g.encode(z), proof.value));
  }

  method FinalizeEvaluation<P(!new)>(s: Suite<P>, publicKey: P, data: FinalizationData, evaluation: Evaluation)
    returns (result: Result<Bytes>)
    requires s.Shaped()
    ensures result == ClientFinalize(s, publicKey, data, evaluation)
  {
    if |evaluation.evaluatedElement| > MAX_INPUT_SIZE || |evaluation.proof| != 2 * s.g.scalarSize
       || |data.blindScalar| > MAX_INPUT_SIZE || |data.blindedElement| > MAX_INPUT_SIZE {
      return Err(CRYPTO_ERROR);
    }
    var z := s.g.decode(evaluation.evaluatedElement);
    if z.None? {
      return Err(UNBLINDING_FAILED);
    }
    var r := s.g.decode(data.blindedElement);
    if r.None? {
      return Err(UNBLINDING_FAILED);
    }
    var y := s.g.decode(s.g.encode(publicKey));
    if y.None? {
      return Err(CRYPTO_ERROR);
    }
    var verified := VerifyDleqProof(s, y.value, r.value, z.value, evaluation.proof);
    if verified.Err? {
      return Err(verified.error);
    }
    if !verified.value {
      return Err(VERIFICATION_FAILED);
    }
    var inverse := ModInverse(FromBigEndian(data.blindScalar), s.g.order);
    if inverse.None? {
      return Err(UNBLINDING_FAILED);
    }
    var n := s.g.Mul(inverse.value, z.value);
    result := FinalizeOutput(s, data.input, s.g.encode(n));
  }
}
