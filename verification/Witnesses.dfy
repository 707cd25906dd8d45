// Small instances of what the algebraic theorems assume: their hypotheses can be met together.
module Witnesses {
  import opened Types
  import opened Congruence
  import opened NumberTheory
  import opened QuadraticResidues
  import opened PrimeOrderGroup
  import Rsa = BlindRsa
  import Sswu
  import Voprf

  // a number without divisors up to its square root is prime
  lemma PrimeBy(p: nat, k: nat)
    requires 2 <= p < k * k && forall d: nat | 2 <= d < k :: !Divides(d, p)
    ensures Prime(p)
  {
    forall d: nat | 2 <= d < p ensures !Divides(d, p) {
      if Divides(d, p) && d >= k {
        Cofactor(p, d, p / d, k);
        assert Divides(p / d, p);
      }
    }
  }

  lemma Cofactor(p: nat, d: nat, q: nat, k: nat)
    requires 2 <= d < p && p < k * k && d >= k && p % d == 0 && q == p / d
    ensures 2 <= q < k && p % q == 0
  {
    assert p == d * q;
    if q >= k {
      Larger(d, q, k);
    }
    assert q != 0 && q != 1;
    CongBy(p, 0, q, d);
    CongModEq(p, 0, q);
  }

  lemma Larger(d: nat, q: nat, k: nat)
    requires d >= k && q >= k
    ensures d * q >= k * k
  {
    assert d * q >= k * q;
  }

  // y^2 = x^3 + x + 11 modulo 23, with Z = 11
  const CURVE := Sswu.Curve(23, 1, 11)

  lemma NonSquareOf23(w: nat)
    ensures !Cong(Square(w), 11, 23)
  {
    var r := w % 23;
    CongMod(w, 23);
    CongMul(r, w, r, w, 23);
    if Cong(Square(w), 11, 23) {
      CongTrans(r * r, Square(w), 11, 23);
      CongModEq(r * r, 11, 23);
      assert (r * r) % 23 == 11;
      ResiduesOf23(r);
    }
  }

  lemma ResiduesOf23(r: nat)
    requires r < 23
    ensures (r * r) % 23 != 11
  {
    assert r in {0, 1, 2, 3, 4, 5, 6, 7, 8, 9, 10, 11, 12, 13, 14, 15, 16, 17, 18, 19, 20, 21, 22};
  }

  lemma CurveIsValid()
    ensures CURVE.Valid()
  {
    PrimeBy(23, 5);
    forall w: nat ensures !Cong(Square(w), 11, 23) {
      NonSquareOf23(w);
    }
    CongBy(1 * (11 * 1), 11, 23, 0);
    CongBy(Square(6), CURVE.Rhs(1), 23, 1);
    assert CURVE.IsExceptional(1);
  }

  // n = 181 * 191, two octets long
  const KEY := Rsa.PrivateKey(34571, 7, 2443, 2)

  lemma KeyIsValid()
    ensures KEY.Valid()
  {
    PrimeBy(181, 14);
    PrimeBy(191, 14);
    CongBy(7 * 2443, 1, 180, 95);
    CongBy(7 * 2443, 1, 190, 90);
    assert Pow(256, 1) == 256 && Pow(256, 2) == 65536;
    forall x: nat ensures KEY.Opens(x) {
      Rsa.KeyFromPrimes(181, 191, KEY, x);
    }
  }

  // the integers modulo 3, each non-zero one encoded as an octet
  type Z3 = x: int | 0 <= x < 3

  function Add(a: Z3, b: Z3): Z3 { if a + b >= 3 then a + b - 3 else a + b }
  function Encode(a: Z3): Bytes { if a == 0 then [] else [a] }
  function Decode(s: Bytes): Option<Z3> { if s == [1] || s == [2] then Some(s[0]) else None }

  const ZERO: Z3 := 0
  const ONE: Z3 := 1
  const GROUP: Group<Z3> := Group(3, ZERO, ONE, Add, Encode, Decode, 1, 1)

  lemma ThreeTimes(a: Z3)
    ensures GROUP.Annihilated(a)
  {
    assert GROUP.Mul(1, a) == Add(a, 0);
    assert GROUP.Mul(2, a) == Add(a, Add(a, 0));
    assert GROUP.Mul(3, a) == Add(a, Add(a, Add(a, 0)));
  }

  lemma GroupIsValid()
    ensures GROUP.Valid()
  {
    PrimeBy(3, 2);
    assert Pow(256, 1) == 256;
    forall a: Z3 ensures GROUP.Annihilated(a) {
      ThreeTimes(a);
    }
    hide Group.Annihilated;
    forall a: Z3, b: Z3, c: Z3 ensures GROUP.Associative(a, b, c) {
      Associates(a, b, c);
    }
  }

  lemma GroupIsCyclic()
    ensures GROUP.Cyclic()
  {
    assert GROUP.Mul(1, ONE) == Add(ONE, GROUP.Mul(0, ONE)) == ONE;
    assert GROUP.Mul(2, ONE) == Add(ONE, GROUP.Mul(1, ONE)) == 2;
    forall a: Z3 ensures GROUP.Generated(a) {
      assert a == GROUP.Mul(a, ONE);
    }
  }

  lemma Associates(a: Z3, b: Z3, c: Z3)
    ensures GROUP.Associative(a, b, c)
  {
  }

  function Hashed(data: Bytes): Hash384 { seq(48, _ => 0) }
  function FromAffine(x: nat, y: nat): Option<Z3> { Some(ONE) }

  const SUITE: Voprf.Suite<Z3> := Voprf.Suite(GROUP, Hashed, CURVE, FromAffine)

  lemma SuiteIsValid()
    ensures SUITE.Shaped() && SUITE.Valid()
  {
    hide Group.Valid, Sswu.Curve.Valid;
    GroupIsValid();
    CurveIsValid();
  }
}
