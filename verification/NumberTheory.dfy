// Powers, inverses modulo a prime, and Fermat's little theorem.
module NumberTheory {
  import opened Collections
  import opened Congruence

  function Pow(b: int, e: nat): int { if e == 0 then 1 else b * Pow(b, e - 1) }

  lemma {:induction false} PowAdd(b: int, e: nat, f: nat)
    ensures Pow(b, e + f) == Pow(b, e) * Pow(b, f)
  {
    if e > 0 {
      PowAdd(b, e - 1, f);
      assert b * (Pow(b, e - 1) * Pow(b, f)) == (b * Pow(b, e - 1)) * Pow(b, f);
    }
  }

  lemma {:induction false} PowMul(b: int, e: nat, f: nat)
    ensures Pow(b, e * f) == Pow(Pow(b, e), f)
  {
    if f > 0 {
      PowMul(b, e, f - 1);
      assert e * f == e + e * (f - 1);
      assert e * (f - 1) >= 0;
      PowAdd(b, e, e * (f - 1));
    }
  }

  lemma {:induction false} PowBase(a: int, b: int, e: nat)
    ensures Pow(a * b, e) == Pow(a, e) * Pow(b, e)
  {
    if e > 0 {
      PowBase(a, b, e - 1);
      calc {
        Pow(a * b, e);
        (a * b) * (Pow(a, e - 1) * Pow(b, e - 1));
        (a * Pow(a, e - 1)) * (b * Pow(b, e - 1));
      }
    }
  }

  lemma {:induction false} PowCong(a: int, b: int, e: nat, n: nat)
    requires Cong(a, b, n)
    ensures Cong(Pow(a, e), Pow(b, e), n)
  {
    if e == 0 {
      CongBy(1, 1, n, 0);
    } else {
      PowCong(a, b, e - 1, n);
      CongMul(a, b, Pow(a, e - 1), Pow(b, e - 1), n);
    }
  }

  lemma {:induction false} PowOne(e: nat)
    ensures Pow(1, e) == 1
  {
    if e > 0 {
      PowOne(e - 1);
    }
  }

  lemma {:induction false} PowNonNegative(a: nat, e: nat)
    ensures Pow(a, e) >= 0
  {
    if e > 0 {
      PowNonNegative(a, e - 1);
    }
  }

  predicate Divides(d: nat, n: nat) { d > 0 && n % d == 0 }
  ghost predicate Prime(p: nat) { p >= 2 && forall d: nat | 2 <= d < p :: !Divides(d, p) }

  lemma {:induction false} PrimeInverse(a: int, p: nat) returns (b: nat)
    requires Prime(p) && 1 <= a < p
    ensures b < p && Cong(a * b, 1, p)
    decreases a
  {
    if a == 1 {
      b := 1;
      CongBy(1, 1, p, 0);
      return;
    }
    var q, r := p / a, p % a;
    assert !Divides(a, p);
    var c := PrimeInverse(r, p);
    var k :| r * c - 1 == Multiple(k, p);
    b := (-q * c) % p;
    InverseStep(a, q, r, c, k, p);
    CongMod(-q * c, p);
    CongRefl(a, p);
    CongMul(a, a, b, -q * c, p);
    CongBy(a * (-q * c), 1, p, k - c);
    CongTrans(a * b, a * (-q * c), 1, p);
  }

  lemma InverseStep(a: int, q: int, r: int, c: int, k: int, p: int)
    requires p == q * a + r && r * c - 1 == k * p
    ensures a * (-q * c) - 1 == (k - c) * p
  {
    calc {
      (k - c) * p;
      k * p - c * (q * a + r);
      {
        assert c * (q * a + r) == c * (q * a) + c * r;
      }
      r * c - 1 - c * (q * a) - c * r;
      {
        assert a * (-q * c) == -(c * (q * a));
      }
      a * (-q * c) - 1;
    }
  }

  lemma CongRefl(a: int, n: nat)
    ensures Cong(a, a, n)
  {
    CongBy(a, a, n, 0);
  }

  lemma MoveFactor(a: int, b: int, x: int)
    ensures b * (a * x) == a * b * x
  {
  }

  // a has an inverse modulo n, so it cancels
  lemma CancelUnit(a: int, b: int, x: int, y: int, n: nat)
    requires Cong(a * b, 1, n) && Cong(a * x, a * y, n)
    ensures Cong(x, y, n)
  {
    hide Cong;
    CongRefl(x, n);
    CongRefl(y, n);
    CongRefl(b, n);
    CongMul(a * b, 1, x, x, n);
    CongMul(a * b, 1, y, y, n);
    CongMul(b, b, a * x, a * y, n);
    MoveFactor(a, b, x);
    MoveFactor(a, b, y);
    CongSym(a * b * x, x, n);
    CongTrans(x, a * b * x, a * b * y, n);
    CongTrans(x, a * b * y, y, n);
  }

  lemma UnitInverse(a: int, p: nat) returns (b: nat)
    requires Prime(p) && !Cong(a, 0, p)
    ensures b < p && Cong(a * b, 1, p)
  {
    CongModEq(a, 0, p);
    b := PrimeInverse(a % p, p);
    CongMod(a, p);
    CongRefl(b, p);
    CongMul(a, a % p, b, b, p);
    CongTrans(a * b, (a % p) * b, 1, p);
  }

  // Euclid: a prime modulus has no zero divisors
  lemma CancelMod(a: int, x: int, y: int, p: nat)
    requires Prime(p) && !Cong(a, 0, p) && Cong(a * x, a * y, p)
    ensures Cong(x, y, p)
  {
    var b := UnitInverse(a, p);
    CancelUnit(a, b, x, y, p);
  }

  // ---- Fermat
  ghost function Product(s: set<nat>): int { if s == {} then 1 else var x :| x in s; x * Product(s - {x}) }

  lemma {:induction false} ProductRemove(s: set<nat>, x: nat)
    requires x in s
    ensures Product(s) == x * Product(s - {x})
    decreases |s|
  {
    var y :| y in s && Product(s) == y * Product(s - {y});
    if x != y {
      var rest := s - {x} - {y};
      ProductRemove(s - {y}, x);
      ProductRemove(s - {x}, y);
      assert s - {y} - {x} == rest;
      Swap(x, y, Product(rest));
    }
  }

  lemma Swap(x: int, y: int, z: int) ensures y * (x * z) == x * (y * z) {}

  ghost function Image(a: nat, s: set<nat>, p: nat): set<nat> requires p > 0 { set x | x in s :: Residue(a, x, p) }
  function Residue(a: nat, x: nat, p: nat): nat requires p > 0 { (a * x) % p }

  lemma ResidueInjective(a: nat, x: nat, y: nat, p: nat)
    requires Prime(p) && !Cong(a, 0, p)
    requires x < p && y < p && Residue(a, x, p) == Residue(a, y, p)
    ensures x == y
  {
    CongModEq(a * x, a * y, p);
    CancelMod(a, x, y, p);
    CongResidue(x, y, p);
  }

  lemma ProductStep(a: nat, x: nat, u: int, pw: int, pr: int, p: nat)
    requires p > 0 && Cong(u, pw * pr, p)
    ensures Cong(Residue(a, x, p) * u, (a * pw) * (x * pr), p)
  {
    CongMod(a * x, p);
    CongMul(Residue(a, x, p), a * x, u, pw * pr, p);
    assert (a * x) * (pw * pr) == (a * pw) * (x * pr);
  }

  lemma ImageRemove(a: nat, s: set<nat>, x: nat, p: nat)
    requires Prime(p) && !Cong(a, 0, p)
    requires x in s && forall y | y in s :: y < p
    ensures Residue(a, x, p) !in Image(a, s - {x}, p)
    ensures Image(a, s, p) == Image(a, s - {x}, p) + {Residue(a, x, p)}
  {
    if y :| y in s - {x} && Residue(a, y, p) == Residue(a, x, p) { ResidueInjective(a, x, y, p); }
  }

  lemma {:induction false} ImageSize(a: nat, s: set<nat>, p: nat)
    requires Prime(p) && !Cong(a, 0, p) && forall x | x in s :: x < p
    ensures |Image(a, s, p)| == |s|
  {
    if s == {} {
      assert Image(a, s, p) == {};
    } else {
      var x :| x in s;
      ImageSize(a, s - {x}, p);
      ImageRemove(a, s, x, p);
    }
  }

  lemma {:induction false} ImageProduct(a: nat, s: set<nat>, p: nat)
    requires Prime(p) && !Cong(a, 0, p) && forall x | x in s :: x < p
    ensures Cong(Product(Image(a, s, p)), Pow(a, |s|) * Product(s), p)
    decreases |s|
  {
    if s == {} {
      assert Image(a, s, p) == {};
      CongRefl(1, p);
    } else {
      var x :| x in s;
      var t := s - {x};
      ImageProduct(a, t, p);
      ImageRemove(a, s, x, p);
      ProductStep(a, x, Product(Image(a, t, p)), Pow(a, |t|), Product(t), p);
      assert Product(Image(a, s, p)) == Residue(a, x, p) * Product(Image(a, t, p)) by {
        ProductInsert(Image(a, t, p), Residue(a, x, p));
      }
      assert Pow(a, |s|) == a * Pow(a, |t|);
      assert Product(s) == x * Product(t) by { ProductRemove(s, x); }
    }
  }

  lemma ProductInsert(s: set<nat>, x: nat)
    requires x !in s
    ensures Product(s + {x}) == x * Product(s)
  {
    ProductRemove(s + {x}, x);
    assert s + {x} - {x} == s;
  }

  lemma {:induction false} ProductUnit(s: set<nat>, p: nat)
    requires Prime(p) && forall x | x in s :: 1 <= x < p
    ensures !Cong(Product(s), 0, p)
    decreases |s|
  {
    if s == {} {
      if Cong(1, 0, p) {
        CongResidue(1, 0, p);
      }
    } else {
      var x :| x in s;
      ProductRemove(s, x);
      ProductUnit(s - {x}, p);
      if Cong(x, 0, p) {
        CongResidue(x, 0, p);
      }
      NoZeroDivisor(x, Product(s - {x}), p);
    }
  }

  lemma NoZeroDivisor(x: int, y: int, p: nat)
    requires Prime(p)
    ensures Cong(x * y, 0, p) <==> Cong(x, 0, p) || Cong(y, 0, p)
  {
    if Cong(x * y, 0, p) && !Cong(x, 0, p) {
      assert x * 0 == 0;
      CancelMod(x, y, 0, p);
    }
    if Cong(x, 0, p) {
      CongRefl(y, p);
      CongMul(x, 0, y, y, p);
    }
    if Cong(y, 0, p) {
      CongRefl(x, p);
      CongMul(x, x, y, 0, p);
    }
  }

  ghost function Units(p: nat): (s: set<nat>)
    ensures forall x :: x in s <==> 1 <= x < p
    ensures p >= 1 ==> |s| == p - 1
  { if p <= 1 then {} else Units(p - 1) + {p - 1} }

  lemma SubsetCard<T>(s: set<T>, t: set<T>)
    requires s <= t && |s| == |t|
    ensures s == t
  {
    if x :| x in t && x !in s {
      assert |s + {x}| == |s| + 1;
      assert s + {x} <= t;
      Cardinality(s + {x}, t);
    }
  }

  lemma ResidueOfUnit(a: nat, x: nat, p: nat)
    requires Prime(p) && !Cong(a, 0, p) && 1 <= x < p
    ensures 1 <= Residue(a, x, p) < p
  {
    if Residue(a, x, p) == 0 {
      ResidueInjective(a, x, 0, p);
    }
  }

  // the non-zero residues modulo p
  ghost predicate AreUnits(s: set<nat>, p: nat) { |s| == p - 1 && forall x :: x in s <==> 1 <= x < p }

  lemma ImageOfUnits(a: nat, s: set<nat>, p: nat)
    requires Prime(p) && !Cong(a, 0, p) && AreUnits(s, p)
    requires |Image(a, s, p)| == |s|
    ensures Image(a, s, p) == s
  {
    forall x | x in s ensures Residue(a, x, p) in s {
      ResidueOfUnit(a, x, p);
    }
    SubsetCard(Image(a, s, p), s);
  }

  lemma CancelFixed(f: int, w: int, p: nat)
    requires Prime(p) && !Cong(f, 0, p) && Cong(f, w * f, p)
    ensures Cong(w, 1, p)
  {
    assert w * f == f * w && f == f * 1;
    CongSym(f * 1, f * w, p);
    CancelMod(f, w, 1, p);
  }

  lemma FermatOver(a: nat, s: set<nat>, p: nat)
    requires Prime(p) && !Cong(a, 0, p) && AreUnits(s, p)
    ensures Cong(Pow(a, p - 1), 1, p)
  {
    ImageProduct(a, s, p);
    ImageSize(a, s, p);
    ImageOfUnits(a, s, p);
    ProductUnit(s, p);
    CancelFixed(Product(s), Pow(a, p - 1), p);
  }

  // Fermat's little theorem
  lemma Fermat(a: nat, p: nat)
    requires Prime(p) && !Cong(a, 0, p)
    ensures Cong(Pow(a, p - 1), 1, p)
  {
    FermatOver(a, Units(p), p);
  }
}
