// Squares modulo a prime p = 3 mod 4: the test y = a^((p+1)/4), y^2 = a.
module QuadraticResidues {
  import opened Congruence
  import opened NumberTheory

  // a^((p-1)/2)
  function Character(a: nat, p: nat): int requires p >= 1 { Pow(a, (p - 1) / 2) }
  // a^((p+1)/4)
  function RootPower(a: nat, p: nat): int { Pow(a, (p + 1) / 4) }

  ghost predicate IsSquare(a: int, p: nat) { exists w: nat :: Cong(Square(w), a, p) }
  function Square(w: int): int { w * w }

  // RootPower(a)^2 = a * Character(a)
  lemma RootSquared(a: nat, p: nat)
    requires p % 4 == 3
    ensures Square(RootPower(a, p)) == a * Character(a, p)
  {
    var e := (p + 1) / 4;
    PowAdd(a, e, e);
    assert 2 * e == 1 + (p - 1) / 2;
    assert Pow(a, 1 + (p - 1) / 2) == a * Pow(a, (p - 1) / 2);
  }

  lemma CharacterSquared(a: nat, p: nat)
    requires Prime(p) && p % 4 == 3 && !Cong(a, 0, p)
    ensures Cong(Square(Character(a, p)), 1, p)
  {
    var h := (p - 1) / 2;
    PowAdd(a, h, h);
    assert h + h == p - 1;
    Fermat(a, p);
  }

  // 1 has exactly two square roots modulo a prime
  lemma RootsOfUnity(w: int, p: nat)
    requires Prime(p) && Cong(Square(w), 1, p)
    ensures Cong(w, 1, p) || Cong(w, -1, p)
  {
    CongRefl(1, p);
    CongSub(Square(w), 1, 1, 1, p);
    assert Square(w) - 1 == (w - 1) * (w + 1);
    NoZeroDivisor(w - 1, w + 1, p);
    if Cong(w - 1, 0, p) {
      CongAdd(w - 1, 0, 1, 1, p);
    } else {
      CongSub(w + 1, 0, 1, 1, p);
    }
  }

  lemma EulerCriterion(a: nat, p: nat)
    requires Prime(p) && p % 4 == 3 && !Cong(a, 0, p)
    ensures Cong(Character(a, p), 1, p) || Cong(Character(a, p), -1, p)
    ensures IsSquare(a, p) <==> Cong(Character(a, p), 1, p)
    ensures IsSquare(a, p) <==> Cong(Square(RootPower(a, p)), a, p)
  {
    CharacterSquared(a, p);
    RootsOfUnity(Character(a, p), p);
    RootSquared(a, p);
    CongRefl(a, p);
    if Cong(Character(a, p), 1, p) {
      CongMul(a, a, Character(a, p), 1, p);
      PowNonNegative(a, (p + 1) / 4);
      assert Cong(Square(RootPower(a, p)), a, p);
    }
    if w: nat :| Cong(Square(w), a, p) {
      SquareHasCharacterOne(w, a, p);
    }
    if Cong(Square(RootPower(a, p)), a, p) {
      PowNonNegative(a, (p + 1) / 4);
      assert a * 1 == a;
      CancelMod(a, Character(a, p), 1, p);
    }
  }

  lemma SquareHasCharacterOne(w: nat, a: nat, p: nat)
    requires Prime(p) && p % 4 == 3 && !Cong(a, 0, p) && Cong(Square(w), a, p)
    ensures Cong(Character(a, p), 1, p)
  {
    if Cong(w, 0, p) {
      CongMul(w, 0, w, 0, p);
      CongSym(Square(w), a, p);
      CongTrans(a, Square(w), 0, p);
    }
    var h := (p - 1) / 2;
    PowCong(Square(w), a, h, p);
    PowBase(w, w, h);
    CharacterSquared(w, p);
    CongSym(Pow(Square(w), h), Pow(a, h), p);
    CongTrans(Pow(a, h), Pow(Square(w), h), 1, p);
  }

  lemma CharacterProduct(a: nat, b: nat, c: nat, x: int, y: int, p: nat)
    requires p >= 1 && Cong(c, a * b, p)
    requires Cong(Character(a, p), x, p) && Cong(Character(b, p), y, p)
    ensures Cong(Character(c, p), x * y, p)
  {
    var h := (p - 1) / 2;
    PowCong(c, a * b, h, p);
    PowBase(a, b, h);
    CongMul(Character(a, p), x, Character(b, p), y, p);
    CongTrans(Character(c, p), Character(a, p) * Character(b, p), x * y, p);
  }

  lemma SquareCong(a: int, b: int, p: nat)
    requires Cong(a, b, p)
    ensures IsSquare(a, p) <==> IsSquare(b, p)
  {
    if w: nat :| Cong(Square(w), a, p) {
      CongTrans(Square(w), a, b, p);
    }
    CongSym(a, b, p);
    if w: nat :| Cong(Square(w), b, p) {
      CongTrans(Square(w), b, a, p);
    }
  }

  lemma ZeroIsSquare(a: int, p: nat)
    requires Cong(a, 0, p)
    ensures IsSquare(a, p)
  {
    CongSym(a, 0, p);
    assert Cong(Square(0), a, p);
  }

  lemma RootOfZero(a: nat, p: nat)
    requires p >= 3 && Cong(a, 0, p)
    ensures Cong(Square(RootPower(a, p)), a, p)
  {
    var e := (p + 1) / 4 - 1;
    assert RootPower(a, p) == a * Pow(a, e);
    var r := RootPower(a, p);
    CongRefl(Pow(a, e), p);
    CongMul(a, 0, Pow(a, e), Pow(a, e), p);
    CongMul(r, 0, r, 0, p);
    CongSym(a, 0, p);
    CongTrans(Square(r), 0, a, p);
  }

  // squaring a^((p+1)/4) gives a back exactly when a is a square, zero included
  lemma SquareTest(a: nat, p: nat)
    requires Prime(p) && p % 4 == 3
    ensures Cong(Square(RootPower(a, p)), a, p) <==> IsSquare(a, p)
  {
    if Cong(a, 0, p) {
      RootOfZero(a, p);
      ZeroIsSquare(a, p);
    } else {
      EulerCriterion(a, p);
    }
  }

  lemma NonSquare(a: nat, p: nat)
    requires Prime(p) && p % 4 == 3 && !IsSquare(a, p)
    ensures !Cong(a, 0, p) && Cong(Character(a, p), -1, p)
  {
    if Cong(a, 0, p) {
      ZeroIsSquare(a, p);
    }
    EulerCriterion(a, p);
  }

  // z u^2 is a non-square when z is
  lemma TwistedSquare(z: nat, u: nat, t: nat, p: nat)
    requires Prime(p) && p % 4 == 3 && !IsSquare(z, p)
    requires Cong(t, z * Square(u), p) && !Cong(t, 0, p)
    ensures Cong(Character(t, p), -1, p)
  {
    NonSquare(z, p);
    NoZeroDivisor(z, Square(u), p);
    if Cong(Square(u), 0, p) {
      CongTrans(t, z * Square(u), 0, p);
    }
    CongRefl(Square(u), p);
    SquareHasCharacterOne(u, Square(u), p);
    CharacterProduct(z, Square(u), t, -1, 1, p);
  }

  // t^3 g is a square when t and g are both non-squares
  lemma CubeOfNonSquares(t: nat, g: nat, h: nat, p: nat)
    requires Prime(p) && p % 4 == 3
    requires Cong(Character(t, p), -1, p) && !IsSquare(g, p) && Cong(h, t * t * t * g, p)
    ensures IsSquare(h, p)
  {
    NonSquare(g, p);
    CongRefl(t * t, p);
    CongRefl(t * t * t, p);
    CharacterProduct(t, t, t * t, -1, -1, p);
    CharacterProduct(t * t, t, t * t * t, 1, -1, p);
    CharacterProduct(t * t * t, g, h, -1, -1, p);
    if Cong(h, 0, p) {
      ZeroIsSquare(h, p);
    } else {
      EulerCriterion(h, p);
    }
  }
}
