// The simplified SWU map of src/crypto/voprf.cpp.
module Sswu {
  import opened Types
  import opened Congruence
  import opened NumberTheory
  import opened QuadraticResidues
  import opened ModularField
  import opened Octets

  // y^2 = x^3 + A x + B over the integers modulo p; Z is fixed by the hash-to-curve suite
  datatype Curve = Curve(p: nat, A: nat, B: nat) {
    function Z(): nat requires 12 < p { p - 12 }
    function Rhs(x: nat): nat { (x * x + A) * x + B }
    ghost predicate OnCurve(x: nat, y: int) { Cong(Square(y), Rhs(x), p) }

    // what the map relies on: a field with p = 3 mod 4, Z no square, g(B / (Z A)) a square
    ghost predicate Valid() {
      && Prime(p) && p % 4 == 3 && 12 < p && 0 < A < p && B < p
      && !IsSquare(Z(), p)
      && exists x: nat :: IsExceptional(x)
    }
    ghost predicate IsExceptional(x: nat)
      requires 12 < p
    {
      Cong(x * (Z() * A), B, p) && IsSquare(Rhs(x), p)
    }
  }

  function RhsMod(c: Curve, x: nat): (g: nat)
    requires c.p > 0
    ensures g < c.p
  {
    AddMod(MulMod(AddMod(MulMod(x, x, c.p), c.A, c.p), x, c.p), c.B, c.p)
  }

  lemma RhsModCong(c: Curve, x: nat)
    requires c.p > 0
    ensures Cong(RhsMod(c, x), c.Rhs(x), c.p)
  {
    var sq := MulMod(x, x, c.p);
    var sum := AddMod(sq, c.A, c.p);
    CongRefl(c.A, c.p);
    CongRefl(c.B, c.p);
    CongRefl(x, c.p);
    MulModCong(x, x, x, x, c.p);
    AddModCong(sq, x * x, c.A, c.A, c.p);
    MulModCong(sum, x * x + c.A, x, x, c.p);
    AddModCong(MulMod(sum, x, c.p), (x * x + c.A) * x, c.B, c.B, c.p);
  }

  function Tv3(c: Curve, u: nat): nat
    requires c.p > 12
  {
    MulMod(c.Z(), MulMod(u, u, c.p), c.p)
  }

  function Tv5(c: Curve, u: nat): nat
    requires c.p > 12
  {
    AddMod(MulMod(Tv3(c, u), Tv3(c, u), c.p), Tv3(c, u), c.p)
  }

  function Tv4(c: Curve, u: nat): nat
    requires c.p > 12
  {
    MulMod(AddMod(Tv5(c, u), 1, c.p), c.B, c.p)
  }

  function Tv6(c: Curve, u: nat): nat
    requires c.p > 12 && c.A < c.p
  {
    if Tv5(c, u) == 0 then MulMod(c.Z(), c.A, c.p) else MulMod(Tv5(c, u), c.p - c.A, c.p)
  }

  function FirstX(c: Curve, u: nat): Option<nat>
    requires c.p > 12 && c.A < c.p
  {
    match ModInverse(Tv6(c, u), c.p)
    case None => None
    case Some(inv) => Some(MulMod(Tv4(c, u), inv, c.p))
  }

  lemma FirstXReduced(c: Curve, u: nat)
    requires c.p > 12 && c.A < c.p
    ensures FirstX(c, u).Some? ==> FirstX(c, u).value < c.p
  {
  }

  function Root(c: Curve, g: nat): (y: nat)
    requires c.p > 0
    ensures y < c.p
  {
    ExpMod(g, (c.p + 1) / 4, c.p)
  }

  // did the candidate root of g(x1) square back to g(x1)?
  predicate RootFound(c: Curve, x1: nat)
    requires c.p > 0
  {
    var g := RhsMod(c, x1);
    MulMod(Root(c, g), Root(c, g), c.p) == g
  }

  // the abscissa kept by the selection
  function SelectX(c: Curve, u: nat, x1: nat): nat
    requires c.p > 12
  {
    if RootFound(c, x1) then x1 else MulMod(Tv3(c, u), x1, c.p)
  }

  // y or p - y, whichever has the parity of u
  function Signed(c: Curve, u: nat, y: nat): nat
    requires y < c.p
  {
    if u % 2 == y % 2 then y else c.p - y
  }

  // the affine point the code builds for u, or None when the inversion fails
  function MapToCurve(c: Curve, u: nat): Option<(nat, nat)>
    requires c.p > 12 && c.A < c.p
  {
    match FirstX(c, u)
    case None => None
    case Some(x1) =>
      var x := SelectX(c, u, x1);
      Some((x, Signed(c, u, Root(c, RhsMod(c, x)))))
  }

  // ---- section 6.6.2 of RFC 9380, stated as a relation

  // x1 = (-B / A) (1 + 1 / (t^2 + t)) for t = Z u^2, or B / (Z A) when t^2 + t = 0
  ghost predicate IsFirstX(c: Curve, t: int, x: int)
    requires 12 < c.p
  {
    if Cong(t * t + t, 0, c.p) then Cong(x * (c.Z() * c.A), c.B, c.p)
    else Cong(c.A * x * (t * t + t) + c.B * (t * t + t + 1), 0, c.p)
  }

  lemma Tv3Cong(c: Curve, u: nat)
    requires c.p > 12
    ensures Cong(Tv3(c, u), c.Z() * Square(u), c.p)
  {
    CongRefl(c.Z(), c.p);
    CongRefl(u, c.p);
    MulModCong(u, u, u, u, c.p);
    MulModCong(c.Z(), c.Z(), MulMod(u, u, c.p), Square(u), c.p);
  }

  lemma Tv45Cong(c: Curve, u: nat, t: nat)
    requires c.p > 12 && t == Tv3(c, u)
    ensures Cong(Tv5(c, u), t * t + t, c.p)
    ensures Cong(Tv4(c, u), (t * t + t + 1) * c.B, c.p)
    ensures Tv5(c, u) == 0 <==> Cong(t * t + t, 0, c.p)
  {
    var p := c.p;
    CongRefl(t, p);
    CongRefl(1, p);
    CongRefl(c.B, p);
    MulModCong(t, t, t, t, p);
    AddModCong(MulMod(t, t, p), t * t, t, t, p);
    var s := AddMod(Tv5(c, u), 1, p);
    AddModCong(Tv5(c, u), t * t + t, 1, 1, p);
    MulModCong(s, t * t + t + 1, c.B, c.B, p);
    if Cong(t * t + t, 0, p) {
      CongTrans(Tv5(c, u), t * t + t, 0, p);
      CongResidue(Tv5(c, u), 0, p);
    }
    if Tv5(c, u) == 0 {
      CongSym(0, t * t + t, p);
    }
  }

  lemma ProductOfUnits(a: nat, b: nat, p: nat)
    requires Prime(p) && 0 < a < p && 0 < b < p
    ensures !Cong(MulMod(a, b, p), 0, p)
  {
    if Cong(a, 0, p) {
      CongResidue(a, 0, p);
    }
    if Cong(b, 0, p) {
      CongResidue(b, 0, p);
    }
    NoZeroDivisor(a, b, p);
    RemCong(a * b, p);
    if Cong(MulMod(a, b, p), 0, p) {
      CongSym(MulMod(a, b, p), a * b, p);
      CongTrans(a * b, MulMod(a, b, p), 0, p);
    }
  }

  lemma Tv6Unit(c: Curve, u: nat)
    requires c.Valid()
    ensures !Cong(Tv6(c, u), 0, c.p)
  {
    if Tv5(c, u) == 0 {
      ProductOfUnits(c.Z(), c.A, c.p);
    } else {
      ProductOfUnits(Tv5(c, u), c.p - c.A, c.p);
    }
  }

  // n / d computed as n times the inverse of d
  lemma Quotient(n: nat, d: nat, inv: nat, p: nat)
    requires p > 0 && Cong(d * inv, 1, p)
    ensures Cong(MulMod(n, inv, p) * d, n, p)
  {
    CongRefl(n, p);
    CongRefl(d, p);
    RemCong(n * inv, p);
    CongMul(MulMod(n, inv, p), n * inv, d, d, p);
    CongMul(n, n, d * inv, 1, p);
    assert n * inv * d == n * (d * inv);
    CongTrans(MulMod(n, inv, p) * d, n * inv * d, n, p);
  }

  lemma FirstXTimesTv6(c: Curve, u: nat)
    requires c.Valid()
    ensures FirstX(c, u).Some? && FirstX(c, u).value < c.p
    ensures Cong(FirstX(c, u).value * Tv6(c, u), Tv4(c, u), c.p)
  {
    Tv6Unit(c, u);
    var b := UnitInverse(Tv6(c, u), c.p);
    ModInverseSpec(Tv6(c, u), c.p);
    Quotient(Tv4(c, u), Tv6(c, u), ModInverse(Tv6(c, u), c.p).value, c.p);
  }

  // moving -A s x = B (s + 1) to one side, for s = t^2 + t
  lemma ClearSign(a: nat, b: int, s: int, s1: int, x: int, d: int, n: int, p: nat)
    requires 0 < a < p && s1 == s + 1
    requires Cong(x * d, n, p) && Cong(d, s * (p - a), p) && Cong(n, s1 * b, p)
    ensures Cong(a * x * s + b * s1, 0, p)
  {
    CongRefl(x, p);
    CongMul(x, x, d, s * (p - a), p);
    CongSym(x * d, x * (s * (p - a)), p);
    CongTrans(x * (s * (p - a)), x * d, n, p);
    CongTrans(x * (s * (p - a)), n, s1 * b, p);
    CongRefl(s1 * b, p);
    var w := x * (s * (p - a));
    CongSub(s1 * b, s1 * b, w, s1 * b, p);
    CongBy(x * s * p, 0, p, x * s);
    CongAdd(s1 * b - w, 0, x * s * p, 0, p);
    SpreadSign(a, s, x, p);
  }

  lemma SpreadSign(a: int, s: int, x: int, p: int)
    ensures x * s * p - x * (s * (p - a)) == a * x * s
  {
    calc {
      x * (s * (p - a));
      (x * s) * (p - a);
      x * s * p - (x * s) * a;
    }
  }

  lemma FirstXMeetsRfc(c: Curve, u: nat)
    requires c.Valid()
    ensures FirstX(c, u).Some? && FirstX(c, u).value < c.p
    ensures IsFirstX(c, Tv3(c, u), FirstX(c, u).value)
  {
    var t, p := Tv3(c, u), c.p;
    FirstXTimesTv6(c, u);
    Tv45Cong(c, u, t);
    var x := FirstX(c, u).value;
    var d := Tv6(c, u);
    if Tv5(c, u) == 0 {
      RemCong(c.Z() * c.A, p);
      FirstXExceptional(c, t, x, d, Tv4(c, u));
    } else {
      FirstXOrdinary(c, t, Tv5(c, u), x, d, Tv4(c, u));
    }
  }

  lemma FirstXOrdinary(c: Curve, t: nat, s: nat, x: nat, d: nat, n: nat)
    requires 0 < c.A < c.p && Cong(s, t * t + t, c.p)
    requires d == MulMod(s, c.p - c.A, c.p) && Cong(x * d, n, c.p) && Cong(n, (t * t + t + 1) * c.B, c.p)
    ensures Cong(c.A * x * (t * t + t) + c.B * (t * t + t + 1), 0, c.p)
  {
    CongRefl(c.p - c.A, c.p);
    MulModCong(s, t * t + t, c.p - c.A, c.p - c.A, c.p);
    ClearSign(c.A, c.B, t * t + t, t * t + t + 1, x, d, n, c.p);
  }

  lemma FirstXExceptional(c: Curve, t: nat, x: nat, d: nat, n: nat)
    requires 12 < c.p && Cong(t * t + t, 0, c.p)
    requires Cong(d, c.Z() * c.A, c.p) && Cong(x * d, n, c.p) && Cong(n, (t * t + t + 1) * c.B, c.p)
    ensures Cong(x * (c.Z() * c.A), c.B, c.p)
  {
    var p := c.p;
    CongRefl(x, p);
    CongRefl(1, p);
    CongRefl(c.B, p);
    CongMul(x, x, d, c.Z() * c.A, p);
    CongSym(x * d, x * (c.Z() * c.A), p);
    CongTrans(x * (c.Z() * c.A), x * d, n, p);
    CongAdd(t * t + t, 0, 1, 1, p);
    CongMul(t * t + t + 1, 1, c.B, c.B, p);
    CongTrans(n, (t * t + t + 1) * c.B, c.B, p);
    CongTrans(x * (c.Z() * c.A), n, c.B, p);
  }

  // t^3 g(x) - g(t x) is a multiple of A x (t^2 + t) + B (t^2 + t + 1)
  lemma CurveIdentity(c: Curve, t: nat, x: nat)
    ensures t * t * t * c.Rhs(x) - c.Rhs(t * x)
         == (t - 1) * (c.A * x * (t * t + t) + c.B * (t * t + t + 1))
  {
    ExpandRhs(c, x, t * t * t);
    ExpandRhs(c, t * x, 1);
    Cube(t, x);
    Factor(t, c.A * x, c.B);
    assert c.A * (t * x) == t * (c.A * x);
  }

  lemma ExpandRhs(c: Curve, x: nat, m: int)
    ensures m * c.Rhs(x) == m * (x * x * x) + m * (c.A * x) + m * c.B
  {
    assert c.Rhs(x) == x * x * x + c.A * x + c.B;
  }

  lemma Factor(t: int, u: int, v: int)
    ensures (t - 1) * (u * (t * t + t) + v * (t * t + t + 1)) == t * t * t * u - t * u + t * t * t * v - v
  {
    Distribute(t - 1, u, t * t + t, v, t * t + t + 1);
    Telescope(t);
    assert u * (t * t * t - t) == t * t * t * u - t * u;
    assert v * (t * t * t - 1) == t * t * t * v - v;
  }

  lemma Distribute(k: int, u: int, a: int, v: int, b: int)
    ensures k * (u * a + v * b) == u * (k * a) + v * (k * b)
  {
  }

  lemma Telescope(t: int)
    ensures (t - 1) * (t * t + t) == t * t * t - t && (t - 1) * (t * t + t + 1) == t * t * t - 1
  {
  }

  lemma Cube(t: int, x: int)
    ensures (t * x) * (t * x) * (t * x) == (t * t * t) * (x * x * x)
  {
    calc {
      (t * x) * (t * x) * (t * x);
      {
        assert (t * x) * (t * x) == (t * t) * (x * x);
      }
      (t * t) * (x * x) * (t * x);
      (t * t * t) * (x * x * x);
    }
  }


  lemma RhsCong(c: Curve, x: nat, y: nat)
    requires Cong(x, y, c.p)
    ensures Cong(c.Rhs(x), c.Rhs(y), c.p)
  {
    CongRefl(c.A, c.p);
    CongRefl(c.B, c.p);
    CongMul(x, y, x, y, c.p);
    CongAdd(x * x, y * y, c.A, c.A, c.p);
    CongMul(x * x + c.A, y * y + c.A, x, y, c.p);
    CongAdd((x * x + c.A) * x, (y * y + c.A) * y, c.B, c.B, c.p);
  }

  lemma UniqueQuotient(x: int, y: int, d: int, n: int, p: nat)
    requires Prime(p) && !Cong(d, 0, p) && Cong(x * d, n, p) && Cong(y * d, n, p)
    ensures Cong(x, y, p)
  {
    CongSym(y * d, n, p);
    CongTrans(x * d, n, y * d, p);
    CancelMod(d, x, y, p);
  }

  lemma UnitFactors(a: nat, b: nat, p: nat)
    requires Prime(p) && 0 < a < p && 0 < b < p
    ensures !Cong(a * b, 0, p)
  {
    if Cong(a, 0, p) {
      CongResidue(a, 0, p);
    }
    if Cong(b, 0, p) {
      CongResidue(b, 0, p);
    }
    NoZeroDivisor(a, b, p);
  }

  // the exceptional inputs always land on a point
  lemma ExceptionalIsSquare(c: Curve, x: nat)
    requires c.Valid() && Cong(x * (c.Z() * c.A), c.B, c.p)
    ensures IsSquare(c.Rhs(x), c.p)
  {
    var e: nat :| c.IsExceptional(e);
    UnitFactors(c.Z(), c.A, c.p);
    UniqueQuotient(x, e, c.Z() * c.A, c.B, c.p);
    RhsCong(c, x, e);
    SquareCong(c.Rhs(x), c.Rhs(e), c.p);
  }

  lemma SecondRhs(c: Curve, t: nat, x: nat, g: nat, h: nat)
    requires Cong(c.A * x * (t * t + t) + c.B * (t * t + t + 1), 0, c.p)
    requires g == c.Rhs(x) && h == c.Rhs(t * x)
    ensures Cong(h, t * t * t * g, c.p)
  {
    CurveIdentity(c, t, x);
    var m := c.A * x * (t * t + t) + c.B * (t * t + t + 1);
    CongRefl(t - 1, c.p);
    CongMul(t - 1, t - 1, m, 0, c.p);
    TakeAway(t * t * t * g, (t - 1) * m, c.p);
  }

  lemma TakeAway(a: int, m: int, p: nat)
    requires Cong(m, 0, p)
    ensures Cong(a - m, a, p)
  {
    CongRefl(a, p);
    CongSub(a, a, m, 0, p);
  }

  lemma NonZeroT(t: nat, p: nat)
    requires !Cong(t * t + t, 0, p)
    ensures !Cong(t, 0, p)
  {
    if Cong(t, 0, p) {
      CongMul(t, 0, t, 0, p);
      CongAdd(t * t, 0, t, 0, p);
    }
  }

  lemma TwistedCube(z: nat, u: nat, t: nat, g: nat, h: nat, p: nat)
    requires Prime(p) && p % 4 == 3 && !IsSquare(z, p) && !IsSquare(g, p)
    requires Cong(t, z * Square(u), p) && !Cong(t, 0, p) && Cong(h, t * t * t * g, p)
    ensures IsSquare(h, p)
  {
    TwistedSquare(z, u, t, p);
    CubeOfNonSquares(t, g, h, p);
  }

  // when g(x1) is no square, g(t x1) is one: g(t x1) = t^3 g(x1), and t is no square either
  lemma SecondIsSquare(c: Curve, u: nat, t: nat, x: nat, x2: nat)
    requires c.Valid() && Cong(t, c.Z() * Square(u), c.p) && IsFirstX(c, t, x)
    requires x2 == t * x && !IsSquare(c.Rhs(x), c.p)
    ensures IsSquare(c.Rhs(x2), c.p)
  {
    if Cong(t * t + t, 0, c.p) {
      ExceptionalIsSquare(c, x);
    } else {
      var g, h := c.Rhs(x), c.Rhs(x2);
      assert IsSquare(h, c.p) by {
        SecondRhs(c, t, x, g, h);
        NonZeroT(t, c.p);
        TwistedCube(c.Z(), u, t, g, h, c.p);
      }
    }
  }

  // the reduced candidate root squares to g exactly when g is a square
  lemma RootTest(c: Curve, g: nat)
    requires c.Valid() && g < c.p
    ensures MulMod(Root(c, g), Root(c, g), c.p) == g <==> IsSquare(g, c.p)
    ensures MulMod(Root(c, g), Root(c, g), c.p) == g <==> Cong(Square(Root(c, g)), g, c.p)
  {
    var p, y := c.p, Root(c, g);
    SquareTest(g, p);
    CongRefl(g, p);
    ExpModCong(g, g, (p + 1) / 4, p);
    RemCong(y * y, p);
    CongMul(y, RootPower(g, p), y, RootPower(g, p), p);
    CongSym(Square(y), Square(RootPower(g, p)), p);
    CongSym(MulMod(y, y, p), Square(y), p);
    if Cong(Square(RootPower(g, p)), g, p) {
      CongTrans(Square(y), Square(RootPower(g, p)), g, p);
    }
    if Cong(Square(y), g, p) {
      CongTrans(Square(RootPower(g, p)), Square(y), g, p);
      CongTrans(MulMod(y, y, p), Square(y), g, p);
      CongResidue(MulMod(y, y, p), g, p);
    }
  }

  // ---- what the map computes

  // the value section 6.6.2 of RFC 9380 assigns to u: x1 if g(x1) is a square, else t x1,
  // with the square root that has the parity of u
  ghost predicate IsMapOf(c: Curve, u: nat, x: nat, y: nat)
    requires 12 < c.p
  {
    exists x1: nat :: IsMapVia(c, u, x1, x, y)
  }

  ghost predicate IsMapVia(c: Curve, u: nat, x1: nat, x: nat, y: nat)
    requires 12 < c.p
  {
    x1 < c.p && IsFirstX(c, Tv3(c, u), x1) && IsSelected(c, u, x1, x, y)
  }

  ghost predicate IsSelected(c: Curve, u: nat, x1: nat, x: nat, y: nat)
    requires 12 < c.p
  {
    && x < c.p
    && Cong(x, ChosenX(c, u, x1), c.p)
    && c.OnCurve(x, y)
    && y % 2 == u % 2
  }

  ghost function ChosenX(c: Curve, u: nat, x1: nat): nat
    requires 12 < c.p
  {
    if IsSquare(c.Rhs(x1), c.p) then x1 else Tv3(c, u) * x1
  }

  lemma RootOnCurve(c: Curve, x: nat, g: nat)
    requires c.Valid() && g < c.p && Cong(g, c.Rhs(x), c.p)
    ensures Root(c, g) < c.p
    ensures MulMod(Root(c, g), Root(c, g), c.p) == g <==> IsSquare(c.Rhs(x), c.p)
    ensures IsSquare(c.Rhs(x), c.p) ==> c.OnCurve(x, Root(c, g))
  {
    RootTest(c, g);
    SquareCong(g, c.Rhs(x), c.p);
    if IsSquare(g, c.p) {
      CongTrans(Square(Root(c, g)), g, c.Rhs(x), c.p);
    }
  }

  lemma SignedRoot(c: Curve, u: nat, x: nat, y: nat)
    requires c.p % 2 == 1 && y < c.p && c.OnCurve(x, y)
    ensures c.OnCurve(x, Signed(c, u, y)) && Signed(c, u, y) % 2 == u % 2 && Signed(c, u, y) <= c.p
  {
    var d := c.p - 2 * y;
    assert Square(c.p - y) - Square(y) == d * c.p;
    CongBy(Square(c.p - y), Square(y), c.p, d);
    CongTrans(Square(c.p - y), Square(y), c.Rhs(x), c.p);
  }

  // the selected abscissa has a square on its right-hand side, and the selected ordinate is its root
  lemma SelectedOnCurve(c: Curve, u: nat, x1: nat)
    requires c.Valid() && x1 < c.p && IsFirstX(c, Tv3(c, u), x1)
    ensures RootFound(c, x1) <==> IsSquare(c.Rhs(x1), c.p)
    ensures var x := SelectX(c, u, x1); c.OnCurve(x, Root(c, RhsMod(c, x)))
  {
    var t := Tv3(c, u);
    var x2 := MulMod(t, x1, c.p);
    RhsModCong(c, x1);
    RhsModCong(c, x2);
    RootOnCurve(c, x1, RhsMod(c, x1));
    RootOnCurve(c, x2, RhsMod(c, x2));
    if !IsSquare(c.Rhs(x1), c.p) {
      Tv3Cong(c, u);
      SecondIsSquare(c, u, t, x1, t * x1);
      RemCong(t * x1, c.p);
      RhsCong(c, x2, t * x1);
      SquareCong(c.Rhs(x2), c.Rhs(t * x1), c.p);
    }
  }

  lemma SelectXCong(c: Curve, u: nat, x1: nat)
    requires c.p > 12 && x1 < c.p && (RootFound(c, x1) <==> IsSquare(c.Rhs(x1), c.p))
    ensures SelectX(c, u, x1) < c.p
    ensures Cong(SelectX(c, u, x1), ChosenX(c, u, x1), c.p)
  {
    if RootFound(c, x1) {
      CongRefl(x1, c.p);
    } else {
      RemCong(Tv3(c, u) * x1, c.p);
    }
  }

  lemma AssembleMap(c: Curve, u: nat, x1: nat, x: nat, y0: nat, y: nat)
    requires c.p % 2 == 1 && 12 < c.p && x1 < c.p && y0 < c.p
    requires IsFirstX(c, Tv3(c, u), x1) && (RootFound(c, x1) <==> IsSquare(c.Rhs(x1), c.p))
    requires x == SelectX(c, u, x1) && c.OnCurve(x, y0) && y == Signed(c, u, y0)
    ensures y <= c.p && IsMapOf(c, u, x, y)
  {
    SelectXCong(c, u, x1);
    SignedRoot(c, u, x, y0);
    assert IsMapVia(c, u, x1, x, y);
  }

  // every field element, the exceptional ones included, maps to a curve point of its own parity
  lemma MapIsRfcMap(c: Curve, u: nat)
    requires c.Valid()
    ensures MapToCurve(c, u).Some?
    ensures var (x, y) := MapToCurve(c, u).value; y <= c.p && IsMapOf(c, u, x, y)
  {
    OddPrime(c.p);
    FirstXMeetsRfc(c, u);
    var x1 := FirstX(c, u).value;
    SelectedOnCurve(c, u, x1);
    var x := SelectX(c, u, x1);
    var y0 := Root(c, RhsMod(c, x));
    var y := Signed(c, u, y0);
    assert MapToCurve(c, u) == Some((x, y));
    AssembleMap(c, u, x1, x, y0, y);
  }

  lemma FirstXUnique(c: Curve, t: nat, x: nat, x': nat)
    requires c.Valid() && x < c.p && x' < c.p && IsFirstX(c, t, x) && IsFirstX(c, t, x')
    ensures x == x'
  {
    var p, s := c.p, t * t + t;
    if Cong(s, 0, p) {
      UnitFactors(c.Z(), c.A, p);
      UniqueQuotient(x, x', c.Z() * c.A, c.B, p);
    } else {
      LinearUnique(c.A, s, c.B * (s + 1), x, x', p);
    }
    CongResidue(x, x', p);
  }

  lemma LinearUnique(a: nat, s: nat, b: int, x: nat, x': nat, p: nat)
    requires Prime(p) && 0 < a < p && !Cong(s, 0, p)
    requires Cong(a * x * s + b, 0, p) && Cong(a * x' * s + b, 0, p)
    ensures Cong(x, x', p)
  {
    if Cong(a, 0, p) {
      CongResidue(a, 0, p);
    }
    NoZeroDivisor(a, s, p);
    MoveTerm(a, s, b, x, p);
    MoveTerm(a, s, b, x', p);
    UniqueQuotient(x, x', a * s, -b, p);
  }

  lemma MoveTerm(a: nat, s: nat, b: int, x: nat, p: nat)
    requires Cong(a * x * s + b, 0, p)
    ensures Cong(x * (a * s), -b, p)
  {
    CongRefl(b, p);
    CongSub(a * x * s + b, 0, b, b, p);
    assert a * x * s == x * (a * s);
  }

  lemma SameResidue(y: nat, y': nat, p: nat)
    requires y < p && y' < p && Cong(y - y', 0, p)
    ensures y == y'
  {
    CongRefl(y', p);
    CongAdd(y - y', 0, y', y', p);
    CongResidue(y, y', p);
  }

  lemma OppositeResidue(y: nat, y': nat, p: nat)
    requires y < p && y' < p && Cong(y + y', 0, p)
    ensures y + y' == 0 || y + y' == p
  {
    if y + y' >= p {
      CongBy(y + y' - p, y + y', p, -1);
      CongTrans(y + y' - p, y + y', 0, p);
      CongResidue(y + y' - p, 0, p);
    } else {
      CongResidue(y + y', 0, p);
    }
  }

  lemma RootsUpToSign(y: nat, y': nat, g: int, p: nat)
    requires Prime(p) && p % 2 == 1 && y < p && y' < p && y % 2 == y' % 2
    requires Cong(Square(y), g, p) && Cong(Square(y'), g, p)
    ensures y == y'
  {
    assert (y + y') % 2 == 0;
    CongSub(Square(y), g, Square(y'), g, p);
    assert Square(y) - Square(y') == (y - y') * (y + y');
    NoZeroDivisor(y - y', y + y', p);
    if Cong(y - y', 0, p) {
      SameResidue(y, y', p);
    } else {
      OppositeResidue(y, y', p);
    }
  }

  lemma SameTarget(x: nat, x': nat, w: nat, p: nat)
    requires x < p && x' < p && Cong(x, w, p) && Cong(x', w, p)
    ensures x == x'
  {
    CongSym(x', w, p);
    CongTrans(x, w, x', p);
    CongResidue(x, x', p);
  }

  lemma OddPrime(p: nat)
    requires p % 4 == 3
    ensures p % 2 == 1
  {
  }

  lemma SelectedUnique(c: Curve, u: nat, x1: nat, x: nat, y: nat, x': nat, y': nat)
    requires 12 < c.p && Prime(c.p) && c.p % 2 == 1 && y < c.p && y' < c.p
    requires IsSelected(c, u, x1, x, y) && IsSelected(c, u, x1, x', y')
    ensures x == x' && y == y'
  {
    assert x == x' by { SameTarget(x, x', ChosenX(c, u, x1), c.p); }
    SameOrdinate(c, x, y, y');
  }

  lemma SameOrdinate(c: Curve, x: nat, y: nat, y': nat)
    requires Prime(c.p) && c.p % 2 == 1 && y < c.p && y' < c.p && y % 2 == y' % 2
    requires c.OnCurve(x, y) && c.OnCurve(x, y')
    ensures y == y'
  {
    RootsUpToSign(y, y', c.Rhs(x), c.p);
  }

  lemma ViaUnique(c: Curve, u: nat, x1: nat, x1': nat, x: nat, y: nat, x': nat, y': nat)
    requires c.Valid() && y < c.p && y' < c.p
    requires IsMapVia(c, u, x1, x, y) && IsMapVia(c, u, x1', x', y')
    ensures x == x' && y == y'
  {
    OddPrime(c.p);
    assert x1 == x1' by { FirstXUnique(c, Tv3(c, u), x1, x1'); }
    SelectedUnique(c, u, x1, x, y, x', y');
  }

  // the relation of RFC 9380 names one point only
  lemma RfcMapUnique(c: Curve, u: nat, x: nat, y: nat, x': nat, y': nat)
    requires c.Valid() && y < c.p && y' < c.p && IsMapOf(c, u, x, y) && IsMapOf(c, u, x', y')
    ensures x == x' && y == y'
  {
    var x1 :| IsMapVia(c, u, x1, x, y);
    var x1' :| IsMapVia(c, u, x1', x', y');
    ViaUnique(c, u, x1, x1', x, y, x', y');
  }

  lemma UnreducedIsZero(c: Curve, x: nat, y: nat)
    requires y == c.p && c.OnCurve(x, y)
    ensures c.OnCurve(x, 0)
  {
    CongBy(Square(0), Square(y), c.p, 0 - y);
    CongTrans(Square(0), Square(y), c.Rhs(x), c.p);
  }

  // on a curve without points of order two the code computes exactly that point
  lemma MapIsTheRfcPoint(c: Curve, u: nat, x: nat, y: nat)
    requires c.Valid() && forall v: nat | v < c.p :: !c.OnCurve(v, 0)
    ensures y < c.p && IsMapOf(c, u, x, y) <==> MapToCurve(c, u) == Some((x, y))
  {
    MapIsRfcMap(c, u);
    var (x', y') := MapToCurve(c, u).value;
    var x1 :| IsMapVia(c, u, x1, x', y');
    if y' == c.p {
      UnreducedIsZero(c, x', y');
    }
    if y < c.p && IsMapOf(c, u, x, y) {
      RfcMapUnique(c, u, x, y, x', y');
    }
  }

  method CurveRhs(x: nat, c: Curve) returns (gx: nat)
    requires 0 < c.p
    ensures gx == RhsMod(c, x)
  {
    gx := MulMod(x, x, c.p);
    gx := AddMod(gx, c.A, c.p);
    gx := MulMod(gx, x, c.p);
    gx := AddMod(gx, c.B, c.p);
  }

  method FirstCandidate(u: nat, c: Curve) returns (tv3: nat, x: Option<nat>)
    requires 12 < c.p && c.A < c.p
    ensures tv3 == Tv3(c, u) && x == FirstX(c, u)
  {
    var p, z := c.p, c.p - 12;
    var tv1 := MulMod(u, u, p);
    tv3 := MulMod(z, tv1, p);
    var tv5 := MulMod(tv3, tv3, p);
    tv5 := AddMod(tv5, tv3, p);
    var tv4 := AddMod(tv5, 1, p);
    tv4 := MulMod(tv4, c.B, p);
    var tv6 := p - c.A;
    if tv5 == 0 {
      tv6 := MulMod(z, c.A, p);
    } else {
      tv6 := MulMod(tv5, tv6, p);
    }
    var inverse := ModInverse(tv6, p);
    if inverse.None? {
      return tv3, None;
    }
    x := Some(MulMod(tv4, inverse.value, p));
  }

  // the comparison of the padded octets of y^2 and g
  method SquaresTo(y: nat, g: nat, c: Curve, fieldLen: nat) returns (same: bool)
    requires 0 < c.p < Pow(256, fieldLen) && g < c.p
    ensures same <==> MulMod(y, y, c.p) == g
  {
    var ySquared := MulMod(y, y, c.p);
    same := BigEndian(ySquared, fieldLen) == BigEndian(g, fieldLen);
    if same {
      BigEndianInjective(ySquared, g, fieldLen);
    }
  }

  method MapToCurveSswu(u: nat, c: Curve) returns (point: Option<(nat, nat)>)
    requires 12 < c.p && c.A < c.p
    ensures point == MapToCurve(c, u)
  {
    var tv3, x1 := FirstCandidate(u, c);
    if x1.None? {
      return None;
    }
    var x := x1.value;
    var gx := CurveRhs(x, c);
    var y := Root(c, gx);
    var fieldLen := NumBytes(c.p);
    NumBytesBounds(c.p);
    FirstXReduced(c, u);
    var isSquare := SquaresTo(y, gx, c, fieldLen);
    assert isSquare <==> RootFound(c, x1.value);

    // both candidates are computed, and the octets of one are kept
    var x2 := MulMod(tv3, x, c.p);
    var gx2 := CurveRhs(x2, c);
    var y2 := Root(c, gx2);
    var mask := if isSquare then 0 else 0xFF;
    x := SelectNumber(x, x2, mask, fieldLen);
    y := SelectNumber(y, y2, mask, fieldLen);
    assert x == SelectX(c, u, x1.value) && y == Root(c, RhsMod(c, x));

    var negY := c.p - y;
    var signMask := if u % 2 != y % 2 then 0xFF else 0;
    y := SelectNumber(y, negY, signMask, fieldLen);
    point := Some((x, y));
  }
}
