// The number theory of RSA and of Montgomery multiplication.
module RsaArithmetic {
  import opened Types
  import opened Congruence
  import opened NumberTheory
  import opened ModularField

  // e d = 1 modulo p - 1 undoes an exponentiation modulo the prime p
  lemma ExponentUndone(x: nat, e: nat, d: nat, p: nat)
    requires Prime(p) && e * d >= 1 && Cong(e * d, 1, p - 1)
    ensures Cong(Pow(x, e * d), x, p)
  {
    var ed: nat := e * d;
    if Cong(x, 0, p) {
      PowZero(x, ed, p);
      CongSym(x, 0, p);
      CongTrans(Pow(x, ed), 0, x, p);
    } else {
      var k :| ed - 1 == Multiple(k, p - 1);
      FactorSign(k, p - 1, ed - 1);
      Fermat(x, p);
      PowMul(x, p - 1, k);
      PowCong(Pow(x, p - 1), 1, k, p);
      PowOne(k);
      assert Pow(x, ed) == x * Pow(x, ed - 1);
      assert ed - 1 == (p - 1) * k;
      CongRefl(x, p);
      CongMul(x, x, Pow(x, (p - 1) * k), 1, p);
    }
  }

  lemma FactorSign(k: int, m: nat, v: nat)
    requires m > 0 && v == k * m
    ensures k >= 0
  {
  }

  lemma PowZero(x: nat, e: nat, p: nat)
    requires e >= 1 && Cong(x, 0, p)
    ensures Cong(Pow(x, e), 0, p)
  {
    CongRefl(Pow(x, e - 1), p);
    CongMul(x, 0, Pow(x, e - 1), Pow(x, e - 1), p);
  }

  // the Chinese remainder theorem for two primes
  lemma BothPrimes(a: int, b: int, p: nat, q: nat)
    requires Prime(p) && Prime(q) && p != q && Cong(a, b, p) && Cong(a, b, q)
    ensures Cong(a, b, p * q)
  {
    var k :| a - b == Multiple(k, p);
    CongRefl(b, q);
    CongSub(a, b, b, b, q);
    NoZeroDivisor(k, p, q);
    DistinctPrimes(p, q);
    var l :| k - 0 == Multiple(l, q);
    assert a - b == l * (p * q) by { Regroup(l, q, p); }
    CongBy(a, b, p * q, l);
  }

  lemma Regroup(l: int, q: int, p: int)
    ensures l * q * p == l * (p * q)
  {
  }

  lemma DistinctPrimes(p: nat, q: nat)
    requires Prime(p) && Prime(q) && p != q
    ensures !Cong(p, 0, q)
  {
    if Cong(p, 0, q) {
      if p < q {
        CongResidue(p, 0, q);
      } else {
        CongModEq(p, 0, q);
        assert Divides(q, p);
      }
    }
  }

  // x^(e d) = x modulo n = p q
  lemma RsaIdentity(x: nat, e: nat, d: nat, p: nat, q: nat)
    requires Prime(p) && Prime(q) && p != q && e * d >= 1
    requires Cong(e * d, 1, p - 1) && Cong(e * d, 1, q - 1)
    ensures Cong(Pow(x, e * d), x, p * q)
  {
    ExponentUndone(x, e, d, p);
    ExponentUndone(x, e, d, q);
    BothPrimes(Pow(x, e * d), x, p, q);
  }

  // ---- Montgomery form

  // the context of modulus n: r is a power of two, rInverse its inverse
  datatype MontCtx = MontCtx(n: nat, r: nat, rInverse: nat) {
    ghost predicate Valid() { 0 < n && Cong(r * rInverse, 1, n) }
  }

  function MontCtxSet(n: nat, bits: nat): (ctx: Option<MontCtx>)
    requires n > 0
    ensures ctx.Some? ==> ctx.value.n == n
  {
    var r := ExpMod(2, bits, n);
    match ModInverse(r, n)
    case None => None
    case Some(inverse) => Some(MontCtx(n, r, inverse))
  }

  function ToMontgomery(x: nat, ctx: MontCtx): (y: nat)
    requires ctx.n > 0
    ensures y < ctx.n
  {
    MulMod(x, ctx.r, ctx.n)
  }

  function MulMontgomery(a: nat, b: nat, ctx: MontCtx): (y: nat)
    requires ctx.n > 0
    ensures y < ctx.n
  {
    MulMod(MulMod(a, b, ctx.n), ctx.rInverse, ctx.n)
  }

  // an odd modulus always has a context
  lemma MontCtxExists(n: nat, bits: nat)
    requires n % 2 == 1
    ensures MontCtxSet(n, bits).Some? && MontCtxSet(n, bits).value.n == n && MontCtxSet(n, bits).value.Valid()
  {
    var r := ExpMod(2, bits, n);
    var half := (n + 1) / 2;
    var inverse := ExpMod(half, bits, n);
    CongRefl(2, n);
    CongRefl(half, n);
    ExpModCong(2, 2, bits, n);
    ExpModCong(half, half, bits, n);
    CongMul(r, Pow(2, bits), inverse, Pow(half, bits), n);
    PowersOfHalf(half, bits, n);
    CongTrans(r * inverse, Pow(2, bits) * Pow(half, bits), 1, n);
    ModInverseSpec(r, n);
  }

  lemma PowersOfHalf(half: nat, bits: nat, n: nat)
    requires 2 * half == n + 1
    ensures Cong(Pow(2, bits) * Pow(half, bits), 1, n)
  {
    PowBase(2, half, bits);
    CongBy(2 * half, 1, n, 1);
    PowCong(2 * half, 1, bits, n);
    PowOne(bits);
  }

  // an ordinary number times a number in Montgomery form is the ordinary product
  lemma MixedProduct(a: nat, b: nat, ctx: MontCtx)
    requires ctx.Valid()
    ensures Cong(MulMontgomery(a, ToMontgomery(b, ctx), ctx), a * b, ctx.n)
  {
    MixedProductModulo(a, b, ctx.r, ctx.rInverse, ctx.n);
  }

  lemma MixedProductModulo(a: nat, b: nat, r: nat, ri: nat, n: nat)
    requires n > 0 && Cong(r * ri, 1, n)
    ensures Cong(MulMod(MulMod(a, MulMod(b, r, n), n), ri, n), a * b, n)
  {
    var bm := MulMod(b, r, n);
    CongRefl(a, n);
    CongRefl(b, n);
    CongRefl(r, n);
    CongRefl(ri, n);
    MulModCong(b, b, r, r, n);
    MulModCong(a, a, bm, b * r, n);
    MulModCong(MulMod(a, bm, n), a * (b * r), ri, ri, n);
    RadixCancels(a, b, r, ri, n);
    CongTrans(MulMod(MulMod(a, bm, n), ri, n), a * (b * r) * ri, a * b, n);
  }

  lemma RadixCancels(a: nat, b: nat, r: nat, ri: nat, n: nat)
    requires Cong(r * ri, 1, n)
    ensures Cong(a * (b * r) * ri, a * b, n)
  {
    CongRefl(a * b, n);
    CongMul(a * b, a * b, r * ri, 1, n);
    assert a * (b * r) * ri == a * b * (r * ri);
  }
}
