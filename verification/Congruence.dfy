// Congruence modulo n and its algebra.
module Congruence {
  function Multiple(k: int, n: nat): int { k * n }

  ghost predicate Cong(a: int, b: int, n: nat) { exists k: int :: a - b == Multiple(k, n) }

  lemma CongBy(a: int, b: int, n: nat, k: int)
    requires a - b == k * n
    ensures Cong(a, b, n)
  {
    assert a - b == Multiple(k, n);
  }

  lemma CongMod(a: int, n: nat)
    requires n > 0
    ensures Cong(a % n, a, n) && Cong(a, a % n, n)
  {
    CongBy(a, a % n, n, a / n);
    CongBy(a % n, a, n, -(a / n));
  }

  lemma CongSym(a: int, b: int, n: nat)
    requires Cong(a, b, n)
    ensures Cong(b, a, n)
  {
    var k :| a - b == Multiple(k, n);
    CongBy(b, a, n, -k);
  }

  lemma CongTrans(a: int, b: int, c: int, n: nat)
    requires Cong(a, b, n) && Cong(b, c, n)
    ensures Cong(a, c, n)
  {
    var k :| a - b == Multiple(k, n);
    var l :| b - c == Multiple(l, n);
    CongBy(a, c, n, k + l);
  }

  lemma CongAdd(a: int, b: int, c: int, d: int, n: nat)
    requires Cong(a, b, n) && Cong(c, d, n)
    ensures Cong(a + c, b + d, n)
  {
    var k :| a - b == Multiple(k, n);
    var l :| c - d == Multiple(l, n);
    CongBy(a + c, b + d, n, k + l);
  }

  lemma CongSub(a: int, b: int, c: int, d: int, n: nat)
    requires Cong(a, b, n) && Cong(c, d, n)
    ensures Cong(a - c, b - d, n)
  {
    var k :| a - b == Multiple(k, n);
    var l :| c - d == Multiple(l, n);
    CongBy(a - c, b - d, n, k - l);
  }

  lemma CongMul(a: int, b: int, c: int, d: int, n: nat)
    requires Cong(a, b, n) && Cong(c, d, n)
    ensures Cong(a * c, b * d, n)
  {
    var k :| a - b == Multiple(k, n);
    var l :| c - d == Multiple(l, n);
    calc {
      a * c - b * d;
      (a - b) * c + b * (c - d);
      (k * n) * c + b * (l * n);
      (k * c) * n + (b * l) * n;
      (k * c + b * l) * n;
    }
    CongBy(a * c, b * d, n, k * c + b * l);
  }

  // two residues in range that are congruent are equal
  lemma CongResidue(a: int, b: int, n: nat)
    requires Cong(a, b, n) && 0 <= a < n && 0 <= b < n
    ensures a == b
  {
    var k :| a - b == Multiple(k, n);
    if k > 0 {} else if k < 0 {}
  }

  lemma CongModEq(a: int, b: int, n: nat)
    requires n > 0
    ensures Cong(a, b, n) <==> a % n == b % n
  {
    CongMod(a, n);
    CongMod(b, n);
    if Cong(a, b, n) {
      CongTrans(a % n, a, b, n);
      CongTrans(a % n, b, b % n, n);
      CongResidue(a % n, b % n, n);
    } else if a % n == b % n {
      CongTrans(a, a % n, b, n);
    }
  }
}
