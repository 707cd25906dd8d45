// A prime-order group: the meaning of the curve-point calls.
module PrimeOrderGroup {
  import opened Types
  import opened Congruence
  import opened NumberTheory

  // decode is the inverse of encode away from the identity; elementSize is 49 and scalarSize 48 for P-384
  datatype Group<!P(!new)> = Group(
    order: nat, zero: P, base: P, add: (P, P) -> P,
    encode: P -> Bytes, decode: Bytes -> Option<P>, elementSize: nat, scalarSize: nat)
  {
    ghost predicate Associative(a: P, b: P, c: P) { add(add(a, b), c) == add(a, add(b, c)) }
    ghost predicate Commutative(a: P, b: P) { add(a, b) == add(b, a) }
    ghost predicate Neutral(a: P) { add(zero, a) == a }
    ghost predicate Annihilated(a: P) { Mul(order, a) == zero }
    ghost predicate Encodable(a: P) {
      |encode(a)| < 0x1_0000 && (a != zero ==> |encode(a)| == elementSize && decode(encode(a)) == Some(a))
    }
    ghost predicate Decodable(s: Bytes) {
      decode(s).Some? ==> |s| == elementSize && decode(s).value != zero && encode(decode(s).value) == s
    }

    // the group laws, and compressed encodings that exclude the identity
    ghost predicate Valid() {
      && Prime(order) && base != zero && order <= Pow(256, scalarSize)
      && |encode(zero)| != elementSize && elementSize < 0x1_0000 && scalarSize < 0x1_0000
      && (forall a, b, c :: Associative(a, b, c))
      && (forall a, b :: Commutative(a, b))
      && (forall a :: Neutral(a))
      && (forall a :: Annihilated(a))
      && (forall a :: Encodable(a))
      && (forall s :: Decodable(s))
    }

    // a multiple of the base point
    ghost predicate Generated(a: P) { exists k: nat :: k < order && a == Mul(k, base) }

    // every point is one
    ghost predicate Cyclic() { forall a :: Generated(a) }

    // k times a
    function Mul(k: nat, a: P): P { if k == 0 then zero else add(a, Mul(k - 1, a)) }
  }

  lemma AddZero<P(!new)>(g: Group<P>, a: P)
    requires g.Valid()
    ensures g.add(g.zero, a) == a && g.add(a, g.zero) == a
  {
    assert g.Neutral(a) && g.Commutative(a, g.zero);
  }

  lemma {:induction false} MulAdd<P(!new)>(g: Group<P>, j: nat, k: nat, a: P)
    requires g.Valid()
    ensures g.Mul(j + k, a) == g.add(g.Mul(j, a), g.Mul(k, a))
  {
    if j == 0 {
      AddZero(g, g.Mul(k, a));
    } else {
      MulAdd(g, j - 1, k, a);
      assert g.Associative(a, g.Mul(j - 1, a), g.Mul(k, a));
    }
  }

  lemma {:induction false} MulZero<P(!new)>(g: Group<P>, k: nat)
    requires g.Valid()
    ensures g.Mul(k, g.zero) == g.zero
  {
    if k > 0 {
      MulZero(g, k - 1);
      AddZero(g, g.zero);
    }
  }

  lemma {:induction false} MulMul<P(!new)>(g: Group<P>, j: nat, k: nat, a: P)
    requires g.Valid()
    ensures g.Mul(j * k, a) == g.Mul(j, g.Mul(k, a))
  {
    if j > 0 {
      MulMul(g, j - 1, k, a);
      assert j * k == k + (j - 1) * k;
      MulAdd(g, k, (j - 1) * k, a);
    }
  }

  // (a + b) + (c + d) = (a + c) + (b + d)
  lemma Interchange<P(!new)>(g: Group<P>, a: P, b: P, c: P, d: P)
    requires g.Valid()
    ensures g.add(g.add(a, b), g.add(c, d)) == g.add(g.add(a, c), g.add(b, d))
  {
    assert g.Associative(a, b, g.add(c, d));
    assert g.Associative(b, c, d);
    assert g.Commutative(b, c);
    assert g.Associative(c, b, d);
    assert g.Associative(a, c, g.add(b, d));
  }

  lemma {:induction false} MulPoint<P(!new)>(g: Group<P>, k: nat, a: P, b: P)
    requires g.Valid()
    ensures g.Mul(k, g.add(a, b)) == g.add(g.Mul(k, a), g.Mul(k, b))
  {
    if k == 0 {
      AddZero(g, g.zero);
    } else {
      MulPoint(g, k - 1, a, b);
      Interchange(g, a, b, g.Mul(k - 1, a), g.Mul(k - 1, b));
    }
  }

  lemma MulCommutes<P(!new)>(g: Group<P>, j: nat, k: nat, a: P)
    requires g.Valid()
    ensures g.Mul(j, g.Mul(k, a)) == g.Mul(k, g.Mul(j, a))
  {
    MulMul(g, j, k, a);
    MulMul(g, k, j, a);
    assert j * k == k * j;
  }

  lemma MulOrder<P(!new)>(g: Group<P>, m: nat, a: P)
    requires g.Valid()
    ensures g.Mul(m * g.order, a) == g.zero
  {
    MulMul(g, m, g.order, a);
    assert g.Annihilated(a);
    MulZero(g, m);
  }

  // scalars count modulo the order
  lemma MulCong<P(!new)>(g: Group<P>, j: nat, k: nat, a: P)
    requires g.Valid() && Cong(j, k, g.order)
    ensures g.Mul(j, a) == g.Mul(k, a)
  {
    if j >= k {
      MulCongUp(g, j, k, a);
    } else {
      CongSym(j, k, g.order);
      MulCongUp(g, k, j, a);
    }
  }

  lemma MulCongUp<P(!new)>(g: Group<P>, j: nat, k: nat, a: P)
    requires g.Valid() && Cong(j, k, g.order) && j >= k
    ensures g.Mul(j, a) == g.Mul(k, a)
  {
    var m :| j - k == Multiple(m, g.order);
    Quotient(m, g.order, j - k);
    MulAdd(g, k, m * g.order, a);
    MulOrder(g, m, a);
    AddZero(g, g.Mul(k, a));
  }

  lemma Quotient(m: int, n: nat, v: nat)
    requires n > 0 && v == m * n
    ensures m >= 0
  {
  }

  // a scalar undoes its inverse
  lemma MulInverse<P(!new)>(g: Group<P>, k: nat, i: nat, a: P)
    requires g.Valid() && Cong(k * i, 1, g.order)
    ensures g.Mul(i, g.Mul(k, a)) == a
  {
    MulMul(g, i, k, a);
    assert i * k == k * i;
    MulCong(g, i * k, 1, a);
    AddZero(g, a);
    assert g.Mul(1, a) == g.add(a, g.Mul(0, a));
  }

  // every point but the identity has full order
  lemma MulNonZero<P(!new)>(g: Group<P>, k: nat, a: P)
    requires g.Valid() && a != g.zero && !Cong(k, 0, g.order)
    ensures g.Mul(k, a) != g.zero
  {
    var i := UnitInverse(k, g.order);
    MulInverse(g, k, i, a);
    MulZero(g, i);
  }

  lemma ShiftedNotZero(j: nat, k: nat, q: nat)
    requires j < q && k < q && j != k
    ensures !Cong(q - j + k, 0, q)
  {
    if Cong(q - j + k, 0, q) {
      CongRefl(j, q);
      CongAdd(q - j + k, 0, j, j, q);
      CongBy(k, q + k, q, -1);
      CongTrans(k, q + k, j, q);
      CongResidue(k, j, q);
    }
  }

  // scalars below the order are told apart by any point but the identity
  lemma ScalarUnique<P(!new)>(g: Group<P>, j: nat, k: nat, a: P)
    requires g.Valid() && j < g.order && k < g.order && a != g.zero && g.Mul(j, a) == g.Mul(k, a)
    ensures j == k
  {
    var n, q := g.order - j, g.order;
    MulAdd(g, n, j, a);
    MulAdd(g, n, k, a);
    assert g.Annihilated(a);
    if j != k {
      ShiftedNotZero(j, k, q);
      MulNonZero(g, n + k, a);
    }
  }

  lemma CancelMul<P(!new)>(g: Group<P>, k: nat, a: P, b: P)
    requires g.Valid() && !Cong(k, 0, g.order) && g.Mul(k, a) == g.Mul(k, b)
    ensures a == b
  {
    var i := UnitInverse(k, g.order);
    MulInverse(g, k, i, a);
    MulInverse(g, k, i, b);
  }

  // s P + c Q = s' P + c' Q gives (s - s') P = (c' - c) Q
  lemma Separate<P(!new)>(g: Group<P>, s: nat, c: nat, s': nat, c': nat, a: P, b: P)
    requires g.Valid() && s <= g.order && c <= g.order && s' <= g.order && c' <= g.order
    requires g.add(g.Mul(s, a), g.Mul(c, b)) == g.add(g.Mul(s', a), g.Mul(c', b))
    ensures g.Mul(s + (g.order - s'), a) == g.Mul(c' + (g.order - c), b)
  {
    var ns, nc := g.order - s', g.order - c;
    var shift := g.add(g.Mul(ns, a), g.Mul(nc, b));
    Interchange(g, g.Mul(s, a), g.Mul(c, b), g.Mul(ns, a), g.Mul(nc, b));
    Interchange(g, g.Mul(s', a), g.Mul(c', b), g.Mul(ns, a), g.Mul(nc, b));
    MulAdd(g, s, ns, a);
    MulAdd(g, c, nc, b);
    MulAdd(g, s', ns, a);
    MulAdd(g, c', nc, b);
    assert g.Annihilated(a) && g.Annihilated(b);
    AddZero(g, g.Mul(s + ns, a));
    AddZero(g, g.Mul(c' + nc, b));
  }
}
