// Quotient and remainder by repeated subtraction. They equal / and %, but the prover unfolds them one step
// at a time and so keeps division out of proofs that are about something else.
module Division {
  function Quot(a: nat, n: nat): nat
    requires n > 0
  {
    if a < n then 0 else 1 + Quot(a - n, n)
  }

  function Rem(a: nat, n: nat): (r: nat)
    requires n > 0
    ensures r < n
  {
    if a < n then a else Rem(a - n, n)
  }

  lemma {:induction false} Divided(a: nat, n: nat)
    requires n > 0
    ensures a == Quot(a, n) * n + Rem(a, n)
  {
    if a >= n {
      Divided(a - n, n);
    }
  }

  lemma {:induction false} DividedOnly(q: nat, r: nat, n: nat)
    requires r < n
    ensures Quot(q * n + r, n) == q && Rem(q * n + r, n) == r
  {
    if q > 0 {
      assert q * n + r - n == (q - 1) * n + r;
      DividedOnly(q - 1, r, n);
    }
  }

  lemma DividedIs(a: nat, n: nat)
    requires n > 0
    ensures Quot(a, n) == a / n && Rem(a, n) == a % n
  {
    assert a == a / n * n + a % n;
    DividedOnly(a / n, a % n, n);
  }
}
