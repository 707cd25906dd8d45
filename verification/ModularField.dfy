// Arithmetic on the least residues modulo n, as the big-number calls of the source perform it.
module ModularField {
  import opened Types
  import opened Congruence
  import opened Division
  import opened NumberTheory

  lemma {:induction false} RemCong(a: nat, n: nat)
    requires n > 0
    ensures Cong(Rem(a, n), a, n)
  {
    if a < n {
      CongRefl(a, n);
    } else {
      RemCong(a - n, n);
      CongBy(a - n, a, n, -1);
      CongTrans(Rem(a, n), a - n, a, n);
    }
  }

  function AddMod(a: nat, b: nat, n: nat): (r: nat)
    requires n > 0
    ensures r < n
  {
    Rem(a + b, n)
  }

  function MulMod(a: nat, b: nat, n: nat): (r: nat)
    requires n > 0
    ensures r < n
  {
    Rem(a * b, n)
  }

  function ExpMod(b: nat, e: nat, n: nat): (r: nat)
    requires n > 0
    ensures r < n
  {
    PowNonNegative(b, e);
    Rem(Pow(b, e), n)
  }

  lemma MulModCong(a: nat, a': int, b: nat, b': int, n: nat)
    requires n > 0 && Cong(a, a', n) && Cong(b, b', n)
    ensures Cong(MulMod(a, b, n), a' * b', n)
  {
    RemCong(a * b, n);
    CongMul(a, a', b, b', n);
    CongTrans(MulMod(a, b, n), a * b, a' * b', n);
  }

  lemma AddModCong(a: nat, a': int, b: nat, b': int, n: nat)
    requires n > 0 && Cong(a, a', n) && Cong(b, b', n)
    ensures Cong(AddMod(a, b, n), a' + b', n)
  {
    RemCong(a + b, n);
    CongAdd(a, a', b, b', n);
    CongTrans(AddMod(a, b, n), a + b, a' + b', n);
  }

  lemma ExpModCong(b: nat, b': int, e: nat, n: nat)
    requires n > 0 && Cong(b, b', n)
    ensures Cong(ExpMod(b, e, n), Pow(b', e), n)
  {
    PowNonNegative(b, e);
    RemCong(Pow(b, e), n);
    PowCong(b, b', e, n);
    CongTrans(ExpMod(b, e, n), Pow(b, e), Pow(b', e), n);
  }

  // the inverse modulo n, if there is one
  function ModInverse(a: nat, n: nat): Option<nat>
    requires n > 0
  {
    InverseBelow(a, n, n)
  }

  function InverseBelow(a: nat, k: nat, n: nat): Option<nat>
    requires n > 0
  {
    if k == 0 then None
    else if MulMod(a, k - 1, n) == Rem(1, n) then Some(k - 1)
    else InverseBelow(a, k - 1, n)
  }

  lemma MulModIsOne(a: nat, b: nat, n: nat)
    requires n > 0
    ensures MulMod(a, b, n) == Rem(1, n) <==> Cong(a * b, 1, n)
  {
    RemCong(a * b, n);
    RemCong(1, n);
    CongSym(MulMod(a, b, n), a * b, n);
    if MulMod(a, b, n) == Rem(1, n) {
      CongTrans(a * b, Rem(1, n), 1, n);
    }
    if Cong(a * b, 1, n) {
      CongTrans(MulMod(a, b, n), a * b, 1, n);
      CongSym(Rem(1, n), 1, n);
      CongTrans(MulMod(a, b, n), 1, Rem(1, n), n);
      CongResidue(MulMod(a, b, n), Rem(1, n), n);
    }
  }

  lemma {:induction false} InverseBelowSpec(a: nat, k: nat, n: nat)
    requires n > 0
    ensures var r := InverseBelow(a, k, n); r.Some? ==> r.value < k && Cong(a * r.value, 1, n)
    ensures InverseBelow(a, k, n).None? ==> forall b: nat | b < k :: !Cong(a * b, 1, n)
  {
    if k > 0 {
      MulModIsOne(a, k - 1, n);
      InverseBelowSpec(a, k - 1, n);
    }
  }

  lemma ModInverseSpec(a: nat, n: nat)
    requires n > 0
    ensures var r := ModInverse(a, n); r.Some? ==> r.value < n && Cong(a * r.value, 1, n)
    ensures ModInverse(a, n).None? ==> forall b: nat | b < n :: !Cong(a * b, 1, n)
  {
    InverseBelowSpec(a, n, n);
  }
}
