// Octet strings as numbers, and the masked selection between two octet strings.
module Octets {
  import opened Types
  import opened NumberTheory

  // the bitwise operators of the source, bit by bit
  function Xor(a: nat, b: nat): nat
    decreases a + b
  {
    if a == 0 && b == 0 then 0 else Xor(a / 2, b / 2) * 2 + (a + b) % 2
  }

  function And(a: nat, b: nat): nat {
    if a == 0 || b == 0 then 0 else And(a / 2, b / 2) * 2 + (a % 2) * (b % 2)
  }

  lemma {:induction false} XorBounded(a: nat, b: nat, k: nat)
    requires a < Pow(2, k) && b < Pow(2, k)
    ensures Xor(a, b) < Pow(2, k)
  {
    if k > 0 {
      XorBounded(a / 2, b / 2, k - 1);
    }
  }

  lemma XorDigits(a: nat, b: nat)
    ensures Xor(a, b) / 2 == Xor(a / 2, b / 2) && Xor(a, b) % 2 == (a + b) % 2
  {
  }

  lemma {:induction false} XorZero(a: nat)
    ensures Xor(a, 0) == a
  {
    if a > 0 {
      XorZero(a / 2);
    }
  }

  lemma {:induction false} XorCancels(a: nat, b: nat)
    ensures Xor(a, Xor(a, b)) == b
    decreases a + b
  {
    if a + b > 0 {
      XorCancels(a / 2, b / 2);
      XorDigits(a, b);
      XorDigits(a, Xor(a, b));
      EqualDigits(a, b, Xor(a, b), Xor(a, Xor(a, b)));
    }
  }

  lemma EqualDigits(a: nat, b: nat, c: nat, d: nat)
    requires c % 2 == (a + b) % 2 && d % 2 == (a + c) % 2 && d / 2 == b / 2
    ensures d == b
  {
  }

  lemma {:induction false} AndOnes(k: nat, b: nat)
    requires b < Pow(2, k)
    ensures Pow(2, k) > 0 && And(Pow(2, k) - 1, b) == b
  {
    if k > 0 {
      AndOnes(k - 1, b / 2);
    }
  }

  function XorOctet(a: byte, b: byte): byte {
    assert Pow(2, 8) == 0x100;
    XorBounded(a, b, 8);
    Xor(a, b)
  }

  // what the byte mask selects
  lemma MaskedByte(a: byte, b: byte)
    ensures Xor(a, And(0, Xor(a, b))) == a
    ensures Xor(a, And(0xFF, Xor(a, b))) == b
  {
    assert Pow(2, 8) == 0x100;
    XorBounded(a, b, 8);
    AndOnes(8, Xor(a, b));
    XorZero(a);
    XorCancels(a, b);
  }

  method MaskedSelect(a: array<byte>, b: array<byte>, mask: byte)
    requires a != b && a.Length == b.Length && (mask == 0 || mask == 0xFF)
    modifies a
    ensures a[..] == if mask == 0 then old(a[..]) else b[..]
  {
    for i := 0 to a.Length
      invariant forall j :: 0 <= j < i ==> a[j] == if mask == 0 then old(a[j]) else b[j]
      invariant forall j :: i <= j < a.Length ==> a[j] == old(a[j])
    {
      MaskedByte(a[i], b[i]);
      a[i] := Xor(a[i], And(mask, Xor(a[i], b[i])));
    }
  }

  function BigEndian(v: nat, k: nat): (s: Bytes)
    ensures |s| == k
  {
    if k == 0 then [] else BigEndian(v / 256, k - 1) + [v % 256]
  }

  function FromBigEndian(s: Bytes): nat {
    if s == [] then 0 else FromBigEndian(s[..|s| - 1]) * 256 + s[|s| - 1]
  }

  lemma {:induction false} PowPositive(b: nat, k: nat)
    requires b > 0
    ensures Pow(b, k) > 0
  {
    if k > 0 {
      PowPositive(b, k - 1);
    }
  }

  // reading back k octets gives the number, when it fits
  lemma {:induction false} DecodeBigEndian(v: nat, k: nat)
    ensures v < Pow(256, k) ==> FromBigEndian(BigEndian(v, k)) == v
  {
    if k > 0 {
      DecodeBigEndian(v / 256, k - 1);
      assert BigEndian(v, k)[..k - 1] == BigEndian(v / 256, k - 1);
    }
  }

  lemma {:induction false} EncodeFromBigEndian(s: Bytes)
    ensures FromBigEndian(s) < Pow(256, |s|)
    ensures BigEndian(FromBigEndian(s), |s|) == s
  {
    if s != [] {
      EncodeFromBigEndian(s[..|s| - 1]);
      assert s == s[..|s| - 1] + [s[|s| - 1]];
    }
  }

  // a string in two parts
  lemma {:induction false} FromBigEndianConcat(s: Bytes, t: Bytes)
    ensures FromBigEndian(s + t) == FromBigEndian(s) * Pow(256, |t|) + FromBigEndian(t)
  {
    if t == [] {
      assert s + t == s;
    } else {
      var init, p := t[..|t| - 1], Pow(256, |t| - 1);
      assert (s + t)[..|s + t| - 1] == s + init;
      FromBigEndianConcat(s, init);
      assert (FromBigEndian(s) * p) * 256 == FromBigEndian(s) * (256 * p);
    }
  }

  function NumBytes(v: nat): (k: nat) { if v == 0 then 0 else 1 + NumBytes(v / 256) }

  lemma {:induction false} NumBytesBounds(v: nat)
    ensures v < Pow(256, NumBytes(v))
    ensures v > 0 ==> NumBytes(v) > 0 && Pow(256, NumBytes(v) - 1) <= v
  {
    if v > 0 {
      NumBytesBounds(v / 256);
    }
  }

  // a bound from the leading octet, and a zero test from the last one
  lemma {:induction false} LeadingOctet(s: Bytes)
    requires s != []
    ensures FromBigEndian(s) < (s[0] + 1) * Pow(256, |s| - 1)
    ensures s[|s| - 1] != 0 ==> FromBigEndian(s) != 0
  {
    if |s| == 1 {
      assert s[..0] == [];
    } else {
      var t := s[..|s| - 1];
      LeadingOctet(t);
      var p := Pow(256, |t| - 1);
      assert Pow(256, |s| - 1) == 256 * p;
      assert FromBigEndian(s) < ((s[0] + 1) * p) * 256;
      assert ((s[0] + 1) * p) * 256 == (s[0] + 1) * (256 * p);
    }
  }

  lemma BigEndianInjective(v: nat, w: nat, k: nat)
    requires v < Pow(256, k) && w < Pow(256, k) && BigEndian(v, k) == BigEndian(w, k)
    ensures v == w
  {
    DecodeBigEndian(v, k);
    DecodeBigEndian(w, k);
  }

  method ToArray(s: Bytes) returns (a: array<byte>)
    ensures fresh(a) && a[..] == s
  {
    a := new byte[|s|](i requires 0 <= i < |s| => s[i]);
  }

  // a number chosen between two by masking their octets
  method SelectNumber(v: nat, w: nat, mask: byte, k: nat) returns (r: nat)
    requires v < Pow(256, k) && w < Pow(256, k) && (mask == 0 || mask == 0xFF)
    ensures r == if mask == 0 then v else w
  {
    DecodeBigEndian(v, k);
    DecodeBigEndian(w, k);
    var a := ToArray(BigEndian(v, k));
    var b := ToArray(BigEndian(w, k));
    MaskedSelect(a, b, mask);
    r := FromBigEndian(a[..]);
  }
}
