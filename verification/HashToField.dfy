// The two hashes of src/crypto/voprf.cpp written out block by block, as sections 5.2, 5.3.1 and 3 of RFC 9380 and
// section 4.4 of RFC 9497 give them.
module HashToField {
  import opened Types
  import opened Congruence
  import opened Division
  import opened Octets
  import opened ExpandMessage
  import opened PrimeOrderGroup
  import opened Voprf
  import Sswu

  // what is hashed first determines message, tag and length
  lemma MsgPrimeInjective(msg: Bytes, dst: Bytes, len: nat, msg': Bytes, dst': Bytes, len': nat)
    requires |dst| <= 255 && |dst'| <= 255 && len < 0x1_0000 && len' < 0x1_0000
    requires MsgPrime(msg, dst, len) == MsgPrime(msg', dst', len')
    ensures msg == msg' && dst == dst' && len == len'
  {
    var t, n, d := MsgPrime(msg, dst, len), |MsgPrime(msg, dst, len)|, |dst|;
    assert t[n - 1] == d && t[n - 1] == |dst'|;
    assert t[n - 1 - d..n - 1] == dst && t[n - 1 - d..n - 1] == dst';
    assert t[n - 4 - d] == len / 0x100 && t[n - 3 - d] == len % 0x100;
    assert t[n - 4 - d] == len' / 0x100 && t[n - 3 - d] == len' % 0x100;
    assert t[128..n - 4 - d] == msg && t[128..n - 4 - d] == msg';
  }

  // the blocks: tag is the domain separation tag with its length behind it
  function B0(h: Hash, input: Bytes, lengths: Bytes, tag: Bytes): Hash384 {
    h(seq(128, _ => 0) + input + lengths + [0] + tag)
  }

  function B1(h: Hash, b0: Hash384, tag: Bytes): Hash384 { h(b0 + [1] + tag) }

  function Next(h: Hash, b0: Hash384, b: Hash384, i: byte, tag: Bytes): Hash384 { h(XorBytes(b0, b) + [i] + tag) }

  lemma TwoBlocks(h: Hash, input: Bytes, dst: Bytes)
    requires |dst| <= 255
    ensures var tag := dst + [|dst|];
            var b0 := B0(h, input, [0, 72], tag);
            var b1 := B1(h, b0, tag);
            var b2 := Next(h, b0, b1, 2, tag);
            Expand(h, input, dst, 72) == Ok(b1 + b2[..24])
  {
    var tag, b0 := DstPrime(dst), h(MsgPrime(input, dst, 72));
    FirstBlocks(h, b0, tag);
    var all: Bytes := Blocks(h, b0, tag, 2);
    assert all[..72] == Block(h, b0, tag, 1) + Block(h, b0, tag, 2)[..24];
  }

  lemma ThreeBlocks(h: Hash, input: Bytes, dst: Bytes)
    requires |dst| <= 255
    ensures var tag := dst + [|dst|];
            var b0 := B0(h, input, [0, 144], tag);
            var b1 := B1(h, b0, tag);
            var b2 := Next(h, b0, b1, 2, tag);
            var uniform: Bytes := b1 + b2 + Next(h, b0, b2, 3, tag);
            Expand(h, input, dst, 144) == Ok(uniform)
  {
    var tag, b0 := DstPrime(dst), h(MsgPrime(input, dst, 144));
    FirstBlocks(h, b0, tag);
    var all: Bytes := Blocks(h, b0, tag, 3);
    assert all[..144] == all;
  }

  lemma FirstBlocks(h: Hash, b0: Hash384, tag: Bytes)
    ensures var b1 := B1(h, b0, tag);
            var b2 := Next(h, b0, b1, 2, tag);
            && Block(h, b0, tag, 1) == b1 && Block(h, b0, tag, 2) == b2
            && Block(h, b0, tag, 3) == Next(h, b0, b2, 3, tag)
            && Blocks(h, b0, tag, 2) == b1 + b2 && Blocks(h, b0, tag, 3) == b1 + b2 + Next(h, b0, b2, 3, tag)
  {
    var b1 := B1(h, b0, tag);
    assert Blocks(h, b0, tag, 1) == [] + b1 == b1;
    assert Block(h, b0, tag, 2) == Next(h, b0, b1, 2, tag);
  }

  // the tags with their lengths
  function ScalarTag(): Bytes { ToBytes("HashToScalar-OPRFV1-") + [1] + ToBytes("-P384-SHA384") + [33] }
  function CurveTag(): Bytes { ToBytes("HashToGroup-OPRFV1-") + [1] + ToBytes("-P384-SHA384") + [32] }

  lemma TagsAre()
    ensures DST_H2S + [|DST_H2S|] == ScalarTag() && DST_H2C + [|DST_H2C|] == CurveTag()
    ensures DST_SEED == ToBytes("Seed-OPRFV1-") + [1] + ToBytes("-P384-SHA384")
  {
  }

  // a scalar is one and a half blocks modulo the order
  lemma ScalarIs<P(!new)>(s: Suite<P>, input: Bytes)
    requires s.Shaped()
    ensures var b0 := B0(s.hash, input, [0, 72], ScalarTag());
            var b1 := B1(s.hash, b0, ScalarTag());
            var b2 := Next(s.hash, b0, b1, 2, ScalarTag());
            HashToScalar(s, input) == FromBigEndian(b1 + b2[..24]) % s.g.order
  {
    hide FromBigEndian, Expand, B0, B1, Next, ScalarTag, CurveTag;
    TagsAre();
    DstLengths();
    TwoBlocks(s.hash, input, DST_H2S);
    DividedIs(FromBigEndian(Expand(s.hash, input, DST_H2S, 72).value), s.g.order);
  }

  // the point for an element of the field
  ghost predicate IsPointOf<P(!new)>(s: Suite<P>, u: nat, point: P)
    requires s.Shaped()
  {
    exists x: nat, y: nat :: Sswu.IsMapOf(s.curve, u, x, y) && s.fromAffine(x, y) == Some(point)
  }

  // a point is the sum of two, each from one and a half blocks modulo p
  lemma CurvePointIs<P(!new)>(s: Suite<P>, input: Bytes) returns (q0: P, q1: P)
    requires s.Shaped() && s.Valid() && |input| <= MAX_INPUT_SIZE
    ensures var b0 := B0(s.hash, input, [0, 144], CurveTag());
            var b1 := B1(s.hash, b0, CurveTag());
            var b2 := Next(s.hash, b0, b1, 2, CurveTag());
            var b3 := Next(s.hash, b0, b2, 3, CurveTag());
            && IsPointOf(s, FromBigEndian(b1 + b2[..24]) % s.curve.p, q0)
            && IsPointOf(s, FromBigEndian(b2[24..] + b3) % s.curve.p, q1)
            && HashToCurve(s, input) == Ok(s.g.add(q0, q1))
  {
    hide FromBigEndian, Expand, B0, B1, Next, ScalarTag, CurveTag, IsPointOf, PointOf;
    TagsAre();
    DstLengths();
    ThreeBlocks(s.hash, input, DST_H2C);
    var b0 := B0(s.hash, input, [0, 144], CurveTag());
    var b1 := B1(s.hash, b0, CurveTag());
    var b2 := Next(s.hash, b0, b1, 2, CurveTag());
    var b3 := Next(s.hash, b0, b2, 3, CurveTag());
    var uniform := b1[..] + b2 + b3;
    assert uniform[..72] == b1 + b2[..24] && uniform[72..] == b2[24..] + b3;
    q0 := PointIs(s, FromBigEndian(b1 + b2[..24]));
    q1 := PointIs(s, FromBigEndian(b2[24..] + b3));
  }

  lemma PointIs<P(!new)>(s: Suite<P>, n: nat) returns (point: P)
    requires s.Shaped() && s.Valid()
    ensures PointOf(s, Rem(n, s.curve.p)) == Some(point) && IsPointOf(s, n % s.curve.p, point)
  {
    var u := Rem(n, s.curve.p);
    DividedIs(n, s.curve.p);
    PointOfTotal(s, u);
    point := PointOf(s, u).value;
    Sswu.MapIsRfcMap(s.curve, u);
  }
}
