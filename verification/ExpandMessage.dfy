// expand_message_xmd with SHA-384: section 5.3.1 of RFC 9380 and src/crypto/voprf.cpp.
module ExpandMessage {
  import opened Types
  import opened Octets

  const B_IN_BYTES: nat := 48
  const S_IN_BYTES: nat := 128

  type Hash = Bytes -> Hash384

  function DstPrime(dst: Bytes): Bytes
    requires |dst| <= 255
  {
    dst + [|dst|]
  }

  function MsgPrime(msg: Bytes, dst: Bytes, len: nat): Bytes
    requires |dst| <= 255 && len < 0x1_0000
  {
    seq(S_IN_BYTES, _ => 0) + msg + [len / 0x100, len % 0x100] + [0] + DstPrime(dst)
  }

  function XorBytes(a: Hash384, b: Hash384): (x: Hash384) {
    seq(48, i requires 0 <= i < 48 => XorOctet(a[i], b[i]))
  }

  // block i of the expansion, for 1 <= i <= 255
  function Block(h: Hash, b0: Hash384, dstPrime: Bytes, i: nat): Hash384
    requires 1 <= i <= 255
  {
    if i == 1 then h(b0 + [1] + dstPrime)
    else h(XorBytes(b0, Block(h, b0, dstPrime, i - 1)) + [i] + dstPrime)
  }

  function Blocks(h: Hash, b0: Hash384, dstPrime: Bytes, n: nat): (s: Bytes)
    requires n <= 255
    ensures |s| == 48 * n
  {
    if n == 0 then [] else Blocks(h, b0, dstPrime, n - 1) + Block(h, b0, dstPrime, n)
  }

  // the number of blocks that cover len octets
  function BlockCount(len: nat): nat { (len + B_IN_BYTES - 1) / B_IN_BYTES }

  function Expand(h: Hash, msg: Bytes, dst: Bytes, len: nat): (r: Result<Bytes>)
    ensures r.Ok? <==> len <= 255 * 48 && |dst| <= 255
    ensures r.Ok? ==> |r.value| == len
  {
    if len > 255 * B_IN_BYTES || |dst| > 255 then Err(CRYPTO_ERROR)
    else
      var b0 := h(MsgPrime(msg, dst, len));
      Ok(Blocks(h, b0, DstPrime(dst), BlockCount(len))[..len])
  }

  // the octet the source appends for block i, a cast to eight bits
  function Counter(i: nat): byte { i % 0x100 }

  method XorBlocks(a: Hash384, b: Hash384) returns (x: Hash384)
    ensures x == XorBytes(a, b)
  {
    var out := new byte[48](_ => 0);
    for j := 0 to 48
      invariant forall k :: 0 <= k < j ==> out[k] == XorOctet(a[k], b[k])
    {
      out[j] := XorOctet(a[j], b[j]);
    }
    x := out[..];
  }

  method ExpandMessageXmd(h: Hash, msg: Bytes, dst: Bytes, len: nat) returns (r: Result<Bytes>)
    ensures r == Expand(h, msg, dst, len)
  {
    if len > 255 * B_IN_BYTES || |dst| > 255 {
      return Err(CRYPTO_ERROR);
    }
    var ell := (len + B_IN_BYTES - 1) / B_IN_BYTES;
    var dstPrime := dst + [|dst|];
    var zPad: Bytes := seq(S_IN_BYTES, _ => 0);
    var lengthOctets: Bytes := [len / 0x100, len % 0x100];
    var msgPrime := zPad;
    msgPrime := msgPrime + msg;
    msgPrime := msgPrime + lengthOctets;
    msgPrime := msgPrime + [0];
    msgPrime := msgPrime + dstPrime;
    var b0 := h(msgPrime);
    assert msgPrime == MsgPrime(msg, dst, len);

    var b1 := h(b0 + [1] + dstPrime);
    var uniform: Bytes := b1;
    var previous := b1;
    assert uniform == Blocks(h, b0, dstPrime, 1);
    var i := 2;
    while i <= ell
      invariant 2 <= i && (i <= ell + 1 || i == 2)
      invariant uniform == Blocks(h, b0, dstPrime, i - 1)
      invariant previous == Block(h, b0, dstPrime, i - 1)
    {
      var xored := XorBlocks(b0, previous);
      var block := h(xored + [Counter(i)] + dstPrime);
      uniform := uniform + block;
      previous := block;
      i := i + 1;
    }
    assert len == 0 ==> uniform[..len] == Blocks(h, b0, dstPrime, ell)[..len];
    r := Ok(uniform[..len]);
  }

  // every octet of the expansion is an octet of the block it falls in
  lemma {:induction false} OctetOfBlock(h: Hash, b0: Hash384, dstPrime: Bytes, n: nat, j: nat)
    requires n <= 255 && j < 48 * n
    ensures Blocks(h, b0, dstPrime, n)[j] == Block(h, b0, dstPrime, j / 48 + 1)[j % 48]
  {
    if j < 48 * (n - 1) {
      OctetOfBlock(h, b0, dstPrime, n - 1, j);
    } else {
      assert j / 48 == n - 1;
    }
  }
}
