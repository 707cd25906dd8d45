// Readers and writers for wire data: include/privacy_pass/core/serialization.hpp.
module Wire {
  import opened Types
  import opened Congruence
  import opened NumberTheory
  import opened Octets

  // ---- formats: what is written, and what is read off the front of a byte string

  // a size cast to sixteen bits
  function U16(n: nat): (s: Bytes)
    ensures |s| == 2
  {
    [n / 0x100 % 0x100, n % 0x100]
  }

  function ParseU8(s: Bytes): Option<(byte, Bytes)> { if |s| < 1 then None else Some((s[0], s[1..])) }

  function ParseU16(s: Bytes): Option<(uint16, Bytes)> {
    if |s| < 2 then None else Some((s[0] as int * 0x100 + s[1], s[2..]))
  }

  function ParseU32(s: Bytes): Option<(uint32, Bytes)> {
    if |s| < 4 then None
    else
      EncodeFromBigEndian(s[..4]);
      assert Pow(256, 4) == 0x1_0000_0000;
      Some((FromBigEndian(s[..4]), s[4..]))
  }

  function ParseBytes(s: Bytes, count: nat): Option<(Bytes, Bytes)> {
    if |s| < count then None else Some((s[..count], s[count..]))
  }

  // each reading has exactly one text that yields it

  lemma OctetParses(s: Bytes, b: byte, rest: Bytes)
    ensures ParseU8(s) == Some((b, rest)) <==> s == [b] + rest
  {
    if s == [b] + rest {
      assert s[1..] == rest;
    }
    if s != [] {
      assert s == [s[0]] + s[1..];
    }
  }

  // the octets of a number are its big-endian ones
  lemma ReadsBigEndian(s: Bytes, n: nat)
    ensures |s| >= 2 ==> ParseU16(s).Some? && ParseU16(s).value.0 == FromBigEndian(s[..2])
    ensures U16(n) == BigEndian(n % 0x1_0000, 2)
  {
    hide FromBigEndian;
    if |s| >= 2 {
      TwoOctets(s[..2]);
    }
    TwoOctets(U16(n));
    EncodeFromBigEndian(U16(n));
    DigitPair(n);
  }

  lemma DigitPair(n: nat)
    ensures n / 0x100 % 0x100 * 0x100 + n % 0x100 == n % 0x1_0000
  {
  }

  lemma U16Parses(s: Bytes, v: uint16, rest: Bytes)
    ensures ParseU16(s) == Some((v, rest)) <==> s == U16(v) + rest
  {
    if ParseU16(s) == Some((v, rest)) {
      assert s == [s[0], s[1]] + rest;
    }
    if s == U16(v) + rest {
      assert s[2..] == rest && s[0] == v / 0x100 && s[1] == v % 0x100;
    }
  }

  lemma BytesParse(s: Bytes, b: Bytes, rest: Bytes)
    ensures ParseBytes(s, |b|) == Some((b, rest)) <==> s == b + rest
  {
    if s == b + rest {
      assert s[..|b|] == b && s[|b|..] == rest;
    }
    if ParseBytes(s, |b|) == Some((b, rest)) {
      assert s == s[..|b|] + s[|b|..];
    }
  }

  // a field preceded by its length in sixteen bits
  function ParseField(s: Bytes): Option<(Bytes, Bytes)> {
    match ParseU16(s)
    case None => None
    case Some((length, rest)) => ParseBytes(rest, length)
  }

  lemma ParsedFieldLength(s: Bytes)
    ensures ParseField(s).Some? ==> |ParseField(s).value.0| <= 0xFFFF
  {
  }

  lemma FieldParses(s: Bytes, b: Bytes, rest: Bytes)
    requires |b| <= 0xFFFF
    ensures ParseField(s) == Some((b, rest)) <==> s == U16(|b|) + (b + rest)
  {
    hide ParseU16, ParseBytes, U16;
    U16Parses(s, |b|, b + rest);
    BytesParse(b + rest, b, rest);
    if ParseField(s) == Some((b, rest)) {
      var read := ParseU16(s).value;
      U16Parses(s, read.0, read.1);
      ParsedLength(read.1, read.0, b, rest);
      BytesParse(read.1, b, rest);
    }
  }

  lemma ParsedLength(s: Bytes, count: nat, b: Bytes, rest: Bytes)
    requires ParseBytes(s, count) == Some((b, rest))
    ensures |b| == count
  {
  }

  // ---- varints: section 16 of RFC 9000

  // the two bits that announce a length of 1, 2, 4 or 8 octets
  function VarintLength(prefix: nat): nat {
    if prefix == 0 then 1 else if prefix == 1 then 2 else if prefix == 2 then 4 else 8
  }

  function VarintPrefix(v: nat): (prefix: nat)
    ensures prefix < 4
  {
    if v <= 0x3F then 0 else if v <= 0x3FFF then 1 else if v <= 0x3FFF_FFFF then 2 else 3
  }

  function VarintLimit(prefix: nat): (limit: nat)
    ensures limit > 0
  {
    if prefix == 0 then 0x40
    else if prefix == 1 then 0x4000
    else if prefix == 2 then 0x4000_0000
    else 0x4000_0000_0000_0000
  }

  function VarintSize(v: uint64): nat {
    if v <= 0x3F then 1 else if v <= 0x3FFF then 2 else if v <= 0x3FFF_FFFF then 4 else 8
  }

  // bits above the 62nd are lost
  function Varint(v: uint64): (s: Bytes)
    ensures |s| == VarintSize(v)
  {
    var limit := VarintLimit(VarintPrefix(v));
    BigEndian(VarintPrefix(v) * limit + v % limit, VarintSize(v))
  }

  function ParseVarint(s: Bytes): Option<(uint64, Bytes)> {
    if |s| < 1 then None
    else
      var prefix := s[0] / 0x40;
      var length := VarintLength(prefix);
      if |s| < length then None else Some((FromBigEndian(s[..length]) % VarintLimit(prefix), s[length..]))
  }

  // the first octet is the number divided by the weight of the others
  lemma {:induction false} FirstOctet(v: nat, k: nat)
    requires k > 0 && v < Pow(256, k)
    ensures var a := BigEndian(v, k)[0]; a * Pow(256, k - 1) <= v < (a + 1) * Pow(256, k - 1)
  {
    if k == 1 {
      assert BigEndian(v, 1) == [v];
    } else {
      FirstOctet(v / 256, k - 1);
      Scaled(v, BigEndian(v / 256, k - 1)[0], Pow(256, k - 2));
    }
  }

  lemma Scaled(v: nat, a: nat, p: int)
    requires a * p <= v / 256 < (a + 1) * p
    ensures a * (256 * p) <= v < (a + 1) * (256 * p)
  {
    assert a * (256 * p) == 256 * (a * p);
    assert (a + 1) * (256 * p) == 256 * ((a + 1) * p);
  }

  lemma Powers()
    ensures Pow(256, 0) == 1 && Pow(256, 1) == 0x100 && Pow(256, 2) == 0x1_0000
    ensures Pow(256, 3) == 0x100_0000 && Pow(256, 4) == 0x1_0000_0000
    ensures Pow(256, 7) == 0x100_0000_0000_0000 && Pow(256, 8) == 0x1_0000_0000_0000_0000
  {
    assert Pow(256, 5) == 0x100_0000_0000 && Pow(256, 6) == 0x1_0000_0000_0000;
  }

  // the number behind an encoding starts with the prefix bits
  lemma VarintNumber(v: uint64)
    ensures
      var prefix, low := VarintPrefix(v), v % VarintLimit(VarintPrefix(v));
      var number := prefix * VarintLimit(prefix) + low;
      number < Pow(256, VarintSize(v)) && number % VarintLimit(prefix) == low && Varint(v)[0] / 0x40 == prefix
  {
    Powers();
    var prefix, limit := VarintPrefix(v), VarintLimit(VarintPrefix(v));
    Remainder(prefix * limit + v % limit, prefix, v % limit, limit);
    FirstOctet(prefix * limit + v % limit, VarintSize(v));
  }

  // the low bits that an encoding keeps are the low 62 bits, and its prefix tells its length
  lemma VarintSizes(v: uint64)
    ensures v % VarintLimit(VarintPrefix(v)) == v % 0x4000_0000_0000_0000
    ensures VarintLength(VarintPrefix(v)) == VarintSize(v) > 0
  {
  }

  // reading gives back the low 62 bits and leaves what follows
  lemma VarintRoundTrip(v: uint64, rest: Bytes)
    ensures ParseVarint(Varint(v) + rest) == Some((v % 0x4000_0000_0000_0000, rest))
  {
    hide VarintPrefix, VarintLimit, VarintLength, VarintSize, FromBigEndian, BigEndian;
    VarintNumber(v);
    VarintSizes(v);
    var limit := VarintLimit(VarintPrefix(v));
    DecodeBigEndian(VarintPrefix(v) * limit + v % limit, VarintSize(v));
    assert (Varint(v) + rest)[0] == Varint(v)[0];
    assert (Varint(v) + rest)[..VarintSize(v)] == Varint(v);
    assert (Varint(v) + rest)[VarintSize(v)..] == rest;
  }

  // The two high bits of the first octet are the binary logarithm of the length; the other bits of that many octets,
  // high one first, are the value.
  lemma VarintReads(s: Bytes, k: nat, length: nat)
    requires s != [] && k == s[0] / 0x40 && length == Pow(2, k)
    ensures match ParseVarint(s)
            case None => |s| < length
            case Some((v, rest)) =>
              && |s| >= length && rest == s[length..] && v < Pow(2, 8 * length - 2)
              && FromBigEndian(s[..length]) == k * Pow(2, 8 * length - 2) + v
  {
    hide FromBigEndian, Pow;
    Lengths(k);
    if |s| >= length {
      var t := s[..length];
      assert t[0] == s[0];
      LeadingBits(t, k);
    }
  }

  lemma LeadingBits(t: Bytes, k: nat)
    requires t != [] && k == t[0] / 0x40 && |t| == VarintLength(k)
    ensures FromBigEndian(t) == k * VarintLimit(k) + FromBigEndian(t) % VarintLimit(k)
  {
    hide FromBigEndian;
    VarintValue(t, k);
    assert t[0] == k * 0x40 + t[0] % 0x40;
    if k == 0 {
      OneOctet(t);
    } else if k == 1 {
      TwoOctets(t);
    } else if k == 2 {
      FourOctets(t);
    } else {
      EightOctets(t);
    }
  }

  lemma Lengths(k: nat)
    requires k < 4
    ensures VarintLength(k) == Pow(2, k) && VarintLimit(k) == Pow(2, 8 * VarintLength(k) - 2)
  {
    assert Pow(2, 6) == 0x40 && Pow(2, 14) == 0x4000;
    assert Pow(2, 16) == 0x1_0000;
    PowAdd(2, 16, 14);
    PowAdd(2, 16, 30);
    PowAdd(2, 16, 46);
  }

  // no encoding accepted for a value is shorter than the one written
  lemma VarintMinimal(v: uint64, s: Bytes, rest: Bytes)
    requires ParseVarint(s) == Some((v, rest))
    ensures |s| - |rest| >= VarintSize(v)
  {
    var prefix := s[0] / 0x40;
    assert v < VarintLimit(prefix);
  }

  // no encoding is a proper prefix of another
  lemma VarintPrefixFree(s: Bytes, t: Bytes)
    requires ParseVarint(s).Some? && ParseVarint(s).value.1 == []
    requires ParseVarint(t).Some? && ParseVarint(t).value.1 == [] && s <= t
    ensures s == t
  {
    assert s[0] == t[0];
  }

  // ---- the reader

  // r is what parsing rest yields, and left is what it leaves
  ghost predicate Reads<T>(rest: Bytes, parsed: Option<(T, Bytes)>, r: Option<T>, left: Bytes) {
    match parsed
    case None => r == None && left == rest
    case Some((v, tail)) => r == Some(v) && left == tail
  }

  class ByteReader {
    const data: Bytes
    var pos: nat

    ghost predicate Valid()
      reads this
    {
      pos <= |data|
    }

    function Rest(): Bytes
      requires Valid()
      reads this
    {
      data[pos..]
    }

    constructor (data: Bytes)
      ensures Valid() && Rest() == data
    {
      this.data, pos := data, 0;
    }

    method Empty() returns (empty: bool)
      requires Valid()
      ensures empty <==> Rest() == []
    {
      empty := pos >= |data|;
    }

    method ReadU8() returns (r: Option<byte>)
      requires Valid()
      modifies this
      ensures Valid() && Reads(old(Rest()), ParseU8(old(Rest())), r, Rest())
    {
      if |data| - pos < 1 {
        return None;
      }
      r := Some(data[pos]);
      pos := pos + 1;
    }

    method ReadU16() returns (r: Option<uint16>)
      requires Valid()
      modifies this
      ensures Valid() && Reads(old(Rest()), ParseU16(old(Rest())), r, Rest())
    {
      if |data| - pos < 2 {
        return None;
      }
      r := Some(data[pos] as int * 0x100 + data[pos + 1]);
      pos := pos + 2;
    }

    method ReadU32() returns (r: Option<uint32>)
      requires Valid()
      modifies this
      ensures Valid() && Reads(old(Rest()), ParseU32(old(Rest())), r, Rest())
    {
      if |data| - pos < 4 {
        return None;
      }
      FourOctets(data[pos..][..4]);
      r := Some(data[pos] as int * 0x100_0000 + data[pos + 1] as int * 0x1_0000 + data[pos + 2] as int * 0x100
                + data[pos + 3]);
      pos := pos + 4;
    }

    method ReadBytes(count: nat) returns (r: Option<Bytes>)
      requires Valid()
      modifies this
      ensures Valid() && Reads(old(Rest()), ParseBytes(old(Rest()), count), r, Rest())
    {
      if |data| - pos < count {
        return None;
      }
      assert data[pos..][..count] == data[pos..pos + count] && data[pos..][count..] == data[pos + count..];
      r := Some(data[pos..pos + count]);
      pos := pos + count;
    }

    method ReadVarint() returns (r: Option<uint64>)
      requires Valid()
      modifies this
      ensures Valid() && Reads(old(Rest()), ParseVarint(old(Rest())), r, Rest())
    {
      if |data| - pos < 1 {
        return None;
      }
      var prefix := data[pos] / 0x40;
      if prefix == 0 {
        VarintValue(data[pos..][..1], prefix);
        r := Some(data[pos] % 0x40);
        pos := pos + 1;
      } else if prefix == 1 {
        if |data| - pos < 2 {
          return None;
        }
        VarintValue(data[pos..][..2], prefix);
        r := Some(Two(data[pos..][..2]));
        pos := pos + 2;
      } else if prefix == 2 {
        if |data| - pos < 4 {
          return None;
        }
        VarintValue(data[pos..][..4], prefix);
        r := Some(Four(data[pos..][..4]));
        pos := pos + 4;
      } else {
        if |data| - pos < 8 {
          return None;
        }
        VarintValue(data[pos..][..8], prefix);
        r := Some(Eight(data[pos..][..8]));
        pos := pos + 8;
      }
    }
  }

  // the shifts and sums of the source, prefix bits masked off
  function Two(s: Bytes): uint64
    requires |s| == 2
  {
    (s[0] % 0x40) as int * 0x100 + s[1]
  }

  function Four(s: Bytes): uint64
    requires |s| == 4
  {
    (s[0] % 0x40) as int * 0x100_0000 + s[1] as int * 0x1_0000 + s[2] as int * 0x100 + s[3]
  }

  function Eight(s: Bytes): uint64
    requires |s| == 8
  {
    (s[0] % 0x40) as int * 0x100_0000_0000_0000 + s[1] as int * 0x1_0000_0000_0000
    + s[2] as int * 0x100_0000_0000 + s[3] as int * 0x1_0000_0000
    + s[4] as int * 0x100_0000 + s[5] as int * 0x1_0000 + s[6] as int * 0x100 + s[7]
  }

  lemma VarintValue(s: Bytes, prefix: nat)
    requires s != [] && prefix == s[0] / 0x40 && |s| == VarintLength(prefix)
    ensures FromBigEndian(s) % VarintLimit(prefix)
         == if prefix == 0 then s[0] % 0x40
            else if prefix == 1 then Two(s)
            else if prefix == 2 then Four(s)
            else Eight(s)
  {
    var low := s[0] % 0x40;
    assert s[0] == prefix * 0x40 + low;
    if prefix == 0 {
      OneOctet(s);
    } else if prefix == 1 {
      TwoOctets(s);
      Remainder(FromBigEndian(s), prefix, Two(s), VarintLimit(1));
    } else if prefix == 2 {
      FourOctets(s);
      Remainder(FromBigEndian(s), prefix, Four(s), VarintLimit(2));
    } else {
      EightOctets(s);
      Remainder(FromBigEndian(s), prefix, Eight(s), VarintLimit(3));
    }
  }

  lemma OneOctet(s: Bytes)
    requires |s| == 1
    ensures FromBigEndian(s) == s[0]
  {
    assert s[..0] == [];
  }

  lemma TwoOctets(s: Bytes)
    requires |s| == 2
    ensures FromBigEndian(s) == s[0] as int * 0x100 + s[1]
  {
    OneOctet(s[..1]);
  }

  lemma FourOctets(s: Bytes)
    requires |s| == 4
    ensures FromBigEndian(s) == s[0] as int * 0x100_0000 + s[1] as int * 0x1_0000 + s[2] as int * 0x100 + s[3]
  {
    assert s[..3][..2] == s[..2];
    TwoOctets(s[..2]);
  }

  lemma EightOctets(s: Bytes)
    requires |s| == 8
    ensures FromBigEndian(s) == s[0] as int * 0x100_0000_0000_0000 + s[1] as int * 0x1_0000_0000_0000
                  + s[2] as int * 0x100_0000_0000 + s[3] as int * 0x1_0000_0000
                  + s[4] as int * 0x100_0000 + s[5] as int * 0x1_0000 + s[6] as int * 0x100 + s[7]
  {
    FourOctets(s[..4]);
    DropLast(s, 5);
    DropLast(s, 6);
    DropLast(s, 7);
    assert s[..8] == s;
    DropLast(s, 8);
  }

  lemma DropLast(s: Bytes, k: nat)
    requires 0 < k <= |s|
    ensures FromBigEndian(s[..k]) == FromBigEndian(s[..k - 1]) * 256 + s[k - 1]
  {
    assert s[..k][..k - 1] == s[..k - 1];
  }

  // ---- the writer

  // Writes go to a growing buffer, or to a fixed external one, where a write that does not fit sets overflow.
  class ByteWriter {
    var data: Bytes
    const external: array?<byte>
    var pos: nat
    var overflow: bool

    ghost predicate Valid()
      reads this
    {
      external != null ==> pos <= external.Length
    }

    ghost function Frame(): set<object> {
      if external == null then {this} else {this, external}
    }

    function View(): Bytes
      requires Valid()
      reads this, if external == null then {} else {external}
    {
      if external == null then data else external[..pos]
    }

    function Room(count: nat): bool
      requires Valid()
      reads this
    {
      external == null || pos + count <= external.Length
    }

    constructor ()
      ensures Valid() && external == null && View() == [] && !overflow
    {
      data, external, pos, overflow := [], null, 0, false;
    }

    constructor Into(buffer: array<byte>)
      ensures Valid() && external == buffer && View() == [] && !overflow
    {
      data, external, pos, overflow := [], buffer, 0, false;
    }

    method WriteBytes(bytes: Bytes) returns (ok: bool)
      requires Valid()
      modifies Frame()
      ensures Valid() && ok == old(Room(|bytes|)) && (external == null ==> ok)
      ensures View() == if ok then old(View()) + bytes else old(View())
      ensures overflow == (old(overflow) || !ok)
      ensures external != null ==> pos == old(pos) + if ok then |bytes| else 0
    {
      ok := true;
      if external == null {
        data := data + bytes;
      } else {
        if pos + |bytes| > external.Length {
          overflow := true;
          return false;
        }
        ghost var before := external[..pos];
        for i := 0 to |bytes|
          invariant pos == old(pos) && data == old(data) && overflow == old(overflow)
          invariant external[..pos + i] == before + bytes[..i]
        {
          external[pos + i] := bytes[i];
          assert bytes[..i + 1] == bytes[..i] + [bytes[i]];
          assert external[..pos + i + 1] == external[..pos + i] + [bytes[i]];
        }
        assert bytes[..|bytes|] == bytes;
        pos := pos + |bytes|;
      }
    }

    method WriteU8(value: byte) returns (ok: bool)
      requires Valid()
      modifies Frame()
      ensures Valid() && ok == old(Room(1)) && (external == null ==> ok)
      ensures View() == if ok then old(View()) + [value] else old(View())
      ensures overflow == (old(overflow) || !ok)
      ensures external != null ==> pos == old(pos) + if ok then 1 else 0
    {
      ok := true;
      if external == null {
        data := data + [value];
      } else {
        if pos >= external.Length {
          overflow := true;
          return false;
        }
        external[pos] := value;
        pos := pos + 1;
        assert external[..pos] == external[..pos - 1] + [value];
      }
    }

    method WriteU16(value: uint16) returns (ok: bool)
      requires Valid()
      modifies Frame()
      ensures Valid() && ok == old(Room(2)) && (external == null ==> ok)
      ensures View() == if ok then old(View()) + U16(value) else old(View())
      ensures overflow == (old(overflow) || !ok)
      ensures external != null ==> pos == old(pos) + if ok then 2 else 0
    {
      ok := WriteBytes([value / 0x100, value % 0x100]);
    }

    // the octets go out one by one, so an external buffer may end up with a part of them
    method WriteVarint(value: uint64) returns (ok: bool)
      requires Valid()
      modifies Frame()
      ensures Valid() && ok == old(Room(VarintSize(value))) && (external == null ==> ok)
      ensures ok ==> View() == old(View()) + Varint(value)
      ensures !ok ==> exists n :: 0 <= n < VarintSize(value) && View() == old(View()) + Varint(value)[..n] && !Room(1)
      ensures overflow == (old(overflow) || !ok)
    {
      ShiftedIsVarint(value);
      var octets := Shifted(value);
      var i := 0;
      ok := true;
      assert octets[..0] == [];
      while ok && i < |octets|
        invariant Valid() && 0 <= i <= |octets|
        invariant ok ==> View() == old(View()) + octets[..i] && (external != null ==> pos == old(pos) + i)
        invariant !ok ==> i < |octets| && View() == old(View()) + octets[..i] && !Room(1) && !old(Room(i + 1))
        invariant overflow == (old(overflow) || !ok)
        decreases ok, |octets| - i
      {
        ok := WriteU8(octets[i]);
        if ok {
          assert octets[..i + 1] == octets[..i] + [octets[i]];
          i := i + 1;
        }
      }
      assert octets[..|octets|] == octets;
    }
  }

  // the octets as the source shifts them out of the value; 0xC0 | x keeps the low six bits of x
  function Shifted(v: uint64): Bytes {
    if v <= 0x3F then [v]
    else if v <= 0x3FFF then [0x40 + v / 0x100, v % 0x100]
    else if v <= 0x3FFF_FFFF then
      [0x80 + v / 0x100_0000, v / 0x1_0000 % 0x100, v / 0x100 % 0x100, v % 0x100]
    else
      [0xC0 + v / 0x100_0000_0000_0000 % 0x40, v / 0x1_0000_0000_0000 % 0x100, v / 0x100_0000_0000 % 0x100,
       v / 0x1_0000_0000 % 0x100, v / 0x100_0000 % 0x100, v / 0x1_0000 % 0x100, v / 0x100 % 0x100, v % 0x100]
  }

  lemma ShiftedIsVarint(v: uint64)
    ensures Shifted(v) == Varint(v)
  {
    var s := Shifted(v);
    ShiftedNumber(v);
    hide BigEndian, FromBigEndian;
    EncodeFromBigEndian(s);
  }

  lemma ShiftedNumber(v: uint64)
    ensures |Shifted(v)| == VarintSize(v)
    ensures var limit := VarintLimit(VarintPrefix(v)); FromBigEndian(Shifted(v)) == VarintPrefix(v) * limit + v % limit
  {
    hide FromBigEndian;
    var s := Shifted(v);
    if v <= 0x3F {
      OneOctet(s);
    } else if v <= 0x3FFF {
      TwoOctets(s);
    } else if v <= 0x3FFF_FFFF {
      ShiftedFour(v);
    } else {
      ShiftedEight(v);
    }
  }

  lemma ShiftedFour(v: uint64)
    requires 0x3FFF < v <= 0x3FFF_FFFF
    ensures FromBigEndian(Shifted(v)) == 0x8000_0000 + v
  {
    FourOctets(Shifted(v));
    SplitAt(v, 0x100, 0x100);
    SplitAt(v, 0x1_0000, 0x100);
  }

  lemma ShiftedEight(v: uint64)
    requires 0x3FFF_FFFF < v
    ensures FromBigEndian(Shifted(v)) == 0xC000_0000_0000_0000 + v % 0x4000_0000_0000_0000
  {
    EightOctets(Shifted(v));
    LowDigits(v);
    HighDigits(v);
  }

  // the digit of v at weight w, in base m
  lemma SplitAt(v: nat, w: nat, m: nat)
    requires w > 0 && m > 0
    ensures m * w > 0 && v % (m * w) == v / w % m * w + v % w
  {
    Euclid(v, w);
    Euclid(v / w, m);
    DigitAt(v, w, m, v / w, v % w, v / w / m, v / w % m);
  }

  lemma Euclid(a: nat, n: nat)
    requires n > 0
    ensures a == a / n * n + a % n && 0 <= a / n && 0 <= a % n < n
  {
  }

  lemma DigitAt(v: nat, w: nat, m: nat, high: nat, low: nat, q: nat, d: nat)
    requires v == high * w + low && low < w && high == q * m + d && d < m
    ensures m * w > 0 && v % (m * w) == d * w + low
  {
    BelowProduct(d, w, m, low);
    assert (q * m + d) * w == q * (m * w) + d * w;
    Remainder(v, q, d * w + low, m * w);
  }

  lemma BelowProduct(d: nat, w: nat, m: nat, low: nat)
    requires d < m && low < w
    ensures d * w + low < m * w
  {
    assert (d + 1) * w == d * w + w;
    assert (d + 1) * w <= m * w;
  }

  lemma Remainder(number: nat, q: nat, low: nat, limit: nat)
    requires low < limit && number == q * limit + low
    ensures number % limit == low
  {
    CongBy(number, low, limit, q);
    CongMod(number, limit);
    CongTrans(number % limit, number, low, limit);
    CongResidue(number % limit, low, limit);
  }

  lemma LowDigits(v: uint64)
    ensures v % 0x1_0000_0000
         == v / 0x100_0000 % 0x100 * 0x100_0000 + v / 0x1_0000 % 0x100 * 0x1_0000 + v / 0x100 % 0x100 * 0x100
          + v % 0x100
  {
    SplitAt(v, 0x100, 0x100);
    SplitAt(v, 0x1_0000, 0x100);
    SplitAt(v, 0x100_0000, 0x100);
  }

  lemma HighDigits(v: uint64)
    ensures v % 0x4000_0000_0000_0000
         == v / 0x100_0000_0000_0000 % 0x40 * 0x100_0000_0000_0000 + v / 0x1_0000_0000_0000 % 0x100 * 0x1_0000_0000_0000
          + v / 0x100_0000_0000 % 0x100 * 0x100_0000_0000 + v / 0x1_0000_0000 % 0x100 * 0x1_0000_0000
          + v % 0x1_0000_0000
  {
    SplitAt(v, 0x1_0000_0000, 0x100);
    SplitAt(v, 0x100_0000_0000, 0x100);
    SplitAt(v, 0x1_0000_0000_0000, 0x100);
    SplitAt(v, 0x100_0000_0000_0000, 0x40);
  }
}
