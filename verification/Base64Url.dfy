// Base64url without and with padding: section 5 of RFC 4648 and src/core/serialization.cpp.
module Base64Url {
  import opened Types
  import opened NumberTheory
  import Digit = Octets

  type Sextet = x: int | 0 <= x < 0x40

  // A-Z, a-z, 0-9, '-' and '_'
  function EncodeChar(v: Sextet): char {
    if v < 26 then (v + 65) as char
    else if v < 52 then (v + 71) as char
    else if v < 62 then (v - 4) as char
    else if v == 62 then '-' else '_'
  }

  // the inverse table, 255 for a character outside the alphabet
  function DecodeChar(c: char): byte {
    if 'A' <= c <= 'Z' then c as int - 65
    else if 'a' <= c <= 'z' then c as int - 71
    else if '0' <= c <= '9' then c as int + 4
    else if c == '-' then 62 else if c == '_' then 63 else 255
  }

  predicate InAlphabet(c: char) { DecodeChar(c) != 255 }

  lemma CharRoundTrip(v: Sextet)
    ensures DecodeChar(EncodeChar(v)) == v
  {
  }

  lemma DecodedIsSextet(c: char)
    requires InAlphabet(c)
    ensures DecodeChar(c) < 0x40 && EncodeChar(DecodeChar(c)) == c
  {
  }

  // ---- three octets as four sextets

  function S0(a: byte): Sextet { a / 4 }
  function S1(a: byte, b: byte): Sextet { (a % 4) as int * 16 + b / 16 }
  function S2(b: byte, c: byte): Sextet { (b % 16) as int * 4 + c / 64 }
  function S3(c: byte): Sextet { c % 64 }

  function O0(u: Sextet, v: Sextet): byte { u as int * 4 + v / 16 }
  function O1(v: Sextet, w: Sextet): byte { (v % 16) as int * 16 + w / 4 }
  function O2(w: Sextet, x: Sextet): byte { (w % 4) as int * 64 + x }

  lemma OctetsBack(a: byte, b: byte, c: byte)
    ensures O0(S0(a), S1(a, b)) == a && O1(S1(a, b), S2(b, c)) == b && O2(S2(b, c), S3(c)) == c
    ensures S1(a, 0) % 16 == 0 && S2(b, 0) % 4 == 0
  {
  }

  lemma SextetsBack(u: Sextet, v: Sextet, w: Sextet, x: Sextet)
    ensures S0(O0(u, v)) == u && S1(O0(u, v), O1(v, w)) == v && S2(O1(v, w), O2(w, x)) == w && S3(O2(w, x)) == x
    ensures S1(O0(u, v), 0) == v <==> v % 16 == 0
    ensures S2(O1(v, w), 0) == w <==> w % 4 == 0
  {
  }

  function Sextets(data: Bytes): seq<Sextet> {
    if |data| >= 3 then
      [S0(data[0]), S1(data[0], data[1]), S2(data[1], data[2]), S3(data[2])] + Sextets(data[3..])
    else if |data| == 2 then [S0(data[0]), S1(data[0], data[1]), S2(data[1], 0)]
    else if |data| == 1 then [S0(data[0]), S1(data[0], 0)]
    else []
  }

  // the octets a list of sextets carries; bits that do not fill an octet are dropped
  function Octets(v: seq<Sextet>): Bytes {
    if |v| >= 4 then [O0(v[0], v[1]), O1(v[1], v[2]), O2(v[2], v[3])] + Octets(v[4..])
    else if |v| == 3 then [O0(v[0], v[1]), O1(v[1], v[2])]
    else if |v| == 2 then [O0(v[0], v[1])]
    else []
  }

  // the bits that the last octet leaves over are zero
  predicate Canonical(v: seq<Sextet>) {
    if |v| >= 4 then Canonical(v[4..])
    else if |v| == 3 then v[2] % 4 == 0
    else if |v| == 2 then v[1] % 16 == 0
    else true
  }

  lemma {:induction false} OctetsOfSextets(data: Bytes)
    ensures Octets(Sextets(data)) == data
    ensures Canonical(Sextets(data)) && |Sextets(data)| % 4 != 1
  {
    hide S0, S1, S2, S3, O0, O1, O2;
    if |data| >= 3 {
      OctetsOfSextets(data[3..]);
      OctetsBack(data[0], data[1], data[2]);
      assert Sextets(data)[4..] == Sextets(data[3..]);
      assert data == [data[0], data[1], data[2]] + data[3..];
    } else if |data| == 2 {
      OctetsBack(data[0], data[1], 0);
    } else if |data| == 1 {
      OctetsBack(data[0], 0, 0);
    }
  }

  lemma {:induction false} SextetsOfOctets(v: seq<Sextet>)
    requires |v| % 4 != 1
    ensures |Octets(v)| == |v| * 3 / 4
    ensures Sextets(Octets(v)) == v <==> Canonical(v)
  {
    hide S0, S1, S2, S3, O0, O1, O2;
    if |v| >= 4 {
      SextetsOfOctets(v[4..]);
      SextetsBack(v[0], v[1], v[2], v[3]);
      var d := Octets(v);
      assert d[3..] == Octets(v[4..]);
      assert Sextets(d)[4..] == Sextets(d[3..]);
      assert Sextets(d) == [v[0], v[1], v[2], v[3]] + Sextets(d[3..]);
      assert v == [v[0], v[1], v[2], v[3]] + v[4..];
    } else if |v| == 3 {
      SextetsBack(v[0], v[1], v[2], 0);
    } else if |v| == 2 {
      SextetsBack(v[0], v[1], 0, 0);
    }
  }

  // ---- text

  function Text(v: seq<Sextet>): (s: string)
    ensures |s| == |v|
  {
    seq(|v|, i requires 0 <= i < |v| => EncodeChar(v[i]))
  }

  predicate AllInAlphabet(s: string) { forall i | 0 <= i < |s| :: InAlphabet(s[i]) }

  function Values(s: string): (v: seq<Sextet>)
    requires AllInAlphabet(s)
    ensures |v| == |s|
  {
    seq(|s|, i requires 0 <= i < |s| => DecodeChar(s[i]))
  }

  lemma TextOfValues(s: string)
    requires AllInAlphabet(s)
    ensures Text(Values(s)) == s
  {
    forall i | 0 <= i < |s| ensures Text(Values(s))[i] == s[i] {
      DecodedIsSextet(s[i]);
    }
  }

  lemma ValuesOfText(v: seq<Sextet>)
    ensures AllInAlphabet(Text(v)) && Values(Text(v)) == v
  {
    forall i | 0 <= i < |v| ensures DecodeChar(Text(v)[i]) == v[i] {
      CharRoundTrip(v[i]);
    }
  }

  function Encode(data: Bytes): string { Text(Sextets(data)) }

  function Padding(n: nat): string
    decreases if n % 4 == 0 then 0 else 4 - n % 4
  {
    if n % 4 == 0 then "" else "=" + Padding(n + 1)
  }

  function EncodePadded(data: Bytes): string { Encode(data) + Padding(|Encode(data)|) }

  // the text without its trailing '=' characters
  function Strip(s: string): (u: string)
    ensures u <= s
  {
    if s != "" && s[|s| - 1] == '=' then Strip(s[..|s| - 1]) else s
  }

  predicate Decodable(s: string) {
    |s| - |Strip(s)| <= 2 && |Strip(s)| % 4 != 1 && AllInAlphabet(Strip(s))
  }

  function Decode(s: string): Result<Bytes> {
    if Decodable(s) then Ok(Octets(Values(Strip(s)))) else Err(INVALID_BASE64)
  }

  lemma {:induction false} StripPadded(u: string, n: nat)
    requires u == "" || u[|u| - 1] != '='
    ensures Strip(u + seq(n, _ => '=')) == u
  {
    var s := u + seq(n, _ => '=');
    if n == 0 {
      assert s == u;
    } else {
      assert s[..|s| - 1] == u + seq(n - 1, _ => '=');
      StripPadded(u, n - 1);
    }
  }

  lemma PaddingIs(n: nat)
    ensures Padding(n) == seq(|Padding(n)|, _ => '=')
    ensures n % 4 != 1 ==> |Padding(n)| <= 2
    ensures (n + |Padding(n)|) % 4 == 0
    decreases if n % 4 == 0 then 0 else 4 - n % 4
  {
    if n % 4 != 0 {
      PaddingIs(n + 1);
    }
  }

  // decoding undoes encoding, padded or not
  lemma DecodeEncode(data: Bytes)
    ensures Decode(Encode(data)) == Ok(data)
    ensures Decode(EncodePadded(data)) == Ok(data)
  {
    hide Sextets, Octets, Padding;
    EncodedText(data);
    var u := Encode(data);
    PaddingIs(|u|);
    StripPadded(u, 0);
    assert u + seq(0, _ => '=') == u;
    StripPadded(u, |Padding(|u|)|);
  }

  lemma EncodedText(data: Bytes)
    ensures var u := Encode(data);
            AllInAlphabet(u) && Octets(Values(u)) == data && |u| % 4 != 1 && (u != "" ==> u[|u| - 1] != '=')
  {
    OctetsOfSextets(data);
    ValuesOfText(Sextets(data));
    var u := Encode(data);
    if u != "" {
      assert InAlphabet(u[|u| - 1]);
    }
  }

  // a successful decoding has three quarters of the length, and encodes back exactly when no bits were dropped
  lemma EncodeDecode(s: string)
    requires Decode(s).Ok?
    ensures |Decode(s).value| == |Strip(s)| * 3 / 4
    ensures Encode(Decode(s).value) == Strip(s) <==> Canonical(Values(Strip(s)))
  {
    var v := Values(Strip(s));
    SextetsOfOctets(v);
    TextOfValues(Strip(s));
    ValuesOfText(Sextets(Octets(v)));
  }

  // ---- what the encoding is: one number, in base 256 and, after enough zero bits, in base 64

  // A-Z, a-z and 0-9 in order, then the two characters of the URL-safe alphabet
  lemma Alphabet(v: Sextet)
    ensures EncodeChar(0) == 'A' && EncodeChar(26) == 'a' && EncodeChar(52) == '0'
    ensures EncodeChar(62) == '-' && EncodeChar(63) == '_'
    ensures v + 1 !in {26, 52, 62, 63, 64} ==> EncodeChar(v + 1) as int == EncodeChar(v) as int + 1
  {
  }

  function Number(v: seq<Sextet>): nat { if v == [] then 0 else Number(v[..|v| - 1]) * 0x40 + v[|v| - 1] }

  lemma {:induction false} NumberConcat(u: seq<Sextet>, v: seq<Sextet>)
    ensures Number(u + v) == Number(u) * Pow(0x40, |v|) + Number(v)
  {
    if v == [] {
      assert u + v == u;
    } else {
      var init, p := v[..|v| - 1], Pow(0x40, |v| - 1);
      assert (u + v)[..|u + v| - 1] == u + init;
      NumberConcat(u, init);
      assert (Number(u) * p) * 0x40 == Number(u) * (0x40 * p);
    }
  }

  // the zero bits that fill the last sextet, as a factor
  function Fill(n: nat): nat { if n % 3 == 0 then 1 else if n % 3 == 1 then 0x10 else 4 }

  lemma {:induction false} EncodedNumber(data: Bytes)
    ensures Number(Sextets(data)) == Digit.FromBigEndian(data) * Fill(|data|)
    ensures Pow(0x40, |Sextets(data)|) == Pow(0x100, |data|) * Fill(|data|)
  {
    if |data| >= 3 {
      hide S0, S1, S2, S3, Number, Digit.FromBigEndian, Fill, Pow;
      var tail := data[3..];
      var d, v := data[..3], Sextets(data)[..4];
      assert d == [data[0], data[1], data[2]] && data == d + tail;
      assert v == [S0(data[0]), S1(data[0], data[1]), S2(data[1], data[2]), S3(data[2])];
      assert Sextets(data) == v + Sextets(tail);
      EncodedNumber(tail);
      Digit.FromBigEndianConcat(d, tail);
      NumberConcat(v, Sextets(tail));
      ThreeOctets(data[0], data[1], data[2]);
      Weights(tail, |Sextets(tail)|, Number(v));
      assert Fill(|data|) == Fill(|tail|) by { SameFill(|tail|); }
    } else {
      LastOctets(data);
    }
  }

  lemma SameFill(n: nat)
    ensures Fill(n + 3) == Fill(n)
  {
  }

  // what a group of three octets adds to the number for the rest
  lemma Weights(tail: Bytes, m: nat, n: nat)
    requires Pow(0x40, m) == Pow(0x100, |tail|) * Fill(|tail|)
    ensures n * Pow(0x40, m) + Digit.FromBigEndian(tail) * Fill(|tail|)
         == (n * Pow(0x100, |tail|) + Digit.FromBigEndian(tail)) * Fill(|tail|)
    ensures Pow(0x40, 4 + m) == Pow(0x100, 3 + |tail|) * Fill(|tail|)
  {
    PowAdd(0x40, 4, m);
    PowAdd(0x100, 3, |tail|);
    assert Pow(0x40, 2) == 0x1000 && Pow(0x40, 4) == 0x100_0000 == Pow(0x100, 3);
    Distribute(n, Pow(0x100, |tail|), Fill(|tail|), Digit.FromBigEndian(tail));
    Distribute(0x100_0000, Pow(0x100, |tail|), Fill(|tail|), 0);
  }

  lemma Distribute(n: int, p: int, f: int, low: int)
    ensures n * (p * f) + low * f == (n * p + low) * f
  {
    assert n * (p * f) == (n * p) * f;
  }

  lemma ShortNumbers(u: Sextet, v: Sextet, w: Sextet, x: Sextet)
    ensures Number([u]) == u && Number([u, v]) == u as int * 0x40 + v
    ensures Number([u, v, w]) == u as int * 0x1000 + v as int * 0x40 + w
    ensures Number([u, v, w, x]) == u as int * 0x4_0000 + v as int * 0x1000 + w as int * 0x40 + x
  {
    assert [u][..0] == [] && [u, v][..1] == [u] && [u, v, w][..2] == [u, v] && [u, v, w, x][..3] == [u, v, w];
  }

  lemma ShortOctets(a: byte, b: byte, c: byte)
    ensures Digit.FromBigEndian([a]) == a && Digit.FromBigEndian([a, b]) == a as int * 0x100 + b
    ensures Digit.FromBigEndian([a, b, c]) == Chunk(a, b, c)
  {
    assert [a][..0] == [] && [a, b][..1] == [a] && [a, b, c][..2] == [a, b];
  }

  lemma ThreeOctets(a: byte, b: byte, c: byte)
    ensures Number([S0(a), S1(a, b), S2(b, c), S3(c)]) == Digit.FromBigEndian([a, b, c])
  {
    hide S0, S1, S2, S3, Number, Digit.FromBigEndian;
    ShortNumbers(S0(a), S1(a, b), S2(b, c), S3(c));
    ShortOctets(a, b, c);
    ChunkDigits(a, b, c);
  }

  lemma TwoLast(a: byte, b: byte)
    ensures Number([S0(a), S1(a, b), S2(b, 0)]) == Digit.FromBigEndian([a, b]) * 4
  {
    hide S0, S1, S2, S3, Number, Digit.FromBigEndian;
    ShortNumbers(S0(a), S1(a, b), S2(b, 0), 0);
    ShortOctets(a, b, 0);
    ChunkDigits(a, b, 0);
    NothingLow(0);
  }

  lemma OneLast(a: byte)
    ensures Number([S0(a), S1(a, 0)]) == Digit.FromBigEndian([a]) * 0x10
  {
    hide S0, S1, S2, S3, Number, Digit.FromBigEndian;
    ShortNumbers(S0(a), S1(a, 0), 0, 0);
    ShortOctets(a, 0, 0);
    ChunkDigits(a, 0, 0);
    NothingLow(0);
  }

  lemma NothingLow(b: byte)
    requires b == 0
    ensures S2(b, 0) == 0 && S3(b) == 0
  {
  }

  lemma LastOctets(data: Bytes)
    requires |data| < 3
    ensures Number(Sextets(data)) == Digit.FromBigEndian(data) * Fill(|data|)
    ensures Pow(0x40, |Sextets(data)|) == Pow(0x100, |data|) * Fill(|data|)
  {
    hide S0, S1, S2, S3, Number, Digit.FromBigEndian;
    assert Pow(0x40, 2) == 0x1000 && Pow(0x40, 3) == 0x4_0000 && Pow(0x100, 2) == 0x1_0000;
    if |data| == 2 {
      assert data == [data[0], data[1]];
      TwoLast(data[0], data[1]);
    } else if |data| == 1 {
      assert data == [data[0]];
      OneLast(data[0]);
    } else {
      NoDigits();
    }
  }

  lemma NoDigits()
    ensures Number([]) == 0 && Digit.FromBigEndian([]) == 0
  {
  }

  // the encoded text has neither comma nor quote nor backslash, and padding fills up its last group of four
  lemma EncodedIsPlain(data: Bytes)
    ensures var u := EncodePadded(data); forall i | 0 <= i < |u| :: InAlphabet(u[i]) || u[i] == '='
    ensures data != [] ==> Encode(data) != ""
    ensures |EncodePadded(data)| % 4 == 0 && |EncodePadded(data)| <= |Encode(data)| + 2
  {
    OctetsOfSextets(data);
    ValuesOfText(Sextets(data));
    PaddingIs(|Encode(data)|);
  }

  // ---- the operations as the source performs them

  // three octets in a 24-bit chunk, and the character for the six bits at a weight
  function Chunk(a: byte, b: byte, c: byte): nat { a as int * 0x1_0000 + b as int * 0x100 + c }

  function Letter(chunk: nat, weight: nat): char
    requires weight > 0
  {
    EncodeChar(chunk / weight % 0x40)
  }

  lemma Letters(a: byte, b: byte, c: byte)
    ensures Letter(Chunk(a, b, c), 0x4_0000) == EncodeChar(S0(a))
    ensures Letter(Chunk(a, b, c), 0x1000) == EncodeChar(S1(a, b))
    ensures Letter(Chunk(a, b, c), 0x40) == EncodeChar(S2(b, c))
    ensures Letter(Chunk(a, b, c), 1) == EncodeChar(S3(c))
  {
    hide EncodeChar, S0, S1, S2, S3;
    ChunkDigits(a, b, c);
    Digits(Chunk(a, b, c), S0(a), S1(a, b), S2(b, c), S3(c));
  }

  lemma ChunkDigits(a: byte, b: byte, c: byte)
    ensures Chunk(a, b, c) == S0(a) as int * 0x4_0000 + S1(a, b) as int * 0x1000 + S2(b, c) as int * 0x40 + S3(c)
  {
  }

  lemma Digits(n: nat, u: Sextet, v: Sextet, w: Sextet, x: Sextet)
    requires n == u as int * 0x4_0000 + v as int * 0x1000 + w as int * 0x40 + x
    ensures n / 0x4_0000 % 0x40 == u && n / 0x1000 % 0x40 == v && n / 0x40 % 0x40 == w && n / 1 % 0x40 == x
  {
    TopDigit(n / 0x40 / 0x40, u, v);
    TopDigit(n / 0x40, u as int * 0x40 + v, w);
    TopDigit(n, u as int * 0x1000 + v as int * 0x40 + w, x);
  }

  lemma TopDigit(n: nat, q: nat, d: Sextet)
    ensures n == q * 0x40 + d ==> n / 0x40 == q && n % 0x40 == d
  {
  }

  lemma GroupEncoded(data: Bytes, chunk: nat)
    requires |data| >= 3 && chunk == Chunk(data[0], data[1], data[2])
    ensures Encode(data)
         == [Letter(chunk, 0x4_0000), Letter(chunk, 0x1000), Letter(chunk, 0x40), Letter(chunk, 1)] + Encode(data[3..])
  {
    hide S0, S1, S2, S3, EncodeChar, Letter, Chunk;
    Letters(data[0], data[1], data[2]);
  }

  lemma PairEncoded(data: Bytes, chunk: nat)
    requires |data| == 2 && chunk == Chunk(data[0], data[1], 0)
    ensures Encode(data) == [Letter(chunk, 0x4_0000), Letter(chunk, 0x1000), Letter(chunk, 0x40)]
  {
    hide S0, S1, S2, S3, EncodeChar, Letter, Chunk;
    Letters(data[0], data[1], 0);
  }

  lemma OctetEncoded(data: Bytes, chunk: nat)
    requires |data| == 1 && chunk == Chunk(data[0], 0, 0)
    ensures Encode(data) == [Letter(chunk, 0x4_0000), Letter(chunk, 0x1000)]
  {
    hide S0, S1, S2, S3, EncodeChar, Letter, Chunk;
    Letters(data[0], 0, 0);
  }

  method EncodeBytes(data: Bytes) returns (result: string)
    ensures result == Encode(data)
  {
    hide Encode, Letter, Chunk;
    result := "";
    if |data| == 0 {
      EmptyEncoded();
      return;
    }
    var i := 0;
    while i + 3 <= |data|
      invariant i <= |data|
      invariant result + Encode(data[i..]) == Encode(data)
    {
      var chunk := Chunk(data[i], data[i + 1], data[i + 2]);
      GroupEncoded(data[i..], chunk);
      assert data[i..][3..] == data[i + 3..];
      result := result + [Letter(chunk, 0x4_0000), Letter(chunk, 0x1000), Letter(chunk, 0x40), Letter(chunk, 1)];
      i := i + 3;
    }
    var remaining := |data| - i;
    if remaining == 1 {
      var chunk := Chunk(data[i], 0, 0);
      OctetEncoded(data[i..], chunk);
      result := result + [Letter(chunk, 0x4_0000), Letter(chunk, 0x1000)];
    } else if remaining == 2 {
      var chunk := Chunk(data[i], data[i + 1], 0);
      PairEncoded(data[i..], chunk);
      result := result + [Letter(chunk, 0x4_0000), Letter(chunk, 0x1000), Letter(chunk, 0x40)];
    } else {
      assert data[i..] == [];
      EmptyEncoded();
    }
  }

  lemma EmptyEncoded()
    ensures Encode([]) == ""
  {
  }

  method EncodePaddedBytes(data: Bytes) returns (result: string)
    ensures result == EncodePadded(data)
  {
    hide Encode;
    result := EncodeBytes(data);
    while |result| % 4 != 0
      invariant result + Padding(|result|) == EncodePadded(data)
      decreases |EncodePadded(data)| - |result|
    {
      assert result + ("=" + Padding(|result| + 1)) == (result + "=") + Padding(|result| + 1);
      result := result + "=";
    }
  }

  // ---- decoding, six bits at a time through a buffer of 32 bits

  function Shift(buffer: uint32, x: Sextet): uint32 { buffer as int * 0x40 % 0x1_0000_0000 + x }

  // two octets of the buffer are what its last two sextets say, whatever has been shifted out at the top
  lemma ShiftedOctets(buffer: uint32, x: Sextet)
    ensures var last: Sextet := buffer % 0x40; var b := Shift(buffer, x);
            b % 0x40 == x && b / 16 % 0x100 == O0(last, x) && b / 4 % 0x100 == O1(last, x) && b % 0x100 == O2(last, x)
  {
    ShiftedLow(buffer, x);
    var last: Sextet, b := buffer % 0x40, Shift(buffer, x);
    LowDigits(b, last, x);
  }

  lemma ShiftedLow(buffer: uint32, x: Sextet)
    ensures Shift(buffer, x) % 0x1000 == (buffer % 0x40) as int * 0x40 + x
  {
    var high, last := buffer / 0x40, buffer % 0x40;
    var lost := buffer as int * 0x40 / 0x1_0000_0000;
    Mod4096(Shift(buffer, x), high - lost * 0x10_0000, last as int * 0x40 + x);
  }

  lemma LowDigits(b: nat, last: Sextet, x: Sextet)
    requires b % 0x1000 == last as int * 0x40 + x
    ensures b % 0x40 == x && b / 16 % 0x100 == O0(last, x) && b / 4 % 0x100 == O1(last, x) && b % 0x100 == O2(last, x)
  {
    var high := b / 0x1000;
    assert b == high * 0x1000 + last as int * 0x40 + x;
    TopDigit(b, high * 0x40 + last, x);
    MiddleDigits(b, high, last, x);
  }

  lemma MiddleDigits(b: nat, high: nat, last: Sextet, x: Sextet)
    requires b == high * 0x1000 + last as int * 0x40 + x
    ensures b / 16 % 0x100 == O0(last, x) && b / 4 % 0x100 == O1(last, x) && b % 0x100 == O2(last, x)
  {
    assert b / 16 == high * 0x100 + O0(last, x);
    Mod256(b / 16, high, O0(last, x));
    assert b / 4 == (high * 4 + last / 16) * 0x100 + O1(last, x);
    Mod256(b / 4, high * 4 + last / 16, O1(last, x));
    assert b == (high * 0x10 + last / 4) * 0x100 + O2(last, x);
    Mod256(b, high * 0x10 + last / 4, O2(last, x));
  }

  lemma Mod256(n: int, q: int, r: nat)
    requires r < 0x100 && n == q * 0x100 + r
    ensures n % 0x100 == r
  {
  }

  lemma Mod4096(n: int, q: int, r: nat)
    requires r < 0x1000 && n == q * 0x1000 + r
    ensures n % 0x1000 == r
  {
  }

  // what one more sextet adds after n of them, the last being last
  function Emitted(n: nat, last: Sextet, x: Sextet): Bytes {
    if n % 4 == 0 then [] else if n % 4 == 1 then [O0(last, x)] else if n % 4 == 2 then [O1(last, x)] else [O2(last, x)]
  }

  function Last(v: seq<Sextet>): Sextet { if v == [] then 0 else v[|v| - 1] }

  lemma {:induction false} OctetsAppend(v: seq<Sextet>, x: Sextet)
    ensures Octets(v + [x]) == Octets(v) + Emitted(|v|, Last(v), x)
  {
    hide O0, O1, O2;
    if |v| >= 4 {
      hide Emitted;
      OctetsAppend(v[4..], x);
      assert (v + [x])[4..] == v[4..] + [x];
      EmittedAgain(v, x);
      assert Octets(v) == Octets(v)[..3] + Octets(v[4..]);
    } else if |v| == 3 {
      assert (v + [x])[4..] == [];
    }
  }

  lemma EmittedAgain(v: seq<Sextet>, x: Sextet)
    requires |v| >= 4
    ensures Emitted(|v[4..]|, Last(v[4..]), x) == Emitted(|v|, Last(v), x)
  {
    hide O0, O1, O2;
    assert |v| % 4 == |v[4..]| % 4;
  }

  method DecodeString(encoded: string) returns (r: Result<Bytes>)
    ensures r == Decode(encoded)
  {
    hide Shift, ShiftRight, Emitted, Octets, Pending, DecodeChar;
    NothingPending();
    if encoded == "" {
      return Ok([]);
    }
    var rest, padding := encoded, 0;
    while rest != "" && rest[|rest| - 1] == '='
      invariant Strip(rest) == Strip(encoded) && |rest| + padding == |encoded|
      decreases |rest|
    {
      rest := rest[..|rest| - 1];
      padding := padding + 1;
    }
    if padding > 2 || '=' in rest || |rest| % 4 == 1 {
      EqualsSign(rest);
      return Err(INVALID_BASE64);
    }
    if rest == "" {
      return Ok([]);
    }
    var result: Bytes, buffer: uint32, bits: nat := [], 0, 0;
    for i := 0 to |rest|
      invariant AllInAlphabet(rest[..i])
      invariant bits == Pending(i) && buffer % 0x40 == Last(Values(rest[..i]))
      invariant result == Octets(Values(rest[..i]))
    {
      var val := DecodeChar(rest[i]);
      if val == 255 {
        return Err(INVALID_BASE64);
      }
      DecodedIsSextet(rest[i]);
      assert rest[..i + 1] == rest[..i] + [rest[i]];
      assert Values(rest[..i + 1]) == Values(rest[..i]) + [val];
      OctetsAppend(Values(rest[..i]), val);
      EmittedIs(i, buffer, val);
      buffer := Shift(buffer, val);
      bits := bits + 6;
      if bits >= 8 {
        bits := bits - 8;
        result := result + [ShiftRight(buffer, bits) % 0x100];
      }
    }
    assert rest[..|rest|] == rest;
    assert Decodable(encoded);
    r := Ok(result);
  }

  // the bits waiting in the buffer after n sextets
  function Pending(n: nat): nat {
    if n % 4 == 0 then 0 else if n % 4 == 1 then 6 else if n % 4 == 2 then 4 else 2
  }

  function ShiftRight(buffer: uint32, bits: nat): nat {
    if bits == 0 then buffer else ShiftRight(buffer / 2, bits - 1)
  }

  lemma Shifts(b: uint32)
    ensures ShiftRight(b, 0) == b && ShiftRight(b, 2) == b / 4 && ShiftRight(b, 4) == b / 16
  {
    assert ShiftRight(b / 4, 2) == b / 4 / 2 / 2 == b / 16;
    assert ShiftRight(b, 4) == ShiftRight(b / 2, 3) == ShiftRight(b / 2 / 2, 2);
  }

  // once eight bits have come together, the buffer shifted right is the next octet
  lemma EmittedIs(n: nat, buffer: uint32, x: Sextet)
    ensures
      var bits := Pending(n) + 6;
      var b := Shift(buffer, x);
      && b % 0x40 == x && Pending(n + 1) == (if bits >= 8 then bits - 8 else bits)
      && Emitted(n, buffer % 0x40, x) == if bits >= 8 then [ShiftRight(b, bits - 8) % 0x100] else []
  {
    hide Shift, O0, O1, O2, ShiftRight;
    ShiftedOctets(buffer, x);
    Shifts(Shift(buffer, x));
  }

  lemma NothingPending()
    ensures Octets([]) == [] && Pending(0) == 0
  {
  }

  lemma EqualsSign(s: string)
    ensures '=' in s ==> !AllInAlphabet(s)
  {
    assert !InAlphabet('=');
  }
}
