// The common shape of the two batch formats: a payload length as a varint, then elements whose sizes the parser
// predicts from their headers. src/core/token_request.cpp:109-164 and src/core/token_response.cpp:195-259.
module Batches {
  import opened Types
  import opened Wire

  type Size = n: nat | n > 0 witness 1

  const MAX_BATCH_SIZE: nat := 10000
  const MAX_BATCH_PAYLOAD_SIZE: nat := 65535

  // predict gives the size of the element that starts a text, parse reads one element of exactly that text
  datatype Format<!E> = Format(predict: Bytes -> Result<Size>, parse: Bytes -> Result<E>, print_: E -> Bytes)

  function ParseFirst<E>(f: Format<E>, s: Bytes): (r: Result<(E, Bytes)>)
    ensures r.Ok? ==> |r.value.1| < |s|
  {
    var size :- f.predict(s);
    var (text, rest) :- ParseBytes(s, size).OrElse(UNEXPECTED_END);
    var element :- f.parse(text);
    Ok((element, rest))
  }

  // count elements having been read already
  function ParseElements<E>(f: Format<E>, s: Bytes, count: nat, limit: nat): Result<seq<E>>
    decreases |s|
  {
    if s == [] then Ok([])
    else if count >= limit then Err(MALFORMED_DATA)
    else
      var (element, rest) :- ParseFirst(f, s);
      Prepend([element], ParseElements(f, rest, count + 1, limit))
  }

  function ParsePayload(s: Bytes): Result<Bytes> {
    var (size, rest) :- ParseVarint(s).OrElse(UNEXPECTED_END);
    if size > MAX_BATCH_PAYLOAD_SIZE then Err(MALFORMED_DATA)
    else
      var (payload, tail) :- ParseBytes(rest, size).OrElse(UNEXPECTED_END);
      if tail != [] then Err(MALFORMED_DATA) else Ok(payload)
  }

  function ParseBatch<E>(f: Format<E>, s: Bytes): Result<seq<E>> {
    var payload :- ParsePayload(s);
    ParseElements(f, payload, 0, MAX_BATCH_SIZE)
  }

  function Payload<E>(f: Format<E>, elements: seq<E>): Bytes {
    if elements == [] then [] else f.print_(elements[0]) + Payload(f, elements[1..])
  }

  // the payload size is a size_t
  function PrintBatch<E>(f: Format<E>, elements: seq<E>): Bytes {
    var payload := Payload(f, elements);
    Varint(|payload| % 0x1_0000_0000_0000_0000) + payload
  }

  // ---- elements whose predicted size is the printed one

  // e is read back when it is followed by anything
  ghost predicate Readable<E>(f: Format<E>, e: E) {
    && f.print_(e) != [] && f.parse(f.print_(e)) == Ok(e)
    && forall rest: Bytes :: f.predict(f.print_(e) + rest) == Ok(|f.print_(e)|)
  }

  ghost predicate AllReadable<E>(f: Format<E>, elements: seq<E>) {
    forall i | 0 <= i < |elements| :: Readable(f, elements[i])
  }

  // what the format reads at the start of a text is the printed form of a readable element
  ghost predicate Exact<E(!new)>(f: Format<E>) {
    forall s: Bytes, size: Size, e: E ::
      f.predict(s) == Ok(size) && size <= |s| && f.parse(s[..size]) == Ok(e) ==>
        s[..size] == f.print_(e) && Readable(f, e)
  }

  lemma {:induction false} PrintedElementsParse<E>(f: Format<E>, elements: seq<E>, count: nat, limit: nat)
    requires AllReadable(f, elements) && count + |elements| <= limit
    ensures ParseElements(f, Payload(f, elements), count, limit) == Ok(elements)
  {
    hide ParseBytes;
    if elements != [] {
      var e, rest := elements[0], Payload(f, elements[1..]);
      var s := f.print_(e) + rest;
      assert Readable(f, e);
      assert f.predict(s) == Ok(|f.print_(e)|);
      BytesParse(s, f.print_(e), rest);
      PrintedElementsParse(f, elements[1..], count + 1, limit);
      assert elements == [e] + elements[1..];
    }
  }

  lemma FirstElement<E>(f: Format<E>, s: Bytes, count: nat, limit: nat) returns (size: Size, e: E, tail: seq<E>)
    requires ParseElements(f, s, count, limit).Ok? && s != []
    ensures count < limit && size <= |s| && f.predict(s) == Ok(size) && f.parse(s[..size]) == Ok(e)
    ensures ParseElements(f, s[size..], count + 1, limit) == Ok(tail)
    ensures ParseElements(f, s, count, limit) == Ok([e] + tail)
  {
    size := f.predict(s).value;
    e, tail := f.parse(s[..size]).value, ParseElements(f, s[size..], count + 1, limit).value;
  }

  lemma PayloadCons<E>(f: Format<E>, e: E, tail: seq<E>)
    ensures Payload(f, [e] + tail) == f.print_(e) + Payload(f, tail)
    ensures Readable(f, e) && AllReadable(f, tail) ==> AllReadable(f, [e] + tail)
  {
    assert ([e] + tail)[1..] == tail;
  }

  lemma {:induction false} ParsedElementsPrint<E(!new)>(f: Format<E>, s: Bytes, count: nat, limit: nat)
    requires Exact(f) && ParseElements(f, s, count, limit).Ok? && count <= limit
    ensures var elements := ParseElements(f, s, count, limit).value;
            s == Payload(f, elements) && AllReadable(f, elements) && count + |elements| <= limit
    decreases |s|
  {
    if s != [] {
      hide ParseElements, Payload, Readable, AllReadable;
      var size, e, tail := FirstElement(f, s, count, limit);
      ParsedElementsPrint(f, s[size..], count + 1, limit);
      PayloadCons(f, e, tail);
      assert s == s[..size] + s[size..];
    }
  }

  // elements of at least this length cannot reach the limit
  ghost predicate TooShort(length: nat, count: nat, limit: nat, least: nat) { length + least * count <= least * limit }

  lemma Scaled(k: nat, a: nat, b: nat)
    ensures a <= b ==> k * a <= k * b
  {
  }

  lemma TooShortStep(length: nat, size: nat, count: nat, limit: nat, least: nat)
    requires TooShort(length, count, limit, least) && least > 0 && length > 0
    ensures count < limit
    ensures least <= size <= length ==> TooShort(length - size, count + 1, limit, least)
  {
    Scaled(least, limit, count);
    assert least * (count + 1) == least * count + least;
  }

  // so what the limit is makes no difference to them
  lemma {:induction false} LimitUnreached<E>(f: Format<E>, s: Bytes, count: nat, limit: nat, other: nat, least: nat)
    requires forall t: Bytes, size: Size :: f.predict(t) == Ok(size) ==> size >= least
    requires TooShort(|s|, count, limit, least) && TooShort(|s|, count, other, least) && least > 0
    ensures ParseElements(f, s, count, limit) == ParseElements(f, s, count, other)
    decreases |s|
  {
    hide TooShort, Prepend;
    if s != [] {
      var size := if f.predict(s).Ok? then f.predict(s).value else 1;
      TooShortStep(|s|, size, count, limit, least);
      TooShortStep(|s|, size, count, other, least);
      if f.predict(s).Ok? && size <= |s| {
        LimitUnreached(f, s[size..], count + 1, limit, other, least);
      }
    }
  }

  lemma PayloadParses(s: Bytes, payload: Bytes)
    ensures ParsePayload(s) == Ok(payload)
       <==> |payload| <= MAX_BATCH_PAYLOAD_SIZE && ParseVarint(s) == Some((|payload|, payload))
  {
    hide ParseVarint;
    match ParseVarint(s)
    case None =>
    case Some((size, rest)) =>
      if size == |rest| {
        assert rest[..size] == rest && rest[size..] == [];
      } else if size < |rest| {
        assert rest[size..] != [];
      }
  }

  // a printed payload is read back when it is not too large, and refused as malformed when it is
  lemma PrintedPayload(payload: Bytes)
    ensures ParsePayload(Varint(|payload| % 0x1_0000_0000_0000_0000) + payload)
         == if |payload| <= MAX_BATCH_PAYLOAD_SIZE then Ok(payload) else Err(MALFORMED_DATA)
  {
    hide ParseVarint, Varint;
    var s := Varint(|payload| % 0x1_0000_0000_0000_0000) + payload;
    VarintRoundTrip(|payload| % 0x1_0000_0000_0000_0000, payload);
    PayloadParses(s, payload);
  }

  // A batch comes back exactly when its elements are readable, not too many and not too long together.
  lemma BatchRoundTrip<E(!new)>(f: Format<E>, elements: seq<E>)
    requires Exact(f)
    ensures ParseBatch(f, PrintBatch(f, elements)) == Ok(elements)
       <==> AllReadable(f, elements) && |elements| <= MAX_BATCH_SIZE && |Payload(f, elements)| <= MAX_BATCH_PAYLOAD_SIZE
    ensures |Payload(f, elements)| > MAX_BATCH_PAYLOAD_SIZE ==>
              ParseBatch(f, PrintBatch(f, elements)) == Err(MALFORMED_DATA)
  {
    hide ParsePayload, Payload, ParseElements, AllReadable;
    var payload := Payload(f, elements);
    PrintedPayload(payload);
    if AllReadable(f, elements) && |elements| <= MAX_BATCH_SIZE {
      PrintedElementsParse(f, elements, 0, MAX_BATCH_SIZE);
    }
    if ParseElements(f, payload, 0, MAX_BATCH_SIZE).Ok? {
      ParsedElementsPrint(f, payload, 0, MAX_BATCH_SIZE);
    }
  }

  // Whatever is accepted as a batch is the elements' printed forms behind some varint, and is printed no longer.
  lemma ParsedBatch<E(!new)>(f: Format<E>, s: Bytes)
    requires Exact(f) && ParseBatch(f, s).Ok?
    ensures var elements := ParseBatch(f, s).value;
            && ParseVarint(s) == Some((|Payload(f, elements)|, Payload(f, elements)))
            && ParseBatch(f, PrintBatch(f, elements)) == Ok(elements) && |PrintBatch(f, elements)| <= |s|
  {
    hide ParsePayload, Payload, ParseElements, ParseVarint, Varint, VarintSize;
    var payload := ParsePayload(s).value;
    PayloadParses(s, payload);
    ParsedElementsPrint(f, payload, 0, MAX_BATCH_SIZE);
    BatchRoundTrip(f, ParseBatch(f, s).value);
    VarintMinimal(|payload|, s, payload);
  }

  // ---- steps of the loops that print and parse

  lemma {:induction false} PayloadOfConcat<E>(f: Format<E>, a: seq<E>, b: seq<E>)
    ensures Payload(f, a + b) == Payload(f, a) + Payload(f, b)
  {
    if a == [] {
      assert a + b == b;
    } else {
      assert (a + b)[1..] == a[1..] + b;
      PayloadOfConcat(f, a[1..], b);
    }
  }

  lemma PayloadSnoc<E>(f: Format<E>, elements: seq<E>, i: nat)
    requires i < |elements|
    ensures Payload(f, elements[..i + 1]) == Payload(f, elements[..i]) + f.print_(elements[i])
  {
    assert elements[..i + 1] == elements[..i] + [elements[i]];
    PayloadOfConcat(f, elements[..i], [elements[i]]);
    assert Payload(f, [elements[i]]) == f.print_(elements[i]);
  }

  lemma PayloadStart<E>(f: Format<E>, elements: seq<E>)
    ensures Payload(f, elements[..0]) == []
  {
  }

  method ReadPayload(data: Bytes) returns (r: Result<Bytes>)
    ensures r == ParsePayload(data)
  {
    var reader := new ByteReader(data);
    var size := reader.ReadVarint();
    if size == None {
      return Err(UNEXPECTED_END);
    }
    if size.value > MAX_BATCH_PAYLOAD_SIZE {
      return Err(MALFORMED_DATA);
    }
    var payload := reader.ReadBytes(size.value);
    if payload == None {
      return Err(UNEXPECTED_END);
    }
    var empty := reader.Empty();
    if !empty {
      return Err(MALFORMED_DATA);
    }
    r := Ok(payload.value);
  }

  lemma ElementRead<E>(f: Format<E>, s: Bytes, done: seq<E>, limit: nat)
    requires s != [] && |done| < limit
    ensures ParseFirst(f, s).Err? ==> Prepend(done, ParseElements(f, s, |done|, limit)) == Err(ParseFirst(f, s).error)
    ensures ParseFirst(f, s).Ok? ==>
      var read := ParseFirst(f, s).value;
      Prepend(done, ParseElements(f, s, |done|, limit))
      == Prepend(done + [read.0], ParseElements(f, read.1, |done| + 1, limit))
  {
    hide ParseFirst;
    if ParseFirst(f, s).Ok? {
      var read := ParseFirst(f, s).value;
      var tail := ParseElements(f, read.1, |done| + 1, limit);
      if tail.Ok? {
        assert done + ([read.0] + tail.value) == done + [read.0] + tail.value;
      }
    }
  }

  lemma ElementsEnd<E>(f: Format<E>, s: Bytes, done: seq<E>, limit: nat)
    ensures s == [] ==> Prepend(done, ParseElements(f, s, |done|, limit)) == Ok(done)
    ensures s != [] && |done| >= limit ==> Prepend(done, ParseElements(f, s, |done|, limit)) == Err(MALFORMED_DATA)
  {
    assert done + [] == done;
  }
}
