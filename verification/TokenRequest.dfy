// Token requests, single and in batches: src/core/token_request.cpp.
module TokenRequests {
  import opened Types
  import opened Octets
  import opened Wire
  import opened Batches

  datatype TokenRequest = TokenRequest(tokenType: TokenType, truncatedTokenKeyId: byte, blindedMsg: Bytes)

  function PrintRequest(r: TokenRequest): Bytes {
    U16(r.tokenType) + ([r.truncatedTokenKeyId] + r.blindedMsg)
  }

  function ParseRest(s: Bytes, tokenType: TokenType): (r: Result<TokenRequest>)
    ensures r.Ok? ==> r.value.tokenType == tokenType
  {
    var (keyId, s2) :- ParseU8(s).OrElse(UNEXPECTED_END);
    var (blinded, rest) :- ParseBytes(s2, BlindedElementSize(tokenType)).OrElse(UNEXPECTED_END);
    if rest != [] then Err(MALFORMED_DATA) else Ok(TokenRequest(tokenType, keyId, blinded))
  }

  function ParseRequest(s: Bytes): Result<TokenRequest> {
    var (tokenType, s1) :- ParseU16(s).OrElse(UNEXPECTED_END);
    ParseRest(s1, tokenType)
  }

  // Exactly the printed requests whose blinded message has its type's size are accepted. A type that is not known
  // has size 0 and passes with an empty message.
  lemma RequestParses(s: Bytes, r: TokenRequest)
    ensures ParseRequest(s) == Ok(r) <==> s == PrintRequest(r) && |r.blindedMsg| == BlindedElementSize(r.tokenType)
  {
    hide BlindedElementSize, ParseU16, U16, ParseRest;
    U16Parses(s, r.tokenType, [r.truncatedTokenKeyId] + r.blindedMsg);
    KeyIdParses([r.truncatedTokenKeyId] + r.blindedMsg, r);
    if ParseRequest(s) == Ok(r) {
      var read := ParseU16(s).value;
      U16Parses(s, read.0, read.1);
      KeyIdParses(read.1, r);
    }
  }

  // where each field of a request stands
  lemma RequestLayout(r: TokenRequest)
    ensures var s := PrintRequest(r);
            s[..2] == BigEndian(r.tokenType, 2) && s[2] == r.truncatedTokenKeyId && s[3..] == r.blindedMsg
  {
    ReadsBigEndian([], r.tokenType);
    assert r.tokenType % 0x1_0000 == r.tokenType;
  }

  lemma KeyIdParses(s: Bytes, r: TokenRequest)
    ensures ParseRest(s, r.tokenType) == Ok(r)
       <==> s == [r.truncatedTokenKeyId] + r.blindedMsg && |r.blindedMsg| == BlindedElementSize(r.tokenType)
  {
    hide BlindedElementSize;
    if s == [r.truncatedTokenKeyId] + r.blindedMsg {
      assert s[1..] == r.blindedMsg;
    }
    if s != [] {
      assert s == [s[0]] + s[1..];
      BytesParse(s[1..], r.blindedMsg, []);
    }
  }

  // ---- batches

  function PredictRequest(s: Bytes): Result<Size> {
    if |s| < 3 then Err(UNEXPECTED_END)
    else
      var tokenType := s[0] as int * 0x100 + s[1];
      if BlindedElementSize(tokenType) == 0 then Err(UNSUPPORTED_TOKEN_TYPE)
      else Ok(2 + 1 + BlindedElementSize(tokenType))
  }

  const REQUESTS: Format<TokenRequest> := Format(PredictRequest, ParseRequest, PrintRequest)

  predicate WellSized(r: TokenRequest) { |r.blindedMsg| == BlindedElementSize(r.tokenType) > 0 }

  lemma ReadableRequest(r: TokenRequest)
    ensures Readable(REQUESTS, r) <==> WellSized(r)
  {
    hide BlindedElementSize;
    var p := PrintRequest(r);
    RequestParses(p, r);
    forall rest: Bytes
      ensures PredictRequest(p + rest) == if BlindedElementSize(r.tokenType) == 0 then Err(UNSUPPORTED_TOKEN_TYPE)
                                          else Ok(2 + 1 + BlindedElementSize(r.tokenType))
    {
      assert (p + rest)[0] == p[0] && (p + rest)[1] == p[1];
    }
    assert PredictRequest(p + []) == REQUESTS.predict(p + []);
  }

  lemma RequestsExact()
    ensures Exact(REQUESTS)
  {
    forall s: Bytes, size: Size, r: TokenRequest
      | REQUESTS.predict(s) == Ok(size) && size <= |s| && REQUESTS.parse(s[..size]) == Ok(r)
      ensures s[..size] == REQUESTS.print_(r) && Readable(REQUESTS, r)
    {
      RequestParses(s[..size], r);
      ReadableRequest(r);
    }
  }

  predicate AllWellSized(rs: seq<TokenRequest>) { forall i | 0 <= i < |rs| :: WellSized(rs[i]) }

  // the shortest element has 32 octets, and 65535 is less than 35 times 10000
  const LEAST_REQUEST: nat := 35

  lemma {:induction false} RequestsAreLong(rs: seq<TokenRequest>)
    requires AllWellSized(rs)
    ensures |Payload(REQUESTS, rs)| >= LEAST_REQUEST * |rs|
  {
    if rs != [] {
      assert WellSized(rs[0]);
      RequestsAreLong(rs[1..]);
    }
  }

  // A batch of requests comes back exactly when every blinded message has its type's size and the payload fits;
  // the limit of 10000 requests needs no mention.
  lemma RequestBatchRoundTrip(rs: seq<TokenRequest>)
    ensures ParseBatch(REQUESTS, PrintBatch(REQUESTS, rs)) == Ok(rs)
       <==> AllWellSized(rs) && |Payload(REQUESTS, rs)| <= MAX_BATCH_PAYLOAD_SIZE
  {
    RequestsExact();
    BatchRoundTrip(REQUESTS, rs);
    forall i | 0 <= i < |rs| ensures Readable(REQUESTS, rs[i]) <==> WellSized(rs[i]) {
      ReadableRequest(rs[i]);
    }
    if AllWellSized(rs) {
      RequestsAreLong(rs);
    }
  }

  // on every input, well-formed or not, parsing without that limit gives the same
  lemma RequestLimitNeverFires(s: Bytes, limit: nat)
    requires limit >= MAX_BATCH_SIZE
    ensures var payload := ParsePayload(s);
            payload.Ok? ==> ParseBatch(REQUESTS, s) == ParseElements(REQUESTS, payload.value, 0, limit)
  {
    if ParsePayload(s).Ok? {
      var payload := ParsePayload(s).value;
      forall t: Bytes, size: Size | REQUESTS.predict(t) == Ok(size) ensures size >= LEAST_REQUEST {
      }
      LimitUnreached(REQUESTS, payload, 0, MAX_BATCH_SIZE, limit, LEAST_REQUEST);
    }
  }

  // ---- the operations as the source performs them

  method SerializeRequest(r: TokenRequest) returns (data: Bytes)
    ensures data == PrintRequest(r)
  {
    hide U16, ByteWriter.Room, ByteWriter.View, ByteWriter.Valid;
    var writer := new ByteWriter();
    var ok := writer.WriteU16(r.tokenType);
    ok := writer.WriteU8(r.truncatedTokenKeyId);
    ok := writer.WriteBytes(r.blindedMsg);
    data := writer.View();
  }

  method DeserializeRequest(data: Bytes) returns (r: Result<TokenRequest>)
    ensures r == ParseRequest(data)
  {
    hide BlindedElementSize;
    var reader := new ByteReader(data);
    var tokenType := reader.ReadU16();
    if tokenType == None {
      return Err(UNEXPECTED_END);
    }
    var keyId := reader.ReadU8();
    if keyId == None {
      return Err(UNEXPECTED_END);
    }
    var blinded := reader.ReadBytes(BlindedElementSize(tokenType.value));
    if blinded == None {
      return Err(UNEXPECTED_END);
    }
    var empty := reader.Empty();
    if !empty {
      return Err(MALFORMED_DATA);
    }
    r := Ok(TokenRequest(tokenType.value, keyId.value, blinded.value));
  }

  method PayloadSize(rs: seq<TokenRequest>) returns (size: nat)
    ensures size == |Payload(REQUESTS, rs)|
  {
    size := 0;
    for i := 0 to |rs|
      invariant size == |Payload(REQUESTS, rs[..i])|
    {
      PayloadSnoc(REQUESTS, rs, i);
      size := size + (2 + 1 + |rs[i].blindedMsg|);
    }
    assert rs[..|rs|] == rs;
  }

  method BatchSerializedSize(rs: seq<TokenRequest>) returns (size: nat)
    ensures size == |PrintBatch(REQUESTS, rs)|
  {
    var payloadSize := PayloadSize(rs);
    size := VarintSize(payloadSize % 0x1_0000_0000_0000_0000) + payloadSize;
  }

  lemma RequestSnoc(rs: seq<TokenRequest>, i: nat)
    requires i < |rs|
    ensures Payload(REQUESTS, rs[..i + 1]) == Payload(REQUESTS, rs[..i]) + PrintRequest(rs[i])
  {
    PayloadSnoc(REQUESTS, rs, i);
  }

  method WriteRequest(writer: ByteWriter, r: TokenRequest)
    requires writer.Valid() && writer.external == null
    modifies writer
    ensures writer.Valid() && writer.View() == old(writer.View()) + PrintRequest(r)
  {
    hide PrintRequest, ByteWriter.Room, ByteWriter.View, ByteWriter.Valid;
    var serialized := SerializeRequest(r);
    var ok := writer.WriteBytes(serialized);
  }

  method WriteRequests(writer: ByteWriter, rs: seq<TokenRequest>)
    requires writer.Valid() && writer.external == null
    modifies writer
    ensures writer.Valid() && writer.View() == old(writer.View()) + Payload(REQUESTS, rs)
  {
    hide Payload, PrintRequest;
    PayloadStart(REQUESTS, rs);
    for i := 0 to |rs|
      invariant writer.Valid() && writer.View() == old(writer.View()) + Payload(REQUESTS, rs[..i])
    {
      RequestSnoc(rs, i);
      WriteRequest(writer, rs[i]);
    }
    assert rs[..|rs|] == rs;
  }

  method SerializeBatch(rs: seq<TokenRequest>) returns (data: Bytes)
    ensures data == PrintBatch(REQUESTS, rs)
  {
    hide Payload, Varint, VarintSize, ByteWriter.Room, ByteWriter.View, ByteWriter.Valid;
    var writer := new ByteWriter();
    var payloadSize := PayloadSize(rs);
    var ok := writer.WriteVarint(payloadSize % 0x1_0000_0000_0000_0000);
    WriteRequests(writer, rs);
    data := writer.View();
  }

  method ReadRequest(reader: ByteReader) returns (r: Result<TokenRequest>)
    requires reader.Valid()
    modifies reader
    ensures reader.Valid()
    ensures match ParseFirst(REQUESTS, old(reader.Rest()))
            case Err(error) => r == Err(error)
            case Ok((request, rest)) => r == Ok(request) && reader.Rest() == rest
  {
    hide BlindedElementSize, ParseRequest;
    var remaining := reader.Rest();
    if |remaining| < 3 {
      return Err(UNEXPECTED_END);
    }
    var blindedSize := BlindedElementSize(remaining[0] as int * 0x100 + remaining[1]);
    if blindedSize == 0 {
      return Err(UNSUPPORTED_TOKEN_TYPE);
    }
    var requestSize := 2 + 1 + blindedSize;
    var text := reader.ReadBytes(requestSize);
    if text == None {
      return Err(UNEXPECTED_END);
    }
    r := DeserializeRequest(text.value);
  }

  method DeserializeBatch(data: Bytes) returns (r: Result<seq<TokenRequest>>)
    ensures r == ParseBatch(REQUESTS, data)
  {
    hide ParsePayload, ParseElements, ParseFirst, Prepend;
    var payload := ReadPayload(data);
    if payload.Err? {
      return Err(payload.error);
    }
    var reader := new ByteReader(payload.value);
    var requests: seq<TokenRequest> := [];
    PrependNothing(ParseElements(REQUESTS, payload.value, 0, MAX_BATCH_SIZE));
    var done := reader.Empty();
    while !done
      invariant reader.Valid() && fresh(reader) && (done <==> reader.Rest() == [])
      invariant Prepend(requests, ParseElements(REQUESTS, reader.Rest(), |requests|, MAX_BATCH_SIZE))
             == ParseElements(REQUESTS, payload.value, 0, MAX_BATCH_SIZE)
      decreases |reader.Rest()|
    {
      ElementsEnd(REQUESTS, reader.Rest(), requests, MAX_BATCH_SIZE);
      if |requests| >= MAX_BATCH_SIZE {
        return Err(MALFORMED_DATA);
      }
      ElementRead(REQUESTS, reader.Rest(), requests, MAX_BATCH_SIZE);
      var request := ReadRequest(reader);
      if request.Err? {
        return Err(request.error);
      }
      requests := requests + [request.value];
      done := reader.Empty();
    }
    ElementsEnd(REQUESTS, reader.Rest(), requests, MAX_BATCH_SIZE);
    r := Ok(requests);
  }
}
