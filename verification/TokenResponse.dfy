// Token responses, optional and in batches: src/core/token_response.cpp.
module TokenResponses {
  import opened Types
  import opened Octets
  import opened Wire
  import opened Batches

  datatype Response = BlindRsa(blindSig: Bytes) | Voprf(evaluateMsg: Bytes, evaluateProof: Bytes)
  datatype TokenResponse = TokenResponse(tokenType: TokenType, response: Response)
  datatype OptionalTokenResponse = OptionalTokenResponse(present: bool, response: Option<TokenResponse>)

  const ABSENT := OptionalTokenResponse(false, None)

  function PrintResponse(r: TokenResponse): Bytes {
    match r.response
    case BlindRsa(blindSig) => blindSig
    case Voprf(evaluateMsg, evaluateProof) => evaluateMsg + evaluateProof
  }

  function ParseResponse(tokenType: TokenType, s: Bytes): Result<TokenResponse> {
    if tokenType == BLIND_RSA || tokenType == PARTIALLY_BLIND_RSA then
      if |s| != 256 then Err(INVALID_LENGTH) else Ok(TokenResponse(tokenType, BlindRsa(s)))
    else if tokenType == VOPRF_P384_SHA384 then
      if |s| != 49 + 96 then Err(INVALID_LENGTH) else Ok(TokenResponse(tokenType, Voprf(s[..49], s[49..])))
    else Err(UNSUPPORTED_TOKEN_TYPE)
  }

  predicate WellFormed(r: TokenResponse) {
    match r.response
    case BlindRsa(blindSig) => (r.tokenType == BLIND_RSA || r.tokenType == PARTIALLY_BLIND_RSA) && |blindSig| == 256
    case Voprf(evaluateMsg, evaluateProof) =>
      r.tokenType == VOPRF_P384_SHA384 && |evaluateMsg| == 49 && |evaluateProof| == 96
  }

  lemma ResponseParses(tokenType: TokenType, s: Bytes, r: TokenResponse)
    ensures ParseResponse(tokenType, s) == Ok(r) <==> tokenType == r.tokenType && s == PrintResponse(r) && WellFormed(r)
  {
    if |s| == 145 {
      assert s == s[..49] + s[49..];
    }
    if s == PrintResponse(r) && WellFormed(r) && r.response.Voprf? {
      assert s[..49] == r.response.evaluateMsg && s[49..] == r.response.evaluateProof;
    }
  }

  // ---- a response that may be absent

  function PrintOptional(o: OptionalTokenResponse): Bytes {
    if !o.present || o.response == None then [0]
    else [1] + (U16(o.response.value.tokenType) + PrintResponse(o.response.value))
  }

  function ParseOptional(s: Bytes): Result<OptionalTokenResponse> {
    var (status, s1) :- ParseU8(s).OrElse(UNEXPECTED_END);
    if status != 0 && status != 1 then Err(MALFORMED_DATA)
    else if status == 0 then
      if s1 != [] then Err(MALFORMED_DATA) else Ok(ABSENT)
    else
      var (tokenType, s2) :- ParseU16(s1).OrElse(UNEXPECTED_END);
      var response :- ParseResponse(tokenType, s2);
      Ok(OptionalTokenResponse(true, Some(response)))
  }

  // where each field stands
  lemma ResponseLayout(r: TokenResponse)
    requires WellFormed(r)
    ensures var s := PrintOptional(OptionalTokenResponse(true, Some(r)));
            && s[0] == 1 && s[1..3] == BigEndian(r.tokenType, 2)
            && match r.response
               case BlindRsa(blindSig) => s[3..] == blindSig
               case Voprf(evaluateMsg, evaluateProof) => s[3..52] == evaluateMsg && s[52..] == evaluateProof
    ensures PrintOptional(ABSENT) == [0]
  {
    hide U16, BigEndian;
    ReadsBigEndian([], r.tokenType);
    assert r.tokenType % 0x1_0000 == r.tokenType;
  }

  predicate WellFormedOptional(o: OptionalTokenResponse) {
    o == ABSENT || (o.present && o.response.Some? && WellFormed(o.response.value))
  }

  lemma OptionalParses(s: Bytes, o: OptionalTokenResponse)
    ensures ParseOptional(s) == Ok(o) <==> s == PrintOptional(o) && WellFormedOptional(o)
  {
    hide ParseU16, U16, ParseResponse, WellFormed, PrintResponse;
    if s == PrintOptional(o) && WellFormedOptional(o) && o != ABSENT {
      var r := o.response.value;
      assert s[1..] == U16(r.tokenType) + PrintResponse(r);
      U16Parses(s[1..], r.tokenType, PrintResponse(r));
      ResponseParses(r.tokenType, PrintResponse(r), r);
    }
    if ParseOptional(s) == Ok(o) {
      assert s == [s[0]] + s[1..];
      if o.present {
        var read := ParseU16(s[1..]).value;
        U16Parses(s[1..], read.0, read.1);
        ResponseParses(read.0, read.1, o.response.value);
      }
    }
  }

  // ---- batches

  function PredictResponse(s: Bytes): Result<Size> {
    if s == [] then Err(UNEXPECTED_END)
    else if s[0] == 1 then
      if |s| < 3 then Err(UNEXPECTED_END)
      else
        var tokenType := s[1] as int * 0x100 + s[2];
        if AuthenticatorSize(tokenType) == 0 then Err(UNSUPPORTED_TOKEN_TYPE)
        else Ok(1 + 2 + if tokenType == VOPRF_P384_SHA384 then 145 else AuthenticatorSize(tokenType))
    else if s[0] != 0 then Err(MALFORMED_DATA)
    else Ok(1)
  }

  const RESPONSES: Format<OptionalTokenResponse> := Format(PredictResponse, ParseOptional, PrintOptional)

  // the predicted size is the printed one, for exactly the responses that can be read back
  lemma ReadableResponse(o: OptionalTokenResponse)
    ensures Readable(RESPONSES, o) <==> WellFormedOptional(o)
  {
    var p := PrintOptional(o);
    OptionalParses(p, o);
    if WellFormedOptional(o) {
      forall rest: Bytes ensures PredictResponse(p + rest) == Ok(|p|) {
        assert (p + rest)[0] == p[0];
        if o != ABSENT {
          TypeInHeader(o, p, rest);
        }
      }
    }
  }

  lemma TypeInHeader(o: OptionalTokenResponse, p: Bytes, rest: Bytes)
    requires o.present && o.response.Some? && p == PrintOptional(o)
    ensures var s := p + rest; s[1] as int * 0x100 + s[2] == o.response.value.tokenType
  {
    var t := o.response.value.tokenType;
    assert p[1] == U16(t)[0] && p[2] == U16(t)[1];
    assert (p + rest)[1] == p[1] && (p + rest)[2] == p[2];
  }

  lemma ResponsesExact()
    ensures Exact(RESPONSES)
  {
    forall s: Bytes, size: Size, o: OptionalTokenResponse
      | RESPONSES.predict(s) == Ok(size) && size <= |s| && RESPONSES.parse(s[..size]) == Ok(o)
      ensures s[..size] == RESPONSES.print_(o) && Readable(RESPONSES, o)
    {
      OptionalParses(s[..size], o);
      ReadableResponse(o);
    }
  }

  predicate AllWellFormed(os: seq<OptionalTokenResponse>) { forall i | 0 <= i < |os| :: WellFormedOptional(os[i]) }

  // A batch of responses comes back exactly when each is well formed, there are at most 10000 and the payload fits.
  lemma ResponseBatchRoundTrip(os: seq<OptionalTokenResponse>)
    ensures ParseBatch(RESPONSES, PrintBatch(RESPONSES, os)) == Ok(os)
       <==> AllWellFormed(os) && |os| <= MAX_BATCH_SIZE && |Payload(RESPONSES, os)| <= MAX_BATCH_PAYLOAD_SIZE
  {
    ResponsesExact();
    BatchRoundTrip(RESPONSES, os);
    forall i | 0 <= i < |os| ensures Readable(RESPONSES, os[i]) <==> WellFormedOptional(os[i]) {
      ReadableResponse(os[i]);
    }
  }

  // ---- the operations as the source performs them

  method SerializeOptional(o: OptionalTokenResponse) returns (data: Bytes)
    ensures data == PrintOptional(o)
  {
    hide U16, ByteWriter.Room, ByteWriter.View, ByteWriter.Valid, PrintResponse;
    var writer := new ByteWriter();
    var ok;
    if !o.present || o.response == None {
      ok := writer.WriteU8(0);
    } else {
      ok := writer.WriteU8(1);
      ok := writer.WriteU16(o.response.value.tokenType);
      ok := writer.WriteBytes(PrintResponse(o.response.value));
    }
    data := writer.View();
  }

  method DeserializeOptional(data: Bytes) returns (r: Result<OptionalTokenResponse>)
    ensures r == ParseOptional(data)
  {
    hide ParseResponse;
    var reader := new ByteReader(data);
    var status := reader.ReadU8();
    if status == None {
      return Err(UNEXPECTED_END);
    }
    if status.value != 0 && status.value != 1 {
      return Err(MALFORMED_DATA);
    }
    if status.value == 1 {
      var tokenType := reader.ReadU16();
      if tokenType == None {
        return Err(UNEXPECTED_END);
      }
      var response := ParseResponse(tokenType.value, reader.Rest());
      if response.Err? {
        return Err(response.error);
      }
      return Ok(OptionalTokenResponse(true, Some(response.value)));
    }
    var empty := reader.Empty();
    if !empty {
      return Err(MALFORMED_DATA);
    }
    r := Ok(ABSENT);
  }

  // what serialize returns: INVALID_LENGTH when the sizes add up to more than a size_t holds
  function Serialized(os: seq<OptionalTokenResponse>): Result<Bytes> {
    if |Payload(RESPONSES, os)| >= 0x1_0000_0000_0000_0000 then Err(INVALID_LENGTH) else Ok(PrintBatch(RESPONSES, os))
  }

  lemma ResponseSnoc(os: seq<OptionalTokenResponse>, i: nat)
    requires i < |os|
    ensures Payload(RESPONSES, os[..i + 1]) == Payload(RESPONSES, os[..i]) + PrintOptional(os[i])
    ensures |Payload(RESPONSES, os[..i + 1])| <= |Payload(RESPONSES, os)|
  {
    PayloadSnoc(RESPONSES, os, i);
    assert os[..i + 1] + os[i + 1..] == os;
    PayloadOfConcat(RESPONSES, os[..i + 1], os[i + 1..]);
  }

  // each response serialized once, and the size of them all unless a size_t cannot hold it
  method SerializeAll(os: seq<OptionalTokenResponse>) returns (texts: seq<Bytes>, size: Option<uint64>)
    ensures size == if |Payload(RESPONSES, os)| >= 0x1_0000_0000_0000_0000 then None else Some(|Payload(RESPONSES, os)|)
    ensures size.Some? ==> |texts| == |os| && forall k | 0 <= k < |os| :: texts[k] == PrintOptional(os[k])
  {
    hide Payload, PrintOptional;
    texts := [];
    var payloadSize := 0;
    PayloadStart(RESPONSES, os);
    for i := 0 to |os|
      invariant |texts| == i && forall k | 0 <= k < i :: texts[k] == PrintOptional(os[k])
      invariant payloadSize == |Payload(RESPONSES, os[..i])| < 0x1_0000_0000_0000_0000
    {
      ResponseSnoc(os, i);
      var serialized := SerializeOptional(os[i]);
      if payloadSize > 0xFFFF_FFFF_FFFF_FFFF - |serialized| {
        return texts, None;
      }
      payloadSize := payloadSize + |serialized|;
      texts := texts + [serialized];
    }
    assert os[..|os|] == os;
    size := Some(payloadSize);
  }

  lemma PrintedBatch(os: seq<OptionalTokenResponse>)
    requires |Payload(RESPONSES, os)| < 0x1_0000_0000_0000_0000
    ensures PrintBatch(RESPONSES, os) == Varint(|Payload(RESPONSES, os)|) + Payload(RESPONSES, os)
  {
    hide Payload, Varint;
  }

  method WriteTexts(writer: ByteWriter, os: seq<OptionalTokenResponse>, texts: seq<Bytes>)
    requires writer.Valid() && writer.external == null
    requires |texts| == |os| && forall k | 0 <= k < |os| :: texts[k] == PrintOptional(os[k])
    modifies writer
    ensures writer.Valid() && writer.View() == old(writer.View()) + Payload(RESPONSES, os)
  {
    hide Payload, PrintOptional, ByteWriter.Room, ByteWriter.View, ByteWriter.Valid;
    PayloadStart(RESPONSES, os);
    for i := 0 to |os|
      invariant writer.Valid() && writer.View() == old(writer.View()) + Payload(RESPONSES, os[..i])
    {
      ResponseSnoc(os, i);
      var _ := writer.WriteBytes(texts[i]);
    }
    assert os[..|os|] == os;
  }

  method SerializeBatch(os: seq<OptionalTokenResponse>) returns (r: Result<Bytes>)
    ensures r == Serialized(os)
  {
    hide Payload, PrintOptional, PrintBatch, Varint, VarintSize, ByteWriter.Room, ByteWriter.View, ByteWriter.Valid;
    var texts, payloadSize := SerializeAll(os);
    if payloadSize == None {
      return Err(INVALID_LENGTH);
    }
    var writer := new ByteWriter();
    var _ := writer.WriteVarint(payloadSize.value);
    assert writer.View() == Varint(payloadSize.value);
    WriteTexts(writer, os, texts);
    PrintedBatch(os);
    r := Ok(writer.View());
  }

  method ReadOptional(reader: ByteReader) returns (r: Result<OptionalTokenResponse>)
    requires reader.Valid()
    modifies reader
    ensures reader.Valid()
    ensures match ParseFirst(RESPONSES, old(reader.Rest()))
            case Err(error) => r == Err(error)
            case Ok((response, rest)) => r == Ok(response) && reader.Rest() == rest
  {
    hide AuthenticatorSize, ParseOptional;
    var remaining := reader.Rest();
    if remaining == [] {
      return Err(UNEXPECTED_END);
    }
    var responseSize := 1;
    if remaining[0] == 1 {
      if |remaining| < 3 {
        return Err(UNEXPECTED_END);
      }
      var tokenType := remaining[1] as int * 0x100 + remaining[2];
      if AuthenticatorSize(tokenType) == 0 {
        return Err(UNSUPPORTED_TOKEN_TYPE);
      }
      responseSize := responseSize + 2 + if tokenType == VOPRF_P384_SHA384 then 145 else AuthenticatorSize(tokenType);
    } else if remaining[0] != 0 {
      return Err(MALFORMED_DATA);
    }
    var text := reader.ReadBytes(responseSize);
    if text == None {
      return Err(UNEXPECTED_END);
    }
    r := DeserializeOptional(text.value);
  }

  method DeserializeBatch(data: Bytes) returns (r: Result<seq<OptionalTokenResponse>>)
    ensures r == ParseBatch(RESPONSES, data)
  {
    hide ParsePayload, ParseElements, ParseFirst, Prepend;
    var payload := ReadPayload(data);
    if payload.Err? {
      return Err(payload.error);
    }
    var reader := new ByteReader(payload.value);
    var responses: seq<OptionalTokenResponse> := [];
    PrependNothing(ParseElements(RESPONSES, payload.value, 0, MAX_BATCH_SIZE));
    var done := reader.Empty();
    while !done
      invariant reader.Valid() && fresh(reader) && (done <==> reader.Rest() == [])
      invariant Prepend(responses, ParseElements(RESPONSES, reader.Rest(), |responses|, MAX_BATCH_SIZE))
             == ParseElements(RESPONSES, payload.value, 0, MAX_BATCH_SIZE)
      decreases |reader.Rest()|
    {
      ElementsEnd(RESPONSES, reader.Rest(), responses, MAX_BATCH_SIZE);
      if |responses| >= MAX_BATCH_SIZE {
        return Err(MALFORMED_DATA);
      }
      ElementRead(RESPONSES, reader.Rest(), responses, MAX_BATCH_SIZE);
      var response := ReadOptional(reader);
      if response.Err? {
        return Err(response.error);
      }
      responses := responses + [response.value];
      done := reader.Empty();
    }
    ElementsEnd(RESPONSES, reader.Rest(), responses, MAX_BATCH_SIZE);
    r := Ok(responses);
  }
}
