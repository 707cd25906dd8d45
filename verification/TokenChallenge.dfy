// The token challenge of section 2.1 of RFC 9577: src/core/token_challenge.cpp.
module TokenChallenges {
  import opened Types
  import opened Wire

  datatype TokenChallenge = TokenChallenge(
    tokenType: TokenType, issuerName: string, redemptionContext: Option<Bytes32>, originInfo: seq<string>)
  {
    // every character of a std::string is an octet
    ghost predicate IsText() {
      Types.IsText(issuerName) && forall i | 0 <= i < |originInfo| :: Types.IsText(originInfo[i])
    }
  }

  // ---- origin_info: joining with commas, and splitting again

  function Join(parts: seq<string>): string {
    if |parts| == 0 then "" else if |parts| == 1 then parts[0] else parts[0] + "," + Join(parts[1..])
  }

  // what stands before the first comma, and what after it
  function Before(s: string): (t: string)
    ensures |t| <= |s| && (|t| < |s| ==> s[|t|] == ',')
    ensures ',' !in t && t <= s
  {
    if s == "" || s[0] == ',' then "" else [s[0]] + Before(s[1..])
  }

  function Single(head: string): seq<string> { if head == "" then [] else [head] }

  // the pieces between the commas, the empty ones left out
  function Pieces(s: string): seq<string>
    decreases |s|
  {
    if s == "" then []
    else
      var head := Before(s);
      Single(head) + if |head| == |s| then [] else Pieces(s[|head| + 1..])
  }

  const MAX_ORIGIN_ENTRIES: nat := 100

  function PrependEntries(done: seq<string>, tail: Option<seq<string>>): Option<seq<string>> {
    match tail
    case None => None
    case Some(entries) => Some(done + entries)
  }

  // how deserialize splits, count entries having been collected: None when there are too many
  function Split(s: string, count: nat): Option<seq<string>>
    decreases |s|
  {
    if s == "" then Some([])
    else if count >= MAX_ORIGIN_ENTRIES then None
    else
      var head := Before(s);
      if |head| == |s| then Some(Single(head))
      else PrependEntries(Single(head), Split(s[|head| + 1..], count + |Single(head)|))
  }

  // the limit is checked before a further piece is looked at, so a second comma after the last entry allowed is refused
  predicate SplitFits(s: string, count: nat) {
    || count + |Pieces(s)| < MAX_ORIGIN_ENTRIES
    || (count + |Pieces(s)| == MAX_ORIGIN_ENTRIES && !EndsInCommas(s))
  }

  predicate EndsInCommas(s: string) { |s| >= 2 && s[|s| - 1] == ',' && s[|s| - 2] == ',' }

  lemma {:induction false} NoPieces(s: string)
    requires Pieces(s) == []
    ensures forall i | 0 <= i < |s| :: s[i] == ','
    decreases |s|
  {
    if s != "" {
      assert Before(s) == "" && |s[1..]| < |s|;
      NoPieces(s[1..]);
    }
  }

  lemma OnePiece(s: string)
    requires s != "" && |Before(s)| == |s|
    ensures Before(s) == s && Pieces(s) == [s] && !EndsInCommas(s)
  {
    assert s == Before(s) && s[|s| - 1] in Before(s);
  }

  lemma {:induction false} SplitIsPieces(s: string, count: nat)
    requires count < MAX_ORIGIN_ENTRIES
    ensures Split(s, count) == if SplitFits(s, count) then Some(Pieces(s)) else None
    decreases |s|
  {
    hide EndsInCommas;
    var head := Before(s);
    if s == "" {
    } else if |head| == |s| {
      OnePiece(s);
    } else {
      var rest := s[|head| + 1..];
      if head == "" || count + 1 < MAX_ORIGIN_ENTRIES {
        SplitIsPieces(rest, count + |Single(head)|);
        CommasAtEnd(s, rest);
      } else {
        LastEntry(s, head, rest);
      }
    }
  }

  // while the rest holds an entry, whether the text ends in two commas is a matter of the rest
  lemma CommasAtEnd(s: string, rest: string)
    requires |Before(s)| < |s| && rest == s[|Before(s)| + 1..]
    ensures Pieces(rest) != [] ==> EndsInCommas(s) == EndsInCommas(rest)
  {
    if |rest| >= 2 {
      assert s[|s| - 1] == rest[|rest| - 1] && s[|s| - 2] == rest[|rest| - 2];
    } else if |rest| == 1 && Pieces(rest) != [] {
      LoneComma(rest);
      assert s[|s| - 1] == rest[0];
    }
  }

  lemma LoneComma(s: string)
    requires |s| == 1
    ensures s[0] == ',' ==> Pieces(s) == []
  {
    assert s[1..] == "";
  }

  lemma LastEntry(s: string, head: string, rest: string)
    requires head == Before(s) != "" && |head| < |s| && rest == s[|head| + 1..]
    ensures rest == "" <==> Pieces(rest) == [] && !EndsInCommas(s)
  {
    if rest == "" {
      assert head[|head| - 1] in head;
    } else if Pieces(rest) == [] {
      hide Pieces, Before;
      NoPieces(rest);
      OnlyCommas(s, head, rest);
    }
  }

  lemma OnlyCommas(s: string, head: string, rest: string)
    requires |head| < |s| && s[|head|] == ',' && rest == s[|head| + 1..] != ""
    requires forall i | 0 <= i < |rest| :: rest[i] == ','
    ensures EndsInCommas(s)
  {
    var k := |rest| - 1;
    assert rest[k] == ',' && s[|s| - 1] == rest[k];
    if k > 0 {
      assert s[|s| - 2] == rest[k - 1];
    }
  }

  // ---- what joining and splitting does to a list

  predicate Plain(entry: string) { entry != "" && ',' !in entry }
  predicate AllPlain(entries: seq<string>) { forall i | 0 <= i < |entries| :: Plain(entries[i]) }

  // every entry replaced by its own pieces
  function Normalised(entries: seq<string>): seq<string> {
    if entries == [] then [] else Pieces(entries[0]) + Normalised(entries[1..])
  }

  lemma {:induction false} BeforeComma(a: string, t: string)
    ensures Before(a + "," + t) == Before(a)
  {
    var s := a + "," + t;
    if a != "" && a[0] != ',' {
      BeforeComma(a[1..], t);
      assert s[1..] == a[1..] + "," + t;
    }
  }

  lemma PiecesUnfold(s: string, head: string, rest: string)
    requires head == Before(s) && |head| < |s| && rest == s[|head| + 1..]
    ensures Pieces(s) == Single(head) + Pieces(rest)
  {
    hide Before;
  }

  lemma WholePieces(s: string)
    requires |Before(s)| == |s|
    ensures Before(s) == s && Pieces(s) == Single(s)
  {
  }

  lemma {:induction false} PiecesOfConcat(a: string, t: string)
    ensures Pieces(a + "," + t) == Pieces(a) + Pieces(t)
    decreases |a|
  {
    hide Pieces, Before;
    var s, head := a + "," + t, Before(a);
    BeforeComma(a, t);
    if |head| == |a| {
      WholePieces(a);
      assert s[|head| + 1..] == t;
      PiecesUnfold(s, head, t);
    } else {
      var rest := a[|head| + 1..];
      PiecesOfConcat(rest, t);
      assert s[|head| + 1..] == rest + "," + t;
      PiecesUnfold(s, head, rest + "," + t);
      PiecesUnfold(a, head, rest);
    }
  }

  lemma {:induction false} PiecesOfJoin(entries: seq<string>)
    ensures Pieces(Join(entries)) == Normalised(entries)
  {
    if |entries| == 1 {
      assert Normalised(entries[1..]) == [];
    } else if |entries| > 1 {
      PiecesOfJoin(entries[1..]);
      PiecesOfConcat(entries[0], Join(entries[1..]));
    }
  }

  lemma JoinSingle(head: string, entries: seq<string>)
    ensures |Join(Single(head) + entries)| <= |head| + 1 + |Join(entries)| && |Join(Single(head))| == |head|
  {
    if head == "" {
      assert Single(head) + entries == entries;
    } else {
      assert (Single(head) + entries)[1..] == entries;
    }
  }

  lemma {:induction false} PiecesArePlain(s: string)
    ensures AllPlain(Pieces(s)) && |Join(Pieces(s))| <= |s|
    decreases |s|
  {
    hide Pieces, Join;
    var head := Before(s);
    if |head| < |s| {
      var rest := s[|head| + 1..];
      PiecesArePlain(rest);
      PiecesUnfold(s, head, rest);
      JoinSingle(head, Pieces(rest));
    } else {
      WholePieces(s);
      JoinSingle(s, []);
    }
  }

  lemma {:induction false} BeforePlain(s: string)
    requires ',' !in s
    ensures Before(s) == s
  {
    if s != "" {
      BeforePlain(s[1..]);
    }
  }

  lemma {:induction false} NormalisedIsPlain(entries: seq<string>)
    ensures AllPlain(Normalised(entries))
  {
    if entries != [] {
      PiecesArePlain(entries[0]);
      NormalisedIsPlain(entries[1..]);
    }
  }

  lemma {:induction false} PlainIsNormalised(entries: seq<string>)
    requires AllPlain(entries)
    ensures Normalised(entries) == entries
  {
    if entries != [] {
      BeforePlain(entries[0]);
      OnePiece(entries[0]);
      PlainIsNormalised(entries[1..]);
    }
  }

  lemma {:induction false} PlainJoinEnd(entries: seq<string>)
    requires AllPlain(entries)
    ensures !EndsInCommas(Join(entries))
    ensures entries != [] ==> Join(entries) != "" && Join(entries)[|Join(entries)| - 1] != ','
  {
    if |entries| == 1 {
      assert Plain(entries[0]);
    } else if |entries| > 1 {
      PlainJoinEnd(entries[1..]);
      var s, t := Join(entries), Join(entries[1..]);
      assert s[|s| - 1] == t[|t| - 1];
    }
  }

  // joining and splitting gives a list back exactly when its entries are non-empty, free of commas and at most a
  // hundred
  lemma SplitJoin(entries: seq<string>)
    ensures Split(Join(entries), 0) == if SplitFits(Join(entries), 0) then Some(Normalised(entries)) else None
    ensures Split(Join(entries), 0) == Some(entries) <==> AllPlain(entries) && |entries| <= MAX_ORIGIN_ENTRIES
  {
    SplitIsPieces(Join(entries), 0);
    PiecesOfJoin(entries);
    NormalisedIsPlain(entries);
    if AllPlain(entries) {
      PlainIsNormalised(entries);
      PlainJoinEnd(entries);
    }
  }

  // ---- the wire format

  function PrintContext(context: Option<Bytes32>): Bytes {
    match context
    case None => [0]
    case Some(c) => [32] + c
  }

  function PrintChallenge(c: TokenChallenge): Bytes {
    var origins := Join(c.originInfo);
    U16(c.tokenType) + (U16(|c.issuerName|) + (ToBytes(c.issuerName)
    + (PrintContext(c.redemptionContext) + (U16(|origins|) + ToBytes(origins)))))
  }

  predicate Printable(c: TokenChallenge) { 1 <= |c.issuerName| <= 0xFFFF && |Join(c.originInfo)| <= 0xFFFF }

  function Serialize(c: TokenChallenge): Result<Bytes> {
    if Printable(c) then Ok(PrintChallenge(c)) else Err(INVALID_LENGTH)
  }

  function ParseContext(s: Bytes): Result<(Option<Bytes32>, Bytes)> {
    var (length, rest) :- ParseU8(s).OrElse(UNEXPECTED_END);
    if length == 0 then Ok((None, rest))
    else if length != 32 then Err(INVALID_LENGTH)
    else
      var (context, tail) :- ParseBytes(rest, 32).OrElse(UNEXPECTED_END);
      Ok((Some(context), tail))
  }

  function ParseOrigins(s: Bytes): Result<(seq<string>, Bytes)> {
    var (origins, rest) :- ParseField(s).OrElse(UNEXPECTED_END);
    var entries :- Split(ToText(origins), 0).OrElse(MALFORMED_DATA);
    Ok((entries, rest))
  }

  function ParseChallenge(s: Bytes): Result<TokenChallenge> {
    var (tokenType, s1) :- ParseU16(s).OrElse(UNEXPECTED_END);
    var (issuer, s2) :- ParseField(s1).OrElse(UNEXPECTED_END);
    if issuer == [] then Err(INVALID_LENGTH)
    else
      var (context, s3) :- ParseContext(s2);
      var (entries, s4) :- ParseOrigins(s3);
      if s4 != [] then Err(MALFORMED_DATA)
      else Ok(TokenChallenge(tokenType, ToText(issuer), context, entries))
  }

  lemma ContextParses(s: Bytes, context: Option<Bytes32>, rest: Bytes)
    ensures ParseContext(s) == Ok((context, rest)) <==> s == PrintContext(context) + rest
  {
    match context
    case None =>
      if s == [0] + rest {
        assert s[1..] == rest;
      }
    case Some(c) =>
      if s == [32] + c + rest {
        assert s[1..] == c + rest;
      }
      if s != [] {
        BytesParse(s[1..], c, rest);
        assert s == [s[0]] + s[1..];
        assert [32] + c + rest == [32] + (c + rest);
      }
  }

  lemma OriginsParse(origins: string)
    requires IsText(origins) && |origins| <= 0xFFFF
    ensures ParseOrigins(U16(|origins|) + ToBytes(origins))
         == match Split(origins, 0) case None => Err(MALFORMED_DATA) case Some(entries) => Ok((entries, []))
  {
    var s := U16(|origins|) + ToBytes(origins);
    assert ToBytes(origins) + [] == ToBytes(origins);
    FieldParses(s, ToBytes(origins), []);
    BytesRoundTrip(origins);
  }

  lemma {:induction false} JoinIsText(entries: seq<string>)
    requires forall i | 0 <= i < |entries| :: IsText(entries[i])
    ensures IsText(Join(entries))
  {
    if |entries| > 1 {
      JoinIsText(entries[1..]);
    }
  }

  // what was serialized parses, with the origins re-split, unless that makes too many of them
  lemma ParsePrinted(c: TokenChallenge)
    requires c.IsText() && Printable(c)
    ensures ParseChallenge(PrintChallenge(c))
         == if SplitFits(Join(c.originInfo), 0) then Ok(c.(originInfo := Normalised(c.originInfo)))
            else Err(MALFORMED_DATA)
  {
    hide ParseU16, ParseField, ParseContext, ParseOrigins, U16, PrintContext, Join, SplitFits;
    var origins := Join(c.originInfo);
    JoinIsText(c.originInfo);
    var s3 := U16(|origins|) + ToBytes(origins);
    var s2 := PrintContext(c.redemptionContext) + s3;
    var s1 := U16(|c.issuerName|) + (ToBytes(c.issuerName) + s2);
    U16Parses(PrintChallenge(c), c.tokenType, s1);
    FieldParses(s1, ToBytes(c.issuerName), s2);
    BytesRoundTrip(c.issuerName);
    ContextParses(s2, c.redemptionContext, s3);
    OriginsParse(origins);
    SplitJoin(c.originInfo);
  }

  // a challenge comes back unchanged exactly when its origins are non-empty, free of commas and at most a hundred
  lemma ChallengeRoundTrip(c: TokenChallenge)
    requires c.IsText() && Serialize(c).Ok?
    ensures ParseChallenge(Serialize(c).value) == Ok(c)
       <==> AllPlain(c.originInfo) && |c.originInfo| <= MAX_ORIGIN_ENTRIES
  {
    ParsePrinted(c);
    SplitJoin(c.originInfo);
  }

  lemma {:induction false} PiecesAreText(s: string)
    requires IsText(s)
    ensures forall i | 0 <= i < |Pieces(s)| :: IsText(Pieces(s)[i])
    decreases |s|
  {
    hide Pieces, Before;
    var head := Before(s);
    if |head| < |s| {
      var rest := s[|head| + 1..];
      PiecesAreText(rest);
      PiecesUnfold(s, head, rest);
    } else {
      WholePieces(s);
    }
  }

  lemma ParsedOrigins(s: Bytes)
    requires ParseOrigins(s).Ok?
    ensures var entries := ParseOrigins(s).value.0;
            && AllPlain(entries) && |entries| <= MAX_ORIGIN_ENTRIES && |Join(entries)| <= 0xFFFF
            && forall i | 0 <= i < |entries| :: IsText(entries[i])
  {
    hide ParseField, Split, SplitFits, Pieces, Join, AllPlain;
    var origins := ToText(ParseField(s).value.0);
    ParsedFieldLength(s);
    SplitIsPieces(origins, 0);
    PiecesArePlain(origins);
    PiecesAreText(origins);
    FewPieces(origins);
  }

  lemma FewPieces(s: string)
    requires SplitFits(s, 0)
    ensures |Pieces(s)| <= MAX_ORIGIN_ENTRIES
  {
  }

  // whatever is accepted can be serialized again, and is then read back as it was
  lemma ParsedPrints(s: Bytes, c: TokenChallenge)
    requires ParseChallenge(s) == Ok(c)
    ensures c.IsText() && Printable(c) && ParseChallenge(PrintChallenge(c)) == Ok(c)
  {
    ParsedIsPrintable(s, c);
    hide ParseChallenge, PrintChallenge, Printable, AllPlain;
    ChallengeRoundTrip(c);
  }

  lemma ParsedIsPrintable(s: Bytes, c: TokenChallenge)
    requires ParseChallenge(s) == Ok(c)
    ensures c.IsText() && Printable(c) && AllPlain(c.originInfo) && |c.originInfo| <= MAX_ORIGIN_ENTRIES
  {
    hide ParseU16, ParseField, ParseContext, ParseOrigins, Join, AllPlain;
    var s1 := ParseU16(s).value.1;
    ParsedFieldLength(s1);
    var s2 := ParseField(s1).value.1;
    var s3 := ParseContext(s2).value.1;
    ParsedOrigins(s3);
  }

  // ---- the operations as the source performs them

  method OriginInfoString(originInfo: seq<string>) returns (result: string)
    ensures result == Join(originInfo)
  {
    hide Join;
    result := "";
    JoinedEnd(originInfo);
    for i := 0 to |originInfo|
      invariant Joined(result, originInfo[i..], i) == Join(originInfo)
    {
      JoinedStep(originInfo, result, i);
      if i > 0 {
        result := result + ",";
      }
      result := result + originInfo[i];
    }
  }

  // the text when the entries before index i are already joined
  function Joined(done: string, rest: seq<string>, i: nat): string {
    if rest == [] then done else if i > 0 then done + "," + Join(rest) else done + Join(rest)
  }

  lemma JoinedStep(entries: seq<string>, done: string, i: nat)
    requires i < |entries|
    ensures Joined(done, entries[i..], i)
         == Joined((if i > 0 then done + "," else done) + entries[i], entries[i + 1..], i + 1)
  {
    assert entries[i..][1..] == entries[i + 1..];
  }

  lemma JoinedEnd(entries: seq<string>)
    ensures Joined("", entries[0..], 0) == Join(entries)
  {
    assert entries[0..] == entries;
  }

  method SerializedSize(c: TokenChallenge) returns (size: nat)
    ensures size == |PrintChallenge(c)|
  {
    hide U16, Join, ToBytes;
    size := 2;
    size := size + 2 + |c.issuerName|;
    size := size + 1;
    if c.redemptionContext.Some? {
      size := size + 32;
    }
    var originLen := 0;
    ghost var joined := "";
    JoinedEnd(c.originInfo);
    for i := 0 to |c.originInfo|
      invariant originLen == |joined| && Joined(joined, c.originInfo[i..], i) == Join(c.originInfo)
    {
      JoinedStep(c.originInfo, joined, i);
      joined := (if i > 0 then joined + "," else joined) + c.originInfo[i];
      if i > 0 {
        originLen := originLen + 1;
      }
      originLen := originLen + |c.originInfo[i]|;
    }
    size := size + 2 + originLen;
  }

  method SerializeChallenge(c: TokenChallenge) returns (r: Result<Bytes>)
    ensures r == Serialize(c)
  {
    hide U16, Join, ByteWriter.Room, ByteWriter.View, ByteWriter.Valid, PrintContext, ToBytes;
    if |c.issuerName| == 0 || |c.issuerName| > 0xFFFF {
      return Err(INVALID_LENGTH);
    }
    var originStr := OriginInfoString(c.originInfo);
    if |originStr| > 0xFFFF {
      return Err(INVALID_LENGTH);
    }
    var writer := new ByteWriter();
    var ok := writer.WriteU16(c.tokenType);
    ok := writer.WriteU16(|c.issuerName|);
    ok := writer.WriteBytes(ToBytes(c.issuerName));
    ghost var names := writer.View();
    if c.redemptionContext.Some? {
      ok := writer.WriteU8(32);
      ok := writer.WriteBytes(c.redemptionContext.value);
    } else {
      ok := writer.WriteU8(0);
    }
    ContextOctets(names, c.redemptionContext);
    ok := writer.WriteU16(|originStr|);
    if originStr != "" {
      ok := writer.WriteBytes(ToBytes(originStr));
    }
    Nested(U16(c.tokenType), U16(|c.issuerName|), ToBytes(c.issuerName), PrintContext(c.redemptionContext),
           U16(|originStr|), ToBytes(originStr));
    r := Ok(writer.View());
  }

  lemma ContextOctets(s: Bytes, context: Option<Bytes32>)
    ensures context.Some? ==> s + [32] + context.value == s + PrintContext(context)
    ensures context == None ==> s + [0] == s + PrintContext(context)
  {
  }

  lemma Nested(a: Bytes, b: Bytes, c: Bytes, d: Bytes, e: Bytes, f: Bytes)
    ensures [] + a + b + c + d + e + f == a + (b + (c + (d + (e + f))))
    ensures f == [] ==> [] + a + b + c + d + e == a + (b + (c + (d + (e + f))))
  {
  }

  lemma SplitUnfold(s: string, count: nat, head: string)
    requires s != "" && count < MAX_ORIGIN_ENTRIES && head == Before(s)
    ensures |head| == |s| ==> Split(s, count) == Some(Single(head))
    ensures |head| < |s| ==>
              Split(s, count) == PrependEntries(Single(head), Split(s[|head| + 1..], count + |Single(head)|))
  {
    hide Before, Single, PrependEntries;
  }

  lemma SplitStep(s: string, done: seq<string>, head: string)
    requires s != "" && |done| < MAX_ORIGIN_ENTRIES && head == Before(s)
    ensures |head| == |s| ==> PrependEntries(done, Split(s, |done|)) == Some(done + Single(head))
    ensures |head| < |s| ==>
      PrependEntries(done, Split(s, |done|))
      == PrependEntries(done + Single(head), Split(s[|head| + 1..], |done + Single(head)|))
  {
    hide Split, Before, Single;
    SplitUnfold(s, |done|, head);
    if |head| < |s| {
      PrependEntriesTwice(done, Single(head), Split(s[|head| + 1..], |done| + |Single(head)|));
    }
  }

  lemma PrependEntriesTwice(a: seq<string>, b: seq<string>, tail: Option<seq<string>>)
    ensures PrependEntries(a, PrependEntries(b, tail)) == PrependEntries(a + b, tail)
  {
    if tail.Some? {
      assert a + (b + tail.value) == a + b + tail.value;
    }
  }

  lemma SplitEnd(s: string, done: seq<string>)
    ensures |done| >= MAX_ORIGIN_ENTRIES && s != "" ==> PrependEntries(done, Split(s, |done|)) == None
    ensures s == "" ==> PrependEntries(done, Split(s, |done|)) == Some(done)
  {
    assert done + [] == done;
  }

  lemma NoEntriesYet(tail: Option<seq<string>>)
    ensures PrependEntries([], tail) == tail
  {
    if tail.Some? {
      assert [] + tail.value == tail.value;
    }
  }

  method SplitOrigins(originStr: string) returns (r: Option<seq<string>>)
    ensures r == Split(originStr, 0)
  {
    hide Split, Before, PrependEntries;
    var entries: seq<string>, pos := [], 0;
    assert originStr[0..] == originStr;
    NoEntriesYet(Split(originStr, 0));
    while pos < |originStr|
      invariant pos <= |originStr|
      invariant PrependEntries(entries, Split(originStr[pos..], |entries|)) == Split(originStr, 0)
    {
      SplitEnd(originStr[pos..], entries);
      if |entries| >= MAX_ORIGIN_ENTRIES {
        return None;
      }
      var comma := Find(originStr, pos);
      var entry := originStr[pos..comma];
      SplitStep(originStr[pos..], entries, entry);
      assert entries + Single(entry) == if entry != "" then entries + [entry] else entries;
      if comma == |originStr| {
        if entry != "" {
          entries := entries + [entry];
        }
        return Some(entries);
      }
      if entry != "" {
        entries := entries + [entry];
      }
      assert originStr[pos..][|entry| + 1..] == originStr[comma + 1..];
      pos := comma + 1;
    }
    SplitEnd(originStr[pos..], entries);
    r := Some(entries);
  }

  // the position of the first comma at or after pos, or the end
  method Find(s: string, pos: nat) returns (comma: nat)
    requires pos <= |s|
    ensures pos <= comma <= |s| && s[pos..comma] == Before(s[pos..])
  {
    hide Before;
    comma := pos;
    while comma < |s| && s[comma] != ','
      invariant pos <= comma <= |s| && forall k | pos <= k < comma :: s[k] != ','
    {
      comma := comma + 1;
    }
    BeforeIs(s[pos..], comma - pos);
  }

  lemma {:induction false} BeforeIs(s: string, n: nat)
    requires n <= |s| && (n == |s| || s[n] == ',') && forall k | 0 <= k < n :: s[k] != ','
    ensures Before(s) == s[..n]
  {
    if n > 0 {
      BeforeIs(s[1..], n - 1);
    }
  }

  method ReadContext(reader: ByteReader) returns (r: Result<Option<Bytes32>>)
    requires reader.Valid()
    modifies reader
    ensures reader.Valid()
    ensures match ParseContext(old(reader.Rest()))
            case Err(e) => r == Err(e)
            case Ok((context, rest)) => r == Ok(context) && reader.Rest() == rest
  {
    var contextLen := reader.ReadU8();
    if contextLen == None {
      return Err(UNEXPECTED_END);
    }
    if contextLen.value != 0 && contextLen.value != 32 {
      return Err(INVALID_LENGTH);
    }
    if contextLen.value == 32 {
      var context := reader.ReadBytes(32);
      if context == None {
        return Err(UNEXPECTED_END);
      }
      return Ok(Some(context.value));
    }
    r := Ok(None);
  }

  method ReadOrigins(reader: ByteReader) returns (r: Result<seq<string>>)
    requires reader.Valid()
    modifies reader
    ensures reader.Valid()
    ensures match ParseOrigins(old(reader.Rest()))
            case Err(e) => r == Err(e)
            case Ok((entries, rest)) => r == Ok(entries) && reader.Rest() == rest
  {
    hide Split;
    var originLen := reader.ReadU16();
    if originLen == None {
      return Err(UNEXPECTED_END);
    }
    if originLen.value > 0 {
      var origins := reader.ReadBytes(originLen.value);
      if origins == None {
        return Err(UNEXPECTED_END);
      }
      var entries := SplitOrigins(ToText(origins.value));
      if entries == None {
        return Err(MALFORMED_DATA);
      }
      return Ok(entries.value);
    }
    NothingToSplit();
    r := Ok([]);
  }

  lemma NothingToSplit()
    ensures Split("", 0) == Some([]) && ToText([]) == ""
  {
  }

  method DeserializeChallenge(data: Bytes) returns (r: Result<TokenChallenge>)
    ensures r == ParseChallenge(data)
  {
    hide ParseContext, ParseOrigins, U16;
    var reader := new ByteReader(data);
    var tokenType := reader.ReadU16();
    if tokenType == None {
      return Err(UNEXPECTED_END);
    }
    var issuerLen := reader.ReadU16();
    if issuerLen == None {
      return Err(UNEXPECTED_END);
    }
    var issuer := reader.ReadBytes(issuerLen.value);
    if issuer == None {
      return Err(UNEXPECTED_END);
    }
    if issuerLen.value == 0 {
      return Err(INVALID_LENGTH);
    }
    var context := ReadContext(reader);
    if context.Err? {
      return Err(context.error);
    }
    var origins := ReadOrigins(reader);
    if origins.Err? {
      return Err(origins.error);
    }
    var empty := reader.Empty();
    if !empty {
      return Err(MALFORMED_DATA);
    }
    r := Ok(TokenChallenge(tokenType.value, ToText(issuer.value), context.value, origins.value));
  }

  // ---- the digest, kept once computed

  function Digest(c: TokenChallenge, sha256: Bytes -> Bytes32): Result<Bytes32> {
    var serialized :- Serialize(c);
    Ok(sha256(serialized))
  }

  // the serialized fields in their order
  lemma ChallengeLayout(c: TokenChallenge)
    requires Printable(c)
    ensures var s := PrintChallenge(c);
            && |s| >= 2 && ParseU16(s) == Some((c.tokenType, s[2..]))
            && var issuer := ParseField(s[2..]);
            && issuer.Some? && issuer.value.0 == ToBytes(c.issuerName)
            && var context := ParseContext(issuer.value.1);
            && context.Ok? && context.value.0 == c.redemptionContext
            && ParseField(context.value.1) == Some((ToBytes(Join(c.originInfo)), []))
  {
    hide ParseU16, ParseField, ParseContext, U16, PrintContext, Join;
    var origins := Join(c.originInfo);
    var s3 := U16(|origins|) + ToBytes(origins);
    var s2 := PrintContext(c.redemptionContext) + s3;
    var s1 := U16(|c.issuerName|) + (ToBytes(c.issuerName) + s2);
    assert PrintChallenge(c)[2..] == s1;
    U16Parses(PrintChallenge(c), c.tokenType, s1);
    FieldParses(s1, ToBytes(c.issuerName), s2);
    ContextParses(s2, c.redemptionContext, s3);
    assert ToBytes(origins) + [] == ToBytes(origins);
    FieldParses(s3, ToBytes(origins), []);
  }

  // the digest sees the origins only as they are joined
  ghost predicate SameFields(c: TokenChallenge, c': TokenChallenge) {
    && c.tokenType == c'.tokenType && c.issuerName == c'.issuerName
    && c.redemptionContext == c'.redemptionContext && Join(c.originInfo) == Join(c'.originInfo)
  }

  // Equal digests are of challenges with the same fields, or show a collision.
  lemma DigestBinds(c: TokenChallenge, c': TokenChallenge, sha256: Bytes -> Bytes32)
    requires c.IsText() && c'.IsText() && Digest(c, sha256).Ok? && Digest(c', sha256) == Digest(c, sha256)
    ensures SameFields(c, c')
         || (PrintChallenge(c) != PrintChallenge(c') && sha256(PrintChallenge(c)) == sha256(PrintChallenge(c')))
  {
    hide PrintChallenge, ParseField, ParseContext, ParseU16, Join;
    if PrintChallenge(c) == PrintChallenge(c') {
      ChallengeLayout(c);
      ChallengeLayout(c');
      JoinIsText(c.originInfo);
      JoinIsText(c'.originInfo);
      BytesRoundTrip(c.issuerName);
      BytesRoundTrip(c'.issuerName);
      BytesRoundTrip(Join(c.originInfo));
      BytesRoundTrip(Join(c'.originInfo));
    }
  }

  class DigestedChallenge {
    const challenge: TokenChallenge
    const sha256: Bytes -> Bytes32
    var cachedDigest: Option<Bytes32>

    ghost predicate Valid()
      reads this
    {
      cachedDigest.Some? ==> Digest(challenge, sha256) == Ok(cachedDigest.value)
    }

    constructor (challenge: TokenChallenge, sha256: Bytes -> Bytes32)
      ensures Valid() && this.challenge == challenge && this.sha256 == sha256
    {
      this.challenge, this.sha256, cachedDigest := challenge, sha256, None;
    }

    method GetDigest() returns (r: Result<Bytes32>)
      requires Valid()
      modifies this`cachedDigest
      ensures Valid() && r == Digest(challenge, sha256)
      ensures r.Ok? ==> cachedDigest == Some(r.value)
    {
      if cachedDigest.Some? {
        return Ok(cachedDigest.value);
      }
      var serialized := SerializeChallenge(challenge);
      if serialized.Err? {
        return Err(serialized.error);
      }
      var hash := sha256(serialized.value);
      cachedDigest := Some(hash);
      r := Ok(hash);
    }
  }
}
