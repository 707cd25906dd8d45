// Lists of scopes, and their way through a token challenge: extensions/moq/src/authorization_info.cpp.
module MoqInfo {
  import opened Types
  import opened Wire
  import opened MoqScopes
  import opened TokenChallenges
  import opened AuthChallenges
  import opened AuthScheme
  import Base64Url

  datatype AuthorizationInfo = AuthorizationInfo(scopes: seq<AuthScope>)

  ghost predicate InfoAuthorizes(info: AuthorizationInfo, action: Action, ns: seq<Bytes>, track: Bytes) {
    exists i :: 0 <= i < |info.scopes| && Authorizes(info.scopes[i], action, ns, track)
  }

  method AuthorizesOne(info: AuthorizationInfo, action: Action, ns: seq<Bytes>, track: Bytes) returns (authorized: bool)
    ensures authorized <==> InfoAuthorizes(info, action, ns, track)
  {
    for i := 0 to |info.scopes|
      invariant forall k | 0 <= k < i :: !Authorizes(info.scopes[k], action, ns, track)
    {
      var allowed := ScopeAuthorizes(info.scopes[i], action, ns, track);
      if allowed {
        return true;
      }
    }
    authorized := false;
  }

  method AuthorizesAll(info: AuthorizationInfo, actions: seq<Action>, ns: seq<Bytes>, track: Bytes)
    returns (authorized: bool)
    ensures authorized <==> forall action | action in actions :: InfoAuthorizes(info, action, ns, track)
  {
    for i := 0 to |actions|
      invariant forall action | action in actions[..i] :: InfoAuthorizes(info, action, ns, track)
    {
      var allowed := AuthorizesOne(info, actions[i], ns, track);
      if !allowed {
        return false;
      }
      assert actions[..i + 1] == actions[..i] + [actions[i]];
    }
    assert actions[..|actions|] == actions;
    authorized := true;
  }

  // ---- the wire format

  function PrintScopes(scopes: seq<AuthScope>): Bytes {
    if scopes == [] then []
    else
      var text := PrintScope(scopes[0]);
      U16(|text|) + (text + PrintScopes(scopes[1..]))
  }

  function PrintInfo(info: AuthorizationInfo): Bytes { [|info.scopes| % 0x100] + PrintScopes(info.scopes) }

  function ParseScopes(s: Bytes, count: nat): Result<seq<AuthScope>> {
    if count == 0 then Ok([])
    else
      var (text, rest) :- ParseField(s).OrElse(UNEXPECTED_END);
      var scope :- ParseScope(text);
      var scopes :- ParseScopes(rest, count - 1);
      Ok([scope] + scopes)
  }

  // what follows the last scope is not looked at
  function ParseInfo(s: Bytes): Result<AuthorizationInfo> {
    var (count, rest) :- ParseU8(s).OrElse(UNEXPECTED_END);
    var scopes :- ParseScopes(rest, count);
    Ok(AuthorizationInfo(scopes))
  }

  // each scope's sizes fit, and so does the printed scope
  predicate ScopeFits(scope: AuthScope) { InBounds(scope) && |PrintScope(scope)| <= 0xFFFF }
  predicate ScopesFit(scopes: seq<AuthScope>) { forall i | 0 <= i < |scopes| :: ScopeFits(scopes[i]) }
  predicate InfoFits(info: AuthorizationInfo) { |info.scopes| <= 0xFF && ScopesFit(info.scopes) }

  lemma ScopesCons(scope: AuthScope, scopes: seq<AuthScope>)
    ensures PrintScopes([scope] + scopes) == U16(|PrintScope(scope)|) + (PrintScope(scope) + PrintScopes(scopes))
    ensures ScopesFit([scope] + scopes) <==> ScopeFits(scope) && ScopesFit(scopes)
  {
    hide ScopeFits, PrintScope, U16;
    var all := [scope] + scopes;
    assert all[0] == scope && all[1..] == scopes && forall i | 0 <= i < |scopes| :: all[i + 1] == scopes[i];
  }

  lemma {:induction false} PrintedScopesParse(scopes: seq<AuthScope>)
    requires ScopesFit(scopes)
    ensures ParseScopes(PrintScopes(scopes), |scopes|) == Ok(scopes)
  {
    if scopes != [] {
      hide ParseField, ParseScope, PrintScope, PrintScopes, InBounds, ScopesFit, U16;
      var scope, tail := scopes[0], scopes[1..];
      assert scopes == [scope] + tail;
      ScopesCons(scope, tail);
      var text := PrintScope(scope);
      FieldParses(PrintScopes(scopes), text, PrintScopes(tail));
      ScopeRoundTrip(scope, []);
      assert text + [] == text;
      PrintedScopesParse(tail);
    }
  }

  lemma {:induction false} ParsedScopesFit(s: Bytes, count: nat)
    requires ParseScopes(s, count).Ok?
    ensures var scopes := ParseScopes(s, count).value; |scopes| == count && ScopesFit(scopes)
  {
    if count > 0 {
      hide ParseField, ParseScope, ScopeFits, ScopesFit;
      var (text, rest) := ParseField(s).value;
      ParsedFieldLength(s);
      ParsedScopeFits(text);
      ParsedScopesFit(rest, count - 1);
      ScopesCons(ParseScope(text).value, ParseScopes(rest, count - 1).value);
    }
  }

  lemma ParsedScopeFits(text: Bytes)
    requires ParseScope(text).Ok? && |text| <= 0xFFFF
    ensures ScopeFits(ParseScope(text).value)
  {
    hide ParsePrefix, InBounds, PrintScope;
    var (scope, rest) := ParsePrefix(text).value;
    PrefixParses(text, scope, rest);
  }

  // The scopes come back exactly when all counts and lengths fit their fields; whatever is accepted is such a list.
  lemma InfoRoundTrip(info: AuthorizationInfo, s: Bytes)
    ensures ParseInfo(PrintInfo(info)) == Ok(info) <==> InfoFits(info)
    ensures ParseInfo(s).Ok? ==> InfoFits(ParseInfo(s).value)
  {
    hide ScopesFit, ParseScopes, PrintScopes;
    var p := PrintInfo(info);
    OctetParses(p, |info.scopes| % 0x100, PrintScopes(info.scopes));
    if InfoFits(info) {
      PrintedScopesParse(info.scopes);
    }
    ParsedInfoFits(p);
    ParsedInfoFits(s);
  }

  lemma ParsedInfoFits(s: Bytes)
    ensures ParseInfo(s).Ok? ==> InfoFits(ParseInfo(s).value)
  {
    hide ScopesFit, ParseScopes;
    if ParseInfo(s).Ok? {
      var (count, rest) := ParseU8(s).value;
      ParsedScopesFit(rest, count);
    }
  }

  // ---- the operations as the source performs them

  method SerializeInfo(info: AuthorizationInfo) returns (data: Bytes)
    ensures data == PrintInfo(info)
  {
    hide PrintScope, PrintScopes, U16, ByteWriter.Room, ByteWriter.View, ByteWriter.Valid;
    var writer := new ByteWriter();
    var ok := writer.WriteU8(|info.scopes| % 0x100);
    NoScopes();
    for i := 0 to |info.scopes|
      invariant writer.Valid() && writer.external == null && fresh(writer)
      invariant writer.View() == [|info.scopes| % 0x100] + PrintScopes(info.scopes[..i])
    {
      ScopesSnoc(info.scopes, i);
      var scopeBytes := SerializeScope(info.scopes[i]);
      WriteElement(writer, scopeBytes);
    }
    assert info.scopes[..|info.scopes|] == info.scopes;
    data := writer.View();
  }

  lemma NoScopes()
    ensures PrintScopes([]) == []
  {
  }

  lemma {:induction false} ScopesConcat(a: seq<AuthScope>, b: seq<AuthScope>)
    ensures PrintScopes(a + b) == PrintScopes(a) + PrintScopes(b)
  {
    hide PrintScope, U16;
    if a == [] {
      assert a + b == b;
    } else {
      assert (a + b)[1..] == a[1..] + b;
      ScopesConcat(a[1..], b);
    }
  }

  lemma ScopesSnoc(scopes: seq<AuthScope>, i: nat)
    requires i < |scopes|
    ensures var text := PrintScope(scopes[i]);
            PrintScopes(scopes[..i + 1]) == PrintScopes(scopes[..i]) + (U16(|text|) + text)
  {
    hide PrintScope, U16;
    assert scopes[..i + 1] == scopes[..i] + [scopes[i]];
    ScopesConcat(scopes[..i], [scopes[i]]);
    ScopesCons(scopes[i], []);
    assert [scopes[i]] + [] == [scopes[i]] && PrintScopes([]) == [];
  }

  lemma ScopeStep(done: seq<AuthScope>, s: Bytes, count: nat)
    requires count > 0
    ensures ParseField(s) == None ==> Prepend(done, ParseScopes(s, count)) == Err(UNEXPECTED_END)
    ensures ParseField(s).Some? ==>
              var (text, rest) := ParseField(s).value;
              && (ParseScope(text).Err? ==> Prepend(done, ParseScopes(s, count)) == Err(ParseScope(text).error))
              && (ParseScope(text).Ok? ==>
                    Prepend(done, ParseScopes(s, count))
                    == Prepend(done + [ParseScope(text).value], ParseScopes(rest, count - 1)))
  {
    hide ParseField, ParseScope;
    if ParseField(s).Some? && ParseScope(ParseField(s).value.0).Ok? {
      var scope := ParseScope(ParseField(s).value.0).value;
      var tail := ParseScopes(ParseField(s).value.1, count - 1);
      if tail.Ok? {
        assert done + ([scope] + tail.value) == done + [scope] + tail.value;
      }
    }
  }

  lemma NoScopesLeft(done: seq<AuthScope>, s: Bytes)
    ensures Prepend(done, ParseScopes(s, 0)) == Ok(done)
  {
    assert done + [] == done;
  }

  method DeserializeInfo(data: Bytes) returns (r: Result<AuthorizationInfo>)
    ensures r == ParseInfo(data)
  {
    hide ParseScope, ParseScopes, ParseU8, ParseU16, ParseBytes, Prepend;
    var reader := new ByteReader(data);
    var scopeCount := reader.ReadU8();
    if scopeCount == None {
      return Err(UNEXPECTED_END);
    }
    var scopes: seq<AuthScope> := [];
    ghost var left: nat, all := scopeCount.value, ParseScopes(reader.Rest(), scopeCount.value);
    PrependNothing(all);
    for i := 0 to scopeCount.value
      invariant reader.Valid() && fresh(reader) && left == scopeCount.value as int - i
      invariant Prepend(scopes, ParseScopes(reader.Rest(), left)) == all
    {
      ScopeStep(scopes, reader.Rest(), left);
      var length := reader.ReadU16();
      if length == None {
        return Err(UNEXPECTED_END);
      }
      var text := reader.ReadBytes(length.value);
      if text == None {
        return Err(UNEXPECTED_END);
      }
      var scope := DeserializeScope(text.value);
      if scope.Err? {
        return Err(scope.error);
      }
      scopes := scopes + [scope.value];
      left := left - 1;
    }
    NoScopesLeft(scopes, reader.Rest());
    r := Ok(AuthorizationInfo(scopes));
  }

  // ---- through origin_info

  function EncodeForOriginInfo(info: AuthorizationInfo): string { Base64Url.Encode(PrintInfo(info)) }

  function DecodeFromOriginInfo(originInfo: string): Result<AuthorizationInfo> {
    var decoded :- Base64Url.Decode(originInfo);
    ParseInfo(decoded)
  }

  // the encoded list is an entry that splitting leaves alone
  lemma EncodedInfo(info: AuthorizationInfo)
    ensures Plain(EncodeForOriginInfo(info)) && IsText(EncodeForOriginInfo(info))
    ensures Base64Url.Decode(EncodeForOriginInfo(info)) == Ok(PrintInfo(info))
  {
    Base64Url.EncodedText(PrintInfo(info));
    Base64Url.EncodedIsPlain(PrintInfo(info));
    Base64Url.DecodeEncode(PrintInfo(info));
    assert !Base64Url.InAlphabet(',');
  }

  // Serialized into a challenge's first origin, announced in a header and read back, the list is what it was, and so
  // authorizes the same actions on the same tracks.
  lemma InfoSurvives(info: AuthorizationInfo, names: seq<string>, tokenType: TokenType, issuer: string,
                     context: Option<Bytes32>, tokenKey: Bytes, maxAge: Option<uint32>)
    requires InfoFits(info) && AllPlain(names) && |names| < MAX_ORIGIN_ENTRIES && IsText(issuer)
    requires forall i | 0 <= i < |names| :: IsText(names[i])
    requires
      var c := TokenChallenge(tokenType, issuer, context, [EncodeForOriginInfo(info)] + names);
      Serialize(c).Ok?
    ensures
      var c := TokenChallenge(tokenType, issuer, context, [EncodeForOriginInfo(info)] + names);
      var header := BuildWwwAuthenticate(c, tokenKey, maxAge).value;
      && ParseAll(header).Ok? && |ParseAll(header).value| == 1
      && var challenge := DecodeChallenge(ParseAll(header).value[0]);
      && challenge == Ok(c)
      && DecodeFromOriginInfo(challenge.value.originInfo[0]) == Ok(info)
  {
    hide ParseAll, PrintInfo, ParseInfo, InfoFits, EncodeForOriginInfo, PrintChallenge, DecodeChallenge, Printable;
    hide SplitFits, Join, Normalised, Split, Format;
    var first := EncodeForOriginInfo(info);
    EncodedInfo(info);
    InfoRoundTrip(info, []);
    var origins := [first] + names;
    var c := TokenChallenge(tokenType, issuer, context, origins);
    assert forall i | 0 < i < |origins| :: origins[i] == names[i - 1];
    AnnouncedChallenge(c, tokenKey, maxAge);
    SplitJoin(origins);
  }

  // ---- presets

  function ForSubscriber(ns: seq<Bytes>, track: Bytes): AuthorizationInfo {
    AuthorizationInfo([AuthScope([0, 4, 7, 8], Rule(Exact, ns), Rule(Exact, track))])
  }

  function ForPublisher(ns: seq<Bytes>): AuthorizationInfo {
    AuthorizationInfo([AuthScope([0, 2, 6], Rule(Exact, ns), Wildcard)])
  }

  const FOR_RELAY := AuthorizationInfo([AuthScope([0, 1, 2, 3, 4, 5, 6, 7, 8], Wildcard, Wildcard)])

  // exactly what each preset allows
  lemma Presets(ns: seq<Bytes>, track: Bytes, action: Action, asked: seq<Bytes>, name: Bytes)
    ensures InfoAuthorizes(ForSubscriber(ns, track), action, asked, name)
       <==> action in {0, 4, 7, 8} && asked == ns && name == track
    ensures InfoAuthorizes(ForPublisher(ns), action, asked, name) <==> action in {0, 2, 6} && asked == ns
    ensures InfoAuthorizes(FOR_RELAY, action, asked, name)
  {
    assert ForSubscriber(ns, track).scopes[0].actions == [0, 4, 7, 8];
    assert ForPublisher(ns).scopes[0].actions == [0, 2, 6];
    var relay := FOR_RELAY.scopes[0];
    assert relay.actions[action] == action && Authorizes(relay, action, asked, name);
  }
}
