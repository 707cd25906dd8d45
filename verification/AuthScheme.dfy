// Tokens in Authorization headers, and whole challenges and tokens as headers of the PrivateToken scheme:
// src/http/auth_scheme.cpp.
module AuthScheme {
  import opened Types
  import opened Tokens
  import opened TokenChallenges
  import opened AuthParams
  import opened AuthChallenges
  import Base64Url

  datatype AuthorizationHeader = AuthorizationHeader(token: string)

  // ---- tokens: Authorization

  function FormatToken(a: AuthorizationHeader): string { SCHEME + Quoted("token", a.token) }

  function ReadToken(s: string, token: string): string
    decreases |s|
  {
    match ParseParam(s)
    case None => token
    case Some((key, value, rest)) =>
      ParamConsumes(s);
      ReadToken(rest, if key == "token" then value else token)
  }

  function ParseTokenHeader(header: string): Result<AuthorizationHeader> {
    if !(SCHEME <= header) then Err(INVALID_HEADER)
    else
      var token := ReadToken(header[|SCHEME|..], "");
      if token == "" then Err(MISSING_PARAMETER) else Ok(AuthorizationHeader(token))
  }

  // a token read from some text is the one before, or leaves room for a key and '='
  lemma {:induction false} ReadTokenLength(s: string, token: string)
    ensures ReadToken(s, token) == token || |ReadToken(s, token)| + 2 <= |s|
    decreases |s|
  {
    match ParseParam(s)
    case None =>
    case Some((key, value, rest)) =>
      ParamConsumes(s);
      ReadTokenLength(rest, if key == "token" then value else token);
  }

  // the value of the first parameter of a formatted header
  lemma FirstToken(t: string)
    ensures var s := Quoted("token", t);
            match Unquote(t + "\"")
            case None => ReadToken(s, "") == ""
            case Some((value, rest)) => ReadToken(s, "") == ReadToken(SkipSeparator(rest), value)
  {
    hide Unquote, SkipSeparator, ParseParam;
    KeysAreTokens();
    assert Quoted("token", t) == "token" + "=\"" + (t + "\"");
    QuotedText("token", t + "\"");
  }

  // A token that a sender escapes is read back whatever it holds, unless it is empty.
  lemma EscapedToken(a: AuthorizationHeader)
    ensures ParseTokenHeader(FormatToken(AuthorizationHeader(Escape(a.token))))
         == if a.token == "" then Err(MISSING_PARAMETER) else Ok(a)
  {
    hide Unquote, ReadToken, SkipSeparator, Escape;
    var t := Escape(a.token);
    assert FormatToken(AuthorizationHeader(t))[|SCHEME|..] == Quoted("token", t);
    FirstToken(t);
    UnquoteEscaped(a.token, "");
    assert t + "\"" + "" == t + "\"";
    SeparatorSkipped("");
    ReadTokenLength("", a.token);
  }

  // A token comes back from its header exactly when it is not empty and needs no escaping.
  lemma TokenHeaderRoundTrip(a: AuthorizationHeader)
    ensures ParseTokenHeader(FormatToken(a)) == Ok(a) <==> a.token != "" && Clean(a.token)
  {
    hide Unquote, ReadToken, SkipSeparator;
    var t := a.token;
    assert FormatToken(a)[|SCHEME|..] == Quoted("token", t);
    FirstToken(t);
    if Clean(t) {
      EscapeClean(t);
      EscapedToken(a);
    } else if Unquote(t + "\"").Some? {
      UnquoteLength(t + "\"");
      var (value, rest) := Unquote(t + "\"").value;
      ReadTokenLength(SkipSeparator(rest), value);
    }
  }

  method ParseTokenParam(header: string) returns (r: Result<AuthorizationHeader>)
    ensures r == ParseTokenHeader(header)
  {
    hide ParseParam;
    if !(SCHEME <= header) {
      return Err(INVALID_HEADER);
    }
    var rest, token := header[|SCHEME|..], "";
    while rest != ""
      invariant ReadToken(rest, token) == ReadToken(header[|SCHEME|..], "")
      decreases |rest|
    {
      if ParseParam(rest).Some? {
        ParamConsumes(rest);
      }
      var param, left := ParseAuthParam(rest);
      if param == None {
        break;
      }
      if param.value.0 == "token" {
        token := param.value.1;
      }
      rest := left;
    }
    NoTokenLeft(rest, token);
    if token == "" {
      return Err(MISSING_PARAMETER);
    }
    r := Ok(AuthorizationHeader(token));
  }

  lemma NoTokenLeft(s: string, token: string)
    ensures s == "" || ParseParam(s) == None ==> ReadToken(s, token) == token
  {
  }

  // ---- headers for whole challenges and tokens

  function BuildWwwAuthenticate(c: TokenChallenge, tokenKey: Bytes, maxAge: Option<uint32>): Result<string> {
    var serialized :- Serialize(c);
    Ok(Format(ChallengeHeader(Base64Url.EncodePadded(serialized), Some(Base64Url.EncodePadded(tokenKey)), maxAge)))
  }

  function DecodeChallenge(h: ChallengeHeader): Result<TokenChallenge> {
    var decoded :- Base64Url.Decode(h.challenge);
    ParseChallenge(decoded)
  }

  function DecodeTokenKey(h: ChallengeHeader): Result<Bytes> {
    if h.tokenKey == None then Err(MISSING_PARAMETER) else Base64Url.Decode(h.tokenKey.value)
  }

  function BuildAuthorization(t: Token): string {
    FormatToken(AuthorizationHeader(Base64Url.EncodePadded(PrintToken(t))))
  }

  function ParseAuthorization(header: string): Result<Token> {
    var parsed :- ParseTokenHeader(header);
    var decoded :- Base64Url.Decode(parsed.token);
    ParseToken(decoded)
  }

  lemma EncodedIsClean(data: Bytes)
    ensures Clean(Base64Url.EncodePadded(data)) && Base64Url.Decode(Base64Url.EncodePadded(data)) == Ok(data)
    ensures data != [] ==> Base64Url.EncodePadded(data) != ""
  {
    Base64Url.EncodedIsPlain(data);
    Base64Url.DecodeEncode(data);
    assert !Base64Url.InAlphabet('"') && !Base64Url.InAlphabet('\\');
  }

  // An announced challenge is read back whole: one challenge, its key, its age, and the challenge with its origins
  // split.
  lemma AnnouncedChallenge(c: TokenChallenge, tokenKey: Bytes, maxAge: Option<uint32>)
    requires c.IsText() && Serialize(c).Ok?
    ensures var read := ParseAll(BuildWwwAuthenticate(c, tokenKey, maxAge).value);
            && read.Ok? && |read.value| == 1 && read.value[0].maxAge == maxAge
            && DecodeTokenKey(read.value[0]) == Ok(tokenKey)
            && DecodeChallenge(read.value[0])
               == if SplitFits(Join(c.originInfo), 0) then Ok(c.(originInfo := Normalised(c.originInfo)))
                  else Err(MALFORMED_DATA)
  {
    hide ParseAll, Format, ParseChallenge, PrintChallenge, SplitFits, Join, Normalised;
    var serialized := PrintChallenge(c);
    PrintedIsNotEmpty(c);
    EncodedIsClean(serialized);
    EncodedIsClean(tokenKey);
    var h := ChallengeHeader(Base64Url.EncodePadded(serialized), Some(Base64Url.EncodePadded(tokenKey)), maxAge);
    ParseAllFormatted([h]);
    SingleFormat(h);
    ParsePrinted(c);
  }

  lemma PrintedIsNotEmpty(c: TokenChallenge)
    ensures PrintChallenge(c) != []
  {
  }

  // A presented token is read back exactly when it is of a known type and its authenticator has that type's size.
  lemma PresentedToken(t: Token)
    ensures ParseAuthorization(BuildAuthorization(t)) == Ok(t) <==> IsKnownType(t.tokenType) && t.Validated() == Ok(())
  {
    hide ParseTokenHeader, FormatToken, ParseToken, PrintToken;
    TokenIsNotEmpty(t);
    EncodedIsClean(PrintToken(t));
    TokenHeaderRoundTrip(AuthorizationHeader(Base64Url.EncodePadded(PrintToken(t))));
    TokenParses(PrintToken(t), t);
  }

  lemma TokenIsNotEmpty(t: Token)
    ensures PrintToken(t) != []
  {
  }
}
