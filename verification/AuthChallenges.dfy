// Challenges of the PrivateToken scheme in WWW-Authenticate headers: src/http/auth_scheme.cpp.
module AuthChallenges {
  import opened Types
  import opened AuthParams

  datatype ChallengeHeader = ChallengeHeader(challenge: string, tokenKey: Option<string>, maxAge: Option<uint32>)

  // The challenges of a header: a comma outside quotes starts a new one when the scheme name follows it. current is
  // the challenge read so far.
  function Chunks(current: string, s: string, quoted: bool, escaped: bool): (chunks: seq<string>)
    ensures chunks != []
    decreases |s|
  {
    if s == "" then [current]
    else if escaped then Chunks(current + [s[0]], s[1..], quoted, false)
    else if quoted && s[0] == '\\' then Chunks(current + [s[0]], s[1..], quoted, true)
    else if s[0] == '"' then Chunks(current + [s[0]], s[1..], !quoted, false)
    else if quoted || s[0] != ',' then Chunks(current + [s[0]], s[1..], quoted, false)
    else
      var next := SkipOws(s[1..]);
      if SCHEME <= next then [current] + Chunks("", next, false, false)
      else Chunks(current + [s[0]], s[1..], quoted, false)
  }

  function SplitChallenges(header: string): seq<string> { Chunks("", header, false, false) }

  function Format(h: ChallengeHeader): string {
    SCHEME + Quoted("challenge", h.challenge) + FormatTokenKey(h.tokenKey) + FormatMaxAge(h.maxAge)
  }

  function FormatTokenKey(tokenKey: Option<string>): string {
    if tokenKey.Some? then ", " + Quoted("token-key", tokenKey.value) else ""
  }

  function FormatMaxAge(maxAge: Option<uint32>): string {
    if maxAge.Some? then ", " + ("max-age" + "=" + Decimal(maxAge.value)) else ""
  }

  function FormatAll(hs: seq<ChallengeHeader>): string {
    if hs == [] then "" else if |hs| == 1 then Format(hs[0]) else Format(hs[0]) + ", " + FormatAll(hs[1..])
  }

  function Apply(h: ChallengeHeader, key: string, value: string): ChallengeHeader {
    if key == "challenge" then h.(challenge := value)
    else if key == "token-key" then h.(tokenKey := Some(value))
    else if key == "max-age" then
      match Stoul(value)
      case Some(n) => if n <= 0xFFFF_FFFF then h.(maxAge := Some(n)) else h
      case None => h
    else h
  }

  function ReadParams(s: string, h: ChallengeHeader): ChallengeHeader
    decreases |s|
  {
    match ParseParam(s)
    case None => h
    case Some((key, value, rest)) =>
      ParamConsumes(s);
      ReadParams(rest, Apply(h, key, value))
  }

  const NO_PARAMS := ChallengeHeader("", None, None)

  function ParseChunk(chunk: string): Result<ChallengeHeader> {
    if !(SCHEME <= chunk) then Err(INVALID_HEADER)
    else
      var h := ReadParams(chunk[|SCHEME|..], NO_PARAMS);
      if h.challenge == "" then Err(MISSING_PARAMETER) else Ok(h)
  }

  function ParseChunks(chunks: seq<string>): Result<seq<ChallengeHeader>> {
    if chunks == [] then Ok([])
    else
      var h :- ParseChunk(chunks[0]);
      var hs :- ParseChunks(chunks[1..]);
      Ok([h] + hs)
  }

  function ParseAll(header: string): Result<seq<ChallengeHeader>> { ParseChunks(SplitChallenges(header)) }

  // ---- splitting undoes joining

  lemma {:induction false} PlainWalk(current: string, text: string, rest: string)
    requires '"' !in text && ',' !in text
    ensures Chunks(current, text + rest, false, false) == Chunks(current + text, rest, false, false)
    decreases |text|
  {
    if text == "" {
      assert text + rest == rest && current + text == current;
    } else {
      var s := text + rest;
      assert s[0] == text[0] && text[0] in text && s[1..] == text[1..] + rest;
      PlainWalk(current + [text[0]], text[1..], rest);
      assert current + [text[0]] + text[1..] == current + text;
    }
  }

  // an escaped value does not end the quoted string it is in
  lemma {:induction false} InsideWalk(current: string, v: string, rest: string)
    ensures Chunks(current, Escape(v) + rest, true, false) == Chunks(current + Escape(v), rest, true, false)
    decreases |v|
  {
    if v == "" {
      assert Escape(v) + rest == rest && current + Escape(v) == current;
    } else {
      var head, tail := if Special(v[0]) then "\\" + [v[0]] else [v[0]], Escape(v[1..]);
      assert Escape(v) == head + tail;
      hide Escape, Chunks;
      assert Escape(v) + rest == head + (tail + rest);
      HeadWalk(current, v[0], tail + rest);
      InsideWalk(current + head, v[1..], rest);
      assert current + head + tail == current + Escape(v);
    }
  }

  lemma HeadWalk(current: string, c: char, rest: string)
    ensures var head := if Special(c) then "\\" + [c] else [c];
            Chunks(current, head + rest, true, false) == Chunks(current + head, rest, true, false)
  {
    if Special(c) {
      var s := "\\" + [c] + rest;
      assert s[1..][0] == c && s[1..][1..] == rest;
      assert current + "\\" + [c] == current + ("\\" + [c]);
    } else {
      assert ([c] + rest)[1..] == rest;
    }
  }

  lemma QuoteWalk(current: string, rest: string, quoted: bool)
    ensures Chunks(current, "\"" + rest, quoted, false) == Chunks(current + "\"", rest, !quoted, false)
  {
    assert ("\"" + rest)[1..] == rest;
  }

  // a comma that introduces a parameter does not split
  lemma CommaWalk(current: string, rest: string)
    requires rest != "" && !IsOws(rest[0]) && rest[0] != SCHEME[0]
    ensures Chunks(current, ", " + rest, false, false) == Chunks(current + ", ", rest, false, false)
  {
    var s := ", " + rest;
    assert s[0] == ',' && s[1..] == " " + rest && (" " + rest)[1..] == rest;
    assert SkipOws(s[1..]) == rest;
    assert current + "," + " " == current + ", ";
  }

  // one that introduces a challenge does
  lemma SchemeSplits(current: string, rest: string)
    requires SCHEME <= rest
    ensures Chunks(current, ", " + rest, false, false) == [current] + Chunks("", rest, false, false)
  {
    var s := ", " + rest;
    assert s[0] == ',' && s[1..] == " " + rest;
    assert (" " + rest)[1..] == rest && rest[0] == SCHEME[0];
    assert SkipOws(s[1..]) == rest;
  }

  // a quoted parameter
  lemma QuotedWalk(current: string, head: string, v: string, rest: string)
    requires '"' !in head && ',' !in head
    ensures Chunks(current, Quoted(head, Escape(v)) + rest, false, false)
         == Chunks(current + Quoted(head, Escape(v)), rest, false, false)
  {
    hide Chunks, Escape;
    var c1, value := current + (head + "="), Escape(v);
    PlainWalk(current, head + "=", "\"" + value + "\"" + rest);
    assert head + "=" + ("\"" + value + "\"" + rest) == Quoted(head, value) + rest;
    QuoteWalk(c1, value + ("\"" + rest), false);
    assert "\"" + (value + ("\"" + rest)) == "\"" + value + "\"" + rest;
    InsideWalk(c1 + "\"", v, "\"" + rest);
    QuoteWalk(c1 + "\"" + value, rest, true);
    assert c1 + "\"" + value + "\"" == current + Quoted(head, value);
  }

  // a header as a sender writes it that escapes its values, which format does not do
  function EscapedKey(tokenKey: Option<string>): Option<string> {
    if tokenKey.Some? then Some(Escape(tokenKey.value)) else None
  }

  function Escaped(h: ChallengeHeader): ChallengeHeader {
    ChallengeHeader(Escape(h.challenge), EscapedKey(h.tokenKey), h.maxAge)
  }

  function EscapedAll(hs: seq<ChallengeHeader>): seq<ChallengeHeader> {
    if hs == [] then [] else [Escaped(hs[0])] + EscapedAll(hs[1..])
  }

  lemma TokenKeyWalk(current: string, tokenKey: Option<string>, rest: string)
    ensures Chunks(current, FormatTokenKey(EscapedKey(tokenKey)) + rest, false, false)
         == Chunks(current + FormatTokenKey(EscapedKey(tokenKey)), rest, false, false)
  {
    hide Chunks, Escape;
    match tokenKey
    case None =>
      assert "" + rest == rest && current + "" == current;
    case Some(key) =>
      var q := Quoted("token-key", Escape(key));
      assert q[0] == 't';
      CommaWalk(current, q + rest);
      QuotedWalk(current + ", ", "token-key", key, rest);
      assert ", " + (q + rest) == FormatTokenKey(EscapedKey(tokenKey)) + rest;
      assert current + ", " + q == current + FormatTokenKey(EscapedKey(tokenKey));
  }

  lemma MaxAgeWalk(current: string, maxAge: Option<uint32>, rest: string)
    ensures Chunks(current, FormatMaxAge(maxAge) + rest, false, false)
         == Chunks(current + FormatMaxAge(maxAge), rest, false, false)
  {
    hide Chunks, Decimal;
    match maxAge
    case None =>
      assert "" + rest == rest && current + "" == current;
    case Some(n) =>
      var text := "max-age" + "=" + Decimal(n);
      assert text[0] == 'm';
      CommaWalk(current, text + rest);
      PlainWalk(current + ", ", text, rest);
      assert ", " + (text + rest) == FormatMaxAge(maxAge) + rest;
      assert current + ", " + text == current + FormatMaxAge(maxAge);
  }

  lemma FormatWalk(h: ChallengeHeader, rest: string)
    ensures Chunks("", Format(Escaped(h)) + rest, false, false) == Chunks(Format(Escaped(h)), rest, false, false)
  {
    hide Chunks, Quoted, FormatTokenKey, FormatMaxAge, Escape, EscapedKey;
    var q := Quoted("challenge", Escape(h.challenge));
    var t, m := FormatTokenKey(EscapedKey(h.tokenKey)), FormatMaxAge(h.maxAge);
    PlainWalk("", SCHEME, q + (t + (m + rest)));
    assert SCHEME + (q + (t + (m + rest))) == Format(Escaped(h)) + rest;
    assert "" + SCHEME == SCHEME;
    QuotedWalk(SCHEME, "challenge", h.challenge, t + (m + rest));
    TokenKeyWalk(SCHEME + q, h.tokenKey, m + rest);
    MaxAgeWalk(SCHEME + q + t, h.maxAge, rest);
  }

  function Formats(hs: seq<ChallengeHeader>): seq<string> {
    if hs == [] then [] else [Format(hs[0])] + Formats(hs[1..])
  }

  lemma {:induction false} SplitFormats(hs: seq<ChallengeHeader>)
    requires hs != []
    ensures SplitChallenges(FormatAll(EscapedAll(hs))) == Formats(EscapedAll(hs))
  {
    hide Format, Chunks, Escaped;
    var es := EscapedAll(hs);
    var f := Format(Escaped(hs[0]));
    assert es[0] == Escaped(hs[0]) && es[1..] == EscapedAll(hs[1..]);
    if |hs| == 1 {
      FormatWalk(hs[0], "");
      assert f + "" == f;
      ChunksEnd(f);
      assert Formats(es[1..]) == [];
    } else {
      var rest := FormatAll(es[1..]);
      assert es[1..] != [];
      StartsWithScheme(es[1..]);
      FormatWalk(hs[0], ", " + rest);
      assert f + (", " + rest) == FormatAll(es);
      SchemeSplits(f, rest);
      SplitFormats(hs[1..]);
    }
  }

  lemma ChunksEnd(current: string)
    ensures Chunks(current, "", false, false) == [current]
  {
  }

  lemma StartsWithScheme(hs: seq<ChallengeHeader>)
    requires hs != []
    ensures SCHEME <= FormatAll(hs)
  {
    hide Quoted, FormatTokenKey, FormatMaxAge;
    var h := hs[0];
    var rest := FormatTokenKey(h.tokenKey) + FormatMaxAge(h.maxAge);
    assert Format(h) == SCHEME + (Quoted("challenge", h.challenge) + rest);
  }

  // ---- reading a formatted challenge

  lemma ReadNothing(h: ChallengeHeader)
    ensures ReadParams("", h) == h
  {
  }

  lemma ReadQuoted(key: string, v: string, tail: string, h: ChallengeHeader)
    requires IsToken(key)
    ensures ReadParams(Quoted(key, Escape(v)) + tail, h) == ReadParams(SkipSeparator(tail), Apply(h, key, v))
  {
    hide Apply, SkipSeparator, ParseParam, Quoted, Escape;
    QuotedParam(key, v, tail);
  }

  lemma ReadMaxAge(n: uint32, h: ChallengeHeader)
    ensures ReadParams("max-age" + "=" + Decimal(n), h) == h.(maxAge := Some(n))
  {
    hide ParseParam, Stoul, Decimal, SkipSeparator;
    KeysAreTokens();
    StoulOfDecimal(n);
    SeparatorSkipped("");
    UnquotedParam("max-age", Decimal(n), "");
    assert "max-age" + "=" + Decimal(n) + "" == "max-age" + "=" + Decimal(n);
    ReadNothing(h.(maxAge := Some(n)));
  }

  // the parameters after the challenge
  lemma ReadRest(tokenKey: Option<string>, maxAge: Option<uint32>, h: ChallengeHeader)
    requires h.tokenKey == None && h.maxAge == None
    ensures ReadParams(SkipSeparator(FormatTokenKey(EscapedKey(tokenKey)) + FormatMaxAge(maxAge)), h)
         == h.(tokenKey := tokenKey, maxAge := maxAge)
  {
    hide ReadParams, SkipSeparator, Decimal, Quoted, IsToken, Escape;
    KeysAreTokens();
    match tokenKey
    case None =>
      assert FormatTokenKey(None) + FormatMaxAge(maxAge) == FormatMaxAge(maxAge);
      ReadLast(maxAge, h);
    case Some(key) =>
      var q := Quoted("token-key", Escape(key)) + FormatMaxAge(maxAge);
      assert FormatTokenKey(EscapedKey(tokenKey)) + FormatMaxAge(maxAge) == ", " + q;
      QuotedStarts("token-key", Escape(key));
      SeparatorSkipped(q);
      ReadQuoted("token-key", key, FormatMaxAge(maxAge), h);
      ReadLast(maxAge, h.(tokenKey := Some(key)));
  }

  lemma QuotedStarts(key: string, value: string)
    requires key != ""
    ensures Quoted(key, value) != "" && Quoted(key, value)[0] == key[0]
  {
  }

  lemma ReadLast(maxAge: Option<uint32>, h: ChallengeHeader)
    requires h.maxAge == None
    ensures ReadParams(SkipSeparator(FormatMaxAge(maxAge)), h) == h.(maxAge := maxAge)
  {
    hide ReadParams, SkipSeparator, Decimal;
    SeparatorSkipped("");
    match maxAge
    case None => ReadNothing(h);
    case Some(n) =>
      SeparatorSkipped("max-age" + "=" + Decimal(n));
      ReadMaxAge(n, h);
  }

  lemma ParseFormat(h: ChallengeHeader)
    ensures ParseChunk(Format(Escaped(h))) == if h.challenge == "" then Err(MISSING_PARAMETER) else Ok(h)
  {
    hide ReadParams, SkipSeparator, Quoted, FormatTokenKey, FormatMaxAge, Escape, EscapedKey;
    var q := Quoted("challenge", Escape(h.challenge));
    var rest := FormatTokenKey(EscapedKey(h.tokenKey)) + FormatMaxAge(h.maxAge);
    assert Format(Escaped(h)) == SCHEME + (q + rest);
    assert Format(Escaped(h))[|SCHEME|..] == q + rest;
    KeysAreTokens();
    ReadQuoted("challenge", h.challenge, rest, NO_PARAMS);
    ReadRest(h.tokenKey, h.maxAge, ChallengeHeader(h.challenge, None, None));
  }

  predicate AllGiven(hs: seq<ChallengeHeader>) { forall i | 0 <= i < |hs| :: hs[i].challenge != "" }

  lemma ParseFirst(chunk: string, chunks: seq<string>)
    ensures ParseChunk(chunk).Err? ==> ParseChunks([chunk] + chunks) == Err(ParseChunk(chunk).error)
    ensures ParseChunk(chunk).Ok? && ParseChunks(chunks).Err? ==>
              ParseChunks([chunk] + chunks) == Err(ParseChunks(chunks).error)
    ensures ParseChunk(chunk).Ok? && ParseChunks(chunks).Ok? ==>
              ParseChunks([chunk] + chunks) == Ok([ParseChunk(chunk).value] + ParseChunks(chunks).value)
  {
    hide ParseChunk;
    assert ([chunk] + chunks)[1..] == chunks;
  }

  lemma FormatsCons(hs: seq<ChallengeHeader>)
    requires hs != []
    ensures Formats(EscapedAll(hs)) == [Format(Escaped(hs[0]))] + Formats(EscapedAll(hs[1..]))
  {
    hide Format, Escaped;
    assert EscapedAll(hs)[1..] == EscapedAll(hs[1..]);
  }

  lemma {:induction false} ParseFormats(hs: seq<ChallengeHeader>)
    ensures ParseChunks(Formats(EscapedAll(hs))) == if AllGiven(hs) then Ok(hs) else Err(MISSING_PARAMETER)
  {
    if hs == [] {
      assert ParseChunks([]) == Ok([]);
    } else {
      hide Format, Escaped, EscapedAll, Formats, ParseChunk, ParseChunks, AllGiven;
      FormatsCons(hs);
      ParseFormat(hs[0]);
      ParseFormats(hs[1..]);
      ParseFirst(Format(Escaped(hs[0])), Formats(EscapedAll(hs[1..])));
      GivenCons(hs);
      assert hs == [hs[0]] + hs[1..];
    }
  }

  lemma GivenCons(hs: seq<ChallengeHeader>)
    requires hs != []
    ensures AllGiven(hs) <==> hs[0].challenge != "" && AllGiven(hs[1..])
  {
    assert forall i | 0 < i < |hs| :: hs[i] == hs[1..][i - 1];
  }

  // A list of challenges whose values are escaped, formatted and joined, is read back as it was, whatever the values
  // hold, or refused exactly when a challenge is empty.
  lemma ParseAllEscaped(hs: seq<ChallengeHeader>)
    requires hs != []
    ensures ParseAll(FormatAll(EscapedAll(hs))) == if AllGiven(hs) then Ok(hs) else Err(MISSING_PARAMETER)
  {
    hide Format, AllGiven, EscapedAll, FormatAll, Formats, ParseChunks, SplitChallenges;
    SplitFormats(hs);
    ParseFormats(hs);
  }

  predicate CleanHeader(h: ChallengeHeader) {
    h.challenge != "" && Clean(h.challenge) && (h.tokenKey.Some? ==> Clean(h.tokenKey.value))
  }

  lemma CleanIsEscaped(h: ChallengeHeader)
    requires CleanHeader(h)
    ensures Escaped(h) == h
  {
    EscapeClean(h.challenge);
    if h.tokenKey.Some? {
      EscapeClean(h.tokenKey.value);
    }
  }

  lemma {:induction false} AllCleanEscaped(hs: seq<ChallengeHeader>)
    requires forall i | 0 <= i < |hs| :: CleanHeader(hs[i])
    ensures EscapedAll(hs) == hs
  {
    if hs != [] {
      hide Escaped, CleanHeader;
      CleanIsEscaped(hs[0]);
      AllCleanEscaped(hs[1..]);
    }
  }

  // The code's own headers are not escaped: they are read back as they were when no value needs it, whatever else the
  // values contain: commas, the scheme's name, '='.
  lemma ParseAllFormatted(hs: seq<ChallengeHeader>)
    requires hs != [] && forall i | 0 <= i < |hs| :: CleanHeader(hs[i])
    ensures ParseAll(FormatAll(hs)) == Ok(hs)
  {
    hide EscapedAll, FormatAll, ParseAll;
    AllCleanEscaped(hs);
    ParseAllEscaped(hs);
  }

  // the scheme's name holds no comma
  lemma SchemeWalk(s: string)
    requires SCHEME <= s
    ensures Chunks("", s, false, false) == Chunks(SCHEME, s[|SCHEME|..], false, false)
  {
    hide Chunks;
    assert s == SCHEME + s[|SCHEME|..];
    PlainWalk("", SCHEME, s[|SCHEME|..]);
    assert "" + SCHEME == SCHEME;
  }

  // Only the start of the header decides whether it is one of this scheme: every later challenge starts with the name.
  lemma {:induction false} LaterChunks(current: string, s: string, quoted: bool, escaped: bool)
    ensures var chunks := Chunks(current, s, quoted, escaped);
            && chunks != [] && current <= chunks[0] && chunks[0] <= current + s
            && forall i | 0 < i < |chunks| :: SCHEME <= chunks[i]
    decreases |s|
  {
    if s != "" {
      var next := SkipOws(s[1..]);
      if !escaped && s[0] == ',' && !quoted && SCHEME <= next {
        SchemeWalk(next);
        LaterChunks(SCHEME, next[|SCHEME|..], false, false);
      } else {
        LaterChunks(current + [s[0]], s[1..], if !escaped && s[0] == '"' then !quoted else quoted,
                    !escaped && quoted && s[0] == '\\');
        assert current + [s[0]] + s[1..] == current + s;
      }
    }
  }

  lemma {:induction false} ChunkErrors(chunks: seq<string>)
    requires forall i | 0 <= i < |chunks| :: SCHEME <= chunks[i]
    ensures ParseChunks(chunks).Err? ==> ParseChunks(chunks).error == MISSING_PARAMETER
  {
    if chunks != [] {
      ChunkErrors(chunks[1..]);
      assert ParseChunk(chunks[0]).Err? ==> ParseChunk(chunks[0]).error == MISSING_PARAMETER;
    }
  }

  lemma SchemeRequired(header: string)
    ensures ParseAll(header) == Err(INVALID_HEADER) <==> !(SCHEME <= header)
  {
    hide Chunks, ReadParams;
    var chunks := SplitChallenges(header);
    LaterChunks("", header, false, false);
    if SCHEME <= header {
      SchemeWalk(header);
      LaterChunks(SCHEME, header[|SCHEME|..], false, false);
      ChunkErrors(chunks);
    }
  }

  // ---- cleanness is needed: every header read takes as much text, separators and quotes aside, as its formatted form

  // the characters of a text other than commas, spaces and quotes
  function Weight(s: string): nat { if s == "" then 0 else (if s[0] in {',', ' ', '"'} then 0 else 1) + Weight(s[1..]) }

  lemma {:induction false} WeightConcat(a: string, b: string)
    ensures Weight(a + b) == Weight(a) + Weight(b)
  {
    if a == "" {
      assert a + b == b;
    } else {
      assert (a + b)[1..] == a[1..] + b;
      WeightConcat(a[1..], b);
    }
  }

  lemma WeightSplit(s: string, n: nat)
    requires n <= |s|
    ensures Weight(s) == Weight(s[..n]) + Weight(s[n..])
  {
    assert s == s[..n] + s[n..];
    WeightConcat(s[..n], s[n..]);
  }

  lemma {:induction false} WeightSkipOws(s: string)
    ensures Weight(SkipOws(s)) <= Weight(s)
  {
    if s != "" && IsOws(s[0]) {
      WeightSkipOws(s[1..]);
    }
  }

  lemma {:induction false} TokenWeight(key: string)
    requires forall i | 0 <= i < |key| :: IsTokenChar(key[i])
    ensures Weight(key) == |key|
  {
    if key != "" {
      assert IsTokenChar(key[0]);
      TokenWeight(key[1..]);
    }
  }

  lemma {:induction false} DigitWeight(digits: string)
    requires forall i | 0 <= i < |digits| :: IsDigit(digits[i])
    ensures Weight(digits) == |digits|
  {
    if digits != "" {
      assert IsDigit(digits[0]);
      DigitWeight(digits[1..]);
    }
  }

  lemma {:induction false} UnquoteWeight(s: string)
    ensures var read := Unquote(s); read.Some? ==> Weight(read.value.0) + Weight(read.value.1) <= Weight(s)
  {
    if s != "" && s[0] == '\\' && |s| > 1 {
      UnquoteWeight(s[2..]);
      WeightSplit(s, 2);
      assert Weight(s[1..]) == Weight([s[1]]) + Weight(s[2..]) by { WeightSplit(s[1..], 1); }
      ConsWeight(s[1], Unquote(s[2..]));
    } else if s != "" && s[0] != '"' && s[0] != '\\' {
      UnquoteWeight(s[1..]);
      ConsWeight(s[0], Unquote(s[1..]));
    }
  }

  lemma ConsWeight(c: char, r: Option<(string, string)>)
    ensures r.Some? ==> Weight(Cons(c, r).value.0) == Weight([c]) + Weight(r.value.0)
  {
    if r.Some? {
      WeightConcat([c], r.value.0);
    }
  }

  lemma WeightSkipSeparator(s: string)
    ensures Weight(SkipSeparator(s)) <= Weight(s)
  {
    var t := SkipOws(s);
    WeightSkipOws(s);
    WeightSkipOws(if t != "" && t[0] == ',' then t[1..] else t);
  }

  lemma KeyWeight(s: string)
    ensures var read := ParseKey(s); read.Some? ==> |read.value.0| + 1 + Weight(read.value.1) <= Weight(s)
  {
    hide Weight;
    if ParseKey(s).Some? {
      var s0 := SkipOws(s);
      var eq := Until(s0, IsEquals);
      var key := TrimOws(s0[..eq]);
      WeightSkipOws(s);
      WeightSplit(s0, eq);
      WeightSplit(s0[..eq], |key|);
      assert s0[..eq][..|key|] == key;
      TokenWeight(key);
      WeightSplit(s0[eq..], 1);
      assert s0[eq..][..1] == "=" && s0[eq..][1..] == s0[eq + 1..];
      WeightSkipOws(s0[eq + 1..]);
      assert Weight("=") == 1 by { TokenWeights(); }
    }
  }

  lemma TokenWeights()
    ensures Weight("=") == 1 && Weight("\"") == 0 && Weight(" ") == 0
  {
  }

  lemma ValueWeight(s: string)
    requires s != ""
    ensures var read := ParseValue(s); read.Some? ==> Weight(read.value.0) + Weight(read.value.1) <= Weight(s)
  {
    if s[0] == '"' {
      UnquoteWeight(s[1..]);
    } else {
      WeightSplit(s, Until(s, EndsToken));
    }
  }

  // each parameter takes its key, '=' and the weight of its value
  lemma ParamWeight(s: string)
    requires ParseParam(s).Some?
    ensures var (key, value, rest) := ParseParam(s).value; |key| + 1 + Weight(value) + Weight(rest) <= Weight(s)
  {
    hide Weight, ParseKey, ParseValue, SkipSeparator;
    KeyWeight(s);
    var s1 := ParseKey(s).value.1;
    KeyLeaves(s);
    ValueWeight(s1);
    WeightSkipSeparator(ParseValue(s1).value.1);
  }

  lemma KeyLeaves(s: string)
    ensures ParseKey(s).Some? ==> ParseKey(s).value.1 != ""
  {
  }

  // a number that fits 32 bits is no larger than its digits say, negative or not
  lemma StoulBound(s: string)
    ensures Stoul(s).Some? && Stoul(s).value <= 0xFFFF_FFFF ==>
              LeadingDigits(s) != "" && Number(LeadingDigits(s)) >= Stoul(s).value
  {
    hide Number, LeadingDigits;
  }

  lemma StoulWeight(s: string)
    ensures Stoul(s).Some? && Stoul(s).value <= 0xFFFF_FFFF ==> |Decimal(Stoul(s).value)| <= Weight(s)
  {
    hide Number, Decimal, Weight, LeadingDigits, Stoul;
    StoulBound(s);
    DigitsWeight(s);
    if Stoul(s).Some? && Stoul(s).value <= 0xFFFF_FFFF {
      DecimalShort(LeadingDigits(s), Stoul(s).value);
    }
  }

  lemma DigitsWeight(s: string)
    ensures |LeadingDigits(s)| <= Weight(s)
  {
    hide Weight;
    var t := SkipSpace(s);
    var u := if t != "" && (t[0] == '-' || t[0] == '+') then t[1..] else t;
    WeightSkipSpace(s);
    WeightTail(t);
    WeightSplit(u, |LeadingDigits(s)|);
    DigitWeight(LeadingDigits(s));
  }

  lemma WeightTail(t: string)
    ensures t != "" ==> Weight(t[1..]) <= Weight(t)
  {
  }

  lemma {:induction false} WeightSkipSpace(s: string)
    ensures Weight(SkipSpace(s)) <= Weight(s)
  {
    if s != "" && IsSpace(s[0]) {
      WeightSkipSpace(s[1..]);
    }
  }

  // how much it takes at least to change one header into another
  function Need(h: ChallengeHeader, h': ChallengeHeader): nat {
    (if h'.challenge != h.challenge then |"challenge="| + Weight(h'.challenge) else 0)
    + (if h'.tokenKey != h.tokenKey && h'.tokenKey.Some? then |"token-key="| + Weight(h'.tokenKey.value) else 0)
    + (if h'.maxAge != h.maxAge && h'.maxAge.Some? then |"max-age="| + |Decimal(h'.maxAge.value)| else 0)
  }

  lemma ApplyNeed(h: ChallengeHeader, key: string, value: string, h': ChallengeHeader)
    ensures Need(h, h') <= |key| + 1 + Weight(value) + Need(Apply(h, key, value), h')
  {
    hide Stoul, Decimal, Weight;
    StoulWeight(value);
    assert |"challenge="| == |"challenge"| + 1 && |"token-key="| == |"token-key"| + 1;
    assert |"max-age="| == |"max-age"| + 1;
  }

  lemma {:induction false} ReadParamsNeed(s: string, h: ChallengeHeader)
    ensures Need(h, ReadParams(s, h)) <= Weight(s)
    decreases |s|
  {
    hide Need, Apply, ParseParam, Weight;
    if ParseParam(s).Some? {
      ParamConsumes(s);
      ParamWeight(s);
      var (key, value, rest) := ParseParam(s).value;
      ReadParamsNeed(rest, Apply(h, key, value));
      ApplyNeed(h, key, value, ReadParams(s, h));
    } else {
      NoNeed(h);
    }
  }

  lemma NoNeed(h: ChallengeHeader)
    ensures Need(h, h) == 0
  {
  }

  // what the headers of a list need, with the scheme's name for each
  function TotalNeed(hs: seq<ChallengeHeader>): nat {
    if hs == [] then 0 else |"PrivateToken"| + Need(NO_PARAMS, hs[0]) + TotalNeed(hs[1..])
  }

  function TotalWeight(chunks: seq<string>): nat {
    if chunks == [] then 0 else Weight(chunks[0]) + TotalWeight(chunks[1..])
  }

  lemma {:induction false} ChunksWeight(current: string, s: string, quoted: bool, escaped: bool)
    ensures TotalWeight(Chunks(current, s, quoted, escaped)) <= Weight(current) + Weight(s)
    decreases |s|
  {
    if s != "" {
      hide Weight;
      var next := SkipOws(s[1..]);
      WeightSplit(s, 1);
      if !escaped && s[0] == ',' && !quoted && SCHEME <= next {
        assert Chunks(current, s, quoted, escaped) == [current] + Chunks("", next, false, false);
        ChunksWeight("", next, false, false);
        WeightSkipOws(s[1..]);
        assert Weight("") == 0 by { NoWeight(); }
        TotalCons(current, Chunks("", next, false, false));
      } else {
        ChunksWeight(current + [s[0]], s[1..], if !escaped && s[0] == '"' then !quoted else quoted,
                     !escaped && quoted && s[0] == '\\');
        WeightConcat(current, [s[0]]);
        assert s[..1] == [s[0]];
      }
    } else {
      TotalCons(current, []);
      assert [current] + [] == [current];
    }
  }

  lemma NoWeight()
    ensures Weight("") == 0
  {
  }

  lemma TotalCons(chunk: string, chunks: seq<string>)
    ensures TotalWeight([chunk] + chunks) == Weight(chunk) + TotalWeight(chunks)
  {
    assert ([chunk] + chunks)[1..] == chunks;
  }

  lemma ParsedCons(chunks: seq<string>, hs: seq<ChallengeHeader>)
    requires ParseChunks(chunks) == Ok(hs) && hs != []
    ensures chunks != [] && ParseChunk(chunks[0]) == Ok(hs[0]) && ParseChunks(chunks[1..]) == Ok(hs[1..])
  {
    hide ParseChunk;
    var h, tail := ParseChunk(chunks[0]), ParseChunks(chunks[1..]);
    assert h.Ok? && tail.Ok? && hs == [h.value] + tail.value;
    assert hs[1..] == tail.value;
  }

  lemma ChunkNeed(chunk: string, h: ChallengeHeader)
    requires ParseChunk(chunk) == Ok(h)
    ensures |"PrivateToken"| + Need(NO_PARAMS, h) <= Weight(chunk) && h.challenge != ""
  {
    hide ReadParams, Need, Weight;
    WeightSplit(chunk, |SCHEME|);
    assert chunk[..|SCHEME|] == SCHEME;
    SchemeWeight();
    ReadParamsNeed(chunk[|SCHEME|..], NO_PARAMS);
  }

  lemma SchemeWeight()
    ensures Weight(SCHEME) == |"PrivateToken"|
  {
    hide Weight;
    assert SCHEME == "PrivateToken" + " ";
    WeightConcat("PrivateToken", " ");
    TokenWeight("PrivateToken");
    TokenWeights();
  }

  lemma {:induction false} ParsedNeed(chunks: seq<string>, hs: seq<ChallengeHeader>)
    requires ParseChunks(chunks) == Ok(hs)
    ensures TotalNeed(hs) <= TotalWeight(chunks)
    ensures forall i | 0 <= i < |hs| :: hs[i].challenge != ""
  {
    hide Need, Weight, ParseChunk;
    if hs != [] {
      ParsedCons(chunks, hs);
      ChunkNeed(chunks[0], hs[0]);
      ParsedNeed(chunks[1..], hs[1..]);
    }
  }

  lemma FormatNeed(h: ChallengeHeader)
    requires h.challenge != ""
    ensures Weight(Format(h)) == |"PrivateToken"| + Need(NO_PARAMS, h)
  {
    hide Decimal, Weight;
    var c, k, m := Quoted("challenge", h.challenge), FormatTokenKey(h.tokenKey), FormatMaxAge(h.maxAge);
    KeysAreTokens();
    SchemeWeight();
    NoWeight();
    QuotedWeight("challenge", h.challenge);
    if h.tokenKey.Some? {
      QuotedWeight("token-key", h.tokenKey.value);
      SeparatorWeight(Quoted("token-key", h.tokenKey.value));
    }
    if h.maxAge.Some? {
      AgeWeight(h.maxAge.value);
      SeparatorWeight("max-age" + "=" + Decimal(h.maxAge.value));
    }
    assert Format(h) == SCHEME + (c + (k + m));
    WeightConcat(SCHEME, c + (k + m));
    WeightConcat(c, k + m);
    WeightConcat(k, m);
  }

  lemma QuotedWeight(key: string, v: string)
    requires IsToken(key)
    ensures Weight(Quoted(key, v)) == |key| + 1 + Weight(v)
  {
    hide Weight;
    assert Quoted(key, v) == key + ("=" + ("\"" + (v + "\"")));
    WeightConcat(key, "=" + ("\"" + (v + "\"")));
    WeightConcat("=", "\"" + (v + "\""));
    WeightConcat("\"", v + "\"");
    WeightConcat(v, "\"");
    TokenWeight(key);
    TokenWeights();
  }

  lemma SeparatorWeight(tail: string)
    ensures Weight(", " + tail) == Weight(tail)
  {
    assert (", " + tail)[1..] == " " + tail && (" " + tail)[1..] == tail;
  }

  lemma AgeWeight(n: uint32)
    ensures Weight("max-age" + "=" + Decimal(n)) == |"max-age"| + 1 + |Decimal(n)|
  {
    hide Weight, Decimal;
    KeysAreTokens();
    WeightConcat("max-age" + "=", Decimal(n));
    WeightConcat("max-age", "=");
    TokenWeight("max-age");
    TokenWeights();
    DigitWeight(Decimal(n));
  }

  // a formatted list weighs no more than what it needs
  lemma {:induction false} FormattedNeed(hs: seq<ChallengeHeader>)
    requires forall i | 0 <= i < |hs| :: hs[i].challenge != ""
    ensures Weight(FormatAll(hs)) == TotalNeed(hs)
  {
    hide Format, Need, Weight;
    NoWeight();
    if hs != [] {
      FormatNeed(hs[0]);
      if |hs| > 1 {
        var rest := FormatAll(hs[1..]);
        FormattedNeed(hs[1..]);
        assert FormatAll(hs) == Format(hs[0]) + (", " + rest);
        WeightConcat(Format(hs[0]), ", " + rest);
        SeparatorWeight(rest);
      }
    }
  }

  // reading from inside a run of backslashes does not give the whole run back
  lemma {:induction false} ShiftedDiffers(d: string, k: nat, rest: string)
    requires 1 <= k <= |d| && forall i | 0 <= i < k :: d[i] == '\\'
    ensures var read := Unquote(d[k..] + "\"" + rest); read.Some? ==> read.value.0 != d
    decreases |d|
  {
    var s := d[k..] + "\"" + rest;
    assert s[0] == if k < |d| then d[k] else '"';
    if s[0] == '\\' {
      assert s[1] == if k + 1 < |d| then d[k + 1] else '"';
      if k + 1 < |d| && d[k + 1] == '\\' {
        assert s[2..] == d[1..][k + 1..] + "\"" + rest;
        ShiftedDiffers(d[1..], k + 1, rest);
      }
      ConsDiffers(s[1], Unquote(s[2..]), d);
    } else if s[0] != '"' {
      ConsDiffers(s[0], Unquote(s[1..]), d);
    }
  }

  lemma ConsDiffers(c: char, r: Option<(string, string)>, d: string)
    requires d != "" && (c != d[0] || (r.Some? ==> r.value.0 != d[1..]))
    ensures Cons(c, r).Some? ==> Cons(c, r).value.0 != d
  {
    if r.Some? {
      assert ([c] + r.value.0)[1..] == r.value.0 && ([c] + r.value.0)[0] == c;
    }
  }

  // only a text without quote and backslash is the value of its own quoted form
  lemma {:induction false} UnquoteSame(c: string, rest: string)
    ensures var read := Unquote(c + "\"" + rest); read.Some? && read.value.0 == c ==> Clean(c)
  {
    var s := c + "\"" + rest;
    if c != "" {
      assert c == [c[0]] + c[1..];
      if c[0] == '\\' {
        assert s[1] == if |c| > 1 then c[1] else '"';
        if |c| > 1 && c[1] == '\\' {
          assert s[2..] == c[1..][1..] + "\"" + rest;
          ShiftedDiffers(c[1..], 1, rest);
        }
      } else {
        assert s[1..] == c[1..] + "\"" + rest;
        UnquoteSame(c[1..], rest);
      }
    }
  }

  // a quoted string ends with its closing quote, whatever follows
  lemma {:induction false} UnquotePrefix(s: string, tail: string)
    requires Unquote(s).Some?
    ensures Unquote(s + tail) == Some((Unquote(s).value.0, Unquote(s).value.1 + tail))
  {
    var t := s + tail;
    assert t[0] == s[0];
    if s[0] == '"' {
      assert t[1..] == s[1..] + tail;
    } else if s[0] == '\\' {
      assert t[1] == s[1] && t[2..] == s[2..] + tail;
      UnquotePrefix(s[2..], tail);
    } else {
      assert t[1..] == s[1..] + tail;
      UnquotePrefix(s[1..], tail);
    }
  }

  // a value that needs escaping is read as another, or not at all, however far its chunk goes
  lemma QuotedKept(key: string, v: string, tail: string, text: string, h: ChallengeHeader) returns (read: string)
    requires IsToken(key) && !Clean(v) && text <= v + "\"" + tail
    ensures var h' := ReadParams(key + "=\"" + text, h);
            h' == h || (read != v && Need(Apply(h, key, read), h') <= Weight(text))
  {
    hide Unquote, ReadParams, SkipSeparator, Apply, Need, IsToken, Weight;
    FirstQuoted(key, text, h);
    read := "";
    if Unquote(text).Some? {
      var all := v + "\"" + tail;
      UnquotePrefix(text, all[|text|..]);
      assert text + all[|text|..] == all;
      UnquoteSame(v, tail);
      UnquoteWeight(text);
      read := Unquote(text).value.0;
      var rest := Unquote(text).value.1;
      WeightSkipSeparator(rest);
      ReadParamsNeed(SkipSeparator(rest), Apply(h, key, read));
    }
  }

  lemma FirstQuoted(key: string, text: string, h: ChallengeHeader)
    requires IsToken(key)
    ensures var read := Unquote(text);
            ReadParams(key + "=\"" + text, h)
            == if read == None then h else ReadParams(SkipSeparator(read.value.1), Apply(h, key, read.value.0))
  {
    hide Unquote, SkipSeparator, ParseParam, Apply, IsToken;
    QuotedText(key, text);
  }

  // the chunk that starts with a header's quoted challenge, and that goes on with its quoted token key
  lemma ChallengeChunk(h: ChallengeHeader, rest: string) returns (text: string, tail: string)
    ensures var chunk := Chunks("", Format(h) + rest, false, false)[0];
            chunk == SCHEME + ("challenge" + "=\"" + text) && text <= h.challenge + "\"" + tail
  {
    hide Chunks, FormatTokenKey, FormatMaxAge;
    var head := SCHEME + ("challenge" + "=\"");
    tail := FormatTokenKey(h.tokenKey) + FormatMaxAge(h.maxAge) + rest;
    var all := h.challenge + "\"" + tail;
    assert Format(h) + rest == SCHEME + "challenge=" + ("\"" + all);
    PlainWalk("", SCHEME + "challenge=", "\"" + all);
    assert "" + (SCHEME + "challenge=") == SCHEME + "challenge=";
    QuoteWalk(SCHEME + "challenge=", all, false);
    assert SCHEME + "challenge=" + "\"" == head;
    LaterChunks(head, all, true, false);
    var chunk := Chunks("", Format(h) + rest, false, false)[0];
    text := chunk[|head|..];
  }

  lemma TokenKeyChunk(h: ChallengeHeader, rest: string) returns (text: string, tail: string)
    requires Clean(h.challenge) && h.tokenKey.Some?
    ensures var chunk := Chunks("", Format(h) + rest, false, false)[0];
            && chunk == SCHEME + (Quoted("challenge", h.challenge) + (", " + ("token-key" + "=\"" + text)))
            && text <= h.tokenKey.value + "\"" + tail
  {
    hide Chunks, FormatMaxAge, Escape, Clean;
    var first := Quoted("challenge", h.challenge);
    var head := SCHEME + (first + (", " + ("token-key" + "=\"")));
    tail := FormatMaxAge(h.maxAge) + rest;
    var all := h.tokenKey.value + "\"" + tail;
    var afterKey := "\"" + all;
    var afterFirst := ", " + ("token-key=" + afterKey);
    assert Format(h) + rest == SCHEME + (first + afterFirst);
    PlainWalk("", SCHEME, first + afterFirst);
    assert "" + SCHEME == SCHEME;
    EscapeClean(h.challenge);
    QuotedWalk(SCHEME, "challenge", h.challenge, afterFirst);
    CommaWalk(SCHEME + first, "token-key=" + afterKey);
    PlainWalk(SCHEME + first + ", ", "token-key=", afterKey);
    QuoteWalk(SCHEME + first + ", " + "token-key=", all, false);
    assert SCHEME + first + ", " + "token-key=" + "\"" == head;
    LaterChunks(head, all, true, false);
    var chunk := Chunks("", Format(h) + rest, false, false)[0];
    text := chunk[|head|..];
  }

  // what an unclean header is read from weighs at least ten characters more than it needs
  lemma UncleanChallenge(h: ChallengeHeader, rest: string)
    requires ParseChunk(Chunks("", Format(h) + rest, false, false)[0]) == Ok(h) && !Clean(h.challenge)
    ensures Weight(Chunks("", Format(h) + rest, false, false)[0]) >= |"PrivateToken"| + Need(NO_PARAMS, h) + 10
  {
    hide Chunks, ReadParams, Format, Weight, Decimal;
    var text, tail := ChallengeChunk(h, rest);
    var chunk, s := Chunks("", Format(h) + rest, false, false)[0], "challenge" + "=\"" + text;
    assert chunk[|SCHEME|..] == s;
    KeysAreTokens();
    var read := QuotedKept("challenge", h.challenge, tail, text, NO_PARAMS);
    WeightConcat(SCHEME, s);
    SchemeWeight();
    OpenWeight("challenge", text);
  }

  lemma UncleanTokenKey(h: ChallengeHeader, rest: string)
    requires ParseChunk(Chunks("", Format(h) + rest, false, false)[0]) == Ok(h) && Clean(h.challenge)
    requires h.tokenKey.Some? && !Clean(h.tokenKey.value)
    ensures Weight(Chunks("", Format(h) + rest, false, false)[0]) >= |"PrivateToken"| + Need(NO_PARAMS, h) + 10
  {
    hide Chunks, ReadParams, Format, Weight, Decimal, SkipSeparator, Quoted;
    var text, tail := TokenKeyChunk(h, rest);
    var chunk, s := Chunks("", Format(h) + rest, false, false)[0], "token-key" + "=\"" + text;
    var first := Quoted("challenge", h.challenge);
    assert chunk[|SCHEME|..] == first + (", " + s);
    KeysAreTokens();
    EscapeClean(h.challenge);
    ReadQuoted("challenge", h.challenge, ", " + s, NO_PARAMS);
    assert s[0] == 't';
    SeparatorSkipped(s);
    var read := QuotedKept("token-key", h.tokenKey.value, tail, text, ChallengeHeader(h.challenge, None, None));
    WeightConcat(SCHEME, first + (", " + s));
    WeightConcat(first, ", " + s);
    SeparatorWeight(s);
    SchemeWeight();
    QuotedWeight("challenge", h.challenge);
    OpenWeight("token-key", text);
  }

  lemma OpenWeight(key: string, text: string)
    requires IsToken(key)
    ensures Weight(key + "=\"" + text) == |key| + 1 + Weight(text)
  {
    hide Weight;
    assert key + "=\"" + text == key + ("=" + ("\"" + text));
    WeightConcat(key, "=" + ("\"" + text));
    WeightConcat("=", "\"" + text);
    WeightConcat("\"", text);
    TokenWeight(key);
    TokenWeights();
  }

  lemma {:induction false} FormattedBack(hs: seq<ChallengeHeader>)
    requires hs != [] && ParseAll(FormatAll(hs)) == Ok(hs)
    ensures forall i | 0 <= i < |hs| :: CleanHeader(hs[i])
  {
    hide Chunks, Format, Need, Weight, ParseChunk, ParseChunks, CleanHeader;
    var chunks := SplitChallenges(FormatAll(hs));
    FirstClean(hs);
    if |hs| > 1 {
      var rest := FormatAll(hs[1..]);
      assert FormatAll(hs) == Format(hs[0]) + (", " + rest);
      StartsWithScheme(hs[1..]);
      CleanIsEscaped(hs[0]);
      FormatWalk(hs[0], ", " + rest);
      SchemeSplits(Format(hs[0]), rest);
      assert chunks == [Format(hs[0])] + SplitChallenges(rest);
      ParsedCons(chunks, hs);
      assert chunks[1..] == SplitChallenges(rest);
      FormattedBack(hs[1..]);
    }
  }

  lemma FirstClean(hs: seq<ChallengeHeader>)
    requires hs != [] && ParseAll(FormatAll(hs)) == Ok(hs)
    ensures CleanHeader(hs[0])
  {
    hide Chunks, Format, Need, Weight, ParseChunk, ParseChunks;
    var h, chunks := hs[0], SplitChallenges(FormatAll(hs));
    var rest := if |hs| == 1 then "" else ", " + FormatAll(hs[1..]);
    assert FormatAll(hs) == Format(h) + rest;
    ParsedCons(chunks, hs);
    ParsedNeed(chunks, hs);
    ParsedNeed(chunks[1..], hs[1..]);
    FormattedNeed(hs);
    ChunksWeight("", FormatAll(hs), false, false);
    NoWeight();
    if !Clean(h.challenge) {
      UncleanChallenge(h, rest);
    } else if h.tokenKey.Some? && !Clean(h.tokenKey.value) {
      UncleanTokenKey(h, rest);
    }
  }

  lemma SingleFormat(h: ChallengeHeader)
    ensures FormatAll([h]) == Format(h)
  {
  }

  // A list of challenge headers, formatted and joined, comes back exactly when every challenge is non-empty and no
  // challenge and no token key needs escaping: whatever else they contain, commas, '=' or the scheme's name.
  lemma ChallengeHeadersRoundTrip(hs: seq<ChallengeHeader>)
    requires hs != []
    ensures ParseAll(FormatAll(hs)) == Ok(hs) <==> forall i | 0 <= i < |hs| :: CleanHeader(hs[i])
  {
    hide FormatAll, ParseAll, CleanHeader;
    if forall i | 0 <= i < |hs| :: CleanHeader(hs[i]) {
      ParseAllFormatted(hs);
    }
    if ParseAll(FormatAll(hs)) == Ok(hs) {
      FormattedBack(hs);
    }
  }

  lemma ChallengeHeaderRoundTrip(h: ChallengeHeader)
    ensures ParseAll(Format(h)) == Ok([h]) <==> CleanHeader(h)
  {
    hide ParseAll, CleanHeader;
    SingleFormat(h);
    ChallengeHeadersRoundTrip([h]);
    assert CleanHeader([h][0]) <==> CleanHeader(h);
  }

  // ---- the operations as the source performs them

  lemma OwsIsPlain(c: char)
    requires IsOws(c)
    ensures c != '"' && c != ',' && c != '\\'
  {
  }

  method AfterOws(header: string, start: nat) returns (next: nat)
    requires start <= |header|
    ensures start <= next <= |header| && SkipOws(header[start..]) == header[next..]
    ensures forall k | start <= k < next :: IsOws(header[k])
  {
    next := start;
    while next < |header| && (header[next] == ' ' || header[next] == '\t')
      invariant start <= next <= |header| && forall k | start <= k < next :: IsOws(header[k])
    {
      next := next + 1;
    }
    SkipOwsIs(header, start, next);
  }

  method SplitPrivateTokenChallenges(header: string) returns (challenges: seq<string>)
    ensures challenges == SplitChallenges(header)
  {
    hide Chunks, SkipOws, IsOws;
    challenges := [];
    var quoted, escaped, start := false, false, 0;
    assert header[0..0] == "" && header[0..] == header;
    ConcatNothing(SplitChallenges(header));
    for i := 0 to |header|
      invariant start <= |header|
      invariant i < start ==> !quoted && !escaped && forall k | i <= k < start :: IsOws(header[k])
      invariant challenges + (if i < start then Chunks("", header[start..], false, false)
                              else Chunks(header[start..i], header[i..], quoted, escaped)) == SplitChallenges(header)
    {
      var c := header[i];
      if i >= start {
        ChunksStep(header, start, i, quoted, escaped, challenges);
      } else {
        assert IsOws(header[i]);
        OwsIsPlain(c);
        assert i + 1 == start ==> header[start..i + 1] == "";
      }
      if escaped {
        escaped := false;
        continue;
      }
      if quoted && c == '\\' {
        escaped := true;
        continue;
      }
      if c == '"' {
        quoted := !quoted;
        continue;
      }
      if quoted || c != ',' {
        continue;
      }
      var next := AfterOws(header, i + 1);
      if SCHEME <= header[next..] {
        challenges := challenges + [header[start..i]];
        start := next;
        assert i + 1 == start ==> header[start..i + 1] == "";
      }
    }
    LastChunk(header, start, quoted, escaped);
    challenges := challenges + [header[start..]];
  }

  lemma ConcatNothing(chunks: seq<string>)
    ensures [] + chunks == chunks
  {
  }

  lemma LastChunk(header: string, start: nat, quoted: bool, escaped: bool)
    requires start <= |header|
    ensures Chunks(header[start..|header|], header[|header|..], quoted, escaped) == [header[start..]]
  {
    assert header[start..|header|] == header[start..];
  }

  lemma {:induction false} SkipOwsIs(s: string, low: nat, high: nat)
    requires low <= high <= |s| && (forall k | low <= k < high :: IsOws(s[k])) && (high < |s| ==> !IsOws(s[high]))
    ensures SkipOws(s[low..]) == s[high..]
    decreases high - low
  {
    if low < high {
      assert s[low..][1..] == s[low + 1..];
      SkipOwsIs(s, low + 1, high);
    }
  }

  // one step of the loop, with the challenges before it
  lemma ChunksStep(s: string, start: nat, i: nat, quoted: bool, escaped: bool, before: seq<string>)
    requires start <= i < |s|
    ensures
      var c, now := s[i], Chunks(s[start..i], s[i..], quoted, escaped);
      var next := SkipOws(s[i + 1..]);
      if !escaped && !quoted && c == ',' && SCHEME <= next then
        before + now == before + [s[start..i]] + Chunks("", next, false, false)
      else
        now == Chunks(s[start..i + 1], s[i + 1..], if !escaped && c == '"' then !quoted else quoted,
                      !escaped && quoted && c == '\\')
  {
    assert s[i..][1..] == s[i + 1..];
    assert s[start..i] + [s[i]] == s[start..i + 1];
    var tail := Chunks("", SkipOws(s[i + 1..]), false, false);
    assert before + ([s[start..i]] + tail) == before + [s[start..i]] + tail;
  }

  // key="value" appended in three pieces
  method AppendQuoted(text: string, head: string, value: string) returns (result: string)
    ensures result == text + Quoted(head, value)
  {
    result := text + head + "=\"";
    result := result + value;
    result := result + "\"";
  }

  method FormatChallenge(h: ChallengeHeader) returns (result: string)
    ensures result == Format(h)
  {
    hide Decimal, Quoted;
    result := AppendQuoted(SCHEME, "challenge", h.challenge);
    if h.tokenKey.Some? {
      result := AppendQuoted(result + ", ", "token-key", h.tokenKey.value);
    }
    if h.maxAge.Some? {
      result := result + ", " + "max-age" + "=";
      result := result + Decimal(h.maxAge.value);
    }
  }

  method ReadChallenge(chunk: string) returns (r: Result<ChallengeHeader>)
    ensures r == ParseChunk(chunk)
  {
    hide ParseParam, Stoul;
    if !(SCHEME <= chunk) {
      return Err(INVALID_HEADER);
    }
    var rest, result := chunk[|SCHEME|..], NO_PARAMS;
    while rest != ""
      invariant ReadParams(rest, result) == ReadParams(chunk[|SCHEME|..], NO_PARAMS)
      decreases |rest|
    {
      if ParseParam(rest).Some? {
        ParamConsumes(rest);
      }
      var param, left := ParseAuthParam(rest);
      if param == None {
        break;
      }
      var (key, value) := param.value;
      if key == "challenge" {
        result := result.(challenge := value);
      } else if key == "token-key" {
        result := result.(tokenKey := Some(value));
      } else if key == "max-age" {
        var val := Stoul(value);
        if val.Some? && val.value <= 0xFFFF_FFFF {
          result := result.(maxAge := Some(val.value));
        }
      }
      rest := left;
    }
    NothingLeft(rest, result);
    if result.challenge == "" {
      return Err(MISSING_PARAMETER);
    }
    r := Ok(result);
  }

  lemma NothingLeft(s: string, h: ChallengeHeader)
    ensures s == "" || ParseParam(s) == None ==> ReadParams(s, h) == h
  {
  }

  lemma ChunkParsed(chunks: seq<string>, i: nat, done: seq<ChallengeHeader>)
    requires i <= |chunks|
    ensures i == |chunks| ==> Prepend(done, ParseChunks(chunks[i..])) == Ok(done)
    ensures i < |chunks| ==>
      match ParseChunk(chunks[i])
      case Err(error) => Prepend(done, ParseChunks(chunks[i..])) == Err(error)
      case Ok(h) => Prepend(done, ParseChunks(chunks[i..])) == Prepend(done + [h], ParseChunks(chunks[i + 1..]))
  {
    hide ParseChunk;
    if i == |chunks| {
      assert done + [] == done;
    } else {
      assert chunks[i..][1..] == chunks[i + 1..];
      match ParseChunk(chunks[i])
      case Err(_) =>
      case Ok(h) =>
        if ParseChunks(chunks[i + 1..]).Ok? {
          assert done + ([h] + ParseChunks(chunks[i + 1..]).value) == done + [h] + ParseChunks(chunks[i + 1..]).value;
        }
    }
  }

  method ParseAllChallenges(header: string) returns (r: Result<seq<ChallengeHeader>>)
    ensures r == ParseAll(header)
  {
    hide ParseChunks, ParseChunk, Prepend;
    var chunks := SplitPrivateTokenChallenges(header);
    var results := [];
    assert chunks[0..] == chunks;
    PrependNothing(ParseChunks(chunks));
    for i := 0 to |chunks|
      invariant Prepend(results, ParseChunks(chunks[i..])) == ParseAll(header)
    {
      ChunkParsed(chunks, i, results);
      var result := ReadChallenge(chunks[i]);
      if result.Err? {
        return Err(result.error);
      }
      results := results + [result.value];
    }
    ChunkParsed(chunks, |chunks|, results);
    r := Ok(results);
  }
}
