// Parameters of HTTP authentication headers: the helpers of src/http/auth_scheme.cpp. Quoted strings are those of
// section 3.2.6 of RFC 7230.
module AuthParams {
  import opened Types

  // what a header of the scheme starts with
  const SCHEME: string := "PrivateToken "

  // ---- one auth-param

  predicate IsOws(c: char) { c == ' ' || c == '\t' }

  function SkipOws(s: string): (r: string)
    ensures |r| <= |s| && (r != "" ==> !IsOws(r[0]))
  {
    if s != "" && IsOws(s[0]) then SkipOws(s[1..]) else s
  }

  function TrimOws(s: string): (r: string)
    ensures r <= s && (r != "" ==> !IsOws(r[|r| - 1]))
  {
    if s != "" && IsOws(s[|s| - 1]) then TrimOws(s[..|s| - 1]) else s
  }

  // the characters the key check lets through; char is signed, so octets from 0x80 are below 0x20
  predicate IsTokenChar(c: char) {
    && ' ' < c < 0x7F as char
    && c !in {'"', '(', ')', ',', '/', ':', ';', '<', '=', '>', '?', '@', '[', '\\', ']', '{', '}'}
  }

  predicate IsToken(key: string) { key != "" && forall i | 0 <= i < |key| :: IsTokenChar(key[i]) }

  // how many characters stand before the first that satisfies the test
  function Until(s: string, stop: char -> bool): (n: nat)
    ensures n <= |s| && (n < |s| ==> stop(s[n])) && forall i | 0 <= i < n :: !stop(s[i])
  {
    if s == "" || stop(s[0]) then 0
    else
      assert forall i | 0 < i < |s| :: s[i] == s[1..][i - 1];
      1 + Until(s[1..], stop)
  }

  predicate IsEquals(c: char) { c == '=' }
  predicate EndsToken(c: char) { c == ',' || IsOws(c) }

  // the value of a quoted string whose opening quote has been read, and what follows the closing one
  function Unquote(s: string): Option<(string, string)> {
    if s == "" then None
    else if s[0] == '"' then Some(("", s[1..]))
    else if s[0] == '\\' then
      if |s| == 1 then None else Cons(s[1], Unquote(s[2..]))
    else Cons(s[0], Unquote(s[1..]))
  }

  function Cons(c: char, r: Option<(string, string)>): Option<(string, string)> {
    match r
    case None => None
    case Some((value, rest)) => Some(([c] + value, rest))
  }

  function ParseValue(s: string): Option<(string, string)>
    requires s != ""
  {
    if s[0] == '"' then Unquote(s[1..])
    else
      var end := Until(s, EndsToken);
      Some((s[..end], s[end..]))
  }

  function SkipSeparator(s: string): (r: string)
    ensures |r| <= |s|
  {
    var t := SkipOws(s);
    SkipOws(if t != "" && t[0] == ',' then t[1..] else t)
  }

  // the key before the first '=', and what follows the '=' and any white space
  function ParseKey(s: string): Option<(string, string)> {
    var s0 := SkipOws(s);
    var eq := Until(s0, IsEquals);
    if eq == 0 || eq == |s0| then None
    else
      var key := TrimOws(s0[..eq]);
      var s1 := SkipOws(s0[eq + 1..]);
      if !IsToken(key) || s1 == "" then None else Some((key, s1))
  }

  // a parameter's key and value, and what is left of the input
  function ParseParam(s: string): Option<(string, string, string)> {
    match ParseKey(s)
    case None => None
    case Some((key, s1)) =>
      assert s1 != "";
      match ParseValue(s1)
      case None => None
      case Some((value, rest)) => Some((key, value, SkipSeparator(rest)))
  }

  predicate Clean(v: string) { '"' !in v && '\\' !in v }

  predicate Special(c: char) { c == '"' || c == '\\' }

  // a value with a backslash before each quote and backslash: section 3.2.6 of RFC 7230
  function Escape(v: string): string {
    if v == "" then "" else (if Special(v[0]) then "\\" + [v[0]] else [v[0]]) + Escape(v[1..])
  }

  lemma {:induction false} EscapeClean(v: string)
    requires Clean(v)
    ensures Escape(v) == v
  {
    if v != "" {
      assert v[0] in v && v == [v[0]] + v[1..];
      EscapeClean(v[1..]);
    }
  }

  // an escaped value is read as the value, whatever it holds and whatever follows
  lemma {:induction false} UnquoteEscaped(v: string, rest: string)
    ensures Unquote(Escape(v) + "\"" + rest) == Some((v, rest))
  {
    if v == "" {
      NothingEscaped(rest);
    } else {
      hide Escape, Unquote;
      var tail := Escape(v[1..]) + "\"" + rest;
      UnquoteEscaped(v[1..], rest);
      EscapeStep(v, rest);
      UnquoteStep(v[0], tail);
      assert v == [v[0]] + v[1..];
    }
  }

  lemma NothingEscaped(rest: string)
    ensures Unquote(Escape("") + "\"" + rest) == Some(("", rest))
  {
    assert (Escape("") + "\"" + rest)[1..] == rest;
  }

  lemma EscapeStep(v: string, rest: string)
    requires v != ""
    ensures Escape(v) + "\"" + rest
         == (if Special(v[0]) then "\\" + [v[0]] else [v[0]]) + (Escape(v[1..]) + "\"" + rest)
  {
  }

  lemma UnquoteStep(c: char, tail: string)
    ensures Unquote((if Special(c) then "\\" + [c] else [c]) + tail) == Cons(c, Unquote(tail))
  {
    if Special(c) {
      assert ("\\" + [c] + tail)[2..] == tail;
    } else {
      assert ([c] + tail)[1..] == tail;
    }
  }

  lemma UnquoteClean(v: string, rest: string)
    requires Clean(v)
    ensures Unquote(v + "\"" + rest) == Some((v, rest))
  {
    EscapeClean(v);
    UnquoteEscaped(v, rest);
  }

  // the value is no longer than what was read for it, and just as long only if nothing was escaped
  lemma {:induction false} UnquoteLength(s: string)
    requires Unquote(s).Some?
    ensures var (value, rest) := Unquote(s).value;
            && |value| + 1 + |rest| <= |s|
            && (|value| + 1 + |rest| == |s| ==> Clean(value) && s == value + "\"" + rest)
  {
    if s[0] == '"' {
      assert s == "" + "\"" + s[1..];
    } else if s[0] == '\\' {
      UnquoteLength(s[2..]);
    } else {
      UnquoteLength(s[1..]);
      var (value, rest) := Unquote(s[1..]).value;
      assert s == [s[0]] + s[1..];
      assert s[1..] == value + "\"" + rest ==> s == ([s[0]] + value) + "\"" + rest;
    }
  }

  // each parameter read consumes its key, '=' and its value
  lemma ParamConsumes(s: string)
    requires ParseParam(s).Some?
    ensures var (key, value, rest) := ParseParam(s).value; |key| > 0 && |key| + 1 + |value| + |rest| <= |s|
  {
    var s0 := SkipOws(s);
    var eq := Until(s0, IsEquals);
    var s1 := SkipOws(s0[eq + 1..]);
    if s1[0] == '"' {
      UnquoteLength(s1[1..]);
    }
  }

  lemma {:induction false} UntilIs(s: string, stop: char -> bool, n: nat)
    requires n <= |s| && (n < |s| ==> stop(s[n])) && forall i | 0 <= i < n :: !stop(s[i])
    ensures Until(s, stop) == n
  {
    if n > 0 {
      UntilIs(s[1..], stop, n - 1);
    }
  }

  lemma NoLeadingOws(s: string)
    requires s == "" || !IsOws(s[0])
    ensures SkipOws(s) == s
  {
  }

  lemma NoTrailingOws(s: string)
    requires s == "" || !IsOws(s[|s| - 1])
    ensures TrimOws(s) == s
  {
  }

  // what a text that starts with key=" is read as
  function FromQuote(key: string, text: string): Option<(string, string, string)> {
    match Unquote(text)
    case None => None
    case Some((value, rest)) => Some((key, value, SkipSeparator(rest)))
  }

  predicate AllOws(w: string) { forall i | 0 <= i < |w| :: IsOws(w[i]) }

  lemma {:induction false} LeadingOws(w: string, rest: string)
    requires AllOws(w) && (rest == "" || !IsOws(rest[0]))
    ensures SkipOws(w + rest) == rest
  {
    if w == "" {
      assert w + rest == rest;
      NoLeadingOws(rest);
    } else {
      assert (w + rest)[1..] == w[1..] + rest;
      LeadingOws(w[1..], rest);
    }
  }

  lemma {:induction false} TrailingOws(text: string, w: string)
    requires AllOws(w) && (text == "" || !IsOws(text[|text| - 1]))
    ensures TrimOws(text + w) == text
  {
    if w == "" {
      assert text + w == text;
      NoTrailingOws(text);
    } else {
      var s, shorter := text + w, w[..|w| - 1];
      assert s[..|s| - 1] == text + shorter;
      TrailingOws(text, shorter);
    }
  }

  // white space before the key, around '=' and before the value is skipped
  lemma SpacedKey(w1: string, key: string, w2: string, w3: string, rest: string)
    requires AllOws(w1) && AllOws(w2) && AllOws(w3) && IsToken(key) && rest != "" && !IsOws(rest[0])
    ensures ParseKey(w1 + (key + w2 + "=" + (w3 + rest))) == Some((key, rest))
  {
    hide SkipOws, TrimOws, IsTokenChar;
    var s0 := key + w2 + "=" + (w3 + rest);
    var n := |key + w2|;
    NotOws(key[0]);
    NotOws(key[|key| - 1]);
    assert s0[0] == key[0] && s0[n] == '=' && s0[..n] == key + w2 && s0[n + 1..] == w3 + rest;
    LeadingOws(w1, s0);
    forall i | 0 <= i < n ensures !IsEquals(s0[i]) {
      if i < |key| {
        NotOws(key[i]);
        assert s0[i] == key[i];
      } else {
        assert s0[i] == w2[i - |key|] && IsOws(w2[i - |key|]);
      }
    }
    UntilIs(s0, IsEquals, n);
    TrailingOws(key, w2);
    LeadingOws(w3, rest);
  }

  lemma QuotedText(key: string, text: string)
    requires IsToken(key)
    ensures ParseParam(key + "=\"" + text) == FromQuote(key, text)
  {
    hide Unquote, SkipSeparator, IsToken, ParseKey;
    SpacedKey("", key, "", "", "\"" + text);
    assert "" + (key + "" + "=" + ("" + ("\"" + text))) == key + "=\"" + text;
    assert ("\"" + text)[1..] == text;
  }

  lemma NotOws(c: char)
    requires IsTokenChar(c)
    ensures !IsOws(c) && !IsEquals(c)
  {
  }

  function Quoted(key: string, value: string): string { key + "=\"" + value + "\"" }

  // key="value", the value escaped, is read whatever follows
  lemma QuotedParam(key: string, v: string, tail: string)
    requires IsToken(key)
    ensures ParseParam(Quoted(key, Escape(v)) + tail) == Some((key, v, SkipSeparator(tail)))
  {
    hide ParseParam, SkipSeparator, IsToken, Unquote, Escape;
    var text := Escape(v) + "\"" + tail;
    assert Quoted(key, Escape(v)) + tail == key + "=\"" + text;
    QuotedText(key, text);
    UnquoteEscaped(v, tail);
  }

  // key=value, for a value without separators, up to a separator or the end
  lemma UnquotedParam(key: string, v: string, tail: string)
    requires IsToken(key) && v != "" && v[0] != '"' && forall i | 0 <= i < |v| :: !EndsToken(v[i])
    requires tail != "" ==> EndsToken(tail[0])
    ensures ParseParam(key + "=" + v + tail) == Some((key, v, SkipSeparator(tail)))
  {
    hide ParseKey, SkipSeparator, IsToken;
    var text := v + tail;
    SpacedKey("", key, "", "", text);
    assert "" + (key + "" + "=" + ("" + text)) == key + "=" + v + tail;
    assert forall i | 0 <= i < |v| :: text[i] == v[i];
    UntilIs(text, EndsToken, |v|);
    assert text[..|v|] == v && text[|v|..] == tail;
  }

  lemma SeparatorSkipped(tail: string)
    requires tail == "" || !IsOws(tail[0])
    ensures SkipSeparator("") == "" && SkipSeparator(", " + tail) == tail
  {
    var s := ", " + tail;
    NoLeadingOws(s);
    assert s[1..] == " " + tail && (" " + tail)[1..] == tail;
    NoLeadingOws(tail);
  }

  // ---- numbers

  function Decimal(n: nat): (s: string)
    ensures s != "" && forall i | 0 <= i < |s| :: '0' <= s[i] <= '9'
  {
    if n < 10 then [(n + 48) as char] else Decimal(n / 10) + [(n % 10 + 48) as char]
  }

  predicate IsDigit(c: char) { '0' <= c <= '9' }
  predicate NotDigit(c: char) { !IsDigit(c) }

  function Number(digits: string): nat
    requires forall i | 0 <= i < |digits| :: IsDigit(digits[i])
  {
    if digits == "" then 0
    else
      assert IsDigit(digits[|digits| - 1]);
      Number(digits[..|digits| - 1]) * 10 + (digits[|digits| - 1] as int - 48)
  }

  predicate IsSpace(c: char) { c == ' ' || '\t' <= c <= '\r' }

  function SkipSpace(s: string): (r: string)
    ensures |r| <= |s|
  {
    if s != "" && IsSpace(s[0]) then SkipSpace(s[1..]) else s
  }

  // the digits that std::stoul takes, after white space and a sign
  function LeadingDigits(s: string): (digits: string)
    ensures forall i | 0 <= i < |digits| :: IsDigit(digits[i])
  {
    var t := SkipSpace(s);
    var u := if t != "" && (t[0] == '-' || t[0] == '+') then t[1..] else t;
    u[..Until(u, NotDigit)]
  }

  // std::stoul on a 64-bit platform, None where it throws: what follows the digits is ignored, and a minus sign
  // negates modulo 2^64
  function Stoul(s: string): Option<uint64> {
    var t, digits := SkipSpace(s), LeadingDigits(s);
    var negative := t != "" && t[0] == '-';
    if digits == "" || Number(digits) >= 0x1_0000_0000_0000_0000 then None
    else if negative then Some((0x1_0000_0000_0000_0000 - Number(digits)) % 0x1_0000_0000_0000_0000)
    else Some(Number(digits))
  }

  lemma {:induction false} NumberOfDecimal(n: nat)
    ensures Number(Decimal(n)) == n
  {
    if n < 10 {
      assert Decimal(n)[..0] == "";
    } else {
      var s := Decimal(n);
      assert s[..|s| - 1] == Decimal(n / 10);
      NumberOfDecimal(n / 10);
    }
  }

  lemma StoulOfDigits(s: string)
    requires s != "" && forall i | 0 <= i < |s| :: IsDigit(s[i])
    ensures Stoul(s) == if Number(s) < 0x1_0000_0000_0000_0000 then Some(Number(s)) else None
  {
    hide Number;
    assert IsDigit(s[0]);
    assert SkipSpace(s) == s;
    UntilIs(s, NotDigit, |s|);
    assert s[..|s|] == s;
  }

  // white space, a sign and what follows the digits: std::stoul passes over them, a minus sign negates modulo 2^64
  lemma StoulReads(w: string, sign: string, digits: string, tail: string)
    requires (forall i | 0 <= i < |w| :: IsSpace(w[i])) && sign in {"", "+", "-"}
    requires digits != "" && forall i | 0 <= i < |digits| :: IsDigit(digits[i])
    requires tail != "" ==> NotDigit(tail[0])
    ensures var n := Number(digits);
            match Stoul(w + (sign + (digits + tail)))
            case None => n > 0xFFFF_FFFF_FFFF_FFFF
            case Some(v) =>
              n <= 0xFFFF_FFFF_FFFF_FFFF && if sign == "-" then (v + n) % 0x1_0000_0000_0000_0000 == 0 else v == n
  {
    hide Stoul, LeadingDigits;
    var t := sign + (digits + tail);
    FirstDigits(digits, tail);
    assert t[0] == if sign == "" then digits[0] else sign[0];
    LeadingSpace(w, t);
    SignSkipped(w + t, sign, digits, tail);
    StoulIs(w + t);
  }

  lemma SignSkipped(s: string, sign: string, digits: string, tail: string)
    requires sign in {"", "+", "-"} && SkipSpace(s) == sign + (digits + tail) && digits != "" && IsDigit(digits[0])
    requires (digits + tail)[..Until(digits + tail, NotDigit)] == digits
    ensures LeadingDigits(s) == digits
  {
    hide Until, SkipSpace;
    var t := SkipSpace(s);
    if sign == "" {
      assert t == digits + tail && t[0] == digits[0];
    } else {
      assert t[0] == sign[0] && t[1..] == digits + tail;
    }
  }

  lemma StoulIs(s: string)
    requires LeadingDigits(s) != ""
    ensures var t, n := SkipSpace(s), Number(LeadingDigits(s));
            match Stoul(s)
            case None => n > 0xFFFF_FFFF_FFFF_FFFF
            case Some(v) =>
              && n <= 0xFFFF_FFFF_FFFF_FFFF
              && if t != "" && t[0] == '-' then (v + n) % 0x1_0000_0000_0000_0000 == 0 else v == n
  {
    hide Number, LeadingDigits, SkipSpace;
    Negated(Number(LeadingDigits(s)));
  }

  lemma Negated(n: nat)
    ensures n <= 0xFFFF_FFFF_FFFF_FFFF
        ==> ((0x1_0000_0000_0000_0000 - n) % 0x1_0000_0000_0000_0000 + n) % 0x1_0000_0000_0000_0000 == 0
  {
  }

  lemma FirstDigits(digits: string, tail: string)
    requires digits != "" && forall i | 0 <= i < |digits| :: IsDigit(digits[i])
    requires tail != "" ==> NotDigit(tail[0])
    ensures var u := digits + tail; IsDigit(u[0]) && u[..Until(u, NotDigit)] == digits
  {
    var u := digits + tail;
    assert IsDigit(digits[0]) && u[0] == digits[0];
    assert forall i | 0 <= i < |digits| :: u[i] == digits[i];
    UntilIs(u, NotDigit, |digits|);
  }

  lemma {:induction false} LeadingSpace(w: string, t: string)
    requires (forall i | 0 <= i < |w| :: IsSpace(w[i])) && t != "" && !IsSpace(t[0])
    ensures SkipSpace(w + t) == t
  {
    if w == "" {
      assert w + t == t;
    } else {
      assert IsSpace(w[0]) && (w + t)[1..] == w[1..] + t;
      LeadingSpace(w[1..], t);
    }
  }

  lemma StoulOfDecimal(n: uint64)
    ensures Stoul(Decimal(n)) == Some(n)
  {
    hide Decimal, Number, Stoul;
    NumberOfDecimal(n);
    StoulOfDigits(Decimal(n));
  }

  // the decimal form is the shortest that denotes as much
  lemma {:induction false} DecimalShort(digits: string, n: nat)
    requires digits != "" && (forall i | 0 <= i < |digits| :: IsDigit(digits[i])) && Number(digits) >= n
    ensures |Decimal(n)| <= |digits|
  {
    if n >= 10 {
      var init := digits[..|digits| - 1];
      assert IsDigit(digits[|digits| - 1]);
      assert init != "" by { assert Number("") == 0; }
      DecimalShort(init, n / 10);
    }
  }

  lemma KeysAreTokens()
    ensures IsToken("challenge") && IsToken("token-key") && IsToken("max-age") && IsToken("token")
  {
  }

  // ---- the operations as the source performs them

  method DropOws(s: string) returns (r: string)
    ensures r == SkipOws(s)
  {
    r := s;
    while r != "" && IsOws(r[0])
      invariant SkipOws(r) == SkipOws(s)
      decreases |r|
    {
      r := r[1..];
    }
  }

  function Glue(value: string, r: Option<(string, string)>): Option<(string, string)> {
    match r
    case None => None
    case Some((v, rest)) => Some((value + v, rest))
  }

  // what is still to be unquoted, when the character before may have been a backslash
  function Pending(s: string, escaped: bool): Option<(string, string)> {
    if !escaped then Unquote(s) else if s == "" then None else Cons(s[0], Unquote(s[1..]))
  }

  lemma GlueCons(value: string, c: char, r: Option<(string, string)>)
    ensures Glue(value, Cons(c, r)) == Glue(value + [c], r)
    ensures Glue("", r) == r
  {
    match r
    case None =>
    case Some((v, _)) =>
      assert value + ([c] + v) == value + [c] + v;
      assert "" + v == v;
  }

  method ReadQuotedString(s: string) returns (r: Option<(string, string)>)
    ensures r == Unquote(s)
  {
    hide Cons, Glue;
    var input, value, escaped := s, "", false;
    GlueCons("", ' ', Unquote(s));
    while input != ""
      invariant Glue(value, Pending(input, escaped)) == Unquote(s)
      decreases |input|
    {
      var c := input[0];
      PendingStep(input, escaped, value);
      input := input[1..];
      if escaped {
        value := value + [c];
        escaped := false;
      } else if c == '\\' {
        escaped := true;
      } else if c == '"' {
        return Some((value, input));
      } else {
        value := value + [c];
      }
    }
    PendingEnd(escaped, value);
    r := None;
  }

  lemma PendingStep(s: string, escaped: bool, value: string)
    requires s != ""
    ensures !escaped && s[0] == '"' ==> Glue(value, Pending(s, escaped)) == Some((value, s[1..]))
    ensures !escaped && s[0] == '\\' ==> Pending(s, escaped) == Pending(s[1..], true)
    ensures escaped || (s[0] != '"' && s[0] != '\\') ==>
              Glue(value, Pending(s, escaped)) == Glue(value + [s[0]], Pending(s[1..], false))
  {
    GlueCons(value, s[0], Unquote(s[1..]));
    assert value + "" == value;
  }

  lemma PendingEnd(escaped: bool, value: string)
    ensures Glue(value, Pending("", escaped)) == None
  {
  }

  method ReadKey(s: string) returns (r: Option<(string, string)>)
    ensures r == ParseKey(s)
  {
    hide IsTokenChar, SkipOws;
    var input := DropOws(s);
    if input == "" {
      return None;
    }
    var eq := Until(input, IsEquals);
    if eq == |input| || eq == 0 {
      return None;
    }
    var key := input[..eq];
    while key != "" && IsOws(key[|key| - 1])
      invariant TrimOws(key) == TrimOws(input[..eq])
      decreases |key|
    {
      key := key[..|key| - 1];
    }
    for i := 0 to |key|
      invariant forall k | 0 <= k < i :: IsTokenChar(key[k])
    {
      if !IsTokenChar(key[i]) {
        return None;
      }
    }
    if key == "" {
      return None;
    }
    input := DropOws(input[eq + 1..]);
    if input == "" {
      return None;
    }
    r := Some((key, input));
  }

  method ParseAuthParam(s: string) returns (param: Option<(string, string)>, rest: string)
    ensures match ParseParam(s)
            case None => param == None
            case Some((key, value, left)) => param == Some((key, value)) && rest == left
  {
    hide Unquote, SkipOws, Until;
    var read := ReadKey(s);
    if read == None {
      return None, s;
    }
    var (key, input) := read.value;
    var value: string;
    if input[0] == '"' {
      var unquoted := ReadQuotedString(input[1..]);
      if unquoted == None {
        return None, input;
      }
      value, input := unquoted.value.0, unquoted.value.1;
    } else {
      var end := 0;
      while end < |input| && input[end] != ',' && input[end] != ' ' && input[end] != '\t'
        invariant end <= |input| && forall k | 0 <= k < end :: !EndsToken(input[k])
      {
        end := end + 1;
      }
      UntilIs(input, EndsToken, end);
      value, input := input[..end], input[end..];
    }
    input := DropOws(input);
    if input != "" && input[0] == ',' {
      input := input[1..];
    }
    input := DropOws(input);
    return Some((key, value)), input;
  }
}
