// Authorization scopes of the MoQ extension: extensions/moq/src/auth_scope.cpp.
module MoqScopes {
  import opened Types
  import opened Wire

  // CLIENT_SETUP, SERVER_SETUP, PUBLISH_NAMESPACE, SUBSCRIBE_NAMESPACE, SUBSCRIBE, REQUEST_UPDATE, PUBLISH, FETCH,
  // TRACK_STATUS
  type Action = a: int | 0 <= a <= 8

  datatype MatchType = Exact | Prefix | Suffix | Contains {
    function Code(): byte {
      match this
      case Exact => 0
      case Prefix => 1
      case Suffix => 2
      case Contains => 3
    }
  }

  function MatchTypeOf(code: byte): (t: Option<MatchType>)
    ensures forall m: MatchType :: t == Some(m) <==> code == m.Code()
  {
    if code == 0 then Some(Exact) else if code == 1 then Some(Prefix) else if code == 2 then Some(Suffix)
    else if code == 3 then Some(Contains) else None
  }

  datatype MatchRule<T> = Wildcard | Rule(matchType: MatchType, pattern: seq<T>)

  datatype AuthScope = AuthScope(actions: seq<Action>, namespaceMatch: MatchRule<Bytes>, trackMatch: MatchRule<byte>)

  // ---- what the rules mean

  // the pattern stands at position k
  ghost predicate At<T>(s: seq<T>, pattern: seq<T>, k: nat) { k + |pattern| <= |s| && s[k..k + |pattern|] == pattern }

  ghost predicate Matches<T>(m: MatchType, pattern: seq<T>, s: seq<T>) {
    match m
    case Exact => s == pattern
    case Prefix => pattern <= s
    case Suffix => |pattern| <= |s| && At(s, pattern, |s| - |pattern|)
    case Contains => exists k: nat :: At(s, pattern, k)
  }

  ghost predicate NamespaceAllowed(m: MatchRule<Bytes>, ns: seq<Bytes>) {
    match m
    case Wildcard => true
    case Rule(matchType, pattern) => Matches(matchType, pattern, ns)
  }

  // searching an empty track name finds nothing, not even an empty pattern
  ghost predicate TrackAllowed(m: MatchRule<byte>, track: Bytes) {
    match m
    case Wildcard => true
    case Rule(matchType, pattern) => Matches(matchType, pattern, track) && (matchType == Contains ==> track != [])
  }

  ghost predicate Authorizes(scope: AuthScope, action: Action, ns: seq<Bytes>, track: Bytes) {
    action in scope.actions && NamespaceAllowed(scope.namespaceMatch, ns) && TrackAllowed(scope.trackMatch, track)
  }

  // equality element by element from position k on
  method EqualAt<T(==)>(s: seq<T>, pattern: seq<T>, k: nat) returns (equal: bool)
    requires k + |pattern| <= |s|
    ensures equal <==> At(s, pattern, k)
  {
    for i := 0 to |pattern|
      invariant s[k..k + i] == pattern[..i]
    {
      if s[k + i] != pattern[i] {
        assert s[k..k + |pattern|][i] != pattern[i];
        return false;
      }
      assert s[k..k + i + 1] == s[k..k + i] + [s[k + i]] && pattern[..i + 1] == pattern[..i] + [pattern[i]];
    }
    assert pattern[..|pattern|] == pattern;
    equal := true;
  }

  method NamespaceMatches(matchType: MatchType, pattern: seq<Bytes>, ns: seq<Bytes>) returns (matches: bool)
    ensures matches <==> Matches(matchType, pattern, ns)
  {
    match matchType
    case Exact =>
      if |ns| != |pattern| {
        return false;
      }
      matches := EqualAt(ns, pattern, 0);
      assert ns[0..|pattern|] == ns;
    case Prefix =>
      if |ns| < |pattern| {
        return false;
      }
      matches := EqualAt(ns, pattern, 0);
      assert ns[0..|pattern|] == pattern <==> pattern <= ns;
    case Suffix =>
      if |ns| < |pattern| {
        return false;
      }
      matches := EqualAt(ns, pattern, |ns| - |pattern|);
    case Contains =>
      var start := 0;
      while start + |pattern| <= |ns|
        invariant forall k: nat | k < start :: !At(ns, pattern, k)
      {
        var found := EqualAt(ns, pattern, start);
        if found {
          return true;
        }
        start := start + 1;
      }
      matches := false;
  }

  // the position of the first occurrence of the pattern, or the length of the text: std::search
  method Search(s: Bytes, pattern: Bytes) returns (position: nat)
    ensures position <= |s|
    ensures position < |s| ==> At(s, pattern, position)
    ensures position == |s| ==> s == [] || !exists k: nat :: At(s, pattern, k)
  {
    if pattern == [] {
      assert At(s, pattern, 0);
      return 0;
    }
    position := 0;
    while position + |pattern| <= |s|
      invariant position <= |s| && forall k: nat | k < position :: !At(s, pattern, k)
    {
      var found := EqualAt(s, pattern, position);
      if found {
        return;
      }
      position := position + 1;
    }
    position := |s|;
  }

  method TrackMatches(matchType: MatchType, pattern: Bytes, name: Bytes) returns (matches: bool)
    ensures matches <==> TrackAllowed(Rule(matchType, pattern), name)
  {
    match matchType
    case Exact => matches := name == pattern;
    case Prefix => matches := pattern <= name;
    case Suffix =>
      if |name| < |pattern| {
        return false;
      }
      matches := EqualAt(name, pattern, |name| - |pattern|);
    case Contains =>
      var position := Search(name, pattern);
      matches := position != |name|;
  }

  method ScopeAuthorizes(scope: AuthScope, action: Action, ns: seq<Bytes>, track: Bytes) returns (authorized: bool)
    ensures authorized <==> Authorizes(scope, action, ns, track)
  {
    if action !in scope.actions {
      return false;
    }
    var nsMatches := true;
    if scope.namespaceMatch.Rule? {
      nsMatches := NamespaceMatches(scope.namespaceMatch.matchType, scope.namespaceMatch.pattern, ns);
    }
    if !nsMatches {
      return false;
    }
    authorized := true;
    if scope.trackMatch.Rule? {
      authorized := TrackMatches(scope.trackMatch.matchType, scope.trackMatch.pattern, track);
    }
  }

  // ---- the wire format; sizes are cast to the width of their field

  const WILDCARD: byte := 0xFF

  function PrintActions(actions: seq<Action>): Bytes { actions }

  function PrintElements(elements: seq<Bytes>): Bytes {
    if elements == [] then [] else U16(|elements[0]|) + (elements[0] + PrintElements(elements[1..]))
  }

  function PrintNamespace(m: MatchRule<Bytes>): Bytes {
    match m
    case Wildcard => [WILDCARD]
    case Rule(matchType, pattern) => [matchType.Code(), |pattern| % 0x100] + PrintElements(pattern)
  }

  function PrintTrack(m: MatchRule<byte>): Bytes {
    match m
    case Wildcard => [WILDCARD]
    case Rule(matchType, pattern) => [matchType.Code()] + (U16(|pattern|) + pattern)
  }

  function PrintScope(scope: AuthScope): Bytes {
    [|scope.actions| % 0x100]
    + (PrintActions(scope.actions) + (PrintNamespace(scope.namespaceMatch) + PrintTrack(scope.trackMatch)))
  }

  function ParseActions(s: Bytes, count: nat): Result<(seq<Action>, Bytes)> {
    if count == 0 then Ok(([], s))
    else
      var (action, s1) :- ParseU8(s).OrElse(UNEXPECTED_END);
      if action > 8 then Err(MALFORMED_DATA)
      else
        var (actions, rest) :- ParseActions(s1, count - 1);
        Ok(([action] + actions, rest))
  }

  function ParseElements(s: Bytes, count: nat): Result<(seq<Bytes>, Bytes)> {
    if count == 0 then Ok(([], s))
    else
      var (element, s1) :- ParseField(s).OrElse(UNEXPECTED_END);
      var (elements, rest) :- ParseElements(s1, count - 1);
      Ok(([element] + elements, rest))
  }

  function ParseNamespace(s: Bytes): Result<(MatchRule<Bytes>, Bytes)> {
    var (code, s1) :- ParseU8(s).OrElse(UNEXPECTED_END);
    if code == WILDCARD then Ok((Wildcard, s1))
    else
      var matchType :- MatchTypeOf(code).OrElse(MALFORMED_DATA);
      var (count, s2) :- ParseU8(s1).OrElse(UNEXPECTED_END);
      var (pattern, rest) :- ParseElements(s2, count);
      Ok((Rule(matchType, pattern), rest))
  }

  function ParseTrack(s: Bytes): Result<(MatchRule<byte>, Bytes)> {
    var (code, s1) :- ParseU8(s).OrElse(UNEXPECTED_END);
    if code == WILDCARD then Ok((Wildcard, s1))
    else
      var matchType :- MatchTypeOf(code).OrElse(MALFORMED_DATA);
      var (pattern, rest) :- ParseField(s1).OrElse(UNEXPECTED_END);
      Ok((Rule(matchType, pattern), rest))
  }

  // the scope at the start of a text, and what follows it
  function ParsePrefix(s: Bytes): Result<(AuthScope, Bytes)> {
    var (count, s1) :- ParseU8(s).OrElse(UNEXPECTED_END);
    var (actions, s2) :- ParseActions(s1, count);
    var (namespaceMatch, s3) :- ParseNamespace(s2);
    var (trackMatch, rest) :- ParseTrack(s3);
    Ok((AuthScope(actions, namespaceMatch, trackMatch), rest))
  }

  // deserialize does not look at what follows the scope
  function ParseScope(s: Bytes): Result<AuthScope> {
    var (scope, _) :- ParsePrefix(s);
    Ok(scope)
  }

  predicate ShortElements(elements: seq<Bytes>) { forall i | 0 <= i < |elements| :: |elements[i]| <= 0xFFFF }

  // every size fits its field
  predicate InBounds(scope: AuthScope) {
    && |scope.actions| <= 0xFF
    && (scope.namespaceMatch.Rule? ==>
          |scope.namespaceMatch.pattern| <= 0xFF && ShortElements(scope.namespaceMatch.pattern))
    && (scope.trackMatch.Rule? ==> |scope.trackMatch.pattern| <= 0xFFFF)
  }

  lemma {:induction false} ActionsParse(s: Bytes, actions: seq<Action>, rest: Bytes)
    ensures ParseActions(s, |actions|) == Ok((actions, rest)) <==> s == PrintActions(actions) + rest
  {
    if actions == [] {
      assert PrintActions(actions) + rest == rest;
    } else {
      ActionsParse(if s == [] then [] else s[1..], actions[1..], rest);
      assert actions == [actions[0]] + actions[1..];
      assert PrintActions(actions) + rest == [actions[0]] + (PrintActions(actions[1..]) + rest);
      OctetParses(s, actions[0], PrintActions(actions[1..]) + rest);
    }
  }

  lemma ShortCons(element: Bytes, elements: seq<Bytes>)
    ensures ShortElements([element] + elements) <==> |element| <= 0xFFFF && ShortElements(elements)
  {
    var all := [element] + elements;
    assert all[0] == element && forall i | 0 <= i < |elements| :: all[i + 1] == elements[i];
  }

  lemma PrintCons(element: Bytes, elements: seq<Bytes>, rest: Bytes)
    ensures PrintElements([element] + elements) + rest == U16(|element|) + (element + (PrintElements(elements) + rest))
  {
    assert ([element] + elements)[1..] == elements;
  }

  lemma {:induction false} ElementsParse(s: Bytes, elements: seq<Bytes>, rest: Bytes)
    ensures ParseElements(s, |elements|) == Ok((elements, rest))
       <==> s == PrintElements(elements) + rest && ShortElements(elements)
    decreases |elements|
  {
    if elements == [] {
      assert PrintElements(elements) + rest == rest;
    } else {
      hide PrintElements, ShortElements, ParseField, U16;
      var e, tail := elements[0], elements[1..];
      assert elements == [e] + tail;
      ShortCons(e, tail);
      PrintCons(e, tail, rest);
      if |e| <= 0xFFFF {
        FieldParses(s, e, PrintElements(tail) + rest);
        ElementsParse(PrintElements(tail) + rest, tail, rest);
      }
      if ParseElements(s, |elements|) == Ok((elements, rest)) {
        var read := ParseField(s).value;
        ParsedFieldLength(s);
        assert read.0 == e && ParseElements(read.1, |tail|).value.0 == tail;
        FieldParses(s, e, read.1);
        ElementsParse(read.1, tail, rest);
      }
    }
  }

  lemma NamespaceParses(s: Bytes, m: MatchRule<Bytes>, rest: Bytes)
    ensures ParseNamespace(s) == Ok((m, rest))
       <==> s == PrintNamespace(m) + rest && (m.Rule? ==> |m.pattern| <= 0xFF && ShortElements(m.pattern))
  {
    hide ParseElements, PrintElements, ShortElements, ParseU8;
    match m
    case Wildcard =>
      OctetParses(s, WILDCARD, rest);
      if ParseNamespace(s) == Ok((m, rest)) {
        var (code, s1) := ParseU8(s).value;
        assert code == WILDCARD;
      }
    case Rule(matchType, pattern) =>
      var body := PrintElements(pattern) + rest;
      assert PrintNamespace(m) + rest == [matchType.Code()] + ([|pattern| % 0x100] + body);
      OctetParses(s, matchType.Code(), [|pattern| % 0x100] + body);
      OctetParses([|pattern| % 0x100] + body, |pattern| % 0x100, body);
      ElementsParse(body, pattern, rest);
      if ParseNamespace(s) == Ok((m, rest)) {
        var (code, s1) := ParseU8(s).value;
        var (count, s2) := ParseU8(s1).value;
        ElementCount(s2, count);
        OctetParses(s, code, s1);
        OctetParses(s1, count, s2);
        ElementsParse(s2, pattern, rest);
      }
  }

  lemma {:induction false} ElementCount(s: Bytes, count: nat)
    ensures ParseElements(s, count).Ok? ==> |ParseElements(s, count).value.0| == count
  {
    if count > 0 && ParseField(s).Some? {
      ElementCount(ParseField(s).value.1, count - 1);
    }
  }

  lemma TrackParses(s: Bytes, m: MatchRule<byte>, rest: Bytes)
    ensures ParseTrack(s) == Ok((m, rest)) <==> s == PrintTrack(m) + rest && (m.Rule? ==> |m.pattern| <= 0xFFFF)
  {
    hide ParseField, U16, ParseU8;
    match m
    case Wildcard =>
      OctetParses(s, WILDCARD, rest);
      if ParseTrack(s) == Ok((m, rest)) {
        var (code, s1) := ParseU8(s).value;
        assert code == WILDCARD;
      }
    case Rule(matchType, pattern) =>
      var body := U16(|pattern|) + (pattern + rest);
      assert PrintTrack(m) + rest == [matchType.Code()] + body;
      OctetParses(s, matchType.Code(), body);
      if |pattern| <= 0xFFFF {
        FieldParses(body, pattern, rest);
      }
      if ParseTrack(s) == Ok((m, rest)) {
        var (code, s1) := ParseU8(s).value;
        OctetParses(s, code, s1);
        ParsedFieldLength(s1);
        FieldParses(s1, pattern, rest);
      }
  }

  lemma {:induction false} ActionCount(s: Bytes, count: nat)
    ensures ParseActions(s, count).Ok? ==> |ParseActions(s, count).value.0| == count
  {
    if count > 0 && s != [] {
      ActionCount(s[1..], count - 1);
    }
  }

  // exactly the printed scopes whose sizes fit are read
  lemma PrefixParses(s: Bytes, scope: AuthScope, rest: Bytes)
    ensures ParsePrefix(s) == Ok((scope, rest)) <==> s == PrintScope(scope) + rest && InBounds(scope)
  {
    hide ParseU8, ParseActions, ParseNamespace, ParseTrack, PrintActions, PrintNamespace, PrintTrack, ShortElements;
    var AuthScope(actions, namespaceMatch, trackMatch) := scope;
    var t3 := PrintTrack(trackMatch) + rest;
    var t2 := PrintNamespace(namespaceMatch) + t3;
    var t1 := PrintActions(actions) + t2;
    Reassociate([|actions| % 0x100], PrintActions(actions), PrintNamespace(namespaceMatch), PrintTrack(trackMatch),
                rest);
    OctetParses(s, |actions| % 0x100, t1);
    ActionsParse(t1, actions, t2);
    NamespaceParses(t2, namespaceMatch, t3);
    TrackParses(t3, trackMatch, rest);
    if s == PrintScope(scope) + rest && InBounds(scope) {
      assert ParseU8(s) == Some((|actions|, t1)) && ParseActions(t1, |actions|) == Ok((actions, t2));
      assert ParseNamespace(t2) == Ok((namespaceMatch, t3)) && ParseTrack(t3) == Ok((trackMatch, rest));
    }
    if ParsePrefix(s) == Ok((scope, rest)) {
      var (count, s1) := ParseU8(s).value;
      var s2 := ParseActions(s1, count).value.1;
      var s3 := ParseNamespace(s2).value.1;
      ActionCount(s1, count);
      assert ParseActions(s1, count) == Ok((actions, s2));
      OctetParses(s, count, s1);
      ActionsParse(s1, actions, s2);
      NamespaceParses(s2, namespaceMatch, s3);
      TrackParses(s3, trackMatch, rest);
      assert ParseActions(s1, |actions|) == Ok((actions, s2));
      assert ParseNamespace(s2) == Ok((namespaceMatch, s3));
      assert ParseTrack(s3).value.0 == trackMatch && ParseTrack(s3).value.1 == rest;
      assert ParseTrack(s3) == Ok((trackMatch, rest));
    }
  }

  lemma Reassociate(a: Bytes, b: Bytes, c: Bytes, d: Bytes, e: Bytes)
    ensures a + (b + (c + d)) + e == a + (b + (c + (d + e)))
  {
  }

  // A scope comes back exactly when its counts and lengths fit their fields, whatever follows it.
  lemma ScopeRoundTrip(scope: AuthScope, rest: Bytes)
    ensures ParseScope(PrintScope(scope) + rest) == Ok(scope) <==> InBounds(scope)
  {
    var s := PrintScope(scope) + rest;
    PrefixParses(s, scope, rest);
    if ParseScope(s) == Ok(scope) {
      PrefixParses(s, scope, ParsePrefix(s).value.1);
    }
  }

  // ---- the operations as the source performs them

  // the fields of the builder
  class ScopeBuilder {
    var actions: seq<Action>
    var namespaceMatch: MatchRule<Bytes>
    var trackMatch: MatchRule<byte>

    function Built(): AuthScope
      reads this
    {
      AuthScope(actions, namespaceMatch, trackMatch)
    }

    constructor ()
      ensures Built() == AuthScope([], Wildcard, Wildcard)
    {
      actions, namespaceMatch, trackMatch := [], Wildcard, Wildcard;
    }

    method AllowAction(action: Action)
      modifies this
      ensures Built() == old(Built()).(actions := old(actions) + [action])
    {
      actions := actions + [action];
    }

    method AllowActions(allowed: seq<Action>)
      modifies this
      ensures Built() == old(Built()).(actions := old(actions) + allowed)
    {
      for i := 0 to |allowed|
        invariant Built() == old(Built()).(actions := old(actions) + allowed[..i])
      {
        actions := actions + [allowed[i]];
        assert allowed[..i + 1] == allowed[..i] + [allowed[i]];
      }
      assert allowed[..|allowed|] == allowed;
    }

    method ForNamespace(matchType: MatchType, pattern: seq<Bytes>)
      modifies this
      ensures Built() == old(Built()).(namespaceMatch := Rule(matchType, pattern))
    {
      namespaceMatch := Rule(matchType, pattern);
    }

    method ForTrack(matchType: MatchType, pattern: Bytes)
      modifies this
      ensures Built() == old(Built()).(trackMatch := Rule(matchType, pattern))
    {
      trackMatch := Rule(matchType, pattern);
    }
  }

  method WriteElement(writer: ByteWriter, element: Bytes)
    requires writer.Valid() && writer.external == null
    modifies writer
    ensures writer.Valid() && writer.View() == old(writer.View()) + (U16(|element|) + element)
  {
    hide U16, ByteWriter.Room, ByteWriter.View, ByteWriter.Valid;
    SameU16(|element|);
    var ok := writer.WriteU16(|element| % 0x1_0000);
    ok := writer.WriteBytes(element);
  }

  method WriteElements(writer: ByteWriter, elements: seq<Bytes>)
    requires writer.Valid() && writer.external == null
    modifies writer
    ensures writer.Valid() && writer.View() == old(writer.View()) + PrintElements(elements)
  {
    hide U16, PrintElements;
    NoElements();
    for i := 0 to |elements|
      invariant writer.Valid() && writer.View() == old(writer.View()) + PrintElements(elements[..i])
    {
      ElementsSnoc(elements, i);
      WriteElement(writer, elements[i]);
    }
    assert elements[..|elements|] == elements;
  }

  lemma NoElements()
    ensures PrintElements([]) == []
  {
  }

  // a size cast to sixteen bits and then written is the size written
  lemma SameU16(n: nat)
    ensures U16(n % 0x1_0000) == U16(n)
  {
    var q, m := n / 0x1_0000, n % 0x1_0000;
    var h, l := m / 0x100, m % 0x100;
    assert n == (q * 0x100 + h) * 0x100 + l;
    LowByte(n, q * 0x100 + h, l);
    LowByte(q * 0x100 + h, q, h);
  }

  lemma LowByte(n: nat, q: nat, l: byte)
    requires n == q * 0x100 + l
    ensures n / 0x100 == q && n % 0x100 == l
  {
  }

  lemma {:induction false} ElementsConcat(a: seq<Bytes>, b: seq<Bytes>)
    ensures PrintElements(a + b) == PrintElements(a) + PrintElements(b)
  {
    if a == [] {
      assert a + b == b;
    } else {
      assert (a + b)[1..] == a[1..] + b;
      ElementsConcat(a[1..], b);
    }
  }

  lemma ElementsSnoc(elements: seq<Bytes>, i: nat)
    requires i < |elements|
    ensures PrintElements(elements[..i + 1]) == PrintElements(elements[..i]) + (U16(|elements[i]|) + elements[i])
  {
    assert elements[..i + 1] == elements[..i] + [elements[i]];
    ElementsConcat(elements[..i], [elements[i]]);
    PrintCons(elements[i], [], []);
    NoElements();
  }

  method WriteNamespace(writer: ByteWriter, m: MatchRule<Bytes>)
    requires writer.Valid() && writer.external == null
    modifies writer
    ensures writer.Valid() && writer.View() == old(writer.View()) + PrintNamespace(m)
  {
    hide ByteWriter.Room, ByteWriter.View, ByteWriter.Valid, PrintElements;
    var ok;
    match m {
      case Wildcard =>
        ok := writer.WriteU8(WILDCARD);
      case Rule(matchType, pattern) =>
        ok := writer.WriteU8(matchType.Code());
        ok := writer.WriteU8(|pattern| % 0x100);
        WriteElements(writer, pattern);
    }
  }

  method WriteTrack(writer: ByteWriter, m: MatchRule<byte>)
    requires writer.Valid() && writer.external == null
    modifies writer
    ensures writer.Valid() && writer.View() == old(writer.View()) + PrintTrack(m)
  {
    hide ByteWriter.Room, ByteWriter.View, ByteWriter.Valid, U16;
    var ok;
    match m {
      case Wildcard =>
        ok := writer.WriteU8(WILDCARD);
      case Rule(matchType, pattern) =>
        SameU16(|pattern|);
        ok := writer.WriteU8(matchType.Code());
        ok := writer.WriteU16(|pattern| % 0x1_0000);
        ok := writer.WriteBytes(pattern);
    }
  }

  method SerializeScope(scope: AuthScope) returns (data: Bytes)
    ensures data == PrintScope(scope)
  {
    hide ByteWriter.Room, ByteWriter.View, ByteWriter.Valid, PrintNamespace, PrintTrack;
    var writer := new ByteWriter();
    var ok := writer.WriteU8(|scope.actions| % 0x100);
    for i := 0 to |scope.actions|
      invariant writer.Valid() && writer.external == null && fresh(writer)
      invariant writer.View() == [|scope.actions| % 0x100] + scope.actions[..i]
    {
      ok := writer.WriteU8(scope.actions[i]);
      assert scope.actions[..i + 1] == scope.actions[..i] + [scope.actions[i]];
    }
    assert scope.actions[..|scope.actions|] == scope.actions;
    WriteNamespace(writer, scope.namespaceMatch);
    WriteTrack(writer, scope.trackMatch);
    data := writer.View();
  }

  method ReadActions(reader: ByteReader, count: byte) returns (r: Result<seq<Action>>)
    requires reader.Valid()
    modifies reader
    ensures reader.Valid()
    ensures match ParseActions(old(reader.Rest()), count)
            case Err(error) => r == Err(error)
            case Ok((actions, rest)) => r == Ok(actions) && reader.Rest() == rest
  {
    hide ParseActions, ParseU8, Prepended;
    var actions: seq<Action> := [];
    ghost var left: nat := count;
    NothingYet(ParseActions(reader.Rest(), count));
    for i := 0 to count
      invariant reader.Valid() && left == count as int - i
      invariant Prepended(actions, ParseActions(reader.Rest(), left)) == ParseActions(old(reader.Rest()), count)
    {
      ActionStep(actions, reader.Rest(), left);
      var action := reader.ReadU8();
      if action == None {
        return Err(UNEXPECTED_END);
      }
      if action.value > 8 {
        return Err(MALFORMED_DATA);
      }
      actions := actions + [action.value];
      left := left - 1;
    }
    NoActionsLeft(actions, reader.Rest());
    r := Ok(actions);
  }

  function Prepended<T>(done: seq<T>, r: Result<(seq<T>, Bytes)>): Result<(seq<T>, Bytes)> {
    match r
    case Err(error) => Err(error)
    case Ok((more, rest)) => Ok((done + more, rest))
  }

  lemma NothingYet<T>(r: Result<(seq<T>, Bytes)>)
    ensures Prepended([], r) == r
  {
    if r.Ok? {
      assert [] + r.value.0 == r.value.0;
    }
  }

  lemma NoActionsLeft(done: seq<Action>, s: Bytes)
    ensures Prepended(done, ParseActions(s, 0)) == Ok((done, s))
  {
    assert done + [] == done;
  }

  lemma ActionStep(done: seq<Action>, s: Bytes, count: nat)
    requires count > 0
    ensures ParseU8(s) == None ==> Prepended(done, ParseActions(s, count)) == Err(UNEXPECTED_END)
    ensures ParseU8(s).Some? && ParseU8(s).value.0 > 8 ==>
              Prepended(done, ParseActions(s, count)) == Err(MALFORMED_DATA)
    ensures ParseU8(s).Some? && ParseU8(s).value.0 <= 8 ==>
              var action: Action := ParseU8(s).value.0;
              Prepended(done, ParseActions(s, count))
              == Prepended(done + [action], ParseActions(ParseU8(s).value.1, count - 1))
  {
    hide ParseU8;
    if ParseU8(s).Some? && ParseU8(s).value.0 <= 8 {
      var tail := ParseActions(ParseU8(s).value.1, count - 1);
      if tail.Ok? {
        var action: Action := ParseU8(s).value.0;
        assert done + ([action] + tail.value.0) == done + [action] + tail.value.0;
      }
    }
  }

  method ReadElements(reader: ByteReader, count: byte) returns (r: Result<seq<Bytes>>)
    requires reader.Valid()
    modifies reader
    ensures reader.Valid()
    ensures match ParseElements(old(reader.Rest()), count)
            case Err(error) => r == Err(error)
            case Ok((elements, rest)) => r == Ok(elements) && reader.Rest() == rest
  {
    hide ParseElements, ParseU16, ParseBytes, Prepended;
    var elements: seq<Bytes> := [];
    ghost var left: nat := count;
    NothingYet(ParseElements(reader.Rest(), count));
    for i := 0 to count
      invariant reader.Valid() && left == count as int - i
      invariant Prepended(elements, ParseElements(reader.Rest(), left)) == ParseElements(old(reader.Rest()), count)
    {
      ElementStep(elements, reader.Rest(), left);
      var length := reader.ReadU16();
      if length == None {
        return Err(UNEXPECTED_END);
      }
      var element := reader.ReadBytes(length.value);
      if element == None {
        return Err(UNEXPECTED_END);
      }
      elements := elements + [element.value];
      left := left - 1;
    }
    NoElementsLeft(elements, reader.Rest());
    r := Ok(elements);
  }

  lemma NoElementsLeft(done: seq<Bytes>, s: Bytes)
    ensures Prepended(done, ParseElements(s, 0)) == Ok((done, s))
  {
    assert done + [] == done;
  }

  lemma ElementStep(done: seq<Bytes>, s: Bytes, count: nat)
    requires count > 0
    ensures ParseField(s) == None ==> Prepended(done, ParseElements(s, count)) == Err(UNEXPECTED_END)
    ensures ParseField(s).Some? ==>
              var read := ParseField(s).value;
              Prepended(done, ParseElements(s, count)) == Prepended(done + [read.0], ParseElements(read.1, count - 1))
  {
    hide ParseField;
    if ParseField(s).Some? {
      var element := ParseField(s).value.0;
      var tail := ParseElements(ParseField(s).value.1, count - 1);
      if tail.Ok? {
        assert done + ([element] + tail.value.0) == done + [element] + tail.value.0;
      }
    }
  }

  method ReadNamespace(reader: ByteReader) returns (r: Result<MatchRule<Bytes>>)
    requires reader.Valid()
    modifies reader
    ensures reader.Valid()
    ensures match ParseNamespace(old(reader.Rest()))
            case Err(error) => r == Err(error)
            case Ok((m, rest)) => r == Ok(m) && reader.Rest() == rest
  {
    hide ParseElements, ParseU8;
    var code := reader.ReadU8();
    if code == None {
      return Err(UNEXPECTED_END);
    }
    if code.value == WILDCARD {
      return Ok(Wildcard);
    }
    var matchType := MatchTypeOf(code.value);
    if matchType == None {
      return Err(MALFORMED_DATA);
    }
    var count := reader.ReadU8();
    if count == None {
      return Err(UNEXPECTED_END);
    }
    var pattern := ReadElements(reader, count.value);
    if pattern.Err? {
      return Err(pattern.error);
    }
    r := Ok(Rule(matchType.value, pattern.value));
  }

  method ReadTrack(reader: ByteReader) returns (r: Result<MatchRule<byte>>)
    requires reader.Valid()
    modifies reader
    ensures reader.Valid()
    ensures match ParseTrack(old(reader.Rest()))
            case Err(error) => r == Err(error)
            case Ok((m, rest)) => r == Ok(m) && reader.Rest() == rest
  {
    hide ParseU8, ParseU16, ParseBytes;
    var code := reader.ReadU8();
    if code == None {
      return Err(UNEXPECTED_END);
    }
    if code.value == WILDCARD {
      return Ok(Wildcard);
    }
    var matchType := MatchTypeOf(code.value);
    if matchType == None {
      return Err(MALFORMED_DATA);
    }
    var length := reader.ReadU16();
    if length == None {
      return Err(UNEXPECTED_END);
    }
    var pattern := reader.ReadBytes(length.value);
    if pattern == None {
      return Err(UNEXPECTED_END);
    }
    r := Ok(Rule(matchType.value, pattern.value));
  }

  method DeserializeScope(data: Bytes) returns (r: Result<AuthScope>)
    ensures r == ParseScope(data)
  {
    hide ParseU8, ParseActions, ParseNamespace, ParseTrack;
    var reader := new ByteReader(data);
    var count := reader.ReadU8();
    if count == None {
      return Err(UNEXPECTED_END);
    }
    var actions := ReadActions(reader, count.value);
    if actions.Err? {
      return Err(actions.error);
    }
    var namespaceMatch := ReadNamespace(reader);
    if namespaceMatch.Err? {
      return Err(namespaceMatch.error);
    }
    var trackMatch := ReadTrack(reader);
    if trackMatch.Err? {
      return Err(trackMatch.error);
    }
    r := Ok(AuthScope(actions.value, namespaceMatch.value, trackMatch.value));
  }
}
