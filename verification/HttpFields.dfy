/** What a list of header lines says, judged line by line, and that the parser reads just that out of the
    map it keeps (haha_web/http/HttpRequest.cpp:253-333). */
module HttpFields {
  import opened Text
  import opened HttpModel

  /** A header line: key, colon, what is passed over, value. */
  datatype HeaderField = HeaderField(key: string, gap: string, value: string)

  function HeaderMap(hs: seq<HeaderField>, m: map<string, string>): map<string, string> {
    if hs == [] then m else HeaderMap(hs[1..], m[ToLowers(hs[0].key) := hs[0].value])
  }

  /** The value of the last line whose key is the name, in any case of its letters. */
  function LastValue(hs: seq<HeaderField>, name: string): Option<string> {
    if hs == [] then None
    else if SameUpToCase(hs[|hs| - 1].key, name) then Some(hs[|hs| - 1].value)
    else LastValue(hs[..|hs| - 1], name)
  }

  lemma {:induction false} HeaderMapLast(hs: seq<HeaderField>, m: map<string, string>)
    requires hs != []
    ensures var last := hs[|hs| - 1];
      HeaderMap(hs, m) == HeaderMap(hs[..|hs| - 1], m)[ToLowers(last.key) := last.value]
    decreases |hs|
  {
    hide ToLowers;
    if |hs| > 1 {
      HeaderMapLast(hs[1..], m[ToLowers(hs[0].key) := hs[0].value]);
      assert hs[..|hs| - 1][1..] == hs[1..][..|hs| - 2];
    }
  }

  /** The map holds the last value of every name, and nothing else. */
  lemma {:induction false} MapHoldsLast(hs: seq<HeaderField>, name: string)
    ensures var m, v := HeaderMap(hs, map[]), LastValue(hs, name);
      (ToLowers(name) in m <==> v.Some?) && (v.Some? ==> m[ToLowers(name)] == v.value)
    decreases |hs|
  {
    hide ToLowers, SameUpToCase;
    if hs != [] {
      HeaderMapLast(hs, map[]);
      LowersForget(hs[|hs| - 1].key, name);
      MapHoldsLast(hs[..|hs| - 1], name);
    }
  }

  lemma {:induction false} MapIsLower(hs: seq<HeaderField>)
    ensures forall name <- HeaderMap(hs, map[]) :: NoUpper(name)
  {
    hide ToLowers;
    if hs != [] {
      HeaderMapLast(hs, map[]);
      LowersForget(hs[|hs| - 1].key, "");
      MapIsLower(hs[..|hs| - 1]);
    }
  }

  // ---------------------------------------------------------------- what the lines mean

  /** The content types, each with the text its value begins with. */
  const TYPES: seq<(string, ContentType)> :=
    [("application/x-www-form-urlencoded", URLENCODED), ("multipart/form-data", MULTIPART),
     ("text/plain", PLAIN), ("text/html", HTML), ("application/json", JSON)]

  function FirstMatch(v: string, types: seq<(string, ContentType)>): ContentType {
    if types == [] then UNKNOWN
    else if StartsUpToCase(v, types[0].0) then types[0].1
    else FirstMatch(v, types[1..])
  }

  function TypeMeant(hs: seq<HeaderField>): Option<ContentType> {
    match LastValue(hs, "content-type")
    case None => None
    case Some(v) => Some(FirstMatch(v, TYPES))
  }

  predicate KeepsAlive(hs: seq<HeaderField>, version: HttpVersion) {
    match LastValue(hs, "connection")
    case None => version != HTTP_1_0
    case Some(v) => SameUpToCase(v, "keep-alive")
  }

  /** The announced length, None if there is none or it does not convert. */
  function LengthMeant(e: Params, hs: seq<HeaderField>): Option<nat> {
    match LastValue(hs, "content-length")
    case None => None
    case Some(v) => e.stoul(v)
  }

  predicate LengthReads(e: Params, hs: seq<HeaderField>) {
    LastValue(hs, "content-length").Some? ==> LengthMeant(e, hs).Some?
  }

  predicate IsChunked(hs: seq<HeaderField>) {
    var coding := LastValue(hs, "transfer-encoding"); coding.Some? && SameUpToCase(coding.value, "chunked")
  }

  /** Everything that is read out of the lines. */
  function FieldsMeant(e: Params, hs: seq<HeaderField>, version: HttpVersion): Fields {
    var accept := LastValue(hs, "accept-encoding");
    Fields(KeepsAlive(hs, version), accept.Some? && Contains(accept.value, "gzip"), TypeMeant(hs),
           LastValue(hs, "cookie").Some?,
           LastValue(hs, "content-length").Some?, LengthMeant(e, hs).GetOr(0),
           LastValue(hs, "transfer-encoding").Some?, IsChunked(hs),
           accept.GetOr(""), ToLowers(LastValue(hs, "transfer-encoding").GetOr("")))
  }

  // ---------------------------------------------------------------- and is read

  lemma PrefixRead(v: string, p: string)
    requires NoUpper(p)
    ensures StartsUpToCase(v, p) <==> StartsWith(ToLowers(v), p)
  {
    hide SameUpToCase;
    if |p| <= |v| {
      assert ToLowers(v)[..|p|] == ToLowers(v[..|p|]);
      LowersForget(v[..|p|], p);
      LowerStays(p);
    }
  }

  lemma OneMatch(v: string, k: nat)
    requires k <= |TYPES|
    ensures FirstMatch(v, TYPES[k..]) ==
      if k == |TYPES| then UNKNOWN
      else if StartsUpToCase(v, TYPES[k].0) then TYPES[k].1
      else FirstMatch(v, TYPES[k + 1..])
  {
    hide StartsUpToCase, TYPES;
    var types := TYPES[k..];
    if types != [] {
      assert types[0] == TYPES[k] && types[1..] == TYPES[k + 1..];
    }
  }

  lemma TypesLower(k: nat)
    requires k < |TYPES|
    ensures NoUpper(TYPES[k].0)
  {
  }

  /** The chain of the code, over the list of types. */
  lemma TypeChain(v: string)
    ensures FirstMatch(v, TYPES) ==
      if StartsUpToCase(v, TYPES[0].0) then URLENCODED
      else if StartsUpToCase(v, TYPES[1].0) then MULTIPART
      else if StartsUpToCase(v, TYPES[2].0) then PLAIN
      else if StartsUpToCase(v, TYPES[3].0) then HTML
      else if StartsUpToCase(v, TYPES[4].0) then JSON
      else UNKNOWN
  {
    hide StartsUpToCase, FirstMatch;
    OneMatch(v, 0);
    OneMatch(v, 1);
    OneMatch(v, 2);
    OneMatch(v, 3);
    OneMatch(v, 4);
    OneMatch(v, 5);
    assert TYPES[0..] == TYPES;
  }

  lemma TypeRead(v: string)
    ensures ContentTypeOf(ToLowers(v)) == FirstMatch(v, TYPES)
  {
    hide ToLowers, StartsUpToCase, StartsWith, FirstMatch, NoUpper;
    TypeChain(v);
    forall k: nat | k < |TYPES|
      ensures StartsUpToCase(v, TYPES[k].0) <==> StartsWith(ToLowers(v), TYPES[k].0)
    {
      TypesLower(k);
      PrefixRead(v, TYPES[k].0);
    }
  }

  /** Names and values are compared in lower case. */
  lemma NameRead(hs: seq<HeaderField>, name: string)
    requires NoUpper(name)
    ensures var m, v := HeaderMap(hs, map[]), LastValue(hs, name);
      (name in m <==> v.Some?) && (v.Some? ==> m[name] == v.value)
  {
    hide ToLowers, HeaderMap, LastValue;
    MapHoldsLast(hs, name);
    LowerStays(name);
  }

  lemma ValueRead(v: string, text: string)
    requires NoUpper(text)
    ensures ToLowers(v) == text <==> SameUpToCase(v, text)
  {
    LowersForget(v, text);
    LowerStays(text);
  }

  lemma KeepAliveRead(hs: seq<HeaderField>, version: HttpVersion)
    ensures KeepAliveOf(HeaderMap(hs, map[]), version) == KeepsAlive(hs, version)
  {
    hide ToLowers, HeaderMap, LastValue, SameUpToCase;
    NameRead(hs, "connection");
    ValueRead(LastValue(hs, "connection").GetOr(""), "keep-alive");
  }

  lemma TypeMeantRead(hs: seq<HeaderField>)
    ensures ContentTypeIn(HeaderMap(hs, map[])) == TypeMeant(hs)
  {
    hide ToLowers, HeaderMap, LastValue, ContentTypeOf, FirstMatch;
    NameRead(hs, "content-type");
    TypeRead(LastValue(hs, "content-type").GetOr(""));
  }

  lemma LengthRead(e: Params, hs: seq<HeaderField>)
    ensures var m := HeaderMap(hs, map[]);
      && ("content-length" in m <==> LastValue(hs, "content-length").Some?)
      && (ContentLengthOf(e, m).Some? <==> LengthReads(e, hs))
      && (LengthReads(e, hs) ==> ContentLengthOf(e, m) == Some(LengthMeant(e, hs).GetOr(0)))
  {
    hide HeaderMap, LastValue;
    NameRead(hs, "content-length");
  }

  lemma CodingRead(hs: seq<HeaderField>)
    ensures var m := HeaderMap(hs, map[]); var coding := LastValue(hs, "transfer-encoding");
      && ("transfer-encoding" in m <==> coding.Some?) && TransferEncodingIn(m) == ToLowers(coding.GetOr(""))
      && (TransferEncodingIn(m) == "chunked" <==> IsChunked(hs))
  {
    hide ToLowers, HeaderMap, LastValue, SameUpToCase;
    NameRead(hs, "transfer-encoding");
    ValueRead(LastValue(hs, "transfer-encoding").GetOr(""), "chunked");
    assert ToLowers("") == "";
  }

  lemma AcceptRead(hs: seq<HeaderField>)
    ensures var m := HeaderMap(hs, map[]); var accept := LastValue(hs, "accept-encoding");
      && CompressedOf(m) == (accept.Some? && Contains(accept.value, "gzip")) && AcceptEncodingIn(m) == accept.GetOr("")
      && ("cookie" in m <==> LastValue(hs, "cookie").Some?)
  {
    hide HeaderMap, LastValue, Contains;
    NameRead(hs, "accept-encoding");
    NameRead(hs, "cookie");
  }

  /** Out of the map the parser reads what the lines mean: the last value of each name counts, names and
      the values with a meaning of their own in any case; only a length that does not convert stops it. */
  lemma FieldsRead(e: Params, hs: seq<HeaderField>, version: HttpVersion)
    ensures var (f, ok) := ReadFields(e, HeaderMap(hs, map[]), version);
      (ok <==> LengthReads(e, hs)) && (ok ==> f == FieldsMeant(e, hs, version))
  {
    hide HeaderMap, LastValue, KeepAliveOf, CompressedOf, ContentTypeIn, ContentLengthOf, TransferEncodingIn;
    hide AcceptEncodingIn, Contains, TypeMeant, KeepsAlive, IsChunked, LengthMeant;
    KeepAliveRead(hs, version);
    TypeMeantRead(hs);
    LengthRead(e, hs);
    CodingRead(hs);
    AcceptRead(hs);
  }
}
