/** JSON values and how they print (haha_web/haha_json/haha_json/jsonValue.h, jsonValue.cpp). */
module JsonValue {
  import opened Text

  /** JsonArray's vector is a sequence; JsonObject's std::map is its members in key order.
      A double is a real number. */
  datatype Json =
    | JNull
    | JBool(b: bool)
    | JInt(i: int)
    | JDouble(d: real)
    | JString(s: string)
    | JArray(items: seq<Json>)
    | JObject(members: seq<Member>)

  datatype Member = Member(key: string, value: Json)

  datatype Layout = RAW | SPACE | NEWLINE

  // ---------------------------------------------------------------- maps in key order

  /** std::string's operator<. */
  predicate Less(a: string, b: string) {
    b != "" && (a == "" || a[0] < b[0] || (a[0] == b[0] && Less(a[1..], b[1..])))
  }

  ghost predicate Sorted(ms: seq<Member>) {
    forall i, j :: 0 <= i < j < |ms| ==> Less(ms[i].key, ms[j].key)
  }

  /** std::map::insert: an existing key keeps its value. */
  function Insert(ms: seq<Member>, key: string, value: Json): seq<Member> {
    if ms == [] || Less(key, ms[0].key) then [Member(key, value)] + ms
    else if ms[0].key == key then ms
    else [ms[0]] + Insert(ms[1..], key, value)
  }

  /** The texts part after k bytes: the first ends there, or its next byte is the lower one. */
  predicate PartsAt(a: string, b: string, k: nat) {
    k <= |a| && k < |b| && a[..k] == b[..k] && (k < |a| ==> a[k] < b[k])
  }

  lemma {:induction false} LessIff(a: string, b: string)
    ensures Less(a, b) <==> exists k :: PartsAt(a, b, k)
  {
    if a == "" || b == "" || a[0] != b[0] {
      assert a != "" && b != "" ==>
        forall k: nat :: 0 < k <= |a| && k <= |b| ==> a[..k][0] == a[0] && b[..k][0] == b[0];
      assert Less(a, b) ==> PartsAt(a, b, 0);
    } else {
      LessIff(a[1..], b[1..]);
      if k: nat :| PartsAt(a[1..], b[1..], k) {
        assert a[..k + 1] == [a[0]] + a[1..][..k] && b[..k + 1] == [b[0]] + b[1..][..k];
        assert PartsAt(a, b, k + 1);
      }
      if k: nat :| PartsAt(a, b, k) {
        assert a[..k][1..] == a[1..][..k - 1] && b[..k][1..] == b[1..][..k - 1];
        assert PartsAt(a[1..], b[1..], k - 1);
      }
    }
  }

  lemma {:induction false} LessIrreflexive(a: string, b: string)
    ensures Less(a, b) ==> a != b && !Less(b, a)
  {
    if a != "" && b != "" {
      LessIrreflexive(a[1..], b[1..]);
    }
  }

  lemma {:induction false} LessTransitive(a: string, b: string, c: string)
    requires Less(a, b) && Less(b, c)
    ensures Less(a, c)
  {
    if a != "" && b != "" && c != "" && a[0] == b[0] == c[0] {
      LessTransitive(a[1..], b[1..], c[1..]);
    }
  }

  lemma {:induction false} LessTotal(a: string, b: string)
    ensures a == b || Less(a, b) || Less(b, a)
  {
    if a != "" && b != "" && a[0] == b[0] {
      LessTotal(a[1..], b[1..]);
      assert a == [a[0]] + a[1..] && b == [b[0]] + b[1..];
    }
  }

  /** A map stays in key order, holds the new key, and changes no key it had. */
  lemma {:induction false} InsertSorted(ms: seq<Member>, key: string, value: Json)
    requires Sorted(ms)
    ensures Sorted(Insert(ms, key, value))
    ensures forall m <- Insert(ms, key, value) :: m in ms || m == Member(key, value)
    ensures forall m <- ms :: m in Insert(ms, key, value)
    ensures exists m <- Insert(ms, key, value) :: m.key == key
  {
    var r := Insert(ms, key, value);
    if ms == [] {
      assert r[0].key == key;
    } else if Less(key, ms[0].key) {
      assert r[0].key == key && r[1..] == ms;
      forall i, j | 0 <= i < j < |r|
        ensures Less(r[i].key, r[j].key)
      {
        if i == 0 && j > 1 {
          LessTransitive(key, ms[0].key, ms[j - 1].key);
        }
      }
    } else if ms[0].key == key {
      assert ms[0] in r;
    } else {
      LessTotal(ms[0].key, key);
      InsertSorted(ms[1..], key, value);
      forall i, j | 0 <= i < j < |r|
        ensures Less(r[i].key, r[j].key)
      {
        if i == 0 {
          assert r[j] in Insert(ms[1..], key, value);
        }
      }
    }
  }

  /** Keys that arrive in order go to the end. */
  lemma {:induction false} InsertLast(ms: seq<Member>, key: string, value: Json)
    requires forall m <- ms :: Less(m.key, key)
    ensures Insert(ms, key, value) == ms + [Member(key, value)]
  {
    if ms != [] {
      LessIrreflexive(ms[0].key, key);
      InsertLast(ms[1..], key, value);
      assert [ms[0]] + (ms[1..] + [Member(key, value)]) == ms + [Member(key, value)];
    }
  }

  // ---------------------------------------------------------------- printing

  function Tabs(n: nat): string { seq(n, _ => '\t') }

  /** One byte of a string as JsonString::toString writes it. A char is signed, so bytes from 128
      on are not greater than 31; like the other control bytes without a short form they are
      written as they are. */
  function EscapeChar(c: char): string {
    if 31 < c as int < 128 && c != '"' && c != '\\' then [c]
    else
      match c
      case '\\' => "\\\\"
      case '"' => "\\\""
      case '\n' => "\\n"
      case '\r' => "\\r"
      case '\t' => "\\t"
      case _ =>
        if c as int == 8 then "\\b"
        else if c as int == 12 then "\\f"
        else [c]
  }

  function EscapeText(s: string): string {
    if s == "" then "" else EscapeChar(s[0]) + EscapeText(s[1..])
  }

  function Quote(s: string): string { "\"" + EscapeText(s) + "\"" }

  /** What stands before a member or item: a new line and its indentation, or the blank that SPACE
      puts after a comma. */
  function Lead(fmt: Layout, depth: nat, first: bool): string {
    match fmt
    case NEWLINE => "\n" + Tabs(depth + 1)
    case SPACE => if first then "" else " "
    case RAW => ""
  }

  /** What stands before the closing bracket of a container that is not empty. */
  function Trail(fmt: Layout, depth: nat): string {
    if fmt == NEWLINE then "\n" + Tabs(depth) else ""
  }

  /** toString; doubles print by std::to_string, which stays uninterpreted. */
  function Print(v: Json, fmt: Layout, depth: nat, dtos: real -> string): string
    decreases v, 1
  {
    match v
    case JNull => "null"
    case JBool(b) => if b then "true" else "false"
    case JInt(i) => IntText(i)
    case JDouble(d) => dtos(d)
    case JString(s) => Quote(s)
    case JArray(items) =>
      if items == [] then "[]" else "[" + PrintItems(items, fmt, depth, true, dtos) + Trail(fmt, depth) + "]"
    case JObject(ms) =>
      if ms == [] then "{}" else "{" + PrintMembers(ms, fmt, depth, true, dtos) + Trail(fmt, depth) + "}"
  }

  function PrintItems(items: seq<Json>, fmt: Layout, depth: nat, first: bool, dtos: real -> string): string
    requires items != []
    decreases items, 0
  {
    Lead(fmt, depth, first) + Print(items[0], fmt, depth + 1, dtos) +
    if |items| == 1 then "" else "," + PrintItems(items[1..], fmt, depth, false, dtos)
  }

  function PrintMembers(ms: seq<Member>, fmt: Layout, depth: nat, first: bool, dtos: real -> string): string
    requires ms != []
    decreases ms, 0
  {
    Lead(fmt, depth, first) + Quote(ms[0].key) + ":" + (if fmt == RAW then "" else " ")
    + Print(ms[0].value, fmt, depth + 1, dtos) +
    if |ms| == 1 then "" else "," + PrintMembers(ms[1..], fmt, depth, false, dtos)
  }

  // ---------------------------------------------------------------- kinds of values

  /** Values the server can hold without doubles: 32-bit integers, objects in key order. */
  ghost predicate Proper(v: Json)
    decreases v
  {
    match v
    case JInt(i) => -0x8000_0000 <= i <= 0x7FFF_FFFF
    case JDouble(_) => false
    case JArray(items) => forall x <- items :: Proper(x)
    case JObject(ms) => Sorted(ms) && forall m <- ms :: Proper(m.value)
    case _ => true
  }

  /** No string or key has a double quote in it. */
  ghost predicate QuoteFree(v: Json)
    decreases v
  {
    match v
    case JString(s) => '"' !in s
    case JArray(items) => forall x <- items :: QuoteFree(x)
    case JObject(ms) => forall m <- ms :: '"' !in m.key && QuoteFree(m.value)
    case _ => true
  }

  ghost predicate DoubleFree(v: Json)
    decreases v
  {
    match v
    case JDouble(_) => false
    case JArray(items) => forall x <- items :: DoubleFree(x)
    case JObject(ms) => forall m <- ms :: DoubleFree(m.value)
    case _ => true
  }
}
