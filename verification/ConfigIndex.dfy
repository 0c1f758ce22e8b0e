/** The index of dotted keys the configuration is read through (haha_web/config/config.h). */
module ConfigIndex {
  import opened Text
  import opened JsonValue

  type Entry = (string, Json)

  function Dot(prefix: string, key: string): string {
    if prefix == "" then key else prefix + "." + key
  }

  /** What ListAllMember appends. */
  function Listing(prefix: string, node: Json): seq<Entry>
    decreases node, 1
  {
    (if prefix == "" then [] else [(prefix, node)]) + if node.JObject? then ListMembers(prefix, node.members) else []
  }

  function ListMembers(prefix: string, ms: seq<Member>): seq<Entry>
    decreases ms, 0
  {
    if ms == [] then [] else Listing(Dot(prefix, ms[0].key), ms[0].value) + ListMembers(prefix, ms[1..])
  }

  /** unordered_map::insert, one entry after another: the first entry of a key stays. */
  function InsertEntry(index: map<string, Json>, e: Entry): map<string, Json> {
    if e.0 in index then index else index[e.0 := e.1]
  }

  function Index(entries: seq<Entry>): map<string, Json> {
    if entries == [] then map[] else InsertEntry(Index(entries[..|entries| - 1]), entries[|entries| - 1])
  }

  class NodeList {
    var items: seq<Entry>

    constructor ()
      ensures items == []
    {
      items := [];
    }

    method PushBack(e: Entry)
      modifies this
      ensures items == old(items) + [e]
    {
      items := items + [e];
    }
  }

  lemma Regroup(a: seq<Entry>, b: seq<Entry>, c: seq<Entry>)
    ensures a + b + c == a + (b + c)
  {
  }

  method ListAllMember(prefix: string, node: Json, output: NodeList)
    modifies output
    ensures output.items == old(output.items) + Listing(prefix, node)
    decreases node
  {
    ghost var before := output.items;
    ghost var own := if prefix == "" then [] else [(prefix, node)];
    if prefix != "" {
      output.PushBack((prefix, node));
    }
    assert output.items == before + own && own + [] == own;
    if node.JObject? {
      ghost var start := output.items;
      for i := 0 to |node.members|
        invariant output.items + ListMembers(prefix, node.members[i..]) == start + ListMembers(prefix, node.members)
      {
        var m := node.members[i];
        assert node.members[i..][1..] == node.members[i + 1..];
        ghost var listed := output.items;
        ListAllMember(Dot(prefix, m.key), m.value, output);
        Regroup(listed, Listing(Dot(prefix, m.key), m.value), ListMembers(prefix, node.members[i + 1..]));
      }
      assert ListMembers(prefix, node.members[|node.members|..]) == [];
      Regroup(before, own, ListMembers(prefix, node.members));
    }
  }

  /** The constructor's loop over the listing. */
  method InsertAll(all: seq<Entry>) returns (index: map<string, Json>)
    ensures index == Index(all)
  {
    index := map[];
    for i := 0 to |all|
      invariant index == Index(all[..i])
    {
      assert all[..i + 1][..i] == all[..i];
      index := InsertEntry(index, all[i]);
    }
    assert all[..|all|] == all;
  }

  class Config {
    var index: map<string, Json>

    /** json is None when the file could not be parsed. */
    constructor (json: Option<Json>)
      ensures index == if json.Some? && json.value.JObject? then Index(Listing("", json.value)) else map[]
    {
      hide Listing, Index;
      index := map[];
      new;
      if json.None? || !json.value.JObject? {
        return;
      }
      var nodes := new NodeList();
      ListAllMember("", json.value, nodes);
      assert [] + Listing("", json.value) == Listing("", json.value);
      index := InsertAll(nodes.items);
    }
  }

  // ---------------------------------------------------------------- paths

  function Lookup(ms: seq<Member>, key: string): Option<Json> {
    if ms == [] then None
    else if ms[0].key == key then Some(ms[0].value)
    else Lookup(ms[1..], key)
  }

  /** The node at the end of a path of object keys. */
  function Walk(node: Json, path: seq<string>): Option<Json>
    decreases |path|
  {
    if path == [] then Some(node)
    else if !node.JObject? then None
    else
      match Lookup(node.members, path[0])
      case None => None
      case Some(child) => Walk(child, path[1..])
  }

  /** A path below a prefix, written with dots. */
  function Join(prefix: string, path: seq<string>): string
    decreases |path|
  {
    if path == [] then prefix else Join(Dot(prefix, path[0]), path[1..])
  }

  function Dotted(path: seq<string>): string { Join("", path) }

  predicate CleanKey(key: string) { key != "" && '.' !in key }

  /** Objects hold their keys in order, and no key is empty or has a dot. Arrays are not looked into. */
  ghost predicate Clean(node: Json)
    decreases node
  {
    node.JObject? ==> Sorted(node.members) && forall m <- node.members :: CleanKey(m.key) && Clean(m.value)
  }

  /** Objects hold their keys in order, as std::map does. Arrays are not looked into. */
  ghost predicate InOrder(node: Json)
    decreases node
  {
    node.JObject? ==> Sorted(node.members) && forall m <- node.members :: InOrder(m.value)
  }

  lemma {:induction false} CleanInOrder(node: Json)
    requires Clean(node)
    ensures InOrder(node)
    decreases node
  {
    if node.JObject? {
      forall m <- node.members
        ensures InOrder(m.value)
      {
        CleanInOrder(m.value);
      }
    }
  }

  predicate CleanPath(path: seq<string>) { forall key <- path :: CleanKey(key) }

  // ---------------------------------------------------------------- dotted forms are distinct

  function Tail(path: seq<string>): string {
    if path == [] then "" else "." + (path[0] + Tail(path[1..]))
  }

  lemma {:induction false} JoinIsTail(prefix: string, path: seq<string>)
    requires prefix != ""
    ensures Join(prefix, path) == prefix + Tail(path)
    decreases |path|
  {
    if path == [] {
      assert prefix + "" == prefix;
    } else {
      JoinIsTail(prefix + "." + path[0], path[1..]);
      assert prefix + "." + path[0] + Tail(path[1..]) == prefix + ("." + (path[0] + Tail(path[1..])));
    }
  }

  lemma TailEnds(path: seq<string>)
    ensures Tail(path) != "" ==> Tail(path)[0] == '.'
  {
  }

  lemma FirstDot(a: string, x: string)
    requires '.' !in a && (x != "" ==> x[0] == '.')
    ensures FindChar(a + x, '.', 0) == if x == "" then -1 else |a|
  {
    assert x != "" ==> (a + x)[|a|] == '.';
  }

  lemma SameKeyLength(a: string, x: string, b: string, y: string)
    requires '.' !in a && '.' !in b && a + x == b + y
    requires (x != "" ==> x[0] == '.') && (y != "" ==> y[0] == '.')
    ensures |a| == |b|
  {
    FirstDot(a, x);
    FirstDot(b, y);
    assert |a + x| == |b + y|;
  }

  lemma SameSplit(a: string, x: string, b: string, y: string)
    requires a + x == b + y && |a| == |b|
    ensures a == b && x == y
  {
    assert a == (a + x)[..|a|] && b == (b + y)[..|b|];
    assert x == (a + x)[|a|..] && y == (b + y)[|b|..];
  }

  lemma {:induction false} TailInjective(p: seq<string>, q: seq<string>)
    requires CleanPath(p) && CleanPath(q) && Tail(p) == Tail(q)
    ensures p == q
    decreases |p|
  {
    if p != [] && q != [] {
      var x, y := Tail(p[1..]), Tail(q[1..]);
      assert Tail(p)[1..] == p[0] + x && Tail(q)[1..] == q[0] + y;
      assert CleanKey(p[0]) && CleanKey(q[0]);
      TailEnds(p[1..]);
      TailEnds(q[1..]);
      SameKeyLength(p[0], x, q[0], y);
      SameSplit(p[0], x, q[0], y);
      TailInjective(p[1..], q[1..]);
      assert p == [p[0]] + p[1..] && q == [q[0]] + q[1..];
    }
  }

  /** Paths of clean keys are told apart by their dotted forms. */
  lemma DottedInjective(p: seq<string>, q: seq<string>)
    requires CleanPath(p) && CleanPath(q) && Dotted(p) == Dotted(q)
    ensures p == q
  {
    DottedIsTail(p);
    DottedIsTail(q);
    TailInjective(p, q);
  }

  lemma DottedIsTail(p: seq<string>)
    requires CleanPath(p)
    ensures p == [] ==> Dotted(p) == "" && Tail(p) == ""
    ensures p != [] ==> Dotted(p) != "" && Tail(p) == "." + Dotted(p)
  {
    if p != [] {
      assert CleanKey(p[0]);
      JoinIsTail(p[0], p[1..]);
    }
  }

  // ---------------------------------------------------------------- what is listed

  lemma {:induction false} LookupFinds(ms: seq<Member>, m: Member)
    requires Sorted(ms) && m in ms
    ensures Lookup(ms, m.key) == Some(m.value)
  {
    if m != ms[0] {
      var k :| 0 <= k < |ms| && ms[k] == m;
      LessIrreflexive(ms[0].key, m.key);
      assert m == ms[1..][k - 1];
      LookupFinds(ms[1..], m);
    }
  }

  lemma {:induction false} LookupMember(ms: seq<Member>, key: string)
    requires Lookup(ms, key).Some?
    ensures Member(key, Lookup(ms, key).value) in ms
  {
    if ms[0].key != key {
      LookupMember(ms[1..], key);
    }
  }

  /** Whatever is listed is the node at the end of some path, under a key that is not empty. */
  lemma {:induction false} ListedIsReached(prefix: string, node: Json, e: Entry) returns (path: seq<string>)
    requires InOrder(node) && e in Listing(prefix, node)
    ensures Walk(node, path) == Some(e.1) && Join(prefix, path) == e.0 != ""
    ensures prefix == "" ==> path != []
    decreases node, 1
  {
    if prefix != "" && e == (prefix, node) {
      path := [];
    } else {
      var m, rest := MemberListed(prefix, node.members, e);
      LookupFinds(node.members, m);
      path := [m.key] + rest;
      assert path[1..] == rest;
    }
  }

  lemma {:induction false} MemberListed(prefix: string, ms: seq<Member>, e: Entry)
    returns (m: Member, rest: seq<string>)
    requires forall m <- ms :: InOrder(m.value)
    requires e in ListMembers(prefix, ms)
    ensures m in ms && Walk(m.value, rest) == Some(e.1) && Join(Dot(prefix, m.key), rest) == e.0 != ""
    decreases ms, 0
  {
    if e in Listing(Dot(prefix, ms[0].key), ms[0].value) {
      m := ms[0];
      rest := ListedIsReached(Dot(prefix, m.key), m.value, e);
    } else {
      m, rest := MemberListed(prefix, ms[1..], e);
    }
  }

  /** Every path with a dotted form that is not empty is listed under it. */
  lemma {:induction false} ReachedIsListed(prefix: string, node: Json, path: seq<string>)
    requires Walk(node, path).Some? && Join(prefix, path) != ""
    ensures (Join(prefix, path), Walk(node, path).value) in Listing(prefix, node)
    decreases |path|
  {
    if path != [] {
      var child := Lookup(node.members, path[0]).value;
      var m := Member(path[0], child);
      LookupMember(node.members, path[0]);
      ReachedIsListed(Dot(prefix, path[0]), child, path[1..]);
      var e := (Join(prefix, path), Walk(node, path).value);
      assert e in Listing(Dot(prefix, m.key), m.value);
      PartOfMembers(prefix, node.members, m, e);
    }
  }

  /** Paths through objects with clean keys are made of clean keys. */
  lemma {:induction false} CleanWalk(node: Json, path: seq<string>)
    requires Clean(node) && Walk(node, path).Some?
    ensures CleanPath(path)
    decreases |path|
  {
    if path != [] {
      var child := Lookup(node.members, path[0]).value;
      LookupMember(node.members, path[0]);
      var m := Member(path[0], child);
      assert m in node.members && CleanKey(m.key) && Clean(m.value);
      CleanWalk(child, path[1..]);
      assert path == [path[0]] + path[1..];
    }
  }

  lemma {:induction false} PartOfMembers(prefix: string, ms: seq<Member>, m: Member, e: Entry)
    requires m in ms && e in Listing(Dot(prefix, m.key), m.value)
    ensures e in ListMembers(prefix, ms)
    decreases |ms|
  {
    if m != ms[0] {
      PartOfMembers(prefix, ms[1..], m, e);
    }
  }

  lemma {:induction false} IndexHoldsListed(entries: seq<Entry>)
    ensures forall key <- Index(entries) :: (key, Index(entries)[key]) in entries
    ensures forall e <- entries :: e.0 in Index(entries)
  {
    if entries != [] {
      var k := |entries| - 1;
      IndexHoldsListed(entries[..k]);
      assert entries == entries[..k] + [entries[k]];
    }
  }

  /** A path of object keys that leads somewhere below the root. */
  predicate Reaches(root: Json, path: seq<string>) { path != [] && Walk(root, path).Some? }

  /** Asked for the dotted form of a path, the index answers with the node the path leads to. */
  predicate Answered(root: Json, index: map<string, Json>, path: seq<string>)
    requires Reaches(root, path)
  {
    Dotted(path) in index && index[Dotted(path)] == Walk(root, path).value
  }

  /** No path to different nodes shares a dotted form with another, and none has an empty one. */
  ghost predicate Unambiguous(root: Json) {
    && (forall path :: Reaches(root, path) ==> Dotted(path) != "")
    && (forall p, q ::
          Reaches(root, p) && Reaches(root, q) && Dotted(p) == Dotted(q) ==> Walk(root, p) == Walk(root, q))
  }

  /** Nothing but dotted forms of paths is in the index. */
  lemma IndexHoldsPaths(root: Json, key: string) returns (path: seq<string>)
    requires root.JObject? && InOrder(root) && key in Index(Listing("", root))
    ensures Reaches(root, path) && Dotted(path) == key != ""
    ensures Walk(root, path).value == Index(Listing("", root))[key]
  {
    var index := Index(Listing("", root));
    IndexHoldsListed(Listing("", root));
    path := ListedIsReached("", root, (key, index[key]));
  }

  /** The index answers every path with its own node exactly when the dotted forms are unambiguous. */
  lemma IndexRightIff(root: Json)
    requires root.JObject? && InOrder(root)
    ensures Unambiguous(root) <==>
      forall path :: Reaches(root, path) ==> Answered(root, Index(Listing("", root)), path)
  {
    var entries := Listing("", root);
    var index := Index(entries);
    if Unambiguous(root) {
      forall path | Reaches(root, path)
        ensures Answered(root, index, path)
      {
        ReachedIsListed("", root, path);
        IndexHoldsListed(entries);
        var path' := IndexHoldsPaths(root, Dotted(path));
      }
    }
    if forall path :: Reaches(root, path) ==> Answered(root, index, path) {
      forall path | Reaches(root, path)
        ensures Dotted(path) != ""
      {
        assert Answered(root, index, path);
        var path' := IndexHoldsPaths(root, Dotted(path));
      }
      forall p, q | Reaches(root, p) && Reaches(root, q) && Dotted(p) == Dotted(q)
        ensures Walk(root, p) == Walk(root, q)
      {
        assert Answered(root, index, p) && Answered(root, index, q);
      }
    }
  }

  /** Keys that are neither empty nor dotted are enough. */
  lemma CleanIsUnambiguous(root: Json)
    requires root.JObject? && Clean(root)
    ensures InOrder(root) && Unambiguous(root)
  {
    CleanInOrder(root);
    forall path | Reaches(root, path)
      ensures Dotted(path) != ""
    {
      CleanWalk(root, path);
      DottedIsTail(path);
    }
    forall p, q | Reaches(root, p) && Reaches(root, q) && Dotted(p) == Dotted(q)
      ensures Walk(root, p) == Walk(root, q)
    {
      CleanWalk(root, p);
      CleanWalk(root, q);
      DottedInjective(p, q);
    }
  }

  /** With clean keys the index is the tree of objects: its keys are the dotted forms of the paths that
      lead somewhere, and each is mapped to the node its path leads to. */
  lemma IndexIsTree(root: Json)
    requires root.JObject? && Clean(root)
    ensures var index := Index(Listing("", root));
      && (forall path :: Reaches(root, path) ==> Answered(root, index, path))
      && (forall key <- index :: exists path :: Reaches(root, path) && Dotted(path) == key)
  {
    CleanIsUnambiguous(root);
    IndexRightIff(root);
    forall key | key in Index(Listing("", root))
      ensures exists path :: Reaches(root, path) && Dotted(path) == key
    {
      var path := IndexHoldsPaths(root, key);
    }
  }

  /** Clean keys are not needed: a lone dotted key is indexed right. */
  lemma DottedKeyAlone(x: Json)
    requires !x.JObject?
    ensures var root := JObject([Member("a.b", x)]); !Clean(root) && InOrder(root) && Unambiguous(root)
  {
    var root := JObject([Member("a.b", x)]);
    assert !CleanKey("a.b") by { assert "a.b"[1] == '.'; }
    assert root.members[0] == Member("a.b", x) && root.members[1..] == [];
    forall path | Reaches(root, path)
      ensures path == ["a.b"]
    {
      assert Lookup(root.members, path[0]) == if path[0] == "a.b" then Some(x) else Lookup([], path[0]);
      assert path[0] == "a.b" && Walk(x, path[1..]).Some?;
      assert path[1..] == [] && path == [path[0]] + path[1..];
    }
    assert Dotted(["a.b"]) == "a.b" by { assert ["a.b"][1..] == []; }
  }

  /** Without clean keys the index can answer with another node: a key with a dot hides a path, and
      the members of an empty key look like members of the root. */
  lemma DotInKeyHidesPath(x: Json, y: Json)
    requires !x.JObject? && !y.JObject? && x != y
    ensures var root := JObject([Member("a", JObject([Member("b", x)])), Member("a.b", y)]);
      var index := Index(Listing("", root));
      Walk(root, ["a.b"]) == Some(y) && Dotted(["a.b"]) in index && index[Dotted(["a.b"])] == x
  {
    hide Listing, Index;
    var inner := JObject([Member("b", x)]);
    var root := JObject([Member("a", inner), Member("a.b", y)]);
    ClashListed(x, y);
    FirstStays(("a", inner), ("a.b", x), y);
    assert ["a.b"][1..] == [] && Dotted(["a.b"]) == "a.b";
    assert root.members[1..] == [Member("a.b", y)] && |"a"| != |"a.b"|;
    assert Lookup(root.members, "a.b") == Lookup([Member("a.b", y)], "a.b") == Some(y);
  }

  lemma ClashListed(x: Json, y: Json)
    requires !x.JObject? && !y.JObject?
    ensures var inner := JObject([Member("b", x)]);
      Listing("", JObject([Member("a", inner), Member("a.b", y)])) == [("a", inner), ("a.b", x), ("a.b", y)]
  {
    var inner := JObject([Member("b", x)]);
    var ms := [Member("a", inner), Member("a.b", y)];
    assert "a" + "." + "b" == "a.b";
    assert ms[1..] == [Member("a.b", y)] && ms[1..][1..] == [];
    OneListed("a", "b", x);
    OneListed("", "a.b", y);
    assert ListMembers("", ms) == Listing("a", inner) + ListMembers("", ms[1..]);
    assert Listing("a", inner) == [("a", inner), ("a.b", x)];
  }

  lemma OneListed(prefix: string, key: string, v: Json)
    requires !v.JObject? && Dot(prefix, key) != ""
    ensures ListMembers(prefix, [Member(key, v)]) == [(Dot(prefix, key), v)]
  {
    assert [Member(key, v)][1..] == [];
  }

  lemma FirstStays(e: Entry, f: Entry, v: Json)
    requires e.0 != f.0
    ensures Index([e, f, (f.0, v)]) == map[e.0 := e.1, f.0 := f.1]
  {
    assert [e, f, (f.0, v)][..2] == [e, f] && [e, f][..1] == [e] && [e][..0] == [];
    assert Index([e]) == map[e.0 := e.1];
    assert Index([e, f]) == map[e.0 := e.1, f.0 := f.1];
  }

  lemma EmptyKeyHidden(x: Json)
    requires !x.JObject?
    ensures var root := JObject([Member("", JObject([Member("b", x)]))]);
      var index := Index(Listing("", root));
      Walk(root, [""]).Some? && Dotted([""]) !in index && Dotted(["b"]) in index && Walk(root, ["b"]) == None
  {
    hide Listing, Index;
    var inner := JObject([Member("b", x)]);
    var root := JObject([Member("", inner)]);
    EmptyListed(x);
    IndexHoldsListed([("b", x)]);
    assert ("b", x) in [("b", x)];
    assert [""][1..] == [] && ["b"][1..] == [] && root.members[1..] == [];
    assert Dotted([""]) == "" && Dotted(["b"]) == "b" && |""| != |"b"|;
    assert Lookup(root.members, "b") == None && Lookup(root.members, "") == Some(inner);
  }

  lemma EmptyListed(x: Json)
    requires !x.JObject?
    ensures Listing("", JObject([Member("", JObject([Member("b", x)]))])) == [("b", x)]
  {
    var inner := JObject([Member("b", x)]);
    var ms := [Member("", inner)];
    OneListed("", "b", x);
    assert ms[1..] == [];
    assert ListMembers("", ms) == Listing("", inner) + ListMembers("", ms[1..]);
    assert Listing("", inner) == [("b", x)];
  }
}
