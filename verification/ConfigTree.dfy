/**
 The configuration tree (base/include/grl/configurable.h, base/src/configurable.cpp)
 as a list of nodes in document order. A node is known by the element names on
 its way from the root. A parameter whose value names another node stands for it.
 */
module ConfigTree {
  import opened Options
  import opened Paths

  type Path = seq<string>

  datatype Content = Group | Param(value: string)

  datatype Node = Node(path: Path, content: Content)

  type Doc = seq<Node>

  function Parent(p: Path): Path
    requires p != []
  {
    p[..|p| - 1]
  }

  /** Position of the node with this path; the length of the list if there is none. */
  function Index(t: Doc, p: Path): (i: nat)
    ensures i <= |t| && (i < |t| ==> t[i].path == p)
  {
    if t == [] then 0
    else
      var i := Index(t[..|t| - 1], p);
      if i < |t| - 1 then i else if t[|t| - 1].path == p then |t| - 1 else |t|
  }

  predicate Has(t: Doc, p: Path) {
    Index(t, p) < |t|
  }

  predicate IsGroup(t: Doc, p: Path) {
    Has(t, p) && t[Index(t, p)].content.Group?
  }

  lemma {:induction false} IndexPrefix(t: Doc, k: nat, p: Path)
    requires k <= |t|
    ensures Has(t[..k], p) ==> Index(t, p) == Index(t[..k], p)
    ensures !Has(t[..k], p) ==> k <= Index(t, p)
  {
    if k == |t| {
      assert t[..k] == t;
    } else {
      IndexPrefix(t[..|t| - 1], k, p);
      assert t[..|t| - 1][..k] == t[..k];
    }
  }

  lemma {:induction false} IndexFound(t: Doc, i: nat)
    requires i < |t|
    ensures Has(t, t[i].path) && Index(t, t[i].path) <= i
  {
    if i < |t| - 1 {
      IndexFound(t[..|t| - 1], i);
    }
  }

  /** The parent of this node is an earlier group. */
  predicate BelowGroup(t: Doc, i: nat)
    requires i < |t|
  {
    t[i].path != [] ==> IsGroup(t[..i], Parent(t[i].path))
  }

  /** Paths are distinct, and every node but the root lies directly below an earlier group. */
  ghost predicate Wf(t: Doc) {
    && (forall i :: 0 <= i < |t| ==> GoodNames(t[i].path) && Index(t, t[i].path) == i)
    && (forall i :: 0 <= i < |t| ==> BelowGroup(t, i))
    && (forall i :: 0 <= i < |t| && t[i].path == [] ==> t[i].content.Group?)
  }

  /** Every ancestor of this path is a group of the tree. */
  ghost predicate Rooted(t: Doc, p: Path) {
    forall k :: 0 <= k < |p| ==> IsGroup(t, p[..k])
  }

  // ----- Finding -----

  /** Length of the text before the first slash. */
  function FirstSlash(s: string): (k: nat)
    ensures k <= |s| && (k < |s| ==> s[k] == '/')
  {
    if s == "" || s[0] == '/' then 0 else 1 + FirstSlash(s[1..])
  }

  function First(s: string): string {
    s[..FirstSlash(s)]
  }

  function After(s: string): (r: string)
    ensures s != "" ==> |r| < |s|
  {
    var k := FirstSlash(s);
    if k < |s| then s[k + 1..] else ""
  }

  /** `Configurator::find` at a node that stands for itself. */
  function Find(t: Doc, at: Path, s: string): Option<Path>
    decreases |t|, 1, |s|
  {
    if s == "" then Some(at)
    else if First(s) == "" then Find(t, [], After(s))
    else if First(s) == ".." then
      if at == [] then None else Find(t, Parent(at), After(s))
    else
      var child := at + [First(s)];
      if Has(t, child) then Find(t, Deref(t, child), After(s)) else None
  }

  /** `ParameterConfigurator::find`: a parameter whose whole value names a node hands the search to that node. */
  function Deref(t: Doc, p: Path): Path
    decreases |t|, 0, 0
  {
    var i := Index(t, p);
    if i < |t| && t[i].content.Param? && t[i].content.value != "" then
      match Resolve(t[..i], p, t[i].content.value)
      case Some(r) => r
      case None => p
    else p
  }

  /** `ParameterConfigurator::resolve` without a parent: look from the parameter, then from the root. */
  function Resolve(t: Doc, p: Path, id: string): Option<Path>
    decreases |t|, 2, |id|
  {
    match Find(t, p, id)
    case Some(r) => Some(r)
    case None => Find(t, [], id)
  }

  /** `resolve` with a parent, during instantiation: the parameter itself is not yet in the new tree. */
  function ResolveIn(t: Doc, p: Path, id: string): Option<Path>
    requires p != []
  {
    match Find(t, Parent(p), p[|p| - 1] + "/" + id)
    case Some(r) => Some(r)
    case None => Find(t, Parent(p), "/" + id)
  }

  lemma FirstOfName(name: string, s: string)
    requires '/' !in name
    ensures First(name) == name && After(name) == ""
    ensures First(name + "/" + s) == name && After(name + "/" + s) == s
  {
    FirstSlashIs(name, "");
    FirstSlashIs(name, "/" + s);
    assert name + "" == name;
    assert name + ("/" + s) == name + "/" + s;
  }

  lemma {:induction false} FirstSlashIs(name: string, s: string)
    requires '/' !in name && (s == "" || s[0] == '/')
    ensures FirstSlash(name + s) == |name|
  {
    if name == "" {
      assert name + s == s;
    } else {
      FirstSlashIs(name[1..], s);
      assert (name + s)[1..] == name[1..] + s;
      assert (name + s)[0] == name[0];
    }
  }

  lemma {:induction false} NoSlashBefore(s: string)
    ensures forall k :: 0 <= k < FirstSlash(s) ==> s[k] != '/'
  {
    if !(s == "" || s[0] == '/') {
      NoSlashBefore(s[1..]);
      assert forall k :: 1 <= k < FirstSlash(s) ==> s[k] == s[1..][k - 1];
    }
  }

  lemma FirstSlashFree(s: string)
    ensures '/' !in First(s)
    ensures s == First(s) + if FirstSlash(s) < |s| then "/" + After(s) else ""
  {
    NoSlashBefore(s);
    if FirstSlash(s) < |s| {
      SplitsAt(s, FirstSlash(s));
    }
  }

  lemma SplitsAt(s: string, k: nat)
    requires k < |s| && s[k] == '/'
    ensures s == s[..k] + ("/" + s[k + 1..])
  {
    assert s[k..] == "/" + s[k + 1..];
  }

  lemma FindUp(t: Doc, at: Path, s: string)
    requires at != []
    ensures Find(t, at, "../" + s) == Find(t, Parent(at), s)
  {
    assert ".." + "/" + s == "../" + s;
    FirstOfName("..", s);
  }

  lemma FindChild(t: Doc, at: Path, name: string, s: string)
    requires GoodName(name) && Has(t, at + [name])
    ensures Find(t, at, name) == Some(Deref(t, at + [name]))
    ensures Find(t, at, name + "/" + s) == Find(t, Deref(t, at + [name]), s)
  {
    FirstOfName(name, s);
  }

  /** Any search that takes "../" as a step up takes n of them as n steps up. */
  lemma {:induction false} UpsGoUp<T>(find: (Path, string) -> T, at: Path, n: nat, s: string)
    requires n <= |at|
    requires forall p: Path, rest: string {:trigger find(Parent(p), rest)} :: p != [] ==>
               find(p, "../" + rest) == find(Parent(p), rest)
    ensures find(at, Ups(n) + s) == find(at[..|at| - n], s)
  {
    if n == 0 {
      NoUps(at, s);
    } else {
      UpsStep(n - 1, s);
      UpsGoUp(find, Parent(at), n - 1, s);
      assert Parent(at)[..|at| - 1 - (n - 1)] == at[..|at| - n];
    }
  }

  lemma FindUps(t: Doc, at: Path, n: nat, s: string)
    requires n <= |at|
    ensures Find(t, at, Ups(n) + s) == Find(t, at[..|at| - n], s)
  {
    var find := (p: Path, rest: string) => Find(t, p, rest);
    forall p: Path, rest: string | p != []
      ensures find(p, "../" + rest) == find(Parent(p), rest)
    {
      FindUp(t, p, rest);
    }
    UpsGoUp(find, at, n, s);
  }

  lemma NoUps(at: Path, s: string)
    ensures Ups(0) + s == s && at[..|at|] == at
  {
  }

  lemma RestHead(ns: seq<string>)
    requires ns != []
    ensures Rest(ns) == if |ns| == 1 then ns[0] else ns[0] + "/" + Rest(ns[1..])
  {
    JoinHead(ns);
    if |ns| > 1 {
      JoinHead(ns[1..]);
      DropSlash(ns[0], ns[1], Join(ns[1..][1..]));
    } else {
      DropSlash(ns[0], "", "");
    }
  }

  lemma DropSlash(a: string, b: string, c: string)
    ensures ("/" + a + ("/" + b + c))[1..] == a + "/" + ("/" + b + c)[1..]
    ensures ("/" + a + "")[1..] == a
  {
    assert ("/" + b + c)[1..] == b + c;
  }

  /** Going down by name reaches the named node, or what it stands for. */
  lemma {:induction false} FindDown(t: Doc, at: Path, ns: seq<string>)
    requires Wf(t) && ns != [] && GoodNames(ns) && Has(t, at + ns)
    ensures Find(t, at, Rest(ns)) == Some(Deref(t, at + ns))
    decreases |ns|
  {
    var child := at + [ns[0]];
    RestHead(ns);
    Prefixes(at, ns);
    AncestorsAreGroups(t, at + ns, |at| + 1);
    FindChild(t, at, ns[0], Rest(ns[1..]));
    if |ns| > 1 {
      FindDown(t, child, ns[1..]);
    }
  }

  lemma Prefixes(at: Path, ns: seq<string>)
    requires ns != []
    ensures (at + ns)[..|at| + 1] == at + [ns[0]]
    ensures |ns| == 1 ==> at + ns == at + [ns[0]]
    ensures at + [ns[0]] + ns[1..] == at + ns
  {
  }

  lemma {:induction false} AncestorsAreGroups(t: Doc, p: Path, k: nat)
    requires Wf(t) && Has(t, p) && k <= |p|
    ensures Has(t, p[..k]) && (k < |p| ==> IsGroup(t, p[..k]) && Deref(t, p[..k]) == p[..k])
    decreases |p|
  {
    if k == |p| {
      assert p[..k] == p;
    } else {
      var i := Index(t, p);
      assert BelowGroup(t, i);
      IndexPrefix(t, i, Parent(p));
      if k < |p| - 1 {
        AncestorsAreGroups(t, Parent(p), k);
        assert Parent(p)[..k] == p[..k];
      }
    }
  }

  /**
   Following the relative path from node `a` to node `b` finds `b` (or, for a parameter that names a node,
   what it stands for), provided no name is cut.
   */
  lemma FindRelative(t: Doc, a: Path, b: Path)
    requires Wf(t) && Has(t, b) && a != [] && GoodNames(a) && Rooted(t, a) && !CutsName(Join(a), Join(b))
    ensures Join(a) != "" && Join(a)[0] == '/'
    ensures Find(t, a, RelativePath(Join(a), Join(b))) == Some(Deref(t, b))
  {
    var top, up, down := RelativeParts(a, b);
    FindAcross(t, top, up, down);
  }

  lemma FindAcross(t: Doc, top: Path, up: Path, down: Path)
    requires Wf(t) && up != [] && Has(t, top + down) && GoodNames(down) && Rooted(t, top + up)
    ensures Find(t, top + up, Ups(|up|) + Rest(down)) == Some(Deref(t, top + down))
  {
    FindUps(t, top + up, |up|, Rest(down));
    assert (top + up)[..|top|] == top;
    if down == [] {
      assert IsGroup(t, top) && top + down == top;
    } else {
      FindDown(t, top, down);
    }
  }

  // ----- Exactly when relative paths work -----

  /** No parameter names a node, so every node stands for itself (plain `Configurator` nodes). */
  ghost predicate Plain(t: Doc) {
    forall i :: 0 <= i < |t| ==> t[i].content.Group?
  }

  /** `r` is one search step of text `s` below `at`, or not deeper than `at`. */
  predicate Within(at: string, s: string, r: string) {
    |r| < |at| + 1 + |s| || r == at + "/" + s
  }

  lemma FindStep(t: Doc, at: Path, s: string) returns (next: Path)
    requires Plain(t) && s != "" && Find(t, at, s).Some?
    ensures Find(t, at, s) == Find(t, next, After(s))
    ensures |Join(next)| <= |Join(at)| || Join(next) == Join(at) + "/" + First(s)
  {
    next := if First(s) == "" then [] else if First(s) == ".." then Parent(at) else at + [First(s)];
    assert (at + [First(s)])[..|at|] == at;
  }

  lemma WithinStep(at: string, first: string, next: string, rest: string, r: string)
    requires |next| <= |at| || next == at + "/" + first
    ensures r == next ==> Within(at, first, r) && Within(at, first + "/", r)
    ensures Within(next, rest, r) ==> Within(at, first + "/" + rest, r)
  {
    if Within(next, rest, r) && r == next + "/" + rest && next == at + "/" + first {
      assert r == at + "/" + (first + "/" + rest);
    }
  }

  lemma Regroup(a: string, b: string, c: string)
    ensures a + (b + c) == a + b + c
  {
  }

  /** The text splits at its first slash. */
  lemma TextSplits(s: string)
    ensures After(s) != "" ==> s == First(s) + "/" + After(s)
    ensures After(s) == "" ==> s == First(s) || s == First(s) + "/"
  {
    FirstSlashFree(s);
    var first, after := First(s), After(s);
    Regroup(first, "/", after);
    if FirstSlash(s) == |s| {
      assert s == first + "" == first;
    }
  }

  /** A search adds its text to the path, or ends at a shorter path. */
  lemma {:induction false} FoundLength(t: Doc, at: Path, s: string, r: Path)
    requires Plain(t) && s != "" && Find(t, at, s) == Some(r)
    ensures Within(Join(at), s, Join(r))
    decreases |s|
  {
    var next := FindStep(t, at, s);
    TextSplits(s);
    WithinStep(Join(at), First(s), Join(next), After(s), Join(r));
    if After(s) != "" {
      FoundLength(t, next, After(s), r);
    }
  }

  /** Between nodes of a plain tree, following the relative path works if and only if no name is cut. */
  lemma RelativePathWorksIff(t: Doc, a: Path, b: Path)
    requires Wf(t) && Plain(t) && Has(t, a) && Has(t, b) && a != []
    ensures Join(a) != "" && Join(a)[0] == '/'
    ensures Find(t, a, RelativePath(Join(a), Join(b))) == Some(b) <==> !CutsName(Join(a), Join(b))
  {
    JoinStarts(a);
    if CutsName(Join(a), Join(b)) {
      CutPathMisses(t, a, b);
    } else {
      HasIsRooted(t, a);
      FindRelative(t, a, b);
    }
  }

  lemma HasIsRooted(t: Doc, p: Path)
    requires Wf(t) && Has(t, p)
    ensures Rooted(t, p) && GoodNames(p)
  {
    forall k | 0 <= k < |p| ensures IsGroup(t, p[..k]) {
      AncestorsAreGroups(t, p, k);
    }
  }

  lemma CutPathMisses(t: Doc, a: Path, b: Path)
    requires Plain(t) && a != [] && GoodNames(a) && CutsName(Join(a), Join(b))
    ensures Join(a) != "" && Join(a)[0] == '/'
    ensures Find(t, a, RelativePath(Join(a), Join(b))) != Some(b)
  {
    var j, d := CutNames(a, Join(b));
    FindUps(t, a, |a| - j, Join(b)[d + 1..]);
    assert |a| - (|a| - j) == j;
    TailMisses(t, a[..j], b, d);
  }

  lemma TailMisses(t: Doc, top: Path, b: Path, d: nat)
    requires Plain(t) && d < |Join(b)| && Join(b)[..d] == Join(top) && Join(b)[d] != '/'
    ensures Find(t, top, Join(b)[d + 1..]) != Some(b)
  {
    var text := Join(b)[d + 1..];
    if text != "" && Find(t, top, text) == Some(b) {
      FoundLength(t, top, text, b);
      NotWithin(Join(b), d);
    }
  }

  lemma NotWithin(full: string, d: nat)
    requires d < |full| && full[d] != '/'
    ensures !Within(full[..d], full[d + 1..], full)
  {
    assert (full[..d] + "/" + full[d + 1..])[d] == '/';
  }

  /** The smallest case: from /a/b to /ab/c the relative path is wrong. */
  lemma CutNameExample()
    ensures Join(["a", "b"]) == "/a/b" && Join(["ab", "c"]) == "/ab/c"
    ensures CutsName("/a/b", "/ab/c") && RelativePath("/a/b", "/ab/c") == "..//c"
  {
    assert ["a", "b"][..1] == ["a"] && ["ab", "c"][..1] == ["ab"] && ["a"][..0] == [] && ["ab"][..0] == [];
    CommonUnique("/a/b", "/ab/c", 2);
    assert "/b"[..1] == "/" && "/"[..0] == "";
    assert "/a/b"[2..] == "/b" && "/ab/c"[3..] == "/c";
    assert Slashes("/b") == 1 && Ups(1) == "../" + Ups(0);
  }
}
