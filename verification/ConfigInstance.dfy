/**
 What instantiation promises about searches of the whole tree (base/src/configurable.cpp,
 base/include/grl/configurable.h): the copy's references look back if the original's do, they find the copies of what
 the originals find, and every parameter means the same.
 */
module ConfigInstance {
  import opened Options
  import opened Paths
  import opened ConfigTree
  import opened ConfigCopy
  import opened ConfigSearch

  // ----- Relative references step only on ancestors of their target -----

  lemma PassUp(u: Doc, p: Path, s: string, b: nat)
    requires p != []
    ensures Passes(u, p, "../" + s, b) <==> Passes(u, Parent(p), s, b)
  {
    assert ".." + "/" + s == "../" + s;
    FirstOfName("..", s);
  }

  lemma PassUps(u: Doc, p: Path, n: nat, s: string, b: nat)
    requires n <= |p|
    ensures Passes(u, p, Ups(n) + s, b) <==> Passes(u, p[..|p| - n], s, b)
  {
    var pass := (at: Path, rest: string) => Passes(u, at, rest, b);
    forall at: Path, rest: string | at != []
      ensures pass(at, "../" + rest) == pass(Parent(at), rest)
    {
      PassUp(u, at, rest, b);
    }
    UpsGoUp(pass, p, n, s);
  }

  lemma AncestorIndex(u: Doc, p: Path, k: nat)
    requires Wf(u) && Has(u, p) && k < |p|
    ensures IsGroup(u, p[..k]) && Index(u, p[..k]) < Index(u, p)
  {
    var i := Index(u, p);
    NodeIsRooted(u, i);
    assert IsGroup(u[..i], p[..k]);
    IndexPrefix(u, i, p[..k]);
  }

  lemma GroupStandsForItself(u: Doc, p: Path, r: Path)
    requires IsGroup(u, p) && StandsFor(u, p, r)
    ensures r == p
  {
    var n :| Search(u, p, "", n) == Found(r);
    EnterGroup(u, p, "", n);
  }

  lemma FirstOfRest(ns: seq<string>)
    requires ns != [] && GoodNames(ns)
    ensures Rest(ns) != "" && First(Rest(ns)) == ns[0] && After(Rest(ns)) == if |ns| == 1 then "" else Rest(ns[1..])
  {
    RestHead(ns);
    FirstOfName(ns[0], if |ns| == 1 then "" else Rest(ns[1..]));
  }

  lemma {:induction false} PassDown(u: Doc, at: Path, ns: seq<string>, b: nat)
    requires Wf(u) && ns != [] && GoodNames(ns) && Has(u, at + ns) && Index(u, at + ns) < b
    ensures Passes(u, at, Rest(ns), b)
    decreases |ns|
  {
    var child := at + [ns[0]];
    FirstOfRest(ns);
    if |ns| == 1 {
      assert ns == [ns[0]];
    } else {
      Prefixes(at, ns);
      AncestorIndex(u, at + ns, |at| + 1);
      PassDown(u, child, ns[1..], b);
      GroupPasses(u, child, Rest(ns[1..]), b);
    }
  }

  lemma GroupPasses(u: Doc, p: Path, s: string, b: nat)
    requires IsGroup(u, p) && Passes(u, p, s, b)
    ensures forall r :: StandsFor(u, p, r) ==> Passes(u, r, s, b)
  {
    forall r | StandsFor(u, p, r)
      ensures r == p
    {
      GroupStandsForItself(u, p, r);
    }
  }

  lemma RelativePasses(u: Doc, p: Path, r: Path, b: nat)
    requires Wf(u) && p != [] && GoodNames(p) && Has(u, r) && Index(u, r) < b && !CutsName(Join(p), Join(r))
    ensures Join(p) != "" && Join(p)[0] == '/'
    ensures Passes(u, p, RelativePath(Join(p), Join(r)), b)
  {
    assert GoodNames(u[Index(u, r)].path);
    var top, up, down := RelativeParts(p, r);
    PassUps(u, p, |up|, Rest(down), b);
    assert p[..|p| - |up|] == top;
    if down == [] {
      assert Rest(down) == "";
    } else {
      PassDown(u, top, down, b);
    }
  }

  /** The second attempt of a reference that starts with "../" fails at the root. */
  lemma UpFromRootPasses(u: Doc, p: Path, s: string, b: nat)
    ensures Passes(u, p, "/" + ("../" + s), b)
  {
    PassesFromRoot(u, p, "../" + s, b);
    assert ".." + "/" + s == "../" + s;
    FirstOfName("..", s);
  }

  // ----- Trees whose nodes stand for the same let the same searches pass -----

  ghost predicate Alike(t: Doc, u: Doc, b: nat) {
    forall c: Path {:trigger Has(u, c)} ::
      Has(u, c) ==> Has(t, c) && (Index(t, c) < b ==> Index(u, c) < b && Deref(u, c) == Deref(t, c))
  }

  lemma {:induction false} PassesAlike(t: Doc, u: Doc, p: Path, s: string, b: nat)
    requires Wf(t) && Wf(u) && b <= |t| && b <= |u| && SettledTo(t, b) && SettledTo(u, b) && Alike(t, u, b)
    requires Passes(t, p, s, b)
    ensures Passes(u, p, s, b)
    decreases |s|
  {
    if s != "" {
      if First(s) == "" {
        PassesAlike(t, u, [], After(s), b);
      } else if First(s) == ".." {
        if p != [] {
          PassesAlike(t, u, Parent(p), After(s), b);
        }
      } else if Has(u, p + [First(s)]) {
        var child := p + [First(s)];
        StandForSame(t, u, child, b);
        PassesAlike(t, u, Deref(t, child), After(s), b);
      }
    }
  }

  lemma StandForSame(t: Doc, u: Doc, c: Path, b: nat)
    requires Wf(t) && Wf(u) && b <= |t| && b <= |u| && SettledTo(t, b) && SettledTo(u, b) && Alike(t, u, b)
    requires Has(u, c) && Index(t, c) < b
    ensures StandsFor(t, c, Deref(t, c)) && forall r :: StandsFor(u, c, r) <==> r == Deref(t, c)
  {
    var m := EnterNode(t, c, "", b, 0);
    assert Search(t, c, "", m) == Found(Deref(t, c));
    var n := EnterNode(u, c, "", b, 0);
    StandsForOne(u, c, Deref(u, c), n);
  }

  // ----- Pieces of a rewritten value -----

  lemma {:induction false} AllIdsRunOn(q: string -> bool, id: string, x: string, rest: string)
    requires IsId(x)
    ensures AllIds(q, id, x + rest) == AllIds(q, id + x, rest)
    decreases |x|
  {
    if x == "" {
      assert x + rest == rest && id + x == id;
    } else {
      assert (x + rest)[1..] == x[1..] + rest;
      AllIdsRunOn(q, id + [x[0]], x[1..], rest);
      assert id + [x[0]] + x[1..] == id + x;
    }
  }

  /** The piece that replaces x is one piece, and q holds of it. */
  ghost function Afterwards(q: string -> bool, g: string -> string): string -> bool {
    x => IsId(g(x)) && q(g(x))
  }

  lemma {:induction false} AllIdsOfRewrite(q: string -> bool, g: string -> string, id: string, v: string)
    requires AllIds(Afterwards(q, g), id, v)
    ensures AllIds(q, "", Rewrite(g, id, v))
    decreases |v|
  {
    if v == "" {
      AllIdsRunOn(q, "", g(id), "");
      assert g(id) + "" == g(id) && "" + g(id) == g(id);
    } else if IsSeparator(v[0]) {
      var tail := Rewrite(g, "", v[1..]);
      AllIdsOfRewrite(q, g, "", v[1..]);
      AllIdsRunOn(q, "", g(id), [v[0]] + tail);
      assert g(id) + ([v[0]] + tail) == g(id) + [v[0]] + tail;
      assert "" + g(id) == g(id) && ([v[0]] + tail)[1..] == tail;
    } else {
      AllIdsOfRewrite(q, g, id + [v[0]], v[1..]);
    }
  }

  /** The text before the first separator. */
  lemma {:induction false} FirstPiece(v: string) returns (x: string, y: string)
    ensures v == x + y && IsId(x) && (y != "" ==> IsSeparator(y[0]))
  {
    if v == "" || IsSeparator(v[0]) {
      x, y := "", v;
    } else {
      x, y := FirstPiece(v[1..]);
      x := [v[0]] + x;
    }
  }

  lemma RewriteFirst(q: string -> bool, g: string -> string, x: string, y: string)
    requires IsId(x) && y != "" && IsSeparator(y[0])
    ensures Rewrite(g, "", x + y) == g(x) + ([y[0]] + Rewrite(g, "", y[1..]))
    ensures AllIds(q, "", x + y) ==> q(x)
  {
    RewriteRuns(g, "", x, y);
    AllIdsRunOn(q, "", x, y);
    assert "" + x == x;
    assert g(x) + [y[0]] + Rewrite(g, "", y[1..]) == g(x) + ([y[0]] + Rewrite(g, "", y[1..]));
  }

  /** A name with a separator in it is no node's. */
  lemma SeparatorStops(u: Doc, p: Path, s: string, k: nat)
    requires Clean(u) && k < FirstSlash(s) && IsSeparator(s[k])
    ensures forall b :: Passes(u, p, s, b)
  {
    var first := First(s);
    assert first[k] == s[k];
    assert (p + [first])[|p|] == first;
  }

  lemma {:induction false} SlashBeforeSeparator(x: string, y: string)
    requires y != "" && y[0] != '/'
    ensures FirstSlash(x) < |x| ==> FirstSlash(x + y) == FirstSlash(x)
    ensures FirstSlash(x) == |x| ==> FirstSlash(x + y) > |x|
  {
    if x == "" {
      assert x + y == y;
    } else if x[0] != '/' {
      assert (x + y)[1..] == x[1..] + y;
      SlashBeforeSeparator(x[1..], y);
    }
  }

  /** The search for an expression goes no further than that for its first piece. */
  lemma {:induction false} PassesLonger(u: Doc, p: Path, x: string, y: string, b: nat)
    requires Clean(u) && y != "" && IsSeparator(y[0]) && Passes(u, p, x, b)
    ensures Passes(u, p, x + y, b)
    decreases |x|, 1
  {
    SlashBeforeSeparator(x, y);
    if FirstSlash(x) == |x| {
      assert (x + y)[|x|] == y[0];
      SeparatorStops(u, p, x + y, |x|);
    } else {
      LongerParts(x, y, FirstSlash(x));
      PassesLongerBehind(u, p, x, y, b);
    }
  }

  lemma LongerParts(x: string, y: string, k: nat)
    requires k < |x|
    ensures (x + y)[..k] == x[..k] && (x + y)[k + 1..] == x[k + 1..] + y
  {
  }

  lemma {:induction false} PassesLongerBehind(u: Doc, p: Path, x: string, y: string, b: nat)
    requires Clean(u) && y != "" && IsSeparator(y[0]) && Passes(u, p, x, b) && FirstSlash(x) < |x|
    requires First(x + y) == First(x) && After(x + y) == After(x) + y
    ensures Passes(u, p, x + y, b)
    decreases |x|, 0
  {
    if First(x) == "" {
      PassesLonger(u, [], After(x), y, b);
    } else if First(x) == ".." {
      if p != [] {
        PassesLonger(u, Parent(p), After(x), y, b);
      }
    } else if Has(u, p + [First(x)]) {
      forall r | StandsFor(u, p + [First(x)], r)
        ensures Passes(u, r, After(x) + y, b)
      {
        PassesLonger(u, r, After(x), y, b);
      }
    }
  }

  // ----- The copy's references look back -----

  /** Copy and original, and how far both are known to look back. */
  ghost predicate CopiedTo(t: Doc, u: Doc, i: nat) {
    && Wf(t) && Clean(t) && Guarded(t) && u == Copy(t) && Wf(u) && Clean(u) && Agree(t, u) && i < |t|
    && SettledTo(t, i) && SettledTo(u, i)
  }

  lemma CopyIsAlike(t: Doc, u: Doc, b: nat)
    requires Agree(t, u)
    ensures Alike(t, u, b)
  {
    forall c: Path
      ensures Index(u, c) == Index(t, c) && Deref(u, c) == Deref(t, c)
    {
      SameIndex(t, u, c);
    }
  }

  /** What becomes of one reference of the node at position i looks back again. */
  lemma LocalizedLooksBack(t: Doc, u: Doc, i: nat, x: string)
    requires CopiedTo(t, u, i) && t[i].path != [] && IsId(x)
    requires Reachable(t[..i], t[i].path, x) && PassesRef(t, i, x)
    ensures IsId(Localize(u[..i], t[i].path, x)) && PassesRef(u, i, Localize(u[..i], t[i].path, x))
  {
    var p, t0, u0 := t[i].path, t[..i], u[..i];
    PrefixAgrees(t, i);
    NodeIsRooted(t, i);
    SameIndex(t0, u0, p);
    LocalizedIsId(u0, p, x);
    ResolveInIsFind(u0, p, x);
    AgreeFind(t0, u0, [], x);
    assert u[i].path == p;
    if x != "" {
      match Find(t0, [], x)
      case None =>
        CopyIsAlike(t, u, i);
        PassesAlike(t, u, p, x, i);
        PassesAlike(t, u, p, "/" + x, i);
      case Some(r) =>
        TargetPasses(t, u, i, x, r);
    }
  }

  lemma TargetPasses(t: Doc, u: Doc, i: nat, x: string, r: Path)
    requires CopiedTo(t, u, i) && t[i].path != [] && x != "" && Find(t[..i], [], x) == Some(r)
    requires !CutsName(Join(t[i].path), Join(r))
    ensures Join(t[i].path) != "" && Join(t[i].path)[0] == '/'
    ensures PassesRef(u, i, RelativePath(Join(t[i].path), Join(r)))
  {
    EarlierInCopy(t, u, i, x, r);
    PassesBothWays(u, i, r);
  }

  lemma EarlierInCopy(t: Doc, u: Doc, i: nat, x: string, r: Path)
    requires CopiedTo(t, u, i) && t[i].path != [] && x != "" && Find(t[..i], [], x) == Some(r)
    ensures Has(u, r) && Index(u, r) < i && u[i].path == t[i].path && GoodNames(t[i].path)
  {
    WfPrefix(t, i);
    NodeIsRooted(t, i);
    RootIsRooted(t[..i]);
    FindTerminal(t[..i], [], x);
    assert t[i].path[..0] == [] && IsGroup(t[..i], t[i].path[..0]);
    IndexPrefix(t, i, r);
    SameIndex(t, u, r);
  }

  lemma PassesBothWays(u: Doc, i: nat, r: Path)
    requires Wf(u) && i < |u| && u[i].path != [] && GoodNames(u[i].path) && Has(u, r) && Index(u, r) < i
    requires !CutsName(Join(u[i].path), Join(r))
    ensures Join(u[i].path) != "" && Join(u[i].path)[0] == '/'
    ensures PassesRef(u, i, RelativePath(Join(u[i].path), Join(r)))
  {
    var p := u[i].path;
    RelativePasses(u, p, r, i);
    RelativeStartsUp(p, Join(r));
    var rel := RelativePath(Join(p), Join(r));
    assert rel == "../" + rel[3..];
    UpFromRootPasses(u, p, rel[3..], i);
  }

  lemma {:induction false} AllIdsBoth(p: string -> bool, q: string -> bool, r: string -> bool, id: string, v: string)
    requires AllIds(p, id, v) && AllIds(q, id, v) && IsId(id)
    requires forall x :: IsId(x) && p(x) && q(x) ==> r(x)
    ensures AllIds(r, id, v)
    decreases |v|
  {
    if v == "" {
    } else if IsSeparator(v[0]) {
      AllIdsBoth(p, q, r, "", v[1..]);
    } else {
      AllIdsBoth(p, q, r, id + [v[0]], v[1..]);
    }
  }

  /** The references in the copied value. */
  lemma CopiedPiecesLookBack(t: Doc, u: Doc, i: nat)
    requires CopiedTo(t, u, i) && t[i].content.Param? && t[i].path != [] && NodeLooksBack(t, i)
    ensures AllIds(Afterwards(PassesRefs(u, i), Localizer(u[..i], t[i].path)), "", t[i].content.value)
  {
    var p, v := t[i].path, t[i].content.value;
    var after := Afterwards(PassesRefs(u, i), Localizer(u[..i], p));
    forall x | IsId(x) && ReachableFrom(t[..i], p)(x) && PassesRefs(t, i)(x)
      ensures after(x)
    {
      LocalizedLooksBack(t, u, i, x);
    }
    AllIdsBoth(ReachableFrom(t[..i], p), PassesRefs(t, i), after, "", v);
  }

  /** The copied value as a whole. */
  lemma CopiedValuePasses(t: Doc, u: Doc, i: nat)
    requires CopiedTo(t, u, i) && t[i].content.Param? && t[i].path != []
    requires AllIds(Afterwards(PassesRefs(u, i), Localizer(u[..i], t[i].path)), "", t[i].content.value)
    ensures PassesRef(u, i, Rewrite(Localizer(u[..i], t[i].path), "", t[i].content.value))
  {
    var g, v := Localizer(u[..i], t[i].path), t[i].content.value;
    var after := Afterwards(PassesRefs(u, i), g);
    var x, y := FirstPiece(v);
    if y == "" {
      assert x + y == x;
      RewriteId(g, v);
      AllIdsRuns(after, "", v);
      assert "" + v == v;
    } else {
      RewriteFirst(after, g, x, y);
      ExpressionPasses(u, i, g(x), [y[0]] + Rewrite(g, "", y[1..]));
    }
  }

  lemma PassesFromRoot(u: Doc, p: Path, x: string, b: nat)
    ensures Passes(u, p, "/" + x, b) <==> Passes(u, [], x, b)
  {
    assert First("/" + x) == "" && After("/" + x) == x by { assert ("/" + x)[1..] == x; }
  }

  lemma ExpressionPasses(u: Doc, i: nat, x: string, y: string)
    requires i < |u| && Clean(u) && y != "" && IsSeparator(y[0]) && PassesRef(u, i, x)
    ensures PassesRef(u, i, x + y)
  {
    PassesFromRoot(u, u[i].path, x, i);
    PassesLonger(u, u[i].path, x, y, i);
    PassesLonger(u, [], x, y, i);
    PassesFromRoot(u, u[i].path, x + y, i);
  }

  lemma {:induction false} CopyLooksBackTo(t: Doc, k: nat)
    requires Wf(t) && Clean(t) && Guarded(t) && LooksBack(t) && k <= |t|
    ensures LooksBackTo(Copy(t), k)
  {
    if k > 0 {
      CopyLooksBackTo(t, k - 1);
      CopyOfNodeLooksBack(t, k - 1);
    }
  }

  lemma CopyOfNodeLooksBack(t: Doc, i: nat)
    requires Wf(t) && Clean(t) && Guarded(t) && LooksBack(t) && i < |t| && LooksBackTo(Copy(t), i)
    ensures NodeLooksBack(Copy(t), i)
  {
    var u := Copy(t);
    CopyShape(t);
    SameShapeWf(t, u);
    CopyAgrees(t);
    SearchesEnd(t, i);
    SearchesEnd(u, i);
    if t[i].content.Param? {
      CopyPrefix(t, i);
      NodeValue(t, i);
      assert NodeLooksBack(t, i);
      CopiedPiecesLookBack(t, u, i);
      CopiedValuePasses(t, u, i);
      AllIdsOfRewrite(PassesRefs(u, i), Localizer(u[..i], t[i].path), "", t[i].content.value);
    }
  }

  /** If the references of a tree look back, so do those of its copy. */
  lemma CopyLooksBack(t: Doc)
    requires Wf(t) && Clean(t) && Guarded(t) && LooksBack(t)
    ensures Wf(Copy(t)) && LooksBack(Copy(t))
  {
    CopyShape(t);
    SameShapeWf(t, Copy(t));
    CopyLooksBackTo(t, |t|);
  }

  // ----- What instantiation promises -----

  /**
   While a parameter is instantiated, its references are resolved in the part of the new tree that exists; these
   searches end, as ConfigCopy has it.
   */
  lemma LocalizingEnds(t: Doc, i: nat, id: string) returns (n: nat)
    requires Wf(t) && Clean(t) && Guarded(t) && LooksBack(t) && i < |t| && t[i].path != []
    ensures SearchNewRef(Copy(t)[..i], t[i].path, id, n) == Outcomes(ResolveIn(Copy(t)[..i], t[i].path, id))
  {
    PrefixAgrees(t, i);
    NodeIsRooted(t, i);
    SameRooted(t[..i], Copy(t)[..i], t[i].path);
    CopiedPartLooksBack(t, i);
    n := NewRefEnds(Copy(t)[..i], t[i].path, id);
  }

  lemma CopiedPartLooksBack(t: Doc, i: nat)
    requires Wf(t) && Clean(t) && Guarded(t) && LooksBack(t) && i <= |t|
    ensures Wf(Copy(t)[..i]) && LooksBack(Copy(t)[..i])
  {
    CopyPrefix(t, i);
    PrefixLooksBack(t, i);
    PrefixKeeps(t, i);
    CopyLooksBack(t[..i]);
  }

  lemma {:induction false} PrefixLooksBackTo(t: Doc, i: nat, k: nat)
    requires Wf(t) && LooksBack(t) && k <= i <= |t|
    ensures LooksBackTo(t[..i], k)
  {
    if k > 0 {
      PrefixLooksBackTo(t, i, k - 1);
      PrefixNodeLooksBack(t, i, k - 1);
    }
  }

  lemma PrefixNodeLooksBack(t: Doc, i: nat, j: nat)
    requires Wf(t) && LooksBack(t) && j < i <= |t| && LooksBackTo(t[..i], j)
    ensures NodeLooksBack(t[..i], j)
  {
    var u := t[..i];
    WfPrefix(t, i);
    SearchesEnd(t, j);
    SearchesEnd(u, j);
    PrefixIsAlike(t, i, j);
    assert NodeLooksBack(t, j);
    AlikeNodeLooksBack(t, u, j);
  }

  lemma AlikeNodeLooksBack(t: Doc, u: Doc, j: nat)
    requires Wf(t) && Wf(u) && j < |t| && j < |u| && t[j] == u[j]
    requires SettledTo(t, j) && SettledTo(u, j) && Alike(t, u, j) && NodeLooksBack(t, j)
    ensures NodeLooksBack(u, j)
  {
    if t[j].content.Param? {
      AlikeRefPasses(t, u, j, t[j].content.value);
      forall x | PassesRefs(t, j)(x)
        ensures PassesRefs(u, j)(x)
      {
        AlikeRefPasses(t, u, j, x);
      }
      AllIdsMonotone(PassesRefs(t, j), PassesRefs(u, j), "", t[j].content.value);
    }
  }

  lemma AlikeRefPasses(t: Doc, u: Doc, j: nat, x: string)
    requires Wf(t) && Wf(u) && j < |t| && j < |u| && t[j].path == u[j].path
    requires SettledTo(t, j) && SettledTo(u, j) && Alike(t, u, j) && PassesRef(t, j, x)
    ensures PassesRef(u, j, x)
  {
    if x != "" {
      PassesAlike(t, u, t[j].path, x, j);
      PassesAlike(t, u, t[j].path, "/" + x, j);
    }
  }

  lemma PrefixIsAlike(t: Doc, i: nat, b: nat)
    requires i <= |t|
    ensures Alike(t, t[..i], b)
  {
    forall c: Path | Has(t[..i], c)
      ensures Has(t, c) && Index(t[..i], c) == Index(t, c) && Deref(t[..i], c) == Deref(t, c)
    {
      IndexPrefix(t, i, c);
      DerefPrefix(t, i, c);
    }
  }

  lemma PrefixLooksBack(t: Doc, i: nat)
    requires Wf(t) && LooksBack(t) && i <= |t|
    ensures LooksBack(t[..i])
  {
    PrefixLooksBackTo(t, i, i);
  }

  /**
   Every reference of the copy, relative or not, resolves in the whole copy to the copy of what the original reference
   names in the whole original tree, and both searches end.
   */
  lemma ReferencesKept(t: Doc, i: nat, id: string) returns (n: nat)
    requires Wf(t) && Clean(t) && Guarded(t) && LooksBack(t) && i < |t| && t[i].content.Param?
    requires id != "" && IsId(id) && Reachable(t[..i], t[i].path, id) && PassesRef(t, i, id)
    ensures t[i].path != []
    ensures SearchRef(Copy(t), t[i].path, Localize(Copy(t)[..i], t[i].path, id), n) ==
            SearchRef(t, t[i].path, id, n) != Unknown
  {
    SearchesEnd(t, i);
    var k := ReferenceEnds(t, i, id);
    LocalizedInWhole(t, i, id);
    var m := LocalizedEnds(t, i, id);
    n := k + m;
    SearchRefStays(t, t[i].path, id, k, n);
    SearchRefStays(Copy(t), t[i].path, Localize(Copy(t)[..i], t[i].path, id), m, n);
  }

  lemma LocalizedEnds(t: Doc, i: nat, id: string) returns (m: nat)
    requires Wf(t) && Clean(t) && Guarded(t) && LooksBack(t) && i < |t| && t[i].content.Param? && t[i].path != []
    requires id != "" && IsId(id) && Reachable(t[..i], t[i].path, id) && PassesRef(t, i, id)
    ensures var u, x := Copy(t), Localize(Copy(t)[..i], t[i].path, id);
            SearchRef(u, t[i].path, x, m) == Outcomes(Resolve(u, t[i].path, x))
  {
    var u := Copy(t);
    CopyShape(t);
    CopyLooksBack(t);
    SameShapeWf(t, u);
    CopyAgrees(t);
    SearchesEnd(t, i);
    SearchesEnd(u, i);
    LocalizedLooksBack(t, u, i, id);
    LocalizedIsNotEmpty(t, i, id);
    m := ReferenceEnds(u, i, Localize(u[..i], t[i].path, id));
  }

  lemma LocalizedIsNotEmpty(t: Doc, i: nat, id: string)
    requires Wf(t) && Clean(t) && Guarded(t) && i < |t| && t[i].path != [] && IsId(id) && id != ""
    ensures Localize(Copy(t)[..i], t[i].path, id) != ""
  {
    PrefixAgrees(t, i);
    NodeIsRooted(t, i);
    SameIndex(t[..i], Copy(t)[..i], t[i].path);
    LocalizedIsId(Copy(t)[..i], t[i].path, id);
  }

  /** In the whole tree: from any node, the relative path to another one leads to what that one stands for. */
  lemma RelativeSearchEnds(t: Doc, a: Path, b: Path) returns (n: nat)
    requires Wf(t) && LooksBack(t) && Has(t, a) && Has(t, b) && a != [] && !CutsName(Join(a), Join(b))
    ensures Join(a) != "" && Join(a)[0] == '/'
    ensures SearchFrom(t, a, RelativePath(Join(a), Join(b)), n) == Search(t, b, "", n) == Found(Deref(t, b))
  {
    HasIsRooted(t, a);
    FindRelative(t, a, b);
    SearchesEnd(t, |t|);
    assert t[..|t|] == t;
    var s := RelativePath(Join(a), Join(b));
    EverythingPasses(t, a, s);
    var k := WalkEnds(t, a, s, |t|);
    var m := SearchIsFind(t, b, "");
    n := k + m;
    SearchFromStays(t, a, s, k, n);
    SearchStays(t, b, "", m, n);
  }
}
