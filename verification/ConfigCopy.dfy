/**
 Instantiating a configuration tree (base/src/configurable.cpp,
 base/include/grl/configurable.h): a copy of the same shape in which references
 have been made relative, and in which every parameter still means the same.
 */
module ConfigCopy {
  import opened Options
  import opened Paths
  import opened ConfigTree

  predicate IsSeparator(c: char) {
    c == ' ' || c == '\t' || c == '[' || c == ']' || c == '+' || c == ',' || c == '-' || c == '*' || c == '(' || c == ')'
  }

  /** Text without separators: what counts as one reference. */
  predicate IsId(s: string) {
    forall i :: 0 <= i < |s| ==> !IsSeparator(s[i])
  }

  /** Apply `f` to every maximal separator-free piece of `id + v`, where `id` is the piece read so far. */
  function Rewrite(f: string -> string, id: string, v: string): string
    decreases |v|
  {
    if v == "" then f(id)
    else if IsSeparator(v[0]) then f(id) + [v[0]] + Rewrite(f, "", v[1..])
    else Rewrite(f, id + [v[0]], v[1..])
  }

  /** Does `p` hold of every piece? */
  predicate AllIds(p: string -> bool, id: string, v: string)
    decreases |v|
  {
    if v == "" then p(id)
    else if IsSeparator(v[0]) then p(id) && AllIds(p, "", v[1..])
    else AllIds(p, id + [v[0]], v[1..])
  }

  lemma {:induction false} RewriteRuns(f: string -> string, id: string, x: string, rest: string)
    requires IsId(x)
    ensures Rewrite(f, id, x + rest) == Rewrite(f, id + x, rest)
    decreases |x|
  {
    if x == "" {
      assert x + rest == rest && id + x == id;
    } else {
      assert (x + rest)[1..] == x[1..] + rest;
      RewriteRuns(f, id + [x[0]], x[1..], rest);
      assert id + [x[0]] + x[1..] == id + x;
    }
  }

  lemma RewriteId(f: string -> string, x: string)
    requires IsId(x)
    ensures Rewrite(f, "", x) == f(x)
  {
    RewriteRuns(f, "", x, "");
    assert x + "" == x && "" + x == x;
  }

  lemma {:induction false} AllIdsRuns(p: string -> bool, id: string, x: string)
    requires IsId(x) && AllIds(p, id, x)
    ensures p(id + x)
    decreases |x|
  {
    if x == "" {
      assert id + x == id;
    } else {
      AllIdsRuns(p, id + [x[0]], x[1..]);
      assert id + [x[0]] + x[1..] == id + x;
    }
  }

  /** `g` turns every piece into a piece that `h` treats as `f` treats the original. */
  function Carries(f: string -> string, g: string -> string, h: string -> string): string -> bool {
    x => IsId(g(x)) && h(g(x)) == f(x)
  }

  lemma {:induction false} RewriteTwice(f: string -> string, g: string -> string, h: string -> string, id: string, v: string)
    requires AllIds(Carries(f, g, h), id, v)
    ensures Rewrite(h, "", Rewrite(g, id, v)) == Rewrite(f, id, v)
    decreases |v|
  {
    if v == "" {
      RewriteId(h, g(id));
    } else if IsSeparator(v[0]) {
      var tail := Rewrite(g, "", v[1..]);
      RewriteTwice(f, g, h, "", v[1..]);
      RewriteRuns(h, "", g(id), [v[0]] + tail);
      assert g(id) + ([v[0]] + tail) == g(id) + [v[0]] + tail;
      assert "" + g(id) == g(id) && ([v[0]] + tail)[1..] == tail;
    } else {
      RewriteTwice(f, g, h, id + [v[0]], v[1..]);
    }
  }

  /** A piece can only be rewritten to text with the separators of the original. */
  lemma {:induction false} RewriteKeepsSeparators(f: string -> string, id: string, v: string)
    requires !IsId(v)
    ensures !IsId(Rewrite(f, id, v))
    decreases |v|
  {
    if IsSeparator(v[0]) {
      var r := Rewrite(f, id, v);
      assert r[|f(id)|] == v[0];
    } else {
      var i :| 0 <= i < |v| && IsSeparator(v[i]);
      assert v[1..][i - 1] == v[i];
      RewriteKeepsSeparators(f, id + [v[0]], v[1..]);
    }
  }

  // ----- Instantiation -----

  /** `ParameterConfigurator::localize` for a parameter with path `p` below the new, still incomplete tree. */
  function Localize(partial: Doc, p: Path, id: string): string
    requires p != []
  {
    if id == "" then id
    else
      match ResolveIn(partial, p, id)
      case Some(r) => JoinStarts(p); RelativePath(Join(p), Join(r))
      case None => id
  }

  function Localizer(partial: Doc, p: Path): string -> string
    requires p != []
  {
    id => Localize(partial, p, id)
  }

  function CopyNode(partial: Doc, n: Node): Node {
    if n.content.Param? && n.path != []
    then Node(n.path, Param(Rewrite(Localizer(partial, n.path), "", n.content.value)))
    else n
  }

  /** `instantiate` of the root: nodes are created in document order, each below the copy of its parent. */
  function Copy(t: Doc): (u: Doc)
    ensures |u| == |t|
  {
    if t == [] then []
    else
      var init := Copy(t[..|t| - 1]);
      init + [CopyNode(init, t[|t| - 1])]
  }

  lemma RewriteStep(f: string -> string, done: string, id: string, v: string, ii: nat)
    requires ii < |v|
    ensures done + Rewrite(f, id, v[ii..]) ==
            if IsSeparator(v[ii]) then done + f(id) + [v[ii]] + Rewrite(f, "", v[ii + 1..])
            else done + Rewrite(f, id + [v[ii]], v[ii + 1..])
  {
    assert v[ii..][1..] == v[ii + 1..];
    if IsSeparator(v[ii]) {
      var tail := Rewrite(f, "", v[ii + 1..]);
      assert done + (f(id) + [v[ii]] + tail) == done + f(id) + [v[ii]] + tail;
    }
  }

  /** The loop of `ParameterConfigurator::instantiate` over the characters of the value. */
  method InstantiateValue(partial: Doc, p: Path, v: string) returns (expv: string)
    requires p != []
    ensures expv == Rewrite(Localizer(partial, p), "", v)
  {
    var id := "";
    expv := "";
    ghost var f := Localizer(partial, p);
    ghost var whole := Rewrite(f, "", v);
    assert v[0..] == v;
    for ii := 0 to |v|
      invariant expv + Rewrite(f, id, v[ii..]) == whole
    {
      RewriteStep(f, expv, id, v, ii);
      if IsSeparator(v[ii]) {
        expv := expv + Localize(partial, p, id);
        id := "";
        expv := expv + [v[ii]];
      } else {
        id := id + [v[ii]];
      }
    }
    expv := expv + Localize(partial, p, id);
  }

  // ----- Trees that find the same -----

  ghost predicate SamePaths(t: Doc, u: Doc) {
    |t| == |u| && forall i :: 0 <= i < |t| ==> t[i].path == u[i].path
  }

  /** Every node stands for the same path in both trees. */
  ghost predicate Agree(t: Doc, u: Doc) {
    SamePaths(t, u) && forall p: Path :: Deref(t, p) == Deref(u, p)
  }

  lemma {:induction false} SameIndex(t: Doc, u: Doc, p: Path)
    requires SamePaths(t, u)
    ensures Index(t, p) == Index(u, p)
  {
    if t != [] {
      SameIndex(t[..|t| - 1], u[..|u| - 1], p);
    }
  }

  lemma {:induction false} AgreeFind(t: Doc, u: Doc, at: Path, s: string)
    requires Agree(t, u)
    ensures Find(t, at, s) == Find(u, at, s)
    decreases |s|
  {
    if s != "" {
      var child := at + [First(s)];
      SameIndex(t, u, child);
      var next := if First(s) == "" then []
                  else if First(s) == ".." then (if at == [] then [] else Parent(at))
                  else Deref(t, child);
      AgreeFind(t, u, next, After(s));
    }
  }

  lemma AgreeResolve(t: Doc, u: Doc, p: Path, id: string)
    requires Agree(t, u)
    ensures Resolve(t, p, id) == Resolve(u, p, id)
    ensures p != [] ==> ResolveIn(t, p, id) == ResolveIn(u, p, id)
  {
    AgreeFind(t, u, p, id);
    AgreeFind(t, u, [], id);
    if p != [] {
      AgreeFind(t, u, Parent(p), p[|p| - 1] + "/" + id);
      AgreeFind(t, u, Parent(p), "/" + id);
    }
  }

  // ----- What a search ends at stands for itself -----

  lemma WfPrefix(t: Doc, k: nat)
    requires Wf(t) && k <= |t|
    ensures Wf(t[..k])
  {
    forall i | 0 <= i < k
      ensures GoodNames(t[..k][i].path) && Index(t[..k], t[..k][i].path) == i
      ensures BelowGroup(t[..k], i)
    {
      assert BelowGroup(t, i);
      IndexFound(t[..k], i);
      IndexPrefix(t, k, t[i].path);
      assert t[..k][..i] == t[..i];
    }
  }

  /** What a node stands for does not depend on later nodes. */
  lemma DerefPrefix(t: Doc, k: nat, p: Path)
    requires k <= |t|
    ensures Has(t[..k], p) ==> Has(t, p) && Deref(t, p) == Deref(t[..k], p)
  {
    IndexPrefix(t, k, p);
    if Has(t[..k], p) {
      assert t[..k][..Index(t, p)] == t[..Index(t, p)];
    }
  }

  /** A search that starts at a node standing for itself ends at one. */
  lemma {:induction false} FindTerminal(t: Doc, at: Path, s: string)
    requires Wf(t) && Rooted(t, at) && Deref(t, at) == at
    ensures var r := Find(t, at, s);
            r.Some? ==> Deref(t, r.value) == r.value && Rooted(t, r.value) && (s != "" && r.value != [] ==> Has(t, r.value))
    decreases |t|, 1, |s|
  {
    if s == "" {
    } else if First(s) == "" {
      FindTerminal(t, [], After(s));
    } else if First(s) == ".." {
      if at != [] {
        assert IsGroup(t, at[..|at| - 1]);
        ParentRooted(t, at);
        FindTerminal(t, Parent(at), After(s));
      }
    } else if Has(t, at + [First(s)]) {
      DerefTerminal(t, at + [First(s)]);
      FindTerminal(t, Deref(t, at + [First(s)]), After(s));
    }
  }

  lemma ParentRooted(t: Doc, p: Path)
    requires Rooted(t, p) && p != []
    ensures Rooted(t, Parent(p))
  {
    forall k | 0 <= k < |p| - 1 ensures IsGroup(t, Parent(p)[..k]) {
      assert Parent(p)[..k] == p[..k];
    }
  }

  lemma RootedPrefix(t: Doc, k: nat, p: Path)
    requires k <= |t| && Rooted(t[..k], p)
    ensures Rooted(t, p)
  {
    forall m | 0 <= m < |p| ensures IsGroup(t, p[..m]) {
      IndexPrefix(t, k, p[..m]);
    }
  }

  lemma {:induction false} ResolveTerminal(t: Doc, p: Path, id: string)
    requires Wf(t) && Rooted(t, p) && Deref(t, p) == p
    ensures var r := Resolve(t, p, id);
            r.Some? ==> Deref(t, r.value) == r.value && Rooted(t, r.value) && (id != "" && r.value != [] ==> Has(t, r.value))
    decreases |t|, 2, |id|
  {
    FindTerminal(t, p, id);
    FindTerminal(t, [], id);
  }

  lemma {:induction false} DerefTerminal(t: Doc, p: Path)
    requires Wf(t) && Has(t, p)
    ensures var r := Deref(t, p); Deref(t, r) == r && Rooted(t, r) && Has(t, r)
    decreases |t|, 0, 0
  {
    if Deref(t, p) == p {
      HasIsRooted(t, p);
    } else {
      var i := Index(t, p);
      WfPrefix(t, i);
      NodeIsRooted(t, i);
      ResolveTerminal(t[..i], p, t[i].content.value);
      RootHas(t, p);
      DerefPrefix(t, i, Deref(t, p));
      RootedPrefix(t, i, Deref(t, p));
    }
  }

  lemma RootHas(t: Doc, p: Path)
    requires Wf(t) && Has(t, p)
    ensures Has(t, []) && Deref(t, []) == []
  {
    AncestorsAreGroups(t, p, 0);
    assert p[..0] == [];
  }

  /** When a node is created, all its ancestors are there and are groups. */
  lemma NodeIsRooted(t: Doc, i: nat)
    requires Wf(t) && i < |t|
    ensures Rooted(t[..i], t[i].path) && !Has(t[..i], t[i].path)
  {
    var p := t[i].path;
    assert BelowGroup(t, i);
    IndexPrefix(t, i, p);
    if p != [] {
      WfPrefix(t, i);
      HasIsRooted(t[..i], Parent(p));
      forall k | 0 <= k < |p| ensures IsGroup(t[..i], p[..k]) {
        assert k < |p| - 1 ==> Parent(p)[..k] == p[..k];
        assert k == |p| - 1 ==> p[..k] == Parent(p);
      }
    }
  }

  // ----- The copy stands for the same -----

  /** Names cannot be confused with expressions. */
  ghost predicate Clean(t: Doc) {
    forall i, k :: 0 <= i < |t| && 0 <= k < |t[i].path| ==> IsId(t[i].path[k])
  }

  /** The reference can be made relative: no name is cut on the way from the parameter to its target. */
  predicate Reachable(t: Doc, p: Path, id: string) {
    id != "" ==> match Find(t, [], id) case Some(r) => !CutsName(Join(p), Join(r)) case None => true
  }

  function ReachableFrom(t: Doc, p: Path): string -> bool {
    id => Reachable(t, p, id)
  }

  ghost predicate Guarded(t: Doc) {
    forall i :: 0 <= i < |t| && t[i].content.Param? ==>
      AllIds(ReachableFrom(t[..i], t[i].path), "", t[i].content.value)
  }

  /** Text with a separator names no node. */
  lemma {:induction false} ExpressionsAreNoPaths(t: Doc, at: Path, s: string)
    requires Clean(t) && !IsId(s)
    ensures Find(t, at, s).None?
    decreases |s|
  {
    FirstSlashFree(s);
    SplitKeepsSeparator(s);
    var child := at + [First(s)];
    if First(s) == "" {
      ExpressionsAreNoPaths(t, [], After(s));
    } else if First(s) == ".." {
      if at != [] { ExpressionsAreNoPaths(t, Parent(at), After(s)); }
    } else if Has(t, child) {
      assert t[Index(t, child)].path[|at|] == First(s);
      ExpressionsAreNoPaths(t, Deref(t, child), After(s));
    }
  }

  lemma SplitKeepsSeparator(s: string)
    requires !IsId(s)
    ensures First(s) != "" && IsId(First(s)) ==> !IsId(After(s))
    ensures First(s) == "" ==> !IsId(After(s))
    ensures First(s) == ".." ==> IsId(First(s))
  {
    var i :| 0 <= i < |s| && IsSeparator(s[i]);
    var k := FirstSlash(s);
    if i < k {
      assert First(s)[i] == s[i];
    } else {
      assert i != k;
      assert After(s)[i - k - 1] == s[i];
    }
  }

  /** During instantiation only the root lookup can succeed. */
  lemma ResolveInIsFind(t: Doc, p: Path, id: string)
    requires p != [] && GoodNames(p) && !Has(t, p)
    ensures ResolveIn(t, p, id) == Find(t, [], id)
  {
    var name := p[|p| - 1];
    FirstOfName(name, id);
    assert Parent(p) + [name] == p;
    assert First("/" + id) == "" && After("/" + id) == id by {
      assert ("/" + id)[1..] == id;
    }
  }

  /** A reference that the root lookup finds is what the parameter itself finds. */
  lemma RootLookupWins(t: Doc, p: Path, id: string)
    requires Wf(t) && p != [] && !Has(t, p) && id != "" && Find(t, [], id).Some?
    ensures Resolve(t, p, id) == Find(t, [], id)
  {
    var child := p + [First(id)];
    assert child[..|p|] == p;
    if Has(t, child) {
      AncestorsAreGroups(t, child, |p|);
    }
  }

  /**
   The heart of instantiation: in the copied part `u` of a tree `t`, the localized reference resolves from
   the parameter to the same path as the original does in `t`.
   */
  lemma LocalizedResolves(t: Doc, u: Doc, p: Path, id: string)
    requires Wf(t) && Wf(u) && Agree(t, u) && p != [] && GoodNames(p) && Rooted(u, p) && !Has(t, p)
    requires id != "" && Reachable(t, p, id)
    ensures Resolve(u, p, Localize(u, p, id)) == Resolve(t, p, id)
  {
    SameIndex(t, u, p);
    AgreeResolve(t, u, p, id);
    ResolveInIsFind(u, p, id);
    AgreeFind(t, u, [], id);
    match Find(t, [], id) {
      case None =>
      case Some(r) =>
        RootLookupWins(t, p, id);
        RelativeResolves(t, u, p, id, r);
    }
  }

  lemma RelativeResolves(t: Doc, u: Doc, p: Path, id: string, r: Path)
    requires Wf(t) && Wf(u) && Agree(t, u) && p != [] && GoodNames(p) && Rooted(u, p)
    requires id != "" && Find(t, [], id) == Some(r) && !CutsName(Join(p), Join(r))
    ensures Join(p) != "" && Join(p)[0] == '/'
    ensures Find(u, p, RelativePath(Join(p), Join(r))) == Some(r)
  {
    JoinStarts(p);
    FindTerminal(t, [], id);
    assert p[..0] == [];
    assert IsGroup(u, []);
    SameIndex(t, u, r);
    FindRelative(u, p, r);
  }

  lemma {:induction false} JoinClean(ns: seq<string>)
    requires forall k :: 0 <= k < |ns| ==> IsId(ns[k])
    ensures IsId(Join(ns))
  {
    if ns != [] {
      JoinClean(ns[..|ns| - 1]);
    }
  }

  lemma {:induction false} UpsClean(n: nat)
    ensures IsId(Ups(n))
  {
    if n > 0 {
      UpsClean(n - 1);
    }
  }

  /** A localized reference is one non-empty reference again. */
  lemma LocalizedIsId(u: Doc, p: Path, id: string)
    requires Clean(u) && Wf(u) && p != [] && GoodNames(p) && !Has(u, p) && IsId(id)
    ensures IsId(Localize(u, p, id)) && (Localize(u, p, id) == "" <==> id == "")
    ensures Find(u, [], id).None? ==> Localize(u, p, id) == id
  {
    ResolveInIsFind(u, p, id);
    if id != "" && Find(u, [], id).Some? {
      var r := Find(u, [], id).value;
      RelativeStartsUp(p, Join(r));
      RootIsRooted(u);
      FindTerminal(u, [], id);
      JoinClean(r) by {
        forall k | 0 <= k < |r| ensures IsId(r[k]) {
          assert u[Index(u, r)].path == r;
        }
      }
      UpsClean(Slashes(Join(p)[FolderStart(Join(p), Common(Join(p), Join(r)))..]));
    }
  }

  lemma RootIsRooted(u: Doc)
    requires Wf(u)
    ensures Rooted(u, []) && Deref(u, []) == []
  {
  }

  ghost predicate SameShape(t: Doc, u: Doc) {
    SamePaths(t, u) && forall i :: 0 <= i < |t| ==> t[i].content.Param? == u[i].content.Param?
  }

  lemma SameShapeWf(t: Doc, u: Doc)
    requires Wf(t) && SameShape(t, u)
    ensures Wf(u) && (Clean(t) ==> Clean(u))
  {
    forall i | 0 <= i < |u|
      ensures GoodNames(u[i].path) && Index(u, u[i].path) == i
      ensures BelowGroup(u, i)
    {
      assert BelowGroup(t, i);
      SameIndex(t, u, u[i].path);
      if u[i].path != [] {
        SameIndex(t[..i], u[..i], Parent(u[i].path));
      }
    }
  }

  lemma {:induction false} CopyShape(t: Doc)
    ensures SameShape(t, Copy(t))
  {
    if t != [] {
      CopyShape(t[..|t| - 1]);
    }
  }

  lemma {:induction false} CopyPrefix(t: Doc, k: nat)
    requires k <= |t|
    ensures Copy(t)[..k] == Copy(t[..k])
  {
    if k == |t| {
      assert t[..k] == t && Copy(t)[..k] == Copy(t);
    } else {
      CopyPrefix(t[..|t| - 1], k);
      assert t[..|t| - 1][..k] == t[..k];
      assert Copy(t)[..k] == Copy(t[..|t| - 1])[..k];
    }
  }

  lemma PrefixKeeps(t: Doc, k: nat)
    requires k <= |t| && Wf(t) && Clean(t) && Guarded(t)
    ensures Wf(t[..k]) && Clean(t[..k]) && Guarded(t[..k])
  {
    WfPrefix(t, k);
    forall i | 0 <= i < k && t[i].content.Param?
      ensures AllIds(ReachableFrom(t[..k][..i], t[i].path), "", t[i].content.value)
    {
      assert t[..k][..i] == t[..i];
    }
  }

  /** The new value of the last node resolves to what its original resolves to. */
  lemma LastStandsForSame(t0: Doc, u0: Doc, p: Path, v: string)
    requires Wf(t0) && Wf(u0) && Clean(t0) && Clean(u0) && Agree(t0, u0)
    requires p != [] && GoodNames(p) && Rooted(u0, p) && !Has(t0, p) && v != ""
    requires AllIds(ReachableFrom(t0, p), "", v)
    ensures var v' := Rewrite(Localizer(u0, p), "", v);
            v' != "" && Resolve(u0, p, v') == Resolve(t0, p, v)
  {
    var v' := Rewrite(Localizer(u0, p), "", v);
    if IsId(v) {
      RewriteId(Localizer(u0, p), v);
      AllIdsRuns(ReachableFrom(t0, p), "", v);
      assert "" + v == v;
      SameIndex(t0, u0, p);
      LocalizedIsId(u0, p, v);
      LocalizedResolves(t0, u0, p, v);
    } else {
      RewriteKeepsSeparators(Localizer(u0, p), "", v);
      ExpressionsAreNoPaths(t0, p, v);
      ExpressionsAreNoPaths(t0, [], v);
      ExpressionsAreNoPaths(u0, p, v');
      ExpressionsAreNoPaths(u0, [], v');
    }
  }

  /** Every node of the copy stands for the copy of what the original stands for. */
  lemma {:induction false} CopyAgrees(t: Doc)
    requires Wf(t) && Clean(t) && Guarded(t)
    ensures Agree(t, Copy(t))
  {
    CopyShape(t);
    if t != [] {
      var k := |t| - 1;
      PrefixKeeps(t, k);
      CopyAgrees(t[..k]);
      AppendAgrees(t[..k], Copy(t[..k]), t[k], CopyNode(Copy(t[..k]), t[k])) by {
        LastNodeAgrees(t);
      }
      assert t == t[..k] + [t[k]];
    }
  }

  lemma LastNodeAgrees(t: Doc)
    requires t != [] && Wf(t) && Clean(t) && Guarded(t)
    requires Agree(t[..|t| - 1], Copy(t[..|t| - 1]))
    ensures var k := |t| - 1;
            var n, m := t[k], Copy(t)[k];
            n.content.Param? && n.content.value != "" ==>
              m.content.Param? && m.content.value != "" &&
              Resolve(Copy(t[..k]), n.path, m.content.value) == Resolve(t[..k], n.path, n.content.value)
    ensures t[|t| - 1].content.Param? && t[|t| - 1].content.value == "" ==> Copy(t)[|t| - 1] == t[|t| - 1]
  {
    var k := |t| - 1;
    var n, t0, u0 := t[k], t[..k], Copy(t[..k]);
    if n.content.Param? {
      PrefixKeeps(t, k);
      CopyShape(t0);
      SameShapeWf(t0, u0);
      NodeIsRooted(t, k);
      SameRooted(t0, u0, n.path);
      if n.content.value != "" {
        LastStandsForSame(t0, u0, n.path, n.content.value);
      }
    }
  }

  lemma SameRooted(t: Doc, u: Doc, p: Path)
    requires SameShape(t, u) && Rooted(t, p)
    ensures Rooted(u, p)
  {
    forall k | 0 <= k < |p| ensures IsGroup(u, p[..k]) {
      SameIndex(t, u, p[..k]);
    }
  }

  lemma AppendAgrees(t0: Doc, u0: Doc, n: Node, m: Node)
    requires Agree(t0, u0) && n.path == m.path && !Has(t0, n.path)
    requires n.content.Param? == m.content.Param?
    requires n.content.Param? ==> (n.content.value == "" <==> m.content.value == "")
    requires n.content.Param? && n.content.value != "" ==>
               Resolve(u0, n.path, m.content.value) == Resolve(t0, n.path, n.content.value)
    ensures Agree(t0 + [n], u0 + [m])
  {
    var t, u := t0 + [n], u0 + [m];
    assert t[..|t0|] == t0 && u[..|u0|] == u0;
    forall p: Path ensures Deref(t, p) == Deref(u, p) {
      SameIndex(t0, u0, p);
      DerefPrefix(t, |t0|, p);
      DerefPrefix(u, |u0|, p);
    }
  }

  // ----- References in the copy -----

  /** A localized reference resolves in the copy to the copy of what the original resolves to among earlier nodes. */
  lemma LocalizedInWhole(t: Doc, i: nat, id: string)
    requires Wf(t) && Clean(t) && Guarded(t) && i < |t| && t[i].content.Param?
    requires id != "" && Reachable(t[..i], t[i].path, id)
    requires Resolve(t, t[i].path, id) == Resolve(t[..i], t[i].path, id)
    ensures t[i].path != []
    ensures Resolve(Copy(t), t[i].path, Localize(Copy(t)[..i], t[i].path, id)) == Resolve(t, t[i].path, id)
  {
    var p, t0, u0 := t[i].path, t[..i], Copy(t)[..i];
    CopyAgrees(t);
    PrefixAgrees(t, i);
    NodeIsRooted(t, i);
    SameIndex(t0, u0, p);
    ResolveInIsFind(u0, p, id);
    AgreeFind(t0, u0, [], id);
    if Find(t0, [], id).None? {
      AgreeResolve(t, Copy(t), p, id);
    } else {
      RootLookupWins(t0, p, id);
      CopyShape(t);
      SameShapeWf(t, Copy(t));
      EarlierTarget(t, i, id);
      RelativeInWhole(t, Copy(t), p, Find(t0, [], id).value);
    }
  }

  /** What an early reference names is a node that stands for itself, in the whole tree as well. */
  lemma EarlierTarget(t: Doc, i: nat, id: string)
    requires Wf(t) && i < |t| && t[i].path != [] && id != "" && Find(t[..i], [], id).Some?
    ensures var r := Find(t[..i], [], id).value; Has(t, r) && Deref(t, r) == r
    ensures Rooted(t, t[i].path) && GoodNames(t[i].path)
  {
    var p, r := t[i].path, Find(t[..i], [], id).value;
    WfPrefix(t, i);
    NodeIsRooted(t, i);
    RootedPrefix(t, i, p);
    RootIsRooted(t[..i]);
    FindTerminal(t[..i], [], id);
    assert IsGroup(t[..i], p[..0]) && p[..0] == [];
    IndexPrefix(t, i, r);
    DerefPrefix(t, i, r);
  }

  lemma PrefixAgrees(t: Doc, i: nat)
    requires i <= |t| && Wf(t) && Clean(t) && Guarded(t)
    ensures Wf(t[..i]) && Agree(t[..i], Copy(t)[..i]) && SameShape(t[..i], Copy(t)[..i]) && Wf(Copy(t)[..i]) &&
            Clean(Copy(t)[..i])
  {
    PrefixKeeps(t, i);
    CopyPrefix(t, i);
    CopyAgrees(t[..i]);
    CopyShape(t[..i]);
    SameShapeWf(t[..i], Copy(t[..i]));
  }

  lemma RelativeInWhole(t: Doc, u: Doc, p: Path, r: Path)
    requires Wf(t) && Agree(t, u) && SameShape(t, u) && Wf(u)
    requires p != [] && GoodNames(p) && Rooted(t, p) && Has(t, r) && Deref(t, r) == r && !CutsName(Join(p), Join(r))
    ensures Join(p) != "" && Join(p)[0] == '/'
    ensures Resolve(u, p, RelativePath(Join(p), Join(r))) == Some(r)
  {
    SameRooted(t, u, p);
    SameIndex(t, u, r);
    FindRelative(u, p, r);
  }

  // ----- Meaning -----

  /**
   `str()` with references resolved among earlier nodes: an object's text, or a parameter's value with every reference
   replaced by the text of what it names, evaluated as an expression. Objects' texts and the evaluator are given.
   */
  function Str(t: Doc, p: Path, text: Path -> string, eval: string -> string): string
    decreases |t|, 0
  {
    var i := Index(t, p);
    if i == |t| then ""
    else
      match t[i].content
      case Group => text(p)
      case Param(v) => eval(Rewrite(Expander(t[..i], p, text, eval), "", v))
  }

  function Expander(t: Doc, p: Path, text: Path -> string, eval: string -> string): string -> string
    decreases |t|, 2
  {
    id => Expand(t, p, id, text, eval)
  }

  function Expand(t: Doc, p: Path, id: string, text: Path -> string, eval: string -> string): string
    decreases |t|, 1
  {
    if id == "" then ""
    else
      match Resolve(t, p, id)
      case Some(r) => Str(t, r, text, eval)
      case None => id
  }

  /** Every node of the copy evaluates to the same text as its original. */
  lemma {:induction false} StrKept(t: Doc, p: Path, text: Path -> string, eval: string -> string)
    requires Wf(t) && Clean(t) && Guarded(t)
    ensures Str(Copy(t), p, text, eval) == Str(t, p, text, eval)
    decreases |t|
  {
    CopyShape(t);
    SameIndex(t, Copy(t), p);
    var i := Index(t, p);
    if i < |t| && t[i].content.Param? {
      PrefixAgrees(t, i);
      CopyPrefix(t, i);
      var t0, u0 := t[..i], Copy(t[..i]);
      forall r ensures Str(u0, r, text, eval) == Str(t0, r, text, eval) {
        PrefixKeeps(t, i);
        StrKept(t0, r, text, eval);
      }
      NodeValue(t, i);
      ValueKept(t, i, text, eval);
    }
  }

  /** What became of a parameter's value. */
  lemma {:induction false} NodeValue(t: Doc, i: nat)
    requires i < |t| && t[i].content.Param? && t[i].path != []
    ensures Copy(t)[i] == Node(t[i].path, Param(Rewrite(Localizer(Copy(t[..i]), t[i].path), "", t[i].content.value)))
  {
    if i < |t| - 1 {
      NodeValue(t[..|t| - 1], i);
      assert t[..|t| - 1][..i] == t[..i];
    }
  }

  lemma ValueKept(t: Doc, i: nat, text: Path -> string, eval: string -> string)
    requires i < |t| && Wf(t) && Clean(t) && Guarded(t) && t[i].content.Param?
    requires forall r :: Str(Copy(t[..i]), r, text, eval) == Str(t[..i], r, text, eval)
    ensures var p, u0 := t[i].path, Copy(t[..i]);
            p != [] &&
            Rewrite(Expander(u0, p, text, eval), "", Rewrite(Localizer(u0, p), "", t[i].content.value)) ==
            Rewrite(Expander(t[..i], p, text, eval), "", t[i].content.value)
  {
    var p, t0, u0, v := t[i].path, t[..i], Copy(t[..i]), t[i].content.value;
    var f, g, h := Expander(t0, p, text, eval), Localizer(u0, p), Expander(u0, p, text, eval);
    PrefixAgrees(t, i);
    CopyPrefix(t, i);
    NodeIsRooted(t, i);
    SameRooted(t0, u0, p);
    forall x | IsId(x) && ReachableFrom(t0, p)(x) ensures Carries(f, g, h)(x) {
      ExpansionKept(t0, u0, p, x, text, eval);
    }
    AllIdsMonotone(ReachableFrom(t0, p), Carries(f, g, h), "", v);
    RewriteTwice(f, g, h, "", v);
  }

  lemma {:induction false} AllIdsMonotone(p: string -> bool, q: string -> bool, id: string, v: string)
    requires AllIds(p, id, v) && IsId(id) && forall x :: IsId(x) && p(x) ==> q(x)
    ensures AllIds(q, id, v)
    decreases |v|
  {
    if v == "" {
    } else if IsSeparator(v[0]) {
      AllIdsMonotone(p, q, "", v[1..]);
    } else {
      AllIdsMonotone(p, q, id + [v[0]], v[1..]);
    }
  }

  lemma ExpansionKept(t0: Doc, u0: Doc, p: Path, x: string, text: Path -> string, eval: string -> string)
    requires Wf(t0) && Wf(u0) && Clean(u0) && Agree(t0, u0) && p != [] && GoodNames(p) && Rooted(u0, p) && !Has(t0, p)
    requires IsId(x) && Reachable(t0, p, x)
    requires forall r :: Str(u0, r, text, eval) == Str(t0, r, text, eval)
    ensures IsId(Localize(u0, p, x))
    ensures Expand(u0, p, Localize(u0, p, x), text, eval) == Expand(t0, p, x, text, eval)
  {
    SameIndex(t0, u0, p);
    LocalizedIsId(u0, p, x);
    if x != "" {
      LocalizedResolves(t0, u0, p, x);
      if Resolve(t0, p, x).None? {
        AgreeFind(t0, u0, [], x);
      }
    }
  }
}
