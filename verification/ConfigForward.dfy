/**
 Instantiating a configuration tree whose references may look ahead (base/src/configurable.cpp,
 base/include/grl/configurable.h): references are looked up in the whole part of the new tree that exists. They keep
 what they lead to if all searches end and none steps up from a parameter.
 */
module ConfigForward {
  import opened Options
  import opened Paths
  import opened ConfigTree
  import opened ConfigCopy
  import opened ConfigSearch
  import opened ConfigInstance
  import opened ConfigPart

  // ----- Instantiation -----

  ghost predicate Leads(w: Doc, p: Path, id: string, r: Path)
    requires p != []
  {
    exists n :: SearchNewRef(w, p, id, n) == Found(r)
  }

  /** What a reference of the parameter finds in the part of the new tree that exists. */
  ghost function Target(w: Doc, p: Path, id: string): Option<Path>
    requires p != []
  {
    if exists r :: Leads(w, p, id, r) then
      var r :| Leads(w, p, id, r);
      Some(r)
    else None
  }

  /** `localize` */
  ghost function Relative(w: Doc, p: Path, id: string): string
    requires p != []
  {
    if id == "" then id
    else
      match Target(w, p, id)
      case Some(r) => JoinStarts(p); RelativePath(Join(p), Join(r))
      case None => id
  }

  ghost function Relatives(w: Doc, p: Path): string -> string
    requires p != []
  {
    id => Relative(w, p, id)
  }

  ghost function WholeNode(w: Doc, n: Node): Node {
    if n.content.Param? && n.path != []
    then Node(n.path, Param(Rewrite(Relatives(w, n.path), "", n.content.value)))
    else n
  }

  /** `instantiate` of the root, with searches of the whole new tree as far as it exists. */
  ghost function WholeCopy(t: Doc): (u: Doc)
    ensures |u| == |t|
  {
    if t == [] then []
    else
      var init := WholeCopy(t[..|t| - 1]);
      init + [WholeNode(init, t[|t| - 1])]
  }

  lemma {:induction false} WholePrefix(t: Doc, k: nat)
    requires k <= |t|
    ensures WholeCopy(t)[..k] == WholeCopy(t[..k])
  {
    if k == |t| {
      assert t[..k] == t && WholeCopy(t)[..k] == WholeCopy(t);
    } else {
      WholePrefix(t[..|t| - 1], k);
      assert t[..|t| - 1][..k] == t[..k];
      assert WholeCopy(t)[..k] == WholeCopy(t[..|t| - 1])[..k];
    }
  }

  lemma WholeNodeAt(t: Doc, i: nat)
    requires i < |t|
    ensures WholeCopy(t)[i] == WholeNode(WholeCopy(t)[..i], t[i])
    ensures WholeCopy(t)[..i + 1] == WholeCopy(t)[..i] + [WholeNode(WholeCopy(t)[..i], t[i])]
  {
    WholePrefix(t, i);
    WholePrefix(t, i + 1);
    assert t[..i + 1][..i] == t[..i];
    assert WholeCopy(t)[..i + 1][i] == WholeCopy(t)[i];
  }

  lemma {:induction false} WholeShape(t: Doc)
    ensures SameShape(t, WholeCopy(t))
  {
    if t != [] {
      WholeShape(t[..|t| - 1]);
    }
  }

  // ----- Expressions name nothing -----

  lemma {:induction false} ExpressionMisses(t: Doc, p: Path, s: string, n: nat)
    requires Clean(t) && !IsId(s)
    ensures !Search(t, p, s, n).Found?
    decreases n, |s|, 1
  {
    if Value(t, p) == "" {
      SearchPlain(t, p, s, n);
      FromExpressionMisses(t, p, s, n);
    } else if n > 0 {
      var o := SearchRef(t, p, Value(t, p), n - 1);
      SearchValue(t, p, s, n, o);
      if o.Missing? {
        FromExpressionMisses(t, p, s, n);
      } else if o.Found? {
        ExpressionMisses(t, o.path, s, n - 1);
      }
    }
  }

  lemma {:induction false} FromExpressionMisses(t: Doc, p: Path, s: string, n: nat)
    requires Clean(t) && !IsId(s)
    ensures !SearchFrom(t, p, s, n).Found?
    decreases n, |s|, 0
  {
    FirstSlashFree(s);
    SplitKeepsSeparator(s);
    var next := Step(t, p, First(s));
    if next.Some? {
      if First(s) != "" && First(s) != ".." {
        assert t[Index(t, p + [First(s)])].path[|p|] == First(s);
      }
      ExpressionMisses(t, next.value, After(s), n);
    }
  }

  lemma ExpressionLeadsNowhere(t: Doc, q: Path, v: string)
    requires Wf(t) && Clean(t) && IsParam(t, q) && !IsId(v)
    ensures forall r :: !RefEndsAt(t, q, v, r)
  {
    forall n: nat
      ensures !SearchRef(t, q, v, n).Found?
    {
      RefStarts(t, q, v, n);
      FromExpressionMisses(t, Start(q, v), v, n);
    }
  }

  // ----- The search for an expression goes no further than that for its first piece -----

  lemma NoSuchName(t: Doc, p: Path, s: string, k: nat)
    requires Clean(t) && k < FirstSlash(s) && IsSeparator(s[k])
    ensures Step(t, p, First(s)).None? && First(s) != ".."
  {
    var first := First(s);
    assert first[k] == s[k];
    assert (p + [first])[|p|] == first;
  }

  /** Behind x both texts go on with a separator. */
  predicate BothExpressions(y: string, z: string) {
    y != "" && IsSeparator(y[0]) && z != "" && IsSeparator(z[0])
  }

  lemma FirstLonger(x: string, y: string, z: string)
    requires BothExpressions(y, z)
    ensures First(x + y) == ".." <==> First(x + z) == ".."
  {
    SlashBeforeSeparator(x, y);
    SlashBeforeSeparator(x, z);
    if FirstSlash(x) < |x| {
      LongerParts(x, y, FirstSlash(x));
      LongerParts(x, z, FirstSlash(x));
    } else {
      assert First(x + y)[|x|] == y[0] && First(x + z)[|x|] == z[0];
    }
  }

  lemma {:induction false} CalmLonger(t: Doc, p: Path, x: string, y: string, z: string, allowed: Path -> bool)
    requires Clean(t) && BothExpressions(y, z) && Calm(t, p, x + y, allowed)
    ensures Calm(t, p, x + z, allowed)
    decreases |x|
  {
    SlashBeforeSeparator(x, y);
    SlashBeforeSeparator(x, z);
    if FirstSlash(x) == |x| {
      assert (x + z)[|x|] == z[0];
      NoSuchName(t, p, x + z, |x|);
    } else {
      LongerParts(x, y, FirstSlash(x));
      LongerParts(x, z, FirstSlash(x));
      FirstLonger(After(x), y, z);
      if Step(t, p, First(x)).Some? {
        forall r | StandsFor(t, Step(t, p, First(x)).value, r)
          ensures Calm(t, r, After(x) + z, allowed)
        {
          CalmLonger(t, r, After(x), y, z, allowed);
        }
      }
    }
  }

  // ----- Relative paths in the original tree -----

  lemma UpStep(t: Doc, p: Path, s: string)
    requires Rooted(t, p) && p != []
    ensures First("../" + s) == ".." && After("../" + s) == s
    ensures Step(t, p, "..") == Some(Parent(p)) && Value(t, Parent(p)) == "" && Rooted(t, Parent(p))
  {
    assert ".." + "/" + s == "../" + s;
    FirstOfName("..", s);
    assert IsGroup(t, p[..|p| - 1]);
    ParentRooted(t, p);
  }

  lemma CalmUpOnce(t: Doc, p: Path, s: string, allowed: Path -> bool)
    requires Rooted(t, p) && p != [] && Calm(t, Parent(p), s, allowed)
    ensures Calm(t, p, "../" + s, allowed)
  {
    UpStep(t, p, s);
    PlainStandsForItself(t, Parent(p));
  }

  lemma SearchUpOnce(t: Doc, p: Path, s: string, m: nat)
    requires Rooted(t, p) && p != []
    ensures SearchFrom(t, p, "../" + s, m) == SearchFrom(t, Parent(p), s, m)
  {
    UpStep(t, p, s);
    SearchPlain(t, Parent(p), s, m);
  }

  lemma ParentUp(p: Path, n: nat)
    requires 0 < n <= |p|
    ensures Parent(p)[..|Parent(p)| - (n - 1)] == p[..|p| - n]
  {
  }

  lemma {:induction false} CalmUp(t: Doc, p: Path, n: nat, s: string, allowed: Path -> bool)
    requires Rooted(t, p) && n <= |p| && Calm(t, p[..|p| - n], s, allowed)
    ensures Calm(t, p, Ups(n) + s, allowed)
  {
    if n == 0 {
      NoUps(p, s);
    } else {
      UpsStep(n - 1, s);
      ParentUp(p, n);
      ParentRooted(t, p);
      CalmUp(t, Parent(p), n - 1, s, allowed);
      CalmUpOnce(t, p, Ups(n - 1) + s, allowed);
    }
  }

  /** Any search that takes "../" as a step up from each of the first k ancestors takes n of them as n steps up. */
  lemma {:induction false} UpsFrom<T>(find: (nat, string) -> T, k: nat, n: nat, s: string)
    requires n <= k
    requires forall j: nat, rest: string {:trigger find(j, "../" + rest)} :: 0 < j <= k ==>
               find(j, "../" + rest) == find(j - 1, rest)
    ensures find(k, Ups(n) + s) == find(k - n, s)
  {
    if n == 0 {
      assert Ups(0) + s == s;
    } else {
      UpsStep(n - 1, s);
      UpsFrom(find, k - 1, n - 1, s);
    }
  }

  lemma AncestorUp(t: Doc, p: Path, j: nat, s: string, m: nat)
    requires Rooted(t, p) && 0 < j <= |p|
    ensures SearchFrom(t, p[..j], "../" + s, m) == SearchFrom(t, p[..j - 1], s, m)
  {
    assert p[..j][..j - 1] == p[..j - 1];
    forall k | 0 <= k < j
      ensures IsGroup(t, p[..j][..k])
    {
      assert p[..j][..k] == p[..k];
    }
    SearchUpOnce(t, p[..j], s, m);
  }

  lemma SearchUp(t: Doc, p: Path, n: nat, s: string, m: nat)
    requires Rooted(t, p) && n <= |p|
    ensures SearchFrom(t, p, Ups(n) + s, m) == SearchFrom(t, p[..|p| - n], s, m)
  {
    var find := (j: nat, rest: string) => if j <= |p| then SearchFrom(t, p[..j], rest, m) else Unknown;
    forall j: nat, rest: string {:trigger find(j, "../" + rest)} | 0 < j <= |p|
      ensures find(j, "../" + rest) == find(j - 1, rest)
    {
      AncestorUp(t, p, j, rest, m);
    }
    UpsFrom(find, |p|, n, s);
    assert p[..|p|] == p;
  }

  lemma OneName(ns: seq<string>)
    requires |ns| == 1
    ensures Rest(ns) == ns[0]
  {
    RestHead(ns);
  }

  lemma RestWithTail(ns: seq<string>, tail: string)
    requires |ns| > 1 && GoodNames(ns)
    ensures First(Rest(ns) + tail) == ns[0] && After(Rest(ns) + tail) == Rest(ns[1..]) + tail
  {
    RestHead(ns);
    FirstOfName(ns[0], Rest(ns[1..]) + tail);
    Appended(ns[0], "/", Rest(ns[1..]), tail);
  }

  lemma Appended(a: string, b: string, c: string, d: string)
    ensures a + b + c + d == a + b + (c + d)
  {
  }

  /** The last name, alone or with the rest of an expression. */
  lemma LastName(t: Doc, at: Path, name: string, tail: string, allowed: Path -> bool)
    requires Clean(t) && GoodName(name)
    requires if tail == "" then Value(t, at + [name]) != "" ==> allowed(at + [name]) else IsSeparator(tail[0])
    ensures Calm(t, at, name + tail, allowed)
  {
    if tail == "" {
      FirstOfName(name, "");
      assert name + tail == name;
    } else {
      FirstSlashIs(name, "");
      assert name + "" == name;
      SlashBeforeSeparator(name, tail);
      assert (name + tail)[|name|] == tail[0];
      NoSuchName(t, at, name + tail, |name|);
    }
  }

  lemma {:induction false} DownCalm(t: Doc, at: Path, ns: seq<string>, tail: string, allowed: Path -> bool)
    requires Wf(t) && Clean(t) && ns != [] && GoodNames(ns) && Has(t, at + ns)
    requires if tail == "" then Value(t, at + ns) != "" ==> allowed(at + ns) else IsSeparator(tail[0])
    ensures Calm(t, at, Rest(ns) + tail, allowed)
    decreases |ns|
  {
    if |ns| == 1 {
      assert ns == [ns[0]];
      OneName(ns);
      LastName(t, at, ns[0], tail, allowed);
    } else {
      RestWithTail(ns, tail);
      Prefixes(at, ns);
      AncestorIndex(t, at + ns, |at| + 1);
      PlainStandsForItself(t, at + [ns[0]]);
      DownCalm(t, at + [ns[0]], ns[1..], tail, allowed);
    }
  }

  lemma {:induction false} DownSearch(t: Doc, at: Path, ns: seq<string>, n: nat)
    requires Wf(t) && ns != [] && GoodNames(ns) && Has(t, at + ns)
    ensures SearchFrom(t, at, Rest(ns), n) == Search(t, at + ns, "", n)
    decreases |ns|
  {
    FirstOfRest(ns);
    if |ns| == 1 {
      assert ns == [ns[0]];
    } else {
      Prefixes(at, ns);
      AncestorIndex(t, at + ns, |at| + 1);
      DownSearch(t, at + [ns[0]], ns[1..], n);
      SearchPlain(t, at + [ns[0]], Rest(ns[1..]), n);
    }
  }

  /** Down from a common ancestor, alone or with the rest of an expression. */
  lemma BelowCalm(t: Doc, top: Path, down: Path, tail: string, allowed: Path -> bool)
    requires Wf(t) && Clean(t) && GoodNames(down) && Has(t, top + down)
    requires if tail == "" then Value(t, top + down) != "" ==> allowed(top + down) else IsSeparator(tail[0])
    ensures Calm(t, top, Rest(down) + tail, allowed)
  {
    if down != [] {
      DownCalm(t, top, down, tail, allowed);
    } else {
      assert Rest(down) + tail == tail;
      if tail != "" {
        SlashBeforeSeparator("", tail);
        assert "" + tail == tail;
        NoSuchName(t, top, tail, 0);
      }
    }
  }

  /** The relative path from p to r, alone or with the rest of an expression, comes through no parameter but r. */
  lemma RelativeCalm(t: Doc, p: Path, r: Path, tail: string, allowed: Path -> bool)
    requires Wf(t) && Clean(t) && Has(t, p) && Has(t, r) && p != [] && !CutsName(Join(p), Join(r))
    requires if tail == "" then Value(t, r) != "" ==> allowed(r) else IsSeparator(tail[0])
    ensures Join(p) != "" && Join(p)[0] == '/'
    ensures Calm(t, p, RelativePath(Join(p), Join(r)) + tail, allowed)
  {
    HasIsRooted(t, p);
    HasIsRooted(t, r);
    var top, up, down := RelativeParts(p, r);
    assert p[..|p| - |up|] == top;
    BelowCalm(t, top, down, tail, allowed);
    CalmUp(t, p, |up|, Rest(down) + tail, allowed);
    AppendedUps(Ups(|up|), Rest(down), tail);
  }

  lemma AppendedUps(a: string, b: string, c: string)
    ensures a + b + c == a + (b + c)
  {
  }

  lemma RelativeStepsUp(p: Path, full: string, tail: string)
    requires p != [] && GoodNames(p)
    ensures Join(p) != "" && Join(p)[0] == '/'
    ensures First(RelativePath(Join(p), full) + tail) == ".."
  {
    RelativeStartsUp(p, full);
    var rel := RelativePath(Join(p), full);
    assert rel + tail == ".." + "/" + (rel[3..] + tail);
    FirstOfName("..", rel[3..] + tail);
  }

  lemma BelowSearch(t: Doc, top: Path, down: Path, n: nat)
    requires Wf(t) && GoodNames(down) && Has(t, top + down) && (down == [] ==> IsGroup(t, top))
    ensures SearchFrom(t, top, Rest(down), n) == Search(t, top + down, "", n)
  {
    if down == [] {
      assert top + down == top;
      SearchPlain(t, top, "", n);
    } else {
      DownSearch(t, top, down, n);
    }
  }

  lemma RelativeSearch(t: Doc, p: Path, r: Path, n: nat)
    requires Wf(t) && Has(t, p) && Has(t, r) && p != [] && !CutsName(Join(p), Join(r))
    ensures Join(p) != "" && Join(p)[0] == '/'
    ensures SearchFrom(t, p, RelativePath(Join(p), Join(r)), n) == Search(t, r, "", n)
  {
    HasIsRooted(t, p);
    HasIsRooted(t, r);
    var top, up, down := RelativeParts(p, r);
    assert p[..|p| - |up|] == top && IsGroup(t, p[..|top|]);
    SearchUp(t, p, |up|, Rest(down), n);
    BelowSearch(t, top, down, n);
  }

  /** In the original tree the relative path leads to what r stands for. */
  lemma RelativeLeads(t: Doc, p: Path, r: Path)
    requires Wf(t) && Has(t, p) && Has(t, r) && p != [] && !CutsName(Join(p), Join(r))
    ensures Join(p) != "" && Join(p)[0] == '/'
    ensures forall x :: FromEndsAt(t, p, RelativePath(Join(p), Join(r)), x) <==> StandsFor(t, r, x)
  {
    JoinStarts(p);
    forall n: nat
      ensures SearchFrom(t, p, RelativePath(Join(p), Join(r)), n) == Search(t, r, "", n)
    {
      RelativeSearch(t, p, r, n);
    }
  }
}
