/**
 Paths in the configuration tree (base/include/grl/configurable.h): the text of a
 node's path, and the relative path from one node to another.
 */
module Paths {

  /** Element names that `find` can look up: non-empty, slash-free and not "..". */
  predicate GoodName(name: string) {
    name != "" && name != ".." && '/' !in name
  }

  predicate GoodNames(ns: seq<string>) {
    forall i :: 0 <= i < |ns| ==> GoodName(ns[i])
  }

  /** `path()` of the node reached from the root by these element names; the root's element is empty. */
  function Join(ns: seq<string>): string {
    if ns == [] then "" else Join(ns[..|ns| - 1]) + "/" + ns[|ns| - 1]
  }

  /** The same names without the leading slash. */
  function Rest(ns: seq<string>): string {
    if ns == [] then "" else Join(ns)[1..]
  }

  function Slashes(s: string): nat {
    if s == "" then 0 else Slashes(s[..|s| - 1]) + if s[|s| - 1] == '/' then 1 else 0
  }

  lemma {:induction false} SlashesConcat(a: string, b: string)
    ensures Slashes(a + b) == Slashes(a) + Slashes(b)
  {
    if b == "" {
      assert a + b == a;
    } else {
      SlashesConcat(a, b[..|b| - 1]);
      assert (a + b)[..|a + b| - 1] == a + b[..|b| - 1];
    }
  }

  lemma {:induction false} NoSlashes(s: string)
    requires '/' !in s
    ensures Slashes(s) == 0
  {
    if s != "" {
      NoSlashes(s[..|s| - 1]);
    }
  }

  lemma SlashesElement(name: string)
    requires GoodName(name)
    ensures Slashes("/" + name) == 1
  {
    SlashesConcat("/", name);
    NoSlashes(name);
    assert Slashes("/") == 1 by { assert "/"[..0] == ""; }
  }

  lemma {:induction false} SlashesJoin(ns: seq<string>)
    requires GoodNames(ns)
    ensures Slashes(Join(ns)) == |ns|
  {
    if ns != [] {
      var init, last := ns[..|ns| - 1], ns[|ns| - 1];
      SlashesJoin(init);
      SlashesConcat(Join(init), "/" + last);
      SlashesElement(last);
      assert Join(ns) == Join(init) + ("/" + last);
    }
  }

  lemma {:induction false} JoinConcat(a: seq<string>, b: seq<string>)
    ensures Join(a + b) == Join(a) + Join(b)
  {
    if b == [] {
      assert a + b == a;
    } else {
      JoinConcat(a, b[..|b| - 1]);
      assert (a + b)[..|a + b| - 1] == a + b[..|b| - 1];
    }
  }

  lemma JoinSplit(ns: seq<string>, j: nat)
    requires j <= |ns|
    ensures Join(ns) == Join(ns[..j]) + Join(ns[j..])
  {
    JoinConcat(ns[..j], ns[j..]);
    assert ns == ns[..j] + ns[j..];
  }

  lemma {:induction false} JoinHead(ns: seq<string>)
    requires ns != []
    ensures Join(ns) == "/" + ns[0] + Join(ns[1..])
  {
    JoinSplit(ns, 1);
    assert ns[..1] == [ns[0]] && [ns[0]][..0] == [];
    assert Join([ns[0]]) == "/" + ns[0];
  }

  /** Behind the last slash there is only the last name. */
  lemma LastElement(ns: seq<string>)
    requires ns != [] && GoodNames(ns)
    ensures |Join(ns[..|ns| - 1])| < |Join(ns)|
    ensures forall k :: |Join(ns[..|ns| - 1])| < k < |Join(ns)| ==> Join(ns)[k] != '/'
  {
    var p := |Join(ns[..|ns| - 1])|;
    forall k | p < k < |Join(ns)| ensures Join(ns)[k] != '/' {
      assert Join(ns)[k] == ns[|ns| - 1][k - p - 1];
    }
  }

  /** Every slash in a path is where the path of an ancestor ends. */
  lemma {:induction false} SlashAt(ns: seq<string>, b: nat) returns (j: nat)
    requires GoodNames(ns) && b < |Join(ns)| && Join(ns)[b] == '/'
    ensures j < |ns| && b == |Join(ns[..j])|
    ensures Join(ns)[..b] == Join(ns[..j]) && Join(ns)[b..] == Join(ns[j..])
  {
    var init, last := ns[..|ns| - 1], ns[|ns| - 1];
    if b < |Join(init)| {
      j := SlashAt(init, b);
      assert init[..j] == ns[..j];
    } else {
      LastElement(ns);
      j := |ns| - 1;
    }
    JoinSplit(ns, j);
  }

  /** The path's text determines the names. */
  lemma {:induction false} JoinInjective(a: seq<string>, b: seq<string>)
    requires GoodNames(a) && GoodNames(b) && Join(a) == Join(b)
    ensures a == b
  {
    SlashesJoin(a);
    SlashesJoin(b);
    if a != [] {
      var i, j := a[..|a| - 1], b[..|b| - 1];
      LastElement(a);
      LastElement(b);
      assert Join(a)[|Join(i)|] == '/' && Join(b)[|Join(j)|] == '/';
      assert Join(i) == Join(a)[..|Join(i)|] == Join(j);
      assert a[|a| - 1] == Join(a)[|Join(i)| + 1..] == b[|b| - 1];
      JoinInjective(i, j);
      assert a == i + [a[|a| - 1]] && b == j + [b[|b| - 1]];
    }
  }

  // ----- Relative paths -----

  /** Length of the longest common prefix. */
  function Common(a: string, b: string): (d: nat)
    ensures d <= |a| && d <= |b|
  {
    if a == "" || b == "" || a[0] != b[0] then 0 else 1 + Common(a[1..], b[1..])
  }

  lemma {:induction false} CommonIsLongest(a: string, b: string)
    ensures a[..Common(a, b)] == b[..Common(a, b)]
    ensures Common(a, b) < |a| && Common(a, b) < |b| ==> a[Common(a, b)] != b[Common(a, b)]
  {
    if !(a == "" || b == "" || a[0] != b[0]) {
      CommonIsLongest(a[1..], b[1..]);
      var d := Common(a[1..], b[1..]);
      assert a[..d + 1] == [a[0]] + a[1..][..d];
      assert b[..d + 1] == [b[0]] + b[1..][..d];
    }
  }

  lemma {:induction false} CommonUnique(a: string, b: string, d: nat)
    requires d <= |a| && d <= |b| && a[..d] == b[..d] && (d < |a| && d < |b| ==> a[d] != b[d])
    ensures d == Common(a, b)
  {
    if d > 0 {
      assert a[0] == a[..d][0] == b[..d][0] == b[0];
      assert a[1..][..d - 1] == a[..d][1..] == b[..d][1..] == b[1..][..d - 1];
      CommonUnique(a[1..], b[1..], d - 1);
    }
  }

  /** The last slash of `own` at or before position `d`; the terminator behind the text is no slash. */
  function FolderStart(own: string, d: nat): (b: nat)
    requires own != "" && own[0] == '/' && d <= |own|
    ensures b <= d && b < |own| && own[b] == '/'
  {
    if d < |own| && own[d] == '/' then d else FolderStart(own, d - 1)
  }

  function Ups(n: nat): string {
    if n == 0 then "" else "../" + Ups(n - 1)
  }

  /** `relative_path`: go up from the first differing folder, then follow the other path from there. */
  function RelativePath(own: string, full: string): string
    requires own != "" && own[0] == '/'
  {
    var b := FolderStart(own, Common(own, full));
    Ups(Slashes(own[b..])) + if b < |full| then full[b + 1..] else ""
  }

  /** The paths differ first where a name of the own path ends and the other path's name goes on. */
  predicate CutsName(own: string, full: string) {
    var d := Common(own, full);
    d < |own| && d < |full| && own[d] == '/'
  }

  method ComputeRelativePath(own: string, full: string) returns (newpath: string)
    requires own != "" && own[0] == '/'
    ensures newpath == RelativePath(own, full)
  {
    var ii := 0;
    while ii < |full| && ii < |own| && own[ii] == full[ii]
      invariant ii <= |full| && ii <= |own| && own[..ii] == full[..ii]
    {
      ii := ii + 1;
    }
    CommonUnique(own, full, ii);
    ghost var b := FolderStart(own, ii);
    while !(ii < |own| && own[ii] == '/')
      invariant 0 <= ii <= |own| && FolderStart(own, ii) == b
      decreases ii
    {
      ii := ii - 1;
    }
    newpath := if ii < |full| then full[ii + 1..] else "";
    newpath := AddUps(own, ii, newpath);
  }

  /** Add ../ for every folder on the own path from position `from`. */
  method AddUps(own: string, from: nat, tail: string) returns (newpath: string)
    requires from <= |own|
    ensures newpath == Ups(Slashes(own[from..])) + tail
  {
    newpath := tail;
    for ii := from to |own|
      invariant newpath == Ups(Slashes(own[from..ii])) + tail
    {
      assert own[from..ii + 1][..ii - from] == own[from..ii];
      if own[ii] == '/' {
        UpsStep(Slashes(own[from..ii]), tail);
        newpath := "../" + newpath;
      }
    }
    assert own[from..|own|] == own[from..];
  }

  lemma UpsStep(n: nat, tail: string)
    ensures Ups(n + 1) + tail == "../" + (Ups(n) + tail)
  {
  }

  lemma JoinStarts(ns: seq<string>)
    requires ns != []
    ensures Join(ns) != "" && Join(ns)[0] == '/'
  {
    JoinHead(ns);
  }

  /** Unless a name is cut, both paths have the common folder, and the other path ends there or goes on with a slash. */
  lemma FolderIsCommon(own: string, full: string)
    requires own != "" && own[0] == '/' && !CutsName(own, full)
    ensures var p := FolderStart(own, Common(own, full));
            p <= |full| && full[..p] == own[..p] && (p < |full| ==> full[p] == '/')
  {
    var d := Common(own, full);
    var p := FolderStart(own, d);
    CommonIsLongest(own, full);
    assert full[..p] == full[..d][..p] == own[..d][..p] == own[..p];
    assert p < d ==> full[p] == full[..d][p] == own[..d][p];
  }

  lemma RelativeNames(a: seq<string>, b: seq<string>) returns (j: nat)
    requires a != [] && GoodNames(a) && GoodNames(b) && !CutsName(Join(a), Join(b))
    ensures Join(a) != "" && Join(a)[0] == '/'
    ensures j < |a| && j <= |b| && a[..j] == b[..j]
    ensures RelativePath(Join(a), Join(b)) == Ups(|a| - j) + Rest(b[j..])
  {
    JoinStarts(a);
    var own, full := Join(a), Join(b);
    var p := FolderStart(own, Common(own, full));
    FolderIsCommon(own, full);
    j := SlashAt(a, p);
    SlashesJoin(a[j..]);
    PathFrom(b, a[..j], full, p);
  }

  /**
   In terms of names: unless a name is cut, the relative path goes up to a common ancestor, at least to the
   own parent, and from there down the other path's remaining names.
   */
  lemma RelativeParts(a: seq<string>, b: seq<string>)
    returns (top: seq<string>, up: seq<string>, down: seq<string>)
    requires a != [] && GoodNames(a) && GoodNames(b) && !CutsName(Join(a), Join(b))
    ensures Join(a) != "" && Join(a)[0] == '/'
    ensures a == top + up && b == top + down && up != [] && GoodNames(down)
    ensures RelativePath(Join(a), Join(b)) == Ups(|up|) + Rest(down)
  {
    var j := RelativeNames(a, b);
    top, up, down := b[..j], a[j..], b[j..];
    NamesFrom(a, j);
    NamesFrom(b, j);
  }

  lemma NamesFrom(ns: seq<string>, j: nat)
    requires j <= |ns|
    ensures ns == ns[..j] + ns[j..] && |ns[j..]| == |ns| - j
    ensures GoodNames(ns) ==> GoodNames(ns[j..])
  {
  }

  /** A path that continues an ancestor's path at a folder boundary continues its names. */
  lemma PathFrom(b: seq<string>, top: seq<string>, full: string, p: nat)
    requires GoodNames(b) && GoodNames(top) && full == Join(b)
    requires p <= |full| && full[..p] == Join(top) && (p < |full| ==> full[p] == '/')
    ensures |top| <= |b| && b[..|top|] == top
    ensures Rest(b[|top|..]) == if p < |full| then full[p + 1..] else ""
  {
    if p < |full| {
      PathBelow(b, top);
    } else {
      assert full[..p] == full;
      SamePath(b, top);
    }
  }

  lemma SamePath(b: seq<string>, top: seq<string>)
    requires GoodNames(b) && GoodNames(top) && Join(top) == Join(b)
    ensures |top| == |b| && b[..|top|] == top && Rest(b[|top|..]) == ""
  {
    JoinInjective(top, b);
    assert b[..|b|] == b && b[|b|..] == [];
  }

  lemma PathBelow(b: seq<string>, top: seq<string>)
    requires GoodNames(b) && GoodNames(top)
    requires |Join(top)| < |Join(b)| && Join(b)[..|Join(top)|] == Join(top) && Join(b)[|Join(top)|] == '/'
    ensures |top| < |b| && b[..|top|] == top
    ensures Rest(b[|top|..]) == Join(b)[|Join(top)| + 1..]
  {
    var i := AncestorAt(b, top);
    TailFrom(Join(b), |Join(top)|);
  }

  lemma AncestorAt(b: seq<string>, top: seq<string>) returns (i: nat)
    requires GoodNames(b) && GoodNames(top)
    requires |Join(top)| < |Join(b)| && Join(b)[..|Join(top)|] == Join(top) && Join(b)[|Join(top)|] == '/'
    ensures |top| == i < |b| && top == b[..i] && Join(b)[|Join(top)|..] == Join(b[i..])
  {
    i := SlashAt(b, |Join(top)|);
    JoinInjective(top, b[..i]);
  }

  lemma TailFrom(s: string, p: nat)
    requires p < |s|
    ensures s[p..][1..] == s[p + 1..]
  {
  }

  /** The source's documented shape: the result starts by leaving the own node. */
  lemma RelativeStartsUp(a: seq<string>, full: string)
    requires a != [] && GoodNames(a)
    ensures Join(a) != "" && Join(a)[0] == '/' && "../" <= RelativePath(Join(a), full)
  {
    JoinStarts(a);
    var own := Join(a);
    var p := FolderStart(own, Common(own, full));
    var j := SlashAt(a, p);
    SlashesJoin(a[j..]);
  }

  /** When a name is cut, the result goes up to the own ancestor and down the text behind the cut. */
  lemma CutNames(a: seq<string>, full: string) returns (j: nat, d: nat)
    requires a != [] && GoodNames(a) && CutsName(Join(a), full)
    ensures Join(a) != "" && Join(a)[0] == '/'
    ensures j < |a| && d < |full| && full[..d] == Join(a[..j]) && full[d] != '/'
    ensures RelativePath(Join(a), full) == Ups(|a| - j) + full[d + 1..]
  {
    JoinStarts(a);
    d := Common(Join(a), full);
    CommonIsLongest(Join(a), full);
    j := SlashAt(a, d);
    SlashesJoin(a[j..]);
  }
}
