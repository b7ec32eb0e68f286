/**
 Recursive reconfiguration over parent links and references
 (base/include/grl/configurable.h, base/src/configurable.cpp): it terminates, reaches
 the whole subtree and nothing behind it.
 */
module ConfigWalk {
  import opened Options
  import opened ConfigTree
  import opened ConfigCopy
  import opened ConfigSearch

  /** Document order is depth first: every node's parent is on the path of the node before it. */
  ghost predicate Preorder(t: Doc) {
    Wf(t) && Chain(t)
  }

  ghost predicate Chain(t: Doc) {
    forall i :: 0 < i < |t| ==> Follows(t, i)
  }

  predicate Follows(t: Doc, i: nat)
    requires 0 < i < |t|
  {
    t[i].path != [] && Parent(t[i].path) <= t[i - 1].path
  }

  lemma ProperPrefix(a: Path, p: Path)
    requires p != []
    ensures a <= p <==> a == p || a <= Parent(p)
  {
    assert p[..|p|] == p;
    if a <= p && a != p {
      assert a == p[..|a|] == Parent(p)[..|a|];
    }
  }

  lemma PrefixTransitive(a: Path, b: Path, c: Path)
    requires a <= b && b <= c
    ensures a <= c
  {
  }

  ghost predicate Distinct(t: Doc) {
    forall i, k :: 0 <= i < k < |t| ==> t[i].path != t[k].path
  }

  lemma StepBack(t: Doc, i: nat, k: nat)
    requires Chain(t) && Distinct(t) && i < k < |t| && t[i].path <= t[k].path
    ensures t[i].path <= t[k - 1].path
  {
    assert Follows(t, k);
    ProperPrefix(t[i].path, t[k].path);
    PrefixTransitive(t[i].path, Parent(t[k].path), t[k - 1].path);
  }

  /** A subtree is a contiguous range of the document. */
  lemma {:induction false} Contiguous(t: Doc, i: nat, j: nat, k: nat)
    requires Chain(t) && Distinct(t) && i <= j <= k < |t| && t[i].path <= t[k].path
    ensures t[i].path <= t[j].path
    decreases k
  {
    if j < k {
      StepBack(t, i, k);
      Contiguous(t, i, j, k - 1);
    }
  }

  lemma WfDistinct(t: Doc)
    requires Wf(t)
    ensures Distinct(t)
  {
    forall i, k | 0 <= i < k < |t| ensures t[i].path != t[k].path {
      assert Index(t, t[i].path) == i && Index(t, t[k].path) == k;
    }
  }

  /** Last document position in the subtree of node `i`, searching from `k`. */
  function LastFrom(t: Doc, i: nat, k: nat): (r: nat)
    requires i <= k < |t|
    ensures k <= r < |t|
    decreases |t| - k
  {
    if k + 1 < |t| && t[i].path <= t[k + 1].path then LastFrom(t, i, k + 1) else k
  }

  function Last(t: Doc, i: nat): (r: nat)
    requires i < |t|
    ensures i <= r < |t|
  {
    LastFrom(t, i, i)
  }

  lemma {:induction false} LastFromIs(t: Doc, i: nat, k: nat, j: nat)
    requires Chain(t) && Distinct(t) && i <= k < |t| && i <= j < |t| && t[i].path <= t[k].path
    ensures t[i].path <= t[j].path <==> j <= LastFrom(t, i, k)
    decreases |t| - k
  {
    if k + 1 < |t| && t[i].path <= t[k + 1].path {
      LastFromIs(t, i, k + 1, j);
    } else if j <= k {
      Contiguous(t, i, j, k);
    } else if t[i].path <= t[j].path {
      Contiguous(t, i, k + 1, j);
    }
  }

  /** The subtree of `i` is exactly the positions from `i` to `Last(t, i)`. */
  lemma SubtreeIsRange(t: Doc, i: nat, j: nat)
    requires Preorder(t) && i <= j < |t|
    ensures t[i].path <= t[j].path <==> j <= Last(t, i)
  {
    WfDistinct(t);
    LastFromIs(t, i, i, j);
  }

  lemma DerefIsEarlier(t: Doc, j: nat)
    requires Wf(t) && j < |t|
    ensures var d := Deref(t, t[j].path); Has(t, d) && Index(t, d) <= j && t[Index(t, d)].path == d
    ensures t[j].content.Group? ==> Deref(t, t[j].path) == t[j].path
  {
    var p := t[j].path;
    if Deref(t, p) != p {
      WfPrefix(t, j);
      NodeIsRooted(t, j);
      ResolveTerminal(t[..j], p, t[j].content.value);
      assert IsGroup(t[..j], p[..0]) && p[..0] == [];
      IndexPrefix(t, j, Deref(t, p));
    }
  }

  predicate IsChild(t: Doc, i: nat, j: nat)
    requires i < |t| && j < |t|
  {
    t[j].path != [] && Parent(t[j].path) == t[i].path
  }

  /** A child's target that is not on the way up has a subtree that ends earlier, or is the child itself. */
  lemma TargetEndsEarlier(t: Doc, i: nat, j: nat)
    requires Preorder(t) && i < j < |t| && IsChild(t, i, j)
    requires !(Deref(t, t[j].path) <= t[i].path)
    ensures var k := Index(t, Deref(t, t[j].path));
            k < |t| && (k == j || Last(t, k) < j) && Last(t, k) <= Last(t, i) && (Last(t, k) == Last(t, i) ==> k > i)
  {
    DerefIsEarlier(t, j);
    var d := Deref(t, t[j].path);
    var k := Index(t, d);
    SubtreeIsRange(t, i, j);
    if k < j {
      SubtreeIsRange(t, k, j);
      WfDistinct(t);
      ProperPrefix(d, t[j].path);
    } else {
      SubtreeIsRange(t, j, Last(t, j));
      SubtreeIsRange(t, i, Last(t, j));
      assert t[i].path <= t[j].path;
    }
  }

  /**
   With targets among earlier nodes, `reconfigure(config, true)` of a group: first its children, then the object itself.
   Lists what is reconfigured.
   */
  function Reconfigure(t: Doc, i: nat): seq<nat>
    requires Preorder(t) && i < |t|
    decreases Last(t, i), |t| - i, |t| + 1
  {
    ReconfigureChildren(t, i, i + 1) + [i]
  }

  /** The loop over the children. */
  function ReconfigureChildren(t: Doc, i: nat, j: nat): seq<nat>
    requires Preorder(t) && i < j <= |t|
    decreases Last(t, i), |t| - i, |t| - j, 1
  {
    if j == |t| then [] else ChildPart(t, i, j) + ReconfigureChildren(t, i, j + 1)
  }

  /** One child: it is passed over if it resolves to a node on the way to the root. */
  function ChildPart(t: Doc, i: nat, j: nat): seq<nat>
    requires Preorder(t) && i < j < |t|
    decreases Last(t, i), |t| - i, |t| - j, 0
  {
    if !IsChild(t, i, j) || Deref(t, t[j].path) <= t[i].path then []
    else
      TargetEndsEarlier(t, i, j);
      var k := Index(t, Deref(t, t[j].path));
      if t[k].content.Group? then Reconfigure(t, k) else []
  }

  /** Nothing behind the subtree is reconfigured, whatever the references in it. */
  lemma {:induction false} StaysBefore(t: Doc, i: nat, x: nat)
    requires Preorder(t) && i < |t| && x in Reconfigure(t, i)
    ensures x <= Last(t, i)
    decreases Last(t, i), |t| - i, |t| + 1
  {
    if x != i {
      ChildrenStayBefore(t, i, i + 1, x);
    }
  }

  lemma {:induction false} ChildrenStayBefore(t: Doc, i: nat, j: nat, x: nat)
    requires Preorder(t) && i < j <= |t| && x in ReconfigureChildren(t, i, j)
    ensures x <= Last(t, i)
    decreases Last(t, i), |t| - i, |t| - j, 1
  {
    if x in ChildPart(t, i, j) {
      ChildStaysBefore(t, i, j, x);
    } else {
      ChildrenStayBefore(t, i, j + 1, x);
    }
  }

  lemma {:induction false} ChildStaysBefore(t: Doc, i: nat, j: nat, x: nat)
    requires Preorder(t) && i < j < |t| && x in ChildPart(t, i, j)
    ensures x <= Last(t, i)
    decreases Last(t, i), |t| - i, |t| - j, 0
  {
    TargetEndsEarlier(t, i, j);
    StaysBefore(t, Index(t, Deref(t, t[j].path)), x);
  }

  /** Every object of the subtree is reconfigured. */
  lemma {:induction false} ReachesSubtree(t: Doc, i: nat, x: nat)
    requires Preorder(t) && i <= x < |t| && t[i].path <= t[x].path && t[x].content.Group?
    ensures x in Reconfigure(t, i)
    decreases |t| - i
  {
    if x != i {
      var j := ChildTowards(t, i, x);
      ReachesSubtree(t, j, x);
      ChildIsReconfigured(t, i, i + 1, j, x);
    }
  }

  /** The child of `i` on the way to `x`. */
  lemma ChildTowards(t: Doc, i: nat, x: nat) returns (j: nat)
    requires Wf(t) && i < x < |t| && t[i].path <= t[x].path && t[x].content.Group?
    ensures i < j <= x && IsChild(t, i, j) && t[j].path <= t[x].path && t[j].content.Group?
  {
    WfDistinct(t);
    var q := t[x].path[..|t[i].path| + 1];
    AncestorsAreGroups(t, t[x].path, |t[i].path| + 1);
    assert t[x].path[..|t[x].path|] == t[x].path;
    j := Index(t, q);
    assert IsChild(t, i, j);
    ParentIsEarlier(t, i, j);
    AncestorIsEarlier(t, j, x);
  }

  lemma ParentIsEarlier(t: Doc, i: nat, j: nat)
    requires Wf(t) && i < |t| && j < |t| && IsChild(t, i, j)
    ensures i < j
  {
    assert BelowGroup(t, j);
    IndexPrefix(t, j, t[i].path);
  }

  lemma {:induction false} AncestorIsEarlier(t: Doc, j: nat, x: nat)
    requires Wf(t) && j < |t| && x < |t| && t[j].path <= t[x].path
    ensures j <= x
    decreases x
  {
    assert Index(t, t[j].path) == j && Index(t, t[x].path) == x;
    if t[j].path != t[x].path {
      assert BelowGroup(t, x);
      IndexPrefix(t, x, Parent(t[x].path));
      AncestorIsEarlier(t, j, Index(t, Parent(t[x].path)));
    }
  }

  lemma {:induction false} ChildIsReconfigured(t: Doc, i: nat, from: nat, j: nat, x: nat)
    requires Preorder(t) && i < from <= j < |t| && IsChild(t, i, j) && t[j].content.Group? && x in Reconfigure(t, j)
    ensures x in ReconfigureChildren(t, i, from)
    decreases j - from
  {
    assert ReconfigureChildren(t, i, from) == ChildPart(t, i, from) + ReconfigureChildren(t, i, from + 1);
    if from == j {
      ChildIsOwnPart(t, i, j);
    } else {
      ChildIsReconfigured(t, i, from + 1, j, x);
    }
  }

  /** A child group stands for itself, so its own subtree is its part. */
  lemma ChildIsOwnPart(t: Doc, i: nat, j: nat)
    requires Preorder(t) && i < j < |t| && IsChild(t, i, j) && t[j].content.Group?
    ensures ChildPart(t, i, j) == Reconfigure(t, j)
  {
    DerefIsEarlier(t, j);
    assert |Deref(t, t[j].path)| > |t[i].path|;
    assert Index(t, t[j].path) == j;
  }

  // ----- What is visited, and in which order -----

  /** A visit of b is part of the visit of a: some child of a stands for the group b, which is not on the way to the root. */
  ghost predicate Passes(t: Doc, a: nat, b: nat)
    requires Preorder(t)
  {
    a < |t| && b < |t| && t[b].content.Group? && !(t[b].path <= t[a].path) &&
    exists j :: a < j < |t| && IsChild(t, a, j) && Deref(t, t[j].path) == t[b].path
  }

  ghost predicate IsRoute(t: Doc, route: seq<nat>, i: nat, x: nat)
    requires Preorder(t)
  {
    |route| > 0 && route[0] == i && route[|route| - 1] == x &&
    forall m :: 0 < m < |route| ==> Passes(t, route[m - 1], route[m])
  }

  lemma LongerRoute(t: Doc, route: seq<nat>, i: nat, k: nat, x: nat)
    requires Preorder(t) && IsRoute(t, route, k, x) && Passes(t, i, k)
    ensures IsRoute(t, [i] + route, i, x)
  {
    var longer := [i] + route;
    forall m | 0 < m < |longer|
      ensures Passes(t, longer[m - 1], longer[m])
    {
      if m > 1 {
        assert Passes(t, route[m - 2], route[m - 1]);
      }
    }
  }

  /** Whatever is visited is reached over children and references. */
  lemma {:induction false} VisitHasRoute(t: Doc, i: nat, x: nat) returns (route: seq<nat>)
    requires Preorder(t) && i < |t| && x in Reconfigure(t, i)
    ensures IsRoute(t, route, i, x)
    decreases Last(t, i), |t| - i, |t| + 1
  {
    if x == i {
      route := [i];
    } else {
      route := ChildVisitHasRoute(t, i, i + 1, x);
    }
  }

  lemma {:induction false} ChildVisitHasRoute(t: Doc, i: nat, j: nat, x: nat) returns (route: seq<nat>)
    requires Preorder(t) && i < j <= |t| && x in ReconfigureChildren(t, i, j)
    ensures IsRoute(t, route, i, x)
    decreases Last(t, i), |t| - i, |t| - j, 1
  {
    if x in ChildPart(t, i, j) {
      TargetEndsEarlier(t, i, j);
      DerefIsEarlier(t, j);
      var k := Index(t, Deref(t, t[j].path));
      var rest := VisitHasRoute(t, k, x);
      assert Passes(t, i, k);
      LongerRoute(t, rest, i, k, x);
      route := [i] + rest;
    } else {
      route := ChildVisitHasRoute(t, i, j + 1, x);
    }
  }

  lemma {:induction false} ChildrenBefore(t: Doc, i: nat, from: nat, j: nat) returns (front: seq<nat>)
    requires Preorder(t) && i < from <= j <= |t|
    ensures ReconfigureChildren(t, i, from) == front + ReconfigureChildren(t, i, j)
    decreases j - from
  {
    if from == j {
      front := [];
    } else {
      var rest := ChildrenBefore(t, i, from + 1, j);
      front := ChildPart(t, i, from) + rest;
    }
  }

  /** The visit of a passed group is a whole part of the visit. */
  lemma PassedIsPart(t: Doc, i: nat, j: nat, k: nat) returns (a: seq<nat>, b: seq<nat>)
    requires Preorder(t) && i < j < |t| && k < |t| && t[k].content.Group?
    requires IsChild(t, i, j) && Deref(t, t[j].path) == t[k].path && !(t[k].path <= t[i].path)
    ensures Reconfigure(t, i) == a + Reconfigure(t, k) + b
  {
    WfDistinct(t);
    assert Index(t, t[k].path) == k;
    a := ChildrenBefore(t, i, i + 1, j);
    b := ReconfigureChildren(t, i, j + 1) + [i];
    assert ChildPart(t, i, j) == Reconfigure(t, k);
  }

  lemma {:induction false} RouteIsVisited(t: Doc, route: seq<nat>, i: nat, x: nat)
    requires Preorder(t) && i < |t| && IsRoute(t, route, i, x)
    ensures x in Reconfigure(t, i)
    decreases |route|
  {
    if |route| > 1 {
      var k := route[1];
      assert Passes(t, route[0], route[1]);
      var j :| i < j < |t| && IsChild(t, i, j) && Deref(t, t[j].path) == t[k].path;
      var rest := route[1..];
      forall m | 0 < m < |rest|
        ensures Passes(t, rest[m - 1], rest[m])
      {
        assert Passes(t, route[m], route[m + 1]);
      }
      RouteIsVisited(t, rest, k, x);
      var a, b := PassedIsPart(t, i, j, k);
      assert x in a + Reconfigure(t, k) + b;
    }
  }

  /** Exactly the groups that are reached over children and references are reconfigured. */
  lemma VisitedIffReached(t: Doc, i: nat, x: nat)
    requires Preorder(t) && i < |t|
    ensures x in Reconfigure(t, i) <==> exists route :: IsRoute(t, route, i, x)
  {
    if x in Reconfigure(t, i) {
      var route := VisitHasRoute(t, i, x);
    } else {
      forall route | IsRoute(t, route, i, x)
        ensures false
      {
        RouteIsVisited(t, route, i, x);
      }
    }
  }

  /** Each visit of an object ends the whole visit of what it passes to, at every depth. */
  lemma {:induction false} VisitEndsWhole(t: Doc, i: nat, q: nat) returns (before: seq<nat>)
    requires Preorder(t) && i < |t| && q < |Reconfigure(t, i)|
    ensures var visits := Reconfigure(t, i);
            visits[q] < |t| && visits[..q + 1] == before + Reconfigure(t, visits[q])
    decreases Last(t, i), |t| - i, |t| + 1
  {
    var inner := ReconfigureChildren(t, i, i + 1);
    if q < |inner| {
      before := ChildVisitEndsWhole(t, i, i + 1, q);
      assert Reconfigure(t, i)[..q + 1] == inner[..q + 1];
    } else {
      before := [];
      assert Reconfigure(t, i)[..q + 1] == Reconfigure(t, i) == before + Reconfigure(t, i);
    }
  }

  lemma {:induction false} ChildVisitEndsWhole(t: Doc, i: nat, j: nat, q: nat) returns (before: seq<nat>)
    requires Preorder(t) && i < j <= |t| && q < |ReconfigureChildren(t, i, j)|
    ensures var visits := ReconfigureChildren(t, i, j);
            visits[q] < |t| && visits[..q + 1] == before + Reconfigure(t, visits[q])
    decreases Last(t, i), |t| - i, |t| - j, 1
  {
    var part, rest := ChildPart(t, i, j), ReconfigureChildren(t, i, j + 1);
    UpTo(part, rest, q);
    if q < |part| {
      TargetEndsEarlier(t, i, j);
      before := VisitEndsWhole(t, Index(t, Deref(t, t[j].path)), q);
    } else {
      var behind := ChildVisitEndsWhole(t, i, j + 1, q - |part|);
      before := part + behind;
      assert part + (behind + Reconfigure(t, rest[q - |part|])) == before + Reconfigure(t, rest[q - |part|]);
    }
  }

  lemma UpTo(a: seq<nat>, b: seq<nat>, q: nat)
    requires q < |a + b|
    ensures if q < |a| then (a + b)[q] == a[q] && (a + b)[..q + 1] == a[..q + 1]
            else (a + b)[q] == b[q - |a|] && (a + b)[..q + 1] == a + b[..q - |a| + 1]
  {
  }

  /** Whenever an object is reconfigured, every object inside it has been before. */
  lemma InnerObjectsFirst(t: Doc, i: nat, q: nat, x: nat) returns (p: nat)
    requires Preorder(t) && i < |t| && q < |Reconfigure(t, i)|
    requires var y := Reconfigure(t, i)[q];
             y < x < |t| && t[y].path <= t[x].path && t[x].content.Group?
    ensures p < q && Reconfigure(t, i)[p] == x
  {
    var visits := Reconfigure(t, i);
    var before := VisitEndsWhole(t, i, q);
    ReachesSubtree(t, visits[q], x);
    var whole := Reconfigure(t, visits[q]);
    var m :| 0 <= m < |whole| && whole[m] == x;
    p := |before| + m;
    assert visits[..q + 1][p] == x && whole[|whole| - 1] == visits[q];
  }

  /** The objects among the children come in their order. */
  lemma ChildrenInOrder(t: Doc, i: nat, j: nat, k: nat) returns (a: seq<nat>, b: seq<nat>, c: seq<nat>)
    requires Preorder(t) && i < j < k < |t| && IsChild(t, i, j) && IsChild(t, i, k)
    requires t[j].content.Group? && t[k].content.Group?
    ensures Reconfigure(t, i) == a + Reconfigure(t, j) + b + Reconfigure(t, k) + c + [i]
  {
    a := ChildrenBefore(t, i, i + 1, j);
    b := ChildrenBefore(t, i, j + 1, k);
    c := ReconfigureChildren(t, i, k + 1);
    ChildIsOwnPart(t, i, j);
    ChildIsOwnPart(t, i, k);
    InOrder(a, Reconfigure(t, j), b, Reconfigure(t, k), c, [i]);
  }

  lemma InOrder(a: seq<nat>, x: seq<nat>, b: seq<nat>, y: seq<nat>, c: seq<nat>, d: seq<nat>)
    ensures a + (x + (b + (y + c))) + d == a + x + b + y + c + d
  {
  }

  // ----- Reconfiguration that resolves references in the whole tree -----

  function Joined(x: Option<seq<nat>>, y: Option<seq<nat>>): Option<seq<nat>> {
    if x.None? || y.None? then None else Some(x.value + y.value)
  }

  /** What is known of `reconfigure(config, true)` of the group at position i, with n nested calls followed. */
  function Walk(t: Doc, i: nat, n: nat): Option<seq<nat>>
    requires i < |t|
    decreases n, |t| + 1, 0
  {
    if n == 0 then None else Joined(WalkChildren(t, i, i + 1, n - 1), Some([i]))
  }

  function WalkChildren(t: Doc, i: nat, j: nat, n: nat): Option<seq<nat>>
    requires i < j <= |t|
    decreases n, |t| + 1, 2 + |t| - j
  {
    if j == |t| then Some([]) else Joined(WalkChild(t, i, j, n), WalkChildren(t, i, j + 1, n))
  }

  /** One child, unless its own search ends at a node on the way to the root. */
  function WalkChild(t: Doc, i: nat, j: nat, n: nat): Option<seq<nat>>
    requires i < j < |t|
    decreases n, |t| + 1, 1
  {
    if !IsChild(t, i, j) then Some([])
    else
      match Search(t, t[j].path, "", n)
      case Unknown => None
      case Missing => Some([])
      case Found(d) =>
        if d <= t[i].path || !IsGroup(t, d) then Some([]) else Walk(t, Index(t, d), n)
  }

  lemma {:induction false} WalkStays(t: Doc, i: nat, n: nat, m: nat)
    requires i < |t| && n <= m && Walk(t, i, n).Some?
    ensures Walk(t, i, m) == Walk(t, i, n)
    decreases n, |t| + 1, 0
  {
    WalkChildrenStay(t, i, i + 1, n - 1, m - 1);
  }

  lemma {:induction false} WalkChildrenStay(t: Doc, i: nat, j: nat, n: nat, m: nat)
    requires i < j <= |t| && n <= m && WalkChildren(t, i, j, n).Some?
    ensures WalkChildren(t, i, j, m) == WalkChildren(t, i, j, n)
    decreases n, |t| + 1, 2 + |t| - j
  {
    if j < |t| {
      WalkChildStays(t, i, j, n, m);
      WalkChildrenStay(t, i, j + 1, n, m);
    }
  }

  lemma {:induction false} WalkChildStays(t: Doc, i: nat, j: nat, n: nat, m: nat)
    requires i < j < |t| && n <= m && WalkChild(t, i, j, n).Some?
    ensures WalkChild(t, i, j, m) == WalkChild(t, i, j, n)
    decreases n, |t| + 1, 1
  {
    if IsChild(t, i, j) {
      SearchStays(t, t[j].path, "", n, m);
      var d := Search(t, t[j].path, "", n);
      if d.Found? && !(d.path <= t[i].path) && IsGroup(t, d.path) {
        WalkStays(t, Index(t, d.path), n, m);
      }
    }
  }

  /** If references look back, recursive reconfiguration ends, and visits what the definition by earlier nodes visits. */
  lemma {:induction false} GroupEnds(t: Doc, i: nat) returns (n: nat)
    requires Preorder(t) && LooksBack(t) && i < |t|
    ensures Walk(t, i, n) == Some(Reconfigure(t, i))
    decreases Last(t, i), |t| - i, |t| + 1
  {
    var k := ChildrenEnd(t, i, i + 1);
    n := k + 1;
  }

  lemma {:induction false} ChildrenEnd(t: Doc, i: nat, j: nat) returns (n: nat)
    requires Preorder(t) && LooksBack(t) && i < j <= |t|
    ensures WalkChildren(t, i, j, n) == Some(ReconfigureChildren(t, i, j))
    decreases Last(t, i), |t| - i, |t| - j, 1
  {
    if j == |t| {
      n := 0;
    } else {
      var k := ChildEnds(t, i, j);
      var m := ChildrenEnd(t, i, j + 1);
      n := ChildrenJoin(t, i, j, k, m, ChildPart(t, i, j), ReconfigureChildren(t, i, j + 1));
    }
  }

  lemma ChildrenJoin(t: Doc, i: nat, j: nat, k: nat, m: nat, a: seq<nat>, b: seq<nat>) returns (n: nat)
    requires i < j < |t| && WalkChild(t, i, j, k) == Some(a) && WalkChildren(t, i, j + 1, m) == Some(b)
    ensures WalkChildren(t, i, j, n) == Some(a + b)
  {
    n := k + m;
    WalkChildStays(t, i, j, k, n);
    WalkChildrenStay(t, i, j + 1, m, n);
  }

  lemma {:induction false} ChildEnds(t: Doc, i: nat, j: nat) returns (n: nat)
    requires Preorder(t) && LooksBack(t) && i < j < |t|
    ensures WalkChild(t, i, j, n) == Some(ChildPart(t, i, j))
    decreases Last(t, i), |t| - i, |t| - j, 0
  {
    n := 0;
    if IsChild(t, i, j) {
      var p := t[j].path;
      var d := Deref(t, p);
      DerefIsEarlier(t, j);
      var k := SearchIsFind(t, p, "");
      n := k;
      if !(d <= t[i].path) && IsGroup(t, d) {
        TargetEndsEarlier(t, i, j);
        var m := GroupEnds(t, Index(t, d));
        n := k + m;
        WalkStays(t, Index(t, d), m, n);
      }
      SearchStays(t, p, "", k, n);
    }
  }

  /** In the whole tree: recursive reconfiguration ends, reaches the whole subtree and touches nothing behind it. */
  lemma ReconfigurationEnds(t: Doc, i: nat) returns (n: nat, visited: seq<nat>)
    requires Preorder(t) && LooksBack(t) && i < |t|
    ensures Walk(t, i, n) == Some(visited)
    ensures forall x :: i <= x < |t| && t[i].path <= t[x].path && t[x].content.Group? ==> x in visited
    ensures forall x :: x in visited ==> x <= Last(t, i)
  {
    n := GroupEnds(t, i);
    visited := Reconfigure(t, i);
    forall x | i <= x < |t| && t[i].path <= t[x].path && t[x].content.Group?
      ensures x in visited
    {
      ReachesSubtree(t, i, x);
    }
    forall x | x in visited
      ensures x <= Last(t, i)
    {
      StaysBefore(t, i, x);
    }
  }
}
