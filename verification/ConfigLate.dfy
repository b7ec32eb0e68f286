/**
 A reference that steps up from a parameter whose target does not exist yet when it is instantiated: it leads somewhere
 else in the new tree (base/src/configurable.cpp, ParameterConfigurator::localize and find).
 */
module ConfigLate {
  import opened Options
  import opened Paths
  import opened ConfigTree
  import opened ConfigCopy
  import opened ConfigSearch
  import opened ConfigOrder
  import opened ConfigPart
  import opened ConfigForward
  import opened ConfigKept

  /** r looks ahead to h/y, and c goes up from what r stands for and down to a k. */
  const LATE: Doc := [Node([], Group), Node(["r"], Param("h/y")), Node(["k"], Group), Node(["c"], Param("r/../k")),
                      Node(["h"], Group), Node(["h", "y"], Group), Node(["h", "k"], Group)]

  ghost predicate DistinctPaths(t: Doc) {
    forall i, j :: 0 <= i < j < |t| ==> t[i].path != t[j].path
  }

  lemma DistinctIndex(t: Doc, i: nat)
    requires DistinctPaths(t) && i < |t|
    ensures Index(t, t[i].path) == i
  {
    IndexFound(t, i);
  }

  lemma LateIndex()
    ensures forall i :: 0 <= i < |LATE| ==> Index(LATE, LATE[i].path) == i
  {
    forall i | 0 <= i < |LATE|
      ensures Index(LATE, LATE[i].path) == i
    {
      DistinctIndex(LATE, i);
    }
  }

  lemma LateNodes()
    ensures Index(LATE, []) == 0 && Index(LATE, ["r"]) == 1 && Index(LATE, ["k"]) == 2 && Index(LATE, ["c"]) == 3
    ensures Index(LATE, ["h"]) == 4 && Index(LATE, ["h", "y"]) == 5 && Index(LATE, ["h", "k"]) == 6
  {
    LateIndex();
    assert LATE[0].path == [] && LATE[1].path == ["r"] && LATE[2].path == ["k"] && LATE[3].path == ["c"];
    assert LATE[4].path == ["h"] && LATE[5].path == ["h", "y"] && LATE[6].path == ["h", "k"];
  }

  lemma LateParents(i: nat)
    requires i < |LATE|
    ensures BelowGroup(LATE, i)
  {
    LateNodes();
    var p := LATE[i].path;
    if p != [] {
      assert ["h", "y"][..1] == ["h"] && ["h", "k"][..1] == ["h"];
      var k := if |p| == 1 then 0 else 4;
      assert Parent(p) == LATE[k].path;
      IndexPrefix(LATE, i, Parent(p));
      assert LATE[..i][k] == LATE[k];
      IndexFound(LATE[..i], k);
    }
  }

  predicate OneLetter(name: string) {
    |name| == 1 && (name[0] == 'r' || name[0] == 'k' || name[0] == 'c' || name[0] == 'h' || name[0] == 'y')
  }

  lemma LateNames(i: nat)
    requires i < |LATE|
    ensures forall k :: 0 <= k < |LATE[i].path| ==> OneLetter(LATE[i].path[k])
  {
  }

  lemma LateGoodNames(i: nat)
    requires i < |LATE|
    ensures GoodNames(LATE[i].path)
  {
    LateNames(i);
    forall k | 0 <= k < |LATE[i].path|
      ensures GoodName(LATE[i].path[k])
    {
      assert OneLetter(LATE[i].path[k]);
    }
  }

  lemma LateIsClean()
    ensures Clean(LATE)
  {
    forall i, k | 0 <= i < |LATE| && 0 <= k < |LATE[i].path|
      ensures IsId(LATE[i].path[k])
    {
      LateNames(i);
      assert OneLetter(LATE[i].path[k]);
    }
  }

  lemma LateIsInOrder()
    ensures Wf(LATE) && Clean(LATE)
  {
    LateIndex();
    LateIsClean();
    forall i | 0 <= i < |LATE|
      ensures GoodNames(LATE[i].path)
    {
      LateGoodNames(i);
    }
    forall i | 0 <= i < |LATE|
      ensures BelowGroup(LATE, i)
    {
      LateParents(i);
    }
    LateRoot();
  }

  lemma LateRoot()
    ensures forall i :: 0 <= i < |LATE| && LATE[i].path == [] ==> LATE[i].content.Group?
  {
  }

  lemma LateValues()
    ensures Value(LATE, []) == Value(LATE, ["k"]) == Value(LATE, ["h"]) == Value(LATE, ["h", "y"]) ==
            Value(LATE, ["h", "k"]) == ""
    ensures Value(LATE, ["r"]) == "h/y" && Value(LATE, ["c"]) == "r/../k"
    ensures IsParam(LATE, ["r"]) && IsParam(LATE, ["c"])
  {
    LateNodes();
  }

  lemma LateTexts()
    ensures First("h/y") == "h" && After("h/y") == "y" && First("y") == "y" && After("y") == ""
    ensures First("r/../k") == "r" && After("r/../k") == "../k" && First("../k") == ".." && After("../k") == "k"
    ensures First("k") == "k" && After("k") == ""
  {
    FirstOfName("h", "y");
    assert "h" + "/" + "y" == "h/y";
    FirstOfName("y", "");
    FirstOfName("r", "../k");
    assert "r" + "/" + "../k" == "r/../k";
    FirstOfName("..", "k");
    assert ".." + "/" + "k" == "../k";
    FirstOfName("k", "");
  }

  /** The tree's nodes are these. */
  lemma LateHas(p: Path)
    requires Has(LATE, p)
    ensures p == [] || p == ["r"] || p == ["k"] || p == ["c"] || p == ["h"] || p == ["h", "y"] || p == ["h", "k"]
  {
  }

  lemma Children()
    ensures [] + ["r"] == ["r"] && [] + ["k"] == ["k"] && [] + ["h"] == ["h"]
    ensures ["h"] + ["y"] == ["h", "y"] && ["h"] + ["k"] == ["h", "k"]
    ensures Parent(["h", "y"]) == ["h"] && Parent(["r"]) == []
  {
  }

  /** In the original, r stands for h/y. */
  lemma LateTarget(n: nat)
    ensures SearchFrom(LATE, [], "h/y", n) == Found(["h", "y"]) && SearchRef(LATE, ["r"], "h/y", n) == Found(["h", "y"])
  {
    LateIsInOrder();
    LateNodes();
    LateValues();
    LateTexts();
    Children();
    SearchPlain(LATE, ["h"], "y", n);
    SearchPlain(LATE, ["h", "y"], "", n);
    RefStarts(LATE, ["r"], "h/y", n);
  }

  lemma FromTarget(n: nat)
    ensures SearchFrom(LATE, ["h", "y"], "../k", n) == Found(["h", "k"])
  {
    LateNodes();
    LateValues();
    LateTexts();
    Children();
    SearchPlain(LATE, ["h"], "k", n);
    SearchPlain(LATE, ["h", "k"], "", n);
  }

  /** So c's value leads to h/k. */
  lemma LateReference(n: nat)
    requires n > 0
    ensures SearchRef(LATE, ["c"], "r/../k", n) == Found(["h", "k"])
  {
    LateIsInOrder();
    LateValues();
    LateTexts();
    RefStarts(LATE, ["c"], "r/../k", n);
    FromR(n);
  }

  lemma FromR(n: nat)
    requires n > 0
    ensures SearchFrom(LATE, [], "r/../k", n) == Found(["h", "k"])
  {
    LateNodes();
    LateTexts();
    Children();
    BehindR(n);
  }

  lemma BehindR(n: nat)
    requires n > 0
    ensures Search(LATE, ["r"], "../k", n) == Found(["h", "k"])
  {
    LateValues();
    LateTarget(n - 1);
    SearchValue(LATE, ["r"], "../k", n, Found(["h", "y"]));
    SearchPlain(LATE, ["h", "y"], "../k", n - 1);
    FromTarget(n - 1);
  }

  function LateRank(): Path -> nat {
    p => if p == ["c"] then 1 else 0
  }

  lemma RStandsFor()
    ensures forall r :: StandsFor(LATE, ["r"], r) <==> r == ["h", "y"]
  {
    LateValues();
    LateTarget(0);
    SearchValue(LATE, ["r"], "", 1, Found(["h", "y"]));
    SearchPlain(LATE, ["h", "y"], "", 0);
    StandsForOne(LATE, ["r"], ["h", "y"], 1);
  }

  lemma PlainNodes()
    ensures forall r :: StandsFor(LATE, [], r) <==> r == []
    ensures forall r :: StandsFor(LATE, ["h"], r) <==> r == ["h"]
    ensures forall r :: StandsFor(LATE, ["h", "y"], r) <==> r == ["h", "y"]
  {
    LateValues();
    PlainStandsForItself(LATE, []);
    PlainStandsForItself(LATE, ["h"]);
    PlainStandsForItself(LATE, ["h", "y"]);
  }

  lemma NothingBelow(q: Path, v: string, allowed: Path -> bool)
    requires IsParam(LATE, q) && v != "" && First(v) != "" && First(v) != ".."
    ensures Through(LATE, q, v, allowed)
    ensures Through(LATE, [], v, allowed) ==> Through(LATE, q, "/" + v, allowed)
  {
    LateIsInOrder();
    NoChildren(LATE, q, First(v));
    PlainNodes();
    assert First("/" + v) == "" && After("/" + v) == v by { assert ("/" + v)[1..] == v; }
  }

  lemma RThrough()
    ensures Through(LATE, [], "h/y", Below(LateRank(), 0))
  {
    var allowed := Below(LateRank(), 0);
    LateValues();
    LateNodes();
    LateTexts();
    Children();
    PlainNodes();
    assert Through(LATE, ["h", "y"], "", allowed);
    assert Through(LATE, ["h"], "y", allowed);
    assert Through(LATE, [], "h/y", allowed);
  }

  lemma RDescends()
    ensures Descends(LATE, LateRank(), ["r"])
  {
    LateValues();
    LateTexts();
    RThrough();
    NothingBelow(["r"], "h/y", Below(LateRank(), 0));
  }

  lemma CThrough()
    ensures Through(LATE, [], "r/../k", Below(LateRank(), 1))
  {
    var allowed := Below(LateRank(), 1);
    LateValues();
    LateNodes();
    LateTexts();
    Children();
    PlainNodes();
    RStandsFor();
    PlainStandsForItself(LATE, ["h", "k"]);
    assert Through(LATE, ["h", "k"], "", allowed);
    assert Through(LATE, ["h"], "k", allowed);
    assert Through(LATE, ["h", "y"], "../k", allowed);
    assert Through(LATE, [], "r/../k", allowed);
  }

  lemma CDescends()
    ensures Descends(LATE, LateRank(), ["c"])
  {
    LateValues();
    LateTexts();
    CThrough();
    NothingBelow(["c"], "r/../k", Below(LateRank(), 1));
  }

  /** All searches of this tree end. */
  lemma LateIsOrdered()
    ensures IsOrder(LATE, LateRank())
  {
    forall q | Value(LATE, q) != ""
      ensures Descends(LATE, LateRank(), q)
    {
      LateHas(q);
      LateValues();
      RDescends();
      CDescends();
    }
  }

  // ----- The new tree -----

  /** Before h exists, r's value names nothing and r stands for itself. */
  const EARLY: Doc := LATE[..3]

  lemma EarlyParts(k: nat)
    requires k <= |LATE|
    ensures Part(LATE, LATE[..k])
  {
    LateIsInOrder();
    WfPrefix(LATE, k);
  }

  lemma EarlyIndex(k: nat, p: Path)
    requires k <= |LATE|
    ensures Index(LATE, p) < k ==> Index(LATE[..k], p) == Index(LATE, p)
    ensures Has(LATE, p) && Index(LATE, p) >= k ==> !Has(LATE[..k], p)
  {
    IndexPrefix(LATE, k, p);
    if Index(LATE, p) < k {
      assert LATE[..k][Index(LATE, p)].path == p;
      IndexFound(LATE[..k], Index(LATE, p));
    }
  }

  lemma HMissing(k: nat, n: nat)
    requires k <= 4
    ensures SearchFrom(LATE[..k], [], "h/y", n) == Missing
  {
    LateNodes();
    LateTexts();
    Children();
    EarlyIndex(k, ["h"]);
  }

  lemma EarlyTarget(w: Doc)
    requires w == LATE[..1]
    ensures Relative(w, ["r"], "h/y") == "h/y"
  {
    EarlyParts(1);
    LateIsInOrder();
    HMissing(1, 0);
    TargetIs(LATE, w, 1, "h/y", 0);
  }

  lemma FirstThree()
    ensures WholeCopy(LATE)[..3] == EARLY
  {
    var u := WholeCopy(LATE);
    WholeNodeAt(LATE, 0);
    WholeNodeAt(LATE, 1);
    WholeNodeAt(LATE, 2);
    assert u[..0] == [] && u[..1] == LATE[..1];
    EarlyTarget(u[..1]);
    assert forall i :: 0 <= i < 3 ==> "h/y"[i] == 'h' || "h/y"[i] == '/' || "h/y"[i] == 'y';
    RewriteId(Relatives(u[..1], ["r"]), "h/y");
    assert u[..2] == LATE[..2];
  }

  /** While c is instantiated, its reference leads to k. */
  lemma EarlyReference()
    ensures SearchFrom(EARLY, [], "r/../k", 1) == Found(["k"])
  {
    LateNodes();
    LateTexts();
    Children();
    EarlyIndex(3, []);
    EarlyIndex(3, ["r"]);
    EarlyIndex(3, ["k"]);
    EarlyParts(3);
    HMissing(3, 0);
    RefStarts(EARLY, ["r"], "h/y", 0);
    SearchValue(EARLY, ["r"], "../k", 1, Missing);
    SearchPlain(EARLY, [], "k", 1);
    SearchPlain(EARLY, ["k"], "", 1);
  }

  lemma NotCut()
    ensures Join(["c"]) == "/c" && Join(["k"]) == "/k" && !CutsName("/c", "/k")
  {
    assert ["c"][..0] == [] && ["k"][..0] == [];
    CommonUnique("/c", "/k", 1);
  }

  lemma EarlyBecomes()
    ensures Target(EARLY, ["c"], "r/../k") == Some(["k"])
  {
    EarlyParts(3);
    LateIsInOrder();
    EarlyReference();
    TargetIs(LATE, EARLY, 3, "r/../k", 1);
  }

  lemma CopyHas(u: Doc)
    requires u == WholeCopy(LATE)
    ensures Wf(u) && IsParam(u, ["c"]) && Has(u, ["k"]) && Value(u, ["k"]) == ""
  {
    LateIsInOrder();
    LateNodes();
    WholeShape(LATE);
    SameShapeWf(LATE, u);
    SameIndex(LATE, u, ["c"]);
    SameIndex(LATE, u, ["k"]);
  }

  /**
   All searches of this tree end, its reference to h/k goes up from a parameter, and in the new tree it leads to the
   other k.
   */
  lemma LateReferenceMoves(n: nat)
    requires n > 0
    ensures Wf(LATE) && Clean(LATE) && IsOrder(LATE, LateRank()) && !RefNeverUp(LATE, ["c"], "r/../k")
    ensures SearchRef(LATE, ["c"], "r/../k", n) == Found(["h", "k"])
    ensures SearchRef(WholeCopy(LATE), ["c"], Relative(WholeCopy(LATE)[..3], ["c"], "r/../k"), n) == Found(["k"])
  {
    var u := WholeCopy(LATE);
    LateIsInOrder();
    LateIsOrdered();
    LateReference(n);
    StepsUp();
    FirstThree();
    EarlyBecomes();
    NotCut();
    CopyHas(u);
    MovedReference(u, n);
  }

  lemma StepsUp()
    ensures !RefNeverUp(LATE, ["c"], "r/../k")
  {
    LateNodes();
    LateValues();
    LateTexts();
    Children();
  }

  lemma MovedReference(u: Doc, n: nat)
    requires Wf(u) && IsParam(u, ["c"]) && Has(u, ["k"]) && Value(u, ["k"]) == ""
    ensures Join(["c"]) != "" && Join(["c"])[0] == '/'
    ensures SearchRef(u, ["c"], RelativePath(Join(["c"]), Join(["k"])), n) == Found(["k"])
  {
    NotCut();
    var rel := RelativePath(Join(["c"]), Join(["k"]));
    RelativeStepsUp(["c"], Join(["k"]), "");
    SameText(rel);
    FirstOfName("..", "");
    assert rel != "";
    RefStarts(u, ["c"], rel, n);
    RelativeSearch(u, ["c"], ["k"], n);
    SearchPlain(u, ["k"], "", n);
  }

  // ----- A reference that looks ahead and is kept -----

  /** a names b, which is behind it. */
  const AHEAD: Doc := [Node([], Group), Node(["a"], Param("b")), Node(["b"], Group)]

  lemma AheadNodes()
    ensures Index(AHEAD, []) == 0 && Index(AHEAD, ["a"]) == 1 && Index(AHEAD, ["b"]) == 2
    ensures Value(AHEAD, []) == Value(AHEAD, ["b"]) == "" && Value(AHEAD, ["a"]) == "b" && IsParam(AHEAD, ["a"])
  {
    DistinctIndex(AHEAD, 0);
    DistinctIndex(AHEAD, 1);
    DistinctIndex(AHEAD, 2);
    assert AHEAD[0].path == [] && AHEAD[1].path == ["a"] && AHEAD[2].path == ["b"];
  }

  lemma AheadParents(i: nat)
    requires i < |AHEAD|
    ensures BelowGroup(AHEAD, i)
  {
    AheadNodes();
    if i > 0 {
      assert Parent(AHEAD[i].path) == [];
      IndexPrefix(AHEAD, i, []);
      assert AHEAD[..i][0] == AHEAD[0];
      IndexFound(AHEAD[..i], 0);
    }
  }

  lemma AheadIsInOrder()
    ensures Wf(AHEAD) && Clean(AHEAD)
  {
    AheadNodes();
    assert AHEAD[0].path == [] && AHEAD[1].path == ["a"] && AHEAD[2].path == ["b"];
    forall i | 0 <= i < |AHEAD|
      ensures BelowGroup(AHEAD, i)
    {
      AheadParents(i);
    }
    forall i | 0 <= i < |AHEAD|
      ensures Index(AHEAD, AHEAD[i].path) == i
    {
      DistinctIndex(AHEAD, i);
    }
  }

  lemma AheadTexts()
    ensures First("b") == "b" && After("b") == "" && First("/b") == "" && After("/b") == "b"
  {
    FirstOfName("b", "");
    assert "/b"[1..] == "b";
  }

  lemma AheadWalk(allowed: Path -> bool)
    ensures Through(AHEAD, [], "b", allowed) && Calm(AHEAD, [], "b", allowed)
  {
    AheadNodes();
    AheadTexts();
    assert [] + ["b"] == ["b"];
    PlainStandsForItself(AHEAD, ["b"]);
  }

  lemma AheadIsOrdered(rank: Path -> nat)
    ensures IsOrder(AHEAD, rank)
  {
    var allowed := Below(rank, rank(["a"]));
    AheadNodes();
    AheadTexts();
    AheadIsInOrder();
    AheadWalk(allowed);
    NoChildren(AHEAD, ["a"], "b");
    PlainStandsForItself(AHEAD, []);
    assert "/" + "b" == "/b";
    assert Through(AHEAD, ["a"], "b", allowed) && Through(AHEAD, ["a"], "/b", allowed);
    forall q | Value(AHEAD, q) != ""
      ensures q == ["a"]
    {
    }
  }

  lemma AheadPieces(f: string -> bool)
    ensures AllIds(f, "", "b") == f("b")
  {
    assert "" + ['b'] == "b" && "b"[1..] == "";
    assert AllIds(f, "b", "") == f("b");
  }

  lemma AheadUncut(w: Doc)
    requires w == AHEAD[..1]
    ensures Uncut(w, ["a"], "b")
  {
    AheadIsInOrder();
    WfPrefix(AHEAD, 1);
    AheadTexts();
    assert [] + ["b"] == ["b"];
    assert w == [Node([], Group)];
    assert Next(AHEAD, w, 1);
    assert SearchFrom(w, [], "b", 0) == Missing;
    TargetIs(AHEAD, w, 1, "b", 0);
  }

  lemma AheadLooksAhead()
    ensures !LooksBack(AHEAD)
  {
    AheadNodes();
    AheadTexts();
    assert [] + ["b"] == ["b"] && "/" + "b" == "/b";
    assert !Passes(AHEAD, [], "b", 1);
    assert !NodeLooksBack(AHEAD, 1);
  }

  lemma AheadNeverUp()
    ensures forall i :: 0 <= i < |AHEAD| ==> NodeNeverUp(AHEAD, AHEAD[i])
  {
    AheadTexts();
    AheadWalk(Any());
    AheadPieces(RefsNeverUp(AHEAD, ["a"]));
  }

  lemma AheadNoneCut()
    ensures forall i :: 0 <= i < |AHEAD| ==> NodeUncut(WholeCopy(AHEAD)[..i], AHEAD[i])
  {
    var u := WholeCopy(AHEAD);
    WholeNodeAt(AHEAD, 0);
    assert u[..0] == [] && u[..1] == AHEAD[..1];
    AheadUncut(u[..1]);
    AheadPieces(Uncuts(u[..1], ["a"]));
  }

  /** It is not a tree that looks back, and its reference is kept. */
  lemma AheadIsInstantiable(rank: Path -> nat)
    ensures Instantiable(AHEAD) && IsOrder(AHEAD, rank) && !LooksBack(AHEAD)
  {
    AheadIsInOrder();
    AheadIsOrdered(rank);
    AheadLooksAhead();
    AheadNeverUp();
    AheadNoneCut();
  }
}
