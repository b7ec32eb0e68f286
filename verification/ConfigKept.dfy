/**
 What instantiation promises for references that may look ahead (base/src/configurable.cpp,
 base/include/grl/configurable.h): if all searches end and no reference steps up from a parameter, every reference of
 the new tree leads to what the original leads to. A reference that does step up can lead somewhere else.
 */
module ConfigKept {
  import opened Options
  import opened Paths
  import opened ConfigTree
  import opened ConfigCopy
  import opened ConfigSearch
  import opened ConfigOrder
  import opened ConfigInstance
  import opened ConfigPart
  import opened ConfigForward

  // ----- Conditions -----

  ghost predicate RefNeverUp(t: Doc, q: Path, id: string) {
    id != "" ==> NeverUp(t, Start(q, id), id)
  }

  ghost function RefsNeverUp(t: Doc, q: Path): string -> bool {
    id => RefNeverUp(t, q, id)
  }

  /** No search for a parameter, for its references and for its value as a whole, steps up from a parameter. */
  ghost predicate NodeNeverUp(t: Doc, n: Node) {
    n.content.Param? ==>
      AllIds(RefsNeverUp(t, n.path), "", n.content.value) && RefNeverUp(t, n.path, n.content.value)
  }

  /** When the reference is made relative, no name is cut. */
  ghost predicate Uncut(w: Doc, p: Path, id: string)
    requires p != []
  {
    id != "" ==> match Target(w, p, id) case Some(r) => !CutsName(Join(p), Join(r)) case None => true
  }

  ghost function Uncuts(w: Doc, p: Path): string -> bool
    requires p != []
  {
    id => Uncut(w, p, id)
  }

  /** This is so for all references of the parameter, in the part w of the new tree. */
  ghost predicate NodeUncut(w: Doc, n: Node) {
    n.content.Param? && n.path != [] ==> AllIds(Uncuts(w, n.path), "", n.content.value)
  }

  ghost predicate Instantiable(t: Doc) {
    && Wf(t) && Clean(t)
    && (forall i :: 0 <= i < |t| ==> NodeNeverUp(t, t[i]))
    && (forall i :: 0 <= i < |t| ==> NodeUncut(WholeCopy(t)[..i], t[i]))
  }

  // ----- One reference -----

  ghost predicate SameTargets(t: Doc, q: Path, a: string, b: string) {
    forall r :: RefEndsAt(t, q, a, r) <==> RefEndsAt(t, q, b, r)
  }

  /** The node that is instantiated next, below the part w of the new tree. */
  ghost predicate Next(t: Doc, w: Doc, i: nat) {
    Part(t, w) && Clean(t) && |w| == i < |t| && t[i].content.Param?
  }

  lemma NextIsRooted(t: Doc, w: Doc, i: nat)
    requires Next(t, w, i)
    ensures var p := t[i].path;
            p != [] && GoodNames(p) && IsParam(t, p) && !Has(w, p) && IsGroup(w, Parent(p)) && Has(w, [])
  {
    var p := t[i].path;
    NodeIsRooted(t, i);
    SameIndex(t[..i], w, p);
    SameIndex(t[..i], w, Parent(p));
    assert IsGroup(t[..i], p[..|p| - 1]);
    PartIndex(t, w, Parent(p));
    AncestorsAreGroups(w, Parent(p), 0);
    assert Parent(p)[..0] == [];
  }

  /** During instantiation only the root lookup can succeed. */
  lemma NewRefIs(t: Doc, w: Doc, i: nat, id: string, n: nat)
    requires Next(t, w, i) && t[i].path != []
    ensures SearchNewRef(w, t[i].path, id, n) == SearchFrom(w, [], id, n)
  {
    var p := t[i].path;
    var name := p[|p| - 1];
    NextIsRooted(t, w, i);
    FirstOfName(name, id);
    assert Parent(p) + [name] == p;
    SearchPlain(w, Parent(p), name + "/" + id, n);
    SearchPlain(w, Parent(p), "/" + id, n);
    assert First("/" + id) == "" && After("/" + id) == id by { assert ("/" + id)[1..] == id; }
    AncestorsAreGroups(w, Parent(p), 0);
    assert Parent(p)[..0] == [];
    SearchPlain(w, [], id, n);
  }

  lemma TargetIs(t: Doc, w: Doc, i: nat, id: string, n: nat)
    requires Next(t, w, i) && t[i].path != [] && SearchFrom(w, [], id, n) != Unknown
    ensures Target(w, t[i].path, id) == match SearchFrom(w, [], id, n) case Found(r) => Some(r) case _ => None
  {
    var p := t[i].path;
    NewRefIs(t, w, i, id, n);
    if SearchFrom(w, [], id, n).Found? {
      assert Leads(w, p, id, SearchFrom(w, [], id, n).path);
    }
    forall r | Leads(w, p, id, r)
      ensures SearchFrom(w, [], id, n) == Found(r)
    {
      var m :| SearchNewRef(w, p, id, m) == Found(r);
      NewRefIs(t, w, i, id, m);
      SearchFromStays(w, [], id, n, n + m);
      SearchFromStays(w, [], id, m, n + m);
    }
  }

  /** The search for a reference from the root, which is where it starts unless it steps up. */
  lemma RootIsCalm(t: Doc, q: Path, id: string, allowed: Path -> bool)
    requires id != "" && Calm(t, Start(q, id), id, allowed)
    ensures Calm(t, [], id, allowed)
  {
  }

  /** What instantiation finds for a reference. */
  lemma TargetKept(t: Doc, w: Doc, rank: Path -> nat, i: nat, id: string, allowed: Path -> bool) returns (n: nat)
    requires Next(t, w, i) && t[i].path != [] && Setting(t, w, rank, allowed)
    requires id != "" && Calm(t, Start(t[i].path, id), id, allowed)
    ensures SearchNewRef(w, t[i].path, id, n) != Unknown
    ensures match Target(w, t[i].path, id)
            case None => true
            case Some(r) => First(id) != ".." && Has(w, r) && Kept(t, allowed, [], id, Found(r))
  {
    NextIsRooted(t, w, i);
    RootIsCalm(t, t[i].path, id, allowed);
    n := FromPart(t, w, rank, allowed, [], id);
    NewRefIs(t, w, i, id, n);
    TargetIs(t, w, i, id, n);
    if SearchFrom(w, [], id, n).Found? {
      FromFoundHas(w, [], id, n, SearchFrom(w, [], id, n).path);
    }
  }

  lemma SameText(x: string)
    ensures x + "" == x
  {
  }

  /** A relative reference leads in the original tree to what the reference leads to, without stepping up. */
  lemma RelativeKept(t: Doc, w: Doc, i: nat, id: string, allowed: Path -> bool, r: Path)
    requires Next(t, w, i) && t[i].path != [] && id != "" && First(id) != ".."
    requires Has(w, r) && Kept(t, allowed, [], id, Found(r)) && !CutsName(Join(t[i].path), Join(r))
    ensures Join(t[i].path) != "" && Join(t[i].path)[0] == '/'
    ensures var p, rel := t[i].path, RelativePath(Join(t[i].path), Join(r));
            rel != "" && Calm(t, Start(p, rel), rel, allowed) && SameTargets(t, p, rel, id)
  {
    var p := t[i].path;
    NextIsRooted(t, w, i);
    PartIndex(t, w, r);
    RelativeCalm(t, p, r, "", allowed);
    RelativeStepsUp(p, Join(r), "");
    var rel := RelativePath(Join(p), Join(r));
    SameText(rel);
    RelativeLeads(t, p, r);
    RefEndsAsStarted(t, p, rel);
    RefEndsAsStarted(t, p, id);
  }

  /** A reference and what it becomes. */
  lemma ReferenceTurned(t: Doc, w: Doc, rank: Path -> nat, i: nat, id: string, allowed: Path -> bool)
    requires Next(t, w, i) && t[i].path != [] && Setting(t, w, rank, allowed)
    requires id != "" && Calm(t, Start(t[i].path, id), id, allowed) && Uncut(w, t[i].path, id)
    ensures var p, y := t[i].path, Relative(w, t[i].path, id);
            y != "" && Calm(t, Start(p, y), y, allowed) && SameTargets(t, p, y, id)
  {
    var n := TargetKept(t, w, rank, i, id, allowed);
    match Target(w, t[i].path, id)
    case None =>
    case Some(r) => RelativeKept(t, w, i, id, allowed, r);
  }

  lemma TurnedIsId(t: Doc, w: Doc, i: nat, id: string, r: Path)
    requires Next(t, w, i) && t[i].path != [] && Has(w, r)
    ensures Join(t[i].path) != "" && Join(t[i].path)[0] == '/'
    ensures IsId(RelativePath(Join(t[i].path), Join(r)))
  {
    var p := t[i].path;
    NextIsRooted(t, w, i);
    PartIndex(t, w, r);
    assert t[Index(t, r)].path == r;
    JoinClean(r);
    JoinStarts(p);
    UpsClean(Slashes(Join(p)[FolderStart(Join(p), Common(Join(p), Join(r)))..]));
  }

  /** A reference is replaced by one non-empty reference. */
  lemma RelativeIsId(t: Doc, w: Doc, rank: Path -> nat, i: nat, id: string)
    requires Next(t, w, i) && t[i].path != [] && Setting(t, w, rank, Any()) && IsId(id) && RefNeverUp(t, t[i].path, id)
    ensures IsId(Relative(w, t[i].path, id))
  {
    if id != "" {
      var n := TargetKept(t, w, rank, i, id, Any());
      match Target(w, t[i].path, id)
      case None =>
      case Some(r) => TurnedIsId(t, w, i, id, r);
    }
  }

  // ----- One value -----

  /** A value that leads in the original tree to what q's value leads to, through lower parameters. */
  ghost predicate WellCopied(t: Doc, rank: Path -> nat, q: Path, v: string) {
    v != "" && Calm(t, Start(q, v), v, Below(rank, rank(q))) && SameTargets(t, q, v, Value(t, q))
  }

  ghost predicate Growing(t: Doc, rank: Path -> nat, w: Doc) {
    && Part(t, w) && Clean(t) && IsOrder(t, rank)
    && forall q :: Value(w, q) != "" ==> WellCopied(t, rank, q, Value(w, q))
  }

  /** In the part, too, lower parameters are resolved first. */
  lemma {:induction false} GrowingResolves(t: Doc, w: Doc, rank: Path -> nat, b: nat)
    requires Growing(t, rank, w)
    ensures forall q :: Value(w, q) != "" && rank(q) < b ==> Resolved(t, w, rank, q)
  {
    if b > 0 {
      GrowingResolves(t, w, rank, b - 1);
      forall q | Value(w, q) != "" && rank(q) < b
        ensures Resolved(t, w, rank, q)
      {
        if rank(q) == b - 1 {
          GrowingValue(t, w, rank, q);
        }
      }
    }
  }

  lemma GrowingValue(t: Doc, w: Doc, rank: Path -> nat, q: Path)
    requires Growing(t, rank, w) && Value(w, q) != ""
    requires forall p :: Value(w, p) != "" && rank(p) < rank(q) ==> Resolved(t, w, rank, p)
    ensures Resolved(t, w, rank, q)
  {
    var v, allowed := Value(w, q), Below(rank, rank(q));
    PartIndex(t, w, q);
    NoChildren(w, q, "");
    assert WellCopied(t, rank, q, v);
    assert Setting(t, w, rank, allowed);
    var n := FromPart(t, w, rank, allowed, Start(q, v), v);
    RefStarts(w, q, v, n);
    RefEndsAsStarted(t, q, v);
    if SearchRef(w, q, v, n).Found? {
      SameEndByValue(t, rank, q, v, SearchRef(w, q, v, n).path);
    }
    assert GoodRef(t, rank, q, SearchRef(w, q, v, n));
  }

  lemma SameEndByValue(t: Doc, rank: Path -> nat, q: Path, v: string, r: Path)
    requires IsOrder(t, rank) && Value(t, q) != "" && SameTargets(t, q, v, Value(t, q))
    requires forall x :: RefEndsAt(t, q, v, x) <==> StandsFor(t, r, x)
    ensures SameEnd(t, q, r)
  {
    var x := StandsForSome(t, rank, r);
    assert RefEndsAt(t, q, v, x);
    RefIsStandsFor(t, q, x);
    forall y
      ensures StandsFor(t, q, y) <==> StandsFor(t, r, y)
    {
      if StandsFor(t, q, y) {
        StandsForUnique(t, q, x, y);
      }
      if StandsFor(t, r, y) {
        StandsForUnique(t, r, x, y);
      }
    }
  }

  lemma GrowingSetting(t: Doc, w: Doc, rank: Path -> nat, allowed: Path -> bool)
    requires Growing(t, rank, w) && Downward(rank, allowed)
    ensures Setting(t, w, rank, allowed)
  {
    forall q | Value(w, q) != ""
      ensures Resolved(t, w, rank, q)
    {
      GrowingResolves(t, w, rank, rank(q) + 1);
    }
  }

  /** The next node is a parameter with a value. */
  ghost predicate NextValue(t: Doc, w: Doc, rank: Path -> nat, i: nat) {
    && Next(t, w, i) && Growing(t, rank, w) && t[i].path != [] && t[i].content.value != ""
    && NodeNeverUp(t, t[i]) && NodeUncut(w, t[i])
  }

  lemma NextIsCalm(t: Doc, w: Doc, rank: Path -> nat, i: nat)
    requires NextValue(t, w, rank, i)
    ensures var p, v := t[i].path, t[i].content.value;
            Value(t, p) == v && IsParam(t, p) && Calm(t, Start(p, v), v, Below(rank, rank(p)))
  {
    var p, v := t[i].path, t[i].content.value;
    NextIsRooted(t, w, i);
    ValueIsThrough(t, rank, p);
    assert NeverUp(t, Start(p, v), v);
    ThroughIsCalm(t, Start(p, v), v, Below(rank, rank(p)));
  }

  lemma ReferenceWell(t: Doc, w: Doc, rank: Path -> nat, i: nat)
    requires NextValue(t, w, rank, i) && IsId(t[i].content.value)
    ensures var p, v := t[i].path, t[i].content.value; WellCopied(t, rank, p, Rewrite(Relatives(w, p), "", v))
  {
    var p, v := t[i].path, t[i].content.value;
    var allowed := Below(rank, rank(p));
    NextIsCalm(t, w, rank, i);
    RewriteId(Relatives(w, p), v);
    AllIdsRuns(Uncuts(w, p), "", v);
    assert "" + v == v;
    assert Downward(rank, allowed);
    GrowingSetting(t, w, rank, allowed);
    ReferenceTurned(t, w, rank, i, v, allowed);
  }

  /** The first piece of an expression and what it becomes. */
  lemma ExpressionCalm(t: Doc, w: Doc, rank: Path -> nat, i: nat, x: string, y: string, z: string, allowed: Path -> bool)
    requires Next(t, w, i) && t[i].path != [] && Growing(t, rank, w) && BothExpressions(y, z)
    requires RefNeverUp(t, t[i].path, x) && Uncut(w, t[i].path, x)
    requires Calm(t, Start(t[i].path, x + y), x + y, allowed)
    ensures var p := t[i].path; var v := Relative(w, p, x) + z; Calm(t, Start(p, v), v, allowed)
  {
    var p := t[i].path;
    if x == "" || Target(w, p, x).None? {
      FirstLonger(x, y, z);
      CalmLonger(t, Start(p, x + y), x, y, z, allowed);
    } else {
      assert Downward(rank, Any());
      GrowingSetting(t, w, rank, Any());
      var n := TargetKept(t, w, rank, i, x, Any());
      var r := Target(w, p, x).value;
      NextIsRooted(t, w, i);
      PartIndex(t, w, r);
      RelativeCalm(t, p, r, z, allowed);
      RelativeStepsUp(p, Join(r), z);
    }
  }

  lemma ExpressionWell(t: Doc, w: Doc, rank: Path -> nat, i: nat)
    requires NextValue(t, w, rank, i) && !IsId(t[i].content.value)
    ensures var p, v := t[i].path, t[i].content.value; WellCopied(t, rank, p, Rewrite(Relatives(w, p), "", v))
  {
    var p, v := t[i].path, t[i].content.value;
    var g := Relatives(w, p);
    NextIsCalm(t, w, rank, i);
    var x, y := FirstPiece(v);
    if y == "" {
      SameText(x);
      assert false;
    }
    RewriteFirst(RefsNeverUp(t, p), g, x, y);
    RewriteFirst(Uncuts(w, p), g, x, y);
    ExpressionCalm(t, w, rank, i, x, y, [y[0]] + Rewrite(g, "", y[1..]), Below(rank, rank(p)));
    RewriteKeepsSeparators(g, "", v);
    ExpressionLeadsNowhere(t, p, v);
    ExpressionLeadsNowhere(t, p, Rewrite(g, "", v));
  }

  // ----- The whole copy -----

  /** One more node. */
  lemma GrowsByOne(t: Doc, w: Doc, rank: Path -> nat, i: nat)
    requires Growing(t, rank, w) && |w| == i < |t| && NodeNeverUp(t, t[i]) && NodeUncut(w, t[i])
    ensures Growing(t, rank, w + [WholeNode(w, t[i])])
  {
    var n, m := t[i], WholeNode(w, t[i]);
    var more := w + [m];
    NodeIsRooted(t, i);
    if n.content.Param? && n.content.value != "" {
      if IsId(n.content.value) {
        ReferenceWell(t, w, rank, i);
      } else {
        ExpressionWell(t, w, rank, i);
      }
    }
    AppendedPart(t, w, m);
    forall q | Value(more, q) != ""
      ensures WellCopied(t, rank, q, Value(more, q))
    {
      AppendedValue(w, m, q);
    }
  }

  lemma AppendedPart(t: Doc, w: Doc, m: Node)
    requires Part(t, w) && |w| < |t| && SameKind(t[|w|], m)
    ensures Part(t, w + [m])
  {
    var k := |w| + 1;
    WfPrefix(t, k);
    SameShapeWf(t[..k], w + [m]);
  }

  lemma AppendedValue(w: Doc, m: Node, q: Path)
    ensures Value(w + [m], q) == if Has(w, q) then Value(w, q)
                                  else if q == m.path && m.content.Param? then m.content.value else ""
  {
    assert (w + [m])[..|w|] == w;
  }

  lemma {:induction false} CopyGrows(t: Doc, rank: Path -> nat, k: nat)
    requires Instantiable(t) && IsOrder(t, rank) && k <= |t|
    ensures Growing(t, rank, WholeCopy(t)[..k])
  {
    if k == 0 {
      NothingGrows(t, rank, WholeCopy(t)[..0]);
    } else {
      CopyGrows(t, rank, k - 1);
      CopyGrowsByOne(t, rank, k - 1, WholeCopy(t)[..k - 1]);
    }
  }

  lemma NothingGrows(t: Doc, rank: Path -> nat, w: Doc)
    requires Instantiable(t) && IsOrder(t, rank) && w == []
    ensures Growing(t, rank, w)
  {
  }

  lemma CopyGrowsByOne(t: Doc, rank: Path -> nat, i: nat, w: Doc)
    requires Instantiable(t) && i < |t| && w == WholeCopy(t)[..i] && Growing(t, rank, w)
    ensures Growing(t, rank, WholeCopy(t)[..i + 1])
  {
    GrowsByOne(t, w, rank, i);
    WholeNodeAt(t, i);
  }

  // ----- Searches of both trees end at the same node -----

  ghost predicate Twins(t: Doc, u: Doc, q: Path) {
    exists d :: StandsFor(t, q, d) && StandsFor(u, q, d)
  }

  /** The nodes that are allowed stand for the same in both trees. */
  ghost predicate TwinSetting(t: Doc, u: Doc, allowed: Path -> bool) {
    Part(t, u) && |u| == |t| && forall q :: Value(t, q) != "" && allowed(q) ==> Twins(t, u, q)
  }

  lemma TwinStep(t: Doc, u: Doc, p: Path, first: string)
    requires Part(t, u) && |u| == |t|
    ensures Step(u, p, first) == Step(t, p, first)
  {
    SameIndex(t, u, p + [first]);
  }

  lemma TwinValue(t: Doc, u: Doc, q: Path)
    requires Part(t, u) && |u| == |t|
    ensures Value(u, q) == "" <==> Value(t, q) == ""
  {
    SameIndex(t, u, q);
  }

  lemma {:induction false} FromTwin(t: Doc, u: Doc, allowed: Path -> bool, p: Path, s: string) returns (n: nat)
    requires TwinSetting(t, u, allowed) && Through(t, p, s, allowed)
    ensures SearchFrom(u, p, s, n) == SearchFrom(t, p, s, n) != Unknown
    decreases |s|, 0
  {
    n := 0;
    if s != "" {
      TwinStep(t, u, p, First(s));
      if Step(t, p, First(s)).Some? {
        n := EnterTwin(t, u, allowed, Step(t, p, First(s)).value, After(s));
      }
    }
  }

  lemma {:induction false} EnterTwin(t: Doc, u: Doc, allowed: Path -> bool, q: Path, s: string) returns (n: nat)
    requires TwinSetting(t, u, allowed) && (Value(t, q) != "" ==> allowed(q))
    requires forall r :: StandsFor(t, q, r) ==> Through(t, r, s, allowed)
    ensures Search(u, q, s, n) == Search(t, q, s, n) != Unknown
    decreases |s|, 1
  {
    TwinValue(t, u, q);
    if Value(t, q) == "" {
      PlainStandsForItself(t, q);
      PlainStandsForItself(u, q);
      assert StandsFor(t, q, q) && StandsFor(u, q, q);
    }
    assert Twins(t, u, q);
    var d :| StandsFor(t, q, d) && StandsFor(u, q, d);
    var k := FromTwin(t, u, allowed, d, s);
    var a := EnteredAs(t, q, d, s, k);
    var b := EnteredAs(u, q, d, s, k);
    n := a + b;
    SearchStays(t, q, s, a, n);
    SearchStays(u, q, s, b, n);
  }

  lemma {:induction false} CalmIsThrough(t: Doc, p: Path, s: string, allowed: Path -> bool)
    requires Calm(t, p, s, allowed)
    ensures Through(t, p, s, allowed)
    decreases |s|
  {
    if s != "" && Step(t, p, First(s)).Some? {
      forall r | StandsFor(t, Step(t, p, First(s)).value, r)
        ensures Through(t, r, After(s), allowed)
      {
        CalmIsThrough(t, r, After(s), allowed);
      }
    }
  }

  lemma {:induction false} LowerTwins(t: Doc, u: Doc, rank: Path -> nat, b: nat)
    requires Growing(t, rank, u) && |u| == |t|
    ensures forall q :: Value(t, q) != "" && rank(q) < b ==> Twins(t, u, q)
  {
    if b > 0 {
      LowerTwins(t, u, rank, b - 1);
      forall q | Value(t, q) != "" && rank(q) < b
        ensures Twins(t, u, q)
      {
        if rank(q) == b - 1 {
          ValueTwins(t, u, rank, q);
        }
      }
    }
  }

  lemma ValueTwins(t: Doc, u: Doc, rank: Path -> nat, q: Path)
    requires Growing(t, rank, u) && |u| == |t| && Value(t, q) != ""
    requires forall p :: Value(t, p) != "" && rank(p) < rank(q) ==> Twins(t, u, p)
    ensures Twins(t, u, q)
  {
    var v, allowed := Value(u, q), Below(rank, rank(q));
    TwinValue(t, u, q);
    PartIndex(t, u, q);
    assert WellCopied(t, rank, q, v);
    CalmIsThrough(t, Start(q, v), v, allowed);
    var n := FromTwin(t, u, allowed, Start(q, v), v);
    RefStarts(t, q, v, n);
    RefStarts(u, q, v, n);
    if SearchRef(u, q, v, n).Found? {
      var d := SearchRef(u, q, v, n).path;
      StandsForTarget(u, q, n, d);
      assert RefEndsAt(t, q, v, d);
      RefIsStandsFor(t, q, d);
    } else {
      TerminalStandsForItself(u, q);
      MissesToo(t, rank, q, v, n);
    }
  }

  /** If one of two references with the same targets leads nowhere, so does the other. */
  lemma SameMisses(t: Doc, q: Path, a: string, b: string, n: nat, m: nat)
    requires SameTargets(t, q, a, b) && SearchRef(t, q, a, n) != Unknown && SearchRef(t, q, b, m) != Unknown
    ensures SearchRef(t, q, a, n) == SearchRef(t, q, b, m)
  {
    if SearchRef(t, q, a, n).Found? {
      assert RefEndsAt(t, q, a, SearchRef(t, q, a, n).path);
      var k: nat :| SearchRef(t, q, b, k) == Found(SearchRef(t, q, a, n).path);
      SearchRefStays(t, q, b, k, k + m);
      SearchRefStays(t, q, b, m, k + m);
    } else if SearchRef(t, q, b, m).Found? {
      assert RefEndsAt(t, q, b, SearchRef(t, q, b, m).path);
      var k: nat :| SearchRef(t, q, a, k) == Found(SearchRef(t, q, b, m).path);
      SearchRefStays(t, q, a, k, k + n);
      SearchRefStays(t, q, a, n, k + n);
    }
  }

  lemma MissesToo(t: Doc, rank: Path -> nat, q: Path, v: string, n: nat)
    requires IsOrder(t, rank) && Value(t, q) != "" && SameTargets(t, q, v, Value(t, q)) && SearchRef(t, q, v, n) == Missing
    ensures StandsFor(t, q, q)
  {
    ValuesResolve(t, rank, q);
    var m :| SearchRef(t, q, Value(t, q), m) != Unknown;
    SameMisses(t, q, v, Value(t, q), n, m);
    TerminalStandsForItself(t, q);
  }

  lemma TwinAt(t: Doc, u: Doc, rank: Path -> nat, q: Path)
    requires Growing(t, rank, u) && |u| == |t| && Value(t, q) != ""
    ensures Twins(t, u, q)
  {
    LowerTwins(t, u, rank, rank(q) + 1);
  }

  lemma GrowingTwins(t: Doc, u: Doc, rank: Path -> nat)
    requires Growing(t, rank, u) && |u| == |t|
    ensures TwinSetting(t, u, Any())
  {
    forall q | Value(t, q) != ""
      ensures Twins(t, u, q)
    {
      TwinAt(t, u, rank, q);
    }
  }

  lemma CopyTwins(t: Doc, rank: Path -> nat)
    requires Instantiable(t) && IsOrder(t, rank)
    ensures TwinSetting(t, WholeCopy(t), Any()) && Growing(t, rank, WholeCopy(t))
  {
    CopyGrows(t, rank, |t|);
    assert WholeCopy(t)[..|t|] == WholeCopy(t);
    GrowingTwins(t, WholeCopy(t), rank);
  }

  // ----- What instantiation promises -----

  /** Every search of the new tree ends, at the node where the same search of the original ends. */
  lemma CopyFindsSame(t: Doc, rank: Path -> nat, p: Path, s: string) returns (n: nat)
    requires Instantiable(t) && IsOrder(t, rank)
    ensures Search(WholeCopy(t), p, s, n) == Search(t, p, s, n) != Unknown
  {
    CopyTwins(t, rank);
    forall r | StandsFor(t, p, r)
      ensures Through(t, r, s, Any())
    {
      AllThrough(t, r, s, Any());
    }
    n := EnterTwin(t, WholeCopy(t), Any(), p, s);
  }

  /** While a parameter is instantiated, the searches for its references end. */
  lemma InstantiatingEnds(t: Doc, rank: Path -> nat, i: nat, id: string) returns (n: nat)
    requires Instantiable(t) && IsOrder(t, rank) && i < |t| && t[i].content.Param? && t[i].path != []
    requires id != "" && RefNeverUp(t, t[i].path, id)
    ensures SearchNewRef(WholeCopy(t)[..i], t[i].path, id, n) != Unknown
  {
    var w := WholeCopy(t)[..i];
    CopyGrows(t, rank, i);
    assert Downward(rank, Any());
    GrowingSetting(t, w, rank, Any());
    n := TargetKept(t, w, rank, i, id, Any());
  }

  /**
   Every reference of the new tree, relative or not, leads to the copy of what the original reference leads to, wherever
   in the tree that is, and both searches end.
   */
  lemma EveryReferenceKept(t: Doc, rank: Path -> nat, i: nat, id: string) returns (n: nat)
    requires Instantiable(t) && IsOrder(t, rank) && i < |t| && t[i].content.Param? && t[i].path != [] && id != ""
    requires RefNeverUp(t, t[i].path, id) && Uncut(WholeCopy(t)[..i], t[i].path, id)
    ensures SearchRef(WholeCopy(t), t[i].path, Relative(WholeCopy(t)[..i], t[i].path, id), n) ==
            SearchRef(t, t[i].path, id, n) != Unknown
  {
    var w, p := WholeCopy(t)[..i], t[i].path;
    CopyGrows(t, rank, i);
    assert Downward(rank, Any());
    GrowingSetting(t, w, rank, Any());
    ReferenceTurned(t, w, rank, i, id, Any());
    NextIsRooted(t, w, i);
    n := TurnedEnds(t, rank, p, id, Relative(w, p, id));
  }

  lemma TurnedEnds(t: Doc, rank: Path -> nat, p: Path, id: string, y: string) returns (n: nat)
    requires Instantiable(t) && IsOrder(t, rank) && IsParam(t, p) && id != "" && y != "" && SameTargets(t, p, y, id)
    ensures SearchRef(WholeCopy(t), p, y, n) == SearchRef(t, p, id, n) != Unknown
  {
    var k := ReferenceSame(t, rank, p, y);
    var m := ReferenceSame(t, rank, p, id);
    SameMisses(t, p, y, id, k, m);
    n := k + m;
    SearchRefStays(WholeCopy(t), p, y, k, n);
    SearchRefStays(t, p, id, m, n);
  }

  lemma TwinParam(t: Doc, u: Doc, p: Path)
    requires Part(t, u) && |u| == |t|
    ensures IsParam(u, p) == IsParam(t, p)
  {
    SameIndex(t, u, p);
  }

  /** The same reference leads in both trees to the same node. */
  lemma ReferenceSame(t: Doc, rank: Path -> nat, p: Path, y: string) returns (n: nat)
    requires Instantiable(t) && IsOrder(t, rank) && IsParam(t, p) && y != ""
    ensures SearchRef(WholeCopy(t), p, y, n) == SearchRef(t, p, y, n) != Unknown
  {
    var u := WholeCopy(t);
    CopyTwins(t, rank);
    AllThrough(t, Start(p, y), y, Any());
    n := FromTwin(t, u, Any(), Start(p, y), y);
    TwinParam(t, u, p);
    RefStarts(t, p, y, n);
    RefStarts(u, p, y, n);
  }

  // ----- Trees that look back -----

  lemma {:induction false} RewriteSame(f: string -> string, g: string -> string, id: string, v: string)
    requires forall x :: f(x) == g(x)
    ensures Rewrite(f, id, v) == Rewrite(g, id, v)
    decreases |v|
  {
    if v == "" {
    } else if IsSeparator(v[0]) {
      RewriteSame(f, g, "", v[1..]);
    } else {
      RewriteSame(f, g, id + [v[0]], v[1..]);
    }
  }

  lemma LeadsAsResolved(w: Doc, p: Path, id: string, n: nat)
    requires p != [] && SearchNewRef(w, p, id, n) == Outcomes(ResolveIn(w, p, id))
    ensures Target(w, p, id) == ResolveIn(w, p, id)
  {
    forall r | Leads(w, p, id, r)
      ensures ResolveIn(w, p, id) == Some(r)
    {
      var m: nat :| SearchNewRef(w, p, id, m) == Found(r);
      NewRefStays(w, p, id, n, m + n);
      NewRefStays(w, p, id, m, m + n);
    }
    if ResolveIn(w, p, id).Some? {
      assert Leads(w, p, id, ResolveIn(w, p, id).value);
    }
  }

  lemma NewRefStays(w: Doc, p: Path, id: string, n: nat, m: nat)
    requires p != [] && n <= m && SearchNewRef(w, p, id, n) != Unknown
    ensures SearchNewRef(w, p, id, m) == SearchNewRef(w, p, id, n)
  {
    var first, second := p[|p| - 1] + "/" + id, "/" + id;
    SearchStays(w, Parent(p), first, n, m);
    if Search(w, Parent(p), first, n).Missing? {
      SearchStays(w, Parent(p), second, n, m);
    }
  }

  /** If the references look back, the new tree is the one that ConfigCopy has. */
  lemma {:induction false} WholeCopyIsCopy(t: Doc, k: nat)
    requires Wf(t) && Clean(t) && Guarded(t) && LooksBack(t) && k <= |t|
    ensures WholeCopy(t)[..k] == Copy(t)[..k]
  {
    if k > 0 {
      var i := k - 1;
      WholeCopyIsCopy(t, i);
      WholeNodeAt(t, i);
      CopyNodeAt(t, i);
      var w, n := Copy(t)[..i], t[i];
      if n.content.Param? && n.path != [] {
        forall x
          ensures Relatives(w, n.path)(x) == Localizer(w, n.path)(x)
        {
          var m := LocalizingEnds(t, i, x);
          LeadsAsResolved(w, n.path, x, m);
        }
        RewriteSame(Relatives(w, n.path), Localizer(w, n.path), "", n.content.value);
      }
    }
  }

  lemma CopyNodeAt(t: Doc, i: nat)
    requires i < |t|
    ensures Copy(t)[..i + 1] == Copy(t)[..i] + [CopyNode(Copy(t)[..i], t[i])]
  {
    CopyPrefix(t, i);
    CopyPrefix(t, i + 1);
    assert t[..i + 1][..i] == t[..i];
  }
}
