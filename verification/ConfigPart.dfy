/**
 Searching a part of the new configuration tree while it is instantiated (base/src/configurable.cpp,
 base/include/grl/configurable.h). What is found there stands in the original for what is found there, as long as all
 searches end and none steps up from a parameter, even if references look ahead.
 */
module ConfigPart {
  import opened Options
  import opened ConfigTree
  import opened ConfigCopy
  import opened ConfigSearch
  import opened ConfigOrder

  // ----- Where searches end -----

  ghost predicate EndsAt(t: Doc, p: Path, s: string, r: Path) {
    exists n :: Search(t, p, s, n) == Found(r)
  }

  ghost predicate FromEndsAt(t: Doc, p: Path, s: string, r: Path) {
    exists n :: SearchFrom(t, p, s, n) == Found(r)
  }

  ghost predicate RefEndsAt(t: Doc, q: Path, id: string, r: Path) {
    exists n :: SearchRef(t, q, id, n) == Found(r)
  }

  /** Both nodes stand for the same. */
  ghost predicate SameEnd(t: Doc, a: Path, b: Path) {
    forall r :: StandsFor(t, a, r) <==> StandsFor(t, b, r)
  }

  lemma StandsForUnique(t: Doc, p: Path, a: Path, b: Path)
    requires StandsFor(t, p, a) && StandsFor(t, p, b)
    ensures a == b
  {
    var n :| Search(t, p, "", n) == Found(a);
    StandsForOne(t, p, a, n);
  }

  lemma ValuesResolve(t: Doc, rank: Path -> nat, q: Path)
    requires IsOrder(t, rank) && Value(t, q) != ""
    ensures Resolves(t, q)
  {
    LowerResolve(t, rank, rank(q) + 1);
  }

  /** Every node stands for some node. */
  lemma StandsForSome(t: Doc, rank: Path -> nat, q: Path) returns (d: Path)
    requires IsOrder(t, rank)
    ensures StandsFor(t, q, d)
  {
    d := q;
    if Value(t, q) == "" {
      TerminalStandsForItself(t, q);
    } else {
      ValuesResolve(t, rank, q);
      var m :| SearchRef(t, q, Value(t, q), m) != Unknown;
      if SearchRef(t, q, Value(t, q), m).Missing? {
        TerminalStandsForItself(t, q);
      } else {
        d := SearchRef(t, q, Value(t, q), m).path;
        StandsForTarget(t, q, m, d);
      }
    }
  }

  /** A node without a value stands only for itself. */
  lemma PlainStandsForItself(t: Doc, q: Path)
    requires Value(t, q) == ""
    ensures forall r :: StandsFor(t, q, r) <==> r == q
  {
    SearchPlain(t, q, "", 0);
    StandsForOne(t, q, q, 0);
  }

  /** A search goes on from what the node stands for. */
  lemma EnteredAs(t: Doc, q: Path, d: Path, s: string, k: nat) returns (n: nat)
    requires StandsFor(t, q, d) && SearchFrom(t, d, s, k) != Unknown
    ensures Search(t, q, s, n) == SearchFrom(t, d, s, k)
  {
    var j: nat :| Search(t, q, "", j) == Found(d);
    if Value(t, q) == "" {
      PlainStandsForItself(t, q);
      SearchPlain(t, q, s, k);
      n := k;
    } else {
      SearchKnown(t, q, "", j);
      n := EnteredValue(t, q, d, s, k, j - 1, SearchRef(t, q, Value(t, q), j - 1));
    }
  }

  lemma EnteredValue(t: Doc, q: Path, d: Path, s: string, k: nat, m: nat, o: Outcome) returns (n: nat)
    requires StandsFor(t, q, d) && SearchFrom(t, d, s, k) != Unknown
    requires Value(t, q) != "" && SearchRef(t, q, Value(t, q), m) == o != Unknown
    ensures Search(t, q, s, n) == SearchFrom(t, d, s, k)
  {
    if o.Missing? {
      TerminalStandsForItself(t, q);
      StandsForUnique(t, q, d, q);
      n := NotHandedOn(t, q, s, m, k);
    } else {
      StandsForTarget(t, q, m, o.path);
      StandsForUnique(t, q, d, o.path);
      RefEndsAtTerminal(t, q, Value(t, q), m, d);
      var l := TerminalSearch(t, d, s, k);
      n := HandedOn(t, q, s, m, d, l, SearchFrom(t, d, s, k));
    }
  }

  lemma EndsAsEntered(t: Doc, q: Path, d: Path, s: string)
    requires StandsFor(t, q, d)
    ensures forall r :: EndsAt(t, q, s, r) <==> FromEndsAt(t, d, s, r)
  {
    forall r | FromEndsAt(t, d, s, r)
      ensures EndsAt(t, q, s, r)
    {
      var k :| SearchFrom(t, d, s, k) == Found(r);
      var n := EnteredAs(t, q, d, s, k);
    }
    forall r | EndsAt(t, q, s, r)
      ensures FromEndsAt(t, d, s, r)
    {
      var n :| Search(t, q, s, n) == Found(r);
      var j :| Search(t, q, "", j) == Found(d);
      TargetIsKnown(t, q, s, n, d, j);
      var m := EnteredAs(t, q, d, s, n);
      SearchStays(t, q, s, n, n + m);
      SearchStays(t, q, s, m, n + m);
    }
  }

  /** The first name leads to q. */
  lemma EndsAsStepped(t: Doc, p: Path, s: string, q: Path)
    requires s != "" && Step(t, p, First(s)) == Some(q)
    ensures forall r :: FromEndsAt(t, p, s, r) <==> EndsAt(t, q, After(s), r)
  {
    forall r | FromEndsAt(t, p, s, r)
      ensures EndsAt(t, q, After(s), r)
    {
      var n :| SearchFrom(t, p, s, n) == Found(r);
      assert Search(t, q, After(s), n) == Found(r);
    }
    forall r | EndsAt(t, q, After(s), r)
      ensures FromEndsAt(t, p, s, r)
    {
      var n :| Search(t, q, After(s), n) == Found(r);
      assert SearchFrom(t, p, s, n) == Found(r);
    }
  }

  // ----- References start at the root, or step up first -----

  /** Parameters have no children. */
  predicate IsParam(t: Doc, q: Path) {
    Has(t, q) && t[Index(t, q)].content.Param?
  }

  lemma NoChildren(t: Doc, q: Path, name: string)
    requires Wf(t) && IsParam(t, q)
    ensures !Has(t, q + [name]) && q != [] && IsGroup(t, []) && IsGroup(t, Parent(q))
  {
    var i := Index(t, q);
    assert (q + [name])[..|q|] == q;
    if Has(t, q + [name]) {
      AncestorsAreGroups(t, q + [name], |q|);
    }
    AncestorsAreGroups(t, q, 0);
    AncestorsAreGroups(t, q, |q| - 1);
    assert q[..0] == [];
  }

  /** Where the search for a reference of q can find something. */
  function Start(q: Path, id: string): Path {
    if First(id) == ".." then q else []
  }

  lemma RefStarts(t: Doc, q: Path, id: string, n: nat)
    requires Wf(t) && IsParam(t, q) && id != ""
    ensures SearchRef(t, q, id, n) == SearchFrom(t, Start(q, id), id, n)
  {
    NoChildren(t, q, First(id));
    assert First("/" + id) == "" && After("/" + id) == id by { assert ("/" + id)[1..] == id; }
    SearchPlain(t, [], id, n);
    if First(id) == "" {
      SearchPlain(t, [], After(id), n);
    }
  }

  lemma RefEndsAsStarted(t: Doc, q: Path, id: string)
    requires Wf(t) && IsParam(t, q) && id != ""
    ensures forall r :: RefEndsAt(t, q, id, r) <==> FromEndsAt(t, Start(q, id), id, r)
  {
    forall n: nat
      ensures SearchRef(t, q, id, n) == SearchFrom(t, Start(q, id), id, n)
    {
      RefStarts(t, q, id, n);
    }
  }

  /** What a reference leads to is what its parameter stands for. */
  lemma RefIsStandsFor(t: Doc, q: Path, r: Path)
    requires Value(t, q) != "" && RefEndsAt(t, q, Value(t, q), r)
    ensures StandsFor(t, q, r)
  {
    var m :| SearchRef(t, q, Value(t, q), m) == Found(r);
    StandsForTarget(t, q, m, r);
  }

  // ----- Searches that never step up from a parameter -----

  /** The search for s from p comes only through parameters that are allowed, and steps up from none of them. */
  ghost predicate Calm(t: Doc, p: Path, s: string, allowed: Path -> bool)
    decreases |s|
  {
    if s == "" then true
    else
      match Step(t, p, First(s))
      case None => true
      case Some(q) =>
        && (Value(t, q) != "" ==> allowed(q) && First(After(s)) != "..")
        && forall r :: StandsFor(t, q, r) ==> Calm(t, r, After(s), allowed)
  }

  function Any(): Path -> bool {
    q => true
  }

  /** The search steps up from no parameter that has a value. */
  ghost predicate NeverUp(t: Doc, p: Path, s: string) {
    Calm(t, p, s, Any())
  }

  lemma {:induction false} ThroughIsCalm(t: Doc, p: Path, s: string, allowed: Path -> bool)
    requires Through(t, p, s, allowed) && NeverUp(t, p, s)
    ensures Calm(t, p, s, allowed)
    decreases |s|
  {
    if s != "" && Step(t, p, First(s)).Some? {
      forall r | StandsFor(t, Step(t, p, First(s)).value, r)
        ensures Calm(t, r, After(s), allowed)
      {
        ThroughIsCalm(t, r, After(s), allowed);
      }
    }
  }

  /** In an order, the search for a value stays below its parameter. */
  lemma ValueIsThrough(t: Doc, rank: Path -> nat, q: Path)
    requires Wf(t) && IsOrder(t, rank) && IsParam(t, q) && Value(t, q) != ""
    ensures Through(t, Start(q, Value(t, q)), Value(t, q), Below(rank, rank(q)))
  {
    var v := Value(t, q);
    NoChildren(t, q, First(v));
    assert Descends(t, rank, q);
    if First(v) == "" {
    } else if First(v) != ".." {
      assert SearchFrom(t, q, v, 0) == Missing;
      assert First("/" + v) == "" && After("/" + v) == v by { assert ("/" + v)[1..] == v; }
      PlainStandsForItself(t, []);
    }
  }

  // ----- A part of the new tree -----

  predicate SameKind(n: Node, m: Node) {
    && n.path == m.path && n.content.Param? == m.content.Param?
    && (n.content.Param? ==> (n.content.value == "" <==> m.content.value == ""))
  }

  /** The nodes of w are copies of the first nodes of t. */
  ghost predicate Part(t: Doc, w: Doc) {
    Wf(t) && Wf(w) && |w| <= |t| && forall i :: 0 <= i < |w| ==> SameKind(t[i], w[i])
  }

  lemma PartIndex(t: Doc, w: Doc, p: Path)
    requires Part(t, w) && Has(w, p)
    ensures Has(t, p) && Index(t, p) == Index(w, p)
    ensures IsParam(t, p) == IsParam(w, p) && (Value(t, p) == "" <==> Value(w, p) == "")
  {
    SameIndex(t[..|w|], w, p);
    IndexPrefix(t, |w|, p);
  }

  lemma PartStep(t: Doc, w: Doc, p: Path, first: string)
    requires Part(t, w) && Has(w, p) && Step(w, p, first).Some?
    ensures Step(t, p, first) == Step(w, p, first) && Has(w, Step(w, p, first).value)
  {
    var q := Step(w, p, first).value;
    if first == "" {
      AncestorsAreGroups(w, p, 0);
      assert p[..0] == [];
    } else if first == ".." {
      AncestorsAreGroups(w, p, |p| - 1);
    }
    PartIndex(t, w, q);
  }

  /** What is found is there. */
  lemma {:induction false} FoundHas(w: Doc, p: Path, s: string, n: nat, r: Path)
    requires Wf(w) && Has(w, p) && Search(w, p, s, n) == Found(r)
    ensures Has(w, r)
    decreases n, |s|, 4
  {
    if Value(w, p) == "" {
      SearchPlain(w, p, s, n);
      FromFoundHas(w, p, s, n, r);
    } else {
      SearchKnown(w, p, s, n);
      ValueFoundHas(w, p, s, n, r, SearchRef(w, p, Value(w, p), n - 1));
    }
  }

  lemma {:induction false} ValueFoundHas(w: Doc, p: Path, s: string, n: nat, r: Path, o: Outcome)
    requires Wf(w) && Has(w, p) && Search(w, p, s, n) == Found(r)
    requires Value(w, p) != "" && n > 0 && SearchRef(w, p, Value(w, p), n - 1) == o != Unknown
    ensures Has(w, r)
    decreases n, |s|, 3
  {
    if o.Missing? {
      SearchValue(w, p, s, n, Missing);
      FromFoundHas(w, p, s, n, r);
    } else {
      HandsToTarget(w, p, s, n, r, o.path);
      TargetFoundHas(w, p, s, n - 1, r, Value(w, p), o.path);
    }
  }

  lemma {:induction false} TargetFoundHas(w: Doc, p: Path, s: string, m: nat, r: Path, v: string, target: Path)
    requires Wf(w) && Has(w, p) && SearchRef(w, p, v, m) == Found(target) && Search(w, target, s, m) == Found(r)
    ensures Has(w, r)
    decreases m, |s| + |v| + 2, 0
  {
    RefFoundHas(w, p, v, m, target);
    FoundHas(w, target, s, m, r);
  }

  lemma HandsToTarget(w: Doc, p: Path, s: string, n: nat, r: Path, target: Path)
    requires Search(w, p, s, n) == Found(r)
    requires Value(w, p) != "" && n > 0 && SearchRef(w, p, Value(w, p), n - 1) == Found(target)
    ensures Search(w, target, s, n - 1) == Found(r)
  {
    SearchValue(w, p, s, n, Found(target));
  }

  lemma {:induction false} FromFoundHas(w: Doc, p: Path, s: string, n: nat, r: Path)
    requires Wf(w) && Has(w, p) && SearchFrom(w, p, s, n) == Found(r)
    ensures Has(w, r)
    decreases n, |s|, 0
  {
    if s != "" {
      assert Part(w, w);
      PartStep(w, w, p, First(s));
      FoundHas(w, Step(w, p, First(s)).value, After(s), n, r);
    }
  }

  lemma {:induction false} RefFoundHas(w: Doc, p: Path, v: string, n: nat, r: Path)
    requires Wf(w) && Has(w, p) && SearchRef(w, p, v, n) == Found(r)
    ensures Has(w, r)
    decreases n, |v| + 1, 2
  {
    if SearchFrom(w, p, v, n).Missing? {
      FromFoundHas(w, p, "/" + v, n, r);
    } else {
      FromFoundHas(w, p, v, n, r);
    }
  }

  // ----- What is found in a part stands for what is found in the original -----

  /** The outcome for q's value in the part. */
  ghost predicate GoodRef(t: Doc, rank: Path -> nat, q: Path, o: Outcome) {
    o != Unknown &&
    (o.Found? ==> SameEnd(t, q, o.path) && (Value(t, o.path) != "" ==> rank(o.path) < rank(q)))
  }

  ghost predicate Resolved(t: Doc, w: Doc, rank: Path -> nat, q: Path) {
    exists n :: GoodRef(t, rank, q, SearchRef(w, q, Value(w, q), n))
  }

  /** With a parameter, all lower ones are allowed. */
  ghost predicate Downward(rank: Path -> nat, allowed: Path -> bool) {
    forall a, b :: allowed(a) && rank(b) < rank(a) ==> allowed(b)
  }

  ghost predicate Setting(t: Doc, w: Doc, rank: Path -> nat, allowed: Path -> bool) {
    && Part(t, w) && IsOrder(t, rank) && Downward(rank, allowed)
    && forall q :: Value(w, q) != "" && allowed(q) ==> Resolved(t, w, rank, q)
  }

  /** What q stands for in the part stands in the original for what q stands for there. */
  lemma Entrance(t: Doc, w: Doc, rank: Path -> nat, allowed: Path -> bool, q: Path) returns (d: Path)
    requires Setting(t, w, rank, allowed) && Has(w, q) && (Value(t, q) != "" ==> allowed(q))
    ensures StandsFor(w, q, d) && Has(w, d) && SameEnd(t, q, d)
    ensures Value(t, d) != "" ==> allowed(d) && Value(t, q) != ""
  {
    PartIndex(t, w, q);
    d := q;
    if Value(w, q) == "" {
      TerminalStandsForItself(w, q);
    } else {
      assert Resolved(t, w, rank, q);
      var m :| GoodRef(t, rank, q, SearchRef(w, q, Value(w, q), m));
      if SearchRef(w, q, Value(w, q), m).Missing? {
        TerminalStandsForItself(w, q);
      } else {
        d := SearchRef(w, q, Value(w, q), m).path;
        StandsForTarget(w, q, m, d);
        RefFoundHas(w, q, Value(w, q), m, d);
      }
    }
  }

  /** The outcome of the search for s from p in the part. */
  ghost predicate Kept(t: Doc, allowed: Path -> bool, p: Path, s: string, o: Outcome) {
    o != Unknown &&
    (o.Found? ==> (forall r :: FromEndsAt(t, p, s, r) <==> StandsFor(t, o.path, r)) &&
                  (Value(t, o.path) != "" ==> allowed(o.path)))
  }

  ghost predicate KeptAt(t: Doc, allowed: Path -> bool, q: Path, s: string, o: Outcome) {
    o != Unknown &&
    (o.Found? ==> (forall r :: EndsAt(t, q, s, r) <==> StandsFor(t, o.path, r)) &&
                  (Value(t, o.path) != "" ==> allowed(o.path)))
  }

  lemma {:induction false} FromPart(t: Doc, w: Doc, rank: Path -> nat, allowed: Path -> bool, p: Path, s: string)
    returns (n: nat)
    requires Setting(t, w, rank, allowed) && Has(w, p) && s != "" && Calm(t, p, s, allowed)
    ensures Kept(t, allowed, p, s, SearchFrom(w, p, s, n))
    decreases |s|, 0
  {
    n := 0;
    if Step(w, p, First(s)).Some? {
      var q := Step(w, p, First(s)).value;
      PartStep(t, w, p, First(s));
      n := EnterPart(t, w, rank, allowed, q, After(s));
      EndsAsStepped(t, p, s, q);
    }
  }

  lemma {:induction false} EnterPart(t: Doc, w: Doc, rank: Path -> nat, allowed: Path -> bool, q: Path, s: string)
    returns (n: nat)
    requires Setting(t, w, rank, allowed) && Has(w, q) && (Value(t, q) != "" ==> allowed(q) && First(s) != "..")
    requires forall r :: StandsFor(t, q, r) ==> Calm(t, r, s, allowed)
    ensures KeptAt(t, allowed, q, s, Search(w, q, s, n))
    decreases |s|, 2
  {
    var d := Entrance(t, w, rank, allowed, q);
    if s == "" {
      n :| Search(w, q, "", n) == Found(d);
      NothingLeft(t, allowed, q, d);
    } else if Value(t, d) == "" {
      PlainStandsForItself(t, d);
      var k := FromPart(t, w, rank, allowed, d, s);
      n := EnteredAs(w, q, d, s, k);
      EndsAsEntered(t, q, d, s);
    } else {
      n := BeyondPart(t, w, rank, allowed, q, d, s);
    }
  }

  lemma NothingLeft(t: Doc, allowed: Path -> bool, q: Path, d: Path)
    requires SameEnd(t, q, d) && (Value(t, d) != "" ==> allowed(d))
    ensures KeptAt(t, allowed, q, "", Found(d))
  {
    forall r
      ensures EndsAt(t, q, "", r) <==> StandsFor(t, q, r)
    {
    }
  }

  /** The search meets a parameter whose target is not in the part: it has no children, so only the root is left. */
  lemma {:induction false} BeyondPart(t: Doc, w: Doc, rank: Path -> nat, allowed: Path -> bool, q: Path, d: Path, s: string)
    returns (n: nat)
    requires Setting(t, w, rank, allowed) && Has(w, q) && s != "" && First(s) != ".."
    requires forall r :: StandsFor(t, q, r) ==> Calm(t, r, s, allowed)
    requires StandsFor(w, q, d) && Has(w, d) && Value(t, d) != ""
    ensures KeptAt(t, allowed, q, s, Search(w, q, s, n))
    decreases |s|, 1
  {
    PartIndex(t, w, d);
    NoChildren(w, d, First(s));
    if First(s) == "" {
      PartIndex(t, w, []);
      var e := StandsForSome(t, rank, q);
      PlainStandsForItself(t, []);
      var k := EnterPart(t, w, rank, allowed, [], After(s));
      n := EnteredAs(w, q, d, s, k);
      EndsAsEntered(t, q, e, s);
      EndsAsStepped(t, e, s, []);
    } else {
      n := EnteredAs(w, q, d, s, 0);
    }
  }
}
