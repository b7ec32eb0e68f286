/**
 Searching the whole configuration tree, as the code does (base/include/grl/configurable.h, base/src/configurable.cpp).
 A parameter hands a search on to what its value names, wherever that is in the tree, so a search may run for ever.
 If every reference's search stays among the nodes before its parameter, all searches end.
 */
module ConfigSearch {
  import opened Options
  import opened ConfigTree
  import opened ConfigCopy

  /** What is known of a search after looking up a number of nested references. */
  datatype Outcome = Unknown | Missing | Found(path: Path)

  function Outcomes(r: Option<Path>): Outcome {
    match r
    case None => Missing
    case Some(p) => Found(p)
  }

  /** The value of the parameter at this path; empty if there is no such parameter. */
  function Value(t: Doc, p: Path): string {
    var i := Index(t, p);
    if i < |t| && t[i].content.Param? then t[i].content.value else ""
  }

  /** The virtual `find`, with n nested references looked up at most. */
  function Search(t: Doc, p: Path, s: string, n: nat): Outcome
    decreases n, |s|, 1
  {
    if Value(t, p) == "" then SearchFrom(t, p, s, n)
    else if n == 0 then Unknown
    else
      match SearchRef(t, p, Value(t, p), n - 1)
      case Unknown => Unknown
      case Missing => SearchFrom(t, p, s, n)
      case Found(r) => Search(t, r, s, n - 1)
  }

  /** Where the first name of a path leads from p: to the root, to the parent or to the child with this name. */
  function Step(t: Doc, p: Path, first: string): Option<Path> {
    if first == "" then Some([])
    else if first == ".." then if p == [] then None else Some(Parent(p))
    else if Has(t, p + [first]) then Some(p + [first])
    else None
  }

  /** `Configurator::find` */
  function SearchFrom(t: Doc, p: Path, s: string, n: nat): Outcome
    decreases n, |s|, 0
  {
    if s == "" then Found(p)
    else
      match Step(t, p, First(s))
      case None => Missing
      case Some(next) => Search(t, next, After(s), n)
  }

  /** `ParameterConfigurator::resolve` of a parameter in the tree. */
  function SearchRef(t: Doc, p: Path, id: string, n: nat): Outcome
    decreases n, |id| + 1, 2
  {
    match SearchFrom(t, p, id, n)
    case Unknown => Unknown
    case Missing => SearchFrom(t, p, "/" + id, n)
    case Found(r) => Found(r)
  }

  /** `resolve` with a parent: the parameter itself is not yet in the new tree. */
  function SearchNewRef(t: Doc, p: Path, id: string, n: nat): Outcome
    requires p != []
  {
    match Search(t, Parent(p), p[|p| - 1] + "/" + id, n)
    case Unknown => Unknown
    case Missing => Search(t, Parent(p), "/" + id, n)
    case Found(r) => Found(r)
  }

  // ----- More nested references change no outcome -----

  /** A node without a value is searched itself. */
  lemma SearchPlain(t: Doc, p: Path, s: string, n: nat)
    requires Value(t, p) == ""
    ensures Search(t, p, s, n) == SearchFrom(t, p, s, n)
  {
  }

  /** A node with a value is searched as its reference says. */
  lemma SearchValue(t: Doc, p: Path, s: string, n: nat, o: Outcome)
    requires Value(t, p) != "" && n > 0 && SearchRef(t, p, Value(t, p), n - 1) == o
    ensures o.Unknown? ==> Search(t, p, s, n) == Unknown
    ensures o.Missing? ==> Search(t, p, s, n) == SearchFrom(t, p, s, n)
    ensures o.Found? ==> Search(t, p, s, n) == Search(t, o.path, s, n - 1)
  {
  }

  /** Without fuel a reference is not looked up, and a reference that is not known gives nothing. */
  lemma SearchKnown(t: Doc, p: Path, s: string, n: nat)
    requires Value(t, p) != "" && Search(t, p, s, n) != Unknown
    ensures n > 0 && SearchRef(t, p, Value(t, p), n - 1) != Unknown
  {
  }

  lemma {:induction false} SearchStays(t: Doc, p: Path, s: string, n: nat, m: nat)
    requires n <= m && Search(t, p, s, n) != Unknown
    ensures Search(t, p, s, m) == Search(t, p, s, n)
    decreases n, |s|, 3
  {
    if Value(t, p) == "" {
      PlainStays(t, p, s, n, m);
    } else {
      SearchKnown(t, p, s, n);
      ValueStays(t, p, s, n, m, Value(t, p), SearchRef(t, p, Value(t, p), n - 1));
    }
  }

  lemma {:induction false} PlainStays(t: Doc, p: Path, s: string, n: nat, m: nat)
    requires n <= m && Value(t, p) == "" && Search(t, p, s, n) != Unknown
    ensures Search(t, p, s, m) == Search(t, p, s, n)
    decreases n, |s|, 2
  {
    SearchPlain(t, p, s, n);
    SearchPlain(t, p, s, m);
    SearchFromStays(t, p, s, n, m);
  }

  lemma {:induction false} ValueStays(t: Doc, p: Path, s: string, n: nat, m: nat, v: string, ref: Outcome)
    requires 0 < n <= m && v == Value(t, p) != "" && Search(t, p, s, n) != Unknown
    requires SearchRef(t, p, v, n - 1) == ref != Unknown
    ensures Search(t, p, s, m) == Search(t, p, s, n)
    decreases n, |s|, 2
  {
    SearchRefStays(t, p, v, n - 1, m - 1);
    if ref.Missing? {
      MissingStays(t, p, s, n, m);
    } else {
      FoundStays(t, p, s, n, m, ref.path);
    }
  }

  lemma {:induction false} MissingStays(t: Doc, p: Path, s: string, n: nat, m: nat)
    requires 0 < n <= m && Value(t, p) != "" && Search(t, p, s, n) != Unknown
    requires SearchRef(t, p, Value(t, p), n - 1) == SearchRef(t, p, Value(t, p), m - 1) == Missing
    ensures Search(t, p, s, m) == Search(t, p, s, n)
    decreases n, |s|, 1
  {
    SearchValue(t, p, s, n, Missing);
    SearchFromStays(t, p, s, n, m);
    SearchValue(t, p, s, m, Missing);
  }

  lemma {:induction false} FoundStays(t: Doc, p: Path, s: string, n: nat, m: nat, r: Path)
    requires 0 < n <= m && Value(t, p) != "" && Search(t, p, s, n) != Unknown
    requires SearchRef(t, p, Value(t, p), n - 1) == SearchRef(t, p, Value(t, p), m - 1) == Found(r)
    ensures Search(t, p, s, m) == Search(t, p, s, n)
    decreases n, |s|, 1
  {
    SearchValue(t, p, s, n, Found(r));
    SearchStays(t, r, s, n - 1, m - 1);
    SearchValue(t, p, s, m, Found(r));
  }

  lemma {:induction false} SearchFromStays(t: Doc, p: Path, s: string, n: nat, m: nat)
    requires n <= m && SearchFrom(t, p, s, n) != Unknown
    ensures SearchFrom(t, p, s, m) == SearchFrom(t, p, s, n)
    decreases n, |s|, 0
  {
    if s != "" {
      match Step(t, p, First(s))
      case None =>
      case Some(next) => SearchStays(t, next, After(s), n, m);
    }
  }

  lemma {:induction false} SearchRefStays(t: Doc, p: Path, id: string, n: nat, m: nat)
    requires n <= m && SearchRef(t, p, id, n) != Unknown
    ensures SearchRef(t, p, id, m) == SearchRef(t, p, id, n)
    decreases n, |id| + 1, 2
  {
    SearchFromStays(t, p, id, n, m);
    if SearchFrom(t, p, id, n).Missing? {
      SearchFromStays(t, p, "/" + id, n, m);
    }
  }

  // ----- References that look back -----

  /** The node's own search ends at r. */
  ghost predicate StandsFor(t: Doc, p: Path, r: Path) {
    exists n :: Search(t, p, "", n) == Found(r)
  }

  /** The search for s from p, wherever its references lead, steps only on nodes before position b. */
  ghost predicate Passes(t: Doc, p: Path, s: string, b: nat)
    decreases |s|
  {
    if s == "" then true
    else if First(s) == "" then Passes(t, [], After(s), b)
    else if First(s) == ".." then p != [] ==> Passes(t, Parent(p), After(s), b)
    else
      var child := p + [First(s)];
      Has(t, child) ==>
        Index(t, child) < b && forall r :: StandsFor(t, child, r) ==> Passes(t, r, After(s), b)
  }

  /** Both attempts to resolve a reference of the node at position i. */
  ghost predicate PassesRef(t: Doc, i: nat, id: string)
    requires i < |t|
  {
    id != "" ==> Passes(t, t[i].path, id, i) && Passes(t, t[i].path, "/" + id, i)
  }

  ghost function PassesRefs(t: Doc, i: nat): string -> bool
    requires i < |t|
  {
    id => PassesRef(t, i, id)
  }

  /** All searches for a parameter, for its references and for its value as a whole, stay before it. */
  ghost predicate NodeLooksBack(t: Doc, i: nat)
    requires i < |t|
  {
    t[i].content.Param? ==>
      AllIds(PassesRefs(t, i), "", t[i].content.value) && PassesRef(t, i, t[i].content.value)
  }

  ghost predicate LooksBackTo(t: Doc, k: nat)
    requires k <= |t|
  {
    forall i :: 0 <= i < k ==> NodeLooksBack(t, i)
  }

  ghost predicate LooksBack(t: Doc) {
    LooksBackTo(t, |t|)
  }

  // ----- Then the search of the whole tree is the search among earlier nodes -----

  /** The whole-tree search for the value of this node ends, where the search among earlier nodes does. */
  ghost predicate Settled(t: Doc, i: nat)
    requires i < |t|
  {
    t[i].content.Param? && t[i].content.value != "" ==>
      exists n :: SearchRef(t, t[i].path, t[i].content.value, n) ==
                  Outcomes(Resolve(t[..i], t[i].path, t[i].content.value))
  }

  ghost predicate SettledTo(t: Doc, b: nat)
    requires b <= |t|
  {
    forall i :: 0 <= i < b ==> Settled(t, i)
  }

  lemma HandedOn(t: Doc, p: Path, s: string, m: nat, r: Path, l: nat, o: Outcome) returns (n: nat)
    requires Value(t, p) != "" && SearchRef(t, p, Value(t, p), m) == Found(r) && Search(t, r, s, l) == o != Unknown
    ensures Search(t, p, s, n) == o
  {
    var k := l + m;
    SearchRefStays(t, p, Value(t, p), m, k);
    SearchStays(t, r, s, l, k);
    n := k + 1;
    SearchValue(t, p, s, n, Found(r));
  }

  lemma NotHandedOn(t: Doc, p: Path, s: string, m: nat, k: nat) returns (n: nat)
    requires Value(t, p) != "" && SearchRef(t, p, Value(t, p), m) == Missing && SearchFrom(t, p, s, k) != Unknown
    ensures Search(t, p, s, n) == SearchFrom(t, p, s, k)
  {
    n := k + m + 1;
    SearchRefStays(t, p, Value(t, p), m, k + m);
    SearchValue(t, p, s, n, Missing);
    SearchFromStays(t, p, s, k, n);
  }

  lemma SettledAt(t: Doc, b: nat, i: nat) returns (m: nat)
    requires i < b <= |t| && SettledTo(t, b) && t[i].content.Param? && t[i].content.value != ""
    ensures SearchRef(t, t[i].path, t[i].content.value, m) ==
            Outcomes(Resolve(t[..i], t[i].path, t[i].content.value))
  {
    assert Settled(t, i);
    m :| SearchRef(t, t[i].path, t[i].content.value, m) ==
         Outcomes(Resolve(t[..i], t[i].path, t[i].content.value));
  }

  lemma NamesNothing(t: Doc, p: Path, b: nat) returns (m: nat)
    requires Wf(t) && b <= |t| && SettledTo(t, b) && Index(t, p) < b && Deref(t, p) == p && Value(t, p) != ""
    ensures SearchRef(t, p, Value(t, p), m) == Missing
  {
    var i := Index(t, p);
    m := SettledAt(t, b, i);
    NoSelfReference(t, i);
  }

  /** A node that stands for itself is searched like a plain one. */
  lemma EnterTerminal(t: Doc, p: Path, s: string, b: nat, k: nat) returns (n: nat)
    requires Wf(t) && b <= |t| && SettledTo(t, b)
    requires (Has(t, p) ==> Index(t, p) < b) && Deref(t, p) == p && SearchFrom(t, p, s, k) != Unknown
    ensures Search(t, p, s, n) == SearchFrom(t, p, s, k)
  {
    if Value(t, p) == "" {
      n := k;
      SearchPlain(t, p, s, k);
    } else {
      var m := NamesNothing(t, p, b);
      n := NotHandedOn(t, p, s, m, k);
    }
  }

  /** A parameter that stands for itself names nothing. */
  lemma NoSelfReference(t: Doc, i: nat)
    requires Wf(t) && i < |t| && t[i].content.Param? && t[i].content.value != "" && Deref(t, t[i].path) == t[i].path
    ensures Resolve(t[..i], t[i].path, t[i].content.value).None?
  {
    var p, v := t[i].path, t[i].content.value;
    if Resolve(t[..i], p, v).Some? {
      NodeIsRooted(t, i);
      WfPrefix(t, i);
      ResolveTerminal(t[..i], p, v);
    }
  }

  /** Any other node has a value that names what it stands for. */
  lemma NamesTarget(t: Doc, p: Path, b: nat) returns (m: nat)
    requires Wf(t) && b <= |t| && SettledTo(t, b) && Index(t, p) < b && Deref(t, p) != p
    ensures Value(t, p) != "" && SearchRef(t, p, Value(t, p), m) == Found(Deref(t, p))
  {
    m := SettledAt(t, b, Index(t, p));
  }

  lemma EnterNode(t: Doc, p: Path, s: string, b: nat, k: nat) returns (n: nat)
    requires Wf(t) && b <= |t| && SettledTo(t, b) && Has(t, p) && Index(t, p) < b
    requires SearchFrom(t, Deref(t, p), s, k) != Unknown
    ensures Search(t, p, s, n) == SearchFrom(t, Deref(t, p), s, k)
  {
    if Deref(t, p) == p {
      n := EnterTerminal(t, p, s, b, k);
    } else {
      n := EnterTarget(t, p, Deref(t, p), s, b, k, SearchFrom(t, Deref(t, p), s, k));
    }
  }

  lemma EnterTarget(t: Doc, p: Path, r: Path, s: string, b: nat, k: nat, o: Outcome) returns (n: nat)
    requires Wf(t) && b <= |t| && SettledTo(t, b) && Has(t, p) && Index(t, p) < b && r == Deref(t, p) != p
    requires SearchFrom(t, r, s, k) == o != Unknown
    ensures Search(t, p, s, n) == o
  {
    var m := NamesTarget(t, p, b);
    TargetIsTerminal(t, p, r);
    var l := EnterTerminal(t, r, s, b, k);
    n := HandedOn(t, p, s, m, r, l, o);
  }

  lemma TargetIsTerminal(t: Doc, p: Path, r: Path)
    requires Wf(t) && Has(t, p) && r == Deref(t, p) != p
    ensures Has(t, r) && Index(t, r) < Index(t, p) && Deref(t, r) == r
  {
    DerefTerminal(t, p);
    TargetIsEarlier(t, Index(t, p));
  }

  lemma TargetIsEarlier(t: Doc, i: nat)
    requires Wf(t) && i < |t| && Deref(t, t[i].path) != t[i].path
    ensures Has(t, Deref(t, t[i].path)) && Index(t, Deref(t, t[i].path)) < i
  {
    var p, r := t[i].path, Deref(t, t[i].path);
    WfPrefix(t, i);
    NodeIsRooted(t, i);
    ResolveTerminal(t[..i], p, t[i].content.value);
    assert p[..0] == [] && IsGroup(t[..i], p[..0]);
    IndexPrefix(t, i, r);
  }

  /** Groups stand for themselves. */
  lemma EnterGroup(t: Doc, p: Path, s: string, n: nat)
    requires IsGroup(t, p)
    ensures Search(t, p, s, n) == SearchFrom(t, p, s, n) && Deref(t, p) == p
  {
  }

  /** The search for s from p as ConfigTree has it, in the whole tree and among the first b nodes. */
  lemma {:induction false} WalkEnds(t: Doc, p: Path, s: string, b: nat) returns (n: nat)
    requires Wf(t) && b <= |t| && SettledTo(t, b) && Rooted(t[..b], p) && Passes(t, p, s, b)
    ensures SearchFrom(t, p, s, n) == Outcomes(Find(t, p, s)) && Find(t[..b], p, s) == Find(t, p, s)
    decreases |s|, 1
  {
    WfPrefix(t, b);
    RootedPrefix(t, b, p);
    if s == "" {
      n := 0;
    } else if First(s) == "" {
      n := WalkOn(t, [], After(s), b);
    } else if First(s) == ".." {
      if p == [] {
        n := 0;
      } else {
        ParentRooted(t[..b], p);
        n := WalkOn(t, Parent(p), After(s), b);
      }
    } else {
      n := WalkDown(t, p, s, b);
    }
  }

  lemma {:induction false} WalkOn(t: Doc, p: Path, s: string, b: nat) returns (n: nat)
    requires Wf(t) && b <= |t| && SettledTo(t, b) && Rooted(t[..b], p) && Passes(t, p, s, b)
    requires !Has(t, p) || IsGroup(t, p)
    ensures Search(t, p, s, n) == Outcomes(Find(t, p, s)) && Find(t[..b], p, s) == Find(t, p, s)
    decreases |s|, 2
  {
    n := WalkEnds(t, p, s, b);
  }

  lemma {:induction false} WalkDown(t: Doc, p: Path, s: string, b: nat) returns (n: nat)
    requires Wf(t) && b <= |t| && SettledTo(t, b) && Rooted(t[..b], p) && Passes(t, p, s, b)
    requires s != "" && First(s) != "" && First(s) != ".."
    ensures SearchFrom(t, p, s, n) == Outcomes(Find(t, p, s)) && Find(t[..b], p, s) == Find(t, p, s)
    decreases |s|, 0
  {
    var child := p + [First(s)];
    IndexPrefix(t, b, child);
    n := 0;
    if Has(t, child) {
      var r := EnterChild(t, child, After(s), b);
      var k := WalkEnds(t, r, After(s), b);
      n := EnterNode(t, child, After(s), b, k);
    }
  }

  /** What an earlier node stands for, and that the search goes on there. */
  lemma EnterChild(t: Doc, child: Path, rest: string, b: nat) returns (r: Path)
    requires Wf(t) && b <= |t| && SettledTo(t, b) && Has(t, child) && Index(t, child) < b
    requires forall r' :: StandsFor(t, child, r') ==> Passes(t, r', rest, b)
    ensures r == Deref(t, child) == Deref(t[..b], child) && Has(t[..b], child)
    ensures StandsFor(t, child, r) && Rooted(t[..b], r) && Passes(t, r, rest, b)
  {
    r := Deref(t, child);
    IndexPrefix(t, b, child);
    DerefPrefix(t, b, child);
    WfPrefix(t, b);
    DerefTerminal(t[..b], child);
    var n := EnterNode(t, child, "", b, 0);
    assert Search(t, child, "", n) == Found(r);
  }

  // ----- All searches end -----

  /** If every search made for the first parameters stays before them, it ends where the search among earlier nodes does. */
  lemma {:induction false} SearchesEnd(t: Doc, k: nat)
    requires Wf(t) && k <= |t| && LooksBackTo(t, k)
    ensures SettledTo(t, k)
  {
    if k > 0 {
      SearchesEnd(t, k - 1);
      LastSettles(t, k - 1);
    }
  }

  lemma LastSettles(t: Doc, i: nat)
    requires Wf(t) && i < |t| && SettledTo(t, i) && NodeLooksBack(t, i)
    ensures Settled(t, i)
  {
    if t[i].content.Param? && t[i].content.value != "" {
      var n := ReferenceEnds(t, i, t[i].content.value);
    }
  }

  /** A reference whose search looks back is resolved in the whole tree as it is among the nodes before its holder. */
  lemma ReferenceEnds(t: Doc, i: nat, id: string) returns (n: nat)
    requires Wf(t) && i < |t| && SettledTo(t, i) && id != "" && PassesRef(t, i, id)
    ensures SearchRef(t, t[i].path, id, n) == Outcomes(Resolve(t, t[i].path, id))
    ensures Resolve(t, t[i].path, id) == Resolve(t[..i], t[i].path, id)
  {
    var p := t[i].path;
    NodeIsRooted(t, i);
    var k := WalkEnds(t, p, id, i);
    var m := WalkEnds(t, p, "/" + id, i);
    SlashFirst(t, p, id);
    SlashFirst(t[..i], p, id);
    n := BothAttempts(t, p, id, k, m);
    ResolveIs(t, p, id);
    ResolveIs(t[..i], p, id);
  }

  lemma ResolveIs(t: Doc, p: Path, id: string)
    ensures Resolve(t, p, id) == if Find(t, p, id).Some? then Find(t, p, id) else Find(t, [], id)
  {
  }

  lemma BothAttempts(t: Doc, p: Path, id: string, k: nat, m: nat) returns (n: nat)
    requires SearchFrom(t, p, id, k) != Unknown && SearchFrom(t, p, "/" + id, m) != Unknown
    ensures SearchRef(t, p, id, n) ==
            if SearchFrom(t, p, id, k).Found? then SearchFrom(t, p, id, k) else SearchFrom(t, p, "/" + id, m)
  {
    n := k + m;
    SearchFromStays(t, p, id, k, n);
    SearchFromStays(t, p, "/" + id, m, n);
  }

  lemma SlashFirst(t: Doc, p: Path, id: string)
    ensures Find(t, p, "/" + id) == Find(t, [], id)
  {
    assert First("/" + id) == "" && After("/" + id) == id by {
      assert ("/" + id)[1..] == id;
    }
  }

  /** In the whole tree nothing is out of reach. */
  lemma {:induction false} EverythingPasses(t: Doc, p: Path, s: string)
    ensures Passes(t, p, s, |t|)
    decreases |s|
  {
    if s != "" {
      if First(s) == "" {
        EverythingPasses(t, [], After(s));
      } else if First(s) == ".." {
        if p != [] {
          EverythingPasses(t, Parent(p), After(s));
        }
      } else {
        forall r | StandsFor(t, p + [First(s)], r)
          ensures Passes(t, r, After(s), |t|)
        {
          EverythingPasses(t, r, After(s));
        }
      }
    }
  }

  /**
   If the references look back, every search from every node ends, and finds in the whole tree what the definition by
   earlier nodes finds.
   */
  lemma SearchIsFind(t: Doc, p: Path, s: string) returns (n: nat)
    requires Wf(t) && LooksBack(t) && Has(t, p)
    ensures Search(t, p, s, n) == Outcomes(Find(t, Deref(t, p), s))
  {
    SearchesEnd(t, |t|);
    assert t[..|t|] == t;
    DerefTerminal(t, p);
    EverythingPasses(t, Deref(t, p), s);
    var k := WalkEnds(t, Deref(t, p), s, |t|);
    n := EnterNode(t, p, s, |t|, k);
  }

  lemma NewRefEnds(t: Doc, p: Path, id: string) returns (n: nat)
    requires Wf(t) && LooksBack(t) && p != [] && IsGroup(t, Parent(p))
    ensures SearchNewRef(t, p, id, n) == Outcomes(ResolveIn(t, p, id))
  {
    var first, second := p[|p| - 1] + "/" + id, "/" + id;
    EnterGroup(t, Parent(p), "", 0);
    var k := SearchIsFind(t, Parent(p), first);
    var m := SearchIsFind(t, Parent(p), second);
    n := k + m;
    SearchStays(t, Parent(p), first, k, n);
    SearchStays(t, Parent(p), second, m, n);
  }

  /** What a node stands for is what its own search ends at. */
  lemma StandsForIsDeref(t: Doc, p: Path, r: Path)
    requires Wf(t) && LooksBack(t) && Has(t, p)
    ensures StandsFor(t, p, r) <==> r == Deref(t, p)
  {
    var n := SearchIsFind(t, p, "");
    StandsForOne(t, p, Deref(t, p), n);
  }

  lemma StandsForOne(t: Doc, p: Path, d: Path, n: nat)
    requires Search(t, p, "", n) == Found(d)
    ensures forall r :: StandsFor(t, p, r) <==> r == d
  {
    forall r | StandsFor(t, p, r)
      ensures r == d
    {
      var m :| Search(t, p, "", m) == Found(r);
      SearchStays(t, p, "", n, n + m);
      SearchStays(t, p, "", m, n + m);
    }
  }

  // ----- A search that never ends -----

  /** Two parameters that need each other; the second one is behind the first. */
  const LOOP: Doc := [Node([], Group), Node(["i"], Param("x/y")), Node(["x"], Param("i"))]

  lemma LoopIndex(p: Path)
    ensures Index(LOOP, p) == if p == [] then 0 else if p == ["i"] then 1 else if p == ["x"] then 2 else 3
  {
    var t1, t2 := LOOP[..2], LOOP[..1];
    assert t1[..1] == t2 && t2[..0] == [];
    assert Index(t2, p) == if p == [] then 0 else 1;
    assert Index(t1, p) == if p == [] then 0 else if p == ["i"] then 1 else 2;
    assert LOOP[..|LOOP| - 1] == t1;
  }

  lemma NameOnly(name: string)
    requires '/' !in name && name != ""
    ensures First(name) == name && After(name) == "" && First("/" + name) == "" && After("/" + name) == name
  {
    FirstOfName(name, "");
    assert ("/" + name)[1..] == name;
  }

  lemma LoopTexts()
    ensures First("x/y") == "x" && After("x/y") == "y" && First("/x/y") == "" && After("/x/y") == "x/y"
    ensures First("i") == "i" && After("i") == "" && First("/i") == "" && After("/i") == "i"
  {
    NameOnly("i");
    FirstOfName("x", "y");
    assert "x" + "/" + "y" == "x/y";
    assert "/x/y"[1..] == "x/y";
  }

  lemma LoopValues()
    ensures Value(LOOP, []) == "" && Value(LOOP, ["i"]) == "x/y" && Value(LOOP, ["x"]) == "i"
    ensures Has(LOOP, ["i"]) && Has(LOOP, ["x"]) && !Has(LOOP, ["i"] + ["x"]) && !Has(LOOP, ["x"] + ["i"])
  {
    LoopIndex([]);
    LoopIndex(["i"]);
    LoopIndex(["x"]);
    LoopIndex(["i"] + ["x"]);
    LoopIndex(["x"] + ["i"]);
  }

  /** Looking up "x/y" from i, and again from the root, needs the search from x. */
  lemma LoopRef(n: nat)
    requires Search(LOOP, ["x"], "y", n) == Unknown
    ensures SearchRef(LOOP, ["i"], "x/y", n) == Unknown
  {
    LoopTexts();
    LoopValues();
    assert "/" + "x/y" == "/x/y" && [] + ["x"] == ["x"];
    assert SearchFrom(LOOP, ["i"], "x/y", n) == Missing;
    SearchPlain(LOOP, [], "x/y", n);
  }

  /** Looking up "i" from x, and again from the root, needs the search from i. */
  lemma LoopBackRef(n: nat)
    requires Search(LOOP, ["i"], "", n) == Unknown
    ensures SearchRef(LOOP, ["x"], "i", n) == Unknown
  {
    LoopTexts();
    LoopValues();
    assert "/" + "i" == "/i" && [] + ["i"] == ["i"];
    assert SearchFrom(LOOP, ["x"], "i", n) == Missing;
    SearchPlain(LOOP, [], "i", n);
  }

  /** The source's `find` on this tree never returns, however many nested references are looked up. */
  lemma {:induction false} LoopNeverEnds(s: string, n: nat)
    ensures Search(LOOP, ["i"], s, n) == Unknown
    decreases n, 0
  {
    LoopValues();
    if n > 0 {
      LoopBack("y", n - 1);
      LoopRef(n - 1);
      SearchValue(LOOP, ["i"], s, n, Unknown);
    }
  }

  lemma {:induction false} LoopBack(s: string, n: nat)
    ensures Search(LOOP, ["x"], s, n) == Unknown
    decreases n, 1
  {
    LoopValues();
    if n > 0 {
      LoopNeverEnds("", n - 1);
      LoopBackRef(n - 1);
      SearchValue(LOOP, ["x"], s, n, Unknown);
    }
  }

  lemma LoopIsInOrder()
    ensures Wf(LOOP)
  {
    LoopIndex([]);
    LoopIndex(["i"]);
    LoopIndex(["x"]);
    assert Parent(["i"]) == [] == Parent(["x"]);
    assert LOOP[..1] == [Node([], Group)];
    IndexPrefix(LOOP, 2, []);
  }

  /** The tree is otherwise in order; its first reference does not look back. */
  lemma LoopLooksAhead()
    ensures Wf(LOOP) && !LooksBack(LOOP)
  {
    LoopIsInOrder();
    LoopTexts();
    LoopIndex(["x"]);
    assert [] + ["x"] == ["x"] && "/" + "x/y" == "/x/y";
    assert !Passes(LOOP, [], "x/y", 1);
    assert !NodeLooksBack(LOOP, 1);
  }
}
