/**
 Exactly when all searches of a configuration tree end: when its parameters can be ordered so that the search for the
 value of each one only comes through parameters that are lower in this order.
 */
module ConfigOrder {
  import opened Options
  import opened ConfigTree
  import opened ConfigSearch

  /** Every search from every node ends. */
  ghost predicate AllSearchesEnd(t: Doc) {
    forall p: Path, s: string :: Has(t, p) ==> Ends(t, p, s)
  }

  ghost predicate Ends(t: Doc, p: Path, s: string) {
    exists n :: Search(t, p, s, n) != Unknown
  }

  /** The reference that is the value of this parameter is resolved at some depth. */
  ghost predicate Resolves(t: Doc, q: Path) {
    exists n :: SearchRef(t, q, Value(t, q), n) != Unknown
  }

  /** The first attempt to resolve the value finds nothing, so that there is a second one from the root. */
  ghost predicate TriesRoot(t: Doc, q: Path) {
    exists n :: SearchFrom(t, q, Value(t, q), n) == Missing
  }

  /** The search for s from p comes only through parameters that are allowed. */
  ghost predicate Through(t: Doc, p: Path, s: string, allowed: Path -> bool)
    decreases |s|
  {
    if s == "" then true
    else
      match Step(t, p, First(s))
      case None => true
      case Some(q) =>
        (Value(t, q) != "" ==> allowed(q)) && forall r :: StandsFor(t, q, r) ==> Through(t, r, After(s), allowed)
  }

  ghost function Below(rank: Path -> nat, b: nat): Path -> bool {
    q => rank(q) < b
  }

  /** The search for the value of q stays below it. */
  ghost predicate Descends(t: Doc, rank: Path -> nat, q: Path) {
    && Through(t, q, Value(t, q), Below(rank, rank(q)))
    && (TriesRoot(t, q) ==> Through(t, q, "/" + Value(t, q), Below(rank, rank(q))))
  }

  /** This is such an order. */
  ghost predicate IsOrder(t: Doc, rank: Path -> nat) {
    forall q :: Value(t, q) != "" ==> Descends(t, rank, q)
  }

  // ----- In such an order all searches end -----

  /** The node has no value, or one that names nothing. */
  ghost predicate Terminal(t: Doc, r: Path) {
    Value(t, r) == "" || exists m :: SearchRef(t, r, Value(t, r), m) == Missing
  }

  /** What a search ends at is terminal. */
  lemma {:induction false} EndsAtTerminal(t: Doc, p: Path, s: string, n: nat, r: Path)
    requires Search(t, p, s, n) == Found(r)
    ensures Terminal(t, r)
    decreases n, |s|, 1
  {
    if Value(t, p) == "" {
      SearchPlain(t, p, s, n);
      if s != "" {
        FromEndsAtTerminal(t, p, s, n, r);
      }
    } else {
      SearchKnown(t, p, s, n);
      var o := SearchRef(t, p, Value(t, p), n - 1);
      SearchValue(t, p, s, n, o);
      if o.Found? {
        EndsAtTerminal(t, o.path, s, n - 1, r);
      } else if s != "" {
        FromEndsAtTerminal(t, p, s, n, r);
      }
    }
  }

  lemma {:induction false} FromEndsAtTerminal(t: Doc, p: Path, s: string, n: nat, r: Path)
    requires s != "" && SearchFrom(t, p, s, n) == Found(r)
    ensures Terminal(t, r)
    decreases n, |s|, 0
  {
    EndsAtTerminal(t, Step(t, p, First(s)).value, After(s), n, r);
  }

  lemma RefEndsAtTerminal(t: Doc, q: Path, v: string, n: nat, r: Path)
    requires v != "" && SearchRef(t, q, v, n) == Found(r)
    ensures Terminal(t, r)
  {
    if SearchFrom(t, q, v, n) == Missing {
      FromEndsAtTerminal(t, q, "/" + v, n, r);
    } else {
      FromEndsAtTerminal(t, q, v, n, r);
    }
  }

  /** A terminal node is searched itself. */
  lemma TerminalSearch(t: Doc, r: Path, s: string, k: nat) returns (n: nat)
    requires Terminal(t, r)
    requires SearchFrom(t, r, s, k) != Unknown
    ensures Search(t, r, s, n) == SearchFrom(t, r, s, k)
  {
    if Value(t, r) == "" {
      n := k;
      SearchPlain(t, r, s, k);
    } else {
      var m :| SearchRef(t, r, Value(t, r), m) == Missing;
      n := NotHandedOn(t, r, s, m, k);
    }
  }

  lemma TerminalStandsForItself(t: Doc, r: Path)
    requires Terminal(t, r)
    ensures StandsFor(t, r, r)
  {
    var n := TerminalSearch(t, r, "", 0);
  }

  /** What is found by a reference is what its parameter stands for. */
  lemma StandsForTarget(t: Doc, q: Path, m: nat, r: Path)
    requires Value(t, q) != "" && SearchRef(t, q, Value(t, q), m) == Found(r)
    ensures StandsFor(t, q, r)
  {
    RefEndsAtTerminal(t, q, Value(t, q), m, r);
    var l := TerminalSearch(t, r, "", 0);
    var n := HandedOn(t, q, "", m, r, l, Found(r));
  }

  /** A search through parameters that are all resolved ends. */
  lemma {:induction false} FromEnds(t: Doc, p: Path, s: string, allowed: Path -> bool) returns (n: nat)
    requires forall q :: Value(t, q) != "" && allowed(q) ==> Resolves(t, q)
    requires Through(t, p, s, allowed)
    ensures SearchFrom(t, p, s, n) != Unknown
    decreases |s|, 0
  {
    n := 0;
    if s != "" {
      match Step(t, p, First(s))
      case None =>
      case Some(q) => n := EnteredEnds(t, q, After(s), allowed);
    }
  }

  lemma {:induction false} EnteredEnds(t: Doc, q: Path, s: string, allowed: Path -> bool) returns (n: nat)
    requires forall q :: Value(t, q) != "" && allowed(q) ==> Resolves(t, q)
    requires Value(t, q) != "" ==> allowed(q)
    requires forall r :: StandsFor(t, q, r) ==> Through(t, r, s, allowed)
    ensures Search(t, q, s, n) != Unknown
    decreases |s|, 2
  {
    if Value(t, q) == "" {
      TerminalStandsForItself(t, q);
      var k := FromEnds(t, q, s, allowed);
      n := TerminalSearch(t, q, s, k);
    } else {
      assert Resolves(t, q);
      var m :| SearchRef(t, q, Value(t, q), m) != Unknown;
      var o := SearchRef(t, q, Value(t, q), m);
      if o.Missing? {
        TerminalStandsForItself(t, q);
        var k := FromEnds(t, q, s, allowed);
        n := TerminalSearch(t, q, s, k);
      } else {
        n := TargetEnds(t, q, o.path, s, m, allowed);
      }
    }
  }

  lemma {:induction false} TargetEnds(t: Doc, q: Path, r: Path, s: string, m: nat, allowed: Path -> bool) returns (n: nat)
    requires forall q :: Value(t, q) != "" && allowed(q) ==> Resolves(t, q)
    requires Value(t, q) != "" && SearchRef(t, q, Value(t, q), m) == Found(r)
    requires forall r :: StandsFor(t, q, r) ==> Through(t, r, s, allowed)
    ensures Search(t, q, s, n) != Unknown
    decreases |s|, 1
  {
    StandsForTarget(t, q, m, r);
    RefEndsAtTerminal(t, q, Value(t, q), m, r);
    var k := FromEnds(t, r, s, allowed);
    var l := TerminalSearch(t, r, s, k);
    n := HandedOn(t, q, s, m, r, l, Search(t, r, s, l));
  }

  /** All parameters lower than b are resolved. */
  lemma {:induction false} LowerResolve(t: Doc, rank: Path -> nat, b: nat)
    requires IsOrder(t, rank)
    ensures forall q :: Value(t, q) != "" && rank(q) < b ==> Resolves(t, q)
  {
    if b > 0 {
      LowerResolve(t, rank, b - 1);
      forall q | Value(t, q) != "" && rank(q) < b
        ensures Resolves(t, q)
      {
        if rank(q) == b - 1 {
          ValueResolves(t, rank, q);
        }
      }
    }
  }

  lemma ValueResolves(t: Doc, rank: Path -> nat, q: Path)
    requires IsOrder(t, rank) && Value(t, q) != ""
    requires forall p :: Value(t, p) != "" && rank(p) < rank(q) ==> Resolves(t, p)
    ensures Resolves(t, q)
  {
    var v, allowed := Value(t, q), Below(rank, rank(q));
    assert Descends(t, rank, q);
    var n := FromEnds(t, q, v, allowed);
    if SearchFrom(t, q, v, n) == Missing {
      var m := FromEnds(t, q, "/" + v, allowed);
      BothEnd(t, q, v, n, m);
    } else {
      assert SearchRef(t, q, v, n) != Unknown;
    }
  }

  lemma BothEnd(t: Doc, q: Path, v: string, n: nat, m: nat)
    requires SearchFrom(t, q, v, n) == Missing && SearchFrom(t, q, "/" + v, m) != Unknown
    ensures SearchRef(t, q, v, n + m) != Unknown
  {
    SearchFromStays(t, q, v, n, n + m);
    SearchFromStays(t, q, "/" + v, m, n + m);
  }

  lemma {:induction false} AllThrough(t: Doc, p: Path, s: string, allowed: Path -> bool)
    requires forall q :: allowed(q)
    ensures Through(t, p, s, allowed)
    decreases |s|
  {
    if s != "" && Step(t, p, First(s)).Some? {
      forall r | StandsFor(t, Step(t, p, First(s)).value, r)
        ensures Through(t, r, After(s), allowed)
      {
        AllThrough(t, r, After(s), allowed);
      }
    }
  }

  lemma OrderSuffices(t: Doc, rank: Path -> nat)
    requires IsOrder(t, rank)
    ensures AllSearchesEnd(t)
  {
    var all := (q: Path) => true;
    forall q | Value(t, q) != ""
      ensures Resolves(t, q)
    {
      LowerResolve(t, rank, rank(q) + 1);
    }
    forall p: Path, s: string
      ensures Ends(t, p, s)
    {
      forall r | StandsFor(t, p, r)
        ensures Through(t, r, s, all)
      {
        AllThrough(t, r, s, all);
      }
      var n := EnteredEnds(t, p, s, all);
    }
  }

  // ----- If all searches end, their depth is such an order -----

  /** The least depth at which the value of this parameter is resolved, from one that is enough. */
  ghost function Least(t: Doc, q: Path, n: nat): (m: nat)
    requires SearchRef(t, q, Value(t, q), n) != Unknown
    ensures m <= n && SearchRef(t, q, Value(t, q), m) != Unknown
    ensures m > 0 ==> SearchRef(t, q, Value(t, q), m - 1) == Unknown
  {
    if n == 0 || SearchRef(t, q, Value(t, q), n - 1) == Unknown then n else Least(t, q, n - 1)
  }

  ghost function Depth(t: Doc, q: Path): nat {
    if Resolves(t, q) then
      var n :| SearchRef(t, q, Value(t, q), n) != Unknown;
      Least(t, q, n)
    else 0
  }

  ghost function Depths(t: Doc): Path -> nat {
    q => Depth(t, q)
  }

  lemma DepthIsLeast(t: Doc, q: Path, n: nat)
    requires SearchRef(t, q, Value(t, q), n) != Unknown
    ensures SearchRef(t, q, Value(t, q), Depth(t, q)) != Unknown && Depth(t, q) <= n
  {
    assert Resolves(t, q);
    var v, d := Value(t, q), Depth(t, q);
    assert d > 0 ==> SearchRef(t, q, v, d - 1) == Unknown;
    if n < d {
      SearchRefStays(t, q, v, n, d - 1);
    }
  }

  /** If a search from q is known, so is the one from what q stands for. */
  lemma {:induction false} TargetIsKnown(t: Doc, q: Path, s: string, n: nat, r: Path, k: nat)
    requires Search(t, q, s, n) != Unknown && Search(t, q, "", k) == Found(r)
    ensures SearchFrom(t, r, s, n) != Unknown
    decreases n, 1
  {
    if Value(t, q) == "" {
      SearchPlain(t, q, s, n);
      SearchPlain(t, q, "", k);
    } else {
      var target := HandedTo(t, q, s, n, r, k);
      if target.Some? {
        TargetIsKnownLater(t, target.value, s, n - 1, r, k - 1);
      }
    }
  }

  /** The node that the searches from q are handed on to, if any. */
  lemma HandedTo(t: Doc, q: Path, s: string, n: nat, r: Path, k: nat) returns (target: Option<Path>)
    requires Value(t, q) != "" && Search(t, q, s, n) != Unknown && Search(t, q, "", k) == Found(r)
    ensures n > 0 && k > 0
    ensures target.None? ==> SearchFrom(t, r, s, n) != Unknown
    ensures target.Some? ==> Search(t, target.value, s, n - 1) != Unknown && Search(t, target.value, "", k - 1) == Found(r)
  {
    SearchKnown(t, q, s, n);
    SearchKnown(t, q, "", k);
    SameRef(t, q, n - 1, k - 1);
    target := HandedToBy(t, q, s, n, r, k, Value(t, q), SearchRef(t, q, Value(t, q), n - 1));
  }

  lemma HandedToBy(t: Doc, q: Path, s: string, n: nat, r: Path, k: nat, v: string, o: Outcome) returns (target: Option<Path>)
    requires n > 0 && k > 0 && v == Value(t, q) != "" && o != Unknown
    requires SearchRef(t, q, v, n - 1) == o && SearchRef(t, q, v, k - 1) == o
    requires Search(t, q, s, n) != Unknown && Search(t, q, "", k) == Found(r)
    ensures target.None? ==> SearchFrom(t, r, s, n) != Unknown
    ensures target.Some? ==> Search(t, target.value, s, n - 1) != Unknown && Search(t, target.value, "", k - 1) == Found(r)
  {
    if o.Missing? {
      OwnTarget(t, q, s, n, r, k, v);
      target := None;
    } else {
      HandsOn(t, q, s, n, r, k, v, o.path);
      target := Some(o.path);
    }
  }

  lemma {:induction false} TargetIsKnownLater(t: Doc, q: Path, s: string, n: nat, r: Path, k: nat)
    requires Search(t, q, s, n) != Unknown && Search(t, q, "", k) == Found(r)
    ensures SearchFrom(t, r, s, n + 1) != Unknown
    decreases n, 2
  {
    TargetIsKnown(t, q, s, n, r, k);
    SearchFromStays(t, r, s, n, n + 1);
  }

  lemma OwnTarget(t: Doc, q: Path, s: string, n: nat, r: Path, k: nat, v: string)
    requires n > 0 && k > 0 && v == Value(t, q) != ""
    requires SearchRef(t, q, v, n - 1) == Missing && SearchRef(t, q, v, k - 1) == Missing
    requires Search(t, q, s, n) != Unknown && Search(t, q, "", k) == Found(r)
    ensures SearchFrom(t, r, s, n) != Unknown
  {
    SearchValue(t, q, s, n, Missing);
    SearchValue(t, q, "", k, Missing);
    StaysAt(t, q, k, r);
  }

  lemma HandsOn(t: Doc, q: Path, s: string, n: nat, r: Path, k: nat, v: string, target: Path)
    requires n > 0 && k > 0 && v == Value(t, q) != ""
    requires SearchRef(t, q, v, n - 1) == Found(target) && SearchRef(t, q, v, k - 1) == Found(target)
    requires Search(t, q, s, n) != Unknown && Search(t, q, "", k) == Found(r)
    ensures Search(t, target, s, n - 1) != Unknown && Search(t, target, "", k - 1) == Found(r)
  {
    SearchValue(t, q, s, n, Found(target));
    SearchValue(t, q, "", k, Found(target));
  }

  lemma StaysAt(t: Doc, q: Path, k: nat, r: Path)
    requires SearchFrom(t, q, "", k) == Found(r)
    ensures r == q
  {
  }

  /** Two depths at which a reference is known agree. */
  lemma SameRef(t: Doc, q: Path, n: nat, k: nat)
    requires SearchRef(t, q, Value(t, q), n) != Unknown && SearchRef(t, q, Value(t, q), k) != Unknown
    ensures SearchRef(t, q, Value(t, q), n) == SearchRef(t, q, Value(t, q), k)
  {
    SearchRefStays(t, q, Value(t, q), n, n + k);
    SearchRefStays(t, q, Value(t, q), k, n + k);
  }

  /** A search that is known at depth n only comes through parameters of a smaller depth. */
  lemma {:induction false} KnownIsThrough(t: Doc, p: Path, s: string, n: nat)
    requires SearchFrom(t, p, s, n) != Unknown
    ensures Through(t, p, s, Below(Depths(t), n))
    decreases |s|
  {
    if s != "" && Step(t, p, First(s)).Some? {
      var q := Step(t, p, First(s)).value;
      if Value(t, q) != "" {
        SearchKnown(t, q, After(s), n);
        DepthIsLeast(t, q, n - 1);
      }
      forall r | StandsFor(t, q, r)
        ensures Through(t, r, After(s), Below(Depths(t), n))
      {
        var k :| Search(t, q, "", k) == Found(r);
        TargetIsKnown(t, q, After(s), n, r, k);
        KnownIsThrough(t, r, After(s), n);
      }
    }
  }

  lemma DepthDescends(t: Doc, q: Path)
    requires Value(t, q) != "" && Resolves(t, q)
    ensures Descends(t, Depths(t), q)
  {
    var v, d := Value(t, q), Depth(t, q);
    var n :| SearchRef(t, q, v, n) != Unknown;
    DepthIsLeast(t, q, n);
    KnownIsThrough(t, q, v, d);
    if TriesRoot(t, q) {
      var k :| SearchFrom(t, q, v, k) == Missing;
      SearchFromStays(t, q, v, k, k + d);
      SearchFromStays(t, q, v, d, k + d);
      KnownIsThrough(t, q, "/" + v, d);
    }
  }

  /** All searches of a tree end if and only if its parameters have such an order. */
  lemma SearchesEndIff(t: Doc)
    ensures AllSearchesEnd(t) <==> exists rank: Path -> nat :: IsOrder(t, rank)
  {
    if AllSearchesEnd(t) {
      forall q | Value(t, q) != ""
        ensures Descends(t, Depths(t), q)
      {
        assert Ends(t, q, "");
        var n :| Search(t, q, "", n) != Unknown;
        SearchKnown(t, q, "", n);
        DepthDescends(t, q);
      }
      assert IsOrder(t, Depths(t));
    }
    forall rank: Path -> nat | IsOrder(t, rank)
      ensures AllSearchesEnd(t)
    {
      OrderSuffices(t, rank);
    }
  }

  /** If all references look back, there is such an order. */
  lemma LooksBackIsOrdered(t: Doc)
    requires Wf(t) && LooksBack(t)
    ensures exists rank: Path -> nat :: IsOrder(t, rank)
  {
    forall p: Path, s: string | Has(t, p)
      ensures Ends(t, p, s)
    {
      var n := SearchIsFind(t, p, s);
    }
    SearchesEndIff(t);
  }

  /** The tree with two parameters that need each other has no such order. */
  lemma LoopHasNoOrder()
    ensures !exists rank: Path -> nat :: IsOrder(LOOP, rank)
  {
    LoopIndex(["i"]);
    SearchesEndIff(LOOP);
    if AllSearchesEnd(LOOP) {
      assert Ends(LOOP, ["i"], "");
      var n :| Search(LOOP, ["i"], "", n) != Unknown;
      LoopNeverEnds("", n);
    }
  }
}
