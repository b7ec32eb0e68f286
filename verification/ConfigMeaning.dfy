/**
 The text that a parameter stands for (base/src/configurable.cpp, ParameterConfigurator::str), with references looked
 up in the whole tree: instantiation keeps it.
 */
module ConfigMeaning {
  import opened Options
  import opened ConfigTree
  import opened ConfigCopy
  import opened ConfigSearch
  import opened ConfigInstance
  import opened ConfigOrder
  import opened ConfigPart
  import opened ConfigForward
  import opened ConfigKept

  /** Replace every piece; None if one replacement is unknown. */
  function RewriteAll(f: string -> Option<string>, id: string, v: string): Option<string>
    decreases |v|
  {
    if v == "" then f(id)
    else if IsSeparator(v[0]) then Joined(f(id), v[0], RewriteAll(f, "", v[1..]))
    else RewriteAll(f, id + [v[0]], v[1..])
  }

  function Joined(x: Option<string>, c: char, y: Option<string>): Option<string> {
    if x.None? || y.None? then None else Some(x.value + [c] + y.value)
  }

  /** What is known of `str()` after following n nested references. */
  function Text(t: Doc, p: Path, text: Path -> string, eval: string -> string, n: nat): Option<string>
    decreases n, 0
  {
    var i := Index(t, p);
    if i == |t| then Some("")
    else
      match t[i].content
      case Group => Some(text(p))
      case Param(v) => if n == 0 then None else Evaluated(eval, RewriteAll(Expansions(t, p, text, eval, n - 1), "", v))
  }

  function Evaluated(eval: string -> string, x: Option<string>): Option<string> {
    if x.None? then None else Some(eval(x.value))
  }

  function Expansions(t: Doc, p: Path, text: Path -> string, eval: string -> string, n: nat): string -> Option<string>
    decreases n, 2
  {
    id => Expansion(t, p, id, text, eval, n)
  }

  function Expansion(t: Doc, p: Path, id: string, text: Path -> string, eval: string -> string, n: nat): Option<string>
    decreases n, 1
  {
    if id == "" then Some("")
    else
      match SearchRef(t, p, id, n)
      case Unknown => None
      case Missing => Some(id)
      case Found(r) => Text(t, r, text, eval, n)
  }

  // ----- More nested references change no text -----

  lemma {:induction false} RewriteAllStays(f: string -> Option<string>, g: string -> Option<string>, id: string, v: string)
    requires RewriteAll(f, id, v).Some? && forall x :: f(x).Some? ==> g(x) == f(x)
    ensures RewriteAll(g, id, v) == RewriteAll(f, id, v)
    decreases |v|
  {
    if v == "" {
    } else if IsSeparator(v[0]) {
      RewriteAllStays(f, g, "", v[1..]);
    } else {
      RewriteAllStays(f, g, id + [v[0]], v[1..]);
    }
  }

  lemma {:induction false} TextStays(t: Doc, p: Path, text: Path -> string, eval: string -> string, n: nat, m: nat)
    requires n <= m && Text(t, p, text, eval, n).Some?
    ensures Text(t, p, text, eval, m) == Text(t, p, text, eval, n)
    decreases n, 0
  {
    var i := Index(t, p);
    if i < |t| && t[i].content.Param? {
      var f, g := Expansions(t, p, text, eval, n - 1), Expansions(t, p, text, eval, m - 1);
      forall x | f(x).Some?
        ensures g(x) == f(x)
      {
        ExpansionStays(t, p, x, text, eval, n - 1, m - 1);
      }
      RewriteAllStays(f, g, "", t[i].content.value);
    }
  }

  lemma {:induction false} ExpansionStays(t: Doc, p: Path, id: string, text: Path -> string, eval: string -> string,
                                          n: nat, m: nat)
    requires n <= m && Expansion(t, p, id, text, eval, n).Some?
    ensures Expansion(t, p, id, text, eval, m) == Expansion(t, p, id, text, eval, n)
    decreases n, 1
  {
    if id != "" {
      SearchRefStays(t, p, id, n, m);
      if SearchRef(t, p, id, n).Found? {
        TextStays(t, SearchRef(t, p, id, n).path, text, eval, n, m);
      }
    }
  }

  // ----- If references look back, every text is found -----

  lemma StrPrefix(t: Doc, k: nat, p: Path, text: Path -> string, eval: string -> string)
    requires k <= |t| && Has(t[..k], p)
    ensures Str(t, p, text, eval) == Str(t[..k], p, text, eval)
  {
    IndexPrefix(t, k, p);
    assert t[..k][..Index(t, p)] == t[..Index(t, p)];
  }

  lemma EarlierReference(t: Doc, i: nat, id: string)
    requires Wf(t) && i < |t| && t[i].path != [] && id != "" && Resolve(t[..i], t[i].path, id).Some?
    ensures var r := Resolve(t[..i], t[i].path, id).value; Has(t[..i], r) && Index(t, r) < i
  {
    var p := t[i].path;
    WfPrefix(t, i);
    NodeIsRooted(t, i);
    ResolveTerminal(t[..i], p, id);
    assert p[..0] == [] && IsGroup(t[..i], p[..0]);
    IndexPrefix(t, i, Resolve(t[..i], p, id).value);
  }

  lemma {:induction false} TextEnds(t: Doc, p: Path, text: Path -> string, eval: string -> string) returns (n: nat)
    requires Wf(t) && LooksBack(t)
    ensures Text(t, p, text, eval, n) == Some(Str(t, p, text, eval))
    decreases Index(t, p), 2
  {
    var i := Index(t, p);
    n := 0;
    if i < |t| && t[i].content.Param? {
      assert NodeLooksBack(t, i);
      var k := ValueEnds(t, i, "", t[i].content.value, text, eval);
      n := k + 1;
      TextOfParameter(t, p, text, eval, k);
    }
  }

  lemma TextOfParameter(t: Doc, p: Path, text: Path -> string, eval: string -> string, k: nat)
    requires Has(t, p) && t[Index(t, p)].content.Param?
    ensures var i := Index(t, p);
            var v := t[i].content.value;
            && Text(t, p, text, eval, k + 1) == Evaluated(eval, RewriteAll(Expansions(t, p, text, eval, k), "", v))
            && Str(t, p, text, eval) == eval(Rewrite(Expander(t[..i], p, text, eval), "", v))
  {
  }

  lemma {:induction false} ValueEnds(t: Doc, i: nat, id: string, v: string, text: Path -> string, eval: string -> string)
    returns (n: nat)
    requires Wf(t) && LooksBack(t) && i < |t| && t[i].path != [] && AllIds(PassesRefs(t, i), id, v)
    ensures RewriteAll(Expansions(t, t[i].path, text, eval, n), id, v) ==
            Some(Rewrite(Expander(t[..i], t[i].path, text, eval), id, v))
    decreases i, 1, |v|
  {
    if v == "" {
      n := ExpansionEnds(t, i, id, text, eval);
    } else if IsSeparator(v[0]) {
      var k := ExpansionEnds(t, i, id, text, eval);
      var m := ValueEnds(t, i, "", v[1..], text, eval);
      n := k + m;
      ExpansionStays(t, t[i].path, id, text, eval, k, n);
      MoreExpansions(t, t[i].path, v[1..], text, eval, m, n);
    } else {
      n := ValueEnds(t, i, id + [v[0]], v[1..], text, eval);
    }
  }

  lemma MoreExpansions(t: Doc, p: Path, v: string, text: Path -> string, eval: string -> string, n: nat, m: nat)
    requires n <= m && RewriteAll(Expansions(t, p, text, eval, n), "", v).Some?
    ensures RewriteAll(Expansions(t, p, text, eval, m), "", v) == RewriteAll(Expansions(t, p, text, eval, n), "", v)
  {
    var f, g := Expansions(t, p, text, eval, n), Expansions(t, p, text, eval, m);
    forall x | f(x).Some?
      ensures g(x) == f(x)
    {
      ExpansionStays(t, p, x, text, eval, n, m);
    }
    RewriteAllStays(f, g, "", v);
  }

  lemma {:induction false} ExpansionEnds(t: Doc, i: nat, id: string, text: Path -> string, eval: string -> string)
    returns (n: nat)
    requires Wf(t) && LooksBack(t) && i < |t| && t[i].path != [] && PassesRef(t, i, id)
    ensures Expansion(t, t[i].path, id, text, eval, n) == Some(Expand(t[..i], t[i].path, id, text, eval))
    decreases i, 0
  {
    var p := t[i].path;
    n := 0;
    if id != "" {
      SearchesEnd(t, i);
      var k := ReferenceEnds(t, i, id);
      n := k;
      if Resolve(t[..i], p, id).Some? {
        var r := Resolve(t[..i], p, id).value;
        EarlierReference(t, i, id);
        StrPrefix(t, i, r, text, eval);
        var m := TextEnds(t, r, text, eval);
        n := k + m;
        SearchRefStays(t, p, id, k, n);
        TextStays(t, r, text, eval, m, n);
      }
    }
  }

  /** Instantiation preserves meaning: every node of the copy has the same text as its original, in the whole tree. */
  lemma MeaningKept(t: Doc, p: Path, text: Path -> string, eval: string -> string) returns (n: nat)
    requires Wf(t) && Clean(t) && Guarded(t) && LooksBack(t)
    ensures Text(Copy(t), p, text, eval, n) == Text(t, p, text, eval, n) == Some(Str(t, p, text, eval))
  {
    var k := TextEnds(t, p, text, eval);
    CopyLooksBack(t);
    var m := TextEnds(Copy(t), p, text, eval);
    StrKept(t, p, text, eval);
    n := k + m;
    TextStays(t, p, text, eval, k, n);
    TextStays(Copy(t), p, text, eval, m, n);
  }

  // ----- Instantiation keeps the meaning if references may look ahead -----

  lemma {:induction false} RewriteAllRuns(f: string -> Option<string>, id: string, x: string, rest: string)
    requires IsId(x)
    ensures RewriteAll(f, id, x + rest) == RewriteAll(f, id + x, rest)
    decreases |x|
  {
    if x == "" {
      assert x + rest == rest && id + x == id;
    } else {
      assert (x + rest)[1..] == x[1..] + rest;
      RewriteAllRuns(f, id + [x[0]], x[1..], rest);
      assert id + [x[0]] + x[1..] == id + x;
    }
  }

  /** The first piece of a rewritten value. */
  lemma RewriteAllFirst(f: string -> Option<string>, g: string -> string, id: string, v: string)
    requires IsId(g(id))
    ensures v == "" ==> RewriteAll(f, "", Rewrite(g, id, v)) == f(g(id))
    ensures v != "" && IsSeparator(v[0]) ==>
              RewriteAll(f, "", Rewrite(g, id, v)) == Joined(f(g(id)), v[0], RewriteAll(f, "", Rewrite(g, "", v[1..])))
  {
    var x := g(id);
    if v == "" {
      RewriteAllRuns(f, "", x, "");
      assert x + "" == x && "" + x == x;
    } else if IsSeparator(v[0]) {
      var tail := Rewrite(g, "", v[1..]);
      RewriteAllRuns(f, "", x, [v[0]] + tail);
      assert x + ([v[0]] + tail) == x + [v[0]] + tail;
      assert "" + x == x && ([v[0]] + tail)[1..] == tail;
    }
  }

  /** A parameter of an instantiable tree that has an order, and its references. */
  ghost predicate Referring(t: Doc, rank: Path -> nat, i: nat) {
    Instantiable(t) && IsOrder(t, rank) && i < |t| && t[i].content.Param? && t[i].path != []
  }

  ghost predicate GoodPiece(t: Doc, i: nat, id: string)
    requires i < |t| && t[i].path != []
  {
    IsId(id) && RefNeverUp(t, t[i].path, id) && Uncut(WholeCopy(t)[..i], t[i].path, id)
  }

  ghost function GoodPieces(t: Doc, i: nat): string -> bool
    requires i < |t| && t[i].path != []
  {
    id => GoodPiece(t, i, id)
  }

  ghost function Turn(t: Doc, i: nat): string -> string
    requires i < |t| && t[i].path != []
  {
    Relatives(WholeCopy(t)[..i], t[i].path)
  }

  lemma PiecesAreGood(t: Doc, rank: Path -> nat, i: nat)
    requires Referring(t, rank, i)
    ensures AllIds(GoodPieces(t, i), "", t[i].content.value)
  {
    var p, v := t[i].path, t[i].content.value;
    assert NodeNeverUp(t, t[i]) && NodeUncut(WholeCopy(t)[..i], t[i]);
    AllIdsBoth(RefsNeverUp(t, p), Uncuts(WholeCopy(t)[..i], p), GoodPieces(t, i), "", v);
  }

  /** One reference: what it becomes is one reference, with the same outcome, and is unchanged if it names nothing. */
  lemma PieceKept(t: Doc, rank: Path -> nat, i: nat, id: string) returns (n: nat)
    requires Referring(t, rank, i) && GoodPiece(t, i, id) && id != ""
    ensures var p, y := t[i].path, Turn(t, i)(id);
            && y != "" && SearchRef(WholeCopy(t), p, y, n) == SearchRef(t, p, id, n) != Unknown
            && (SearchRef(t, p, id, n) == Missing ==> y == id)
  {
    n := EveryReferenceKept(t, rank, i, id);
    ReferenceIsThere(t, rank, i, id);
    if SearchRef(t, t[i].path, id, n) == Missing {
      MissingIsKept(t, rank, i, id, n);
    }
  }

  lemma ReferenceIsThere(t: Doc, rank: Path -> nat, i: nat, id: string)
    requires Referring(t, rank, i) && GoodPiece(t, i, id)
    ensures IsId(Turn(t, i)(id)) && (Turn(t, i)(id) == "" <==> id == "")
  {
    var w := WholeCopy(t)[..i];
    CopyGrows(t, rank, i);
    assert Downward(rank, Any());
    GrowingSetting(t, w, rank, Any());
    RelativeIsId(t, w, rank, i, id);
    if id != "" {
      ReferenceTurned(t, w, rank, i, id, Any());
    }
  }

  lemma MissingIsKept(t: Doc, rank: Path -> nat, i: nat, id: string, n: nat)
    requires Referring(t, rank, i) && GoodPiece(t, i, id) && id != "" && SearchRef(t, t[i].path, id, n) == Missing
    ensures Turn(t, i)(id) == id
  {
    var w, p := WholeCopy(t)[..i], t[i].path;
    CopyGrows(t, rank, i);
    assert Downward(rank, Any());
    GrowingSetting(t, w, rank, Any());
    var k := TargetKept(t, w, rank, i, id, Any());
    if Target(w, p, id).Some? {
      NextIsRooted(t, w, i);
      TargetIsFound(t, rank, p, id, Target(w, p, id).value, n);
    }
  }

  /** What instantiation finds, the original finds, too. */
  lemma TargetIsFound(t: Doc, rank: Path -> nat, p: Path, id: string, r: Path, n: nat)
    requires Wf(t) && IsOrder(t, rank) && IsParam(t, p) && id != "" && First(id) != ".."
    requires Kept(t, Any(), [], id, Found(r))
    ensures SearchRef(t, p, id, n) != Missing
  {
    var x := StandsForSome(t, rank, r);
    assert FromEndsAt(t, [], id, x);
    RefEndsAsStarted(t, p, id);
    assert RefEndsAt(t, p, id, x);
    var m: nat :| SearchRef(t, p, id, m) == Found(x);
    if SearchRef(t, p, id, n) == Missing {
      SearchRefStays(t, p, id, m, n + m);
      SearchRefStays(t, p, id, n, n + m);
    }
  }

  /** A reference that leads to a node with a text has this text. */
  lemma FoundText(t: Doc, p: Path, id: string, r: Path, text: Path -> string, eval: string -> string, k: nat, l: nat)
    returns (m: nat)
    requires id != "" && SearchRef(t, p, id, k) == Found(r) && Text(t, r, text, eval, l).Some?
    ensures Expansion(t, p, id, text, eval, m) == Text(t, r, text, eval, l)
  {
    m := k + l;
    SearchRefStays(t, p, id, k, m);
    TextStays(t, r, text, eval, l, m);
  }

  /** What is known of a reference at two depths is the same. */
  lemma SameOutcome(t: Doc, p: Path, id: string, n: nat, k: nat)
    requires SearchRef(t, p, id, n) != Unknown && SearchRef(t, p, id, k) != Unknown
    ensures SearchRef(t, p, id, n) == SearchRef(t, p, id, k)
  {
    SearchRefStays(t, p, id, n, n + k);
    SearchRefStays(t, p, id, k, n + k);
  }

  lemma CopiedContent(t: Doc, rank: Path -> nat, p: Path)
    requires Instantiable(t) && IsOrder(t, rank) && Has(t, p)
    ensures var u, i := WholeCopy(t), Index(t, p);
            && Index(u, p) == i && t[i].path == p
            && (t[i].content.Group? ==> u[i].content.Group?)
            && (t[i].content.Param? ==> p != [] && u[i].content == Param(Rewrite(Turn(t, i), "", t[i].content.value)))
  {
    var i := Index(t, p);
    WholeShape(t);
    SameIndex(t, WholeCopy(t), p);
    WholeNodeAt(t, i);
  }

  // From the original to the copy, and back.

  lemma {:induction false} TextCarried(t: Doc, rank: Path -> nat, p: Path, text: Path -> string,
                                       eval: string -> string, n: nat)
    returns (m: nat)
    requires Instantiable(t) && IsOrder(t, rank) && Text(t, p, text, eval, n).Some?
    ensures Text(WholeCopy(t), p, text, eval, m) == Text(t, p, text, eval, n)
    decreases n, 0
  {
    var u, i := WholeCopy(t), Index(t, p);
    m := 0;
    if i == |t| {
      WholeShape(t);
      SameIndex(t, u, p);
    } else {
      CopiedContent(t, rank, p);
      if t[i].content.Param? {
        PiecesAreGood(t, rank, i);
        var k := PiecesCarried(t, rank, i, "", t[i].content.value, text, eval, n - 1);
        m := k + 1;
      }
    }
  }

  lemma {:induction false} PiecesCarried(t: Doc, rank: Path -> nat, i: nat, id: string, v: string,
                                         text: Path -> string, eval: string -> string, n: nat)
    returns (m: nat)
    requires Referring(t, rank, i) && AllIds(GoodPieces(t, i), id, v)
    requires RewriteAll(Expansions(t, t[i].path, text, eval, n), id, v).Some?
    ensures RewriteAll(Expansions(WholeCopy(t), t[i].path, text, eval, m), "", Rewrite(Turn(t, i), id, v)) ==
            RewriteAll(Expansions(t, t[i].path, text, eval, n), id, v)
    decreases n, 2, |v|
  {
    var u, p, g := WholeCopy(t), t[i].path, Turn(t, i);
    if v == "" {
      m := PieceCarried(t, rank, i, id, text, eval, n);
      ReferenceIsThere(t, rank, i, id);
      RewriteAllFirst(Expansions(u, p, text, eval, m), g, id, v);
    } else if IsSeparator(v[0]) {
      var k := PieceCarried(t, rank, i, id, text, eval, n);
      var l := PiecesCarried(t, rank, i, "", v[1..], text, eval, n);
      m := k + l;
      ExpansionStays(u, p, g(id), text, eval, k, m);
      MoreExpansions(u, p, Rewrite(g, "", v[1..]), text, eval, l, m);
      ReferenceIsThere(t, rank, i, id);
      RewriteAllFirst(Expansions(u, p, text, eval, m), g, id, v);
    } else {
      m := PiecesCarried(t, rank, i, id + [v[0]], v[1..], text, eval, n);
    }
  }

  lemma {:induction false} PieceCarried(t: Doc, rank: Path -> nat, i: nat, id: string,
                                        text: Path -> string, eval: string -> string, n: nat)
    returns (m: nat)
    requires Referring(t, rank, i) && GoodPiece(t, i, id) && Expansion(t, t[i].path, id, text, eval, n).Some?
    ensures Expansion(WholeCopy(t), t[i].path, Turn(t, i)(id), text, eval, m) == Expansion(t, t[i].path, id, text, eval, n)
    decreases n, 1
  {
    var u, p := WholeCopy(t), t[i].path;
    m := 0;
    if id != "" {
      var k := PieceKept(t, rank, i, id);
      SameOutcome(t, p, id, n, k);
      m := k;
      if SearchRef(t, p, id, n).Found? {
        var l := TextCarried(t, rank, SearchRef(t, p, id, n).path, text, eval, n);
        m := FoundText(u, p, Turn(t, i)(id), SearchRef(t, p, id, n).path, text, eval, k, l);
      }
    }
  }

  lemma {:induction false} TextCarriedBack(t: Doc, rank: Path -> nat, p: Path, text: Path -> string, eval: string -> string,
                                           n: nat)
    returns (m: nat)
    requires Instantiable(t) && IsOrder(t, rank) && Text(WholeCopy(t), p, text, eval, n).Some?
    ensures Text(t, p, text, eval, m) == Text(WholeCopy(t), p, text, eval, n)
    decreases n, 0
  {
    var u, i := WholeCopy(t), Index(t, p);
    m := 0;
    if i == |t| {
      WholeShape(t);
      SameIndex(t, u, p);
    } else {
      CopiedContent(t, rank, p);
      if t[i].content.Param? {
        PiecesAreGood(t, rank, i);
        var k := PiecesCarriedBack(t, rank, i, "", t[i].content.value, text, eval, n - 1);
        m := k + 1;
      }
    }
  }

  lemma {:induction false} PiecesCarriedBack(t: Doc, rank: Path -> nat, i: nat, id: string, v: string,
                                             text: Path -> string, eval: string -> string, n: nat)
    returns (m: nat)
    requires Referring(t, rank, i) && AllIds(GoodPieces(t, i), id, v)
    requires RewriteAll(Expansions(WholeCopy(t), t[i].path, text, eval, n), "", Rewrite(Turn(t, i), id, v)).Some?
    ensures RewriteAll(Expansions(t, t[i].path, text, eval, m), id, v) ==
            RewriteAll(Expansions(WholeCopy(t), t[i].path, text, eval, n), "", Rewrite(Turn(t, i), id, v))
    decreases n, 2, |v|
  {
    var u, p, g := WholeCopy(t), t[i].path, Turn(t, i);
    if v == "" {
      ReferenceIsThere(t, rank, i, id);
      RewriteAllFirst(Expansions(u, p, text, eval, n), g, id, v);
      m := PieceCarriedBack(t, rank, i, id, text, eval, n);
    } else if IsSeparator(v[0]) {
      ReferenceIsThere(t, rank, i, id);
      RewriteAllFirst(Expansions(u, p, text, eval, n), g, id, v);
      var k := PieceCarriedBack(t, rank, i, id, text, eval, n);
      var l := PiecesCarriedBack(t, rank, i, "", v[1..], text, eval, n);
      m := k + l;
      ExpansionStays(t, p, id, text, eval, k, m);
      MoreExpansions(t, p, v[1..], text, eval, l, m);
    } else {
      m := PiecesCarriedBack(t, rank, i, id + [v[0]], v[1..], text, eval, n);
    }
  }

  lemma {:induction false} PieceCarriedBack(t: Doc, rank: Path -> nat, i: nat, id: string,
                                            text: Path -> string, eval: string -> string, n: nat)
    returns (m: nat)
    requires Referring(t, rank, i) && GoodPiece(t, i, id)
    requires Expansion(WholeCopy(t), t[i].path, Turn(t, i)(id), text, eval, n).Some?
    ensures Expansion(t, t[i].path, id, text, eval, m) == Expansion(WholeCopy(t), t[i].path, Turn(t, i)(id), text, eval, n)
    decreases n, 1
  {
    var u, p, y := WholeCopy(t), t[i].path, Turn(t, i)(id);
    m := 0;
    if id != "" {
      var k := PieceKept(t, rank, i, id);
      SameOutcome(u, p, y, n, k);
      m := k;
      if SearchRef(u, p, y, n).Found? {
        var l := TextCarriedBack(t, rank, SearchRef(u, p, y, n).path, text, eval, n);
        m := FoundText(t, p, id, SearchRef(u, p, y, n).path, text, eval, k, l);
      }
    }
  }

  /**
   Instantiation preserves meaning wherever the references lead: a node of the copy has some text if and only if its
   original has, and it is the same text.
   */
  lemma SameMeaning(t: Doc, rank: Path -> nat, p: Path, text: Path -> string, eval: string -> string, s: string)
    requires Instantiable(t) && IsOrder(t, rank)
    ensures (exists n :: Text(WholeCopy(t), p, text, eval, n) == Some(s)) <==>
            (exists n :: Text(t, p, text, eval, n) == Some(s))
  {
    if n: nat :| Text(t, p, text, eval, n) == Some(s) {
      var m := TextCarried(t, rank, p, text, eval, n);
    }
    if n: nat :| Text(WholeCopy(t), p, text, eval, n) == Some(s) {
      var m := TextCarriedBack(t, rank, p, text, eval, n);
    }
  }
}
