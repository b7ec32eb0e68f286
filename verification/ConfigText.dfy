/**
 What the text of a parameter is (base/src/configurable.cpp, ParameterConfigurator::str): its value, split at the
 separators, with every piece that leads to a node replaced by the node's text, evaluated as an expression.
 */
module ConfigText {
  import opened Options
  import opened ConfigTree
  import opened ConfigCopy
  import opened ConfigSearch
  import opened ConfigInstance
  import opened ConfigPart
  import opened ConfigMeaning
  import Grammar
  import Parser

  /**
   Separators are what delimits operands for the parser of expressions, and '-'. So a piece is never more than one
   operand.
   */
  lemma PiecesAreOperands(s: string)
    ensures IsId(s) <==> Grammar.Plain(s) && '-' !in s
  {
    assert forall c :: IsSeparator(c) <==> Parser.Separates(c) || Parser.IsOpen(c) || Parser.IsClose(c) || c == '-';
    assert forall i :: 0 <= i < |s| ==> s[i] in s;
  }

  /** Pieces with a character between each two of them. */
  function Interleave(pieces: seq<string>, between: string): string
    requires |pieces| == |between| + 1
  {
    if between == "" then pieces[0] else pieces[0] + ([between[0]] + Interleave(pieces[1..], between[1..]))
  }

  /** The value consists of these pieces, and separators between them. */
  ghost predicate IsSplit(v: string, pieces: seq<string>, between: string) {
    && |pieces| == |between| + 1 && v == Interleave(pieces, between)
    && (forall k :: 0 <= k < |pieces| ==> IsId(pieces[k]))
    && (forall k :: 0 <= k < |between| ==> IsSeparator(between[k]))
  }

  lemma OnePiece(x: string)
    requires IsId(x)
    ensures IsSplit(x, [x], "")
  {
  }

  lemma MorePieces(x: string, c: char, v: string, pieces: seq<string>, between: string)
    requires IsId(x) && IsSeparator(c) && IsSplit(v, pieces, between)
    ensures IsSplit(x + ([c] + v), [x] + pieces, [c] + between)
  {
    assert ([x] + pieces)[1..] == pieces && ([c] + between)[1..] == between;
  }

  /** Every value can be split. */
  lemma {:induction false} CanSplit(v: string) returns (pieces: seq<string>, between: string)
    ensures IsSplit(v, pieces, between)
    decreases |v|
  {
    var x, y := FirstPiece(v);
    if y == "" {
      assert x + y == x;
      OnePiece(x);
      pieces, between := [x], "";
    } else {
      var more, rest := CanSplit(y[1..]);
      MorePieces(x, y[0], y[1..], more, rest);
      assert y == [y[0]] + y[1..];
      pieces, between := [x] + more, [y[0]] + rest;
    }
  }

  /** What one piece becomes: nothing if empty, the text of the node it leads to, or itself if it leads nowhere. */
  ghost predicate Becomes(t: Doc, p: Path, text: Path -> string, eval: string -> string, id: string, y: string) {
    if id == "" then y == ""
    else
      || (y == id && exists n :: SearchRef(t, p, id, n) == Missing)
      || exists n, r, m :: SearchRef(t, p, id, n) == Found(r) && Text(t, r, text, eval, m) == Some(y)
  }

  ghost predicate AllBecome(t: Doc, p: Path, text: Path -> string, eval: string -> string,
                            pieces: seq<string>, texts: seq<string>) {
    |texts| == |pieces| && forall k :: 0 <= k < |pieces| ==> Becomes(t, p, text, eval, pieces[k], texts[k])
  }

  lemma BecomesAtDepth(t: Doc, p: Path, text: Path -> string, eval: string -> string, id: string, y: string) returns (n: nat)
    requires Becomes(t, p, text, eval, id, y)
    ensures Expansion(t, p, id, text, eval, n) == Some(y)
  {
    n := 0;
    if id != "" {
      if y == id && exists k :: SearchRef(t, p, id, k) == Missing {
        n :| SearchRef(t, p, id, n) == Missing;
      } else {
        var k: nat, r, m: nat :| SearchRef(t, p, id, k) == Found(r) && Text(t, r, text, eval, m) == Some(y);
        n := FoundText(t, p, id, r, text, eval, k, m);
      }
    }
  }

  lemma KnownBecomes(t: Doc, p: Path, text: Path -> string, eval: string -> string, id: string, n: nat)
    requires Expansion(t, p, id, text, eval, n).Some?
    ensures Becomes(t, p, text, eval, id, Expansion(t, p, id, text, eval, n).value)
  {
  }

  // ----- Replacing the pieces -----

  /** These are the replacements of the pieces. */
  ghost predicate Replaced(f: string -> Option<string>, pieces: seq<string>, texts: seq<string>) {
    |texts| == |pieces| && forall k :: 0 <= k < |pieces| ==> f(pieces[k]) == Some(texts[k])
  }

  lemma FirstAndMore(f: string -> Option<string>, pieces: seq<string>, between: string)
    requires |pieces| == |between| + 1 && IsId(pieces[0]) && (between != "" ==> IsSeparator(between[0]))
    ensures RewriteAll(f, "", Interleave(pieces, between)) ==
            if between == "" then f(pieces[0])
            else Joined(f(pieces[0]), between[0], RewriteAll(f, "", Interleave(pieces[1..], between[1..])))
  {
    var x := pieces[0];
    assert "" + x == x;
    if between == "" {
      RewriteAllRuns(f, "", x, "");
      assert x + "" == x;
    } else {
      var rest := [between[0]] + Interleave(pieces[1..], between[1..]);
      RewriteAllRuns(f, "", x, rest);
      assert rest[1..] == Interleave(pieces[1..], between[1..]);
    }
  }

  lemma SplitRest(v: string, pieces: seq<string>, between: string)
    requires IsSplit(v, pieces, between) && between != ""
    ensures IsSplit(Interleave(pieces[1..], between[1..]), pieces[1..], between[1..])
  {
  }

  lemma {:induction false} RewrittenIsReplaced(f: string -> Option<string>, pieces: seq<string>, between: string,
                                               texts: seq<string>)
    requires |pieces| == |between| + 1 && IsSplit(Interleave(pieces, between), pieces, between)
    requires Replaced(f, pieces, texts)
    ensures RewriteAll(f, "", Interleave(pieces, between)) == Some(Interleave(texts, between))
    decreases |between|
  {
    FirstAndMore(f, pieces, between);
    if between != "" {
      SplitRest(Interleave(pieces, between), pieces, between);
      RewrittenIsReplaced(f, pieces[1..], between[1..], texts[1..]);
      var rest := Interleave(texts[1..], between[1..]);
      assert texts[0] + [between[0]] + rest == texts[0] + ([between[0]] + rest);
    }
  }

  lemma {:induction false} RewrittenIsKnown(f: string -> Option<string>, pieces: seq<string>, between: string)
    requires |pieces| == |between| + 1 && IsSplit(Interleave(pieces, between), pieces, between)
    requires RewriteAll(f, "", Interleave(pieces, between)).Some?
    ensures forall k :: 0 <= k < |pieces| ==> f(pieces[k]).Some?
    decreases |between|
  {
    FirstAndMore(f, pieces, between);
    if between != "" {
      SplitRest(Interleave(pieces, between), pieces, between);
      RewrittenIsKnown(f, pieces[1..], between[1..]);
      forall k | 0 <= k < |pieces|
        ensures f(pieces[k]).Some?
      {
        assert k > 0 ==> pieces[k] == pieces[1..][k - 1];
      }
    }
  }

  // ----- The text -----

  lemma {:induction false} DepthForAll(t: Doc, p: Path, text: Path -> string, eval: string -> string,
                                       pieces: seq<string>, texts: seq<string>, j: nat) returns (n: nat)
    requires AllBecome(t, p, text, eval, pieces, texts) && j <= |pieces|
    ensures forall k :: 0 <= k < j ==> Expansion(t, p, pieces[k], text, eval, n) == Some(texts[k])
  {
    n := 0;
    if j > 0 {
      var a := DepthForAll(t, p, text, eval, pieces, texts, j - 1);
      var b := BecomesAtDepth(t, p, text, eval, pieces[j - 1], texts[j - 1]);
      n := a + b;
      forall k | 0 <= k < j
        ensures Expansion(t, p, pieces[k], text, eval, n) == Some(texts[k])
      {
        ExpansionStays(t, p, pieces[k], text, eval, if k < j - 1 then a else b, n);
      }
    }
  }

  lemma ParameterText(t: Doc, p: Path, text: Path -> string, eval: string -> string, n: nat)
    requires IsParam(t, p)
    ensures Text(t, p, text, eval, n) ==
            if n == 0 then None else Evaluated(eval, RewriteAll(Expansions(t, p, text, eval, n - 1), "", Value(t, p)))
  {
  }

  lemma KnownText(t: Doc, p: Path, text: Path -> string, eval: string -> string, pieces: seq<string>, between: string, n: nat)
    returns (texts: seq<string>)
    requires IsParam(t, p) && IsSplit(Value(t, p), pieces, between) && Text(t, p, text, eval, n).Some?
    ensures AllBecome(t, p, text, eval, pieces, texts) && Text(t, p, text, eval, n) == Some(eval(Interleave(texts, between)))
  {
    ParameterText(t, p, text, eval, n);
    var f := Expansions(t, p, text, eval, n - 1);
    RewrittenIsKnown(f, pieces, between);
    texts := seq(|pieces|, k requires 0 <= k < |pieces| => Expansion(t, p, pieces[k], text, eval, n - 1).value);
    forall k | 0 <= k < |pieces|
      ensures Becomes(t, p, text, eval, pieces[k], texts[k])
    {
      KnownBecomes(t, p, text, eval, pieces[k], n - 1);
    }
    RewrittenIsReplaced(f, pieces, between, texts);
  }

  lemma ReplacedText(t: Doc, p: Path, text: Path -> string, eval: string -> string, pieces: seq<string>, between: string,
                     texts: seq<string>) returns (n: nat)
    requires IsParam(t, p) && IsSplit(Value(t, p), pieces, between) && AllBecome(t, p, text, eval, pieces, texts)
    ensures Text(t, p, text, eval, n) == Some(eval(Interleave(texts, between)))
  {
    var k := DepthForAll(t, p, text, eval, pieces, texts, |pieces|);
    n := k + 1;
    ParameterText(t, p, text, eval, n);
    RewrittenIsReplaced(Expansions(t, p, text, eval, k), pieces, between, texts);
  }

  /**
   A parameter has a text if and only if every piece of its value becomes one: the value with its pieces replaced,
   evaluated.
   */
  lemma TextIsValue(t: Doc, p: Path, text: Path -> string, eval: string -> string, pieces: seq<string>,
                    between: string, s: string)
    requires IsParam(t, p) && IsSplit(Value(t, p), pieces, between)
    ensures (exists n :: Text(t, p, text, eval, n) == Some(s)) <==>
            exists texts :: AllBecome(t, p, text, eval, pieces, texts) && s == eval(Interleave(texts, between))
  {
    if n: nat :| Text(t, p, text, eval, n) == Some(s) {
      var texts := KnownText(t, p, text, eval, pieces, between, n);
    }
    if texts :| AllBecome(t, p, text, eval, pieces, texts) && s == eval(Interleave(texts, between)) {
      var n := ReplacedText(t, p, text, eval, pieces, between, texts);
    }
  }

  /** If no piece of the value leads anywhere, the text is the value, evaluated. */
  lemma LiteralText(t: Doc, p: Path, text: Path -> string, eval: string -> string, pieces: seq<string>, between: string)
    returns (n: nat)
    requires IsParam(t, p) && IsSplit(Value(t, p), pieces, between)
    requires forall k :: 0 <= k < |pieces| && pieces[k] != "" ==> exists m :: SearchRef(t, p, pieces[k], m) == Missing
    ensures Text(t, p, text, eval, n) == Some(eval(Value(t, p)))
  {
    n := ReplacedText(t, p, text, eval, pieces, between, pieces);
  }

  /** An object has its own text. */
  lemma ObjectText(t: Doc, p: Path, text: Path -> string, eval: string -> string, n: nat)
    requires IsGroup(t, p)
    ensures Text(t, p, text, eval, n) == Some(text(p))
  {
  }
}
