/**
 Vectors as text (base/include/grl/vector.h): the stream operators << and >> for integer elements, and extend.
 */
module VectorText {

  // ----- Numbers -----

  predicate IsDigit(c: char) {
    '0' <= c <= '9'
  }

  function Digit(d: nat): (c: char)
    requires d < 10
    ensures IsDigit(c) && c as int - '0' as int == d
  {
    ('0' as int + d) as char
  }

  function Digits(n: nat): string {
    if n < 10 then [Digit(n)] else Digits(n / 10) + [Digit(n % 10)]
  }

  /** How an integer element is written. */
  function Numeral(i: int): string {
    if i < 0 then "-" + Digits(-i) else Digits(i)
  }

  predicate AllDigits(s: string) {
    forall k :: 0 <= k < |s| ==> IsDigit(s[k])
  }

  function NatOf(s: string): nat
    requires AllDigits(s)
  {
    if s == "" then 0 else NatOf(s[..|s| - 1]) * 10 + (s[|s| - 1] as int - '0' as int)
  }

  function SignLength(s: string): (n: nat)
    ensures n <= |s| && n <= 1
  {
    if s != "" && (s[0] == '-' || s[0] == '+') then 1 else 0
  }

  /** An optional sign and at least one digit. */
  predicate IsNumeral(s: string) {
    SignLength(s) < |s| && AllDigits(s[SignLength(s)..])
  }

  function IntOf(s: string): int
    requires IsNumeral(s)
  {
    var n: int := NatOf(s[SignLength(s)..]);
    if s[0] == '-' then -n else n
  }

  function DigitRun(s: string): (n: nat)
    ensures n <= |s| && AllDigits(s[..n])
  {
    if s != "" && IsDigit(s[0]) then 1 + DigitRun(s[1..]) else 0
  }

  /** Length of the number at the front of s; 0 if extraction fails. */
  function NumeralLength(s: string): (n: nat)
    ensures n <= |s| && (n > 0 ==> IsNumeral(s[..n]))
  {
    var sign := SignLength(s);
    var digits := DigitRun(s[sign..]);
    if digits == 0 then 0
    else
      assert s[..sign + digits][sign..] == s[sign..][..digits];
      sign + digits
  }

  lemma {:induction false} DigitsAreDigits(n: nat)
    ensures |Digits(n)| > 0 && AllDigits(Digits(n)) && NatOf(Digits(n)) == n
  {
    if n >= 10 {
      DigitsAreDigits(n / 10);
      assert Digits(n)[..|Digits(n)| - 1] == Digits(n / 10);
    } else {
      assert Digits(n)[..0] == "";
      assert NatOf(Digits(n)[..0]) == 0;
    }
  }

  /** Reading a written number gives it back. */
  lemma NumeralRoundTrip(i: int)
    ensures IsNumeral(Numeral(i)) && IntOf(Numeral(i)) == i
  {
    if i < 0 {
      DigitsAreDigits(-i);
      assert Numeral(i)[1..] == Digits(-i);
    } else {
      DigitsAreDigits(i);
      assert IsDigit(Digits(i)[0]);
      assert Numeral(i)[0..] == Digits(i);
    }
  }

  lemma {:induction false} DigitRunEnds(s: string, rest: string)
    requires AllDigits(s) && (rest == "" || !IsDigit(rest[0]))
    ensures DigitRun(s + rest) == |s|
  {
    if s == "" {
      assert s + rest == rest;
    } else {
      assert (s + rest)[1..] == s[1..] + rest;
      DigitRunEnds(s[1..], rest);
    }
  }

  lemma NumeralEnds(s: string, rest: string)
    requires IsNumeral(s) && (rest == "" || !IsDigit(rest[0]))
    ensures NumeralLength(s + rest) == |s| && (s + rest)[..|s|] == s
  {
    var sign := SignLength(s);
    assert (s + rest)[sign..] == s[sign..] + rest;
    DigitRunEnds(s[sign..], rest);
    assert (s + rest)[0] == s[0];
  }

  // ----- Writing -----

  function Items(v: seq<int>): string {
    if v == [] then ""
    else if |v| == 1 then Numeral(v[0])
    else Numeral(v[0]) + ", " + Items(v[1..])
  }

  function Written(v: seq<int>): string {
    "[ " + Items(v) + " ]"
  }

  lemma Regroup(a: string, b: string, c: string, d: string)
    ensures a + b + c + d == a + (b + (c + d))
  {
  }

  lemma WriteStep(text: string, v: seq<int>, i: nat, whole: string)
    requires i < |v| && text + Items(v[i..]) == whole
    ensures text + Numeral(v[i]) + (if i < |v| - 1 then ", " else "") + Items(v[i + 1..]) == whole
  {
    var rest := v[i..];
    assert rest[0] == v[i] && rest[1..] == v[i + 1..];
    Regroup(text, Numeral(v[i]), if i < |v| - 1 then ", " else "", Items(v[i + 1..]));
    if i == |v| - 1 {
      assert Numeral(v[i]) + ("" + "") == Numeral(v[i]);
    } else {
      Regroup("", Numeral(v[i]), ", ", Items(v[i + 1..]));
    }
  }

  method Write(v: seq<int>) returns (text: string)
    ensures text == Written(v)
  {
    text := "[ ";
    assert v[0..] == v;
    var i := 0;
    while i < |v|
      invariant 0 <= i <= |v|
      invariant text + Items(v[i..]) == "[ " + Items(v)
    {
      WriteStep(text, v, i, "[ " + Items(v));
      text := text + Numeral(v[i]);
      if i < |v| - 1 {
        text := text + ", ";
      }
      i := i + 1;
    }
    assert text + Items([]) == text;
    text := text + " ]";
  }

  // ----- Reading -----

  predicate IsSpace(c: char) {
    c == ' ' || c == '\t'
  }

  function Trim(s: string): (t: string)
    ensures |t| <= |s|
  {
    if s != "" && IsSpace(s[0]) then Trim(s[1..]) else s
  }

  /** The text from the next ']' or ',' on. */
  function FromDelimiter(s: string): (t: string)
    ensures |t| <= |s| && (t != "" ==> t[0] == ']' || t[0] == ',')
  {
    if s == "" || s[0] == ']' || s[0] == ',' then s else FromDelimiter(s[1..])
  }

  /** What one turn of the reading loop finds: no element, the last one, or one with more behind it. */
  datatype Item = NoItem | LastItem(value: int) | Item(value: int, rest: string)

  function ItemThen(value: int, t: string): Item {
    if t != "" && t[0] == ',' then Item(value, t[1..]) else LastItem(value)
  }

  /** An element that fails, or that runs into the end of the text, is not taken. */
  function FirstItem(t: string): (r: Item)
    ensures r.Item? ==> |r.rest| < |t|
  {
    if t == "" || t[0] == ']' then NoItem
    else
      var n := NumeralLength(t);
      if n == 0 || n == |t| then NoItem
      else ItemThen(IntOf(t[..n]), FromDelimiter(t[n..]))
  }

  /** The elements after an opening bracket. */
  function ReadItems(s: string): seq<int>
    decreases |s|
  {
    match FirstItem(Trim(s))
    case NoItem => []
    case LastItem(value) => [value]
    case Item(value, rest) => [value] + ReadItems(rest)
  }

  /** A bracketed list, or a single element without brackets. */
  function Read(s: string): seq<int> {
    var t := Trim(s);
    if t == "" then []
    else if t[0] == '[' then ReadItems(t[1..])
    else if NumeralLength(t) == 0 then []
    else [IntOf(t[..NumeralLength(t)])]
  }

  lemma FirstItemIs(s: string, rest: string)
    requires IsNumeral(s) && rest != "" && !IsDigit(rest[0])
    ensures FirstItem(s + rest) == ItemThen(IntOf(s), FromDelimiter(rest))
  {
    NumeralEnds(s, rest);
    assert (s + rest)[0] == s[0];
    assert (s + rest)[|s|..] == rest;
  }

  lemma NumeralIsTrimmed(s: string, rest: string)
    requires IsNumeral(s)
    ensures Trim(s + rest) == s + rest
  {
    assert (s + rest)[0] == s[0];
  }

  lemma TrimSpace(s: string)
    ensures Trim(" " + s) == Trim(s)
  {
    assert (" " + s)[1..] == s;
  }

  lemma ItemsOfMany(v: seq<int>)
    requires |v| > 1
    ensures Items(v) + " ]" == Numeral(v[0]) + (", " + (Items(v[1..]) + " ]"))
  {
    Regroup(Numeral(v[0]), ", ", Items(v[1..]), " ]");
  }

  lemma LastItemReads(s: string)
    requires IsNumeral(s)
    ensures ReadItems(s + " ]") == [IntOf(s)]
  {
    NumeralIsTrimmed(s, " ]");
    FirstItemIs(s, " ]");
    assert " ]"[1..] == "]";
    assert FromDelimiter(" ]") == "]";
  }

  lemma ItemReads(s: string, tail: string)
    requires IsNumeral(s)
    ensures ReadItems(s + (", " + tail)) == [IntOf(s)] + ReadItems(tail)
  {
    NumeralIsTrimmed(s, ", " + tail);
    FirstItemIs(s, ", " + tail);
    assert (", " + tail)[1..] == " " + tail;
    TrimSpace(tail);
  }

  lemma {:induction false} ReadItemsBack(v: seq<int>)
    ensures ReadItems(Items(v) + " ]") == v
  {
    if v == [] {
      TrimSpace("]");
      assert Items(v) + " ]" == " " + "]";
    } else if |v| == 1 {
      NumeralRoundTrip(v[0]);
      LastItemReads(Numeral(v[0]));
    } else {
      NumeralRoundTrip(v[0]);
      ItemsOfMany(v);
      ItemReads(Numeral(v[0]), Items(v[1..]) + " ]");
      ReadItemsBack(v[1..]);
    }
  }

  lemma BracketReads(s: string)
    ensures Read("[ " + s) == ReadItems(s)
  {
    assert ("[ " + s)[1..] == " " + s;
    TrimSpace(s);
  }

  /** Print then read is the identity on every vector, the empty one included. */
  lemma ReadWritten(v: seq<int>)
    ensures Read(Written(v)) == v
  {
    assert Written(v) == "[ " + (Items(v) + " ]");
    BracketReads(Items(v) + " ]");
    ReadItemsBack(v);
  }

  // ----- The stream operator >> -----

  method SkipSpaces(text: string, start: nat) returns (at: nat)
    requires start <= |text|
    ensures start <= at <= |text| && text[at..] == Trim(text[start..])
  {
    at := start;
    while at < |text| && IsSpace(text[at])
      invariant start <= at <= |text|
      invariant Trim(text[at..]) == Trim(text[start..])
    {
      assert text[at..][1..] == text[at + 1..];
      at := at + 1;
    }
  }

  method SkipToDelimiter(text: string, start: nat) returns (at: nat)
    requires start <= |text|
    ensures start <= at <= |text| && text[at..] == FromDelimiter(text[start..])
  {
    at := start;
    while at < |text| && text[at] != ']' && text[at] != ','
      invariant start <= at <= |text|
      invariant FromDelimiter(text[at..]) == FromDelimiter(text[start..])
    {
      assert text[at..][1..] == text[at + 1..];
      at := at + 1;
    }
  }

  /** One turn of the reading loop, from a position behind the spaces. */
  method ReadItem(text: string, start: nat) returns (item: Item, at: nat)
    requires start <= |text|
    ensures item == FirstItem(text[start..])
    ensures start <= at <= |text|
    ensures item.Item? ==> start < at && text[at..] == item.rest
  {
    at := start;
    if at == |text| || text[at] == ']' {
      return NoItem, at;
    }
    var n := NumeralLength(text[at..]);
    if n == 0 || at + n == |text| {
      return NoItem, at;
    }
    var value := IntOf(text[at..][..n]);
    assert text[start..][n..] == text[start + n..];
    at := SkipToDelimiter(text, at + n);
    if at == |text| || text[at] == ']' {
      return LastItem(value), at;
    }
    assert text[at..][1..] == text[at + 1..];
    return Item(value, text[at + 1..]), at + 1;
  }

  /** One turn of the reading loop. */
  lemma ReadStep(v: seq<int>, s: string)
    ensures v + ReadItems(s) ==
            match FirstItem(Trim(s))
            case NoItem => v
            case LastItem(value) => v + [value]
            case Item(value, rest) => v + [value] + ReadItems(rest)
  {
    match FirstItem(Trim(s))
    case NoItem => assert v + [] == v;
    case LastItem(value) =>
    case Item(value, rest) => assert v + ([value] + ReadItems(rest)) == v + [value] + ReadItems(rest);
  }

  /** The elements behind an opening bracket. */
  method ReadList(text: string, start: nat) returns (v: seq<int>)
    requires start <= |text|
    ensures v == ReadItems(text[start..])
  {
    v := [];
    var at := start;
    assert v + ReadItems(text[start..]) == ReadItems(text[start..]);
    var more := true;
    while more
      invariant at <= |text|
      invariant ReadItems(text[start..]) == if more then v + ReadItems(text[at..]) else v
      decreases more, |text| - at
    {
      ReadStep(v, text[at..]);
      at := SkipSpaces(text, at);
      var item;
      item, at := ReadItem(text, at);
      if !item.NoItem? {
        v := v + [item.value];
      }
      more := item.Item?;
    }
  }

  /** operator >> */
  method ReadVector(text: string) returns (v: seq<int>)
    ensures v == Read(text)
  {
    assert text[0..] == text;
    var at := SkipSpaces(text, 0);
    if at == |text| {
      return [];
    }
    if text[at] == '[' {
      assert text[at..][1..] == text[at + 1..];
      v := ReadList(text, at + 1);
    } else {
      var n := NumeralLength(text[at..]);
      v := if n > 0 then [IntOf(text[at..][..n])] else [];
    }
  }

  /** extend copies both vectors behind each other. */
  method Extend(a: array<int>, b: array<int>) returns (c: array<int>)
    ensures fresh(c) && c[..] == a[..] + b[..]
  {
    c := new int[a.Length + b.Length];
    var i := 0;
    while i < a.Length
      invariant 0 <= i <= a.Length
      invariant forall k :: 0 <= k < i ==> c[k] == a[k]
    {
      c[i] := a[i];
      i := i + 1;
    }
    i := 0;
    while i < b.Length
      invariant 0 <= i <= b.Length
      invariant forall k :: 0 <= k < a.Length ==> c[k] == a[k]
      invariant forall k :: 0 <= k < i ==> c[a.Length + k] == b[k]
    {
      c[a.Length + i] := b[i];
      i := i + 1;
    }
    assert forall k {:trigger c[k]} :: a.Length <= k < c.Length ==> c[k] == c[a.Length + (k - a.Length)];
  }
}
