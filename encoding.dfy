// The text addFile (Source/Main.cpp) emits for one embedded file: a
// declaration pair in the header, and in the current output unit an
// anonymous byte array `tempN` holding the file's bytes as comma-separated
// decimal literals, 40 to a line, followed by two zero sentinels, plus the
// definition that binds the accessor to that array.
//
// The functions here describe that text; the loop that writes it is
// Generator.Generator.AddFile. The parser below reads the literal back.

module Encoding {
  import opened Text

  type Byte = x: nat | x < 256

  datatype Option<T> = None | Some(value: T)

  /** What follows value i when it is not the last one: a line break after
      every 40th value. */
  function Separator(i: nat): string {
    if i % 40 != 39 then "," else ",\r\n  "
  }

  /** The text written for the first k values, each with its separator. */
  function Items(data: seq<Byte>, k: nat): string
    requires k <= |data|
    decreases k
  {
    if k == 0 then "" else Items(data, k - 1) + Dec(data[k - 1]) + Separator(k - 1)
  }

  /** Writing value k and its separator after the first k values' text. */
  lemma ItemsStep(prefix: string, data: seq<Byte>, k: nat)
    requires k < |data|
    ensures prefix + Items(data, k) + Dec(data[k]) + Separator(k) == prefix + Items(data, k + 1)
  {
    var a, b, c := Items(data, k), Dec(data[k]), Separator(k);
    assert Items(data, k + 1) == a + b + c;
    assert prefix + a + b + c == prefix + (a + b + c);
  }

  /** Writing the last value and the sentinels completes the literal. */
  lemma LiteralStep(prefix: string, data: seq<Byte>)
    requires |data| >= 1
    ensures prefix + Items(data, |data| - 1) + Dec(data[|data| - 1]) + ",0,0" == prefix + Literal(data)
  {
    var a, b, c := Items(data, |data| - 1), Dec(data[|data| - 1]), ",0,0";
    assert prefix + a + b + c == prefix + (a + b + c);
  }

  /** The literal between the braces: every value but the last with its
      separator, then the last value and the two sentinels. */
  function Literal(data: seq<Byte>): string
    requires |data| >= 1
  {
    Items(data, |data| - 1) + Dec(data[|data| - 1]) + ",0,0"
  }

  /** The name of the n-th anonymous array. */
  function TempName(n: nat): string {
    "temp" + Dec(n)
  }

  function ArrayOpen(n: nat): string {
    "static const unsigned char " + TempName(n) + "[] = {"
  }

  /** The definition binding the accessor to the array numbered n. */
  function Binding(n: nat, className: string, name: string): string {
    "const char* " + className + "::" + name + " = (const char*) " + TempName(n) + ";\r\n\r\n"
  }

  /** Everything addFile writes to the unit for the array numbered n. */
  function ArrayDefinition(n: nat, data: seq<Byte>, className: string, name: string): string
    requires |data| >= 1
  {
    ArrayOpen(n) + Literal(data) + "};\r\n" + Binding(n, className, name)
  }

  /** What addFile writes to the header: the accessor and the size constant. */
  function Declaration(name: string, size: nat): string {
    "    extern const char*  " + name + ";\r\n"
    + "    const int           " + name + "Size = " + Dec(size) + ";\r\n\r\n"
  }

  // ---------------------------------------------------------------------------
  // Reading the literal back.

  predicate IsBlank(c: char) {
    c == ' ' || c == '\r' || c == '\n'
  }

  /** Length of the run of digits that starts the text. */
  function DigitRun(s: string): (k: nat)
    ensures k <= |s|
  {
    if s == [] || !IsDigit(s[0]) then 0 else 1 + DigitRun(s[1..])
  }

  function SkipBlanks(s: string): (r: string)
    ensures |r| <= |s|
  {
    if s != [] && IsBlank(s[0]) then SkipBlanks(s[1..]) else s
  }

  /** Decimal numbers separated by ',' with optional blanks after each comma. */
  function ParseValues(s: string): Option<seq<nat>>
    decreases |s|, 0
  {
    var k := DigitRun(s);
    if k == 0 then None else ParseAfterValue(DigitsValue(s[..k]), s[k..])
  }

  /** The rest of the list once value v has been read. */
  function ParseAfterValue(v: nat, rest: string): Option<seq<nat>>
    decreases |rest|, 1
  {
    if rest == [] then Some([v])
    else if rest[0] != ',' then None
    else
      match ParseValues(SkipBlanks(rest[1..]))
      case None => None
      case Some(vs) => Some([v] + vs)
  }

  lemma {:induction false} DigitRunOfDigits(p: string, rest: string)
    requires AllDigits(p)
    requires rest == [] || !IsDigit(rest[0])
    ensures DigitRun(p + rest) == |p|
    ensures (p + rest)[..|p|] == p
    decreases |p|
  {
    if p == [] {
      assert p + rest == rest;
    } else {
      assert (p + rest)[1..] == p[1..] + rest;
      DigitRunOfDigits(p[1..], rest);
    }
  }

  lemma {:induction false} SkipBlanksBeforeDigit(blanks: string, t: string)
    requires forall i :: 0 <= i < |blanks| ==> IsBlank(blanks[i])
    requires t != [] && IsDigit(t[0])
    ensures SkipBlanks(blanks + t) == t
    decreases |blanks|
  {
    if blanks == [] {
      assert blanks + t == t;
      assert !IsBlank(t[0]);
    } else {
      assert (blanks + t)[1..] == blanks[1..] + t;
      SkipBlanksBeforeDigit(blanks[1..], t);
    }
  }

  /** The literal read from value k on, written right-recursively. */
  function Tail(data: seq<Byte>, k: nat): string
    requires k < |data|
    decreases |data| - k
  {
    if k == |data| - 1 then Dec(data[k]) + ",0,0"
    else Dec(data[k]) + (Separator(k) + Tail(data, k + 1))
  }

  lemma Reassociate(a: string, b: string, c: string, d: string)
    ensures a + (b + (c + d)) == a + b + c + d
  {
  }

  lemma {:induction false} ItemsThenTail(data: seq<Byte>, k: nat)
    requires k < |data|
    ensures Items(data, k) + Tail(data, k) == Literal(data)
    decreases |data| - k
  {
    if k < |data| - 1 {
      ItemsThenTail(data, k + 1);
      var a, b, c, d := Items(data, k), Dec(data[k]), Separator(k), Tail(data, k + 1);
      assert Tail(data, k) == b + (c + d);
      assert Items(data, k + 1) == a + b + c;
      Reassociate(a, b, c, d);
    }
  }

  /** A value followed by a remainder that does not start with a digit. */
  lemma ParseValue(d: string, rest: string)
    requires d != [] && AllDigits(d)
    requires rest == [] || !IsDigit(rest[0])
    ensures ParseValues(d + rest) == ParseAfterValue(DigitsValue(d), rest)
  {
    DigitRunOfDigits(d, rest);
    assert (d + rest)[..|d|] == d;
    assert (d + rest)[|d|..] == rest;
  }

  /** A value, its separator and a parsable remainder. */
  lemma ParseCons(v: nat, d: string, sep: string, t: string)
    requires d != [] && AllDigits(d) && DigitsValue(d) == v
    requires sep != [] && sep[0] == ','
    requires forall i :: 1 <= i < |sep| ==> IsBlank(sep[i])
    requires t != [] && IsDigit(t[0])
    ensures ParseValues(d + (sep + t))
         == match ParseValues(t)
            case None => None
            case Some(vs) => Some([v] + vs)
  {
    ParseValue(d, sep + t);
    assert (sep + t)[1..] == sep[1..] + t;
    SkipBlanksBeforeDigit(sep[1..], t);
  }

  lemma ParseSentinels()
    ensures ParseValues("0,0") == Some([0, 0])
  {
    var z := "0";
    assert Dec(0) == z;
    assert DigitRun([]) == 0;
    assert DigitRun(z) == 1 by {
      assert z[1..] == [];
    }
    assert z[..1] == z && z[1..] == [];
    assert DigitsValue(z) == 0 by {
      assert z[..0] == [];
    }
    assert ParseAfterValue(0, []) == Some([0]);
    assert ParseValues(z) == Some([0]);
    ParseCons(0, z, ",", z);
    assert Dec(0) + ("," + z) == "0,0";
    assert ParseValues("0,0") == Some([0] + [0]);
    assert [0] + [0] == [0, 0];
  }

  lemma SeparatorShape(i: nat)
    ensures Separator(i) != [] && Separator(i)[0] == ','
    ensures forall j :: 1 <= j < |Separator(i)| ==> IsBlank(Separator(i)[j])
  {
  }

  lemma SliceCons(s: seq<Byte>, k: nat, tail: seq<Byte>)
    requires k < |s|
    ensures s[k..] + tail == [s[k]] + (s[k + 1..] + tail)
  {
    assert s[k..] == [s[k]] + s[k + 1..];
  }

  lemma TailStartsWithDigit(data: seq<Byte>, k: nat)
    requires k < |data|
    ensures Tail(data, k) != [] && IsDigit(Tail(data, k)[0])
  {
    var d := Dec(data[k]);
    assert Tail(data, k)[0] == d[0];
  }

  lemma {:induction false} ParseTail(data: seq<Byte>, k: nat)
    requires k < |data|
    ensures ParseValues(Tail(data, k)) == Some(data[k..] + [0, 0])
    decreases |data| - k
  {
    var v := data[k];
    var d := Dec(v);
    DecRoundTrip(v);
    var t := Tail(data, k);
    if k == |data| - 1 {
      ParseSentinels();
      ParseCons(v, d, ",", "0,0");
      assert t == d + ("," + "0,0");
      assert data[k..] == [v];
    } else {
      var rest := Tail(data, k + 1);
      ParseTail(data, k + 1);
      TailStartsWithDigit(data, k + 1);
      SeparatorShape(k);
      ParseCons(v, d, Separator(k), rest);
      assert t == d + (Separator(k) + rest);
      SliceCons(data, k, [0, 0]);
    }
  }

  /** Parsing the emitted literal gives back the file's bytes followed by
      the two zero sentinels. */
  lemma LiteralRoundTrip(data: seq<Byte>)
    requires |data| >= 1
    ensures ParseValues(Literal(data)) == Some(data + [0, 0])
  {
    ItemsThenTail(data, 0);
    assert Literal(data) == Tail(data, 0);
    ParseTail(data, 0);
    assert data[0..] == data;
  }

  // ---------------------------------------------------------------------------
  // Line layout of the literal.

  function Count(s: string, c: char): nat {
    if s == [] then 0 else (if s[0] == c then 1 else 0) + Count(s[1..], c)
  }

  lemma {:induction false} CountAppend(a: string, b: string, c: char)
    ensures Count(a + b, c) == Count(a, c) + Count(b, c)
    decreases |a|
  {
    if a == [] {
      assert a + b == b;
    } else {
      assert (a + b)[1..] == a[1..] + b;
      CountAppend(a[1..], b, c);
    }
  }

  lemma {:induction false} CountDigits(s: string)
    requires AllDigits(s)
    ensures Count(s, '\n') == 0
    decreases |s|
  {
    if s != [] {
      CountDigits(s[1..]);
    }
  }

  lemma SeparatorLineBreaks(i: nat)
    ensures Count(Separator(i), '\n') == if i % 40 == 39 then 1 else 0
  {
    if i % 40 == 39 {
      assert Count(",\r\n  ", '\n') == 1;
    } else {
      assert Count(",", '\n') == 0;
    }
  }

  lemma GroupStep(j: nat)
    ensures (j + 1) / 40 == j / 40 + if j % 40 == 39 then 1 else 0
  {
  }

  /** One line break after each complete group of 40 values. */
  lemma {:induction false} ItemsLineBreaks(data: seq<Byte>, k: nat)
    requires k <= |data|
    ensures Count(Items(data, k), '\n') == k / 40
    decreases k
  {
    if k > 0 {
      ItemsLineBreaks(data, k - 1);
      var a, b, c := Items(data, k - 1), Dec(data[k - 1]), Separator(k - 1);
      assert Items(data, k) == a + b + c;
      CountAppend(a, b, '\n');
      CountAppend(a + b, c, '\n');
      CountDigits(b);
      SeparatorLineBreaks(k - 1);
      GroupStep(k - 1);
    }
  }

  /** The literal breaks its line after values 40, 80, ... but never after
      the last value: (|data| - 1) / 40 line breaks in all. */
  lemma LiteralLineBreaks(data: seq<Byte>)
    requires |data| >= 1
    ensures Count(Literal(data), '\n') == (|data| - 1) / 40
  {
    var n := |data|;
    var a, b := Items(data, n - 1), Dec(data[n - 1]);
    ItemsLineBreaks(data, n - 1);
    CountAppend(a, b, '\n');
    CountAppend(a + b, ",0,0", '\n');
    CountDigits(b);
    assert Count(",0,0", '\n') == 0;
  }

  /** Arrays numbered differently have different names. */
  lemma TempNamesDistinct(a: nat, b: nat)
    requires a != b
    ensures TempName(a) != TempName(b)
  {
    DecInjective(a, b);
    assert TempName(a)[4..] == Dec(a);
    assert TempName(b)[4..] == Dec(b);
  }
}
