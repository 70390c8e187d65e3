/** Lines of strings and of numbers: what is printed, and that a reader gets the arguments back. */
module PrintfLines {
  import opened Bits
  import opened PrintfText
  import opened PrintfRead
  import opened PrintfFormat
  import opened PrintfNumbers
  import opened PrintfWhole

  function Simple(length: string, c: char): Conversion { Conversion("", Absent, Absent, length, c) }

  lemma SimpleIs(length: string, c: char, a: Arg)
    ensures Write(Simple(length, c)) == length + [c]
    ensures ArgsOf(Simple(length, c), a) == [a]
    ensures WidthOf(Absent) == 0 && PrecOf(Absent) == 0 && !LeftOf(Simple(length, c))
  {
    assert "" + ("" + ("" + (length + [c]))) == length + [c];
    assert [] + [] + [a] == [a];
  }

  // Strings.

  function StringsFormat(seps: seq<string>): string
    requires seps != []
  {
    if |seps| == 1 then seps[0] else seps[0] + "%s" + StringsFormat(seps[1..])
  }

  function StringArgs(strs: seq<string>): seq<Arg> {
    if strs == [] then [] else [StrArg(strs[0])] + StringArgs(strs[1..])
  }

  /** Separators and strings in turn. */
  function Interleave(seps: seq<string>, strs: seq<string>): string
    requires |seps| == |strs| + 1
  {
    if strs == [] then seps[0] else seps[0] + strs[0] + Interleave(seps[1..], strs[1..])
  }

  /** Every "%s" prints its own string. */
  lemma {:induction false} StringsPrinted(seps: seq<string>, strs: seq<string>)
    requires |seps| == |strs| + 1
    requires forall i :: 0 <= i < |seps| ==> Plain(seps[i])
    requires forall i :: 0 <= i < |strs| ==> NulFree(strs[i])
    ensures Text(StringsFormat(seps), StringArgs(strs)) == Interleave(seps, strs)
  {
    hide Text, Plain, NulFree;
    if strs == [] {
      TextLiteral(seps[0], "", []);
      assert seps[0] + "" == seps[0];
      TextNone([]);
      assert seps[0] + "" == seps[0];
    } else {
      var rest, more := StringsFormat(seps[1..]), StringArgs(strs[1..]);
      assert StringsFormat(seps) == seps[0] + ("%s" + rest);
      TextLiteral(seps[0], "%s" + rest, StringArgs(strs));
      PlainString(strs[0], rest, more);
      StringsPrinted(seps[1..], strs[1..]);
    }
  }

  lemma PlainString(s: string, rest: string, more: seq<Arg>)
    requires NulFree(s)
    ensures Text("%s" + rest, [StrArg(s)] + more) == s + Text(rest, more)
  {
    hide Text, ArgsOf, Write;
    var x := Simple("", 's');
    SimpleIs("", 's', StrArg(s));
    StringPrinted(x, s, s, rest, more);
    assert "%" + ("" + "s") + rest == "%s" + rest;
    RepeatLess(' ', 0 - |s|);
    assert [] + s == s;
  }

  // Numbers.

  function SignedDigits(v: int, base: nat, upper: bool): string
    requires 2 <= base <= 16
  {
    if v < 0 then "-" + DigitString(-v, base, upper) else DigitString(v, base, upper)
  }

  /** v is a value of the type that the conversion and its length modifier name, and not a binary number of
      more than 32 digits. */
  predicate InRange(length: string, c: char, v: int) {
    var m := Modulus(length);
    && (if c in {'d', 'i'} && length != "hh" then 0 - m / 2 <= v < m / 2 else 0 <= v < m)
    && (c == 'b' ==> v < 0x1_0000_0000)
  }

  /** Without flags, width and precision: a minus sign if it is negative, and the digits. */
  lemma PlainNumber(length: string, c: char, v: int, rest: string, more: seq<Arg>)
    requires IsLength(length) && IsInteger(c) && InRange(length, c, v)
    ensures Text("%" + length + [c] + rest, [IntArg(v)] + more)
      == SignedDigits(v, BaseOf(c), c == 'X') + Text(rest, more)
  {
    hide Text, ArgsOf, Write, DigitString, Laid, Shape, SignedDigits, Fits, ValueOf, InRange, PrecOf, WidthOf, Modulus;
    var x := Simple(length, c);
    SimpleIs(length, c, IntArg(v));
    InRangeValue(x, v);
    PlainShape(length, c, v);
    NumberPrinted(x, v, rest, more);
    assert "%" + (length + [c]) + rest == "%" + length + [c] + rest;
  }

  lemma InRangeValue(x: Conversion, v: int)
    requires InRange(x.length, x.conv, v)
    ensures ValueOf(x, v) == v
    ensures (if v < 0 then -v else v) < U64 && (x.conv == 'b' ==> 0 <= v < U32)
  {
    var m := Modulus(x.length);
    if v < 0 { RemUnique(v, m, -1, v + m); } else { RemUnique(v, m, 0, v); }
  }

  lemma PlainShape(length: string, c: char, v: int)
    requires (if v < 0 then -v else v) < U64 && (c == 'b' ==> 0 <= v < U32) && IsInteger(c)
    ensures var x := Simple(length, c);
      Fits(x, v) && Laid(Shape(x, v), 0, WrittenStyle(x)) == SignedDigits(v, BaseOf(c), c == 'X')
  {
    hide DigitString, Power, Laid, Repeat;
    var x, n, base := Simple(length, c), if v < 0 then -v else v, BaseOf(c);
    WordsFit(base);
    DigitStringCount(n, base, c == 'X', if base == 2 then 32 else 31);
    var m := Number(if v < 0 then "-" else "", "", 0, DigitString(n, base, c == 'X'));
    assert Shape(x, v) == m;
    LaidBare(m, 0, WrittenStyle(x));
    RepeatLess(' ', 0 - |m.sign + m.ds|);
    assert [] + (m.sign + m.ds) == m.sign + m.ds;
  }

  // Reading a line of numbers.

  /** Where the first word ends. */
  function WordEnd(s: string): (n: nat)
    ensures n <= |s|
  {
    if s == [] || s[0] == ' ' then 0 else 1 + WordEnd(s[1..])
  }

  /** The numbers of a line, each ended by a space. */
  function ReadAll(s: string, base: nat): seq<int>
    decreases |s|
  {
    var n := WordEnd(s);
    if n == |s| then [] else [ReadInt(s[..n], base)] + ReadAll(s[n + 1..], base)
  }

  lemma {:induction false} WordEndAt(w: string, rest: string)
    requires forall i :: 0 <= i < |w| ==> w[i] != ' '
    ensures WordEnd(w + (" " + rest)) == |w|
  {
    var s := w + (" " + rest);
    if w == [] {
      assert s == " " + rest;
    } else {
      assert s[1..] == w[1..] + (" " + rest);
      WordEndAt(w[1..], rest);
    }
  }

  lemma {:induction false} ReadDigitsEnd(s: string, c: char, base: nat, acc: nat)
    requires AllDigits(s, base) && DigitValue(c) < base
    ensures ReadDigits(s + [c], base, acc) == Shift(ReadDigits(s, base, acc), base, DigitValue(c))
  {
    hide DigitValue, Shift;
    if s == [] {
      assert s + [c] == [c] && [c][1..] == [];
    } else {
      assert (s + [c])[1..] == s[1..] + [c];
      ReadDigitsEnd(s[1..], c, base, Shift(acc, base, DigitValue(s[0])));
    }
  }

  lemma {:induction false} DigitStringReads(v: nat, base: nat, upper: bool)
    requires 2 <= base <= 16
    ensures AllDigits(DigitString(v, base, upper), base) && ReadDigits(DigitString(v, base, upper), base, 0) == v
    decreases v
  {
    hide DigitString, DigitValue, DigitChar, ReadDigits, Shift;
    DigitStringStep(v, base, upper);
    DigitsEnd(v, base);
    DigitRound(v % base, upper);
    ShiftBack(v, base);
    var c := DigitChar(v % base, upper);
    if v < base {
      ReadDigitsEnd([], c, base, 0);
      ReadNone([], base, 0);
    } else {
      DigitStringReads(v / base, base, upper);
      ReadDigitsEnd(DigitString(v / base, base, upper), c, base, 0);
    }
  }

  lemma SignedDigitsRead(v: int, base: nat, upper: bool)
    requires 2 <= base <= 16
    ensures var w := SignedDigits(v, base, upper);
      ReadInt(w, base) == v && forall i :: 0 <= i < |w| ==> w[i] != ' '
  {
    hide DigitString, ReadDigits;
    var n := if v < 0 then -v else v;
    var ds := DigitString(n, base, upper);
    DigitStringReads(n, base, upper);
    forall i | 0 <= i < |ds| ensures ds[i] !in {' ', '-', '+'} { NotMark(ds[i], base); }
    assert ("-" + ds)[1..] == ds;
  }

  /** n conversions, each with a space behind it. */
  function NumbersFormat(length: string, c: char, n: nat): string {
    if n == 0 then "" else "%" + length + [c] + (" " + NumbersFormat(length, c, n - 1))
  }

  function NumberArgs(vs: seq<int>): seq<Arg> {
    if vs == [] then [] else [IntArg(vs[0])] + NumberArgs(vs[1..])
  }

  predicate IsBase(c: char, base: nat) {
    (c, base) in {('d', 10), ('i', 10), ('u', 10), ('x', 16), ('X', 16), ('o', 8), ('b', 2)}
  }

  /** A line of numbers reads back as the numbers, in order. */
  lemma {:induction false} NumbersReadBack(length: string, c: char, base: nat, vs: seq<int>)
    requires IsLength(length)
    requires IsBase(c, base)
    requires forall i :: 0 <= i < |vs| ==> InRange(length, c, vs[i])
    ensures ReadAll(Text(NumbersFormat(length, c, |vs|), NumberArgs(vs)), base) == vs
  {
    hide Text, InRange, IsLength, IsBase, ReadAll;
    if vs == [] {
      TextNone([]);
      ReadNothing(base);
    } else {
      NumbersReadBack(length, c, base, vs[1..]);
      FirstReads(length, c, base, vs[0], NumbersFormat(length, c, |vs| - 1), NumberArgs(vs[1..]));
    }
  }

  lemma ReadNothing(base: nat)
    ensures ReadAll("", base) == []
  {
  }

  lemma FirstReads(length: string, c: char, base: nat, v: int, rest: string, more: seq<Arg>)
    requires IsLength(length)
    requires IsBase(c, base)
    requires InRange(length, c, v)
    ensures ReadAll(Text("%" + length + [c] + (" " + rest), [IntArg(v)] + more), base)
      == [v] + ReadAll(Text(rest, more), base)
  {
    hide Text, InRange, ReadInt, SignedDigits, ReadAll, WordEnd;
    var w, tail := SignedDigits(v, base, c == 'X'), Text(rest, more);
    PlainNumber(length, c, v, " " + rest, more);
    TextLiteral(" ", rest, more);
    SignedDigitsRead(v, base, c == 'X');
    ReadAllStep(w, tail, base);
  }

  lemma ReadAllStep(w: string, tail: string, base: nat)
    requires forall i :: 0 <= i < |w| ==> w[i] != ' '
    ensures ReadAll(w + (" " + tail), base) == [ReadInt(w, base)] + ReadAll(tail, base)
  {
    hide ReadInt, WordEnd;
    WordEndAt(w, tail);
    var s := w + (" " + tail);
    assert s[..|w|] == w && s[|w| + 1..] == tail;
  }

  // Fields.

  /** "%5s" pads in front, "%-5s" behind. */
  lemma StringFields(s: string)
    requires NulFree(s) && |s| <= 5
    ensures Text("%5s", [StrArg(s)]) == Repeat(' ', 5 - |s|) + s
    ensures Text("%-5s", [StrArg(s)]) == s + Repeat(' ', 5 - |s|)
  {
    hide *;
    FieldOf(s);
    FiveFront(s);
    FiveBehind(s);
    StringAlone(Conversion("", Written("5"), Absent, "", 's'), "%5s", s);
    StringAlone(Conversion("-", Written("5"), Absent, "", 's'), "%-5s", s);
  }

  lemma FieldOf(s: string)
    ensures Padded(s, 5, false) == Repeat(' ', 5 - |s|) + s && Padded(s, 5, true) == s + Repeat(' ', 5 - |s|)
  {
    hide Repeat;
  }

  lemma StringAlone(x: Conversion, f: string, s: string)
    requires WellWritten(x) && x.conv == 's' && NulFree(s) && "%" + Write(x) == f && ArgsOf(x, StrArg(s)) == [StrArg(s)]
    ensures Text(f, [StrArg(s)]) == Padded(Cut(s, x), WidthOf(x.width), LeftOf(x))
  {
    hide Text, WellWritten, Write, WidthOf, LeftOf, ArgsOf, Cut, Padded;
    StringPrinted(x, s, s, "", []);
    assert f + "" == f && [StrArg(s)] + [] == [StrArg(s)];
    TextNone([]);
    var t := Padded(Cut(s, x), WidthOf(x.width), LeftOf(x));
    assert t + "" == t;
  }

  lemma FiveFront(s: string)
    requires |s| <= 5
    ensures var x := Conversion("", Written("5"), Absent, "", 's');
      && WellWritten(x) && "%" + Write(x) == "%5s" && ArgsOf(x, StrArg(s)) == [StrArg(s)]
      && WidthOf(x.width) == 5 && !LeftOf(x) && Cut(s, x) == s
  {
    hide Decimal, Repeat;
    FiveIs();
  }

  lemma FiveBehind(s: string)
    requires |s| <= 5
    ensures var x := Conversion("-", Written("5"), Absent, "", 's');
      && WellWritten(x) && "%" + Write(x) == "%-5s" && ArgsOf(x, StrArg(s)) == [StrArg(s)]
      && WidthOf(x.width) == 5 && LeftOf(x) && Cut(s, x) == s
  {
    hide Decimal, Repeat;
    FiveIs();
  }

  lemma FiveIs()
    ensures Decimal("5") == 5
  {
    assert "5"[1..] == "";
  }

  /** "%12d" has width twelve. */
  lemma NumberField(v: int)
    requires -0x8000_0000 <= v < 0x8000_0000
    ensures var w := SignedDigits(v, 10, false);
      |w| <= 12 && Text("%12d", [IntArg(v)]) == Repeat(' ', 12 - |w|) + w
  {
    hide Text, Decimal, Repeat, DigitString, ParseSpec, Write, WellWritten, ArgsOf, Laid;
    var x := Conversion("", Written("12"), Absent, "", 'd');
    TwelveLaid(v);
    NumberPrinted(x, v, "", []);
    assert "%12d" + "" == "%12d" && [IntArg(v)] + [] == [IntArg(v)];
    TextNone([]);
    var t := Laid(Shape(x, v), 12, WrittenStyle(x));
    assert t + "" == t;
  }

  lemma TwelveLaid(v: int)
    requires -0x8000_0000 <= v < 0x8000_0000
    ensures var x, w := Conversion("", Written("12"), Absent, "", 'd'), SignedDigits(v, 10, false);
      && WellWritten(x) && "%" + Write(x) == "%12d" && ArgsOf(x, IntArg(v)) == [IntArg(v)]
      && ValueOf(x, v) == v && Fits(x, v) && |w| <= 12 && WidthOf(x.width) == 12
      && Laid(Shape(x, v), 12, WrittenStyle(x)) == Repeat(' ', 12 - |w|) + w
  {
    hide Decimal, Repeat, DigitString, ValueOf, Laid, SignedDigits, Shape;
    TwelveIs();
    var x := Conversion("", Written("12"), Absent, "", 'd');
    assert ValueOf(x, v) == v by { InRangeValue(x, v); }
    TwelveShape(v);
    LaidBare(Shape(x, v), 12, WrittenStyle(x));
  }

  lemma TwelveShape(v: int)
    requires -0x8000_0000 <= v < 0x8000_0000
    ensures var m := Shape(Conversion("", Written("12"), Absent, "", 'd'), v);
      m.prefix == "" && m.zeros == 0 && m.sign + m.ds == SignedDigits(v, 10, false) && Size(m) <= 12
  {
    hide Decimal, DigitString;
    TwelveIs();
    TenDigits(if v < 0 then -v else v);
  }

  lemma LaidBare(m: Number, width: nat, st: Style)
    requires m.prefix == "" && m.zeros == 0 && !st.left && !st.zero
    ensures Laid(m, width, st) == Repeat(' ', width - |m.sign + m.ds|) + (m.sign + m.ds)
  {
    hide Repeat;
    RepeatLess('0', 0);
    assert m.sign + "" + [] + m.ds == m.sign + m.ds;
  }

  lemma TwelveIs()
    ensures Decimal("12") == 12
  {
    assert "12"[1..] == "2" && "2"[1..] == "";
  }

  lemma TenDigits(n: nat)
    requires n <= 0x8000_0000
    ensures |DigitString(n, 10, false)| <= 10
  {
    hide DigitString;
    assert Power(10, 5) == 10_0000;
    assert Power(10, 10) == 10 * (10 * (10 * (10 * (10 * Power(10, 5)))));
    DigitStringCount(n, 10, false, 10);
  }
}
