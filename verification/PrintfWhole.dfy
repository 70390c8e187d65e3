/** What whole formats print, told without the parser, the flag set and the conversion buffer: the meaning
    of each conversion with its own arguments, one after the other. */
module PrintfWhole {
  import opened Bits
  import opened PrintfText
  import opened PrintfRead
  import opened PrintfFormat
  import opened PrintfNumbers

  /** The arguments of a conversion: its stars, then its value. */
  function ArgsOf(x: Conversion, a: Arg): seq<Arg> { FieldArgs(x.width) + FieldArgs(x.prec) + [a] }

  lemma PrintOne(x: Conversion, a: Arg, rest: string, more: seq<Arg>)
    requires WellWritten(x)
    ensures var p := Spec(AllFlags(x), WidthOf(x.width), PrecOf(x.prec), [x.conv] + rest, [a] + more);
      Text("%" + Write(x) + rest, ArgsOf(x, a) + more) == Piece(x.conv, p).0 + Text(rest, Piece(x.conv, p).1)
  {
    hide Piece, Write, Text, AllFlags, WidthOf, PrecOf, WellWritten;
    TextOne(x, rest, [a] + more);
    assert ArgsOf(x, a) + more == FieldArgs(x.width) + (FieldArgs(x.prec) + ([a] + more));
  }

  // Characters and strings.

  /** Spaces in front, or behind when left aligned. */
  function Padded(s: string, width: nat, left: bool): string {
    if left then s + Repeat(' ', width - |s|) else Repeat(' ', width - |s|) + s
  }

  predicate NulFree(s: string) { forall i :: 0 <= i < |s| ==> s[i] != '\0' }

  /** s holds the C string t: it ends there, or at a NUL. */
  predicate Holds(s: string, t: string) { NulFree(t) && (s == t || t + "\0" <= s) }

  lemma {:induction false} CLenIs(s: string, t: string)
    requires Holds(s, t)
    ensures CLen(s) == |t| && s[..|t|] == t
  {
    if t != [] {
      assert s[0] == t[0] && s[1..] == if s == t then t[1..] else s[1..];
      if s != t {
        assert forall i :: 0 <= i < |t| ==> s[1..][i] == (t + "\0")[1..][i];
      }
      CLenIs(s[1..], t[1..]);
    }
  }

  function Cut(t: string, x: Conversion): string {
    if x.prec.Absent? || |t| <= PrecOf(x.prec) then t else t[..PrecOf(x.prec)]
  }

  /** A string takes one argument, and is printed up to its precision in a field of its width. */
  lemma StringPrinted(x: Conversion, s: string, t: string, rest: string, more: seq<Arg>)
    requires WellWritten(x) && x.conv == 's' && Holds(s, t)
    ensures Text("%" + Write(x) + rest, ArgsOf(x, StrArg(s)) + more)
      == Padded(Cut(t, x), WidthOf(x.width), LeftOf(x)) + Text(rest, more)
  {
    hide Text, Write, WellWritten, AllFlags, WidthOf, PrecOf, LeftOf, StringText;
    PrintOne(x, StrArg(s), rest, more);
    assert ([StrArg(s)] + more)[1..] == more;
    StringTextIs(s, t, x);
  }

  lemma StringTextIs(s: string, t: string, x: Conversion)
    requires Holds(s, t)
    ensures StringText(s, PrecOf(x.prec), WidthOf(x.width), AllFlags(x))
      == Padded(Cut(t, x), WidthOf(x.width), LeftOf(x))
  {
    hide AllFlags, WidthOf, PrecOf, LeftOf, Repeat;
    FlagsIn(x);
    CLenIs(s, t);
    var l := Shown(s, PrecOf(x.prec), AllFlags(x));
    var u := Cut(t, x);
    assert s[..l] == s[..|t|][..l] == u;
    var r := Repeat(' ', WidthOf(x.width) - l);
    assert r + u + [] == r + u && [] + u + r == u + r;
  }

  lemma FlagsIn(x: Conversion)
    ensures Left in AllFlags(x) <==> LeftOf(x)
    ensures Precision in AllFlags(x) <==> !x.prec.Absent?
  {
  }

  lemma CharPrinted(x: Conversion, v: int, rest: string, more: seq<Arg>)
    requires WellWritten(x) && x.conv == 'c'
    ensures Text("%" + Write(x) + rest, ArgsOf(x, IntArg(v)) + more)
      == Padded([(v % 0x100) as char], WidthOf(x.width), LeftOf(x)) + Text(rest, more)
  {
    hide Text, Write, WellWritten, AllFlags, WidthOf, PrecOf, LeftOf, CharText, Padded;
    PrintOne(x, IntArg(v), rest, more);
    assert ([IntArg(v)] + more)[1..] == more;
    CharTextIs((v % 0x100) as char, x);
  }

  lemma CharTextIs(c: char, x: Conversion)
    ensures CharText(c, WidthOf(x.width), AllFlags(x)) == Padded([c], WidthOf(x.width), LeftOf(x))
  {
    hide AllFlags, WidthOf, LeftOf, Repeat;
    FlagsIn(x);
    var r := Repeat(' ', WidthOf(x.width) - 1);
    assert r + [c] + [] == r + [c] && [] + [c] + r == [c] + r;
  }

  // Numbers.

  function Modulus(length: string): nat {
    if length == "hh" then 0x100
    else if length == "h" then 0x1_0000
    else if length in {"ll", "j"} then 0x1_0000_0000_0000_0000
    else 0x1_0000_0000
  }

  /** The value that an argument stands for at the width of its conversion; char is unsigned. */
  function ValueOf(x: Conversion, v: int): int {
    var m := Modulus(x.length);
    if x.conv in {'d', 'i'} && x.length != "hh" && v % m >= m / 2 then v % m - m else v % m
  }

  /** '0' gives way to a precision, '+' and ' ' are for signed conversions, '#' is for the others. */
  function WrittenStyle(x: Conversion): Style {
    var signed := x.conv in {'d', 'i'};
    Style(LeftOf(x), '0' in x.flags && x.prec.Absent?, '+' in x.flags && signed, ' ' in x.flags && signed,
      '#' in x.flags && x.conv in {'x', 'X', 'o', 'b'}, x.conv == 'X', !x.prec.Absent?)
  }

  function Shape(x: Conversion, r: int): Number {
    NumberOf(if r < 0 then -r else r, r < 0, BaseOf(x.conv), PrecOf(x.prec), WidthOf(x.width), WrittenStyle(x))
  }

  /** It goes through the buffer whole: zeros whose place a prefix takes are there, and 32 characters are
      enough. */
  predicate Fits(x: Conversion, r: int) {
    Shape(x, r).zeros >= 0 && Size(Shape(x, r)) <= 32
  }

  lemma ArgValueIs(x: Conversion, v: int)
    requires WellWritten(x)
    ensures ArgValue(v, x.conv, AllFlags(x)) == ValueOf(x, v)
  {
    hide AllFlags;
    WrittenFlags(x);
    assert SignedWrap(v, U64) == if v % U64 >= U64 / 2 then v % U64 - U64 else v % U64 by { WrapIs(v, U64); }
    WrapIs(v, U32);
    WrapIs(v, U16);
  }

  lemma WrapIs(v: int, m: nat)
    requires m > 0 && m % 2 == 0
    ensures SignedWrap(v, m) == if v % m >= m / 2 then v % m - m else v % m
  {
    DivRem(v, m);
    DivRem(v + m / 2, m);
    if v % m >= m / 2 {
      RemUnique(v + m / 2, m, v / m + 1, v % m + m / 2 - m);
    } else {
      RemUnique(v + m / 2, m, v / m, v % m + m / 2);
    }
  }

  lemma WrittenFlags(x: Conversion)
    requires WellWritten(x)
    ensures var f, g := AllFlags(x), FlagsOf(x.flags);
      && (LongLong in f <==> x.length in {"ll", "j"})
      && (Long in f <==> x.length in {"l", "ll", "z", "t"})
      && (Char in f <==> x.length == "hh")
      && (Short in f <==> x.length in {"h", "hh"})
      && Upper !in f && (Zeropad in f <==> Zeropad in g) && (Plus in f <==> Plus in g) && (Space in f <==> Space in g)
      && (Hash in f <==> Hash in g)
  {
    hide FlagsOf, LengthFlags;
    GivenFlags(x.flags);
    LengthsApart(x.length);
  }

  lemma GivenFlags(fs: string)
    ensures FlagsOf(fs) <= {Zeropad, Left, Plus, Space, Hash}
    ensures Zeropad in FlagsOf(fs) <==> '0' in fs
    ensures Left in FlagsOf(fs) <==> '-' in fs
    ensures Plus in FlagsOf(fs) <==> '+' in fs
    ensures Space in FlagsOf(fs) <==> ' ' in fs
    ensures Hash in FlagsOf(fs) <==> '#' in fs
  {
  }

  lemma LengthsApart(ls: string)
    requires IsLength(ls)
    ensures LongLong in LengthFlags(ls) <==> ls in {"ll", "j"}
    ensures Long in LengthFlags(ls) <==> ls in {"l", "ll", "z", "t"}
    ensures Char in LengthFlags(ls) <==> ls == "hh"
    ensures Short in LengthFlags(ls) <==> ls in {"h", "hh"}
    ensures LengthFlags(ls) <= {Long, LongLong, Char, Short}
  {
    assert |ls| <= 2;
  }

  lemma StyleIs(x: Conversion)
    requires WellWritten(x) && IsInteger(x.conv)
    ensures StyleOf(IntegerFlags(x.conv, AllFlags(x))) == WrittenStyle(x)
    ensures Upper in IntegerFlags(x.conv, AllFlags(x)) <==> x.conv == 'X'
  {
    hide AllFlags, LeftOf, FlagsOf, IntegerFlags;
    WrittenFlags(x);
    FlagsIn(x);
    GivenFlags(x.flags);
    FlagsKept(x.conv, AllFlags(x));
  }

  lemma FlagsKept(c: char, f: Flags)
    requires IsInteger(c)
    ensures var g := IntegerFlags(c, f);
      && (Left in g <==> Left in f) && (Precision in g <==> Precision in f)
      && (Zeropad in g <==> Zeropad in f && Precision !in f)
      && (Plus in g <==> Plus in f && c in {'d', 'i'}) && (Space in g <==> Space in f && c in {'d', 'i'})
      && (Hash in g <==> Hash in f && c in {'x', 'X', 'o', 'b'}) && (Upper in g <==> Upper in f || c == 'X')
  {
  }

  /** An integer takes one argument, and is printed as its sign, prefix, zeros and digits in a field of its
      width. */
  lemma NumberPrinted(x: Conversion, v: int, rest: string, more: seq<Arg>)
    requires WellWritten(x) && IsInteger(x.conv) && Fits(x, ValueOf(x, v))
    ensures Text("%" + Write(x) + rest, ArgsOf(x, IntArg(v)) + more)
      == Laid(Shape(x, ValueOf(x, v)), WidthOf(x.width), WrittenStyle(x)) + Text(rest, more)
  {
    hide Text, Write, WellWritten, AllFlags, WidthOf, PrecOf, NtoaText, Laid, ArgValue, ValueOf, NumberOf, DigitString,
      IntegerFlags, WrittenStyle;
    PrintOne(x, IntArg(v), rest, more);
    assert ([IntArg(v)] + more)[1..] == more;
    ArgValueIs(x, v);
    StyleIs(x);
    var r := ValueOf(x, v);
    NtoaIs(Magnitude(r), r < 0, BaseOf(x.conv), PrecOf(x.prec), WidthOf(x.width),
      IntegerFlags(x.conv, AllFlags(x)));
  }

  /** A pointer is a 32-bit number in upper case base 16, eight digits wide, with every flag in force. */
  function PointerStyle(x: Conversion): Style {
    Style(LeftOf(x), true, '+' in x.flags, ' ' in x.flags, '#' in x.flags, true, !x.prec.Absent?)
  }

  function PointerShape(x: Conversion, v: int): Number {
    NumberOf(v % 0x1_0000_0000, false, 16, PrecOf(x.prec), 8, PointerStyle(x))
  }

  predicate PointerFits(x: Conversion, v: int) {
    PointerShape(x, v).zeros >= 0 && Size(PointerShape(x, v)) <= 32
  }

  lemma PointerPrinted(x: Conversion, v: int, rest: string, more: seq<Arg>)
    requires WellWritten(x) && x.conv == 'p' && PointerFits(x, v)
    ensures Text("%" + Write(x) + rest, ArgsOf(x, IntArg(v)) + more)
      == Laid(PointerShape(x, v), 8, PointerStyle(x)) + Text(rest, more)
  {
    hide Text, Write, WellWritten, AllFlags, WidthOf, PrecOf, NtoaText, Laid, NumberOf, DigitString;
    PrintOne(x, IntArg(v), rest, more);
    assert ([IntArg(v)] + more)[1..] == more;
    var f := AllFlags(x) + {Zeropad, Upper};
    PointerStyleIs(x);
    NtoaIs(v % U32, false, 16, PrecOf(x.prec), 8, f);
  }

  lemma PointerStyleIs(x: Conversion)
    requires WellWritten(x)
    ensures StyleOf(AllFlags(x) + {Zeropad, Upper}) == PointerStyle(x)
  {
    hide AllFlags, LeftOf;
    WrittenFlags(x);
    FlagsIn(x);
    hide FlagsOf;
    GivenFlags(x.flags);
  }

  // Whole formats.

  /** Text, then a conversion with its argument. */
  datatype Item = Item(before: string, x: Conversion, a: Arg)

  /** A conversion with the kind of argument that it needs. */
  predicate ItemOk(it: Item) {
    var x, a := it.x, it.a;
    && Plain(it.before) && WellWritten(x)
    && (x.conv == 's' ==> a.StrArg?)
    && (x.conv == 'c' ==> a.IntArg?)
    && (x.conv == 'p' ==> a.IntArg? && PointerFits(x, a.v))
    && (IsInteger(x.conv) ==> a.IntArg? && Fits(x, ValueOf(x, a.v)))
  }

  /** A percent sign, or any other character that names no conversion, prints itself and takes no argument. */
  predicate TakesNone(c: char) { c !in {'d', 'i', 'u', 'x', 'X', 'o', 'b', 'c', 's', 'p'} }

  function CString(s: string): string { s[..CLen(s)] }

  function Meaning(it: Item): string
    requires ItemOk(it)
  {
    var x, a := it.x, it.a;
    if TakesNone(x.conv) then [x.conv]
    else if x.conv == 's' then Padded(Cut(CString(a.s), x), WidthOf(x.width), LeftOf(x))
    else if x.conv == 'c' then Padded([(a.v % 0x100) as char], WidthOf(x.width), LeftOf(x))
    else if x.conv == 'p' then Laid(PointerShape(x, a.v), 8, PointerStyle(x))
    else Laid(Shape(x, ValueOf(x, a.v)), WidthOf(x.width), WrittenStyle(x))
  }

  function ItemArgs(it: Item): seq<Arg> {
    if TakesNone(it.x.conv) then FieldArgs(it.x.width) + FieldArgs(it.x.prec) else ArgsOf(it.x, it.a)
  }

  function WholeFormat(items: seq<Item>, last: string): string {
    if items == [] then last else items[0].before + ("%" + Write(items[0].x) + WholeFormat(items[1..], last))
  }

  function WholeArgs(items: seq<Item>): seq<Arg> {
    if items == [] then [] else ItemArgs(items[0]) + WholeArgs(items[1..])
  }

  function WholeText(items: seq<Item>, last: string): string
    requires forall i :: 0 <= i < |items| ==> ItemOk(items[i])
  {
    if items == [] then last else items[0].before + (Meaning(items[0]) + WholeText(items[1..], last))
  }

  lemma Prefixed(s: string)
    ensures Holds(s, CString(s))
  {
    if s != [] && s[0] != '\0' {
      Prefixed(s[1..]);
      assert CString(s) == [s[0]] + CString(s[1..]);
    }
  }

  lemma ItemPrinted(it: Item, rest: string, more: seq<Arg>)
    requires ItemOk(it)
    ensures Text("%" + Write(it.x) + rest, ItemArgs(it) + more) == Meaning(it) + Text(rest, more)
  {
    hide Text, Write, Padded, Laid, CString, PointerShape, Shape, PointerFits, Fits, PointerStyle, WrittenStyle,
      ValueOf, AllFlags, FieldArgs, WidthOf, LeftOf, Holds, PrecOf, Cut;
    if TakesNone(it.x.conv) {
      TextOne(it.x, rest, more);
      assert ItemArgs(it) + more == FieldArgs(it.x.width) + (FieldArgs(it.x.prec) + more);
    } else if it.x.conv == 's' {
      Prefixed(it.a.s);
      StringPrinted(it.x, it.a.s, CString(it.a.s), rest, more);
    } else if it.x.conv == 'c' {
      CharPrinted(it.x, it.a.v, rest, more);
    } else if it.x.conv == 'p' {
      PointerPrinted(it.x, it.a.v, rest, more);
    } else {
      NumberPrinted(it.x, it.a.v, rest, more);
    }
  }

  /** A format prints its text and what each of its conversions means, in order; each conversion takes its own
      arguments. */
  lemma {:induction false} FormatPrinted(items: seq<Item>, last: string)
    requires Plain(last) && forall i :: 0 <= i < |items| ==> ItemOk(items[i])
    ensures Text(WholeFormat(items, last), WholeArgs(items)) == WholeText(items, last)
  {
    hide Text, Write, Meaning, ItemOk, ItemArgs;
    if items == [] {
      assert last + "" == last;
      TextLiteral(last, "", []);
      TextNone([]);
    } else {
      var it := items[0];
      assert ItemOk(it);
      PlainItem(it);
      TextLiteral(it.before, "%" + Write(it.x) + WholeFormat(items[1..], last), WholeArgs(items));
      ItemPrinted(it, WholeFormat(items[1..], last), WholeArgs(items[1..]));
      FormatPrinted(items[1..], last);
    }
  }

  /** Such a format has no float and is not cut short. */
  lemma {:induction false} FormatSupported(items: seq<Item>, last: string)
    requires Plain(last) && forall i :: 0 <= i < |items| ==> ItemOk(items[i])
    ensures Supported(WholeFormat(items, last), WholeArgs(items))
  {
    hide Text, Supported, Write, ItemOk, ItemArgs, Piece;
    if items == [] {
      assert last + "" == last;
      TextLiteral(last, "", []);
      TextNone([]);
    } else {
      var it, rest, more := items[0], WholeFormat(items[1..], last), WholeArgs(items[1..]);
      assert ItemOk(it);
      PlainItem(it);
      TextLiteral(it.before, "%" + Write(it.x) + rest, WholeArgs(items));
      ItemSupported(it, rest, more);
      FormatSupported(items[1..], last);
    }
  }

  lemma ItemSupported(it: Item, rest: string, more: seq<Arg>)
    requires ItemOk(it)
    ensures Supported("%" + Write(it.x) + rest, ItemArgs(it) + more) == Supported(rest, more)
  {
    hide Text, Supported, Write, AllFlags, FieldArgs, WidthOf, PrecOf, IntegerText, NtoaText, StringText, CharText,
      PointerFits, Fits, Shape, ValueOf;
    var x := it.x;
    var args := if TakesNone(x.conv) then more else [it.a] + more;
    SupportedOne(x, rest, args);
    assert ([it.a] + more)[1..] == more;
    assert ItemArgs(it) + more == FieldArgs(x.width) + (FieldArgs(x.prec) + args);
  }

  lemma TextNone(args: seq<Arg>)
    ensures Text("", args) == "" && Supported("", args)
  {
  }

  lemma PlainItem(it: Item)
    requires ItemOk(it)
    ensures Plain(it.before)
  {
  }
}
