/** Formats as C99 section 7.19.6.1 writes them: text outside conversions is printed as it stands, and the
    parts of a written conversion are read back as what they say. */
module PrintfFormat {
  import opened Bits
  import opened PrintfText
  import opened Printf
  import opened PrintfRead

  // Text outside conversions.

  predicate Plain(a: string) { forall i :: 0 <= i < |a| ==> a[i] != '%' }

  /** It is printed as it stands. */
  lemma {:induction false} TextLiteral(a: string, f: string, args: seq<Arg>)
    requires Plain(a)
    ensures Text(a + f, args) == a + Text(f, args)
    ensures Supported(a + f, args) == Supported(f, args)
  {
    if a == [] {
      assert a + f == f;
    } else {
      assert (a + f)[1..] == a[1..] + f;
      TextLiteral(a[1..], f, args);
    }
  }

  // Writing a conversion.

  /** A width or precision: none, decimal digits, or a star and the argument that it takes. */
  datatype Field = Absent | Written(ds: string) | FromArg(v: int)

  datatype Conversion = Conversion(flags: string, width: Field, prec: Field, length: string, conv: char)

  function FieldText(x: Field): string {
    match x
    case Absent => ""
    case Written(ds) => ds
    case FromArg(_) => "*"
  }

  function FieldArgs(x: Field): seq<Arg> {
    if x.FromArg? then [IntArg(x.v)] else []
  }

  function Write(x: Conversion): string {
    x.flags + (FieldText(x.width) + ((if x.prec.Absent? then "" else "." + FieldText(x.prec)) + (x.length + [x.conv])))
  }

  predicate AllDecimal(ds: string) { forall i :: 0 <= i < |ds| ==> '0' <= ds[i] <= '9' }

  predicate FieldOk(x: Field) {
    match x
    case Absent => true
    case Written(ds) => AllDecimal(ds)
    case FromArg(v) => -0x8000_0000 <= v < 0x8000_0000
  }

  predicate IsLength(s: string) { s in {"", "hh", "h", "l", "ll", "j", "z", "t"} }

  predicate WellWritten(x: Conversion) {
    && (forall i :: 0 <= i < |x.flags| ==> x.flags[i] in {'0', '-', '+', ' ', '#'})
    && FieldOk(x.width) && (x.width.Written? ==> x.width.ds != "" && x.width.ds[0] != '0')
    && FieldOk(x.prec)
    && IsLength(x.length)
    && x.conv !in {'-', '+', ' ', '#', '*', '.', 'h', 'l', 'j', 'z', 't'} && !('0' <= x.conv <= '9')
    && !IsFloat(x.conv)
  }

  // What it means.

  function FlagsOf(fs: string): Flags {
    (if '0' in fs then {Zeropad} else {}) + (if '-' in fs then {Left} else {}) + (if '+' in fs then {Plus} else {})
    + (if ' ' in fs then {Space} else {}) + (if '#' in fs then {Hash} else {})
  }

  function LengthFlags(ls: string): Flags {
    if ls == "hh" then {Short, Char}
    else if ls == "h" then {Short}
    else if ls == "ll" then {Long, LongLong}
    else if ls == "j" then {LongLong}
    else if ls == "" then {}
    else {Long}
  }

  function Decimal(ds: string): nat { ReadDigits(ds, 10, 0) }

  function WidthOf(x: Field): nat {
    match x
    case Absent => 0
    case Written(ds) => Decimal(ds) % U32
    case FromArg(v) => if v < 0 then -v else v
  }

  function PrecOf(x: Field): nat {
    match x
    case Absent => 0
    case Written(ds) => Decimal(ds) % U32
    case FromArg(v) => if v < 0 then 0 else v
  }

  /** Negative star widths mean left alignment. */
  predicate LeftOf(x: Conversion) { '-' in x.flags || (x.width.FromArg? && x.width.v < 0) }

  function AllFlags(x: Conversion): Flags {
    FlagsOf(x.flags) + (if LeftOf(x) then {Left} else {}) + (if x.prec.Absent? then {} else {Precision})
    + LengthFlags(x.length)
  }

  // The parser reads what was written.

  lemma {:induction false} FlagsParsed(fs: string, rest: string, f: Flags)
    requires forall i :: 0 <= i < |fs| ==> fs[i] in {'0', '-', '+', ' ', '#'}
    requires rest != [] ==> rest[0] !in {'0', '-', '+', ' ', '#'}
    ensures ParseFlags(fs + rest, f) == (f + FlagsOf(fs), rest)
  {
    if fs == [] {
      assert fs + rest == rest;
      assert f + FlagsOf(fs) == f;
    } else {
      assert (fs + rest)[1..] == fs[1..] + rest;
      FlagsParsed(fs[1..], rest, WithFlag(f, fs[0]));
      FirstFlag(fs, f);
    }
  }

  lemma FirstFlag(fs: string, f: Flags)
    requires fs != [] && fs[0] in {'0', '-', '+', ' ', '#'}
    ensures WithFlag(f, fs[0]) + FlagsOf(fs[1..]) == f + FlagsOf(fs)
  {
    assert forall c :: c in fs <==> c == fs[0] || c in fs[1..];
  }

  lemma StepRem(acc: nat, d: nat)
    ensures (acc % U32 * 10 + d) % U32 == (acc * 10 + d) % U32
  {
    DivRem(acc, U32);
    var x := acc % U32 * 10 + d;
    DivRem(x, U32);
    assert acc * 10 + d == (acc / U32 * 10 + x / U32) * U32 + x % U32;
    RemUnique(acc * 10 + d, U32, acc / U32 * 10 + x / U32, x % U32);
  }

  lemma {:induction false} NumParsed(ds: string, rest: string, acc: nat)
    requires AllDecimal(ds) && (rest != [] ==> !('0' <= rest[0] <= '9'))
    ensures ParseNum(ds + rest, acc % U32) == (ReadDigits(ds, 10, acc) % U32, rest)
  {
    if ds == [] {
      assert ds + rest == rest;
    } else {
      assert (ds + rest)[1..] == ds[1..] + rest;
      var d := ds[0] as int - '0' as int;
      StepRem(acc, d);
      NumParsed(ds[1..], rest, acc * 10 + d);
    }
  }

  lemma WidthParsed(x: Conversion, rest: string, args: seq<Arg>, f: Flags)
    requires WellWritten(x) && (rest != [] ==> !('0' <= rest[0] <= '9') && rest[0] != '*')
    ensures ParseWidth(FieldText(x.width) + rest, FieldArgs(x.width) + args, f)
      == Spec(f + (if x.width.FromArg? && x.width.v < 0 then {Left} else {}), WidthOf(x.width), 0, rest, args)
  {
    match x.width
    case Absent =>
      assert FieldText(x.width) + rest == rest && FieldArgs(x.width) + args == args;
      assert f + {} == f;
    case Written(ds) =>
      assert FieldArgs(x.width) + args == args && f + {} == f;
      NumParsed(ds, rest, 0);
    case FromArg(v) =>
      assert ("*" + rest)[1..] == rest && ([IntArg(v)] + args)[1..] == args;
      assert f + {} == f;
  }

  lemma PrecParsed(x: Conversion, rest: string, args: seq<Arg>, f: Flags, width: nat)
    requires WellWritten(x) && (rest != [] ==> !('0' <= rest[0] <= '9') && rest[0] != '*' && rest[0] != '.')
    ensures var t := if x.prec.Absent? then "" else "." + FieldText(x.prec);
      ParsePrec(Spec(f, width, 0, t + rest, FieldArgs(x.prec) + args))
      == Spec(f + (if x.prec.Absent? then {} else {Precision}), width, PrecOf(x.prec), rest, args)
  {
    hide ParseNum, WidthOf, Decimal, ReadDigits, SignedWrap;
    match x.prec
    case Absent =>
      assert "" + rest == rest && [] + args == args && f + {} == f;
    case Written(ds) =>
      assert [] + args == args;
      assert ("." + ds + rest)[1..] == ds + rest;
      PrecDigits(ds, rest);
    case FromArg(v) =>
      assert ("." + "*" + rest)[1..] == "*" + rest && ("*" + rest)[1..] == rest && ([IntArg(v)] + args)[1..] == args;
      IntKept(v);
  }

  lemma IntKept(v: int)
    requires -0x8000_0000 <= v < 0x8000_0000
    ensures SignedWrap(v, U32) == v
  {
  }

  lemma PrecDigits(ds: string, rest: string)
    requires AllDecimal(ds) && (rest != [] ==> !('0' <= rest[0] <= '9') && rest[0] != '*')
    ensures ds == "" ==> ds + rest == rest && Decimal(ds) == 0
    ensures ParseNum(ds + rest, 0) == (Decimal(ds) % U32, rest)
  {
    NumParsed(ds, rest, 0);
  }

  lemma LengthParsed(ls: string, rest: string, f: Flags)
    requires IsLength(ls)
    requires rest != [] && rest[0] !in {'h', 'l', 'j', 'z', 't'}
    ensures LengthAt(ls + rest, f) == (f + LengthFlags(ls), |ls|)
  {
    var s := ls + rest;
    if ls == "" {
      assert s == rest && f + {} == f;
    } else if ls == "hh" {
      assert s[0] == 'h' && s[1] == 'h';
      assert f + {Short} + {Char} == f + {Short, Char};
    } else if ls == "ll" {
      assert s[0] == 'l' && s[1] == 'l';
      assert f + {Long} + {LongLong} == f + {Long, LongLong};
    } else {
      assert s[0] == ls[0] && s[1] == rest[0];
    }
  }

  /** Reading a conversion gives back what was written. */
  lemma SpecParsed(x: Conversion, rest: string, args: seq<Arg>)
    requires WellWritten(x)
    ensures ParseSpec(Write(x) + rest, FieldArgs(x.width) + (FieldArgs(x.prec) + args))
      == Spec(AllFlags(x), WidthOf(x.width), PrecOf(x.prec), [x.conv] + rest, args)
  {
    hide ParseFlags, ParseWidth, ParsePrec, LengthAt, FlagsOf, LengthFlags, WidthOf, PrecOf, FieldText, FieldArgs;
    var tail := [x.conv] + rest;
    var t3 := x.length + tail;
    var pt := if x.prec.Absent? then "" else "." + FieldText(x.prec);
    var t2 := pt + t3;
    var t1 := FieldText(x.width) + t2;
    assert Write(x) + rest == x.flags + t1;
    Heads(x, rest);
    FlagsParsed(x.flags, t1, NO_FLAGS);
    var f0 := FlagsOf(x.flags);
    assert NO_FLAGS + f0 == f0;
    WidthParsed(x, t2, FieldArgs(x.prec) + args, f0);
    var f1 := f0 + (if x.width.FromArg? && x.width.v < 0 then {Left} else {});
    PrecParsed(x, t3, args, f1, WidthOf(x.width));
    var f2 := f1 + (if x.prec.Absent? then {} else {Precision});
    LengthParsed(x.length, tail, f2);
    assert t3[|x.length|..] == tail;
    SameFlags(x);
  }

  lemma SameFlags(x: Conversion)
    ensures FlagsOf(x.flags) + (if x.width.FromArg? && x.width.v < 0 then {Left} else {})
      + (if x.prec.Absent? then {} else {Precision}) + LengthFlags(x.length) == AllFlags(x)
  {
  }

  /** No part runs into the next. */
  lemma Heads(x: Conversion, rest: string)
    requires WellWritten(x)
    ensures var tail := [x.conv] + rest;
      var t3 := x.length + tail;
      var t2 := (if x.prec.Absent? then "" else "." + FieldText(x.prec)) + t3;
      var t1 := FieldText(x.width) + t2;
      && tail[0] !in {'h', 'l', 'j', 'z', 't'}
      && !('0' <= t3[0] <= '9') && t3[0] != '*' && t3[0] != '.'
      && !('0' <= t2[0] <= '9') && t2[0] != '*'
      && t1[0] !in {'0', '-', '+', ' ', '#'}
  {
  }

  /** So a conversion prints its piece, and what follows prints with the arguments left. */
  lemma TextOne(x: Conversion, rest: string, args: seq<Arg>)
    requires WellWritten(x)
    ensures var p := Spec(AllFlags(x), WidthOf(x.width), PrecOf(x.prec), [x.conv] + rest, args);
      Text("%" + Write(x) + rest, FieldArgs(x.width) + (FieldArgs(x.prec) + args))
      == Piece(x.conv, p).0 + Text(rest, Piece(x.conv, p).1)
  {
    hide ParseSpec, Piece, Write, WellWritten;
    SpecParsed(x, rest, args);
    var s := "%" + Write(x) + rest;
    assert s[1..] == Write(x) + rest;
    assert ([x.conv] + rest)[1..] == rest;
  }

  lemma SupportedOne(x: Conversion, rest: string, args: seq<Arg>)
    requires WellWritten(x)
    ensures var p := Spec(AllFlags(x), WidthOf(x.width), PrecOf(x.prec), [x.conv] + rest, args);
      Supported("%" + Write(x) + rest, FieldArgs(x.width) + (FieldArgs(x.prec) + args))
      == Supported(rest, Piece(x.conv, p).1)
  {
    hide ParseSpec, Piece, Write, WellWritten;
    NoFloat(x);
    SpecParsed(x, rest, args);
    var s := "%" + Write(x) + rest;
    assert s[1..] == Write(x) + rest;
    assert ([x.conv] + rest)[1..] == rest;
  }

  lemma NoFloat(x: Conversion)
    requires WellWritten(x)
    ensures !IsFloat(x.conv)
  {
  }
}
