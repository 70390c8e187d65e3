/** What printf.c prints: the unbounded text of a format and its arguments, without floats.  Numbers are
    converted through a buffer of 32 characters, last digit first. */
module PrintfText {
  import opened Bits

  const NTOA_SIZE: nat := 32

  datatype Flag = Zeropad | Left | Plus | Space | Hash | Upper | Char | Short | Long | LongLong | Precision

  type Flags = set<Flag>

  const NO_FLAGS: Flags := {}

  datatype Arg = IntArg(v: int) | StrArg(s: string)

  // Numbers.

  function DigitChar(d: nat, upper: bool): char
    requires d < 16
  {
    if d < 10 then '0' + d as char else (if upper then 'A' else 'a') + (d - 10) as char
  }

  /** The digits of value, last first, as many as fit. */
  function Digits(value: nat, base: nat, upper: bool, room: nat): (s: string)
    requires 2 <= base <= 16 && room > 0
    ensures 1 <= |s| <= room
    decreases room
  {
    [DigitChar(value % base, upper)] +
      (if value / base != 0 && room > 1 then Digits(value / base, base, upper, room - 1) else [])
  }

  function Repeat(c: char, n: int): (s: string)
    ensures |s| == if n > 0 then n else 0
    ensures forall i :: 0 <= i < |s| ==> s[i] == c
  {
    if n <= 0 then [] else [c] + Repeat(c, n - 1)
  }

  /** Leading zeros up to n digits, as far as there is room. */
  function PadZeros(buf: string, n: nat): (s: string)
    ensures |s| == if |buf| < n && |buf| < NTOA_SIZE then (if n < NTOA_SIZE then n else NTOA_SIZE) else |buf|
    ensures |buf| <= |s| && s[..|buf|] == buf
  {
    buf + Repeat('0', (if n < NTOA_SIZE then n else NTOA_SIZE) - |buf|)
  }

  function WithRoom(buf: string, c: char): string {
    if |buf| < NTOA_SIZE then buf + [c] else buf
  }

  /** The width left for zeros when a sign will be printed. */
  function SignedWidth(negative: bool, width: nat, f: Flags): nat {
    if Left !in f && width > 0 && Zeropad in f && (negative || Plus in f || Space in f) then width - 1 else width
  }

  function Zeroed(buf: string, prec: nat, width: nat, f: Flags): string {
    if Left in f then buf
    else
      var b := PadZeros(buf, prec);
      if Zeropad in f then PadZeros(b, width) else b
  }

  /** The '#' prefix; it may overwrite padding, or digits. */
  function Hashed(buf: string, base: nat, prec: nat, width: nat, f: Flags): string {
    if Hash !in f then buf
    else
      var cut := Precision !in f && |buf| > 0 && (|buf| == prec || |buf| == width);
      var b := if cut then buf[..|buf| - (if |buf| > 1 && base == 16 then 2 else 1)] else buf;
      var c := if base == 16 && Upper !in f then WithRoom(b, 'x')
               else if base == 16 && Upper in f then WithRoom(b, 'X')
               else if base == 2 then WithRoom(b, 'b') else b;
      WithRoom(c, '0')
  }

  function Signed(buf: string, negative: bool, f: Flags): string {
    if negative then WithRoom(buf, '-')
    else if Plus in f then WithRoom(buf, '+')
    else if Space in f then WithRoom(buf, ' ')
    else buf
  }

  function Reverse(s: string): (r: string)
    ensures |r| == |s|
  {
    if s == [] then [] else [s[|s| - 1]] + Reverse(s[..|s| - 1])
  }

  function RevText(buf: string, width: nat, f: Flags): string {
    (if Left !in f && Zeropad !in f then Repeat(' ', width - |buf|) else [])
    + Reverse(buf)
    + (if Left in f then Repeat(' ', width - |buf|) else [])
  }

  function FormatText(buf: string, negative: bool, base: nat, prec: nat, width: nat, f: Flags): string {
    var w := SignedWidth(negative, width, f);
    RevText(Signed(Hashed(Zeroed(buf, prec, w, f), base, prec, w, f), negative, f), w, f)
  }

  function NtoaText(value: nat, negative: bool, base: nat, prec: nat, width: nat, f: Flags): string
    requires 2 <= base <= 16
  {
    var f1 := if value == 0 then f - {Hash} else f;
    var buf := if Precision !in f || value != 0 then Digits(value, base, Upper in f1, NTOA_SIZE) else [];
    FormatText(buf, negative, base, prec, width, f1)
  }

  // Characters and strings.

  function CharText(c: char, width: nat, f: Flags): string {
    (if Left !in f then Repeat(' ', width - 1) else []) + [c] + (if Left in f then Repeat(' ', width - 1) else [])
  }

  /** A C string ends at its first NUL. */
  function CLen(s: string): (n: nat)
    ensures n <= |s|
  {
    if s == [] || s[0] == '\0' then 0 else 1 + CLen(s[1..])
  }

  function Shown(s: string, prec: nat, f: Flags): (n: nat)
    ensures n <= |s|
  {
    if Precision in f && prec < CLen(s) then prec else CLen(s)
  }

  function StringText(s: string, prec: nat, width: nat, f: Flags): string {
    var l := Shown(s, prec, f);
    (if Left !in f then Repeat(' ', width - l) else []) + s[..l] + (if Left in f then Repeat(' ', width - l) else [])
  }

  // Format strings: %[flags][width][.precision][length]conversion.

  predicate IsDigit(c: char) { '0' <= c <= '9' }

  predicate IsFlag(c: char) { c in {'0', '-', '+', ' ', '#'} }

  function WithFlag(f: Flags, c: char): Flags {
    if c == '0' then f + {Zeropad}
    else if c == '-' then f + {Left}
    else if c == '+' then f + {Plus}
    else if c == ' ' then f + {Space}
    else f + {Hash}
  }

  function ParseFlags(s: string, f: Flags): (r: (Flags, string))
    ensures |r.1| <= |s|
  {
    if s != [] && IsFlag(s[0]) then ParseFlags(s[1..], WithFlag(f, s[0])) else (f, s)
  }

  /** Decimal digits, in 32-bit arithmetic. */
  function ParseNum(s: string, acc: nat): (r: (nat, string))
    ensures |r.1| <= |s|
  {
    if s != [] && IsDigit(s[0]) then ParseNum(s[1..], (acc * 10 + (s[0] as int - '0' as int)) % U32) else (acc, s)
  }

  function SignedWrap(v: int, width: nat): int
    requires width > 0
  {
    (v + width / 2) % width - width / 2
  }

  /** The next argument, as an integer or as a string. */
  function IntOf(args: seq<Arg>): int {
    if args != [] && args[0].IntArg? then args[0].v else 0
  }

  function StrOf(args: seq<Arg>): string {
    if args != [] && args[0].StrArg? then args[0].s else []
  }

  function Rest(args: seq<Arg>): seq<Arg> {
    if args == [] then [] else args[1..]
  }

  datatype Spec = Spec(f: Flags, width: nat, prec: nat, rest: string, args: seq<Arg>)

  function ParseWidth(s: string, args: seq<Arg>, f: Flags): (p: Spec)
    ensures |p.rest| <= |s|
  {
    if s != [] && IsDigit(s[0]) then
      var (n, rest) := ParseNum(s, 0);
      Spec(f, n, 0, rest, args)
    else if s != [] && s[0] == '*' then
      var w := SignedWrap(IntOf(args), U32);
      if w < 0 then Spec(f + {Left}, -w, 0, s[1..], Rest(args)) else Spec(f, w, 0, s[1..], Rest(args))
    else Spec(f, 0, 0, s, args)
  }

  function ParsePrec(p: Spec): (r: Spec)
    ensures |r.rest| <= |p.rest|
  {
    if p.rest == [] || p.rest[0] != '.' then p
    else
      var s := p.rest[1..];
      var f := p.f + {Precision};
      if s != [] && IsDigit(s[0]) then
        var (n, rest) := ParseNum(s, 0);
        p.(f := f, prec := n, rest := rest)
      else if s != [] && s[0] == '*' then
        var n := SignedWrap(IntOf(p.args), U32);
        p.(f := f, prec := if n > 0 then n else 0, rest := s[1..], args := Rest(p.args))
      else p.(f := f, rest := s)
  }

  /** ptrdiff_t and size_t are as wide as long, intmax_t as long long. */
  function ParseLength(p: Spec): (r: Spec)
    ensures |r.rest| <= |p.rest|
  {
    var (f, n) := LengthAt(p.rest, p.f);
    p.(f := f, rest := p.rest[n..])
  }

  /** The flags for a length modifier and the number of characters it takes. */
  function LengthAt(s: string, f: Flags): (r: (Flags, nat))
    ensures r.1 <= |s|
  {
    if s == [] then (f, 0)
    else if s[0] == 'l' then
      var f1 := f + {Long};
      if |s| > 1 && s[1] == 'l' then (f1 + {LongLong}, 2) else (f1, 1)
    else if s[0] == 'h' then
      var f1 := f + {Short};
      if |s| > 1 && s[1] == 'h' then (f1 + {Char}, 2) else (f1, 1)
    else if s[0] == 't' || s[0] == 'z' then (f + {Long}, 1)
    else if s[0] == 'j' then (f + {LongLong}, 1)
    else (f, 0)
  }

  function ParseSpec(s: string, args: seq<Arg>): (p: Spec)
    ensures |p.rest| <= |s|
  {
    var (f, rest) := ParseFlags(s, NO_FLAGS);
    ParseLength(ParsePrec(ParseWidth(rest, args, f)))
  }

  // Conversions.

  predicate IsInteger(c: char) { c in {'d', 'i', 'u', 'x', 'X', 'o', 'b'} }

  predicate IsFloat(c: char) { c in {'f', 'F', 'e', 'E', 'g', 'G'} }

  predicate IsSigned(c: char) { c == 'd' || c == 'i' }

  function BaseOf(c: char): (b: nat)
    ensures 2 <= b <= 16
  {
    if c == 'x' || c == 'X' then 16 else if c == 'o' then 8 else if c == 'b' then 2 else 10
  }

  /** No '#' for decimal, no sign flags for unsigned, no zero padding beside a precision. */
  function IntegerFlags(c: char, f: Flags): Flags {
    var f1 := if BaseOf(c) == 10 then f - {Hash} else f;
    var f2 := if c == 'X' then f1 + {Upper} else f1;
    var f3 := if !IsSigned(c) then f2 - {Plus, Space} else f2;
    if Precision in f3 then f3 - {Zeropad} else f3
  }

  const U8: nat := 0x100
  const U64: nat := 0x1_0000_0000_0000_0000

  /** The value that reaches the conversion; plain char is unsigned on this machine. */
  function ArgValue(v: int, c: char, f: Flags): int {
    if IsSigned(c) then
      if LongLong in f then SignedWrap(v, U64)
      else if Long in f then SignedWrap(v, U32)
      else if Char in f then v % U8
      else if Short in f then SignedWrap(v, U16)
      else SignedWrap(v, U32)
    else
      if LongLong in f then v % U64
      else if Long in f then v % U32
      else if Char in f then v % U8
      else if Short in f then v % U16
      else v % U32
  }

  function Magnitude(v: int): nat { if v > 0 then v else -v }

  function IntegerText(c: char, p: Spec): string {
    var v := ArgValue(IntOf(p.args), c, p.f);
    NtoaText(Magnitude(v), v < 0, BaseOf(c), p.prec, p.width, IntegerFlags(c, p.f))
  }

  /** What conversion c prints, and the arguments left. */
  function Piece(c: char, p: Spec): (string, seq<Arg>) {
    if IsInteger(c) then (IntegerText(c, p), Rest(p.args))
    else if c == 'c' then (CharText((IntOf(p.args) % U8) as char, p.width, p.f), Rest(p.args))
    else if c == 's' then (StringText(StrOf(p.args), p.prec, p.width, p.f), Rest(p.args))
    else if c == 'p' then
      (NtoaText(IntOf(p.args) % U32, false, 16, p.prec, 8, p.f + {Zeropad, Upper}), Rest(p.args))
    else ([c], p.args)
  }

  /** No specification is cut short by the end of the string, and none converts a float. */
  predicate Supported(s: string, args: seq<Arg>)
    decreases |s|
  {
    if s == [] then true
    else if s[0] != '%' then Supported(s[1..], args)
    else
      var p := ParseSpec(s[1..], args);
      p.rest != [] && !IsFloat(p.rest[0]) && Supported(p.rest[1..], Piece(p.rest[0], p).1)
  }

  /** The whole text, however long. */
  function Text(s: string, args: seq<Arg>): string
    decreases |s|
  {
    if s == [] then []
    else if s[0] != '%' then [s[0]] + Text(s[1..], args)
    else
      var p := ParseSpec(s[1..], args);
      if p.rest == [] then []
      else Piece(p.rest[0], p).0 + Text(p.rest[1..], Piece(p.rest[0], p).1)
  }
}
