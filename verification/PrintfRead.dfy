/** Reading printed integers back. */
module PrintfRead {
  import opened Bits
  import opened PrintfText
  import opened Printf

  // A reader: spaces, a sign, digits.

  function DropSpaces(s: string): string {
    if s != [] && s[0] == ' ' then DropSpaces(s[1..]) else s
  }

  /** The value of a digit; 16 for any other character. */
  function DigitValue(c: char): nat {
    if '0' <= c <= '9' then c as int - '0' as int
    else if 'a' <= c <= 'f' then c as int - 'a' as int + 10
    else if 'A' <= c <= 'F' then c as int - 'A' as int + 10
    else 16
  }

  /** One more digit behind the digits read. */
  function Shift(acc: nat, base: nat, d: nat): nat { acc * base + d }

  function ReadDigits(s: string, base: nat, acc: nat): nat {
    if s != [] && DigitValue(s[0]) < base then ReadDigits(s[1..], base, Shift(acc, base, DigitValue(s[0]))) else acc
  }

  function ReadInt(s: string, base: nat): int {
    var t := DropSpaces(s);
    if t != [] && t[0] == '-' then -(ReadDigits(t[1..], base, 0) as int)
    else if t != [] && t[0] == '+' then ReadDigits(t[1..], base, 0)
    else ReadDigits(t, base, 0)
  }

  // Digits in the buffer, last first.

  predicate AllDigits(z: string, base: nat) {
    forall i :: 0 <= i < |z| ==> DigitValue(z[i]) < base
  }

  /** What the buffer's digits are worth, read from its end. */
  function Worth(z: string, base: nat, acc: nat): nat {
    if z == [] then acc else Worth(z[..|z| - 1], base, Shift(acc, base, DigitValue(z[|z| - 1])))
  }

  lemma ReadOne(c: char, t: string, base: nat, acc: nat)
    requires DigitValue(c) < base
    ensures ReadDigits([c] + t, base, acc) == ReadDigits(t, base, Shift(acc, base, DigitValue(c)))
  {
    assert ([c] + t)[1..] == t;
  }

  lemma ReadNone(tail: string, base: nat, acc: nat)
    requires base <= 16 && (tail != [] ==> tail[0] == ' ')
    ensures ReadDigits(tail, base, acc) == acc
  {
  }

  lemma {:induction false} ReadReversed(z: string, tail: string, base: nat, acc: nat)
    requires AllDigits(z, base) && base <= 16 && (tail != [] ==> tail[0] == ' ')
    ensures ReadDigits(Reverse(z) + tail, base, acc) == Worth(z, base, acc)
  {
    hide DigitValue, ReadDigits, Shift;
    if z == [] {
      assert Reverse(z) + tail == tail;
      ReadNone(tail, base, acc);
    } else {
      var c, rest := z[|z| - 1], z[..|z| - 1];
      assert Reverse(z) + tail == [c] + (Reverse(rest) + tail);
      ReadOne(c, Reverse(rest) + tail, base, acc);
      ReadReversed(rest, tail, base, Shift(acc, base, DigitValue(c)));
    }
  }

  lemma {:induction false} WorthFirst(c: char, z: string, base: nat, acc: nat)
    ensures Worth([c] + z, base, acc) == Shift(Worth(z, base, acc), base, DigitValue(c))
  {
    hide Shift, DigitValue;
    if z == [] {
      assert ([c] + z)[..0] == [];
    } else {
      assert ([c] + z)[..|z|] == [c] + z[..|z| - 1];
      WorthFirst(c, z[..|z| - 1], base, Shift(acc, base, DigitValue(z[|z| - 1])));
    }
  }

  lemma {:induction false} WorthZeros(z: string, n: int, base: nat)
    ensures Worth(z + Repeat('0', n), base, 0) == Worth(z, base, 0)
  {
    if n <= 0 {
      assert z + Repeat('0', n) == z;
    } else {
      RepeatMore('0', n - 1);
      var s := z + Repeat('0', n);
      assert s[..|s| - 1] == z + Repeat('0', n - 1);
      WorthZeros(z, n - 1, base);
    }
  }

  lemma DigitRound(d: nat, upper: bool)
    requires d < 16
    ensures DigitValue(DigitChar(d, upper)) == d
  {
  }

  function Power(base: nat, k: nat): nat {
    if k == 0 then 1 else base * Power(base, k - 1)
  }

  lemma QuotientBound(v: nat, base: nat, p: nat)
    requires base > 0
    ensures v < base * p <==> v / base < p
  {
    DivRem(v, base);
    if v / base < p { MulGap(p - v / base, base); assert (p - v / base) * base == p * base - (v / base) * base; }
    if v / base >= p { MulGap(p - v / base, base); assert (p - v / base) * base == p * base - (v / base) * base; }
  }

  /** The digits are worth the value exactly when they all fit. */
  lemma {:induction false} DigitsWorth(v: nat, base: nat, upper: bool, room: nat)
    requires 2 <= base <= 16 && room > 0
    ensures AllDigits(Digits(v, base, upper, room), base)
    ensures Worth(Digits(v, base, upper, room), base, 0) == v <==> v < Power(base, room)
    decreases room
  {
    hide Digits, DigitValue, DigitChar, Worth, Power, Shift;
    DigitsStep(v, base, upper, room);
    ShiftBack(v, base);
    var c := DigitChar(v % base, upper);
    DigitRound(v % base, upper);
    PowerStep(base, room);
    QuotientBound(v, base, Power(base, room - 1));
    PowerPositive(base, room - 1);
    if v / base != 0 && room > 1 {
      var rest := Digits(v / base, base, upper, room - 1);
      DigitsWorth(v / base, base, upper, room - 1);
      WorthFirst(c, rest, base, 0);
      SameQuotient(Worth(rest, base, 0), v / base, base, v % base);
    } else {
      WorthFirst(c, [], base, 0);
      WorthNone(base);
      assert [c] + [] == [c];
      if v / base != 0 { SameQuotient(0, v / base, base, v % base); }
    }
  }

  lemma WorthNone(base: nat)
    ensures Worth([], base, 0) == 0
  {
  }

  lemma PowerStep(base: nat, k: nat)
    requires k > 0
    ensures Power(base, k) == base * Power(base, k - 1)
  {
  }

  lemma ShiftBack(v: nat, base: nat)
    requires base > 0
    ensures v == Shift(v / base, base, v % base) && v % base < base
  {
    DivRem(v, base);
  }

  lemma SameQuotient(a: nat, b: nat, base: nat, r: nat)
    requires base > 0
    ensures Shift(a, base, r) == Shift(b, base, r) <==> a == b
  {
    MulGap(a - b, base);
    assert (a - b) * base == a * base - b * base;
  }

  lemma {:induction false} PowerPositive(base: nat, k: nat)
    requires base > 0
    ensures Power(base, k) > 0 && (k == 0 ==> Power(base, k) == 1)
  {
    if k > 0 { PowerPositive(base, k - 1); MulGap(Power(base, k - 1), base); }
  }

  // Whole conversions.

  /** Digits in the buffer after zero padding. */
  function PaddedLength(nd: nat, negative: bool, prec: nat, width: nat, f: Flags): nat {
    if Left in f then nd
    else
      var w := SignedWidth(negative, width, f);
      var n := if nd < prec && nd < NTOA_SIZE then (if prec < NTOA_SIZE then prec else NTOA_SIZE) else nd;
      if Zeropad in f && n < w && n < NTOA_SIZE then (if w < NTOA_SIZE then w else NTOA_SIZE) else n
  }

  /** Zero padding keeps the digits' worth. */
  lemma ZeroedWorth(buf: string, negative: bool, prec: nat, width: nat, f: Flags, base: nat)
    requires AllDigits(buf, base) && 0 < base
    ensures var z := Zeroed(buf, prec, SignedWidth(negative, width, f), f);
      && AllDigits(z, base) && Worth(z, base, 0) == Worth(buf, base, 0)
      && |z| == PaddedLength(|buf|, negative, prec, width, f)
  {
    hide Worth, SignedWidth;
    PadWorth(buf, prec, base);
    PadWorth(PadZeros(buf, prec), SignedWidth(negative, width, f), base);
  }

  lemma PadWorth(buf: string, n: nat, base: nat)
    requires AllDigits(buf, base) && 0 < base
    ensures AllDigits(PadZeros(buf, n), base) && Worth(PadZeros(buf, n), base, 0) == Worth(buf, base, 0)
  {
    WorthZeros(buf, (if n < NTOA_SIZE then n else NTOA_SIZE) - |buf|, base);
    assert DigitValue('0') == 0;
  }

  lemma {:induction false} SkipSpaces(n: int, s: string)
    ensures DropSpaces(Repeat(' ', n) + s) == DropSpaces(s)
  {
    if n <= 0 {
      assert Repeat(' ', n) + s == s;
    } else {
      assert (Repeat(' ', n) + s)[1..] == Repeat(' ', n - 1) + s;
      SkipSpaces(n - 1, s);
    }
  }

  lemma ReadPlain(z: string, n: int, base: nat)
    requires AllDigits(z, base) && 2 <= base <= 16
    ensures ReadInt(Reverse(z) + Repeat(' ', n), base) == Worth(z, base, 0)
  {
    var tail := Repeat(' ', n);
    ReadReversed(z, tail, base, 0);
    hide ReadDigits, Worth;
    if z == [] {
      assert Reverse(z) + tail == tail == tail + [];
      SkipSpaces(n, []);
    } else {
      assert (Reverse(z) + tail)[0] == z[|z| - 1];
      NotMark(z[|z| - 1], base);
    }
  }

  lemma NotMark(c: char, base: nat)
    requires DigitValue(c) < base <= 16
    ensures c !in {' ', '-', '+'}
  {
  }

  lemma ReadMarked(z: string, c: char, n: int, base: nat)
    requires AllDigits(z, base) && 2 <= base <= 16 && c in {' ', '-', '+'}
    ensures ReadInt([c] + (Reverse(z) + Repeat(' ', n)), base) ==
      (if c == '-' then -(Worth(z, base, 0) as int) else Worth(z, base, 0))
  {
    var t := Reverse(z) + Repeat(' ', n);
    assert ([c] + t)[1..] == t;
    ReadReversed(z, Repeat(' ', n), base, 0);
    ReadPlain(z, n, base);
    hide ReadDigits, Worth, Reverse, Repeat;
  }

  /** A signed number between spaces is read as its digits' worth, negated if the sign is there. */
  lemma ReadSigned(z: string, negative: bool, width: nat, f: Flags, base: nat)
    requires AllDigits(z, base) && 2 <= base <= 16
    ensures ReadInt(RevText(Signed(z, negative, f), width, f), base) ==
      (if negative && |z| < NTOA_SIZE then -(Worth(z, base, 0) as int) else Worth(z, base, 0))
  {
    hide Repeat, Worth, ReadDigits, ReadInt, Reverse, RevText, Signed;
    var s := Signed(z, negative, f);
    var lead, trail := RevTextShape(s, width, f);
    ReadSpaced(lead, Reverse(s) + Repeat(' ', trail), base);
    SignedShape(z, negative, f);
    if s == z {
      ReadPlain(z, trail, base);
    } else {
      var c := s[|z|];
      ReverseMore(z, c);
      assert Reverse(s) + Repeat(' ', trail) == [c] + (Reverse(z) + Repeat(' ', trail));
      ReadMarked(z, c, trail, base);
    }
  }

  lemma ReverseMore(z: string, c: char)
    ensures Reverse(z + [c]) == [c] + Reverse(z)
  {
    assert (z + [c])[..|z|] == z;
  }

  lemma ReadSpaced(n: int, s: string, base: nat)
    ensures ReadInt(Repeat(' ', n) + s, base) == ReadInt(s, base)
  {
    SkipSpaces(n, s);
  }

  lemma RepeatNone(c: char)
    ensures Repeat(c, 0) == []
  {
  }

  /** A printed integer, padded and signed in any way but without '#', reads back as its value exactly
      when its digits fit the conversion buffer and, if it is negative, one place is left for the sign. */
  lemma ReadBack(value: nat, negative: bool, base: nat, prec: nat, width: nat, f: Flags)
    requires 2 <= base <= 16 && Hash !in f && (negative ==> value > 0)
    ensures var nd := if Precision !in f || value != 0 then |Digits(value, base, Upper in f, NTOA_SIZE)| else 0;
      ReadInt(NtoaText(value, negative, base, prec, width, f), base) == (if negative then -(value as int) else value)
      <==> value < Power(base, NTOA_SIZE) && (negative ==> PaddedLength(nd, negative, prec, width, f) < NTOA_SIZE)
  {
    hide Digits, Power, Worth, ReadInt, RevText, Zeroed, SignedWidth;
    var f1 := if value == 0 then f - {Hash} else f;
    assert f1 == f;
    var buf := if Precision !in f || value != 0 then Digits(value, base, Upper in f, NTOA_SIZE) else [];
    DigitsWorth(value, base, Upper in f, NTOA_SIZE);
    WorthNone(base);
    PowerPositive(base, NTOA_SIZE);
    ZeroedWorth(buf, negative, prec, width, f, base);
    var w := SignedWidth(negative, width, f);
    ReadSigned(Zeroed(buf, prec, w, f), negative, w, f, base);
  }

  /** Zero is printed without a prefix, so ReadBack applies to it with '#' too. */
  lemma ZeroHasNoPrefix(negative: bool, base: nat, prec: nat, width: nat, f: Flags)
    requires 2 <= base <= 16
    ensures NtoaText(0, negative, base, prec, width, f) == NtoaText(0, negative, base, prec, width, f - {Hash})
  {
    assert f - {Hash} - {Hash} == f - {Hash};
  }

  // Conversions without width or precision.

  lemma {:induction false} PowerBase(b: nat, c: nat, k: nat)
    requires b <= c
    ensures Power(b, k) <= Power(c, k)
  {
    if k > 0 {
      PowerBase(b, c, k - 1);
      MulMono(b, c, Power(b, k - 1), Power(c, k - 1));
    }
  }

  lemma MulMono(a: nat, b: nat, x: nat, y: nat)
    requires a <= b && x <= y
    ensures a * x <= b * y
  {
    assert b * y - a * x == (b - a) * y + a * (y - x);
    assert (b - a) * y >= 0 && a * (y - x) >= 0;
  }

  lemma {:induction false} PowerOfEight(k: nat)
    ensures Power(8, k) == Pow2(3 * k)
  {
    if k > 0 {
      PowerOfEight(k - 1);
      assert Pow2(3 * k) == 2 * Pow2(3 * k - 1) && Pow2(3 * k - 1) == 2 * Pow2(3 * k - 2) &&
        Pow2(3 * k - 2) == 2 * Pow2(3 * k - 3);
    }
  }

  lemma {:induction false} PowerOfTwo(k: nat)
    ensures Power(2, k) == Pow2(k)
  {
    if k > 0 { PowerOfTwo(k - 1); }
  }

  /** 64 bits take fewer than 32 digits in bases from 8 on, 32 bits at most 32 in any base. */
  lemma WordsFit(base: nat)
    requires 2 <= base <= 16
    ensures U32 <= Power(base, 32) && (base == 2 ==> Power(base, 32) == U32)
    ensures base >= 8 ==> U64 <= Power(base, 31) <= Power(base, 32)
  {
    hide Power, Pow2;
    Pow2Values();
    PowerOfTwo(32);
    PowerBase(2, base, 32);
    if base >= 8 {
      PowerOfEight(31);
      PowerBase(8, base, 31);
      Pow2Divides(32, 64);
      Pow2Mono(64, 93);
      PowerStep(base, 32);
      MulMono(1, base, Power(base, 31), Power(base, 31));
    }
  }

  lemma {:induction false} DigitsCount(v: nat, base: nat, upper: bool, room: nat, k: nat)
    requires 2 <= base <= 16 && room > 0 && k > 0 && v < Power(base, k)
    ensures |Digits(v, base, upper, room)| <= k
    decreases room
  {
    hide Digits, Power, DigitChar;
    DigitsStep(v, base, upper, room);
    PowerStep(base, k);
    QuotientBound(v, base, Power(base, k - 1));
    PowerPositive(base, k - 1);
    if v / base != 0 && room > 1 { DigitsCount(v / base, base, upper, room - 1, k - 1); }
  }

  lemma ArgRange(v: int, c: char, f: Flags)
    ensures Magnitude(ArgValue(v, c, f)) < U64
    ensures LongLong !in f ==> Magnitude(ArgValue(v, c, f)) < U32
    ensures ArgValue(v, c, f) < 0 ==> IsSigned(c)
  {
  }

  /** A conversion without width and precision reads back as its argument; only 64-bit binary numbers of
      more than 32 digits do not. */
  lemma PlainReadsBack(c: char, p: Spec)
    requires IsInteger(c) && p.width == 0 && p.prec == 0 && Hash !in p.f && Precision !in p.f
    ensures var v := ArgValue(IntOf(p.args), c, p.f);
      ReadInt(IntegerText(c, p), BaseOf(c)) == v <==> (c == 'b' ==> v < U32)
  {
    hide Digits, Power, ReadInt, NtoaText, ArgValue;
    var v, base, f := ArgValue(IntOf(p.args), c, p.f), BaseOf(c), IntegerFlags(c, p.f);
    ArgRange(IntOf(p.args), c, p.f);
    WordsFit(base);
    if v < 0 { DigitsCount(Magnitude(v), base, Upper in f, NTOA_SIZE, 31); }
    ReadBack(Magnitude(v), v < 0, base, 0, 0, f);
  }

  /** "%.32d" of -5 loses its sign: it reads as 5. */
  lemma SignIsLost()
    ensures var p := Spec({Precision}, 0, 32, "d", [IntArg(-5)]);
      ArgValue(-5, 'd', p.f) == -5 && ReadInt(IntegerText('d', p), 10) == 5
  {
    hide ReadInt, Worth, Power, RevText;
    var f: Flags := {Precision};
    assert IntegerFlags('d', f) == f;
    assert Digits(5, 10, false, NTOA_SIZE) == "5";
    var z := Zeroed("5", 32, 0, f);
    ZeroedWorth("5", true, 32, 0, f, 10);
    OneDigit();
    ReadSigned(z, true, 0, f, 10);
  }

  lemma OneDigit()
    ensures Worth("5", 10, 0) == 5
  {
    assert "5"[..0] == [];
  }

  /** "%llb" of 2^32 loses its only set digit. */
  lemma HighDigitIsLost()
    ensures var p := Spec({Long, LongLong}, 0, 0, "b", [IntArg(U32)]);
      ArgValue(U32, 'b', p.f) == U32 && ReadInt(IntegerText('b', p), 2) != U32
  {
    hide ReadInt, IntegerText;
    PlainReadsBack('b', Spec({Long, LongLong}, 0, 0, "b", [IntArg(U32)]));
  }

  // The '#' flag.

  /** How many of n digits the '#' prefix leaves: when the number is as long as width or precision it
      takes the place of the last one or two. */
  function KeptDigits(n: nat, base: nat, prec: nat, w: nat, f: Flags): (k: nat)
    ensures k <= n
  {
    if Precision !in f && n > 0 && (n == prec || n == w) then n - (if n > 1 && base == 16 then 2 else 1) else n
  }

  predicate HasLetter(base: nat) { base == 16 || base == 2 }

  /** The prefix as it stands behind k digits in the buffer: letter, then zero, as far as there is room. */
  function PrefixOf(k: nat, base: nat, f: Flags): string {
    var letter := if base == 16 then (if Upper in f then "X" else "x") else "b";
    if k >= NTOA_SIZE then ""
    else if !HasLetter(base) then "0"
    else if k + 1 < NTOA_SIZE then letter + "0" else letter
  }

  lemma HashedIs(z: string, base: nat, prec: nat, w: nat, f: Flags)
    requires Hash in f && |z| <= NTOA_SIZE
    ensures var k := KeptDigits(|z|, base, prec, w, f); Hashed(z, base, prec, w, f) == z[..k] + PrefixOf(k, base, f)
  {
    var k := KeptDigits(|z|, base, prec, w, f);
    assert z[..|z|] == z;
  }

  lemma AllDigitsCut(z: string, base: nat, m: nat)
    requires AllDigits(z, base) && m <= |z|
    ensures AllDigits(z[..m], base) && AllDigits(z[m..], base)
  {
  }

  /** Digits are worth less than the next power. */
  lemma {:induction false} WorthBound(z: string, base: nat)
    requires AllDigits(z, base) && base > 0
    ensures Worth(z, base, 0) < Power(base, |z|)
  {
    hide DigitValue, Worth, Power, Shift;
    if z == [] {
      WorthNone(base);
      PowerPositive(base, 0);
    } else {
      var c, rest := z[0], z[1..];
      assert z == [c] + rest;
      WorthBound(rest, base);
      WorthFirst(c, rest, base, 0);
      PowerStep(base, |z|);
      NextPower(Worth(rest, base, 0), DigitValue(c), base, Power(base, |rest|));
    }
  }

  lemma NextPower(a: nat, d: nat, base: nat, p: nat)
    requires d < base
    ensures Shift(a, base, d) < base * p <==> a < p
  {
    RemUnique(a * base + d, base, a, d);
    QuotientBound(a * base + d, base, p);
  }

  /** The first m digits are worth the whole exactly when the whole is below the m-th power. */
  lemma {:induction false} WorthPrefix(z: string, base: nat, m: nat)
    requires AllDigits(z, base) && base > 0 && m <= |z|
    ensures Worth(z[..m], base, 0) == Worth(z, base, 0) <==> Worth(z, base, 0) < Power(base, m)
  {
    hide DigitValue, Worth, Power, Shift;
    if m == 0 {
      assert z[..0] == [];
      WorthNone(base);
      PowerPositive(base, 0);
    } else {
      var c, rest := z[0], z[1..];
      assert z == [c] + rest && z[..m] == [c] + rest[..m - 1];
      WorthPrefix(rest, base, m - 1);
      WorthFirst(c, rest, base, 0);
      WorthFirst(c, rest[..m - 1], base, 0);
      PowerStep(base, m);
      NextPower(Worth(rest, base, 0), DigitValue(c), base, Power(base, m - 1));
      SameQuotient(Worth(rest[..m - 1], base, 0), Worth(rest, base, 0), base, DigitValue(c));
    }
  }

  lemma {:induction false} PowerMore(base: nat, m: nat, k: nat)
    requires base > 0 && m <= k
    ensures Power(base, m) <= Power(base, k)
  {
    hide Power;
    if m < k {
      PowerMore(base, m, k - 1);
      PowerStep(base, k);
      MulMono(1, base, Power(base, k - 1), Power(base, k - 1));
    }
  }

  /** The digits that '#' leaves are worth the value exactly when it needs no more of them. */
  lemma HashKeeps(value: nat, negative: bool, base: nat, prec: nat, width: nat, f: Flags)
    requires 2 <= base <= 16 && Hash in f && value > 0
    ensures var w := SignedWidth(negative, width, f);
      var z := Zeroed(Digits(value, base, Upper in f, NTOA_SIZE), prec, w, f);
      var k := KeptDigits(|z|, base, prec, w, f);
      && |z| <= NTOA_SIZE && AllDigits(z, base)
      && (Worth(z[..k], base, 0) == value <==> value < Power(base, k))
  {
    hide Digits, Power, Worth, Zeroed, SignedWidth;
    var w := SignedWidth(negative, width, f);
    var buf := Digits(value, base, Upper in f, NTOA_SIZE);
    var z := Zeroed(buf, prec, w, f);
    DigitsWorth(value, base, Upper in f, NTOA_SIZE);
    ZeroedWorth(buf, negative, prec, width, f, base);
    var k := KeptDigits(|z|, base, prec, w, f);
    WorthPrefix(z, base, k);
    AllDigitsCut(z, base, k);
    WorthBound(z[..k], base);
    PowerMore(base, k, NTOA_SIZE);
  }

  /** Drops "0x", "0X" or "0b" where the base calls for it. */
  function DropPrefix(s: string, base: nat): string {
    if |s| >= 2 && s[0] == '0' && ((base == 16 && s[1] in {'x', 'X'}) || (base == 2 && s[1] == 'b')) then s[2..] else s
  }

  function ReadBody(s: string, base: nat): nat {
    ReadDigits(DropPrefix(s, base), base, 0)
  }

  /** A reader that allows for the prefix. */
  function ReadPrefixed(s: string, base: nat): int {
    var t := DropSpaces(s);
    if t != [] && t[0] == '-' then -(ReadBody(t[1..], base) as int)
    else if t != [] && t[0] == '+' then ReadBody(t[1..], base)
    else ReadBody(t, base)
  }

  /** What is read behind the sign: the digits, or nothing when the letter has no zero before it. */
  lemma BodyIs(z: string, base: nat, f: Flags, n: int)
    requires AllDigits(z, base) && 2 <= base <= 16 && |z| <= NTOA_SIZE
    ensures ReadBody(Reverse(z + PrefixOf(|z|, base, f)) + Repeat(' ', n), base) ==
      if HasLetter(base) && |z| == NTOA_SIZE - 1 then 0 else Worth(z, base, 0)
  {
    hide ReadDigits, ReadBody, Worth, Repeat, Reverse, PrefixOf, DigitValue;
    var tail := Repeat(' ', n);
    PrefixShapes(|z|, base, f);
    var p := PrefixOf(|z|, base, f);
    var body := Reverse(z) + tail;
    SpacesOnly(n);
    ReadReversed(z, tail, base, 0);
    ReverseBehind(z, p);
    if p == "" {
      assert Reverse(z + p) + tail == body;
      NoLetter(z, tail, base);
      BodyOf(body, base);
    } else if |p| == 2 {
      assert Reverse(z + p) + tail == [p[1], p[0]] + body;
      FullPrefix(p[0], body, base);
    } else if HasLetter(base) {
      assert Reverse(z + p) + tail == [p[0]] + body;
      LetterStops(p[0], body, base);
    } else {
      assert Reverse(z + p) + tail == ['0'] + body;
      ZeroPrefix(body, base);
    }
  }

  lemma SpacesOnly(n: int)
    ensures Repeat(' ', n) != [] ==> Repeat(' ', n)[0] == ' '
  {
  }

  lemma PrefixShapes(k: nat, base: nat, f: Flags)
    ensures var p := PrefixOf(k, base, f);
      && |p| <= 2 && (p == "" <==> k >= NTOA_SIZE)
      && (|p| == 2 ==> HasLetter(base) && p[1] == '0')
      && (|p| > 0 && HasLetter(base) ==> if base == 16 then p[0] in {'x', 'X'} else p[0] == 'b')
      && (|p| == 1 && HasLetter(base) <==> HasLetter(base) && k == NTOA_SIZE - 1)
      && (|p| > 0 && !HasLetter(base) ==> p == "0")
  {
  }

  lemma ReverseBehind(z: string, p: string)
    requires |p| <= 2
    ensures Reverse(z + p) ==
      (if p == "" then Reverse(z) else if |p| == 1 then [p[0]] + Reverse(z) else [p[1], p[0]] + Reverse(z))
  {
    if p == "" {
      assert z + p == z;
    } else if |p| == 1 {
      assert p == [p[0]];
      ReverseMore(z, p[0]);
    } else {
      assert z + p == (z + [p[0]]) + [p[1]];
      ReverseMore(z + [p[0]], p[1]);
      ReverseMore(z, p[0]);
    }
  }

  lemma BodyOf(body: string, base: nat)
    requires DropPrefix(body, base) == body
    ensures ReadBody(body, base) == ReadDigits(body, base, 0)
  {
  }

  lemma FullPrefix(c: char, body: string, base: nat)
    requires (base == 16 && c in {'x', 'X'}) || (base == 2 && c == 'b')
    ensures ReadBody(['0', c] + body, base) == ReadDigits(body, base, 0)
  {
    assert (['0', c] + body)[2..] == body;
  }

  lemma ZeroPrefix(body: string, base: nat)
    requires 2 <= base && !HasLetter(base)
    ensures ReadBody(['0'] + body, base) == ReadDigits(body, base, 0)
  {
    ReadOne('0', body, base, 0);
  }

  lemma NoLetter(z: string, tail: string, base: nat)
    requires AllDigits(z, base) && base <= 16 && |z| >= 2
    ensures DropPrefix(Reverse(z) + tail, base) == Reverse(z) + tail
  {
    hide Reverse, DigitValue;
    ReverseAt(z, |z| - 2);
    LetterIsNoDigit(z[|z| - 2], base);
  }

  lemma {:induction false} ReverseAt(z: string, i: nat)
    requires i < |z|
    ensures Reverse(z)[|z| - 1 - i] == z[i]
  {
    if i < |z| - 1 {
      var rest := z[..|z| - 1];
      ReverseAt(rest, i);
      assert Reverse(z) == [z[|z| - 1]] + Reverse(rest);
    }
  }

  lemma LetterIsNoDigit(c: char, base: nat)
    requires DigitValue(c) < base <= 16
    ensures c !in {'x', 'X'} && (base == 2 ==> c != 'b')
  {
  }

  lemma LetterStops(c: char, body: string, base: nat)
    requires (base == 16 && c in {'x', 'X'}) || (base == 2 && c == 'b')
    ensures ReadBody([c] + body, base) == 0
  {
  }

  lemma ReadPrefixedSpaced(n: int, s: string, base: nat)
    ensures ReadPrefixed(Repeat(' ', n) + s, base) == ReadPrefixed(s, base)
  {
    SkipSpaces(n, s);
  }

  lemma ReadPrefixedMarked(c: char, body: string, base: nat)
    requires c in {' ', '-', '+'} && body != [] && body[0] !in {' ', '-', '+'}
    ensures ReadPrefixed([c] + body, base) ==
      (if c == '-' then -(ReadBody(body, base) as int) else ReadBody(body, base))
    ensures ReadPrefixed(body, base) == ReadBody(body, base)
  {
    hide ReadBody;
    assert ([c] + body)[1..] == body;
    assert DropSpaces(body) == body;
    assert DropSpaces([c] + body) == if c == ' ' then body else [c] + body;
  }

  /** The number is first printed character of its prefix or digits, not a mark. */
  lemma StartsPlain(z: string, base: nat, f: Flags, tail: string)
    requires AllDigits(z, base) && 2 <= base <= 16 && |z| <= NTOA_SIZE
    ensures var body := Reverse(z + PrefixOf(|z|, base, f)) + tail; body != [] && body[0] !in {' ', '-', '+'}
  {
    hide PrefixOf, Reverse, DigitValue, AllDigits, HasLetter;
    PrefixEnds(z, base, f);
    var h := z + PrefixOf(|z|, base, f);
    ReverseAt(h, |h| - 1);
  }

  lemma PrefixEnds(z: string, base: nat, f: Flags)
    requires AllDigits(z, base) && 2 <= base <= 16 && |z| <= NTOA_SIZE
    ensures var h := z + PrefixOf(|z|, base, f); h != [] && h[|h| - 1] !in {' ', '-', '+'}
  {
    hide DigitValue;
    if |z| == NTOA_SIZE { NotMark(z[|z| - 1], base); }
  }

  function PrefixedLength(k: nat, base: nat): nat {
    var n := k + (if HasLetter(base) then 2 else 1);
    if n < NTOA_SIZE then n else NTOA_SIZE
  }

  lemma ReadHashed(z: string, negative: bool, width: nat, f: Flags, base: nat)
    requires AllDigits(z, base) && 2 <= base <= 16 && |z| <= NTOA_SIZE
    ensures var h := z + PrefixOf(|z|, base, f);
      var r := if HasLetter(base) && |z| == NTOA_SIZE - 1 then 0 else Worth(z, base, 0);
      ReadPrefixed(RevText(Signed(h, negative, f), width, f), base) ==
      (if negative && PrefixedLength(|z|, base) < NTOA_SIZE then -(r as int) else r)
  {
    hide Repeat, Worth, ReadBody, ReadPrefixed, Reverse, RevText, PrefixOf, Signed, AllDigits;
    var h := z + PrefixOf(|z|, base, f);
    var s := Signed(h, negative, f);
    var lead, trail := RevTextShape(s, width, f);
    var tail := Repeat(' ', trail);
    ReadPrefixedSpaced(lead, Reverse(s) + tail, base);
    BodyIs(z, base, f, trail);
    StartsPlain(z, base, f, tail);
    PrefixShapes(|z|, base, f);
    SignedShape(h, negative, f);
    if s == h {
      ReadPrefixedMarked(' ', Reverse(h) + tail, base);
    } else {
      var c := s[|h|];
      ReverseMore(h, c);
      assert Reverse(s) + tail == [c] + (Reverse(h) + tail);
      ReadPrefixedMarked(c, Reverse(h) + tail, base);
    }
  }

  /** Spaces, the buffer reversed, spaces. */
  lemma RevTextShape(s: string, width: nat, f: Flags) returns (lead: int, trail: int)
    ensures RevText(s, width, f) == Repeat(' ', lead) + (Reverse(s) + Repeat(' ', trail))
  {
    hide Repeat, Reverse;
    lead := if Left !in f && Zeropad !in f then width - |s| else 0;
    trail := if Left in f then width - |s| else 0;
    RepeatNone(' ');
  }

  lemma SignedShape(h: string, negative: bool, f: Flags)
    ensures var s := Signed(h, negative, f);
      && (s == h || (|s| == |h| + 1 && s == h + [s[|h|]] && s[|h|] in {' ', '-', '+'}))
      && (negative && |h| < NTOA_SIZE <==> s != h && s[|h|] == '-')
  {
  }

  /** With '#', a nonzero integer reads back as its value exactly when the digits left by the prefix are
      enough, the prefix is not cut between letter and zero, and a negative number has a place for its
      sign. */
  lemma ReadBackHash(value: nat, negative: bool, base: nat, prec: nat, width: nat, f: Flags)
    requires 2 <= base <= 16 && Hash in f && value > 0
    ensures var n := PaddedLength(|Digits(value, base, Upper in f, NTOA_SIZE)|, negative, prec, width, f);
      var k := KeptDigits(n, base, prec, SignedWidth(negative, width, f), f);
      ReadPrefixed(NtoaText(value, negative, base, prec, width, f), base) ==
        (if negative then -(value as int) else value)
      <==>
      && value < Power(base, k)
      && !(HasLetter(base) && k == NTOA_SIZE - 1)
      && (negative ==> PrefixedLength(k, base) < NTOA_SIZE)
  {
    hide Digits, Power, Worth, Zeroed, SignedWidth, ReadPrefixed, RevText, Hashed, PrefixOf, Signed;
    var w := SignedWidth(negative, width, f);
    var buf := Digits(value, base, Upper in f, NTOA_SIZE);
    var z := Zeroed(buf, prec, w, f);
    DigitsWorth(value, base, Upper in f, NTOA_SIZE);
    ZeroedWorth(buf, negative, prec, width, f, base);
    HashKeeps(value, negative, base, prec, width, f);
    HashedIs(z, base, prec, w, f);
    var k := KeptDigits(|z|, base, prec, w, f);
    AllDigitsCut(z, base, k);
    ReadHashed(z[..k], negative, w, f, base);
  }

  /** Where '#' loses digits: the prefix overwrites them when the number is as long as the width. */
  lemma HashDropsDigits()
    ensures NtoaText(0x1234, false, 16, 0, 4, {Hash}) == "0x34"
  {
    hide Digits, Repeat, Reverse, PadZeros;
    FourDigits();
    NoPadding("4321");
    ReverseFour("43x0");
    RepeatNone(' ');
    assert Hashed("4321", 16, 0, 4, {Hash}) == "43x0";
  }

  lemma FourDigits()
    ensures Digits(0x1234, 16, false, 32) == "4321"
  {
    assert Digits(0x1, 16, false, 29) == "1";
    assert Digits(0x12, 16, false, 30) == "21";
    assert Digits(0x123, 16, false, 31) == "321";
  }

  lemma NoPadding(s: string)
    ensures PadZeros(s, 0) == s
  {
  }

  lemma ReverseFour(s: string)
    requires |s| == 4
    ensures Reverse(s) == [s[3], s[2], s[1], s[0]]
  {
    var a, b, c := s[..3], s[..2], s[..1];
    assert a[..2] == b && b[..1] == c && c[..0] == [];
    assert Reverse(c) == [s[0]];
    assert Reverse(b) == [s[1], s[0]];
    assert Reverse(a) == [s[2], s[1], s[0]];
  }
}
