/** How a number looks: sign, prefix, zeros and digits in reading order, told without the conversion
    buffer, and the conversions that print it. */
module PrintfNumbers {
  import opened Bits
  import opened PrintfText
  import opened Printf
  import opened PrintfRead
  import opened PrintfFormat

  const LOWER: string := "0123456789abcdef"
  const UPPER: string := "0123456789ABCDEF"

  /** The digits of v, first digit first. */
  function DigitString(v: nat, base: nat, upper: bool): (s: string)
    requires 2 <= base <= 16
    ensures s != []
    decreases v
  {
    (if v < base then [] else DigitString(v / base, base, upper)) + [(if upper then UPPER else LOWER)[v % base]]
  }

  lemma DigitIs(d: nat, upper: bool)
    requires d < 16
    ensures DigitChar(d, upper) == (if upper then UPPER else LOWER)[d]
    ensures DigitValue((if upper then UPPER else LOWER)[d]) == d
  {
  }

  lemma DigitsEnd(v: nat, base: nat)
    requires 2 <= base
    ensures v / base == 0 <==> v < base
    ensures v % base < base
    ensures v >= base ==> v / base < v
  {
    DivRem(v, base);
    MulGap(v / base, base);
    MulMono(v / base, v / base, 2, base);
  }

  lemma DigitStringStep(v: nat, base: nat, upper: bool)
    requires 2 <= base <= 16
    ensures DigitString(v, base, upper)
      == (if v < base then [] else DigitString(v / base, base, upper)) + [DigitChar(v % base, upper)]
  {
    DigitsEnd(v, base);
    DigitIs(v % base, upper);
  }

  /** The buffer holds them last first, when they all fit. */
  lemma {:induction false} DigitsReversed(v: nat, base: nat, upper: bool, room: nat)
    requires 2 <= base <= 16 && |DigitString(v, base, upper)| <= room
    ensures Reverse(Digits(v, base, upper, room)) == DigitString(v, base, upper)
    decreases v
  {
    hide Digits, DigitChar, DigitString, Reverse;
    DigitsStep(v, base, upper, room);
    DigitStringStep(v, base, upper);
    DigitsEnd(v, base);
    var c := DigitChar(v % base, upper);
    if v < base {
      ReverseFirst(c, []);
      ReverseNone();
      assert [c] + [] == [c];
    } else {
      DigitsReversed(v / base, base, upper, room - 1);
      ReverseFirst(c, Digits(v / base, base, upper, room - 1));
    }
  }

  lemma ReverseNone()
    ensures Reverse([]) == []
  {
  }

  lemma {:induction false} ReverseFirst(c: char, z: string)
    ensures Reverse([c] + z) == Reverse(z) + [c]
  {
    if z == [] {
      assert [c] + z == [c] && [c][..0] == [];
    } else {
      var s := [c] + z;
      assert s[..|z|] == [c] + z[..|z| - 1] && s[|z|] == z[|z| - 1];
      ReverseFirst(c, z[..|z| - 1]);
    }
  }

  lemma {:induction false} ReverseBoth(y: string, z: string)
    ensures Reverse(y + z) == Reverse(z) + Reverse(y)
  {
    if y == [] {
      assert y + z == z;
    } else {
      assert y + z == [y[0]] + (y[1..] + z) && y == [y[0]] + y[1..];
      ReverseFirst(y[0], y[1..] + z);
      ReverseFirst(y[0], y[1..]);
      ReverseBoth(y[1..], z);
    }
  }

  lemma {:induction false} ReverseRepeat(c: char, n: int)
    ensures Reverse(Repeat(c, n)) == Repeat(c, n)
  {
    if n > 0 {
      ReverseFirst(c, Repeat(c, n - 1));
      ReverseRepeat(c, n - 1);
      RepeatMore(c, n - 1);
    }
  }

  lemma {:induction false} DigitStringCount(v: nat, base: nat, upper: bool, k: nat)
    requires 2 <= base <= 16 && k > 0 && v < Power(base, k)
    ensures |DigitString(v, base, upper)| <= k
    decreases k
  {
    hide Power, DigitString;
    DigitStringStep(v, base, upper);
    PowerStep(base, k);
    QuotientBound(v, base, Power(base, k - 1));
    PowerPositive(base, k - 1);
    DigitsEnd(v, base);
    if v >= base { DigitStringCount(v / base, base, upper, k - 1); }
  }

  // Layout.

  function SignText(negative: bool, plus: bool, space: bool): string {
    if negative then "-" else if plus then "+" else if space then " " else ""
  }

  function PrefixText(base: nat, upper: bool): string {
    if base == 16 then (if upper then "0X" else "0x") else if base == 2 then "0b" else "0"
  }

  /** The width that zeros and digits share, less the place of a sign. */
  function FillWidth(sign: nat, left: bool, zero: bool, width: nat): nat {
    if zero && !left && width > sign then width - sign else if zero && !left then 0 else width
  }

  /** How many zeros go in front of n digits: up to the precision, or with the '0' flag up to the width; none
      when the number is left aligned. */
  function ZerosFor(n: nat, sign: nat, left: bool, zero: bool, prec: nat, width: nat): nat {
    var w := if zero then FillWidth(sign, left, zero, width) else 0;
    var m := if prec > w then prec else w;
    if left || m <= n then 0 else m - n
  }

  /** Of m zeros and digits, the places that a '#' prefix takes when they fill the width or precision. */
  function SharedPlaces(m: nat, base: nat, prec: nat, w: nat): nat {
    if m > 0 && (m == prec || m == w) then (if base == 16 && m > 1 then 2 else 1) else 0
  }

  /** The buffer, from its end: zeros first, then digits. */
  lemma ZeroedIs(buf: string, prec: nat, w: nat, f: Flags, n: nat)
    requires n == ZerosFor(|buf|, 0, Left in f, Zeropad in f, prec, w) && |buf| + n <= NTOA_SIZE
    ensures Zeroed(buf, prec, w, f) == buf + Repeat('0', n)
  {
    hide PadZeros, FillWidth;
    var n1 := if prec > |buf| then prec - |buf| else 0;
    var b := buf + Repeat('0', n1);
    if Left in f {
      assert buf + [] == buf;
    } else if Zeropad in f {
      PadZerosIs(buf, prec, n1);
      FillAll(w);
      var n2 := if w > |b| then w - |b| else 0;
      PadZerosIs(b, w, n2);
      RepeatBoth('0', n1, n2);
      assert b + Repeat('0', n2) == buf + (Repeat('0', n1) + Repeat('0', n2));
    } else {
      PadZerosIs(buf, prec, n1);
    }
  }

  lemma FillAll(w: nat)
    ensures FillWidth(0, false, true, w) == w
  {
  }

  lemma PadZerosIs(buf: string, n: nat, m: nat)
    requires m == (if n > |buf| then n - |buf| else 0) && |buf| + m <= NTOA_SIZE
    ensures PadZeros(buf, n) == buf + Repeat('0', m)
  {
    RepeatLess('0', (if n < NTOA_SIZE then n else NTOA_SIZE) - |buf|);
  }

  lemma RepeatLess(c: char, n: int)
    ensures n <= 0 ==> Repeat(c, n) == []
  {
  }

  lemma {:induction false} RepeatBoth(c: char, m: nat, n: nat)
    ensures Repeat(c, m) + Repeat(c, n) == Repeat(c, m + n)
  {
    if m > 0 { RepeatBoth(c, m - 1, n); }
  }

  lemma HashedShares(z: string, base: nat, prec: nat, w: nat, f: Flags, shared: nat)
    requires Hash in f && shared <= |z|
    requires shared == if Precision !in f then SharedPlaces(|z|, base, prec, w) else 0
    requires |z| - shared + |PrefixText(base, Upper in f)| <= NTOA_SIZE
    ensures Hashed(z, base, prec, w, f) == z[..|z| - shared] + Reverse(PrefixText(base, Upper in f))
  {
    var p := PrefixText(base, Upper in f);
    assert z[..|z|] == z;
    if |p| == 2 {
      assert p[..1][..0] == [] && p[..1] == [p[0]];
      assert Reverse(p) == [p[1]] + [p[0]];
    } else {
      assert p[..0] == [] && Reverse(p) == p;
    }
  }

  lemma ReverseSigned(h: string, negative: bool, f: Flags)
    requires |h| + |SignText(negative, Plus in f, Space in f)| <= NTOA_SIZE
    ensures Reverse(Signed(h, negative, f)) == SignText(negative, Plus in f, Space in f) + Reverse(h)
  {
    hide Reverse;
    var s := Signed(h, negative, f);
    if |s| > |h| {
      ReverseMore(h, s[|h|]);
    } else {
      assert "" + Reverse(h) == Reverse(h);
    }
  }

  /** How a number is to look. */
  datatype Style = Style(left: bool, zero: bool, plus: bool, space: bool, hash: bool, upper: bool, precise: bool)

  function StyleOf(f: Flags): Style {
    Style(Left in f, Zeropad in f, Plus in f, Space in f, Hash in f, Upper in f, Precision in f)
  }

  /** What is printed of a value, apart from its padding with spaces. */
  datatype Number = Number(sign: string, prefix: string, zeros: int, ds: string)

  function Size(m: Number): int { |m.sign| + |m.prefix| + m.zeros + |m.ds| }

  function NumberOf(value: nat, negative: bool, base: nat, prec: nat, width: nat, st: Style): Number
    requires 2 <= base <= 16
  {
    var sign := SignText(negative, st.plus, st.space);
    var ds := if st.precise && value == 0 then "" else DigitString(value, base, st.upper);
    var zeros := ZerosFor(|ds|, |sign|, st.left, st.zero, prec, width);
    if !st.hash || value == 0 then Number(sign, "", zeros, ds)
    else
      var w := FillWidth(|sign|, st.left, st.zero, width);
      var shared := if st.precise then 0 else SharedPlaces(|ds| + zeros, base, prec, w);
      Number(sign, PrefixText(base, st.upper), zeros - shared, ds)
  }

  function Laid(m: Number, width: nat, st: Style): string {
    var body := m.sign + m.prefix + Repeat('0', m.zeros) + m.ds;
    var pad := Repeat(' ', width - |body|);
    if st.left then body + pad else if st.zero then body else pad + body
  }

  lemma FillIs(negative: bool, width: nat, f: Flags)
    ensures SignedWidth(negative, width, f)
      == FillWidth(|SignText(negative, Plus in f, Space in f)|, Left in f, Zeropad in f, width)
  {
  }

  lemma FillTwice(n: nat, sign: nat, left: bool, zero: bool, prec: nat, width: nat)
    ensures ZerosFor(n, sign, left, zero, prec, width)
      == ZerosFor(n, 0, left, zero, prec, FillWidth(sign, left, zero, width))
  {
  }

  /** The printed order of the buffer behind '#'. */
  lemma HashedBack(buf: string, zeros: nat, base: nat, prec: nat, w: nat, f: Flags, shared: nat)
    requires var m := |buf| + zeros;
      && shared <= zeros && m - shared + (if Hash in f then |PrefixText(base, Upper in f)| else 0) <= NTOA_SIZE
      && shared == if Hash in f && Precision !in f then SharedPlaces(m, base, prec, w) else 0
    ensures Reverse(Hashed(buf + Repeat('0', zeros), base, prec, w, f))
      == (if Hash in f then PrefixText(base, Upper in f) else "") + Repeat('0', zeros - shared) + Reverse(buf)
  {
    hide Repeat, Reverse, SharedPlaces, PrefixText, Hashed;
    var z, p, k := buf + Repeat('0', zeros), PrefixText(base, Upper in f), zeros - shared;
    RepeatBoth('0', k, shared);
    var kept := buf + Repeat('0', k);
    assert z[..|z| - shared] == kept;
    ReverseBoth(buf, Repeat('0', k));
    ReverseRepeat('0', k);
    if Hash in f {
      HashedShares(z, base, prec, w, f, shared);
      ReverseBoth(kept, Reverse(p));
      ReverseTwice(p);
    } else {
      NotHashed(z, base, prec, w, f);
      assert "" + Repeat('0', k) == Repeat('0', k);
    }
  }

  lemma NotHashed(z: string, base: nat, prec: nat, w: nat, f: Flags)
    requires Hash !in f
    ensures Hashed(z, base, prec, w, f) == z
  {
  }

  lemma {:induction false} ReverseTwice(s: string)
    ensures Reverse(Reverse(s)) == s
  {
    if s != [] {
      var i := |s| - 1;
      ReverseFirst(s[i], Reverse(s[..i]));
      ReverseTwice(s[..i]);
    }
  }

  lemma RevTextIs(s: string, m: Number, width: nat, w: nat, f: Flags)
    requires m.zeros >= 0 && Reverse(s) == m.sign + m.prefix + Repeat('0', m.zeros) + m.ds
    requires w == FillWidth(|m.sign|, Left in f, Zeropad in f, width)
    ensures RevText(s, w, f) == Laid(m, width, StyleOf(f))
  {
    hide Repeat, Reverse;
    RepeatLess(' ', 0);
  }

  lemma FormatIs(buf: string, negative: bool, base: nat, prec: nat, width: nat, f: Flags, m: Number)
    requires var w := FillWidth(|m.sign|, Left in f, Zeropad in f, width);
      var zeros := ZerosFor(|buf|, |m.sign|, Left in f, Zeropad in f, prec, width);
      && m.sign == SignText(negative, Plus in f, Space in f)
      && m.prefix == (if Hash in f then PrefixText(base, Upper in f) else "")
      && m.zeros == zeros
        - (if Hash in f && Precision !in f then SharedPlaces(|buf| + zeros, base, prec, w) else 0)
      && m.ds == Reverse(buf) && m.zeros >= 0 && Size(m) <= NTOA_SIZE
    ensures FormatText(buf, negative, base, prec, width, f) == Laid(m, width, StyleOf(f))
  {
    hide Repeat, Reverse, Zeroed, Hashed, Signed, ZerosFor, SharedPlaces, PrefixText, SignText, FillWidth,
      SignedWidth, Laid, RevText;
    var w := SignedWidth(negative, width, f);
    FillIs(negative, width, f);
    BufferBack(buf, |m.sign|, base, prec, width, f, m);
    var h := Hashed(Zeroed(buf, prec, w, f), base, prec, w, f);
    assert |h| == |Reverse(h)|;
    ReverseSigned(h, negative, f);
    RevTextIs(Signed(h, negative, f), m, width, w, f);
  }

  lemma BufferBack(buf: string, sign: nat, base: nat, prec: nat, width: nat, f: Flags, m: Number)
    requires var w := FillWidth(sign, Left in f, Zeropad in f, width);
      var zeros := ZerosFor(|buf|, sign, Left in f, Zeropad in f, prec, width);
      && m.prefix == (if Hash in f then PrefixText(base, Upper in f) else "")
      && m.zeros == zeros
        - (if Hash in f && Precision !in f then SharedPlaces(|buf| + zeros, base, prec, w) else 0)
      && m.ds == Reverse(buf) && m.zeros >= 0 && |m.prefix| + m.zeros + |m.ds| <= NTOA_SIZE
    ensures var w := FillWidth(sign, Left in f, Zeropad in f, width);
      Reverse(Hashed(Zeroed(buf, prec, w, f), base, prec, w, f)) == m.prefix + Repeat('0', m.zeros) + m.ds
  {
    hide Repeat, Reverse, Zeroed, Hashed, ZerosFor, SharedPlaces, PrefixText, FillWidth;
    var w := FillWidth(sign, Left in f, Zeropad in f, width);
    var zeros := ZerosFor(|buf|, sign, Left in f, Zeropad in f, prec, width);
    FillTwice(|buf|, sign, Left in f, Zeropad in f, prec, width);
    SharedLess(|buf| + zeros, base, prec, w, Upper in f);
    ZeroedIs(buf, prec, w, f, zeros);
    HashedBack(buf, zeros, base, prec, w, f, zeros - m.zeros);
  }

  lemma SharedLess(n: nat, base: nat, prec: nat, w: nat, upper: bool)
    ensures SharedPlaces(n, base, prec, w) <= |PrefixText(base, upper)|
  {
  }

  lemma ZeroDigit(base: nat, upper: bool)
    requires 2 <= base <= 16
    ensures |DigitString(0, base, upper)| == 1
  {
    DigitStringStep(0, base, upper);
  }

  /** What the conversion of a value prints, when it takes at most 32 characters before padding with spaces. */
  lemma NtoaIs(value: nat, negative: bool, base: nat, prec: nat, width: nat, f: Flags)
    requires 2 <= base <= 16
    requires var m := NumberOf(value, negative, base, prec, width, StyleOf(f));
      m.zeros >= 0 && Size(m) <= NTOA_SIZE
    ensures NtoaText(value, negative, base, prec, width, f)
      == Laid(NumberOf(value, negative, base, prec, width, StyleOf(f)), width, StyleOf(f))
  {
    hide Digits, DigitString, Reverse, FormatText, ZerosFor, SharedPlaces, PrefixText, SignText, FillWidth;
    var m := NumberOf(value, negative, base, prec, width, StyleOf(f));
    var f1 := if value == 0 then f - {Hash} else f;
    ZeroDigit(base, Upper in f);
    DigitsReversed(value, base, Upper in f, NTOA_SIZE);
    ReverseNone();
    var buf := if Precision !in f || value != 0 then Digits(value, base, Upper in f1, NTOA_SIZE) else [];
    assert |buf| == |Reverse(buf)| && Reverse(buf) == m.ds;
    FormatIs(buf, negative, base, prec, width, f1, m);
  }
}
