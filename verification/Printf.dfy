/** The bounded formatter of printf.c, writing to a buffer of `maxlen` characters.  A NULL buffer writes
    nothing, like a buffer of no length. */
module Printf {
  import opened Bits
  import opened PrintfText

  class Printer {
    const buf: array<char>
    const maxlen: nat
    var idx: nat
    ghost const before: seq<char>
    ghost var text: string

    /** The index counts what is printed in 32 bits.  Nothing past the limit is touched; and as long as
        the index has not wrapped, everything printed so far that fits is in the buffer, and the rest
        of the buffer is as it was. */
    ghost predicate Valid()
      reads this, buf
    {
      && idx == |text| % U32 && maxlen <= buf.Length == |before|
      && (forall i :: maxlen <= i < buf.Length ==> buf[i] == before[i])
      && (|text| < U32 ==>
        forall i :: 0 <= i < buf.Length ==> buf[i] == if i < |text| && i < maxlen then text[i] else before[i])
    }

    constructor (b: array<char>, count: nat)
      requires count <= b.Length
      ensures Valid() && text == [] && buf == b && maxlen == count && before == b[..]
    {
      buf, maxlen, idx, before, text := b, count, 0, b[..], [];
    }

    /** _out_buffer, with idx++. */
    method Out(c: char)
      requires Valid()
      modifies this, buf
      ensures Valid() && text == old(text) + [c]
    {
      if idx < maxlen { buf[idx] := c; }
      WrapAddOfRem(|text|, 1, U32);
      idx := (idx + 1) % U32;
      text := text + [c];
    }

    method Spaces(from: nat, width: nat)
      requires Valid()
      modifies this, buf
      ensures Valid() && text == old(text) + Repeat(' ', width - from)
    {
      var i := from;
      while i < width
        invariant Valid() && from <= i && (i <= width || i == from)
        invariant text == old(text) + Repeat(' ', i - from)
      {
        Out(' ');
        RepeatMore(' ', i - from);
        i := i + 1;
      }
    }

    method OutReversed(b: array<char>, len: nat)
      requires Valid() && len <= b.Length && b != buf
      modifies this, buf
      ensures Valid() && text == old(text) + Reverse(b[..len])
    {
      hide Reverse;
      ghost var lead, s := text, b[..len];
      var n := len;
      assert s[..len] == s;
      while n > 0
        invariant n <= len && Valid() && b[..len] == s
        invariant text + Reverse(s[..n]) == lead + Reverse(s)
      {
        n := n - 1;
        ReverseLast(s, n);
        Out(b[n]);
      }
      ReverseNone(s);
    }

    /** _out_rev: the characters of b[..len] last first, with padding. */
    method OutRev(b: array<char>, len: nat, width: nat, f: Flags)
      requires Valid() && len <= b.Length && b != buf
      modifies this, buf
      ensures Valid() && text == old(text) + RevText(b[..len], width, f)
    {
      hide Repeat, Reverse, Valid;
      ghost var was, lead, trail := text, "", "";
      if Left !in f && Zeropad !in f {
        lead := Repeat(' ', width - len);
        Spaces(len, width);
      }
      OutReversed(b, len);
      if Left in f {
        trail := Repeat(' ', width - len);
        Spaces(len, width);
      }
      Joined(was, lead, Reverse(b[..len]), trail);
    }

    /** Appends c when there is room. */
    method Push(b: array<char>, len: nat, c: char) returns (n: nat)
      requires len <= b.Length == NTOA_SIZE
      modifies b
      ensures n <= NTOA_SIZE && b[..n] == WithRoom(old(b[..len]), c)
    {
      n := len;
      if n < NTOA_SIZE {
        b[n] := c;
        n := n + 1;
      }
    }

    method Zeros(b: array<char>, len: nat, want: nat) returns (n: nat)
      requires len <= b.Length == NTOA_SIZE
      modifies b
      ensures len <= n <= NTOA_SIZE && b[..n] == PadZeros(old(b[..len]), want)
    {
      n := len;
      while n < want && n < NTOA_SIZE
        invariant len <= n <= NTOA_SIZE && (n <= want || n == len)
        invariant b[..n] == old(b[..len]) + Repeat('0', n - len)
      {
        RepeatMore('0', n - len);
        b[n] := '0';
        n := n + 1;
      }
    }

    method Prefix(b: array<char>, len: nat, base: nat, prec: nat, width: nat, f: Flags) returns (n: nat)
      requires len <= b.Length == NTOA_SIZE
      modifies b
      ensures n <= NTOA_SIZE && b[..n] == Hashed(old(b[..len]), base, prec, width, f)
    {
      n := len;
      if Hash in f {
        if Precision !in f && n > 0 && (n == prec || n == width) {
          n := n - 1;
          if n > 0 && base == 16 { n := n - 1; }
        }
        assert b[..n] == old(b[..len])[..n];
        if base == 16 && Upper !in f && n < NTOA_SIZE {
          n := Push(b, n, 'x');
        } else if base == 16 && Upper in f && n < NTOA_SIZE {
          n := Push(b, n, 'X');
        } else if base == 2 && n < NTOA_SIZE {
          n := Push(b, n, 'b');
        }
        n := Push(b, n, '0');
      }
    }

    /** Leading zeros, and the width that is left. */
    method Widen(b: array<char>, len: nat, negative: bool, prec: nat, width: nat, f: Flags) returns (n: nat, w: nat)
      requires len <= b.Length == NTOA_SIZE
      modifies b
      ensures w == SignedWidth(negative, width, f)
      ensures n <= NTOA_SIZE && b[..n] == Zeroed(old(b[..len]), prec, w, f)
    {
      hide PadZeros;
      n, w := len, width;
      if Left !in f {
        if w > 0 && Zeropad in f && (negative || Plus in f || Space in f) { w := w - 1; }
        n := Zeros(b, n, prec);
        if Zeropad in f { n := Zeros(b, n, w); }
      }
    }

    method Sign(b: array<char>, len: nat, negative: bool, f: Flags) returns (n: nat)
      requires len <= b.Length == NTOA_SIZE
      modifies b
      ensures n <= NTOA_SIZE && b[..n] == Signed(old(b[..len]), negative, f)
    {
      hide WithRoom;
      n := len;
      if negative {
        n := Push(b, n, '-');
      } else if Plus in f {
        n := Push(b, n, '+');
      } else if Space in f {
        n := Push(b, n, ' ');
      }
    }

    /** _ntoa_format. */
    method NtoaFormat(b: array<char>, len: nat, negative: bool, base: nat, prec: nat, width: nat, f: Flags)
      requires Valid() && len <= b.Length == NTOA_SIZE && b != buf
      modifies this, buf, b
      ensures Valid() && text == old(text) + FormatText(old(b[..len]), negative, base, prec, width, f)
    {
      hide Hashed, RevText, Zeroed, Signed, SignedWidth;
      var n, w := Widen(b, len, negative, prec, width, f);
      n := Prefix(b, n, base, prec, w, f);
      n := Sign(b, n, negative, f);
      OutRev(b, n, w, f);
    }

    /** The digit loop of _ntoa_long and _ntoa_long_long. */
    method TakeDigits(value: nat, base: nat, upper: bool) returns (b: array<char>, len: nat)
      requires 2 <= base <= 16
      ensures fresh(b) && len <= b.Length == NTOA_SIZE && b[..len] == Digits(value, base, upper, NTOA_SIZE)
    {
      hide Digits, DigitChar;
      b := new char[NTOA_SIZE];
      len := 0;
      var v: nat := value;
      ghost var all := Digits(value, base, upper, NTOA_SIZE);
      var more := true;
      while more
        invariant len <= NTOA_SIZE
        invariant more ==> len < NTOA_SIZE && b[..len] + Digits(v, base, upper, NTOA_SIZE - len) == all
        invariant !more ==> b[..len] == all
        decreases NTOA_SIZE - len, more
      {
        ghost var done := b[..len];
        DigitsStep(v, base, upper, NTOA_SIZE - len);
        b[len] := DigitChar(v % base, upper);
        len := len + 1;
        assert b[..len] == done + [DigitChar(v % base, upper)];
        v := v / base;
        more := v != 0 && len < NTOA_SIZE;
      }
    }

    /** _ntoa_long and _ntoa_long_long. */
    method Ntoa(value: nat, negative: bool, base: nat, prec: nat, width: nat, f: Flags)
      requires Valid() && 2 <= base <= 16
      modifies this, buf
      ensures Valid() && text == old(text) + NtoaText(value, negative, base, prec, width, f)
    {
      hide FormatText, Digits;
      var f1 := if value == 0 then f - {Hash} else f;
      var b, len := new char[NTOA_SIZE], 0;
      assert b[..0] == [];
      if Precision !in f1 || value != 0 { b, len := TakeDigits(value, base, Upper in f1); }
      NtoaFormat(b, len, negative, base, prec, width, f1);
    }

    /** Evaluates flag characters from position i on. */
    method EvalFlags(s: string, i: nat) returns (f: Flags, j: nat)
      requires i <= |s|
      ensures i <= j <= |s| && (f, s[j..]) == ParseFlags(s[i..], NO_FLAGS)
    {
      f, j := NO_FLAGS, i;
      while j < |s| && IsFlag(s[j])
        invariant i <= j <= |s| && ParseFlags(s[j..], f) == ParseFlags(s[i..], NO_FLAGS)
      {
        f := WithFlag(f, s[j]);
        assert s[j..][1..] == s[j + 1..];
        j := j + 1;
      }
    }

    method Atoi(s: string, i: nat) returns (n: nat, j: nat)
      requires i <= |s|
      ensures i <= j <= |s| && (n, s[j..]) == ParseNum(s[i..], 0)
    {
      n, j := 0, i;
      while j < |s| && IsDigit(s[j])
        invariant i <= j <= |s| && ParseNum(s[j..], n) == ParseNum(s[i..], 0)
      {
        n := (n * 10 + (s[j] as int - '0' as int)) % U32;
        assert s[j..][1..] == s[j + 1..];
        j := j + 1;
      }
    }

    method EvalWidth(s: string, i: nat, args: seq<Arg>, f0: Flags)
      returns (f: Flags, width: nat, j: nat, rest: seq<Arg>)
      requires i <= |s|
      ensures i <= j <= |s| && Spec(f, width, 0, s[j..], rest) == ParseWidth(s[i..], args, f0)
    {
      f, width, j, rest := f0, 0, i, args;
      if i < |s| && IsDigit(s[i]) {
        width, j := Atoi(s, i);
      } else if i < |s| && s[i] == '*' {
        var w := SignedWrap(IntOf(args), U32);
        if w < 0 { f, width := f + {Left}, -w; } else { width := w; }
        rest, j := Rest(args), i + 1;
      }
    }

    method EvalPrec(s: string, i: nat, args: seq<Arg>, f0: Flags, ghost width: nat)
      returns (f: Flags, prec: nat, j: nat, rest: seq<Arg>)
      requires i <= |s|
      ensures i <= j <= |s| && Spec(f, width, prec, s[j..], rest) == ParsePrec(Spec(f0, width, 0, s[i..], args))
    {
      f, prec, j, rest := f0, 0, i, args;
      if i < |s| && s[i] == '.' {
        f, j := f + {Precision}, i + 1;
        assert s[i..][1..] == s[j..];
        if j < |s| && IsDigit(s[j]) {
          prec, j := Atoi(s, j);
        } else if j < |s| && s[j] == '*' {
          var n := SignedWrap(IntOf(args), U32);
          prec := if n > 0 then n else 0;
          rest, j := Rest(args), j + 1;
        }
      }
    }

    method EvalLength(s: string, i: nat, f0: Flags) returns (f: Flags, j: nat)
      requires i <= |s|
      ensures i <= j <= |s| && (f, j - i) == LengthAt(s[i..], f0)
    {
      f, j := f0, i;
      if i == |s| { return; }
      if s[i] == 'l' {
        f, j := f + {Long}, i + 1;
        if j < |s| && s[j] == 'l' { f, j := f + {LongLong}, j + 1; }
      } else if s[i] == 'h' {
        f, j := f + {Short}, i + 1;
        if j < |s| && s[j] == 'h' { f, j := f + {Char}, j + 1; }
      } else if s[i] == 't' || s[i] == 'z' {
        f, j := f + {Long}, i + 1;
      } else if s[i] == 'j' {
        f, j := f + {LongLong}, i + 1;
      }
    }

    /** _strnlen_s. */
    method StrnlenS(s: string, max: nat) returns (n: nat)
      ensures n == if CLen(s) < max then CLen(s) else max
    {
      n := 0;
      while n < |s| && s[n] != '\0' && n < max
        invariant n <= |s| && n <= max && n + CLen(s[n..]) == CLen(s)
      {
        assert s[n..][1..] == s[n + 1..];
        n := n + 1;
      }
    }

    method OutChar(c: char, width: nat, f: Flags)
      requires Valid()
      modifies this, buf
      ensures Valid() && text == old(text) + CharText(c, width, f)
    {
      if Left !in f { Spaces(1, width); }
      Out(c);
      if Left in f { Spaces(1, width); }
    }

    /** Prints s up to its end, or up to prec characters when a precision is given. */
    method OutChars(s: string, prec: nat, f: Flags)
      requires Valid()
      modifies this, buf
      ensures Valid() && text == old(text) + s[..Shown(s, prec, f)]
    {
      hide CLen;
      ghost var lead := text;
      var i: nat := 0;
      assert s[0..] == s;
      while i < |s| && s[i] != '\0' && (Precision !in f || i < prec)
        invariant i <= |s| && Valid() && text == lead + s[..i]
        invariant i + CLen(s[i..]) == CLen(s) && (Precision in f ==> i <= prec)
      {
        CLenNext(s, i);
        Out(s[i]);
        i := i + 1;
      }
      CLenStops(s, i);
    }

    method OutString(s: string, prec: nat, width: nat, f: Flags)
      requires Valid() && (Precision !in f ==> prec == 0)
      modifies this, buf
      ensures Valid() && text == old(text) + StringText(s, prec, width, f)
    {
      hide Repeat, Shown, Valid;
      var l := ShownLength(s, prec, f);
      ghost var was, lead, trail := text, "", "";
      if Left !in f {
        lead := Repeat(' ', width - l);
        Spaces(l, width);
      }
      OutChars(s, prec, f);
      if Left in f {
        trail := Repeat(' ', width - l);
        Spaces(l, width);
      }
      Joined(was, lead, s[..l], trail);
    }

    method ShownLength(s: string, prec: nat, f: Flags) returns (l: nat)
      requires Precision !in f ==> prec == 0
      ensures l == Shown(s, prec, f)
    {
      hide CLen;
      l := StrnlenS(s, if prec > 0 then prec else |s|);
      if Precision in f { l := if l < prec then l else prec; }
    }

    method AdjustFlags(c: char, f0: Flags, base: nat) returns (f: Flags)
      requires base == BaseOf(c)
      ensures f == IntegerFlags(c, f0)
    {
      f := f0;
      if base == 10 { f := f - {Hash}; }
      if c == 'X' { f := f + {Upper}; }
      if !IsSigned(c) { f := f - {Plus, Space}; }
      if Precision in f { f := f - {Zeropad}; }
    }

    method OutInteger(c: char, p: Spec)
      requires Valid() && IsInteger(c)
      modifies this, buf
      ensures Valid() && text == old(text) + IntegerText(c, p)
    {
      hide NtoaText, ArgValue, BaseOf;
      var base := BaseOf(c);
      var f := AdjustFlags(c, p.f, base);
      var v := ArgValue(IntOf(p.args), c, p.f);
      Ntoa(Magnitude(v), v < 0, base, p.prec, p.width, f);
    }

    /** One conversion. */
    method Convert(c: char, p: Spec) returns (left: seq<Arg>)
      requires Valid() && !IsFloat(c) && (Precision !in p.f ==> p.prec == 0)
      modifies this, buf
      ensures Valid() && text == old(text) + Piece(c, p).0 && left == Piece(c, p).1
    {
      hide NtoaText, IntegerText, CharText, StringText;
      left := Rest(p.args);
      if IsInteger(c) {
        OutInteger(c, p);
      } else if c == 'c' {
        OutChar((IntOf(p.args) % U8) as char, p.width, p.f);
      } else if c == 's' {
        OutString(StrOf(p.args), p.prec, p.width, p.f);
      } else if c == 'p' {
        Ntoa(IntOf(p.args) % U32, false, 16, p.prec, 8, p.f + {Zeropad, Upper});
      } else {
        left := p.args;
        Out(c);
      }
    }

    /** The terminating NUL, at the index or at the end of the buffer. */
    method Terminate()
      requires Valid() && maxlen < U32
      modifies buf
      ensures buf[maxlen..] == before[maxlen..]
      ensures 0 < maxlen && |text| < U32 ==>
        var n := if |text| < maxlen then |text| else maxlen - 1;
        buf[..n] == text[..n] && buf[n] == '\0' && buf[n + 1..] == before[n + 1..]
    {
      ghost var printed := buf[..];
      var at := if idx < maxlen then idx else WrapSub(maxlen, 1, U32);
      if at < maxlen { buf[at] := '\0'; }
      EndsWell(before, printed, text, maxlen, at, buf[..]);
    }

    /** `(int)idx`. */
    method Result() returns (ret: int)
      requires idx == |text| % U32
      ensures ret == SignedWrap(|text|, U32)
    {
      WrapAddOfRem(|text|, U32 / 2, U32);
      ret := SignedWrap(idx, U32);
    }

    /** _vsnprintf up to the terminating character. */
    method Print(format: string, va: seq<Arg>)
      requires Valid() && Supported(format, va)
      modifies this, buf
      ensures Valid() && text == old(text) + Text(format, va) && idx == |text| % U32
    {
      hide Text, Supported, ParseSpec, Piece, IsFloat;
      var i: nat, args := 0, va;
      ghost var was := text;
      assert format[0..] == format;
      while i < |format|
        invariant i <= |format| && Valid() && Supported(format[i..], args)
        invariant text + Text(format[i..], args) == was + Text(format, va)
      {
        ghost var s := format[i..];
        TextStep(s, args);
        assert s[1..] == format[i + 1..];
        if format[i] != '%' {
          Out(format[i]);
          i := i + 1;
          continue;
        }
        var p, j := EvalSpec(format, i + 1, args);
        assert p.rest[1..] == format[j + 1..];
        args := Convert(format[j], p);
        i := j + 1;
      }
      assert format[i..] == [];
      TextNone(args);
    }

    /** A whole specification: flags, width, precision, length. */
    method EvalSpec(s: string, i: nat, va: seq<Arg>) returns (p: Spec, j: nat)
      requires i <= |s|
      ensures p == ParseSpec(s[i..], va) && i <= j <= |s| && p.rest == s[j..]
      ensures Precision !in p.f ==> p.prec == 0
    {
      hide ParseFlags, ParseWidth, ParsePrec, LengthAt;
      var f, width, prec, args;
      var k;
      f, k := EvalFlags(s, i);
      f, width, k, args := EvalWidth(s, k, va, f);
      f, prec, k, args := EvalPrec(s, k, args, f, width);
      PrecNeedsFlag(ParseWidth(ParseFlags(s[i..], NO_FLAGS).1, va, ParseFlags(s[i..], NO_FLAGS).0));
      WidthOnly(ParseFlags(s[i..], NO_FLAGS).1, va, ParseFlags(s[i..], NO_FLAGS).0);
      LengthKeeps(s[k..], f);
      f, j := EvalLength(s, k, f);
      assert s[k..][j - k..] == s[j..];
      p := Spec(f, width, prec, s[j..], args);
    }
  }

  lemma WidthOnly(s: string, args: seq<Arg>, f: Flags)
    ensures ParseWidth(s, args, f).prec == 0
  {
  }

  lemma PrecNeedsFlag(p: Spec)
    requires p.prec == 0
    ensures Precision !in ParsePrec(p).f ==> ParsePrec(p).prec == 0
  {
  }

  lemma LengthKeeps(s: string, f: Flags)
    ensures Precision in LengthAt(s, f).0 <==> Precision in f
  {
  }

  /** snprintf: the result is the length of the whole text as an int, whatever the buffer's size; the
      buffer gets as much of the text as fits beside the terminating NUL, and nothing else changes.  A
      text of 2^32 characters or more wraps the index; even then nothing at or past `count` changes. */
  method Snprintf(b: array<char>, count: nat, format: string, va: seq<Arg>) returns (ret: int)
    requires count <= b.Length && count < U32 && Supported(format, va)
    modifies b
    ensures ret == SignedWrap(|Text(format, va)|, U32)
    ensures b[count..] == old(b[count..])
    ensures 0 < count && |Text(format, va)| < U32 ==>
      var t := Text(format, va);
      var n := if |t| < count then |t| else count - 1;
      b[..n] == t[..n] && b[n] == '\0' && b[n + 1..] == old(b[n + 1..])
  {
    hide Text, Supported, Printer.Valid, SignedWrap;
    var p := new Printer(b, count);
    p.Print(format, va);
    p.Terminate();
    ret := p.Result();
  }

  /** What the terminating NUL completes. */
  lemma EndsWell(was: string, printed: string, t: string, count: nat, at: nat, b: string)
    requires count <= |was| == |printed| && count < U32
    requires at == if |t| % U32 < count then |t| % U32 else WrapSub(count, 1, U32)
    requires b == if at < count then printed[at := '\0'] else printed
    requires forall i :: count <= i < |was| ==> printed[i] == was[i]
    requires |t| < U32 ==> forall i :: 0 <= i < |was| ==> printed[i] == if i < |t| && i < count then t[i] else was[i]
    ensures b[count..] == was[count..]
    ensures 0 < count && |t| < U32 ==>
      var n := if |t| < count then |t| else count - 1;
      b[..n] == t[..n] && b[n] == '\0' && b[n + 1..] == was[n + 1..]
  {
  }

  lemma Joined(t: string, a: string, b: string, c: string)
    ensures t + a + b + c == t + (a + b + c)
  {
  }

  lemma TextNone(args: seq<Arg>)
    ensures Text([], args) == []
  {
  }

  /** One turn of the main loop. */
  lemma TextStep(s: string, args: seq<Arg>)
    requires s != [] && Supported(s, args)
    ensures s[0] != '%' ==> Text(s, args) == [s[0]] + Text(s[1..], args) && Supported(s[1..], args)
    ensures s[0] == '%' ==>
      var p := ParseSpec(s[1..], args);
      && p.rest != [] && !IsFloat(p.rest[0])
      && Text(s, args) == Piece(p.rest[0], p).0 + Text(p.rest[1..], Piece(p.rest[0], p).1)
      && Supported(p.rest[1..], Piece(p.rest[0], p).1)
  {
  }

  lemma DigitsStep(v: nat, base: nat, upper: bool, room: nat)
    requires 2 <= base <= 16 && room > 0
    ensures Digits(v, base, upper, room) ==
      [DigitChar(v % base, upper)] + (if v / base != 0 && room > 1 then Digits(v / base, base, upper, room - 1) else [])
  {
  }

  lemma CLenNext(s: string, i: nat)
    requires i < |s|
    ensures CLen(s[i..]) == if s[i] == '\0' then 0 else 1 + CLen(s[i + 1..])
  {
    assert s[i..][1..] == s[i + 1..];
  }

  lemma CLenStops(s: string, i: nat)
    requires i <= |s|
    ensures i == |s| || s[i] == '\0' ==> CLen(s[i..]) == 0
  {
  }

  lemma ReverseLast(s: string, n: nat)
    requires n < |s|
    ensures Reverse(s[..n + 1]) == [s[n]] + Reverse(s[..n])
  {
    assert s[..n + 1][..n] == s[..n];
  }

  lemma ReverseNone(s: string)
    ensures Reverse(s[..0]) == []
  {
  }

  lemma {:induction false} RepeatMore(c: char, n: nat)
    ensures Repeat(c, n + 1) == Repeat(c, n) + [c]
  {
    if n > 0 { RepeatMore(c, n - 1); }
  }
}
