/** The bitmaps of metal/utilities.h: bit b is bit b % 32 of word b / 32. */
module BitMaps {
  import opened Bits

  function Bit(k: nat): bv32
    requires k < 32
  {
    1 << (k as bv5)
  }

  function Or(w: bv32, b: bv32): bv32 { w | b }

  function Without(w: bv32, b: bv32): bv32 { w & !b }

  function Common(w: bv32, b: bv32): bv32 { w & b }

  predicate Meets(w: bv32, b: bv32) { Common(w, b) != 0 }

  predicate WordHas(w: bv32, k: nat)
    requires k < 32
  {
    Meets(w, Bit(k))
  }

  function WithBit(w: bv32, k: nat): bv32
    requires k < 32
  {
    Or(w, Bit(k))
  }

  function WithoutBit(w: bv32, k: nat): bv32
    requires k < 32
  {
    Without(w, Bit(k))
  }

  lemma BitsMeet(j: nat, k: nat)
    requires j < 32 && k < 32
    ensures Meets(Bit(j), Bit(k)) <==> j == k
  {
    ShiftsMeet(j as bv5, k as bv5);
    SmallNumber(j);
    SmallNumber(k);
    hide Meets;
  }

  lemma ShiftsMeet(a: bv5, b: bv5)
    ensures Meets(1 << a, 1 << b) <==> a == b
  {
  }

  lemma SmallNumber(k: nat)
    requires k < 32
    ensures (k as bv5) as nat == k
  {
  }

  lemma OrSame(w: bv32, b: bv32)
    ensures Common(Or(w, b), b) == Common(b, b)
  {
  }

  lemma WithoutSame(w: bv32, b: bv32)
    ensures Common(Without(w, b), b) == 0
  {
  }

  lemma OrOther(w: bv32, b: bv32, c: bv32)
    requires Common(b, c) == 0
    ensures Common(Or(w, b), c) == Common(w, c)
  {
  }

  lemma WithoutOther(w: bv32, b: bv32, c: bv32)
    requires Common(b, c) == 0
    ensures Common(Without(w, b), c) == Common(w, c)
  {
  }

  lemma MaskSame(w: bv32, b: bv32)
    requires Meets(b, b)
    ensures Meets(Or(w, b), b) && !Meets(Without(w, b), b)
  {
    hide Common, Or, Without;
    OrSame(w, b);
    WithoutSame(w, b);
  }

  lemma MaskOther(w: bv32, b: bv32, c: bv32)
    requires !Meets(b, c)
    ensures Meets(Or(w, b), c) == Meets(w, c) == Meets(Without(w, b), c)
  {
    hide Common, Or, Without;
    OrOther(w, b, c);
    WithoutOther(w, b, c);
  }

  lemma WordSet(w: bv32, j: nat, k: nat)
    requires j < 32 && k < 32
    ensures WordHas(WithBit(w, j), k) <==> j == k || WordHas(w, k)
    ensures WordHas(WithoutBit(w, j), k) <==> j != k && WordHas(w, k)
  {
    hide Meets, Or, Without, Bit;
    BitsMeet(j, k);
    if j == k { MaskSame(w, Bit(j)); } else { MaskOther(w, Bit(j), Bit(k)); }
  }

  ghost function BitsOf(ws: seq<bv32>): (s: seq<bool>)
    ensures |s| == 32 * |ws|
    ensures forall b: nat {:trigger s[b]} :: b < 32 * |ws| ==> s[b] == WordHas(ws[b / 32], b % 32)
  {
    seq(32 * |ws|, (b: nat) requires b < 32 * |ws| => WordHas(ws[b / 32], b % 32))
  }

  lemma BitsSet(ws: seq<bv32>, b: nat)
    requires b < 32 * |ws|
    ensures BitsOf(ws[b / 32 := WithBit(ws[b / 32], b % 32)]) == BitsOf(ws)[b := true]
    ensures BitsOf(ws[b / 32 := WithoutBit(ws[b / 32], b % 32)]) == BitsOf(ws)[b := false]
  {
    hide Bit, WordHas, WithBit, WithoutBit;
    var w := ws[b / 32];
    var on, off := ws[b / 32 := WithBit(w, b % 32)], ws[b / 32 := WithoutBit(w, b % 32)];
    var s, s1, s0 := BitsOf(ws), BitsOf(on), BitsOf(off);
    forall i: nat | i < 32 * |ws| ensures s1[i] == s[b := true][i] && s0[i] == s[b := false][i] {
      if i / 32 == b / 32 { WordSet(w, b % 32, i % 32); }
    }
  }

  // Search.

  predicate ClearAt(bits: seq<bool>, start: nat, i: nat)
    requires |bits| > 0
  {
    !bits[(start + i) % |bits|]
  }

  /** Number of steps from `start`, from i on, until a clear bit or a full turn. */
  function StepsToClear(bits: seq<bool>, start: nat, i: nat): (r: nat)
    requires |bits| > 0 && i <= |bits|
    ensures i <= r <= |bits|
    ensures r < |bits| ==> ClearAt(bits, start, r)
    ensures forall j :: i <= j < r ==> !ClearAt(bits, start, j)
    decreases |bits| - i
  {
    if i == |bits| || ClearAt(bits, start, i) then i else StepsToClear(bits, start, i + 1)
  }

  /** The first clear bit at or after `start`, cyclically; a full map gives start % max. */
  function NextClear(bits: seq<bool>, start: nat): (r: nat)
    requires |bits| > 0
    ensures r < |bits|
  {
    (start + StepsToClear(bits, start, 0)) % |bits|
  }

  /** The bit found is clear exactly when some bit is. */
  lemma NextClearExact(bits: seq<bool>, start: nat)
    requires |bits| > 0
    ensures !bits[NextClear(bits, start)] <==> exists b :: 0 <= b < |bits| && !bits[b]
  {
    var n, r := |bits|, StepsToClear(bits, start, 0);
    if r < n {
      assert ClearAt(bits, start, r);
    } else if b :| 0 <= b < n && !bits[b] {
      var i := Turn(start, b, n);
      assert ClearAt(bits, start, i);
    } else {
      assert bits[NextClear(bits, start)];
    }
  }

  /** Every position is reached within one turn. */
  lemma Turn(start: nat, b: nat, n: nat) returns (i: nat)
    requires b < n
    ensures i < n && (start + i) % n == b
  {
    var s := start % n;
    i := if b >= s then b - s else b + n - s;
    var q := start / n;
    assert start == q * n + s;
    if b >= s {
      assert start + i == q * n + b;
      RemUnique(start + i, n, q, b);
    } else {
      assert start + i == (q + 1) * n + b;
      RemUnique(start + i, n, q + 1, b);
    }
  }

  class Bitmap {
    const words: array<bv32>

    ghost function Bits(): (s: seq<bool>)
      reads words
      ensures |s| == 32 * words.Length
    {
      BitsOf(words[..])
    }

    constructor (n: nat)
      ensures fresh(words) && words.Length == n && Bits() == seq(32 * n, _ => false)
    {
      words := new bv32[n](_ => 0);
    }

    method SetBit(b: nat)
      requires b < 32 * words.Length
      modifies words
      ensures Bits() == old(Bits())[b := true]
    {
      hide Bit, BitsOf, WithBit, WithoutBit;
      ghost var ws := words[..];
      BitsSet(ws, b);
      words[b / 32] := WithBit(words[b / 32], b % 32);
      assert words[..] == ws[b / 32 := WithBit(ws[b / 32], b % 32)];
    }

    method ClearBit(b: nat)
      requires b < 32 * words.Length
      modifies words
      ensures Bits() == old(Bits())[b := false]
    {
      hide Bit, BitsOf, WithBit, WithoutBit;
      ghost var ws := words[..];
      BitsSet(ws, b);
      words[b / 32] := WithoutBit(words[b / 32], b % 32);
      assert words[..] == ws[b / 32 := WithoutBit(ws[b / 32], b % 32)];
    }

    method IsBitSet(b: nat) returns (r: bool)
      requires b < 32 * words.Length
      ensures r == Bits()[b]
    {
      hide WordHas;
      r := WordHas(words[b / 32], b % 32);
    }

    method NextClearBit(start: nat) returns (r: nat)
      requires words.Length > 0
      ensures r == NextClear(Bits(), start)
    {
      hide BitsOf;
      var max := 32 * words.Length;
      var bit := start;
      ghost var bits := Bits();
      while bit < max + start
        invariant start <= bit <= max + start
        invariant StepsToClear(bits, start, bit - start) == StepsToClear(bits, start, 0)
      {
        var taken := IsBitSet(bit % max);
        if !taken { break; }
        bit := bit + 1;
      }
      r := bit % max;
    }
  }
}
