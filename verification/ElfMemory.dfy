/** What target memory holds after an image has been loaded. */
module ElfMemory {
  import opened Bits
  import opened ElfImage
  import opened RemoteprocLoad

  predicate Touches(w: Write, a: nat) {
    match w
    case Copy(addr, data) => addr <= a < addr + |data|
    case Fill(addr, _, count) => addr <= a < addr + count
  }

  function ByteOf(w: Write, a: nat): byte
    requires Touches(w, a)
  {
    match w
    case Copy(addr, data) => data[a - addr]
    case Fill(_, value, _) => value
  }

  /** The byte at address a after the writes, if it was d before. */
  function ValueAt(ws: seq<Write>, a: nat, d: byte): byte {
    if ws == [] then d
    else
      var w := ws[|ws| - 1];
      if Touches(w, a) then ByteOf(w, a) else ValueAt(ws[..|ws| - 1], a, d)
  }

  lemma {:induction false} ValueAtConcat(x: seq<Write>, y: seq<Write>, a: nat, d: byte)
    ensures ValueAt(x + y, a, d) == ValueAt(y, a, ValueAt(x, a, d))
  {
    if y == [] {
      assert x + y == x;
    } else {
      assert (x + y)[..|x + y| - 1] == x + y[..|y| - 1];
      ValueAtConcat(x, y[..|y| - 1], a, d);
    }
  }

  predicate InSegment(s: Segment, a: nat) { s.paddr <= a < s.paddr + s.memsz }

  /** File contents, then zeros. */
  function SegmentByte(im: seq<byte>, s: Segment, a: nat): byte
    requires s.offset + s.filesz <= |im| && InSegment(s, a)
  {
    if a - s.paddr < s.filesz then im[s.offset + (a - s.paddr)] else 0
  }

  lemma OneSegment(im: seq<byte>, s: Segment, a: nat, d: byte)
    requires s.offset + s.filesz <= |im| && s.filesz <= s.memsz
    ensures ValueAt(SegmentWrites(im, s), a, d) == if InSegment(s, a) then SegmentByte(im, s, a) else d
  {
    var x := if s.filesz > 0 then [Copy(s.paddr, im[s.offset..s.offset + s.filesz])] else [];
    var y := if s.memsz > s.filesz then [Fill(s.paddr + s.filesz, 0, s.memsz - s.filesz)] else [];
    ValueAtConcat(x, y, a, d);
    ValueAtOne(x, a, d);
    ValueAtOne(y, a, ValueAt(x, a, d));
  }

  lemma ValueAtOne(x: seq<Write>, a: nat, d: byte)
    requires |x| <= 1
    ensures ValueAt(x, a, d) == if |x| == 1 && Touches(x[0], a) then ByteOf(x[0], a) else d
  {
    if |x| == 1 { assert x[..0] == []; }
  }

  /** Segment i is loadable and contains address a. */
  ghost predicate LoadsAt(im: seq<byte>, i: nat, a: nat)
    requires WellFormed(im)
  {
    i < PhNum(im) && Seg(im, i).kind == PT_LOAD && InSegment(Seg(im, i), a)
  }

  /** The last segment that contains the address decides; an address in none keeps its byte. */
  lemma {:induction false} LastSegmentDecides(im: seq<byte>, i: nat, a: nat, d: byte)
    requires WellFormed(im) && i <= PhNum(im)
    ensures (forall j: nat :: i <= j ==> !LoadsAt(im, j, a)) ==> ValueAt(Writes(im, i), a, d) == d
    ensures forall j: nat :: i <= j && LoadsAt(im, j, a) && (forall k: nat :: j < k ==> !LoadsAt(im, k, a)) ==>
      && Seg(im, j).offset + Seg(im, j).filesz <= |im|
      && ValueAt(Writes(im, i), a, d) == SegmentByte(im, Seg(im, j), a)
    decreases PhNum(im) - i
  {
    hide Seg, PhNum, Inside, ValueAt, SegmentWrites, SegmentByte, InSegment;
    if i < PhNum(im) {
      var s := Seg(im, i);
      var first := if s.kind == PT_LOAD then SegmentWrites(im, s) else [];
      var d1 := ValueAt(first, a, d);
      ValueAtConcat(first, Writes(im, i + 1), a, d);
      LastSegmentDecides(im, i + 1, a, d1);
      assert LoadsAt(im, i, a) <==> s.kind == PT_LOAD && InSegment(s, a);
      if s.kind == PT_LOAD { OneSegment(im, s, a, d); } else { ValueAtOne(first, a, d); }
    } else {
      ValueAtOne([], a, d);
    }
  }

  ghost predicate DisjointSegments(im: seq<byte>)
    requires WellFormed(im)
  {
    forall i: nat, j: nat, a: nat :: LoadsAt(im, i, a) && LoadsAt(im, j, a) ==> i == j
  }

  /** Loading puts every loadable segment in place, zero-filled, and touches nothing else. */
  lemma Loaded(im: seq<byte>, a: nat, d: byte)
    requires WellFormed(im) && DisjointSegments(im)
    ensures forall i: nat :: LoadsAt(im, i, a) ==>
      && Seg(im, i).offset + Seg(im, i).filesz <= |im|
      && ValueAt(Writes(im, 0), a, d) == SegmentByte(im, Seg(im, i), a)
    ensures (forall i: nat :: !LoadsAt(im, i, a)) ==> ValueAt(Writes(im, 0), a, d) == d
  {
    hide LoadsAt, Seg, ValueAt, Writes, SegmentByte;
    LastSegmentDecides(im, 0, a, d);
  }

  // A store that cannot seek.

  function SampleByte(i: nat): byte {
    if i == 28 then 52        // program headers at 52
    else if i == 32 then 85   // section headers at 85
    else if i == 42 then 32
    else if i == 44 then 1    // one program header, of type 0
    else if i == 46 then 40
    else if i == 48 then 1    // one section header, the name table's own
    else if i == 101 then 125
    else if i == 105 then 1
    else 0
  }

  function Sample(): (im: seq<byte>)
    ensures |im| == 126 && forall i :: 0 <= i < 126 ==> im[i] == SampleByte(i)
  {
    seq(126, (i: nat) => SampleByte(i))
  }

  lemma SampleTables()
    ensures var im := Sample();
      && PhRange(im) == Range(52, 32) && ShRange(im) == Range(85, 40) && PhNum(im) == 1 && ShNum(im) == 1
      && PhEntSize(im) == 32 && ShEntSize(im) == 40 && ShStrNdx(im) == 0
  {
  }

  lemma FieldInSlice(im: seq<byte>, r: Range, o: nat)
    requires Inside(im, r) && o + 4 <= r.len
    ensures U32At(Slice(im, r), o) == U32At(im, r.off + o)
  {
  }

  lemma SampleFields()
    ensures var im := Sample(); U32At(im, 52) == 0 && U32At(im, 101) == 125 && U32At(im, 105) == 1
  {
  }

  lemma SampleEntries()
    ensures var im := Sample();
      && Inside(im, PhRange(im)) && Inside(im, ShRange(im)) && PhNum(im) == 1 && PhEntSize(im) == PHDR_SIZE
      && ShEntSize(im) == SHDR_SIZE && ShStrNdx(im) < ShNum(im)
      && Seg(im, 0).kind == 0 && StrRange(im) == Range(125, 1)
  {
    hide PhRange, ShRange, PhNum, ShNum, PhEntSize, ShEntSize, ShStrNdx, U32At, Slice, SampleByte;
    SampleTables();
    SampleFields();
    var im := Sample();
    FieldInSlice(im, Range(52, 32), 0);
    FieldInSlice(im, Range(85, 40), 16);
    FieldInSlice(im, Range(85, 40), 20);
  }

  lemma SampleClass()
    ensures SampleByte(4) == 0
  {
  }

  /** Section headers are missed when the store cannot seek and the last program header is not
      loadable: this image loads, and only its program headers are collected. */
  lemma NoSeekMisses()
    ensures var im := Sample();
      && WellFormed(im) && Waits(im, 0, 0, 84)
      && !TablesFollow(im, false, 84) && ShNum(im) > 0 && !CollectedLater(im, false, 84)
      && HeaderEnd(im, false, 0, 0, 84) == 2
  {
    hide PhRange, ShRange, StrRange, PhNum, ShNum, PhEntSize, ShEntSize, ShStrNdx, Seg, SampleByte, HeaderEnd;
    SampleTables();
    SampleEntries();
    assert Sample()[4] == SampleByte(4) == 0 by { SampleClass(); }
    HeadersCollected(Sample(), false, 84);
  }
}
