/** A 32-bit little-endian ELF image as a whole: its tables, its loadable segments, and what loading it
    must write.  Table layouts are those of the ELF gABI. */
module ElfImage {
  import opened Bits

  const EHDR_SIZE: nat := 52
  const PHDR_SIZE: nat := 32
  const SHDR_SIZE: nat := 40
  const ELFCLASS64: byte := 2
  const PT_LOAD: nat := 1
  const ANYADDR: nat := 0xFFFF_FFFF

  function U16At(s: seq<byte>, o: nat): nat
    requires o + 2 <= |s|
  {
    s[o] as int + 0x100 * (s[o + 1] as int)
  }

  function U32At(s: seq<byte>, o: nat): nat
    requires o + 4 <= |s|
  {
    U16At(s, o) + 0x1_0000 * U16At(s, o + 2)
  }

  // The file header.

  function PhOff(e: seq<byte>): nat requires |e| >= EHDR_SIZE { U32At(e, 28) }

  function ShOff(e: seq<byte>): nat requires |e| >= EHDR_SIZE { U32At(e, 32) }

  function PhEntSize(e: seq<byte>): nat requires |e| >= EHDR_SIZE { U16At(e, 42) }

  function PhNum(e: seq<byte>): nat requires |e| >= EHDR_SIZE { U16At(e, 44) }

  function ShEntSize(e: seq<byte>): nat requires |e| >= EHDR_SIZE { U16At(e, 46) }

  function ShNum(e: seq<byte>): nat requires |e| >= EHDR_SIZE { U16At(e, 48) }

  function ShStrNdx(e: seq<byte>): nat requires |e| >= EHDR_SIZE { U16At(e, 50) }

  // Table entries, at index i of a table of program or section headers.

  datatype Segment = Segment(kind: nat, offset: nat, paddr: nat, filesz: nat, memsz: nat)

  function SegmentAt(table: seq<byte>, i: nat): Segment
    requires PHDR_SIZE * i + PHDR_SIZE <= |table|
  {
    var o := PHDR_SIZE * i;
    Segment(U32At(table, o), U32At(table, o + 4), U32At(table, o + 12), U32At(table, o + 16), U32At(table, o + 20))
  }

  datatype Range = Range(off: nat, len: nat)

  /** Where section i lies in the file. */
  function SectionAt(table: seq<byte>, i: nat): Range
    requires SHDR_SIZE * i + SHDR_SIZE <= |table|
  {
    Range(U32At(table, SHDR_SIZE * i + 16), U32At(table, SHDR_SIZE * i + 20))
  }

  // Whole-image parsing.

  function PhRange(im: seq<byte>): Range requires |im| >= EHDR_SIZE { Range(PhOff(im), PhNum(im) * PhEntSize(im)) }

  function ShRange(im: seq<byte>): Range requires |im| >= EHDR_SIZE { Range(ShOff(im), ShNum(im) * ShEntSize(im)) }

  predicate Inside(im: seq<byte>, r: Range) { r.off + r.len <= |im| }

  function Slice(im: seq<byte>, r: Range): (s: seq<byte>)
    requires Inside(im, r)
    ensures |s| == r.len
  {
    im[r.off..r.off + r.len]
  }

  /** Header entries have the size of their structures, the segment cursor fits eight bits, and all
      tables lie inside the file. */
  ghost predicate Tables(im: seq<byte>) {
    && EHDR_SIZE <= |im| < U32 && im[4] != ELFCLASS64
    && PhEntSize(im) == PHDR_SIZE && PhNum(im) <= 255 && Inside(im, PhRange(im))
    && (ShNum(im) > 0 ==>
          && ShEntSize(im) == SHDR_SIZE && Inside(im, ShRange(im))
          && ShStrNdx(im) < ShNum(im) && Inside(im, StrRange(im)))
  }

  function StrRange(im: seq<byte>): Range
    requires |im| >= EHDR_SIZE && ShEntSize(im) == SHDR_SIZE && Inside(im, ShRange(im)) && ShStrNdx(im) < ShNum(im)
  {
    SectionAt(Slice(im, ShRange(im)), ShStrNdx(im))
  }

  function Seg(im: seq<byte>, i: nat): Segment
    requires |im| >= EHDR_SIZE && PhEntSize(im) == PHDR_SIZE && Inside(im, PhRange(im)) && i < PhNum(im)
  {
    SegmentAt(Slice(im, PhRange(im)), i)
  }

  /** Loadable segments come from inside the file, have room for their contents, and do not use the
      address that stands for none. */
  ghost predicate WellFormed(im: seq<byte>) {
    && Tables(im)
    && forall i: nat :: i < PhNum(im) && Seg(im, i).kind == PT_LOAD ==>
        && Seg(im, i).offset + Seg(im, i).filesz <= |im|
        && Seg(im, i).filesz <= Seg(im, i).memsz
        && Seg(im, i).paddr != ANYADDR
  }

  // What loading writes to target memory.

  datatype Write = Copy(addr: nat, data: seq<byte>) | Fill(addr: nat, value: byte, count: nat)

  function SegmentWrites(im: seq<byte>, s: Segment): seq<Write>
    requires s.offset + s.filesz <= |im| && s.filesz <= s.memsz
  {
    (if s.filesz > 0 then [Copy(s.paddr, im[s.offset..s.offset + s.filesz])] else [])
    + (if s.memsz > s.filesz then [Fill(s.paddr + s.filesz, 0, s.memsz - s.filesz)] else [])
  }

  /** The writes for all loadable segments from header i on, in header order. */
  ghost function Writes(im: seq<byte>, i: nat): seq<Write>
    requires WellFormed(im) && i <= PhNum(im)
    decreases PhNum(im) - i
  {
    if i == PhNum(im) then []
    else (if Seg(im, i).kind == PT_LOAD then SegmentWrites(im, Seg(im, i)) else []) + Writes(im, i + 1)
  }

  /** The first loadable segment at or after i, or the number of segments. */
  ghost function NextLoad(im: seq<byte>, i: nat): (j: nat)
    requires Tables(im) && i <= PhNum(im)
    ensures i <= j <= PhNum(im)
    ensures j < PhNum(im) ==> Seg(im, j).kind == PT_LOAD
    ensures forall k :: i <= k < j ==> Seg(im, k).kind != PT_LOAD
    decreases PhNum(im) - i
  {
    if i == PhNum(im) || Seg(im, i).kind == PT_LOAD then i else NextLoad(im, i + 1)
  }

  lemma {:induction false} WritesSkip(im: seq<byte>, i: nat)
    requires WellFormed(im) && i <= PhNum(im)
    ensures Writes(im, i) == Writes(im, NextLoad(im, i))
    decreases PhNum(im) - i
  {
    hide Seg, Inside;
    if i < PhNum(im) && Seg(im, i).kind != PT_LOAD { WritesSkip(im, i + 1); }
  }

  // Header stages: nothing, file header, program headers, section headers, all.

  /** The part of the file that stage s waits for. */
  ghost function Wanted(im: seq<byte>, s: nat): Range
    requires Tables(im)
  {
    if s == 0 then Range(0, EHDR_SIZE)
    else if s == 1 then PhRange(im)
    else if s == 2 then ShRange(im)
    else if s == 3 && ShNum(im) > 0 then StrRange(im)
    else Range(0, 0)
  }

  predicate Within(off: nat, len: nat, r: Range) { off <= r.off && r.off + r.len <= off + len }

  /** How far a window of the file leads from stage s. */
  ghost function Advance(im: seq<byte>, s: nat, off: nat, len: nat): (r: nat)
    requires Tables(im) && s <= 4
    ensures s <= r <= 4
    decreases 4 - s
  {
    if s == 4 then 4
    else if s == 0 && len >= EHDR_SIZE then Advance(im, 1, off, len)
    else if s == 0 then 0
    else if s == 2 && ShNum(im) == 0 then 4
    else if Within(off, len, Wanted(im, s)) then Advance(im, s + 1, off, len)
    else s
  }

  lemma WantedFirst(im: seq<byte>)
    requires Tables(im)
    ensures Wanted(im, 0) == Range(0, EHDR_SIZE)
  {
  }

  /** A window that is what stage s waits for leads on. */
  lemma WantedAdvances(im: seq<byte>, s: nat)
    requires Tables(im) && s < 4
    ensures Advance(im, s, Wanted(im, s).off, Wanted(im, s).len) > s
  {
  }

  lemma WantedInside(im: seq<byte>, s: nat)
    requires Tables(im) && s <= 4 && (s == 2 || s == 3 ==> ShNum(im) > 0)
    ensures Inside(im, Wanted(im, s))
  {
  }

  lemma HeaderFields(im: seq<byte>)
    requires |im| >= EHDR_SIZE
    ensures PhRange(im[..EHDR_SIZE]) == PhRange(im) && ShRange(im[..EHDR_SIZE]) == ShRange(im)
    ensures PhNum(im[..EHDR_SIZE]) == PhNum(im) && ShNum(im[..EHDR_SIZE]) == ShNum(im) &&
      ShStrNdx(im[..EHDR_SIZE]) == ShStrNdx(im)
  {
  }

  lemma WindowSlice(im: seq<byte>, off: nat, len: nat, r: Range)
    requires off + len <= |im| && Within(off, len, r)
    ensures Inside(im, r) && im[off..off + len][r.off - off..r.off - off + r.len] == Slice(im, r)
  {
    var win := im[off..off + len];
    var s, t := win[r.off - off..r.off - off + r.len], Slice(im, r);
    forall i | 0 <= i < r.len ensures s[i] == t[i] {
      var k := r.off - off + i;
      assert s[i] == win[k] && win[k] == im[off + k] && t[i] == im[r.off + i];
    }
  }

  /** The name table's header lies inside the table of section headers. */
  lemma SectionInTable(im: seq<byte>)
    requires Tables(im) && ShNum(im) > 0
    ensures SHDR_SIZE * ShStrNdx(im) + SHDR_SIZE <= ShRange(im).len
  {
  }
}
