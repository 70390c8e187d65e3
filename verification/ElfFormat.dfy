/** Writing the tables of a 32-bit little-endian ELF file field by field, in the order of the ELF gABI;
    what the loader reads back are the fields that were written. */
module ElfFormat {
  import opened Bits
  import opened ElfImage
  import opened ElfMemory

  function LE16(x: nat): (s: seq<byte>)
    requires x < 0x1_0000
    ensures |s| == 2
  {
    [x % 0x100, x / 0x100]
  }

  function LE32(x: nat): (s: seq<byte>)
    requires x < 0x1_0000_0000
    ensures |s| == 4
  {
    LE16(x % 0x1_0000) + LE16(x / 0x1_0000)
  }

  predicate Halfwords(ws: seq<nat>) { forall i :: 0 <= i < |ws| ==> ws[i] < 0x1_0000 }

  predicate Fullwords(ws: seq<nat>) { forall i :: 0 <= i < |ws| ==> ws[i] < 0x1_0000_0000 }

  function Halves(ws: seq<nat>): (s: seq<byte>)
    requires Halfwords(ws)
    ensures |s| == 2 * |ws|
  {
    if ws == [] then [] else LE16(ws[0]) + Halves(ws[1..])
  }

  function Words(ws: seq<nat>): (s: seq<byte>)
    requires Fullwords(ws)
    ensures |s| == 4 * |ws|
  {
    if ws == [] then [] else LE32(ws[0]) + Words(ws[1..])
  }

  lemma {:induction false} HalfAt(ws: seq<nat>, j: nat)
    requires Halfwords(ws) && j < |ws|
    ensures Halves(ws)[2 * j..2 * j + 2] == LE16(ws[j])
  {
    hide LE16;
    if j > 0 {
      HalfAt(ws[1..], j - 1);
      assert Halves(ws)[2 * j..2 * j + 2] == Halves(ws[1..])[2 * j - 2..2 * j];
    }
  }

  lemma {:induction false} WordAt(ws: seq<nat>, j: nat)
    requires Fullwords(ws) && j < |ws|
    ensures Words(ws)[4 * j..4 * j + 4] == LE32(ws[j])
  {
    hide LE32;
    if j > 0 {
      WordAt(ws[1..], j - 1);
      assert Words(ws)[4 * j..4 * j + 4] == Words(ws[1..])[4 * j - 4..4 * j];
    }
  }

  /** A field read where it was written. */
  lemma Reads16(s: seq<byte>, o: nat, x: nat)
    requires o + 2 <= |s| && x < 0x1_0000 && s[o..o + 2] == LE16(x)
    ensures U16At(s, o) == x
  {
    assert s[o..o + 2][0] == s[o] && s[o..o + 2][1] == s[o + 1];
  }

  lemma Reads32(s: seq<byte>, o: nat, x: nat)
    requires o + 4 <= |s| && x < 0x1_0000_0000 && s[o..o + 4] == LE32(x)
    ensures U32At(s, o) == x
  {
    assert s[o..o + 2] == s[o..o + 4][..2] == LE16(x % 0x1_0000);
    assert s[o + 2..o + 4] == s[o..o + 4][2..] == LE16(x / 0x1_0000);
    Reads16(s, o, x % 0x1_0000);
    Reads16(s, o + 2, x / 0x1_0000);
  }

  lemma SubSlice(s: seq<byte>, o: nat, n: nat, a: nat, b: nat)
    requires o + n <= |s| && a <= b <= n
    ensures s[o + a..o + b] == s[o..o + n][a..b]
  {
    var x, y := s[o + a..o + b], s[o..o + n][a..b];
    forall i | 0 <= i < b - a ensures x[i] == y[i] {
      assert y[i] == s[o..o + n][a + i] && s[o..o + n][a + i] == s[o + (a + i)] && x[i] == s[o + a + i];
    }
  }

  /** Halfwords and words written at offset o. */
  lemma ReadsHalf(s: seq<byte>, o: nat, ws: seq<nat>, j: nat)
    requires Halfwords(ws) && j < |ws| && o + 2 * |ws| <= |s| && s[o..o + 2 * |ws|] == Halves(ws)
    ensures U16At(s, o + 2 * j) == ws[j]
  {
    hide LE16, U16At, Halves;
    HalfAt(ws, j);
    SubSlice(s, o, 2 * |ws|, 2 * j, 2 * j + 2);
    Reads16(s, o + 2 * j, ws[j]);
  }

  lemma ReadsWord(s: seq<byte>, o: nat, ws: seq<nat>, j: nat)
    requires Fullwords(ws) && j < |ws| && o + 4 * |ws| <= |s| && s[o..o + 4 * |ws|] == Words(ws)
    ensures U32At(s, o + 4 * j) == ws[j]
  {
    hide LE32, U32At, Words;
    WordAt(ws, j);
    SubSlice(s, o, 4 * |ws|, 4 * j, 4 * j + 4);
    Reads32(s, o + 4 * j, ws[j]);
  }

  // The file header.

  datatype FileHeader = FileHeader(
    ident: seq<byte>, kind: nat, machine: nat, version: nat, entry: nat, phoff: nat, shoff: nat, flags: nat,
    ehsize: nat, phentsize: nat, phnum: nat, shentsize: nat, shnum: nat, shstrndx: nat)

  predicate HeaderFits(e: FileHeader) {
    && |e.ident| == 16 && Halfwords([e.kind, e.machine])
    && Fullwords([e.version, e.entry, e.phoff, e.shoff, e.flags])
    && Halfwords([e.ehsize, e.phentsize, e.phnum, e.shentsize, e.shnum, e.shstrndx])
  }

  function EncodeHeader(e: FileHeader): (s: seq<byte>)
    requires HeaderFits(e)
    ensures |s| == 52
  {
    e.ident
    + Halves([e.kind, e.machine])
    + Words([e.version, e.entry, e.phoff, e.shoff, e.flags])
    + Halves([e.ehsize, e.phentsize, e.phnum, e.shentsize, e.shnum, e.shstrndx])
  }

  lemma HeaderParts(e: FileHeader)
    requires HeaderFits(e)
    ensures var s := EncodeHeader(e);
      && s[..16] == e.ident
      && s[20..40] == Words([e.version, e.entry, e.phoff, e.shoff, e.flags])
      && s[40..52] == Halves([e.ehsize, e.phentsize, e.phnum, e.shentsize, e.shnum, e.shstrndx])
  {
    hide Words, Halves;
  }

  /** The file header reads back as written. */
  lemma HeaderRoundTrip(e: FileHeader)
    requires HeaderFits(e)
    ensures var s := EncodeHeader(e);
      && PhOff(s) == e.phoff && ShOff(s) == e.shoff
      && PhEntSize(s) == e.phentsize && PhNum(s) == e.phnum
      && ShEntSize(s) == e.shentsize && ShNum(s) == e.shnum && ShStrNdx(s) == e.shstrndx
      && s[4] == e.ident[4]
  {
    hide Words, Halves, U16At, U32At;
    var s := EncodeHeader(e);
    HeaderParts(e);
    var ws := [e.version, e.entry, e.phoff, e.shoff, e.flags];
    var hs := [e.ehsize, e.phentsize, e.phnum, e.shentsize, e.shnum, e.shstrndx];
    ReadsWord(s, 20, ws, 2);
    ReadsWord(s, 20, ws, 3);
    ReadsHalf(s, 40, hs, 1);
    ReadsHalf(s, 40, hs, 2);
    ReadsHalf(s, 40, hs, 3);
    ReadsHalf(s, 40, hs, 4);
    ReadsHalf(s, 40, hs, 5);
    assert s[4] == s[..16][4];
  }

  // Table entries.

  datatype ProgramHeader = ProgramHeader(
    kind: nat, offset: nat, vaddr: nat, paddr: nat, filesz: nat, memsz: nat, flags: nat, align: nat)

  function ProgramFields(p: ProgramHeader): (ws: seq<nat>)
    ensures |ws| == 8
  {
    [p.kind, p.offset, p.vaddr, p.paddr, p.filesz, p.memsz, p.flags, p.align]
  }

  /** Entry i of a table of program headers reads back as written. */
  lemma ProgramRoundTrip(table: seq<byte>, i: nat, p: ProgramHeader)
    requires Fullwords(ProgramFields(p)) && 32 * i + 32 <= |table|
    requires table[32 * i..32 * i + 32] == Words(ProgramFields(p))
    ensures SegmentAt(table, i) == Segment(p.kind, p.offset, p.paddr, p.filesz, p.memsz)
  {
    hide Words, U32At;
    var o, ws := 32 * i, ProgramFields(p);
    ReadsWord(table, o, ws, 0);
    ReadsWord(table, o, ws, 1);
    ReadsWord(table, o, ws, 3);
    ReadsWord(table, o, ws, 4);
    ReadsWord(table, o, ws, 5);
  }

  datatype SectionHeader = SectionHeader(
    name: nat, kind: nat, flags: nat, addr: nat, offset: nat, size: nat, link: nat, info: nat, align: nat, entsize: nat)

  function SectionFields(h: SectionHeader): (ws: seq<nat>)
    ensures |ws| == 10
  {
    [h.name, h.kind, h.flags, h.addr, h.offset, h.size, h.link, h.info, h.align, h.entsize]
  }

  /** Entry i of a table of section headers says where its section lies. */
  lemma SectionRoundTrip(table: seq<byte>, i: nat, h: SectionHeader)
    requires Fullwords(SectionFields(h)) && 40 * i + 40 <= |table|
    requires table[40 * i..40 * i + 40] == Words(SectionFields(h))
    ensures SectionAt(table, i) == Range(h.offset, h.size)
  {
    hide Words, U32At;
    ReadsWord(table, 40 * i, SectionFields(h), 4);
    ReadsWord(table, 40 * i, SectionFields(h), 5);
  }

  // Images.

  /** Image im starts with file header e. */
  predicate StartsWith(im: seq<byte>, e: FileHeader) {
    HeaderFits(e) && |im| >= 52 && im[..52] == EncodeHeader(e)
  }

  /** The i-th program header of im, where its file header says the table is. */
  predicate HasProgram(im: seq<byte>, e: FileHeader, i: nat, p: ProgramHeader) {
    && Fullwords(ProgramFields(p)) && e.phoff + 32 * i + 32 <= |im|
    && im[e.phoff + 32 * i..e.phoff + 32 * i + 32] == Words(ProgramFields(p))
  }

  lemma ImageHeader(im: seq<byte>, e: FileHeader)
    requires StartsWith(im, e)
    ensures PhRange(im) == Range(e.phoff, e.phnum * e.phentsize) && ShRange(im) == Range(e.shoff, e.shnum * e.shentsize)
    ensures PhNum(im) == e.phnum && ShNum(im) == e.shnum && ShStrNdx(im) == e.shstrndx
    ensures PhEntSize(im) == e.phentsize && ShEntSize(im) == e.shentsize
  {
    hide U16At, U32At, EncodeHeader;
    HeaderRoundTrip(e);
    HeaderSame(im);
  }

  lemma HeaderSame(im: seq<byte>)
    requires |im| >= 52
    ensures var s := im[..52];
      && PhOff(s) == PhOff(im) && ShOff(s) == ShOff(im) && PhEntSize(s) == PhEntSize(im) && PhNum(s) == PhNum(im)
      && ShEntSize(s) == ShEntSize(im) && ShNum(s) == ShNum(im) && ShStrNdx(s) == ShStrNdx(im)
  {
  }

  lemma ImageSegment(im: seq<byte>, e: FileHeader, i: nat, p: ProgramHeader)
    requires Tables(im) && StartsWith(im, e) && i < e.phnum && HasProgram(im, e, i, p)
    ensures i < PhNum(im) && Seg(im, i) == Segment(p.kind, p.offset, p.paddr, p.filesz, p.memsz)
  {
    hide U32At, SegmentAt, Words, HeaderFits, EncodeHeader;
    ImageHeader(im, e);
    var table := Slice(im, PhRange(im));
    assert 32 * i + 32 <= 32 * e.phnum == |table|;
    SubSlice(im, e.phoff, |table|, 32 * i, 32 * i + 32);
    ProgramRoundTrip(table, i, p);
  }

  /** After loading, memory at a segment's physical address holds its file contents followed by zeros,
      for every program header of type 1 in the file. */
  lemma LoadedAsWritten(im: seq<byte>, e: FileHeader, i: nat, p: ProgramHeader, k: nat, d: byte)
    requires WellFormed(im) && DisjointSegments(im) && StartsWith(im, e) && i < e.phnum && HasProgram(im, e, i, p)
    requires p.kind == 1 && k < p.memsz
    ensures p.offset + p.filesz <= |im|
    ensures ValueAt(Writes(im, 0), p.paddr + k, d) == if k < p.filesz then im[p.offset + k] else 0
  {
    hide Writes, ValueAt, Seg, StartsWith, HasProgram, DisjointSegments;
    ImageSegment(im, e, i, p);
    assert LoadsAt(im, i, p.paddr + k);
    Loaded(im, p.paddr + k, d);
  }

  /** And nothing is written for any other: an address outside all program headers of type 1 keeps its
      byte. */
  lemma KeptAsWritten(im: seq<byte>, e: FileHeader, ps: seq<ProgramHeader>, a: nat, d: byte)
    requires WellFormed(im) && StartsWith(im, e) && |ps| == e.phnum
    requires forall i :: 0 <= i < |ps| ==> HasProgram(im, e, i, ps[i])
    requires forall i :: 0 <= i < |ps| && ps[i].kind == 1 ==> !(ps[i].paddr <= a < ps[i].paddr + ps[i].memsz)
    ensures ValueAt(Writes(im, 0), a, d) == d
  {
    hide Writes, ValueAt, Seg, StartsWith, HasProgram;
    ImageNum(im, e);
    forall i: nat ensures !LoadsAt(im, i, a) {
      if i < |ps| { ImageSegment(im, e, i, ps[i]); }
    }
    LastSegmentDecides(im, 0, a, d);
  }

  lemma ImageNum(im: seq<byte>, e: FileHeader)
    requires StartsWith(im, e)
    ensures PhNum(im) == e.phnum
  {
    ImageHeader(im, e);
  }
}
