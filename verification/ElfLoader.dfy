/** The resumable loader of elf_loader.c, for 32-bit images.  Its load state is the three byte fields of
    the C state word: loader phase, header phase, segment cursor. */
module ElfLoader {
  import opened Bits
  import opened Options
  import opened ElfImage

  datatype State = State(loader: nat, hdr: nat, seg: nat)

  const NOT_READY: nat := 0
  const READY_TO_LOAD: nat := 1
  const POST_DATA_LOAD: nat := 2
  const LOAD_COMPLETE: nat := 4

  const WAIT_FOR_PHDRS: nat := 1
  const WAIT_FOR_SHDRS: nat := 2
  const WAIT_FOR_SHSTRTAB: nat := 4
  const HDRS_COMPLETE: nat := 8

  const INIT: State := State(0, 0, 0)

  predicate Has(field: nat, bit: nat)
    requires bit > 0
  {
    (field / bit) % 2 == 1
  }

  /** A new state, or a negative error code. */
  datatype Ret = Ok(state: State) | Fail(code: int)

  const EINVAL: int := -2

  /** The header phase of each stage. */
  function HdrOf(stage: nat): nat {
    if stage == 0 then 0
    else if stage == 1 then WAIT_FOR_PHDRS
    else if stage == 2 then WAIT_FOR_SHDRS
    else if stage == 3 then WAIT_FOR_SHSTRTAB
    else HDRS_COMPLETE
  }

  class ElfInfo {
    var present: bool
    var state: State
    var ehdr: seq<byte>
    var phdrs: Option<seq<byte>>
    var shdrs: Option<seq<byte>>
    var shstrtab: Option<seq<byte>>

    /** The tables collected so far are those of the image, and the header phase says which they are. */
    ghost predicate Parsed(im: seq<byte>, stage: nat)
      reads this
    {
      && Tables(im) && stage <= 4
      && present == (stage > 0)
      && state.hdr == HdrOf(stage)
      && (stage >= 1 ==> ehdr == im[..EHDR_SIZE])
      && phdrs == (if stage >= 2 then Some(Slice(im, PhRange(im))) else None)
      && shdrs == (if stage >= 3 && ShNum(im) > 0 then Some(Slice(im, ShRange(im))) else None)
      && shstrtab == (if stage >= 4 && ShNum(im) > 0 then Some(Slice(im, StrRange(im))) else None)
      && (stage == 3 ==> ShNum(im) > 0)
    }

    lemma Started(im: seq<byte>, stage: nat)
      requires Parsed(im, stage)
      ensures stage > 0 ==> state != INIT
      ensures stage == 0 && state.loader == NOT_READY && state.seg == 0 ==> state == INIT
      ensures Tables(im) && stage <= 4 && (stage == 3 ==> ShNum(im) > 0)
    {
    }

    constructor ()
      ensures !present && state == INIT && phdrs == shdrs == shstrtab == None
    {
      present, state, ehdr, phdrs, shdrs, shstrtab := false, INIT, [], None, None, None;
    }

    /** Collects the program headers if the window has them. */
    method TakePhdrs(win: seq<byte>, offset: nat, ghost im: seq<byte>) returns (got: bool, want: Range)
      requires Parsed(im, 1) && Inside(im, Range(offset, |win|)) && win == im[offset..offset + |win|]
      modifies this`phdrs, this`state
      ensures got == Within(offset, |win|, Wanted(im, 1)) && want == Wanted(im, 1)
      ensures got ==> Parsed(im, 2) && state == State(READY_TO_LOAD, WAIT_FOR_SHDRS, 0)
      ensures !got ==> Parsed(im, 1) && state == old(state)
    {
      hide PhRange, ShRange, StrRange, ShNum, PhNum, Slice;
      HeaderFields(im);
      want := PhRange(ehdr);
      got := !(offset > want.off || offset + |win| < want.off + want.len);
      if got {
        var o := want.off - offset;
        WindowSlice(im, offset, |win|, want);
        phdrs := Some(win[o..o + want.len]);
        state := State(READY_TO_LOAD, WAIT_FOR_SHDRS, 0);
      }
    }

    method TakeShdrs(win: seq<byte>, offset: nat, ghost im: seq<byte>) returns (got: bool, want: Range)
      requires Parsed(im, 2) && ShNum(im) > 0 && Inside(im, Range(offset, |win|)) && win == im[offset..offset + |win|]
      modifies this`shdrs, this`state
      ensures got == Within(offset, |win|, Wanted(im, 2)) && want == Wanted(im, 2)
      ensures got ==> Parsed(im, 3) && state == old(state).(hdr := WAIT_FOR_SHSTRTAB)
      ensures !got ==> Parsed(im, 2) && state == old(state)
    {
      hide PhRange, ShRange, StrRange, ShNum, PhNum, Slice;
      HeaderFields(im);
      want := ShRange(ehdr);
      got := !(offset > want.off || offset + |win| < want.off + want.len);
      if got {
        var o := want.off - offset;
        WindowSlice(im, offset, |win|, want);
        shdrs := Some(win[o..o + want.len]);
        state := state.(hdr := WAIT_FOR_SHSTRTAB);
      }
    }

    method TakeShstrtab(win: seq<byte>, offset: nat, ghost im: seq<byte>) returns (got: bool, want: Range)
      requires Parsed(im, 3) && Inside(im, Range(offset, |win|)) && win == im[offset..offset + |win|]
      modifies this`shstrtab, this`state
      ensures got == Within(offset, |win|, Wanted(im, 3)) && want == Wanted(im, 3)
      ensures got ==> Parsed(im, 4) && state == old(state).(hdr := HDRS_COMPLETE)
      ensures !got ==> Parsed(im, 3) && state == old(state)
    {
      hide PhRange, ShRange, ShNum, PhNum, ShStrNdx, Slice, SectionAt;
      HeaderFields(im);
      SectionInTable(im);
      want := SectionAt(shdrs.value, ShStrNdx(ehdr));
      got := !(offset > want.off || offset + |win| < want.off + want.len);
      if got {
        var o := want.off - offset;
        WindowSlice(im, offset, |win|, want);
        shstrtab := Some(win[o..o + want.len]);
        state := state.(hdr := HDRS_COMPLETE);
      }
    }

    /** elf_load_header: goes as far as the window leads, then asks for what is missing.  The first call
        gets the start of the file, and `last` is what the previous call returned. */
    method LoadHeader(win: seq<byte>, offset: nat, last: State, noffset0: nat, nlen0: nat, ghost im: seq<byte>,
      ghost stage: nat)
      returns (ret: Ret, noffset: nat, nlen: nat, ghost stage': nat)
      requires Parsed(im, stage) && Inside(im, Range(offset, |win|)) && win == im[offset..offset + |win|]
      requires last == INIT ==> stage == 0 && offset == 0
      requires stage == 0 ==> last == INIT && state == INIT
      modifies this
      ensures stage > 0 && last != old(state) ==>
        ret == Fail(EINVAL) && stage' == stage && Parsed(im, stage) && state == old(state) && noffset == noffset0 &&
          nlen == nlen0
      ensures stage == 0 || last == old(state) ==>
        && stage' == Advance(im, stage, offset, |win|) && Parsed(im, stage') && ret == Ok(state)
        && (stage' < 4 ==> Range(noffset, nlen) == Wanted(im, stage'))
        && (stage' == 4 ==> nlen == if stage == 4 then nlen0 else 0)
        && (if stage < 2 <= stage' then state.loader == READY_TO_LOAD && state.seg == 0
            else state.loader == old(state).loader && state.seg == old(state).seg)
    {
      hide PhRange, ShRange, StrRange, ShNum, PhNum, Slice, Wanted, Within, Inside;
      noffset, nlen, stage' := noffset0, nlen0, stage;
      var from := last;
      WantedFirst(im);
      if from == INIT {
        if |win| < EHDR_SIZE { return Ok(INIT), 0, EHDR_SIZE, 0; }
        present := true;
        ehdr := win[..EHDR_SIZE];
        state := State(NOT_READY, WAIT_FOR_PHDRS, 0);
        from := state;
        stage' := 1;
      }
      if from != state { return Fail(EINVAL), noffset, nlen, stage'; }
      if state.hdr == WAIT_FOR_PHDRS {
        var got, want := TakePhdrs(win, offset, im);
        if !got { return Ok(state), want.off, want.len, 1; }
        stage' := 2;
      }
      if Has(state.hdr, WAIT_FOR_SHDRS) {
        HeaderFields(im);
        if ShNum(ehdr) == 0 {
          state := state.(hdr := HDRS_COMPLETE);
          return Ok(state), noffset, 0, 4;
        }
        var got, want := TakeShdrs(win, offset, im);
        if !got { return Ok(state), want.off, want.len, 2; }
        stage' := 3;
      }
      if Has(state.hdr, WAIT_FOR_SHSTRTAB) {
        var got, want := TakeShstrtab(win, offset, im);
        if !got { return Ok(state), want.off, want.len, 3; }
        return Ok(state), noffset, 0, 4;
      }
      ret := Ok(from);
    }

    /** elf_next_load_segment: scans from the cursor; the new cursor is past the segment found. */
    method NextLoadSegment(cursor: nat, ghost im: seq<byte>, ghost stage: nat)
      returns (found: bool, next: nat, s: Segment)
      requires Parsed(im, stage) && stage >= 2 && cursor <= PhNum(im)
      ensures var j := NextLoad(im, cursor);
        && found == (j < PhNum(im))
        && next == (if found then j + 1 else PhNum(im))
        && (found ==> s == Seg(im, j))
    {
      HeaderFields(im);
      next, found, s := cursor, false, Segment(0, 0, 0, 0, 0);
      while s.kind != PT_LOAD
        invariant cursor <= next <= PhNum(im)
        invariant s.kind != PT_LOAD ==> NextLoad(im, next) == NextLoad(im, cursor)
        invariant s.kind == PT_LOAD ==> next > 0 && NextLoad(im, cursor) == next - 1 && s == Seg(im, next - 1)
        decreases PhNum(im) - next
      {
        if next >= PhNum(ehdr) { return; }
        s := SegmentAt(phdrs.value, next);
        next := next + 1;
      }
      found := true;
    }

    /** What a call that is ready to load yields from segment cursor c on. */
    ghost predicate Yields(im: seq<byte>, c: nat, da: nat, noffset: nat, nlen: nat, nmemsize: nat)
      requires Tables(im) && c <= PhNum(im)
      reads this
    {
      var j := NextLoad(im, c);
      if j < PhNum(im) then
        && da == Seg(im, j).paddr && noffset == Seg(im, j).offset && nlen == Seg(im, j).filesz &&
          nmemsize == Seg(im, j).memsz
        && state.seg == j + 1 && state.loader == if j + 1 == PhNum(im) then POST_DATA_LOAD else READY_TO_LOAD
      else da == ANYADDR && state.loader == LOAD_COMPLETE
    }

    /** The ready-to-load branch of elf_load. */
    method Yield(noffset0: nat, nlen0: nat, ghost im: seq<byte>, ghost stage: nat)
      returns (da: nat, noffset: nat, nlen: nat, nmemsize: nat)
      requires Parsed(im, stage) && stage >= 2 && state.seg <= PhNum(im) && state.loader == READY_TO_LOAD
      modifies this`state
      ensures Parsed(im, stage) && Yields(im, old(state).seg, da, noffset, nlen, nmemsize)
      ensures state.loader == LOAD_COMPLETE ==> nlen == nlen0
    {
      hide PhRange, ShRange, StrRange, ShNum, PhNum, Slice, Inside, Seg;
      HeaderFields(im);
      da, noffset, nlen, nmemsize := ANYADDR, noffset0, nlen0, 0;
      var found, nsegment, s := NextLoadSegment(state.seg, im, stage);
      if found { da, noffset, nlen, nmemsize := s.paddr, s.offset, s.filesz, s.memsz; }
      if nsegment == PhNum(ehdr) { state := state.(loader := if found then POST_DATA_LOAD else LOAD_COMPLETE); }
      state := state.(seg := nsegment % 256);
    }

    /** elf_load: reads headers until it is ready, then yields one loadable segment a call; after the last
        program header, collects what headers are still missing.  An address of ANYADDR means that
        nothing goes to target memory. */
    method LoadData(win: seq<byte>, offset: nat, last: State, ghost im: seq<byte>, ghost stage: nat)
      returns (ret: Ret, da: nat, noffset: nat, nlen: nat, nmemsize: nat, ghost stage': nat)
      requires Parsed(im, stage) && Inside(im, Range(offset, |win|)) && win == im[offset..offset + |win|]
      requires last == state && state.loader in {NOT_READY, READY_TO_LOAD, POST_DATA_LOAD, LOAD_COMPLETE}
      requires stage >= 2 <==> state.loader != NOT_READY
      requires stage == 0 ==> state == INIT && offset == 0
      requires state.loader == READY_TO_LOAD ==> state.seg <= PhNum(im)
      modifies this
      ensures Parsed(im, stage') && ret == Ok(state)
      ensures old(state).loader == NOT_READY ==>
        && stage' == Advance(im, stage, offset, |win|)
        && if stage' < 2 then da == ANYADDR && Range(noffset, nlen) == Wanted(im, stage')
          else Yields(im, 0, da, noffset, nlen, nmemsize)
      ensures old(state).loader == READY_TO_LOAD ==>
        && stage' == stage && Yields(im, old(state).seg, da, noffset, nlen, nmemsize)
        && (state.loader == LOAD_COMPLETE ==> nlen == 0)
      ensures old(state).loader == POST_DATA_LOAD ==>
        && da == ANYADDR && stage' == Advance(im, stage, offset, |win|)
        && (stage' < 4 ==> state.loader == POST_DATA_LOAD && Range(noffset, nlen) == Wanted(im, stage'))
        && (stage' == 4 ==> state.loader == LOAD_COMPLETE && nlen == 0)
      ensures old(state).loader == LOAD_COMPLETE ==>
        da == ANYADDR && nlen == 0 && state == old(state) && stage' == stage
    {
      hide PhRange, ShRange, StrRange, ShNum, PhNum, Slice, Wanted, Within, Inside, Seg;
      da, noffset, nlen, nmemsize, stage' := ANYADDR, 0, 0, 0, stage;
      HeaderFields(im);
      if last.loader == NOT_READY {
        var r;
        r, noffset, nlen, stage' := LoadHeader(win, offset, last, noffset, nlen, im, stage);
        if r.Ok? && r.state.loader == NOT_READY { return r, ANYADDR, noffset, nlen, nmemsize, stage'; }
      }
      if Has(state.loader, READY_TO_LOAD) {
        da, noffset, nlen, nmemsize := Yield(noffset, nlen, im, stage');
      } else if Has(state.loader, POST_DATA_LOAD) {
        if !Has(state.hdr, HDRS_COMPLETE) {
          var r;
          r, noffset, nlen, stage' := LoadHeader(win, offset, last, noffset, nlen, im, stage);
          if r.Fail? { return r, da, noffset, nlen, nmemsize, stage'; }
          if Has(r.state.hdr, HDRS_COMPLETE) {
            state := state.(loader := LOAD_COMPLETE);
            nlen := 0;
          }
          da := ANYADDR;
        } else {
          nlen := 0;
          state := state.(loader := LOAD_COMPLETE);
        }
      }
      ret := Ok(state);
    }
  }
}
