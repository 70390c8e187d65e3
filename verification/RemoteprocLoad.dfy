/** The two loops of remoteproc_load that drive the ELF loader: one for headers, one for data.  The
    store answers a request for a window of the image when `answers` says so; a target address can be
    mapped when `maps` says so.  Writes to target memory are recorded in order. */
module RemoteprocLoad {
  import opened Bits
  import opened Options
  import opened ElfImage
  import opened ElfLoader

  /** A stage that waits for window (off, len) of the file; the first window is what the store opened. */
  ghost predicate Waits(im: seq<byte>, s: nat, off: nat, len: nat) {
    && Tables(im) && s < 4 && off + len <= |im|
    && (s > 0 ==> Range(off, len) == Wanted(im, s))
    && (s == 0 ==> off == 0)
    && (s >= 2 ==> ShNum(im) > 0)
  }

  /** Ready to load, and nothing more is needed, or it would take a seek that the store cannot do. */
  ghost predicate Stops(im: seq<byte>, seek: bool, s: nat, off: nat, len: nat)
    requires Tables(im)
  {
    s >= 2 && (s == 4 || Wanted(im, s).len == 0 || (Wanted(im, s).off > off + len && !seek))
  }

  /** Either way the next window gets the loader further. */
  lemma Onward(im: seq<byte>, s: nat, off: nat, len: nat)
    requires Waits(im, s, off, len)
    ensures var s' := Advance(im, s, off, len);
      && (s > 0 || len >= EHDR_SIZE ==> s' > s)
      && (s' < 4 ==> Waits(im, s', Wanted(im, s').off, Wanted(im, s').len))
      && (s' == 0 ==> Wanted(im, s').len == EHDR_SIZE)
  {
    if s > 0 { WantedAdvances(im, s); }
    AdvanceStops(im, s, off, len);
    WantedInside(im, Advance(im, s, off, len));
  }

  /** Stages 2 and 3 are left at once when there are no sections. */
  lemma AdvanceStops(im: seq<byte>, s: nat, off: nat, len: nat)
    requires Tables(im) && s <= 4 && (s == 3 ==> ShNum(im) > 0)
    ensures var r := Advance(im, s, off, len); r == 2 || r == 3 ==> ShNum(im) > 0
  {
  }

  /** The stage the header loop ends in. */
  ghost function HeaderEnd(im: seq<byte>, seek: bool, s: nat, off: nat, len: nat): (r: nat)
    requires Waits(im, s, off, len)
    ensures 2 <= r <= 4
    decreases 4 - s, len < EHDR_SIZE
  {
    var s' := Advance(im, s, off, len);
    Onward(im, s, off, len);
    if Stops(im, seek, s', off, len) then s' else HeaderEnd(im, seek, s', Wanted(im, s').off, Wanted(im, s').len)
  }

  // What the layout of the file decides.

  predicate WithinRange(w: Range, r: Range) { Within(w.off, w.len, r) }

  /** The part of the file in hand once the program headers are known: what the store opened, or the
      program headers alone. */
  function HeaderWindow(im: seq<byte>, len0: nat): Range
    requires |im| >= EHDR_SIZE
  {
    var first := Range(0, if len0 < EHDR_SIZE then EHDR_SIZE else len0);
    if WithinRange(first, PhRange(im)) then first else PhRange(im)
  }

  /** A part of the file can be had from window w: it is in w, or it is asked for and the store can get
      there without going further than seek support allows. */
  predicate Follows(w: Range, r: Range, seek: bool) {
    WithinRange(w, r) || (r.len > 0 && (seek || r.off <= w.off + w.len))
  }

  /** Each table follows on the one before it. */
  ghost predicate TablesFollow(im: seq<byte>, seek: bool, len0: nat)
    requires Tables(im)
  {
    ShNum(im) > 0 ==>
      var w := HeaderWindow(im, len0);
      && Follows(w, ShRange(im), seek)
      && Follows(if WithinRange(w, ShRange(im)) then w else ShRange(im), StrRange(im), seek)
  }

  /** From the program headers on. */
  lemma EndFromHeaders(im: seq<byte>, seek: bool, s: nat, off: nat, len: nat)
    requires Waits(im, s, off, len) && s <= 1 && Within(off, len, PhRange(im)) && (s == 0 ==> len >= EHDR_SIZE)
    ensures HeaderEnd(im, seek, s, off, len) == 4 <==>
      (ShNum(im) > 0 ==>
        var w := Range(off, len);
        && Follows(w, ShRange(im), seek)
        && Follows(if WithinRange(w, ShRange(im)) then w else ShRange(im), StrRange(im), seek))
    ensures HeaderEnd(im, seek, s, off, len) == 2 <==> ShNum(im) > 0 && !Follows(Range(off, len), ShRange(im), seek)
  {
    var s1 := Advance(im, s, off, len);
    Onward(im, s, off, len);
    assert s == 0 ==> s1 == Advance(im, 1, off, len);
    assert s1 == Advance(im, 2, off, len);
    if s1 == 2 {
      var r := ShRange(im);
      assert r.len > 0;
      if !Stops(im, seek, 2, off, len) {
        assert HeaderEnd(im, seek, s, off, len) == HeaderEnd(im, seek, 2, r.off, r.len);
        EndFromSections(im, seek, 2, r.off, r.len);
      }
    } else if s1 == 3 {
      EndAtNames(im, seek, s, off, len);
    }
  }

  /** From the section headers on, with the section headers in hand. */
  lemma EndFromSections(im: seq<byte>, seek: bool, s: nat, off: nat, len: nat)
    requires Waits(im, s, off, len) && s == 2
    ensures HeaderEnd(im, seek, s, off, len) == 4 <==> Follows(Range(off, len), StrRange(im), seek)
    ensures HeaderEnd(im, seek, s, off, len) >= 3
  {
    Onward(im, s, off, len);
    if Advance(im, s, off, len) == 3 { EndAtNames(im, seek, s, off, len); }
  }

  /** Only the name table is missing. */
  lemma EndAtNames(im: seq<byte>, seek: bool, s: nat, off: nat, len: nat)
    requires Waits(im, s, off, len) && Advance(im, s, off, len) == 3 && ShNum(im) > 0
    ensures !Within(off, len, StrRange(im))
    ensures HeaderEnd(im, seek, s, off, len) == 4 <==> Follows(Range(off, len), StrRange(im), seek)
    ensures HeaderEnd(im, seek, s, off, len) >= 3
  {
    AtNames(im, s, off, len);
    Onward(im, s, off, len);
    var r := StrRange(im);
    if !Stops(im, seek, 3, off, len) {
      assert Advance(im, 3, r.off, r.len) == 4;
      assert HeaderEnd(im, seek, s, off, len) == HeaderEnd(im, seek, 3, r.off, r.len) == 4;
    }
  }

  lemma AtNames(im: seq<byte>, s: nat, off: nat, len: nat)
    requires Tables(im) && s <= 3 && Advance(im, s, off, len) == 3 && ShNum(im) > 0
    ensures !Within(off, len, StrRange(im))
    decreases 3 - s
  {
    if s < 3 { AtNames(im, s + 1, off, len); }
  }

  /** The header loop collects everything exactly when each table follows on the one before it; with
      seek support only an empty name table elsewhere in the file is missed. */
  lemma HeadersCollected(im: seq<byte>, seek: bool, len0: nat)
    requires Waits(im, 0, 0, len0)
    ensures HeaderEnd(im, seek, 0, 0, len0) == 4 <==> TablesFollow(im, seek, len0)
    ensures HeaderEnd(im, seek, 0, 0, len0) == 2 <==>
      ShNum(im) > 0 && !Follows(HeaderWindow(im, len0), ShRange(im), seek)
  {
    if len0 < EHDR_SIZE {
      Onward(im, 0, 0, len0);
      assert Advance(im, 0, 0, len0) == 0;
      assert HeaderEnd(im, seek, 0, 0, len0) == HeaderEnd(im, seek, 0, 0, EHDR_SIZE);
      CollectedFrom(im, seek, EHDR_SIZE);
    } else {
      CollectedFrom(im, seek, len0);
    }
  }

  lemma CollectedFrom(im: seq<byte>, seek: bool, len: nat)
    requires Waits(im, 0, 0, len) && len >= EHDR_SIZE
    ensures HeaderEnd(im, seek, 0, 0, len) == 4 <==> TablesFollow(im, seek, len)
    ensures HeaderEnd(im, seek, 0, 0, len) == 2 <==> ShNum(im) > 0 && !Follows(HeaderWindow(im, len), ShRange(im), seek)
  {
    var r := PhRange(im);
    if Within(0, len, r) {
      EndFromHeaders(im, seek, 0, 0, len);
    } else {
      Onward(im, 0, 0, len);
      assert Advance(im, 0, 0, len) == Advance(im, 1, 0, len) == 1;
      assert HeaderEnd(im, seek, 0, 0, len) == HeaderEnd(im, seek, 1, r.off, r.len);
      EndFromHeaders(im, seek, 1, r.off, r.len);
    }
  }

  /** With seek support the header loop collects everything, but for an empty name table that lies
      apart from what was read last. */
  lemma SeekCompletes(im: seq<byte>, len0: nat)
    requires Waits(im, 0, 0, len0) && (ShNum(im) > 0 ==> StrRange(im).len > 0)
    ensures HeaderEnd(im, true, 0, 0, len0) == 4
  {
    HeadersCollected(im, true, len0);
  }

  /** The header loop.  At most four windows are asked for. */
  method LoadHeaders(im: seq<byte>, len0: nat, seek: bool, answers: (nat, nat) -> bool, info: ElfInfo)
    returns (ok: bool, last: State, requests: nat, ghost stage: nat)
    requires len0 <= |im| && info.Parsed(im, 0) && info.state == INIT
    modifies info
    ensures requests <= 4
    ensures Waits(im, 0, 0, len0)
    ensures ok ==> stage == HeaderEnd(im, seek, 0, 0, len0) && info.Parsed(im, stage)
    ensures ok ==> 2 <= stage <= 4 && (stage == 4 <==> TablesFollow(im, seek, len0))
    ensures ok ==> (stage == 2 <==> ShNum(im) > 0 && !Follows(HeaderWindow(im, len0), ShRange(im), seek))
    ensures ok ==> last == info.state && info.state.loader == READY_TO_LOAD && info.state.seg == 0
    ensures (forall o, n :: answers(o, n)) ==> ok
  {
    hide Wanted, Advance, Tables, Inside, ElfInfo.Parsed, TablesFollow, Follows, ShRange, HeaderWindow;
    info.Started(im, 0);
    var offset, win, noffset, nlen := 0, im[..len0], 0, 0;
    last, requests, stage := INIT, 0, 0;
    ghost var end := HeaderEnd(im, seek, 0, 0, len0);
    while true
      invariant info.Parsed(im, stage) && Waits(im, stage, offset, |win|) && win == im[offset..offset + |win|]
      invariant last == info.state && (stage == 0 ==> last == INIT) && (stage > 0 ==> last != INIT)
      invariant last.loader == (if stage < 2 then NOT_READY else READY_TO_LOAD) && last.seg == 0
      invariant HeaderEnd(im, seek, stage, offset, |win|) == end
      invariant requests <= stage + 1 && (requests > 0 && stage == 0 ==> |win| == EHDR_SIZE)
      decreases 4 - stage, |win| < EHDR_SIZE
    {
      ghost var before := stage;
      var ret;
      Onward(im, stage, offset, |win|);
      InsideIs(im, offset, |win|);
      ret, noffset, nlen, stage := info.LoadHeader(win, offset, last, noffset, nlen, im, stage);
      if ret.Fail? { return false, last, requests, stage; }
      last := ret.state;
      info.Started(im, stage);
      if Has(last.loader, READY_TO_LOAD) {
        if nlen == 0 { break; }
        if noffset > offset + |win| && !seek { break; }
      }
      if !answers(noffset, nlen) { return false, last, requests, stage; }
      requests := requests + 1;
      win := im[noffset..noffset + nlen];
      offset := noffset;
    }
    HeadersCollected(im, seek, len0);
    ok := true;
  }

  lemma InsideIs(im: seq<byte>, off: nat, len: nat)
    requires off + len <= |im|
    ensures Inside(im, Range(off, len))
  {
  }

  // Data.

  ghost predicate LastIsLoad(im: seq<byte>)
    requires Tables(im)
  {
    PhNum(im) > 0 && Seg(im, PhNum(im) - 1).kind == PT_LOAD
  }

  /** Loads one segment: its file contents, then zeros up to its memory size. */
  method LoadSegment(im: seq<byte>, s: Segment, answers: (nat, nat) -> bool, maps: (nat, nat) -> bool)
    returns (ok: bool, writes: seq<Write>)
    requires s.offset + s.filesz <= |im| && s.filesz <= s.memsz
    ensures ok ==> writes == SegmentWrites(im, s)
    ensures (forall o, n :: answers(o, n)) && (forall a, n :: maps(a, n)) ==> ok
  {
    ok, writes := false, [];
    if !maps(s.paddr, s.memsz) { return; }
    if s.filesz > 0 {
      if !answers(s.offset, s.filesz) { return; }
      writes := writes + [Copy(s.paddr, im[s.offset..s.offset + s.filesz])];
    }
    if s.memsz > s.filesz {
      writes := writes + [Fill(s.paddr + s.filesz, 0, s.memsz - s.filesz)];
    }
    ok := true;
  }

  lemma SegmentFits(im: seq<byte>, i: nat)
    requires WellFormed(im) && i < PhNum(im) && Seg(im, i).kind == PT_LOAD
    ensures Seg(im, i).offset + Seg(im, i).filesz <= |im| && Seg(im, i).filesz <= Seg(im, i).memsz &&
      Seg(im, i).paddr != ANYADDR
  {
  }

  /** What is still to be written shrinks by one segment. */
  lemma WritesNext(im: seq<byte>, i: nat)
    requires WellFormed(im) && i <= PhNum(im)
    ensures var j := NextLoad(im, i);
      if j == PhNum(im) then Writes(im, i) == []
      else
        && Seg(im, j).offset + Seg(im, j).filesz <= |im| && Seg(im, j).filesz <= Seg(im, j).memsz
        && Writes(im, i) == SegmentWrites(im, Seg(im, j)) + Writes(im, j + 1)
  {
    WritesSkip(im, i);
  }

  /** After the data, the missing tables are asked for one by one, until one would be empty. */
  ghost predicate PostCollects(im: seq<byte>, stage: nat)
    requires Tables(im)
  {
    ShNum(im) == 0 || stage == 4 || Follows(if stage == 2 then ShRange(im) else Range(0, 0), StrRange(im), true)
  }

  /** The window in hand while tables are collected after the data. */
  ghost predicate PostWindow(im: seq<byte>, stage: nat, s: nat, off: nat, len: nat)
    requires Tables(im)
  {
    || (s == stage && off == 0 && len == 0)
    || (s == 2 && stage == 2 && ShNum(im) > 0 && Range(off, len) == ShRange(im))
    || (s == 3 && ShNum(im) > 0 && StrRange(im).len > 0 && Range(off, len) == StrRange(im))
  }

  lemma PostStep(im: seq<byte>, stage: nat, s: nat, off: nat, len: nat)
    requires Tables(im) && 2 <= stage <= 4 && (stage == 3 ==> ShNum(im) > 0) && PostWindow(im, stage, s, off, len)
    ensures 2 <= s <= 4
    ensures var s' := Advance(im, s, off, len);
      && (s' == 4 ==> PostCollects(im, stage))
      && (s' < 4 && Wanted(im, s').len == 0 ==> !PostCollects(im, stage))
      && (s' < 4 && Wanted(im, s').len > 0 ==>
        && PostWindow(im, stage, s', Wanted(im, s').off, Wanted(im, s').len)
        && Waits(im, s', Wanted(im, s').off, Wanted(im, s').len))
      && (len > 0 ==> s' > s)
  {
    var s' := Advance(im, s, off, len);
    if s' == 2 || s' == 3 { WantedInside(im, s'); }
  }

  /** The data loop: every loadable segment once, in header order; then the headers still missing, if
      the last program header is loadable. */
  method LoadSegments(im: seq<byte>, answers: (nat, nat) -> bool, maps: (nat, nat) -> bool, info: ElfInfo,
    ghost stage: nat)
    returns (ok: bool, writes: seq<Write>, ghost stage': nat)
    requires WellFormed(im) && info.Parsed(im, stage) && stage >= 2
    requires info.state.loader == READY_TO_LOAD && info.state.seg == 0
    modifies info
    ensures ok ==> writes == Writes(im, 0) && info.Parsed(im, stage') && stage <= stage'
    ensures ok && (stage == 4 || !LastIsLoad(im)) ==> stage' == stage
    ensures (forall o, n :: answers(o, n)) && (forall a, n :: maps(a, n)) ==> ok
    ensures ok && (forall o, n :: answers(o, n)) && LastIsLoad(im) ==> (stage' == 4 <==> PostCollects(im, stage))
  {
    hide Wanted, Advance, Tables, Inside, ElfInfo.Parsed, Writes, SegmentWrites, NextLoad, PhNum, Seg, WellFormed,
      PostCollects, StrRange, ShRange;
    info.Started(im, stage);
    writes, stage' := [], stage;
    var offset: nat, win: seq<byte>, last := 0, [], info.state;
    while true
      invariant info.Parsed(im, stage') && last == info.state && last.loader in {READY_TO_LOAD, POST_DATA_LOAD}
      invariant 2 <= stage <= stage' && (stage == 4 ==> stage' == 4)
      invariant PostWindow(im, stage, stage', offset, |win|)
      invariant (win == [] && offset == 0) || (Waits(im, stage', offset, |win|) && win == im[offset..offset + |win|])
      invariant last.loader == READY_TO_LOAD ==>
        && stage' == stage && last.seg <= PhNum(im) && writes + Writes(im, last.seg) == Writes(im, 0)
        && (LastIsLoad(im) ==> last.seg < PhNum(im))
      invariant last.loader == POST_DATA_LOAD ==> writes == Writes(im, 0) && LastIsLoad(im)
      decreases
        last.loader == READY_TO_LOAD,
        if last.loader == READY_TO_LOAD then PhNum(im) - last.seg else 4 - stage',
        win == []
    {
      ghost var was, from, cursor := stage', last.loader, last.seg;
      InsideIs(im, offset, |win|);
      info.Started(im, was);
      if from == READY_TO_LOAD { ReadyYields(im, cursor); } else { PostStep(im, stage, was, offset, |win|); }
      var ret, da, noffset, nlen, nmemsize;
      ret, da, noffset, nlen, nmemsize, stage' := info.LoadData(win, offset, last, im, stage');
      if ret.Fail? { return false, writes, stage'; }
      last := ret.state;
      if da != ANYADDR {
        var loaded, w := LoadSegment(im, Segment(PT_LOAD, noffset, da, nlen, nmemsize), answers, maps);
        if !loaded { return false, writes, stage'; }
        writes := writes + w;
      } else if nlen != 0 {
        if !answers(noffset, nlen) {
          if Has(last.loader, POST_DATA_LOAD) { break; }
          return false, writes, stage';
        }
        win := im[noffset..noffset + nlen];
        offset := noffset;
      } else {
        break;
      }
    }
    ok := true;
  }

  /** A call that is ready to load yields a segment exactly when one is left. */
  lemma ReadyYields(im: seq<byte>, c: nat)
    requires WellFormed(im) && c <= PhNum(im)
    ensures var j := NextLoad(im, c);
      && (j == PhNum(im) ==> Writes(im, c) == [] && !(LastIsLoad(im) && c < PhNum(im)))
      && (j < PhNum(im) ==>
        && Seg(im, j).kind == PT_LOAD && Seg(im, j).paddr != ANYADDR
        && Seg(im, j).offset + Seg(im, j).filesz <= |im| && Seg(im, j).filesz <= Seg(im, j).memsz
        && Writes(im, c) == SegmentWrites(im, Seg(im, j)) + Writes(im, j + 1)
        && (j + 1 == PhNum(im) ==> Writes(im, j + 1) == [] && LastIsLoad(im)))
  {
    WritesNext(im, c);
    var j := NextLoad(im, c);
    if j < PhNum(im) { SegmentFits(im, j); }
  }

  /** The section tables can still be had after the data: the last program header is loadable, and no
      request for them would be empty. */
  ghost predicate CollectedLater(im: seq<byte>, seek: bool, len0: nat)
    requires Tables(im) && ShNum(im) > 0
  {
    && LastIsLoad(im)
    && var w := if Follows(HeaderWindow(im, len0), ShRange(im), seek) then Range(0, 0) else ShRange(im);
      Follows(w, StrRange(im), true)
  }

  /** Both loops.  Loading a well-formed image with a store that answers succeeds and writes every
      loadable segment once; the tables collected are the image's; and all of them are collected exactly
      when each follows on the one before it, or they can be had after the data. */
  method Load(im: seq<byte>, len0: nat, seek: bool, answers: (nat, nat) -> bool, maps: (nat, nat) -> bool)
    returns (ok: bool, info: ElfInfo, writes: seq<Write>, ghost stage: nat)
    requires WellFormed(im) && len0 <= |im|
    ensures Waits(im, 0, 0, len0)
    ensures ok ==> writes == Writes(im, 0) && info.Parsed(im, stage) && stage >= 2
    ensures (forall o, n :: answers(o, n)) && (forall a, n :: maps(a, n)) ==> ok
    ensures ok && (forall o, n :: answers(o, n)) ==>
      (stage == 4 <==> TablesFollow(im, seek, len0) || (ShNum(im) > 0 && CollectedLater(im, seek, len0)))
  {
    hide HeaderEnd, Writes, WellFormed, ElfInfo.Parsed, LastIsLoad, Wanted, Follows, HeaderWindow;
    writes := [];
    info := new ElfInfo();
    NothingParsed(im, info);
    var last, requests;
    ok, last, requests, stage := LoadHeaders(im, len0, seek, answers, info);
    if !ok { return; }
    info.Started(im, stage);
    ok, writes, stage := LoadSegments(im, answers, maps, info, stage);
  }

  lemma NothingParsed(im: seq<byte>, info: ElfInfo)
    requires WellFormed(im) && !info.present && info.state == INIT && info.phdrs == info.shdrs == info.shstrtab == None
    ensures info.Parsed(im, 0) && Tables(im)
  {
  }
}
