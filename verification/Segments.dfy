/**
 Range extraction: which file-backed address range one load command maps
 (get_mapped_segment_range).
 */
module Segments {
  import opened Words

  const LC_SEGMENT: u32 := 0x1
  const LC_SEGMENT_64: u32 := 0x19
  const SEC_TYPE_ZEROFILL: u32 := 0x1

  // Sizes of the structures load_command, segment_command(_64) and section(_64).
  const LC_SIZE: nat := 8
  const SEG32_SIZE: nat := 56
  const SEG64_SIZE: nat := 72
  const SECT32_SIZE: nat := 68
  const SECT64_SIZE: nat := 80

  datatype Section = Section(addr: u64, size: u64, flags: u32) {
    /** The section type is the low byte of the flags. */
    predicate ZeroFill() {
      flags % 0x100 == SEC_TYPE_ZEROFILL
    }
  }

  datatype Segment = Segment(vmaddr: u64, fileoff: u64, filesize: u64, sects: seq<Section>) {
    ghost predicate Fits(w: Width) {
      && vmaddr < w && fileoff < w && filesize < w
      && forall x <- sects :: x.addr < w && x.size < w
    }
  }

  datatype RawCommand = Other | Seg32(seg: Segment) | Seg64(seg: Segment)

  /** A load command; the fields of an LC_SEGMENT are 32 bits wide. */
  type Command = c: RawCommand | c.Seg32? ==> c.seg.Fits(TWO32) witness Other

  /** Status 0 with the three out-parameters, status 1, status 2. */
  datatype RangeResult = Mapped(addr: u64, off: u64, size: u64) | NotASegment | BadSection

  // ---------------------------------------------------------------- sections

  /** The first address after the file-backed part of the segment, which may have wrapped. */
  function Limit(w: Width, seg: Segment): u64
    requires seg.Fits(w)
  {
    Add(w, seg.vmaddr, seg.filesize)
  }

  predicate Wraps(w: Width, seg: Segment) {
    seg.vmaddr + seg.filesize >= w
  }

  /** The test that makes the loop give up, as computed in the width w. */
  predicate Outside(w: Width, seg: Segment, x: Section)
    requires seg.Fits(w) && x.addr < w && x.size < w
  {
    var hi := Add(w, x.addr, x.size);
    hi < x.addr || x.addr < seg.vmaddr || hi > Limit(w, seg)
  }

  datatype Scanned = Gave(lowest: u64, highest: u64) | GaveUp

  /** One iteration of the section loop; after giving up nothing happens. */
  function ScanStep(w: Width, seg: Segment, before: Scanned, x: Section): Scanned
    requires seg.Fits(w) && x.addr < w && x.size < w
  {
    if before.GaveUp? || x.ZeroFill() then before
    else if Outside(w, seg, x) then GaveUp
    else
      var hi := Add(w, x.addr, x.size);
      Gave(if x.addr < before.lowest then x.addr else before.lowest,
           if hi > before.highest then hi else before.highest)
  }

  /** State of the section loop after the sections `secs`. */
  function Scan(w: Width, seg: Segment, secs: seq<Section>): Scanned
    requires seg.Fits(w)
    requires forall x <- secs :: x.addr < w && x.size < w
  {
    if secs == [] then Gave(MAX64, 0)
    else ScanStep(w, seg, Scan(w, seg, secs[..|secs| - 1]), secs[|secs| - 1])
  }

  /** What the code returns for a segment whose fields have width w. */
  function SegmentRange(w: Width, seg: Segment, useSections: bool): RangeResult
    requires seg.Fits(w)
  {
    if !useSections then
      Mapped(seg.vmaddr, seg.fileoff, Sub(Limit(w, seg), seg.vmaddr))
    else
      match Scan(w, seg, seg.sects)
      case GaveUp => BadSection
      case Gave(lowest, highest) =>
        if lowest > highest then Mapped(seg.vmaddr, 0, 0)
        else Mapped(lowest, Add(TWO64, seg.fileoff, Sub(lowest, seg.vmaddr)), Sub(highest, lowest))
  }

  function Range(c: Command, useSections: bool): RangeResult {
    match c
    case Other => NotASegment
    case Seg32(seg) => SegmentRange(TWO32, seg, useSections)
    case Seg64(seg) => SegmentRange(TWO64, seg, useSections)
  }

  // ----------------------------------------------------- what the loop computes

  /** x has file-backed contents: its type, the low byte of its flags, is not S_ZEROFILL. */
  ghost predicate Backed(secs: seq<Section>, x: Section) {
    x in secs && x.flags % 0x100 != 0x1
  }

  /** Over the naturals, x lies inside the file-backed part of the segment. */
  ghost predicate Inside(seg: Segment, x: Section) {
    seg.vmaddr <= x.addr && x.addr + x.size <= seg.vmaddr + seg.filesize
  }

  /** The width-limited test lets a section pass iff it is inside and the segment itself does not wrap. */
  lemma OutsideMeaning(w: Width, seg: Segment, x: Section)
    requires seg.Fits(w) && x.addr < w && x.size < w
    ensures Outside(w, seg, x) <==> !Inside(seg, x) || Wraps(w, seg)
  {
  }

  /** lo is the least start and hi the greatest end of the backed sections. */
  ghost predicate IsHull(secs: seq<Section>, lo: nat, hi: nat) {
    && (exists x :: Backed(secs, x) && x.addr == lo)
    && (exists x :: Backed(secs, x) && x.addr + x.size == hi)
    && (forall x :: Backed(secs, x) ==> lo <= x.addr && x.addr + x.size <= hi)
  }

  lemma SameBackedSameHull(s: seq<Section>, t: seq<Section>, lo: nat, hi: nat)
    requires forall x :: Backed(s, x) <==> Backed(t, x)
    ensures IsHull(s, lo, hi) <==> IsHull(t, lo, hi)
  {
  }

  /**
   The loop gives up exactly when some section is backed and either lies outside
   the segment or the end of the segment wraps; otherwise it holds the sentinel
   pair exactly when no section is backed, and the exact hull of the backed
   sections when one is.
   */
  lemma {:induction false} ScanMeaning(w: Width, seg: Segment, secs: seq<Section>)
    requires seg.Fits(w)
    requires forall x <- secs :: x.addr < w && x.size < w
    ensures Scan(w, seg, secs).GaveUp? <==> exists x :: Backed(secs, x) && (!Inside(seg, x) || Wraps(w, seg))
    ensures Scan(w, seg, secs).Gave? ==>
              var h := Scan(w, seg, secs);
              && (h.lowest > h.highest <==> !exists x :: Backed(secs, x))
              && (if h.lowest > h.highest then h == Gave(MAX64, 0) else IsHull(secs, h.lowest, h.highest))
  {
    if secs != [] {
      var init, x := secs[..|secs| - 1], secs[|secs| - 1];
      ScanMeaning(w, seg, init);
      assert forall y :: y in secs <==> y in init || y == x;
      assert forall y :: Backed(secs, y) <==> Backed(init, y) || (y == x && !x.ZeroFill());
      OutsideMeaning(w, seg, x);
      var before, after := Scan(w, seg, init), Scan(w, seg, secs);
      if before.GaveUp? {
        var y :| Backed(init, y) && (!Inside(seg, y) || Wraps(w, seg));
        assert Backed(secs, y);
      } else if x.ZeroFill() {
        SameBackedSameHull(init, secs, before.lowest, before.highest);
      } else if after.GaveUp? {
        assert Backed(secs, x);
      } else {
        assert Backed(secs, x);
        if before.lowest <= before.highest {
          var p :| Backed(init, p) && p.addr == before.lowest;
          var q :| Backed(init, q) && q.addr + q.size == before.highest;
          assert Backed(secs, p) && Backed(secs, q);
        }
        assert IsHull(secs, after.lowest, after.highest);
      }
    }
  }

  /** Once the loop has given up, the rest of the sections cannot change that. */
  lemma {:induction false} GivenUpForGood(w: Width, seg: Segment, secs: seq<Section>, i: nat)
    requires seg.Fits(w)
    requires forall x <- secs :: x.addr < w && x.size < w
    requires i <= |secs| && Scan(w, seg, secs[..i]).GaveUp?
    ensures Scan(w, seg, secs).GaveUp?
    decreases |secs| - i
  {
    if i == |secs| {
      assert secs[..i] == secs;
    } else {
      assert secs[..i + 1][..i] == secs[..i];
      GivenUpForGood(w, seg, secs, i + 1);
    }
  }

  lemma ScanNext(w: Width, seg: Segment, i: nat)
    requires seg.Fits(w) && i < |seg.sects|
    ensures Scan(w, seg, seg.sects[..i + 1]) == ScanStep(w, seg, Scan(w, seg, seg.sects[..i]), seg.sects[i])
  {
    assert seg.sects[..i + 1][..i] == seg.sects[..i];
  }

  /** At most one pair is the hull of a given set of backed sections. */
  lemma HullUnique(s: seq<Section>, t: seq<Section>, lo: nat, hi: nat, lo': nat, hi': nat)
    requires forall x :: Backed(s, x) <==> Backed(t, x)
    requires IsHull(s, lo, hi) && IsHull(t, lo', hi')
    ensures lo == lo' && hi == hi'
  {
  }

  /**
   Section mode: status 2 exactly when some section is backed and either lies
   outside the segment or the end of the segment wraps; the empty range at
   vmaddr when none is backed; else exactly the hull of the backed sections,
   at the file offset that belongs to its start.
   */
  lemma SectionModeMeaning(w: Width, seg: Segment)
    requires seg.Fits(w)
    ensures var r := SegmentRange(w, seg, true);
            && !r.NotASegment?
            && (r.BadSection? <==> exists x :: Backed(seg.sects, x) && (!Inside(seg, x) || Wraps(w, seg)))
            && (r.Mapped? ==>
                  if exists x :: Backed(seg.sects, x) then
                    && IsHull(seg.sects, r.addr, r.addr + r.size) && seg.vmaddr <= r.addr
                    && r.off == Add(TWO64, seg.fileoff, r.addr - seg.vmaddr)
                  else r == Mapped(seg.vmaddr, 0, 0))
  {
    ScanMeaning(w, seg, seg.sects);
  }

  /** Segment mode: the whole segment, unless its 32-bit end wraps; then the size is huge. */
  lemma SegmentModeMeaning(w: Width, seg: Segment)
    requires seg.Fits(w)
    ensures SegmentRange(w, seg, false) ==
            Mapped(seg.vmaddr, seg.fileoff,
                   if w == TWO32 && Wraps(w, seg) then TWO64 - TWO32 + seg.filesize else seg.filesize)
  {
  }

  /**
   What a segment with fields of width w maps, stated outright: r is the whole
   segment in segment mode; in section mode the empty range if no section is
   backed, status 2 if one is outside or the segment wraps, else the hull.
   */
  ghost predicate IsRange(w: Width, seg: Segment, useSections: bool, r: RangeResult)
    requires seg.Fits(w)
  {
    if !useSections then
      r == Mapped(seg.vmaddr, seg.fileoff,
                  if w == 0x1_0000_0000 && seg.vmaddr + seg.filesize >= 0x1_0000_0000
                  then 0xffff_ffff_0000_0000 + seg.filesize else seg.filesize)
    else if !exists x :: Backed(seg.sects, x) then r == Mapped(seg.vmaddr, 0, 0)
    else if seg.vmaddr + seg.filesize >= w || exists x :: Backed(seg.sects, x) && !Inside(seg, x) then r == BadSection
    else
      && r.Mapped? && IsHull(seg.sects, r.addr, r.addr + r.size)
      && r.off == (seg.fileoff + (r.addr - seg.vmaddr)) % 0x1_0000_0000_0000_0000
  }

  lemma SegmentRangeMeaning(w: Width, seg: Segment, useSections: bool)
    requires seg.Fits(w)
    ensures IsRange(w, seg, useSections, SegmentRange(w, seg, useSections))
  {
    if useSections {
      SectionModeMeaning(w, seg);
    } else {
      SegmentModeMeaning(w, seg);
    }
  }

  /** Status 1 for everything but the two segment commands, and exactly IsRange for those. */
  lemma RangeMeaning(c: Command, useSections: bool)
    ensures c.Other? ==> Range(c, useSections) == NotASegment
    ensures c.Seg32? ==> IsRange(0x1_0000_0000, c.seg, useSections, Range(c, useSections))
    ensures c.Seg64? ==> IsRange(0x1_0000_0000_0000_0000, c.seg, useSections, Range(c, useSections))
  {
    match c
    case Other =>
    case Seg32(seg) => SegmentRangeMeaning(TWO32, seg, useSections);
    case Seg64(seg) => SegmentRangeMeaning(TWO64, seg, useSections);
  }

  /** A segment has at most one such range, so RangeMeaning determines Range. */
  lemma RangeUnique(w: Width, seg: Segment, useSections: bool, r: RangeResult, r': RangeResult)
    requires seg.Fits(w) && IsRange(w, seg, useSections, r) && IsRange(w, seg, useSections, r')
    ensures r == r'
  {
    if r.Mapped? && r'.Mapped? && useSections && exists x :: Backed(seg.sects, x) {
      HullUnique(seg.sects, seg.sects, r.addr, r.addr + r.size, r'.addr, r'.addr + r'.size);
    }
  }

  /**
   The range depends on the backed sections only as a set: reordering or
   repeating sections, and adding or removing zero-fill ones, changes nothing.
   */
  lemma SectionOrderIrrelevant(w: Width, s: Segment, t: Segment)
    requires s.Fits(w) && t.Fits(w)
    requires s.vmaddr == t.vmaddr && s.fileoff == t.fileoff && s.filesize == t.filesize
    requires forall x :: Backed(s.sects, x) <==> Backed(t.sects, x)
    ensures SegmentRange(w, s, true) == SegmentRange(w, t, true)
  {
    ScanMeaning(w, s, s.sects);
    ScanMeaning(w, t, t.sects);
    assert forall x :: Inside(s, x) <==> Inside(t, x);
    var h, k := Scan(w, s, s.sects), Scan(w, t, t.sects);
    if h.Gave? && h.lowest <= h.highest {
      HullUnique(s.sects, t.sects, h.lowest, h.highest, k.lowest, k.highest);
    }
  }

  lemma SectionPermutation(w: Width, s: Segment, t: Segment)
    requires s.Fits(w) && t.Fits(w)
    requires s.vmaddr == t.vmaddr && s.fileoff == t.fileoff && s.filesize == t.filesize
    requires multiset(s.sects) == multiset(t.sects)
    ensures SegmentRange(w, s, true) == SegmentRange(w, t, true)
  {
    forall x ensures Backed(s.sects, x) <==> Backed(t.sects, x) {
      assert x in multiset(s.sects) <==> x in multiset(t.sects);
    }
    SectionOrderIrrelevant(w, s, t);
  }

  // -------------------------------------------------------------- wrap-around

  /**
   Section mode needs no overflow assumption: a successful range never leaves
   the width, a non-empty one lies inside the segment and a segment that itself
   wraps is rejected or maps nothing.
   */
  lemma SectionModeNeverWraps(w: Width, seg: Segment)
    requires seg.Fits(w)
    ensures var r := SegmentRange(w, seg, true);
            && (r.Mapped? ==> r.addr + r.size < w)
            && (r.Mapped? && r.size > 0 ==>
                  && seg.vmaddr <= r.addr && r.addr + r.size <= seg.vmaddr + seg.filesize < w
                  && r.off == Add(TWO64, seg.fileoff, r.addr - seg.vmaddr))
            && (Wraps(w, seg) ==>
                  if exists x :: Backed(seg.sects, x) then r == BadSection else r == Mapped(seg.vmaddr, 0, 0))
  {
    ScanMeaning(w, seg, seg.sects);
    var h := Scan(w, seg, seg.sects);
    if h.Gave? && h.lowest <= h.highest {
      var x :| Backed(seg.sects, x) && x.addr == h.lowest;
      var y :| Backed(seg.sects, y) && y.addr + y.size == h.highest;
      assert Inside(seg, x) && Inside(seg, y);
    }
  }

  /** Both branches agree on a segment and its sections (section mode). */
  ghost predicate WidthsAgree(seg: Segment)
    requires seg.Fits(TWO32)
  {
    SegmentRange(TWO32, seg, true) == SegmentRange(TWO64, seg, true)
  }

  /**
   For one segment the 32-bit branch gives what the 64-bit branch gives exactly
   when its own address sum does not wrap, or no section is backed, or the
   64-bit branch rejects the sections too.
   */
  lemma WidthsAgreeExactly(seg: Segment)
    requires seg.Fits(TWO32)
    ensures WidthsAgree(seg) <==>
              || !Wraps(TWO32, seg)
              || (!exists x :: Backed(seg.sects, x))
              || SegmentRange(TWO64, seg, true).BadSection?
  {
    var s := seg.sects;
    ScanMeaning(TWO32, seg, s);
    ScanMeaning(TWO64, seg, s);
    if Wraps(TWO32, seg) {
      SectionModeNeverWraps(TWO32, seg);
    } else {
      var h, k := Scan(TWO32, seg, s), Scan(TWO64, seg, s);
      if h.Gave? && h.lowest <= h.highest {
        HullUnique(s, s, h.lowest, h.highest, k.lowest, k.highest);
      }
    }
  }

  /** Over all section lists, agreement of the two widths is the absence of wrap-around. */
  lemma WidthAgreement(vmaddr: u32, fileoff: u32, filesize: u32)
    ensures vmaddr + filesize < TWO32 <==>
              forall secs: seq<Section> ::
                Segment(vmaddr, fileoff, filesize, secs).Fits(TWO32) ==>
                  WidthsAgree(Segment(vmaddr, fileoff, filesize, secs))
  {
    if vmaddr + filesize < TWO32 {
      forall secs: seq<Section> | Segment(vmaddr, fileoff, filesize, secs).Fits(TWO32)
        ensures WidthsAgree(Segment(vmaddr, fileoff, filesize, secs))
      {
        WidthsAgreeExactly(Segment(vmaddr, fileoff, filesize, secs));
      }
    } else {
      // An empty section at vmaddr: inside the segment in 64 bits, outside in 32.
      var x := Section(vmaddr, 0, 0);
      var seg := Segment(vmaddr, fileoff, filesize, [x]);
      assert Backed(seg.sects, x);
      ScanMeaning(TWO64, seg, seg.sects);
      assert seg.Fits(TWO32) && !SegmentRange(TWO64, seg, true).BadSection?;
      WidthsAgreeExactly(seg);
    }
  }

  // ---------------------------------------------------------------- from bytes

  // The bytes of a structure up to the end of the last field that the code reads.
  const SEG32_TO_FILESIZE: nat := 40
  const SEG32_TO_NSECTS: nat := 52
  const SEG64_TO_FILESIZE: nat := 56
  const SEG64_TO_NSECTS: nat := 68
  const SECT32_TO_FLAGS: nat := 60
  const SECT64_TO_FLAGS: nat := 68

  function Section32At(file: File, at: nat): Section
    requires at + SECT32_TO_FLAGS <= |file|
  {
    Section(Read32(file, at + 32), Read32(file, at + 36), Read32(file, at + 56))
  }

  function Section64At(file: File, at: nat): Section
    requires at + SECT64_TO_FLAGS <= |file|
  {
    Section(Read64(file, at + 32), Read64(file, at + 40), Read32(file, at + 64))
  }

  /** How many of the n section structures from `at` on lie in a file of length flen. */
  function Present32(flen: nat, at: nat, n: nat): (k: nat)
    ensures k <= n && forall i :: 0 <= i < k ==> at + SECT32_SIZE * i + SECT32_TO_FLAGS <= flen
    ensures k < n ==> at + SECT32_SIZE * k + SECT32_TO_FLAGS > flen
  {
    if n == 0 || at + SECT32_SIZE * (n - 1) + SECT32_TO_FLAGS <= flen then n else Present32(flen, at, n - 1)
  }

  function Present64(flen: nat, at: nat, n: nat): (k: nat)
    ensures k <= n && forall i :: 0 <= i < k ==> at + SECT64_SIZE * i + SECT64_TO_FLAGS <= flen
    ensures k < n ==> at + SECT64_SIZE * k + SECT64_TO_FLAGS > flen
  {
    if n == 0 || at + SECT64_SIZE * (n - 1) + SECT64_TO_FLAGS <= flen then n else Present64(flen, at, n - 1)
  }

  /** The segment at cmd, with those of its first nsects sections that lie in the file. */
  function Segment32At(file: File, cmd: nat, nsects: nat): (seg: Segment)
    requires cmd + SEG32_TO_FILESIZE <= |file|
    ensures seg.Fits(TWO32)
  {
    Segment(Read32(file, cmd + 24), Read32(file, cmd + 32), Read32(file, cmd + 36),
            seq(Present32(|file|, cmd + SEG32_SIZE, nsects),
                i requires 0 <= i < Present32(|file|, cmd + SEG32_SIZE, nsects) =>
                  Section32At(file, cmd + SEG32_SIZE + SECT32_SIZE * i)))
  }

  function Segment64At(file: File, cmd: nat, nsects: nat): (seg: Segment)
    requires cmd + SEG64_TO_FILESIZE <= |file|
    ensures seg.Fits(TWO64)
  {
    Segment(Read64(file, cmd + 24), Read64(file, cmd + 40), Read64(file, cmd + 48),
            seq(Present64(|file|, cmd + SEG64_SIZE, nsects),
                i requires 0 <= i < Present64(|file|, cmd + SEG64_SIZE, nsects) =>
                  Section64At(file, cmd + SEG64_SIZE + SECT64_SIZE * i)))
  }

  /** Every section that the loop gets to lies in the file: all of them, or up to one that makes it give up. */
  predicate SectionsReadable32(file: File, cmd: nat, nsects: nat)
    requires cmd + SEG32_TO_FILESIZE <= |file|
  {
    var seg := Segment32At(file, cmd, nsects);
    |seg.sects| == nsects || Scan(TWO32, seg, seg.sects).GaveUp?
  }

  predicate SectionsReadable64(file: File, cmd: nat, nsects: nat)
    requires cmd + SEG64_TO_FILESIZE <= |file|
  {
    var seg := Segment64At(file, cmd, nsects);
    |seg.sects| == nsects || Scan(TWO64, seg, seg.sects).GaveUp?
  }

  /** Every field the code reads for the command at `cmd` lies inside the file. */
  predicate Readable(file: File, cmd: nat, useSections: bool)
    requires cmd + LC_SIZE <= |file|
  {
    var id := Read32(file, cmd);
    && (id == LC_SEGMENT ==>
          && cmd + SEG32_TO_FILESIZE <= |file|
          && (useSections ==>
                cmd + SEG32_TO_NSECTS <= |file| && SectionsReadable32(file, cmd, Read32(file, cmd + 48))))
    && (id == LC_SEGMENT_64 ==>
          && cmd + SEG64_TO_FILESIZE <= |file|
          && (useSections ==>
                cmd + SEG64_TO_NSECTS <= |file| && SectionsReadable64(file, cmd, Read32(file, cmd + 64))))
  }

  /** The command at `cmd`; segment mode leaves the section structures unread. */
  function CommandAt(file: File, cmd: nat, useSections: bool): Command
    requires cmd + LC_SIZE <= |file| && Readable(file, cmd, useSections)
  {
    var id := Read32(file, cmd);
    if id == LC_SEGMENT then
      Seg32(Segment32At(file, cmd, if useSections then Read32(file, cmd + 48) else 0))
    else if id == LC_SEGMENT_64 then
      Seg64(Segment64At(file, cmd, if useSections then Read32(file, cmd + 64) else 0))
    else Other
  }

  /** A section is zero-fill exactly when the lowest byte of its flags, at offset 56, is 1. */
  lemma ZeroFillByte32(file: File, at: nat)
    requires at + SECT32_TO_FLAGS <= |file|
    ensures Section32At(file, at).ZeroFill() <==> file[at + 56] == 1
  {
    LittleEndian32(file, at + 56);
  }

  /** The same for a 64-bit section, at offset 64. */
  lemma ZeroFillByte64(file: File, at: nat)
    requires at + SECT64_TO_FLAGS <= |file|
    ensures Section64At(file, at).ZeroFill() <==> file[at + 64] == 1
  {
    LittleEndian32(file, at + 64);
  }

  /** The first word of a command alone decides whether it is one of the two segment commands. */
  lemma KindOfCommand(file: File, cmd: nat, useSections: bool)
    requires cmd + LC_SIZE <= |file| && Readable(file, cmd, useSections)
    ensures var c := CommandAt(file, cmd, useSections);
            && (Read32(file, cmd) == 0x1 <==> c.Seg32?) && (Read32(file, cmd) == 0x19 <==> c.Seg64?)
            && (Read32(file, cmd) !in {0x1, 0x19} <==> Range(c, useSections) == NotASegment)
  {
    RangeMeaning(CommandAt(file, cmd, useSections), useSections);
  }

  /** The loop over the section structures of an LC_SEGMENT; GaveUp is `return 2`. */
  method ScanSections32(file: File, cmd: nat, nsects: nat) returns (r: Scanned)
    requires cmd + SEG32_TO_FILESIZE <= |file| && SectionsReadable32(file, cmd, nsects)
    ensures var seg := Segment32At(file, cmd, nsects);
            r == Scan(TWO32, seg, seg.sects)
  {
    ghost var seg := Segment32At(file, cmd, nsects);
    var vmaddr, filesize := Read32(file, cmd + 24), Read32(file, cmd + 36);
    var lowest: u64, highest: u64 := MAX64, 0;
    assert seg.sects[..|seg.sects|] == seg.sects;
    for i := 0 to nsects
      invariant i <= |seg.sects| && Scan(TWO32, seg, seg.sects[..i]) == Gave(lowest, highest)
    {
      ScanNext(TWO32, seg, i);
      var sec := cmd + SEG32_SIZE + SECT32_SIZE * i;
      assert seg.sects[i] == Section32At(file, sec);
      if Read32(file, sec + 56) % 0x100 == SEC_TYPE_ZEROFILL {
        continue;
      }
      var lo := Read32(file, sec + 32);
      var hi := Add(TWO32, lo, Read32(file, sec + 36));
      if hi < lo || lo < vmaddr || hi > Add(TWO32, vmaddr, filesize) {
        GivenUpForGood(TWO32, seg, seg.sects, i + 1);
        return GaveUp;
      }
      if lo < lowest {
        lowest := lo;
      }
      if hi > highest {
        highest := hi;
      }
    }
    return Gave(lowest, highest);
  }

  /** The same loop over the section structures of an LC_SEGMENT_64. */
  method ScanSections64(file: File, cmd: nat, nsects: nat) returns (r: Scanned)
    requires cmd + SEG64_TO_FILESIZE <= |file| && SectionsReadable64(file, cmd, nsects)
    ensures var seg := Segment64At(file, cmd, nsects);
            r == Scan(TWO64, seg, seg.sects)
  {
    ghost var seg := Segment64At(file, cmd, nsects);
    var vmaddr, filesize := Read64(file, cmd + 24), Read64(file, cmd + 48);
    var lowest: u64, highest: u64 := MAX64, 0;
    assert seg.sects[..|seg.sects|] == seg.sects;
    for i := 0 to nsects
      invariant i <= |seg.sects| && Scan(TWO64, seg, seg.sects[..i]) == Gave(lowest, highest)
    {
      ScanNext(TWO64, seg, i);
      var sec := cmd + SEG64_SIZE + SECT64_SIZE * i;
      assert seg.sects[i] == Section64At(file, sec);
      if Read32(file, sec + 64) % 0x100 == SEC_TYPE_ZEROFILL {
        continue;
      }
      var lo := Read64(file, sec + 32);
      var hi := Add(TWO64, lo, Read64(file, sec + 40));
      if hi < lo || lo < vmaddr || hi > Add(TWO64, vmaddr, filesize) {
        GivenUpForGood(TWO64, seg, seg.sects, i + 1);
        return GaveUp;
      }
      if lo < lowest {
        lowest := lo;
      }
      if hi > highest {
        highest := hi;
      }
    }
    return Gave(lowest, highest);
  }

  method GetMappedSegmentRange(file: File, cmd: nat, useSections: bool) returns (r: RangeResult)
    requires cmd + LC_SIZE <= |file| && Readable(file, cmd, useSections)
    ensures r == Range(CommandAt(file, cmd, useSections), useSections)
  {
    var lowest: u64, highest: u64, offset: u64 := MAX64, 0, 0;
    var id := Read32(file, cmd);
    if id == LC_SEGMENT {
      var vmaddr, fileoff, filesize := Read32(file, cmd + 24), Read32(file, cmd + 32), Read32(file, cmd + 36);
      if !useSections {
        lowest, highest, offset := vmaddr, Add(TWO32, vmaddr, filesize), fileoff;
      } else {
        var scanned := ScanSections32(file, cmd, Read32(file, cmd + 48));
        if scanned.GaveUp? {
          return BadSection;
        }
        lowest, highest := scanned.lowest, scanned.highest;
        if lowest > highest {
          lowest, highest, offset := vmaddr, vmaddr, 0;
        } else {
          offset := Add(TWO64, fileoff, Sub(lowest, vmaddr));
        }
      }
    } else if id == LC_SEGMENT_64 {
      var vmaddr, fileoff, filesize := Read64(file, cmd + 24), Read64(file, cmd + 40), Read64(file, cmd + 48);
      if !useSections {
        lowest, highest, offset := vmaddr, Add(TWO64, vmaddr, filesize), fileoff;
      } else {
        var scanned := ScanSections64(file, cmd, Read32(file, cmd + 64));
        if scanned.GaveUp? {
          return BadSection;
        }
        lowest, highest := scanned.lowest, scanned.highest;
        if lowest > highest {
          lowest, highest, offset := vmaddr, vmaddr, 0;
        } else {
          offset := Add(TWO64, fileoff, Sub(lowest, vmaddr));
        }
      }
    } else {
      return NotASegment;
    }
    return Mapped(lowest, offset, Sub(highest, lowest));
  }
}
