/**
 Pass 1 over a list of load commands: validate each one and accumulate the
 address hull of everything that will be copied.
 */
module Layout {
  import opened Wrappers
  import opened Words
  import opened Segments

  /** A non-empty range that pass 2 copies: size bytes of the file at off go to addr. */
  datatype Mapping = Mapping(addr: u64, off: u64, size: u64) {
    predicate Covers(a: int) {
      addr <= a < addr + size
    }

    predicate InFile(flen: nat) {
      off + size <= flen
    }

    /** The address range ends below 2^64. */
    predicate InAddressSpace() {
      addr + size < TWO64
    }
  }

  /** The mapping of one command, if it has one. */
  function MappingOf(c: Command, useSections: bool): Option<Mapping> {
    match Range(c, useSections)
    case Mapped(addr, off, size) => if size == 0 then None else Some(Mapping(addr, off, size))
    case _ => None
  }

  /** The mappings of all commands, in load order. */
  function Mappings(cmds: seq<Command>, useSections: bool): seq<Mapping> {
    if cmds == [] then []
    else
      var before := Mappings(cmds[..|cmds| - 1], useSections);
      match MappingOf(cmds[|cmds| - 1], useSections)
      case None => before
      case Some(m) => before + [m]
  }

  ghost predicate AllInFile(ms: seq<Mapping>, flen: nat) {
    forall m <- ms :: m.InFile(flen)
  }

  ghost predicate AllInAddressSpace(ms: seq<Mapping>) {
    forall m <- ms :: m.InAddressSpace()
  }

  // ------------------------------------------------------------------- pass 1

  datatype Verdict = Skip | Keep(m: Mapping) | BadRange | BadBounds {
    predicate Rejects() {
      BadRange? || BadBounds?
    }
  }

  /** What pass 1 makes of one command, with the sums as the code computes them. */
  function Judge(c: Command, useSections: bool, flen: nat): Verdict {
    match Range(c, useSections)
    case NotASegment => Skip
    case BadSection => BadRange
    case Mapped(addr, off, size) =>
      if size == 0 then Skip
      else
        var stop := Add(TWO64, off, size);
        if stop > flen || stop < off then BadBounds else Keep(Mapping(addr, off, size))
  }

  datatype Surveyed = Hull(lowest: u64, highest: u64) | RangeError | SegmentError

  /** The hull extended by one mapping; the end may wrap to a small address. */
  function Extend(h: Surveyed, m: Mapping): Surveyed
    requires h.Hull?
  {
    var end := Add(TWO64, m.addr, m.size);
    Hull(if m.addr < h.lowest then m.addr else h.lowest, if end > h.highest then end else h.highest)
  }

  /** One iteration of pass 1; an error ends the walk. */
  function Step(before: Surveyed, v: Verdict): Surveyed {
    if !before.Hull? then before
    else
      match v
      case Skip => before
      case Keep(m) => Extend(before, m)
      case BadRange => RangeError
      case BadBounds => SegmentError
  }

  /** State of pass 1 after the commands `cmds`. */
  function Survey(cmds: seq<Command>, useSections: bool, flen: nat): Surveyed {
    if cmds == [] then Hull(MAX64, 0)
    else Step(Survey(cmds[..|cmds| - 1], useSections, flen), Judge(cmds[|cmds| - 1], useSections, flen))
  }

  /** The sections fit the segment and, over the naturals, the range is inside the file. */
  ghost predicate Acceptable(c: Command, useSections: bool, flen: nat) {
    && !Range(c, useSections).BadSection?
    && (match MappingOf(c, useSections) case Some(m) => m.InFile(flen) case None => true)
  }

  /** The wrapping file-bounds test is the bounds test over the naturals. */
  lemma JudgeMeaning(c: Command, useSections: bool, flen: nat)
    requires flen < TWO63
    ensures !Judge(c, useSections, flen).Rejects() <==> Acceptable(c, useSections, flen)
    ensures !Judge(c, useSections, flen).Rejects() ==>
              Judge(c, useSections, flen) == (match MappingOf(c, useSections) case Some(m) => Keep(m) case None => Skip)
  {
  }

  /** r is what the command maps, by the stated meaning of its segment. */
  ghost predicate MapsTo(c: Command, useSections: bool, r: RangeResult) {
    match c
    case Other => r == NotASegment
    case Seg32(seg) => IsRange(0x1_0000_0000, seg, useSections, r)
    case Seg64(seg) => IsRange(0x1_0000_0000_0000_0000, seg, useSections, r)
  }

  /** The whole treatment of a command in pass 1, from what it maps and the length of the file. */
  lemma CommandMeaning(c: Command, useSections: bool, flen: nat, r: RangeResult)
    requires flen < TWO63 && MapsTo(c, useSections, r)
    ensures match r
            case NotASegment =>
              && Judge(c, useSections, flen) == Skip
              && Acceptable(c, useSections, flen) && MappingOf(c, useSections) == None
            case BadSection =>
              && Judge(c, useSections, flen) == BadRange
              && !Acceptable(c, useSections, flen) && MappingOf(c, useSections) == None
            case Mapped(addr, off, size) =>
              if size == 0 then
                && Judge(c, useSections, flen) == Skip
                && Acceptable(c, useSections, flen) && MappingOf(c, useSections) == None
              else
                && MappingOf(c, useSections) == Some(Mapping(addr, off, size))
                && (Acceptable(c, useSections, flen) <==> off + size <= flen)
                && Judge(c, useSections, flen)
                   == if off + size <= flen then Keep(Mapping(addr, off, size)) else BadBounds
  {
    RangeMeaning(c, useSections);
    match c
    case Other =>
    case Seg32(seg) => RangeUnique(TWO32, seg, useSections, r, Range(c, useSections));
    case Seg64(seg) => RangeUnique(TWO64, seg, useSections, r, Range(c, useSections));
    JudgeMeaning(c, useSections, flen);
  }

  /** A command that is no segment is acceptable in every file, maps nothing and is skipped. */
  lemma OtherIsSkipped(useSections: bool, flen: nat)
    ensures Acceptable(Other, useSections, flen) && MappingOf(Other, useSections) == None
    ensures Judge(Other, useSections, flen) == Skip
  {
    RangeMeaning(Other, useSections);
  }

  /** lo is the least start and hi the greatest end, as computed in 64 bits, of the mappings. */
  ghost predicate IsExtent(ms: seq<Mapping>, lo: u64, hi: u64) {
    && (exists m <- ms :: m.addr == lo)
    && (exists m <- ms :: Add(TWO64, m.addr, m.size) == hi)
    && (forall m <- ms :: lo <= m.addr && Add(TWO64, m.addr, m.size) <= hi)
  }

  /**
   Pass 1 gets through exactly the lists whose every command is acceptable,
   and then holds the sentinel pair or the exact hull of all mappings.
   */
  lemma {:induction false} SurveyMeaning(cmds: seq<Command>, useSections: bool, flen: nat)
    requires flen < TWO63
    ensures var s := Survey(cmds, useSections, flen); var ms := Mappings(cmds, useSections);
            && (s.Hull? <==> forall c <- cmds :: Acceptable(c, useSections, flen))
            && (s.Hull? ==>
                  && AllInFile(ms, flen)
                  && (if ms == [] then s == Hull(MAX64, 0) else IsExtent(ms, s.lowest, s.highest)))
  {
    if cmds != [] {
      var init, c := cmds[..|cmds| - 1], cmds[|cmds| - 1];
      SurveyMeaning(init, useSections, flen);
      JudgeMeaning(c, useSections, flen);
      assert forall d :: d in cmds <==> d in init || d == c;
      var before, after := Survey(init, useSections, flen), Survey(cmds, useSections, flen);
      var ms, ns := Mappings(init, useSections), Mappings(cmds, useSections);
      if after.Hull? && Judge(c, useSections, flen).Keep? {
        var m := Judge(c, useSections, flen).m;
        assert ns == ms + [m];
        assert m in ns && forall x <- ms :: x in ns;
        if ms != [] {
          var p :| p in ms && p.addr == before.lowest;
          var q :| q in ms && Add(TWO64, q.addr, q.size) == before.highest;
          assert p in ns && q in ns;
        }
        assert IsExtent(ns, after.lowest, after.highest);
      } else if after.Hull? {
        assert ns == ms;
      }
    }
  }

  /** Some range starts no later than some range ends; the ends are taken in 64 bits. */
  ghost predicate ProperLayout(ms: seq<Mapping>) {
    exists p <- ms, q <- ms :: p.addr <= Add(TWO64, q.addr, q.size)
  }

  /** That is the layout check, and without address wrap it asks for nothing but a mapping. */
  lemma LayoutMeaning(cmds: seq<Command>, useSections: bool, flen: nat)
    requires flen < TWO63 && Survey(cmds, useSections, flen).Hull?
    ensures var h := Survey(cmds, useSections, flen); var ms := Mappings(cmds, useSections);
            && (h.lowest <= h.highest <==> ProperLayout(ms))
            && (AllInAddressSpace(ms) ==> (ProperLayout(ms) <==> ms != []))
  {
    SurveyMeaning(cmds, useSections, flen);
    var h, ms := Survey(cmds, useSections, flen), Mappings(cmds, useSections);
    if ms != [] {
      var p :| p in ms && p.addr == h.lowest;
      var q :| q in ms && Add(TWO64, q.addr, q.size) == h.highest;
      assert h.lowest <= h.highest ==> p.addr <= Add(TWO64, q.addr, q.size);
      assert AllInAddressSpace(ms) ==> p.addr <= Add(TWO64, p.addr, p.size);
    }
  }

  /**
   Without address wrap, the layout check after pass 1 passes exactly when
   something is mapped; the image is then not empty, holds every mapping, and
   its first and its last byte are each covered by a mapping.
   */
  lemma TightHull(cmds: seq<Command>, useSections: bool, flen: nat)
    requires flen < TWO63
    requires Survey(cmds, useSections, flen).Hull?
    requires AllInAddressSpace(Mappings(cmds, useSections))
    ensures var h := Survey(cmds, useSections, flen); var ms := Mappings(cmds, useSections);
            && (h.highest >= h.lowest <==> ms != [])
            && (ms != [] ==>
                  && h.lowest < h.highest
                  && (forall m <- ms :: h.lowest <= m.addr && m.addr + m.size <= h.highest)
                  && (exists m <- ms :: m.Covers(h.lowest))
                  && (exists m <- ms :: m.Covers(h.highest - 1)))
  {
    SurveyMeaning(cmds, useSections, flen);
    NonEmpty(cmds, useSections);
    var h, ms := Survey(cmds, useSections, flen), Mappings(cmds, useSections);
    if ms != [] {
      var p :| p in ms && p.addr == h.lowest;
      var q :| q in ms && Add(TWO64, q.addr, q.size) == h.highest;
      assert p.Covers(h.lowest) && q.Covers(h.highest - 1);
    }
  }

  lemma {:induction false} NonEmpty(cmds: seq<Command>, useSections: bool)
    ensures forall m <- Mappings(cmds, useSections) :: m.size > 0
  {
    if cmds != [] {
      NonEmpty(cmds[..|cmds| - 1], useSections);
    }
  }

  // ---------------------------------------------------------- address wrap-around

  /** The destination range that pass 2 computes for m, relative to the image buffer. */
  ghost predicate CopyFits(m: Mapping, lowest: u64, highest: u64) {
    Sub(m.addr, lowest) + m.size <= Sub(highest, lowest)
  }

  /**
   After a successful pass 1, the destination of the copy lies inside the image
   exactly for the mappings that end below 2^64.
   */
  lemma CopyFitsExactly(cmds: seq<Command>, useSections: bool, flen: nat, m: Mapping)
    requires flen < TWO63
    requires var h := Survey(cmds, useSections, flen); h.Hull? && h.lowest <= h.highest
    requires m in Mappings(cmds, useSections)
    ensures var h := Survey(cmds, useSections, flen);
            CopyFits(m, h.lowest, h.highest) <==> m.InAddressSpace()
  {
    SurveyMeaning(cmds, useSections, flen);
  }

  // Two segments of an LC_SEGMENT_64 each: an ordinary one, and one that wraps past 2^64.
  const LOW: Segment := Segment(0x1000, 0, 0x1000, [])
  const WRAPPING: Segment := Segment(0xffff_ffff_ffff_ff00, 0, 0x200, [])

  /** Pass 1 does not establish this alone: in segment mode it lets these two commands through. */
  lemma WrapIsNotRejected(flen: nat)
    requires 0x1000 <= flen < TWO63
    ensures var cmds := [Seg64(LOW), Seg64(WRAPPING)]; var m := Mapping(WRAPPING.vmaddr, 0, 0x200);
            && Survey(cmds, false, flen) == Hull(0x1000, 0x2000)
            && m in Mappings(cmds, false) && !m.InAddressSpace() && !CopyFits(m, 0x1000, 0x2000)
  {
    var low, wrapping := Seg64(LOW), Seg64(WRAPPING);
    SurveyAppend([], low, false, flen);
    SurveyAppend([low], wrapping, false, flen);
    MappingsAppend([low], wrapping, false);
    assert [] + [low] == [low] && [low] + [wrapping] == [low, wrapping];
  }

  /** An LC_SEGMENT whose 32-bit end wraps fails the file-bounds test, whatever the file. */
  lemma WrappedSegmentRejected(seg: Segment, flen: nat)
    requires seg.Fits(TWO32) && flen < TWO63 && Wraps(TWO32, seg)
    ensures Judge(Seg32(seg), false, flen) == BadBounds
  {
  }

  /**
   The commands whose range can leave the address space: only an LC_SEGMENT_64
   taken as a whole, when vmaddr + filesize leaves 64 bits.
   */
  lemma OnlySegments64Wrap(c: Command, useSections: bool, flen: nat)
    requires flen < TWO63 && Acceptable(c, useSections, flen)
    ensures (match MappingOf(c, useSections) case Some(m) => m.InAddressSpace() case None => true) <==>
              !(!useSections && c.Seg64? && Wraps(TWO64, c.seg))
  {
    JudgeMeaning(c, useSections, flen);
    if useSections {
      match c
      case Other =>
      case Seg32(seg) => SectionModeNeverWraps(TWO32, seg);
      case Seg64(seg) => SectionModeNeverWraps(TWO64, seg);
    } else if c.Seg32? && Wraps(TWO32, c.seg) {
      WrappedSegmentRejected(c.seg, flen);
    }
  }

  // ------------------------------------------------------------------ list facts

  lemma {:induction false} MappingsAppend(s: seq<Command>, c: Command, useSections: bool)
    ensures Mappings(s + [c], useSections) ==
            (match MappingOf(c, useSections)
             case None => Mappings(s, useSections)
             case Some(m) => Mappings(s, useSections) + [m])
  {
    assert (s + [c])[..|s|] == s;
  }

  lemma {:induction false} SurveyAppend(s: seq<Command>, c: Command, useSections: bool, flen: nat)
    ensures Survey(s + [c], useSections, flen) == Step(Survey(s, useSections, flen), Judge(c, useSections, flen))
  {
    assert (s + [c])[..|s|] == s;
  }

  /** The mappings of a list are the mappings of its members. */
  lemma {:induction false} MappingsMembers(cmds: seq<Command>, useSections: bool, m: Mapping)
    ensures m in Mappings(cmds, useSections) <==> exists c <- cmds :: MappingOf(c, useSections) == Some(m)
  {
    if cmds != [] {
      var init, c := cmds[..|cmds| - 1], cmds[|cmds| - 1];
      MappingsMembers(init, useSections, m);
      assert forall d :: d in cmds <==> d in init || d == c;
    }
  }
}
