/**
 A file that shows why the conversion must assume that segments do not wrap in
 segment mode: pass 1 accepts it, and a copy of pass 2 does not fit the image.
 */
module AddressWrap {
  import opened Wrappers
  import opened Words
  import opened Segments
  import opened Layout
  import opened Image
  import opened Walk
  import opened Loader
  import opened WholeFile
  import opened Encoding
  import Assembly

  /** The fields of a segment_command_64 without sections. */
  function BareSegment(seg: Segment): (fs: seq<Field>)
    requires seg.sects == []
    ensures IsSegment64(fs, seg, SEG64_SIZE)
  {
    [U32(0x19), U32(SEG64_SIZE), Unread(Assembly.Zeros(16)), U64(seg.vmaddr), U64(seg.filesize),
     U64(seg.fileoff), U64(seg.filesize), Unread(Assembly.Zeros(8)), U32(0), U32(0)]
  }

  lemma BareSegmentSize(seg: Segment)
    requires seg.sects == []
    ensures |Put(BareSegment(seg))| == SEG64_SIZE
  {
    Offsets64(BareSegment(seg), seg, SEG64_SIZE);
    PutLength(BareSegment(seg), 10);
  }

  const COMMANDS: nat := 2 * SEG64_SIZE
  const SECOND: nat := HDR64_SIZE + SEG64_SIZE
  const END: nat := HDR64_SIZE + COMMANDS

  /** A header, the two segment commands, and the bytes that they map. */
  function WrappingFile(): seq<u8> {
    Put(Assembly.HeaderFields(COMMANDS)) +
    (Put(BareSegment(LOW)) + (Put(BareSegment(WRAPPING)) + Assembly.Zeros(0x1000)))
  }

  lemma Parts(file: seq<u8>)
    requires file == WrappingFile()
    ensures |file| == END + 0x1000 && Holds(file, 0, Assembly.HeaderFields(COMMANDS))
    ensures |Put(Assembly.HeaderFields(COMMANDS))| == HDR64_SIZE
    ensures Holds(file, HDR64_SIZE, BareSegment(LOW)) && Holds(file, SECOND, BareSegment(WRAPPING))
  {
    var fs := Assembly.HeaderFields(COMMANDS);
    var header, data := Put(fs), Assembly.Zeros(0x1000);
    var low, wrapping := Put(BareSegment(LOW)), Put(BareSegment(WRAPPING));
    HeaderOffsets(fs, COMMANDS);
    PutLength(fs, 8);
    BareSegmentSize(LOW);
    BareSegmentSize(WRAPPING);
    assert Matches(file, 0, header + (low + (wrapping + data)));
    MatchesSplit(file, 0, header, low + (wrapping + data));
    MatchesSplit(file, HDR64_SIZE, low, wrapping + data);
    MatchesSplit(file, SECOND, wrapping, data);
  }

  /** The command at `at` is a segment_command_64 for seg, without sections. */
  ghost predicate HasSegment(file: File, at: nat, seg: Segment) {
    && at + SEG64_SIZE <= |file| && CmdSize(file, at) == SEG64_SIZE
    && Read32(file, at) == LC_SEGMENT_64 && Read32(file, at + 64) == 0
    && Readable(file, at, false) && CommandAt(file, at, false) == Seg64(seg)
  }

  lemma SegmentReadBack(file: File, at: nat, seg: Segment)
    requires seg.sects == [] && Holds(file, at, BareSegment(seg))
    ensures HasSegment(file, at, seg)
  {
    Header64ReadBack(file, at, BareSegment(seg), seg, SEG64_SIZE);
    Segment64HeaderReadBack(file, at, BareSegment(seg), seg, SEG64_SIZE);
  }

  const TRACE: Trace := Trace([HDR64_SIZE, SECOND], [Seg64(LOW), Seg64(WRAPPING)], None)

  lemma BothWalked(file: File)
    requires |file| == END + 0x1000 && HasSegment(file, HDR64_SIZE, LOW) && HasSegment(file, SECOND, WRAPPING)
    ensures WellFormed(file, HDR64_SIZE, END, false)
    ensures Walked(file, TRACE, HDR64_SIZE, END, false)
  {
    assert Formatted(file, END, END);
    assert Formatted(file, SECOND, END);
    assert Formatted(file, HDR64_SIZE, END);
    FormattedIsWellFormed(file, HDR64_SIZE, END, false);
    var offs := TRACE.offs;
    assert offs[1..] == [SECOND] && [SECOND][1..] == [];
    assert Tiles(file, [], END, END);
    assert Tiles(file, [SECOND], SECOND, END);
  }

  lemma BothLoadable(file: File)
    requires |file| == END + 0x1000 && HasSegment(file, HDR64_SIZE, LOW) && HasSegment(file, SECOND, WRAPPING)
    ensures WellFormed(file, HDR64_SIZE, END, false)
    ensures Loadable(file, Area(HDR64_SIZE, END), TRACE, false)
  {
    BothWalked(file);
    WrapIsNotRejected(|file|);
    SurveyMeaning(TRACE.cmds, false, |file|);
    LayoutMeaning(TRACE.cmds, false, |file|);
  }

  /**
   In segment mode the tool accepts this file, whose second segment wraps, and
   one of the copies of pass 2 reaches beyond the image: Unwrapped does not hold
   of every accepted file.
   */
  lemma WrappedCopyDoesNotFit(file: File)
    requires file == WrappingFile()
    ensures Usable(file, false) && Outcome(file, false).Success? && !Unwrapped(file, false)
    ensures var l := Outcome(file, false).value;
            && l.base + |l.bytes| < TWO64
            && exists m <- FileMappings(file, false) :: !CopyFits(m, l.base, l.base + |l.bytes|)
  {
    Parts(file);
    HeaderReadBack(file, Assembly.HeaderFields(COMMANDS), COMMANDS);
    SegmentReadBack(file, HDR64_SIZE, LOW);
    SegmentReadBack(file, SECOND, WRAPPING);
    BothLoadable(file);
    Pass1Meaning(file, Area(HDR64_SIZE, END), false);
    assert Visited(file, false) == TRACE;
    assert Seg64(WRAPPING) in TRACE.cmds && Wraps(TWO64, WRAPPING);
    CopiesFitExactly(file, false);
  }
}
