/**
 An assembler for 64-bit files, as the inverse of the conversion: one segment
 with one section for each chunk of memory. Converting an assembled file gives
 back the memory that the chunks describe, in both modes.
 */
module Assembly {
  import opened Wrappers
  import opened Words
  import opened Segments
  import opened Layout
  import opened Image
  import opened Walk
  import opened Loader
  import opened Encoding

  /** Bytes for the addresses from vmaddr on. */
  datatype Chunk = Chunk(vmaddr: u64, data: seq<u8>) {
    predicate Covers(a: int) {
      vmaddr <= a < vmaddr + |data|
    }
  }

  /** The memory that the first n chunks describe; later ones overwrite earlier ones. */
  function Memory(cs: seq<Chunk>, n: nat, a: int): u8
    requires n <= |cs|
  {
    if n == 0 then 0
    else if cs[n - 1].Covers(a) then cs[n - 1].data[a - cs[n - 1].vmaddr]
    else Memory(cs, n - 1, a)
  }

  // ------------------------------------------------------------------ blocks of bytes

  /** The first n blocks, one after the other. */
  function Concat(bs: seq<seq<u8>>, n: nat): seq<u8>
    requires n <= |bs|
  {
    if n == 0 then [] else Concat(bs, n - 1) + bs[n - 1]
  }

  lemma {:induction false} ConcatGrows(bs: seq<seq<u8>>, i: nat, j: nat)
    requires i <= j <= |bs|
    ensures |Concat(bs, i)| <= |Concat(bs, j)|
    decreases j - i
  {
    if i < j {
      ConcatGrows(bs, i, j - 1);
    }
  }

  lemma {:induction false} ConcatPlace(bs: seq<seq<u8>>, file: seq<u8>, at: nat, n: nat, k: nat)
    requires k < n <= |bs| && Matches(file, at, Concat(bs, n))
    ensures Matches(file, at + |Concat(bs, k)|, bs[k])
  {
    MatchesSplit(file, at, Concat(bs, n - 1), bs[n - 1]);
    if k < n - 1 {
      ConcatPlace(bs, file, at, n - 1, k);
    }
  }

  // ------------------------------------------------------------------ the assembler

  const CMD_SIZE: nat := SEG64_SIZE + SECT64_SIZE

  function Zeros(n: nat): (z: seq<u8>)
    ensures |z| == n
  {
    seq<u8>(n, _ => 0)
  }

  function Datas(cs: seq<Chunk>): seq<seq<u8>> {
    seq(|cs|, k requires 0 <= k < |cs| => cs[k].data)
  }

  function CommandOff(k: nat): nat {
    HDR64_SIZE + CMD_SIZE * k
  }

  /** Where the contents of chunk k lie in the file, behind all commands. */
  function FileOff(cs: seq<Chunk>, k: nat): nat
    requires k <= |cs|
  {
    CommandOff(|cs|) + |Concat(Datas(cs), k)|
  }

  /** There are chunks, none is empty or reaches 2^64, and sizeofcmds and file offsets do not overflow. */
  ghost predicate Fit(cs: seq<Chunk>) {
    && cs != [] && (forall c <- cs :: c.data != [] && c.vmaddr + |c.data| < TWO64)
    && CMD_SIZE * |cs| < TWO32 && FileOff(cs, |cs|) < TWO63
  }

  /** Chunk k is a proper one and lies inside the file. */
  lemma ChunkFits(cs: seq<Chunk>, k: nat)
    requires k < |cs| && Fit(cs)
    ensures 0 < |cs[k].data| && cs[k].vmaddr + |cs[k].data| < TWO64
    ensures FileOff(cs, k) + |cs[k].data| <= FileOff(cs, |cs|) < TWO63
  {
    assert cs[k] in cs;
    ConcatGrows(Datas(cs), k + 1, |cs|);
    assert Concat(Datas(cs), k + 1) == Concat(Datas(cs), k) + cs[k].data;
  }

  /** The field values of chunk k; the segment is exactly its one section. */
  function SegmentOf(cs: seq<Chunk>, k: nat): Segment
    requires k < |cs| && Fit(cs)
  {
    ChunkFits(cs, k);
    Segment(cs[k].vmaddr, FileOff(cs, k), |cs[k].data|, [Section(cs[k].vmaddr, |cs[k].data|, 0)])
  }

  function SegmentFields(seg: Segment): (fs: seq<Field>)
    requires |seg.sects| == 1
    ensures IsSegment64(fs, seg, CMD_SIZE)
  {
    [U32(0x19), U32(CMD_SIZE), Unread(Zeros(16)), U64(seg.vmaddr), U64(seg.filesize),
     U64(seg.fileoff), U64(seg.filesize), Unread(Zeros(8)), U32(1), U32(0)]
  }

  function SectionFields(x: Section): (fs: seq<Field>)
    ensures IsSection64(fs, x)
  {
    [Unread(Zeros(32)), U64(x.addr), U64(x.size), Unread(Zeros(16)), U32(x.flags), Unread(Zeros(12))]
  }

  function HeaderFields(sizeofcmds: u32): (fs: seq<Field>)
    ensures IsHeader(fs, sizeofcmds) && fs[0].v == 0xfeedfacf
  {
    [U32(0xfeedfacf), U32(0), U32(0), U32(0), U32(0), U32(sizeofcmds), U32(0), Unread(Zeros(4))]
  }

  function CommandBytes(seg: Segment): seq<u8>
    requires |seg.sects| == 1
  {
    Put(SegmentFields(seg)) + Put(SectionFields(seg.sects[0]))
  }

  function AllCommands(cs: seq<Chunk>): seq<seq<u8>>
    requires Fit(cs)
  {
    seq(|cs|, k requires 0 <= k < |cs| => CommandBytes(SegmentOf(cs, k)))
  }

  function Assemble(cs: seq<Chunk>): seq<u8>
    requires Fit(cs)
  {
    Put(HeaderFields(CMD_SIZE * |cs|)) + (Concat(AllCommands(cs), |cs|) + Concat(Datas(cs), |cs|))
  }

  // ----------------------------------------------------------- what is where in the file

  lemma StructureSizes(seg: Segment)
    requires |seg.sects| == 1
    ensures |Put(SegmentFields(seg))| == SEG64_SIZE && |Put(SectionFields(seg.sects[0]))| == SECT64_SIZE
  {
    Offsets64(SegmentFields(seg), seg, CMD_SIZE);
    PutLength(SegmentFields(seg), 10);
    SectionOffsets64(SectionFields(seg.sects[0]), seg.sects[0]);
    PutLength(SectionFields(seg.sects[0]), 6);
  }

  lemma {:induction false} CommandsLength(bs: seq<seq<u8>>, n: nat)
    requires n <= |bs| && forall b <- bs :: |b| == CMD_SIZE
    ensures |Concat(bs, n)| == CMD_SIZE * n
  {
    if n > 0 {
      CommandsLength(bs, n - 1);
    }
  }

  lemma AllCommandsUniform(cs: seq<Chunk>)
    requires Fit(cs)
    ensures forall b <- AllCommands(cs) :: |b| == CMD_SIZE
  {
    forall k | 0 <= k < |cs| ensures |AllCommands(cs)[k]| == CMD_SIZE {
      StructureSizes(SegmentOf(cs, k));
    }
  }

  /** The three parts of an assembled file. */
  lemma Parts(cs: seq<Chunk>, file: seq<u8>)
    requires Fit(cs) && file == Assemble(cs)
    ensures |Put(HeaderFields(CMD_SIZE * |cs|))| == HDR64_SIZE && |file| == FileOff(cs, |cs|)
    ensures Holds(file, 0, HeaderFields(CMD_SIZE * |cs|))
    ensures Matches(file, HDR64_SIZE, Concat(AllCommands(cs), |cs|))
    ensures Matches(file, CommandOff(|cs|), Concat(Datas(cs), |cs|))
  {
    var fs := HeaderFields(CMD_SIZE * |cs|);
    var header, commands, data := Put(fs), Concat(AllCommands(cs), |cs|), Concat(Datas(cs), |cs|);
    HeaderOffsets(fs, CMD_SIZE * |cs|);
    PutLength(fs, 8);
    AllCommandsUniform(cs);
    CommandsLength(AllCommands(cs), |cs|);
    assert Matches(file, 0, header + (commands + data));
    MatchesSplit(file, 0, header, commands + data);
    MatchesSplit(file, |header|, commands, data);
  }

  lemma ChunkPlace(cs: seq<Chunk>, file: seq<u8>, k: nat)
    requires Fit(cs) && file == Assemble(cs) && k < |cs|
    ensures Matches(file, CommandOff(k), CommandBytes(SegmentOf(cs, k)))
    ensures Matches(file, FileOff(cs, k), cs[k].data)
  {
    Parts(cs, file);
    AllCommandsUniform(cs);
    CommandsLength(AllCommands(cs), k);
    ConcatPlace(AllCommands(cs), file, HDR64_SIZE, |cs|, k);
    ConcatPlace(Datas(cs), file, CommandOff(|cs|), |cs|, k);
  }

  // -------------------------------------------------------------------- reading it back

  /** The command at `at` is seg, as both modes read it. */
  ghost predicate ReadsBack(file: File, at: nat, seg: Segment) {
    && at + CMD_SIZE <= |file| && CmdSize(file, at) == CMD_SIZE
    && Read32(file, at) == LC_SEGMENT_64 && Read32(file, at + 64) == 1
    && Readable(file, at, true) && CommandAt(file, at, true) == Seg64(seg)
    && Readable(file, at, false) && CommandAt(file, at, false) == Seg64(seg.(sects := []))
  }

  lemma FieldsReadBack(file: File, at: nat, fs: seq<Field>, xs: seq<Field>, seg: Segment)
    requires |seg.sects| == 1 && IsSegment64(fs, seg, CMD_SIZE) && IsSection64(xs, seg.sects[0])
    requires Holds(file, at, fs) && Holds(file, at + SEG64_SIZE, xs)
    ensures ReadsBack(file, at, seg)
  {
    Header64ReadBack(file, at, fs, seg, CMD_SIZE);
    Section64ReadBack(file, at + SEG64_SIZE, xs, seg.sects[0]);
    Segment64ReadBack(file, at, fs, [xs], seg, CMD_SIZE);
    assert CommandAt(file, at, false).seg.sects == [];
  }

  lemma CommandReadsBack(cs: seq<Chunk>, file: File, k: nat)
    requires Fit(cs) && file == Assemble(cs) && k < |cs|
    ensures ReadsBack(file, CommandOff(k), SegmentOf(cs, k))
  {
    var seg := SegmentOf(cs, k);
    ChunkPlace(cs, file, k);
    StructureSizes(seg);
    MatchesSplit(file, CommandOff(k), Put(SegmentFields(seg)), Put(SectionFields(seg.sects[0])));
    FieldsReadBack(file, CommandOff(k), SegmentFields(seg), SectionFields(seg.sects[0]), seg);
  }

  /** What the given mode reads of a segment. */
  function InMode(seg: Segment, useSections: bool): Segment {
    if useSections then seg else seg.(sects := [])
  }

  /** A segment that is exactly its one section maps alike in both modes. */
  lemma SegmentMapping(seg: Segment, useSections: bool)
    requires seg.sects == [Section(seg.vmaddr, seg.filesize, 0)] && seg.filesize > 0 && !Wraps(TWO64, seg)
    ensures Range(Seg64(InMode(seg, useSections)), useSections) == Mapped(seg.vmaddr, seg.fileoff, seg.filesize)
  {
    var mode := InMode(seg, useSections);
    if useSections {
      var x := seg.sects[0];
      assert forall y :: Backed(seg.sects, y) <==> y == x;
      assert Inside(seg, x);
      SectionModeMeaning(TWO64, mode);
      SectionModeNeverWraps(TWO64, mode);
    } else {
      SegmentModeMeaning(TWO64, mode);
    }
  }

  // --------------------------------------------------------------------------- the walk

  function Offs(n: nat): seq<nat> {
    seq(n, k requires 0 <= k < n => CommandOff(k))
  }

  function Cmds(cs: seq<Chunk>, useSections: bool): (r: seq<Command>)
    requires Fit(cs)
  {
    seq<Command>(|cs|, k requires 0 <= k < |cs| => Seg64(InMode(SegmentOf(cs, k), useSections)))
  }

  ghost predicate AllReadBack(cs: seq<Chunk>, file: File)
    requires Fit(cs)
  {
    |file| == FileOff(cs, |cs|) && forall k :: 0 <= k < |cs| ==> ReadsBack(file, CommandOff(k), SegmentOf(cs, k))
  }

  lemma {:induction false} FormattedFrom(cs: seq<Chunk>, file: File, k: nat)
    requires Fit(cs) && AllReadBack(cs, file) && k <= |cs|
    ensures Formatted(file, CommandOff(k), CommandOff(|cs|))
    decreases |cs| - k
  {
    if k < |cs| {
      assert ReadsBack(file, CommandOff(k), SegmentOf(cs, k));
      assert CommandOff(k) + CMD_SIZE == CommandOff(k + 1);
      FormattedFrom(cs, file, k + 1);
    }
  }

  /** Command k lies inside the file and has the size of a command with one section. */
  ghost predicate Stride(file: File, k: nat) {
    CommandOff(k) + CMD_SIZE <= |file| && CmdSize(file, CommandOff(k)) == CMD_SIZE
  }

  lemma {:induction false} TilesFromTo(file: File, n: nat, k: nat)
    requires CommandOff(n) <= |file| && (forall i :: 0 <= i < n ==> Stride(file, i)) && k <= n
    ensures Tiles(file, Offs(n)[k..], CommandOff(k), CommandOff(n))
    decreases n - k
  {
    if k < n {
      assert CommandOff(k) + CMD_SIZE == CommandOff(k + 1) <= CommandOff(n);
      assert Stride(file, k);
      TilesFromTo(file, n, k + 1);
      assert Offs(n)[k..][0] == CommandOff(k) && Offs(n)[k..][1..] == Offs(n)[k + 1..];
    }
  }

  function AssembledTrace(cs: seq<Chunk>, useSections: bool): Trace
    requires Fit(cs)
  {
    Trace(Offs(|cs|), Cmds(cs, useSections), None)
  }

  lemma AssembledWellFormed(cs: seq<Chunk>, file: File, useSections: bool)
    requires Fit(cs) && AllReadBack(cs, file)
    ensures WellFormed(file, HDR64_SIZE, CommandOff(|cs|), useSections)
  {
    FormattedFrom(cs, file, 0);
    FormattedIsWellFormed(file, HDR64_SIZE, CommandOff(|cs|), useSections);
  }

  lemma AssembledTiles(cs: seq<Chunk>, file: File)
    requires Fit(cs) && AllReadBack(cs, file)
    ensures Tiles(file, Offs(|cs|), HDR64_SIZE, CommandOff(|cs|))
  {
    forall k | 0 <= k < |cs| ensures Stride(file, k) {
      assert ReadsBack(file, CommandOff(k), SegmentOf(cs, k));
    }
    TilesFromTo(file, |cs|, 0);
    assert Offs(|cs|)[0..] == Offs(|cs|);
  }

  lemma CommandInMode(cs: seq<Chunk>, file: File, k: nat, useSections: bool)
    requires Fit(cs) && AllReadBack(cs, file) && k < |cs|
    ensures CommandOff(k) + LC_SIZE <= CommandOff(|cs|) <= |file| && Readable(file, CommandOff(k), useSections)
    ensures Cmds(cs, useSections)[k] == CommandAt(file, CommandOff(k), useSections)
  {
    assert ReadsBack(file, CommandOff(k), SegmentOf(cs, k));
  }

  lemma AssembledWalk(cs: seq<Chunk>, file: File, useSections: bool)
    requires Fit(cs) && AllReadBack(cs, file)
    ensures Walked(file, AssembledTrace(cs, useSections), HDR64_SIZE, CommandOff(|cs|), useSections)
  {
    AssembledTiles(cs, file);
    var t := AssembledTrace(cs, useSections);
    forall k | 0 <= k < |cs|
      ensures t.offs[k] + LC_SIZE <= CommandOff(|cs|) && Readable(file, t.offs[k], useSections)
      ensures t.cmds[k] == CommandAt(file, t.offs[k], useSections)
    {
      CommandInMode(cs, file, k, useSections);
    }
  }

  // -------------------------------------------------------------------------- the image

  function ChunkMapping(cs: seq<Chunk>, k: nat): Mapping
    requires k < |cs| && Fit(cs)
  {
    ChunkFits(cs, k);
    Mapping(cs[k].vmaddr, FileOff(cs, k), |cs[k].data|)
  }

  function ChunkMappings(cs: seq<Chunk>, n: nat): seq<Mapping>
    requires n <= |cs| && Fit(cs)
  {
    seq(n, k requires 0 <= k < n => ChunkMapping(cs, k))
  }

  lemma ChunkCommand(cs: seq<Chunk>, k: nat, useSections: bool)
    requires k < |cs| && Fit(cs)
    ensures var c := Cmds(cs, useSections)[k];
            && MappingOf(c, useSections) == Some(ChunkMapping(cs, k))
            && Acceptable(c, useSections, FileOff(cs, |cs|)) && !Wraps(TWO64, c.seg)
  {
    ChunkFits(cs, k);
    SegmentMapping(SegmentOf(cs, k), useSections);
  }

  lemma {:induction false} MappingsOfChunks(cs: seq<Chunk>, n: nat, useSections: bool)
    requires n <= |cs| && Fit(cs)
    ensures Mappings(Cmds(cs, useSections)[..n], useSections) == ChunkMappings(cs, n)
  {
    if n > 0 {
      var cmds := Cmds(cs, useSections);
      MappingsOfChunks(cs, n - 1, useSections);
      ChunkCommand(cs, n - 1, useSections);
      MappingsAppend(cmds[..n - 1], cmds[n - 1], useSections);
      assert cmds[..n] == cmds[..n - 1] + [cmds[n - 1]];
      OneMoreMapping(cs, n - 1);
    }
  }

  lemma OneMoreMapping(cs: seq<Chunk>, n: nat)
    requires n < |cs| && Fit(cs)
    ensures ChunkMappings(cs, n + 1) == ChunkMappings(cs, n) + [ChunkMapping(cs, n)]
  {
  }

  /** The mapping m copies the contents of c to the address of c. */
  ghost predicate Restores(file: File, m: Mapping, c: Chunk) {
    m.addr == c.vmaddr && m.size == |c.data| && Matches(file, m.off, c.data)
  }

  lemma {:induction false} MemoryInFile(cs: seq<Chunk>, ms: seq<Mapping>, file: File, n: nat, a: int)
    requires AllInFile(ms, |file|) && n <= |cs| == |ms|
    requires forall k :: 0 <= k < |cs| ==> Restores(file, ms[k], cs[k])
    ensures ByteUpTo(file, ms, n, a) == Memory(cs, n, a)
  {
    if n > 0 {
      MemoryInFile(cs, ms, file, n - 1, a);
      assert Restores(file, ms[n - 1], cs[n - 1]);
    }
  }

  lemma ChunksInAddressSpace(cs: seq<Chunk>)
    requires Fit(cs)
    ensures AllInAddressSpace(ChunkMappings(cs, |cs|))
  {
    forall m | m in ChunkMappings(cs, |cs|) ensures m.InAddressSpace() {
      var k :| 0 <= k < |cs| && ChunkMappings(cs, |cs|)[k] == m;
      ChunkFits(cs, k);
    }
  }

  lemma ChunksAcceptable(cs: seq<Chunk>, useSections: bool)
    requires Fit(cs)
    ensures AllAcceptable(Cmds(cs, useSections), useSections, FileOff(cs, |cs|))
    ensures forall c <- Cmds(cs, useSections) :: c.Seg64? && !Wraps(TWO64, c.seg)
  {
    forall c | c in Cmds(cs, useSections)
      ensures Acceptable(c, useSections, FileOff(cs, |cs|)) && c.Seg64? && !Wraps(TWO64, c.seg)
    {
      var k :| 0 <= k < |cs| && Cmds(cs, useSections)[k] == c;
      ChunkCommand(cs, k, useSections);
    }
  }

  lemma AllMappings(cs: seq<Chunk>, useSections: bool)
    requires Fit(cs)
    ensures Mappings(Cmds(cs, useSections), useSections) == ChunkMappings(cs, |cs|)
  {
    MappingsOfChunks(cs, |cs|, useSections);
    assert Cmds(cs, useSections)[..|cs|] == Cmds(cs, useSections);
  }

  /** The mappings and the hull of an assembled file. */
  lemma AssembledLoads(cs: seq<Chunk>, file: File, useSections: bool)
    requires Fit(cs) && |file| == FileOff(cs, |cs|)
    ensures Load(file, Cmds(cs, useSections), useSections).Some?
  {
    AllMappings(cs, useSections);
    ChunksAcceptable(cs, useSections);
    ChunksInAddressSpace(cs);
    SurveyMeaning(Cmds(cs, useSections), useSections, |file|);
    TightHull(Cmds(cs, useSections), useSections, |file|);
  }

  /** l.base is the least chunk address and the image ends where the last chunk ends. */
  ghost predicate SpansChunks(l: Loaded, cs: seq<Chunk>) {
    && (exists c <- cs :: c.vmaddr == l.base)
    && (exists c <- cs :: c.vmaddr + |c.data| == l.base + |l.bytes|)
    && (forall c <- cs :: l.base <= c.vmaddr && c.vmaddr + |c.data| <= l.base + |l.bytes|)
  }

  lemma ExtentOfChunks(cs: seq<Chunk>, l: Loaded)
    requires Fit(cs) && l.base + |l.bytes| < TWO64 && IsExtent(ChunkMappings(cs, |cs|), l.base, l.base + |l.bytes|)
    ensures SpansChunks(l, cs)
  {
    var ms := ChunkMappings(cs, |cs|);
    var i :| 0 <= i < |cs| && ms[i].addr == l.base;
    var j :| 0 <= j < |cs| && Add(TWO64, ms[j].addr, ms[j].size) == l.base + |l.bytes|;
    ChunkFits(cs, j);
    assert cs[i] in cs && cs[j] in cs;
    forall c | c in cs ensures l.base <= c.vmaddr && c.vmaddr + |c.data| <= l.base + |l.bytes| {
      var k :| 0 <= k < |cs| && cs[k] == c;
      ChunkFits(cs, k);
      assert ms[k] in ms;
    }
  }

  /** The file has the header, the commands and the contents of the chunks in their places. */
  ghost predicate Holding(cs: seq<Chunk>, file: File)
    requires Fit(cs)
  {
    && HeaderReadable(file) && CommandArea(file) == Success(Area(HDR64_SIZE, CommandOff(|cs|)))
    && AllReadBack(cs, file)
    && forall k :: 0 <= k < |cs| ==> Matches(file, FileOff(cs, k), cs[k].data)
  }

  lemma AssembledArea(cs: seq<Chunk>, file: File)
    requires Fit(cs) && file == Assemble(cs)
    ensures HeaderReadable(file) && CommandArea(file) == Success(Area(HDR64_SIZE, CommandOff(|cs|)))
    ensures |file| == FileOff(cs, |cs|)
  {
    Parts(cs, file);
    HeaderReadBack(file, HeaderFields(CMD_SIZE * |cs|), CMD_SIZE * |cs|);
  }

  lemma AssembledHolds(cs: seq<Chunk>, file: File)
    requires Fit(cs) && file == Assemble(cs)
    ensures Holding(cs, file)
  {
    AssembledArea(cs, file);
    forall k | 0 <= k < |cs|
      ensures ReadsBack(file, CommandOff(k), SegmentOf(cs, k)) && Matches(file, FileOff(cs, k), cs[k].data)
    {
      CommandReadsBack(cs, file, k);
      ChunkPlace(cs, file, k);
    }
  }

  /** The tool can be run on an assembled file in both modes and accepts it. */
  lemma AssembledAccepted(cs: seq<Chunk>, file: File, useSections: bool)
    requires Fit(cs) && Holding(cs, file)
    ensures Usable(file, useSections) && Visited(file, useSections) == AssembledTrace(cs, useSections)
    ensures Load(file, Cmds(cs, useSections), useSections).Some?
    ensures Outcome(file, useSections) == Success(Load(file, Cmds(cs, useSections), useSections).value)
  {
    AssembledWellFormed(cs, file, useSections);
    AssembledLoadable(cs, file, useSections);
    Pass1Meaning(file, Area(HDR64_SIZE, CommandOff(|cs|)), useSections);
  }

  lemma AssembledLoadable(cs: seq<Chunk>, file: File, useSections: bool)
    requires Fit(cs) && AllReadBack(cs, file)
    ensures Loadable(file, Area(HDR64_SIZE, CommandOff(|cs|)), AssembledTrace(cs, useSections), useSections)
  {
    AssembledWalk(cs, file, useSections);
    AssembledLoads(cs, file, useSections);
    ChunksAcceptable(cs, useSections);
    LayoutMeaning(Cmds(cs, useSections), useSections, |file|);
  }

  lemma AssembledByte(cs: seq<Chunk>, file: File, useSections: bool, a: int)
    requires Fit(cs) && Load(file, Cmds(cs, useSections), useSections).Some?
    requires var l := Load(file, Cmds(cs, useSections), useSections).value; l.base <= a < l.base + |l.bytes|
    requires forall k :: 0 <= k < |cs| ==> Matches(file, FileOff(cs, k), cs[k].data)
    ensures At(Load(file, Cmds(cs, useSections), useSections).value, a) == Memory(cs, |cs|, a)
  {
    var ms := ChunkMappings(cs, |cs|);
    AllMappings(cs, useSections);
    LoadByte(file, Cmds(cs, useSections), useSections, a);
    forall k | 0 <= k < |cs| ensures Restores(file, ms[k], cs[k]) {
      assert Matches(file, FileOff(cs, k), cs[k].data);
    }
    MemoryInFile(cs, ms, file, |cs|, a);
  }

  /** The extent and the bytes of the image of an assembled file. */
  lemma AssembledImage(cs: seq<Chunk>, file: File, useSections: bool, l: Loaded)
    requires Fit(cs) && Load(file, Cmds(cs, useSections), useSections) == Some(l)
    requires forall k :: 0 <= k < |cs| ==> Matches(file, FileOff(cs, k), cs[k].data)
    ensures RestoresChunks(cs, l)
  {
    AllMappings(cs, useSections);
    LoadHull(file, Cmds(cs, useSections), useSections);
    ExtentOfChunks(cs, l);
    forall a | l.base <= a < l.base + |l.bytes| ensures At(l, a) == Memory(cs, |cs|, a) {
      AssembledByte(cs, file, useSections, a);
    }
  }

  lemma HoldingUnwrapped(cs: seq<Chunk>, file: File, useSections: bool)
    requires Fit(cs) && Holding(cs, file)
    ensures Usable(file, useSections) && Unwrapped(file, useSections)
  {
    AssembledAccepted(cs, file, useSections);
    ChunksAcceptable(cs, useSections);
  }

  lemma HoldingImage(cs: seq<Chunk>, file: File, useSections: bool)
    requires Fit(cs) && Holding(cs, file)
    ensures Usable(file, useSections) && Outcome(file, useSections).Success?
    ensures RestoresChunks(cs, Outcome(file, useSections).value)
  {
    AssembledAccepted(cs, file, useSections);
    AssembledImage(cs, file, useSections, Outcome(file, useSections).value);
  }

  /** The image spans exactly the chunks and holds the memory that they describe. */
  ghost predicate RestoresChunks(cs: seq<Chunk>, l: Loaded) {
    && SpansChunks(l, cs)
    && forall a :: l.base <= a < l.base + |l.bytes| ==> At(l, a) == Memory(cs, |cs|, a)
  }

  /**
   Converting an assembled file gives back the memory that the chunks describe:
   the image spans exactly the chunks and holds, at every address, the byte of
   the last chunk there and 0 between chunks, in section mode as in segment mode.
   */
  lemma AssemblyRoundTrip(cs: seq<Chunk>, file: File, useSections: bool)
    requires Fit(cs) && file == Assemble(cs)
    ensures Usable(file, useSections) && Unwrapped(file, useSections)
    ensures Outcome(file, useSections).Success?
    ensures RestoresChunks(cs, Outcome(file, useSections).value)
  {
    AssembledHolds(cs, file);
    HoldingUnwrapped(cs, file, useSections);
    HoldingImage(cs, file, useSections);
  }
}
