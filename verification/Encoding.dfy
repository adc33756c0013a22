/**
 The structures of the file format as lists of fields, and the proof that the
 fixed offsets of the readers fetch the fields they are meant to fetch.
 */
module Encoding {
  import opened Wrappers
  import opened Words
  import opened Segments
  import opened Walk

  /** A 32-bit or 64-bit field, or a run of bytes that the tool does not look at. */
  datatype Field = U32(v: u32) | U64(w: u64) | Unread(bytes: seq<u8>)

  function Put32(v: u32): (r: seq<u8>)
    ensures |r| == 4
  {
    [v % 0x100, v / 0x100 % 0x100, v / 0x1_0000 % 0x100, v / 0x100_0000]
  }

  function Put64(w: u64): (r: seq<u8>)
    ensures |r| == 8
  {
    Put32(w % TWO32) + Put32(w / TWO32)
  }

  function PutField(f: Field): seq<u8> {
    match f
    case U32(v) => Put32(v)
    case U64(w) => Put64(w)
    case Unread(bytes) => bytes
  }

  /** The bytes of the first n fields. */
  function PutUpTo(fields: seq<Field>, n: nat): seq<u8>
    requires n <= |fields|
  {
    if n == 0 then [] else PutUpTo(fields, n - 1) + PutField(fields[n - 1])
  }

  function Put(fields: seq<Field>): seq<u8> {
    PutUpTo(fields, |fields|)
  }

  function FieldWidth(f: Field): nat {
    match f
    case U32(_) => 4
    case U64(_) => 8
    case Unread(bytes) => |bytes|
  }

  /** Where field k starts; for k == |fields|, the size of the structure. */
  function Offset(fields: seq<Field>, k: nat): nat
    requires k <= |fields|
  {
    if k == 0 then 0 else Offset(fields, k - 1) + FieldWidth(fields[k - 1])
  }

  /** The file holds these bytes at the offset `at`. */
  ghost predicate Matches(file: seq<u8>, at: nat, bytes: seq<u8>) {
    at + |bytes| <= |file| && forall i :: 0 <= i < |bytes| ==> file[at + i] == bytes[i]
  }

  /** The file holds the structure at the offset `at`. */
  ghost predicate Holds(file: seq<u8>, at: nat, fields: seq<Field>) {
    Matches(file, at, Put(fields))
  }

  lemma MatchesSplit(file: seq<u8>, at: nat, s: seq<u8>, t: seq<u8>)
    requires Matches(file, at, s + t)
    ensures Matches(file, at, s) && Matches(file, at + |s|, t)
  {
    forall i | 0 <= i < |s| ensures file[at + i] == s[i] {
      assert (s + t)[i] == s[i];
    }
    forall i | 0 <= i < |t| ensures file[at + |s| + i] == t[i] {
      assert (s + t)[|s| + i] == t[i];
    }
  }

  lemma Put32Sum(v: u32)
    ensures v % 0x100 + 0x100 * (v / 0x100 % 0x100) + 0x1_0000 * (v / 0x1_0000 % 0x100) +
            0x100_0000 * (v / 0x100_0000) == v
  {
    assert v / 0x1_0000 == v / 0x100 / 0x100 && v / 0x100_0000 == v / 0x1_0000 / 0x100;
  }

  lemma Read32Of(file: seq<u8>, at: nat, v: u32)
    requires Matches(file, at, Put32(v))
    ensures Read32(file, at) == v
  {
    var b := Put32(v);
    assert file[at + 0] == b[0] && file[at + 1] == b[1] && file[at + 2] == b[2] && file[at + 3] == b[3];
    Put32Sum(v);
  }

  lemma Read64Of(file: seq<u8>, at: nat, w: u64)
    requires Matches(file, at, Put64(w))
    ensures Read64(file, at) == w
  {
    MatchesSplit(file, at, Put32(w % TWO32), Put32(w / TWO32));
    Read32Of(file, at, w % TWO32);
    Read32Of(file, at + 4, w / TWO32);
  }

  /** What is read at the offset `at` is the field f. */
  ghost predicate ReadsAs(file: seq<u8>, at: nat, f: Field) {
    && at + FieldWidth(f) <= |file|
    && match f
       case U32(v) => Read32(file, at) == v
       case U64(w) => Read64(file, at) == w
       case Unread(_) => true
  }

  lemma OneField(file: seq<u8>, at: nat, f: Field)
    requires Matches(file, at, PutField(f))
    ensures ReadsAs(file, at, f)
  {
    match f
    case U32(v) => Read32Of(file, at, v);
    case U64(w) => Read64Of(file, at, w);
    case Unread(_) =>
  }

  lemma {:induction false} PutLength(fields: seq<Field>, n: nat)
    requires n <= |fields|
    ensures |PutUpTo(fields, n)| == Offset(fields, n)
  {
    if n > 0 {
      PutLength(fields, n - 1);
    }
  }

  /** Field k of the first n fields of a structure in a file is read back at its offset. */
  lemma {:induction false} FieldUpTo(file: seq<u8>, at: nat, fields: seq<Field>, n: nat, k: nat)
    requires k < n <= |fields| && Matches(file, at, PutUpTo(fields, n))
    ensures ReadsAs(file, at + Offset(fields, k), fields[k])
  {
    PutLength(fields, n - 1);
    MatchesSplit(file, at, PutUpTo(fields, n - 1), PutField(fields[n - 1]));
    if k < n - 1 {
      FieldUpTo(file, at, fields, n - 1, k);
    } else {
      OneField(file, at + Offset(fields, k), fields[k]);
    }
  }

  /** Every field of a structure in a file is read back at its offset. */
  lemma FieldAt(file: seq<u8>, at: nat, fields: seq<Field>, k: nat)
    requires Holds(file, at, fields) && k < |fields|
    ensures ReadsAs(file, at + Offset(fields, k), fields[k])
  {
    FieldUpTo(file, at, fields, |fields|, k);
  }

  // ------------------------------------------------------ sections, in declaration order

  /** section: names, addr, size, offset, align, reloff, nreloc, flags, two reserved words. */
  ghost predicate IsSection32(fs: seq<Field>, x: Section) {
    && |fs| == 6 && fs[0].Unread? && |fs[0].bytes| == 16 + 16
    && fs[1].U32? && fs[1].v == x.addr
    && fs[2].U32? && fs[2].v == x.size
    && fs[3].Unread? && |fs[3].bytes| == 4 * 4
    && fs[4] == U32(x.flags) && fs[5].Unread? && |fs[5].bytes| == 2 * 4
  }

  /** section_64: the same with 64-bit addr and size and three reserved words. */
  ghost predicate IsSection64(fs: seq<Field>, x: Section) {
    && |fs| == 6 && fs[0].Unread? && |fs[0].bytes| == 16 + 16
    && fs[1] == U64(x.addr) && fs[2] == U64(x.size)
    && fs[3].Unread? && |fs[3].bytes| == 4 * 4
    && fs[4] == U32(x.flags) && fs[5].Unread? && |fs[5].bytes| == 3 * 4
  }

  lemma Section32ReadBack(file: File, at: nat, fs: seq<Field>, x: Section)
    requires IsSection32(fs, x) && Holds(file, at, fs)
    ensures |Put(fs)| == SECT32_SIZE && Section32At(file, at) == x
  {
    assert Offset(fs, 1) == 32 && Offset(fs, 2) == 36 && Offset(fs, 3) == 40 && Offset(fs, 4) == 56;
    assert Offset(fs, 5) == 60 && Offset(fs, 6) == 68;
    PutLength(fs, |fs|);
    FieldAt(file, at, fs, 1);
    FieldAt(file, at, fs, 2);
    FieldAt(file, at, fs, 4);
  }

  lemma SectionOffsets64(fs: seq<Field>, x: Section)
    requires IsSection64(fs, x)
    ensures Offset(fs, 1) == 32 && Offset(fs, 2) == 40 && Offset(fs, 4) == 64 && Offset(fs, 6) == 80
  {
    assert Offset(fs, 1) == 32 && Offset(fs, 2) == 40 && Offset(fs, 3) == 48 && Offset(fs, 4) == 64;
    assert Offset(fs, 5) == 68 && Offset(fs, 6) == 80;
  }

  lemma Section64ReadBack(file: File, at: nat, fs: seq<Field>, x: Section)
    requires IsSection64(fs, x) && Holds(file, at, fs)
    ensures |Put(fs)| == SECT64_SIZE && Section64At(file, at) == x
  {
    SectionOffsets64(fs, x);
    PutLength(fs, |fs|);
    FieldAt(file, at, fs, 1);
    FieldAt(file, at, fs, 2);
    FieldAt(file, at, fs, 4);
  }

  // ------------------------------------------------------ segments, in declaration order

  /** segment_command: cmd, cmdsize, segname, vmaddr, vmsize, fileoff, filesize, two protections, nsects, flags. */
  ghost predicate IsSegment32(fs: seq<Field>, seg: Segment, cmdsize: u32) {
    && |fs| == 10
    && fs[0] == U32(0x1) && fs[1] == U32(cmdsize)
    && fs[2].Unread? && |fs[2].bytes| == 16
    && fs[3].U32? && fs[3].v == seg.vmaddr && fs[4].U32?
    && fs[5].U32? && fs[5].v == seg.fileoff && fs[6].U32? && fs[6].v == seg.filesize
    && fs[7].Unread? && |fs[7].bytes| == 2 * 4
    && fs[8].U32? && fs[8].v == |seg.sects| && fs[9].U32?
  }

  /** segment_command_64: the same with 64-bit addresses, offsets and sizes. */
  ghost predicate IsSegment64(fs: seq<Field>, seg: Segment, cmdsize: u32) {
    && |fs| == 10
    && fs[0] == U32(0x19) && fs[1] == U32(cmdsize)
    && fs[2].Unread? && |fs[2].bytes| == 16
    && fs[3] == U64(seg.vmaddr) && fs[4].U64?
    && fs[5] == U64(seg.fileoff) && fs[6] == U64(seg.filesize)
    && fs[7].Unread? && |fs[7].bytes| == 2 * 4
    && fs[8].U32? && fs[8].v == |seg.sects| && fs[9].U32?
  }

  lemma Offsets32(fs: seq<Field>, seg: Segment, cmdsize: u32)
    requires IsSegment32(fs, seg, cmdsize)
    ensures Offset(fs, 1) == 4
    ensures Offset(fs, 3) == 24
    ensures Offset(fs, 5) == 32
    ensures Offset(fs, 6) == 36
    ensures Offset(fs, 8) == 48
    ensures Offset(fs, 10) == 56
  {
    assert Offset(fs, 1) == 4 && Offset(fs, 2) == 8 && Offset(fs, 3) == 24 && Offset(fs, 4) == 28;
    assert Offset(fs, 5) == 32 && Offset(fs, 6) == 36 && Offset(fs, 7) == 40 && Offset(fs, 8) == 48;
    assert Offset(fs, 9) == 52 && Offset(fs, 10) == 56;
  }

  lemma Header32ReadBack(file: File, cmd: nat, fs: seq<Field>, seg: Segment, cmdsize: u32)
    requires IsSegment32(fs, seg, cmdsize) && Holds(file, cmd, fs)
    ensures |Put(fs)| == SEG32_SIZE && cmd + SEG32_SIZE <= |file|
    ensures Read32(file, cmd) == LC_SEGMENT && CmdSize(file, cmd) == cmdsize
    ensures Read32(file, cmd + 24) == seg.vmaddr && Read32(file, cmd + 32) == seg.fileoff
    ensures Read32(file, cmd + 36) == seg.filesize && Read32(file, cmd + 48) == |seg.sects|
  {
    Offsets32(fs, seg, cmdsize);
    PutLength(fs, |fs|);
    FieldAt(file, cmd, fs, 0);
    FieldAt(file, cmd, fs, 1);
    FieldAt(file, cmd, fs, 3);
    FieldAt(file, cmd, fs, 5);
    FieldAt(file, cmd, fs, 6);
    FieldAt(file, cmd, fs, 8);
  }

  lemma Offsets64(fs: seq<Field>, seg: Segment, cmdsize: u32)
    requires IsSegment64(fs, seg, cmdsize)
    ensures Offset(fs, 1) == 4
    ensures Offset(fs, 3) == 24
    ensures Offset(fs, 5) == 40
    ensures Offset(fs, 6) == 48
    ensures Offset(fs, 8) == 64
    ensures Offset(fs, 10) == 72
  {
    assert Offset(fs, 1) == 4 && Offset(fs, 2) == 8 && Offset(fs, 3) == 24 && Offset(fs, 4) == 32;
    assert Offset(fs, 5) == 40 && Offset(fs, 6) == 48 && Offset(fs, 7) == 56 && Offset(fs, 8) == 64;
    assert Offset(fs, 9) == 68 && Offset(fs, 10) == 72;
  }

  lemma Header64ReadBack(file: File, cmd: nat, fs: seq<Field>, seg: Segment, cmdsize: u32)
    requires IsSegment64(fs, seg, cmdsize) && Holds(file, cmd, fs)
    ensures |Put(fs)| == SEG64_SIZE && cmd + SEG64_SIZE <= |file|
    ensures Read32(file, cmd) == LC_SEGMENT_64 && CmdSize(file, cmd) == cmdsize
    ensures Read64(file, cmd + 24) == seg.vmaddr && Read64(file, cmd + 40) == seg.fileoff
    ensures Read64(file, cmd + 48) == seg.filesize && Read32(file, cmd + 64) == |seg.sects|
  {
    Offsets64(fs, seg, cmdsize);
    PutLength(fs, |fs|);
    FieldAt(file, cmd, fs, 0);
    FieldAt(file, cmd, fs, 1);
    FieldAt(file, cmd, fs, 3);
    FieldAt(file, cmd, fs, 5);
    FieldAt(file, cmd, fs, 6);
    FieldAt(file, cmd, fs, 8);
  }

  /** The section structures of the segment follow one after the other at `at`. */
  ghost predicate Sections32Follow(file: File, at: nat, sects: seq<Section>, fss: seq<seq<Field>>) {
    && |fss| == |sects|
    && forall i :: 0 <= i < |sects| ==>
         IsSection32(fss[i], sects[i]) && Holds(file, at + SECT32_SIZE * i, fss[i])
  }

  ghost predicate Sections64Follow(file: File, at: nat, sects: seq<Section>, fss: seq<seq<Field>>) {
    && |fss| == |sects|
    && forall i :: 0 <= i < |sects| ==>
         IsSection64(fss[i], sects[i]) && Holds(file, at + SECT64_SIZE * i, fss[i])
  }

  lemma SectionNo32(file: File, at: nat, sects: seq<Section>, fss: seq<seq<Field>>, i: nat)
    requires Sections32Follow(file, at, sects, fss) && i < |sects|
    ensures at + SECT32_SIZE * i + SECT32_SIZE <= |file|
    ensures Section32At(file, at + SECT32_SIZE * i) == sects[i]
    ensures sects[i].addr < TWO32 && sects[i].size < TWO32
  {
    Section32ReadBack(file, at + SECT32_SIZE * i, fss[i], sects[i]);
  }

  lemma Sections32Read(file: File, cmd: nat, sects: seq<Section>, fss: seq<seq<Field>>)
    requires cmd + SEG32_SIZE <= |file| && Sections32Follow(file, cmd + SEG32_SIZE, sects, fss)
    ensures Segment32At(file, cmd, |sects|).sects == sects
  {
    var n := |sects|;
    if n > 0 {
      SectionNo32(file, cmd + SEG32_SIZE, sects, fss, n - 1);
    }
    forall i | 0 <= i < n ensures Segment32At(file, cmd, n).sects[i] == sects[i] {
      SectionNo32(file, cmd + SEG32_SIZE, sects, fss, i);
    }
  }

  /** Segment mode reads the header of a segment command and none of its sections. */
  lemma Segment32HeaderReadBack(file: File, cmd: nat, fs: seq<Field>, seg: Segment, cmdsize: u32)
    requires IsSegment32(fs, seg, cmdsize) && Holds(file, cmd, fs)
    ensures cmd + LC_SIZE <= |file| && Readable(file, cmd, false)
    ensures CommandAt(file, cmd, false) == Seg32(seg.(sects := []))
  {
    Header32ReadBack(file, cmd, fs, seg, cmdsize);
    assert CommandAt(file, cmd, false).seg.sects == [];
  }

  /** A segment command with its sections in a file is the command that each mode reads there. */
  lemma Segment32ReadBack(file: File, cmd: nat, fs: seq<Field>, fss: seq<seq<Field>>, seg: Segment, cmdsize: u32)
    requires IsSegment32(fs, seg, cmdsize) && Holds(file, cmd, fs)
    requires Sections32Follow(file, cmd + SEG32_SIZE, seg.sects, fss)
    ensures seg.Fits(TWO32) && cmd + LC_SIZE <= |file| && Readable(file, cmd, true) && Readable(file, cmd, false)
    ensures CommandAt(file, cmd, true) == Seg32(seg)
    ensures CommandAt(file, cmd, false) == Seg32(seg.(sects := []))
  {
    Header32ReadBack(file, cmd, fs, seg, cmdsize);
    Sections32Read(file, cmd, seg.sects, fss);
    Segment32HeaderReadBack(file, cmd, fs, seg, cmdsize);
    assert Segment32At(file, cmd, |seg.sects|) == seg;
  }

  lemma SectionNo64(file: File, at: nat, sects: seq<Section>, fss: seq<seq<Field>>, i: nat)
    requires Sections64Follow(file, at, sects, fss) && i < |sects|
    ensures at + SECT64_SIZE * i + SECT64_SIZE <= |file|
    ensures Section64At(file, at + SECT64_SIZE * i) == sects[i]
    ensures sects[i].addr < TWO64 && sects[i].size < TWO64
  {
    Section64ReadBack(file, at + SECT64_SIZE * i, fss[i], sects[i]);
  }

  lemma Sections64Read(file: File, cmd: nat, sects: seq<Section>, fss: seq<seq<Field>>)
    requires cmd + SEG64_SIZE <= |file| && Sections64Follow(file, cmd + SEG64_SIZE, sects, fss)
    ensures Segment64At(file, cmd, |sects|).sects == sects
  {
    var n := |sects|;
    if n > 0 {
      SectionNo64(file, cmd + SEG64_SIZE, sects, fss, n - 1);
    }
    forall i | 0 <= i < n ensures Segment64At(file, cmd, n).sects[i] == sects[i] {
      SectionNo64(file, cmd + SEG64_SIZE, sects, fss, i);
    }
  }

  /** Segment mode reads the header of a segment command and none of its sections. */
  lemma Segment64HeaderReadBack(file: File, cmd: nat, fs: seq<Field>, seg: Segment, cmdsize: u32)
    requires IsSegment64(fs, seg, cmdsize) && Holds(file, cmd, fs)
    ensures cmd + LC_SIZE <= |file| && Readable(file, cmd, false)
    ensures CommandAt(file, cmd, false) == Seg64(seg.(sects := []))
  {
    Header64ReadBack(file, cmd, fs, seg, cmdsize);
    assert CommandAt(file, cmd, false).seg.sects == [];
  }

  /** A segment command with its sections in a file is the command that each mode reads there. */
  lemma Segment64ReadBack(file: File, cmd: nat, fs: seq<Field>, fss: seq<seq<Field>>, seg: Segment, cmdsize: u32)
    requires IsSegment64(fs, seg, cmdsize) && Holds(file, cmd, fs)
    requires Sections64Follow(file, cmd + SEG64_SIZE, seg.sects, fss)
    ensures cmd + LC_SIZE <= |file| && Readable(file, cmd, true) && Readable(file, cmd, false)
    ensures CommandAt(file, cmd, true) == Seg64(seg)
    ensures CommandAt(file, cmd, false) == Seg64(seg.(sects := []))
  {
    Header64ReadBack(file, cmd, fs, seg, cmdsize);
    Sections64Read(file, cmd, seg.sects, fss);
    Segment64HeaderReadBack(file, cmd, fs, seg, cmdsize);
    assert Segment64At(file, cmd, |seg.sects|) == seg;
  }

  // ------------------------------------------------------------------------ header

  /**
   mach_header: magic, cputype, cpusubtype, filetype, ncmds, sizeofcmds, flags;
   64-bit ones end in a reserved word.
   */
  ghost predicate IsHeader(fs: seq<Field>, sizeofcmds: u32) {
    && |fs| == 8 && fs[0].U32? && fs[0].v in {0xfeedface, 0xfeedfacf}
    && fs[1].U32? && fs[2].U32? && fs[3].U32? && fs[4].U32?
    && fs[5] == U32(sizeofcmds) && fs[6].U32?
    && fs[7].Unread? && |fs[7].bytes| == if fs[0].v == 0xfeedface then 0 else 4
  }

  lemma HeaderOffsets(fs: seq<Field>, sizeofcmds: u32)
    requires IsHeader(fs, sizeofcmds)
    ensures Offset(fs, 5) == 20 && Offset(fs, 8) == 28 + |fs[7].bytes|
  {
    assert Offset(fs, 1) == 4 && Offset(fs, 2) == 8 && Offset(fs, 3) == 12 && Offset(fs, 4) == 16;
    assert Offset(fs, 5) == 20 && Offset(fs, 6) == 24 && Offset(fs, 7) == 28 && Offset(fs, 8) == 28 + |fs[7].bytes|;
  }

  /** A file with a header and room for sizeofcmds bytes has its command area right behind the header. */
  lemma HeaderReadBack(file: File, fs: seq<Field>, sizeofcmds: u32)
    requires IsHeader(fs, sizeofcmds) && Holds(file, 0, fs)
    ensures HeaderReadable(file)
    ensures CommandArea(file) ==
            if |Put(fs)| + sizeofcmds <= |file| then Success(Area(|Put(fs)|, |Put(fs)| + sizeofcmds))
            else Failure(TooShortForCommands)
  {
    HeaderOffsets(fs, sizeofcmds);
    PutLength(fs, |fs|);
    FieldAt(file, 0, fs, 0);
    FieldAt(file, 0, fs, 5);
  }
}
