/**
 The two passes over the load commands of a file: validate and measure, then
 copy into a zeroed buffer. Pass 2 checks nothing; pass 1 is what makes it safe.
 */
module Loader {
  import opened Wrappers
  import opened Words
  import opened Segments
  import opened Layout
  import opened Image
  import opened Walk

  // ------------------------------------------------------------- specification

  /** What the code takes for granted about a file. */
  ghost predicate Usable(file: File, useSections: bool) {
    && HeaderReadable(file)
    && (CommandArea(file).Success? ==>
          var area := CommandArea(file).value; WellFormed(file, area.first, area.end, useSections))
  }

  /** The commands that pass 1 visits in a file with a command area. */
  ghost function Visited(file: File, useSections: bool): Trace
    requires Usable(file, useSections) && CommandArea(file).Success?
  {
    var area := CommandArea(file).value;
    TraceFrom(file, area.first, area.end, useSections)
  }

  /** The image of a file, or the first error. */
  ghost function Outcome(file: File, useSections: bool): Result<Loaded, LoadError>
    requires Usable(file, useSections)
  {
    match CommandArea(file)
    case Failure(e) => Failure(e)
    case Success(area) =>
      match Pass1(file, area, useSections)
      case Failure(e) => Failure(e)
      case Success(_) =>
        Pass1Meaning(file, area, useSections);
        Success(Load(file, Visited(file, useSections).cmds, useSections).value)
  }

  /** In segment mode none of the commands is an LC_SEGMENT_64 that wraps. */
  ghost predicate NoneWraps(cmds: seq<Command>, useSections: bool) {
    !useSections ==> forall c <- cmds :: c.Seg64? ==> !Wraps(TWO64, c.seg)
  }

  /** An accepted file has no visited LC_SEGMENT_64 that wraps in segment mode. */
  ghost predicate Unwrapped(file: File, useSections: bool)
    requires Usable(file, useSections)
  {
    Outcome(file, useSections).Success? ==> NoneWraps(Visited(file, useSections).cmds, useSections)
  }

  // -------------------------------------------------------------------- passes

  /** The body of the loop of pass 1; ufile is the address of the file buffer. */
  method ValidateCommand(file: File, ufile: u64, cmd: nat, end: nat, useSections: bool, h: Surveyed)
      returns (r: Result<Surveyed, LoadError>)
    requires cmd < end <= |file| && WellFormed(file, cmd, end, useSections) && h.Hull?
    requires ufile + |file| + LC_SIZE < TWO64
    ensures if BadLC(file, cmd, end) then r == Failure(BadCommand(cmd))
            else
              match Step(h, Judge(CommandAt(file, cmd, useSections), useSections, |file|))
              case RangeError => r == Failure(RangeStatus2)
              case SegmentError => r == Failure(BadSegment(cmd))
              case Hull(lowest, highest) => r == Success(Hull(lowest, highest))
  {
    PointerTestMeaning(file, ufile, cmd, end);
    if
      || Add(TWO64, ufile + cmd, LC_SIZE) > ufile + end
      || Add(TWO64, ufile + cmd, CmdSize(file, cmd)) > ufile + end
      || Add(TWO64, ufile + cmd, CmdSize(file, cmd)) < ufile + cmd
    {
      return Failure(BadCommand(cmd));
    }
    var range := GetMappedSegmentRange(file, cmd, useSections);
    match range {
      case NotASegment =>
        return Success(h);
      case BadSection =>
        return Failure(RangeStatus2);
      case Mapped(start, fileoff, size) =>
        if size == 0 {
          return Success(h);
        }
        var off := Add(TWO64, fileoff, size);
        if off > |file| || off < fileoff {
          return Failure(BadSegment(cmd));
        }
        var lowest, highest := h.lowest, h.highest;
        if start < lowest {
          lowest := start;
        }
        var stop := Add(TWO64, start, size);
        if stop > highest {
          highest := stop;
        }
        return Success(Hull(lowest, highest));
    }
  }

  /** The offsets of a walk from `first` are those in `visited`, then those of the walk from cmd. */
  ghost predicate Behind(file: File, first: nat, cmd: nat, end: nat, useSections: bool, visited: seq<nat>)
    requires end <= |file| && WellFormed(file, first, end, useSections) && WellFormed(file, cmd, end, useSections)
  {
    TraceFrom(file, first, end, useSections).offs == visited + TraceFrom(file, cmd, end, useSections).offs
  }

  /** The walk at cmd goes on behind it, or has ended. */
  lemma BehindNext(file: File, first: nat, cmd: nat, end: nat, useSections: bool, visited: seq<nat>)
    requires end <= |file| && WellFormed(file, first, end, useSections) && WellFormed(file, cmd, end, useSections)
    requires Behind(file, first, cmd, end, useSections, visited)
    ensures if cmd < end && !BadLC(file, cmd, end) &&
               !Judge(CommandAt(file, cmd, useSections), useSections, |file|).Rejects()
            then Behind(file, first, cmd + CmdSize(file, cmd), end, useSections, visited + [cmd])
            else visited == TraceFrom(file, first, end, useSections).offs
  {
    if cmd < end && !BadLC(file, cmd, end) && !Judge(CommandAt(file, cmd, useSections), useSections, |file|).Rejects() {
      var rest := TraceFrom(file, cmd + CmdSize(file, cmd), end, useSections).offs;
      assert visited + ([cmd] + rest) == (visited + [cmd]) + rest;
    }
  }

  /** Pass 1; `visited` records the commands that it gets past. */
  method Validate(file: File, ufile: u64, area: Area, useSections: bool)
      returns (r: Result<Surveyed, LoadError>, ghost visited: seq<nat>)
    requires area.first <= area.end <= |file| && WellFormed(file, area.first, area.end, useSections)
    requires ufile + |file| + LC_SIZE < TWO64
    ensures r == Pass1(file, area, useSections)
    ensures visited == TraceFrom(file, area.first, area.end, useSections).offs
  {
    var h: Surveyed := Hull(MAX64, 0);
    var cmd: nat, end: nat := area.first, area.end;
    visited := [];
    while cmd < end
      invariant cmd <= end && WellFormed(file, cmd, end, useSections) && h.Hull?
      invariant Pass1(file, area, useSections) == Pass1From(file, cmd, end, useSections, h)
      invariant Behind(file, area.first, cmd, end, useSections, visited)
    {
      BehindNext(file, area.first, cmd, end, useSections, visited);
      r := ValidateCommand(file, ufile, cmd, end, useSections, h);
      if r.Failure? {
        return;
      }
      h, visited := r.value, visited + [cmd];
      cmd := cmd + CmdSize(file, cmd);
    }
    BehindNext(file, area.first, cmd, end, useSections, visited);
    if h.highest < h.lowest {
      r := Failure(BadLayout(h.lowest, h.highest));
    } else {
      r := Success(h);
    }
  }

  /** memcpy of n bytes of the file into the image buffer. */
  method CopyBytes(mem: array<u8>, dst: nat, file: File, src: nat, n: nat)
    requires dst + n <= mem.Length && src + n <= |file|
    modifies mem
    ensures forall i :: 0 <= i < mem.Length ==>
              mem[i] == if dst <= i < dst + n then file[src + (i - dst)] else old(mem[i])
  {
    forall i | dst <= i < dst + n {
      mem[i] := file[src + (i - dst)];
    }
  }

  /** memset of the image buffer. */
  method ZeroBytes(mem: array<u8>)
    modifies mem
    ensures forall i :: 0 <= i < mem.Length ==> mem[i] == 0
  {
    forall i | 0 <= i < mem.Length {
      mem[i] := 0;
    }
  }

  /** The copy of m stays inside the file and inside an image that holds [lowest, lowest + len). */
  predicate CopyInBounds(flen: nat, m: Mapping, lowest: u64, len: nat) {
    m.InFile(flen) && lowest <= m.addr && m.addr + m.size <= lowest + len
  }

  /** Pass 2 can handle c: no error case, and the copy stays in bounds. */
  predicate Copyable(flen: nat, c: Command, useSections: bool, lowest: u64, len: nat) {
    && !Range(c, useSections).BadSection?
    && (match MappingOf(c, useSections) case Some(m) => CopyInBounds(flen, m, lowest, len) case None => true)
  }

  /** After pass 1 every command is copyable. */
  lemma AllCopyable(file: File, cmds: seq<Command>, useSections: bool, c: Command)
    requires Load(file, cmds, useSections).Some? && AllInAddressSpace(Mappings(cmds, useSections))
    requires c in cmds
    ensures var h := Survey(cmds, useSections, |file|);
            Copyable(|file|, c, useSections, h.lowest, h.highest - h.lowest)
  {
    SurveyMeaning(cmds, useSections, |file|);
    if MappingOf(c, useSections).Some? {
      MappingsMembers(cmds, useSections, MappingOf(c, useSections).value);
      TightHull(cmds, useSections, |file|);
    }
  }

  /** The buffer after the mappings of `seen` have been copied. */
  ghost predicate Painted(file: File, seen: seq<Command>, useSections: bool, mem: seq<u8>, lowest: u64) {
    && AllInFile(Mappings(seen, useSections), |file|)
    && mem == ImageOf(file, Mappings(seen, useSections), lowest, |mem|)
  }

  lemma PaintedNext(file: File, seen: seq<Command>, c: Command, useSections: bool,
                    before: seq<u8>, after: seq<u8>, lowest: u64)
    requires Painted(file, seen, useSections, before, lowest) && |after| == |before|
    requires MappingOf(c, useSections).None? ==> after == before
    requires MappingOf(c, useSections).Some? ==>
               var m := MappingOf(c, useSections).value;
               && m.InFile(|file|)
               && forall i :: 0 <= i < |after| ==>
                    after[i] == if m.Covers(lowest + i) then Pick(file, m, lowest + i) else before[i]
    ensures Painted(file, seen + [c], useSections, after, lowest)
  {
    MappingsAppend(seen, c, useSections);
    if MappingOf(c, useSections).Some? {
      var ms, m := Mappings(seen, useSections), MappingOf(c, useSections).value;
      forall i | 0 <= i < |after| ensures after[i] == ByteAt(file, ms + [m], lowest + i) {
        CopyOneMore(file, ms, m, lowest + i);
      }
    }
  }

  /** The body of the loop of pass 2, for command n of the list; the status is that of the range extraction. */
  method CopyCommand(file: File, cmd: nat, useSections: bool, mem: array<u8>, lowest: u64,
                     ghost cmds: seq<Command>, ghost n: nat)
      returns (status: int)
    requires cmd + LC_SIZE <= |file| && Readable(file, cmd, useSections)
    requires n < |cmds| && cmds[n] == CommandAt(file, cmd, useSections)
    requires match MappingOf(cmds[n], useSections)
             case Some(m) => CopyInBounds(|file|, m, lowest, mem.Length)
             case None => true
    requires Painted(file, cmds[..n], useSections, mem[..], lowest)
    modifies mem
    ensures status == 2 <==> Range(cmds[n], useSections).BadSection?
    ensures Painted(file, cmds[..n + 1], useSections, mem[..], lowest)
  {
    ghost var before := mem[..];
    var range := GetMappedSegmentRange(file, cmd, useSections);
    match range {
      case NotASegment =>
        status := 1;
      case BadSection =>
        status := 2;
      case Mapped(vmaddr, fileoff, size) =>
        if size != 0 {
          CopyBytes(mem, Sub(vmaddr, lowest), file, fileoff, size);
        }
        status := 0;
    }
    PaintedNext(file, cmds[..n], cmds[n], useSections, before, mem[..], lowest);
    assert cmds[..n] + [cmds[n]] == cmds[..n + 1];
  }

  /** What pass 2 finds at cmd with n commands of the complete walk t behind it. */
  lemma WalkNext(file: File, t: Trace, first: nat, n: nat, cmd: nat, end: nat, useSections: bool)
    requires Walked(file, t, first, end, useSections)
    requires n <= |t.offs| && Tiles(file, t.offs[n..], cmd, end) && cmd < end
    ensures t.offs[..n] + [cmd] == t.offs[..n + 1]
    ensures n < |t.offs| && t.offs[n] == cmd && cmd + LC_SIZE <= |file| && Readable(file, cmd, useSections)
    ensures t.cmds[n] == CommandAt(file, cmd, useSections) && t.cmds[n] in t.cmds
    ensures Tiles(file, t.offs[n + 1..], cmd + CmdSize(file, cmd), end)
  {
    TilesNext(file, t.offs, n, cmd, end);
  }

  /**
   Pass 2 over a file whose complete walk is t. It tests nothing; `visited`
   records where it went, and status 2 is its error case.
   */
  method Copy(file: File, area: Area, useSections: bool, lowest: u64, mem: array<u8>, ghost t: Trace)
      returns (status: int, ghost visited: seq<nat>)
    requires area.end <= |file| && Walked(file, t, area.first, area.end, useSections)
    requires forall c <- t.cmds :: Copyable(|file|, c, useSections, lowest, mem.Length)
    modifies mem
    ensures status == 0 && visited == t.offs
    ensures Painted(file, t.cmds, useSections, mem[..], lowest)
  {
    ZeroBytes(mem);
    visited := [];
    ghost var n := 0;
    var cmd: nat, end: nat := area.first, area.end;
    assert Painted(file, t.cmds[..n], useSections, mem[..], lowest);
    while cmd < end
      invariant n <= |t.offs| && visited == t.offs[..n] && Tiles(file, t.offs[n..], cmd, end)
      invariant Painted(file, t.cmds[..n], useSections, mem[..], lowest)
      decreases |t.offs| - n
    {
      WalkNext(file, t, area.first, n, cmd, end, useSections);
      status := CopyCommand(file, cmd, useSections, mem, lowest, t.cmds, n);
      if status == 2 {
        return;
      }
      visited, n := visited + [cmd], n + 1;
      cmd := cmd + CmdSize(file, cmd);
    }
    assert t.cmds[..n] == t.cmds;
    status := 0;
  }

  lemma PaintedIsLoaded(file: File, cmds: seq<Command>, useSections: bool, mem: seq<u8>)
    requires Load(file, cmds, useSections).Some?
    requires var h := Survey(cmds, useSections, |file|);
             |mem| == h.highest - h.lowest && Painted(file, cmds, useSections, mem, h.lowest)
    ensures var h := Survey(cmds, useSections, |file|);
            Load(file, cmds, useSections) == Some(Loaded(h.lowest, mem))
  {
  }

  /**
   The whole conversion of a file at the address ufile into an image: the first
   error, or base address and buffer. `checked` is where pass 1 went, `copied` where
   pass 2 went.
   */
  method Flatten(file: File, ufile: u64, useSections: bool)
      returns (e: Option<LoadError>, base: u64, mem: array?<u8>, ghost checked: seq<nat>, ghost copied: seq<nat>)
    requires Usable(file, useSections) && Unwrapped(file, useSections)
    requires ufile + |file| + LC_SIZE < TWO64
    ensures match Outcome(file, useSections)
            case Failure(error) => e == Some(error) && mem == null
            case Success(l) =>
              && e == None && base == l.base
              && mem != null && fresh(mem) && mem[..] == l.bytes
              && copied == checked == Visited(file, useSections).offs
  {
    e, base, mem, checked, copied := None, 0, null, [], [];
    if |file| < 4 {
      return Some(TooShortForMagic), base, mem, checked, copied;
    }
    var magic := Read32(file, 0);
    var area: Area;
    if magic == MH_MAGIC {
      var sizeofcmds := Read32(file, 20);
      if |file| < HDR32_SIZE + sizeofcmds {
        return Some(TooShortForCommands), base, mem, checked, copied;
      }
      area := Area(HDR32_SIZE, HDR32_SIZE + sizeofcmds);
    } else if magic == MH_MAGIC_64 {
      var sizeofcmds := Read32(file, 20);
      if |file| < HDR64_SIZE + sizeofcmds {
        return Some(TooShortForCommands), base, mem, checked, copied;
      }
      area := Area(HDR64_SIZE, HDR64_SIZE + sizeofcmds);
    } else {
      return Some(BadMagic(magic)), base, mem, checked, copied;
    }
    var pass1;
    pass1, checked := Validate(file, ufile, area, useSections);
    if pass1.Failure? {
      return Some(pass1.error), base, mem, checked, copied;
    }
    ghost var t := Visited(file, useSections);
    Pass1Meaning(file, area, useSections);
    UnwrappedIsInAddressSpace(file, useSections);
    var lowest, highest := pass1.value.lowest, pass1.value.highest;
    forall c | c in t.cmds ensures Copyable(|file|, c, useSections, lowest, highest - lowest) {
      AllCopyable(file, t.cmds, useSections, c);
    }
    var image := new u8[highest - lowest];
    var status;
    status, copied := Copy(file, area, useSections, lowest, image, t);
    if status == 2 {
      return Some(RangeStatus2), base, mem, checked, copied;
    }
    PaintedIsLoaded(file, t.cmds, useSections, image[..]);
    base, mem := lowest, image;
  }

  // ------------------------------------------------------------- whole-file theorems

  /** For an accepted file, Unwrapped says exactly that every mapping ends below 2^64. */
  lemma UnwrappedIsInAddressSpace(file: File, useSections: bool)
    requires Usable(file, useSections) && Outcome(file, useSections).Success?
    ensures Unwrapped(file, useSections) <==>
              AllInAddressSpace(Mappings(Visited(file, useSections).cmds, useSections))
  {
    var area, cmds := CommandArea(file).value, Visited(file, useSections).cmds;
    Pass1Meaning(file, area, useSections);
    AddressSpaceByCommand(cmds, useSections, |file|);
  }

  lemma AddressSpaceByCommand(cmds: seq<Command>, useSections: bool, flen: nat)
    requires flen < TWO63 && AllAcceptable(cmds, useSections, flen)
    ensures AllInAddressSpace(Mappings(cmds, useSections)) <==> NoneWraps(cmds, useSections)
  {
    forall m ensures m in Mappings(cmds, useSections) <==> exists c <- cmds :: MappingOf(c, useSections) == Some(m) {
      MappingsMembers(cmds, useSections, m);
    }
    forall c | c in cmds
      ensures (match MappingOf(c, useSections) case Some(m) => m.InAddressSpace() case None => true) <==>
              !(!useSections && c.Seg64? && Wraps(TWO64, c.seg))
    {
      OnlySegments64Wrap(c, useSections, flen);
    }
    if AllInAddressSpace(Mappings(cmds, useSections)) {
      forall c | c in cmds && !useSections && c.Seg64? ensures !Wraps(TWO64, c.seg) {
        if MappingOf(c, useSections).Some? {
          assert MappingOf(c, useSections).value in Mappings(cmds, useSections);
        }
      }
    }
  }
}
