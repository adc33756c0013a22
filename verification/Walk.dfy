/**
 The walk over the variable-length load commands of a file: which commands
 pass 1 visits, how it ends, and that a completed walk cuts the command area
 into the visited commands without gap or overlap.
 */
module Walk {
  import opened Wrappers
  import opened Words
  import opened Segments
  import opened Layout
  import opened Image

  const MH_MAGIC: u32 := 0xfeedface
  const MH_MAGIC_64: u32 := 0xfeedfacf
  const HDR32_SIZE: nat := 28
  const HDR64_SIZE: nat := 32

  datatype LoadError =
    | TooShortForMagic
    | TooShortForCommands
    | BadMagic(magic: u32)
    | BadCommand(at: nat)
    | RangeStatus2
    | BadSegment(at: nat)
    | BadLayout(lowest: u64, highest: u64)

  // -------------------------------------------------------------------- header

  datatype Area = Area(first: nat, end: nat)

  /** If the magic is known, the field sizeofcmds lies inside the file. */
  predicate HeaderReadable(file: File) {
    |file| >= 4 && Read32(file, 0) in {MH_MAGIC, MH_MAGIC_64} ==> |file| >= 24
  }

  /** The command area announced by the header. */
  function CommandArea(file: File): (r: Result<Area, LoadError>)
    requires HeaderReadable(file)
    ensures r.Success? ==> r.value.first <= r.value.end <= |file|
  {
    if |file| < 4 then Failure(TooShortForMagic)
    else
      var magic := Read32(file, 0);
      if magic != MH_MAGIC && magic != MH_MAGIC_64 then Failure(BadMagic(magic))
      else
        var first := if magic == MH_MAGIC then HDR32_SIZE else HDR64_SIZE;
        var sizeofcmds := Read32(file, 20);
        if |file| < first + sizeofcmds then Failure(TooShortForCommands)
        else Success(Area(first, first + sizeofcmds))
  }

  /** The first four bytes of a 32-bit and of a 64-bit file. */
  ghost predicate IsMachO(file: File) {
    |file| >= 4 && (file[..4] == [0xce, 0xfa, 0xed, 0xfe] || file[..4] == [0xcf, 0xfa, 0xed, 0xfe])
  }

  /** The header is right and announces this area, which lies in the file. */
  ghost predicate Announces(file: File, area: Area) {
    && IsMachO(file) && |file| >= 24
    && area.first == (if file[0] == 0xce then 28 else 32)
    && area.end == area.first + Read32(file, 20) <= |file|
  }

  /** The file is refused with e before any load command is looked at. */
  ghost predicate HeaderFails(file: File, e: LoadError) {
    if |file| < 4 then e == TooShortForMagic
    else if !IsMachO(file) then e == BadMagic(Read32(file, 0))
    else
      && |file| >= 24 && e == TooShortForCommands
      && (if file[0] == 0xce then 28 else 32) + Read32(file, 20) > |file|
  }

  lemma MagicBytes(file: File)
    requires |file| >= 4
    ensures file[..4] == [0xce, 0xfa, 0xed, 0xfe] <==> Read32(file, 0) == 0xfeedface
    ensures file[..4] == [0xcf, 0xfa, 0xed, 0xfe] <==> Read32(file, 0) == 0xfeedfacf
  {
    LittleEndian32(file, 0);
    assert file[..4] == [file[0], file[1], file[2], file[3]];
  }

  /** The header test, stated on the bytes of the file: both outcomes and all three errors. */
  lemma CommandAreaMeaning(file: File)
    requires HeaderReadable(file)
    ensures forall area :: CommandArea(file) == Success(area) <==> Announces(file, area)
    ensures forall e :: CommandArea(file) == Failure(e) <==> HeaderFails(file, e)
  {
    if |file| >= 4 {
      MagicBytes(file);
      LittleEndian32(file, 0);
    }
  }

  // ---------------------------------------------------------------- one command

  function CmdSize(file: File, cmd: nat): u32
    requires cmd + LC_SIZE <= |file|
  {
    Read32(file, cmd + 4)
  }

  /** The command does not fit between cmd and end. */
  predicate BadLC(file: File, cmd: nat, end: nat)
    requires cmd < end <= |file|
  {
    cmd + LC_SIZE > end || cmd + CmdSize(file, cmd) > end
  }

  /** The test of pass 1, on 64-bit pointers into a buffer at the address ufile. */
  predicate BadPointer(file: File, ufile: u64, cmd: nat, end: nat)
    requires cmd < end <= |file| && ufile + |file| + LC_SIZE <= TWO64
  {
    var p, stop := ufile + cmd, ufile + end;
    || Add(TWO64, p, LC_SIZE) > stop
    || Add(TWO64, p, CmdSize(file, cmd)) > stop
    || Add(TWO64, p, CmdSize(file, cmd)) < p
  }

  /** Wherever the buffer lies, the test with its wrap-around check decides whether the command fits. */
  lemma PointerTestMeaning(file: File, ufile: u64, cmd: nat, end: nat)
    requires cmd < end <= |file| && ufile + |file| + LC_SIZE < TWO64
    ensures BadPointer(file, ufile, cmd, end) <==> BadLC(file, cmd, end)
  {
  }

  // ---------------------------------------------------------------------- walks

  /**
   What the code takes for granted about each command it gets to: the fields it
   reads are in the file and, unless the command is rejected, cmdsize is positive.
   */
  ghost predicate WellFormed(file: File, cmd: nat, end: nat, useSections: bool)
    requires end <= |file|
    decreases end - cmd
  {
    cmd < end && !BadLC(file, cmd, end) ==>
      && Readable(file, cmd, useSections)
      && (!Judge(CommandAt(file, cmd, useSections), useSections, |file|).Rejects() ==>
            CmdSize(file, cmd) > 0 && WellFormed(file, cmd + CmdSize(file, cmd), end, useSections))
  }

  /** Positive sizes that cover the segment header and its sections, as the file format demands. */
  ghost predicate Formatted(file: File, cmd: nat, end: nat)
    requires end <= |file|
    decreases end - cmd
  {
    cmd < end && !BadLC(file, cmd, end) ==>
      var id, size := Read32(file, cmd), CmdSize(file, cmd);
      && size > 0
      && (id == LC_SEGMENT ==> SEG32_SIZE <= size && SEG32_SIZE + SECT32_SIZE * Read32(file, cmd + 48) <= size)
      && (id == LC_SEGMENT_64 ==> SEG64_SIZE <= size && SEG64_SIZE + SECT64_SIZE * Read32(file, cmd + 64) <= size)
      && Formatted(file, cmd + size, end)
  }

  lemma {:induction false} FormattedIsWellFormed(file: File, cmd: nat, end: nat, useSections: bool)
    requires end <= |file| && Formatted(file, cmd, end)
    ensures WellFormed(file, cmd, end, useSections)
    decreases end - cmd
  {
    if cmd < end && !BadLC(file, cmd, end) {
      FormattedIsWellFormed(file, cmd + CmdSize(file, cmd), end, useSections);
    }
  }

  /** The commands pass 1 gets past, with their offsets, and the error that stops it, if any. */
  datatype Trace = Trace(offs: seq<nat>, cmds: seq<Command>, stop: Option<LoadError>)

  function TraceFrom(file: File, cmd: nat, end: nat, useSections: bool): (t: Trace)
    requires end <= |file| && WellFormed(file, cmd, end, useSections)
    ensures |t.offs| == |t.cmds|
    decreases end - cmd
  {
    if cmd >= end then Trace([], [], None)
    else if BadLC(file, cmd, end) then Trace([], [], Some(BadCommand(cmd)))
    else
      var c := CommandAt(file, cmd, useSections);
      var v := Judge(c, useSections, |file|);
      if v.BadRange? then Trace([], [], Some(RangeStatus2))
      else if v.BadBounds? then Trace([], [], Some(BadSegment(cmd)))
      else
        var rest := TraceFrom(file, cmd + CmdSize(file, cmd), end, useSections);
        Trace([cmd] + rest.offs, [c] + rest.cmds, rest.stop)
  }

  /** The result of pass 1 from cmd on, with the hull h so far. */
  function Pass1From(file: File, cmd: nat, end: nat, useSections: bool, h: Surveyed): Result<Surveyed, LoadError>
    requires end <= |file| && WellFormed(file, cmd, end, useSections) && h.Hull?
    decreases end - cmd
  {
    if cmd >= end then
      if h.highest < h.lowest then Failure(BadLayout(h.lowest, h.highest)) else Success(h)
    else if BadLC(file, cmd, end) then Failure(BadCommand(cmd))
    else
      match Step(h, Judge(CommandAt(file, cmd, useSections), useSections, |file|))
      case RangeError => Failure(RangeStatus2)
      case SegmentError => Failure(BadSegment(cmd))
      case Hull(lowest, highest) =>
        Pass1From(file, cmd + CmdSize(file, cmd), end, useSections, Hull(lowest, highest))
  }

  function Pass1(file: File, area: Area, useSections: bool): Result<Surveyed, LoadError>
    requires area.end <= |file| && WellFormed(file, area.first, area.end, useSections)
  {
    Pass1From(file, area.first, area.end, useSections, Hull(MAX64, 0))
  }

  /** Pass 1 goes on behind a command that is no segment, with the hull it had. */
  lemma OtherCommandPassed(file: File, cmd: nat, end: nat, useSections: bool, h: Surveyed)
    requires cmd < end <= |file| && WellFormed(file, cmd, end, useSections) && h.Hull?
    requires cmd + 8 <= end && cmd + CmdSize(file, cmd) <= end && Read32(file, cmd) !in {0x1, 0x19}
    ensures Readable(file, cmd, useSections)
    ensures var c := CommandAt(file, cmd, useSections);
            Acceptable(c, useSections, |file|) && MappingOf(c, useSections) == None
    ensures CmdSize(file, cmd) > 0 && WellFormed(file, cmd + CmdSize(file, cmd), end, useSections)
    ensures Pass1From(file, cmd, end, useSections, h) ==
            Pass1From(file, cmd + CmdSize(file, cmd), end, useSections, h)
  {
    KindOfCommand(file, cmd, useSections);
    OtherIsSkipped(useSections, |file|);
  }

  // ------------------------------------------------------------------ partition

  /** The commands at offs fill [first, end) one after the other. */
  ghost predicate Tiles(file: File, offs: seq<nat>, first: nat, end: nat) {
    if offs == [] then first == end
    else
      && offs[0] == first && first + LC_SIZE <= |file| && CmdSize(file, first) > 0
      && Tiles(file, offs[1..], first + CmdSize(file, first), end)
  }

  /** The commands of t fill [first, at) inside an area that ends at `end`. */
  ghost predicate WalkedTo(file: File, t: Trace, first: nat, at: nat, end: nat, useSections: bool) {
    && at <= end <= |file| && |t.offs| == |t.cmds|
    && Tiles(file, t.offs, first, at)
    && forall i :: 0 <= i < |t.offs| ==>
         && t.offs[i] + LC_SIZE <= end && Readable(file, t.offs[i], useSections)
         && t.cmds[i] == CommandAt(file, t.offs[i], useSections)
  }

  /** t is a complete walk over [first, end): the commands at its offsets fill the area. */
  ghost predicate Walked(file: File, t: Trace, first: nat, end: nat, useSections: bool) {
    t.stop.None? && WalkedTo(file, t, first, end, end, useSections)
  }

  /**
   The command at `at` cannot be accepted, and e says why: it does not fit into
   the area, its sections do not fit its segment, or its range is not inside the file.
   */
  ghost predicate FailsWith(file: File, at: nat, end: nat, useSections: bool, e: LoadError) {
    && at < end <= |file|
    && if at + 8 > end || at + CmdSize(file, at) > end then e == BadCommand(at)
       else
         && Readable(file, at, useSections)
         && var c := CommandAt(file, at, useSections);
            if Range(c, useSections).BadSection? then e == RangeStatus2
            else !Acceptable(c, useSections, |file|) && e == BadSegment(at)
  }

  /** t ends at `at`: at the end of the area, or at a command that fails with the error of t. */
  ghost predicate EndsAt(file: File, t: Trace, at: nat, end: nat, useSections: bool) {
    match t.stop
    case None => at == end
    case Some(e) => FailsWith(file, at, end, useSections, e)
  }

  ghost predicate AllAcceptable(cmds: seq<Command>, useSections: bool, flen: nat) {
    forall c <- cmds :: Acceptable(c, useSections, flen)
  }

  /** t holds exactly the acceptable commands from `first` to the first failing one, or to the end. */
  ghost predicate UpToFailure(file: File, t: Trace, first: nat, at: nat, end: nat, useSections: bool) {
    && WalkedTo(file, t, first, at, end, useSections) && EndsAt(file, t, at, end, useSections)
    && AllAcceptable(t.cmds, useSections, |file|)
  }

  /** The trace goes without a gap up to the first command that fails, if there is one. */
  lemma {:induction false} TraceWalked(file: File, cmd: nat, end: nat, useSections: bool) returns (at: nat)
    requires cmd <= end <= |file| && WellFormed(file, cmd, end, useSections)
    ensures UpToFailure(file, TraceFrom(file, cmd, end, useSections), cmd, at, end, useSections)
    decreases end - cmd
  {
    at := cmd;
    if cmd < end && !BadLC(file, cmd, end) {
      var c := CommandAt(file, cmd, useSections);
      JudgeMeaning(c, useSections, |file|);
      if Acceptable(c, useSections, |file|) {
        at := TraceWalked(file, cmd + CmdSize(file, cmd), end, useSections);
        WalkedMore(file, TraceFrom(file, cmd + CmdSize(file, cmd), end, useSections), cmd, at, end, useSections);
      }
    }
  }

  /** A command in front of acceptable ones. */
  lemma WalkedMore(file: File, rest: Trace, cmd: nat, at: nat, end: nat, useSections: bool)
    requires cmd < end <= |file| && !BadLC(file, cmd, end) && Readable(file, cmd, useSections)
    requires CmdSize(file, cmd) > 0 && Acceptable(CommandAt(file, cmd, useSections), useSections, |file|)
    requires UpToFailure(file, rest, cmd + CmdSize(file, cmd), at, end, useSections)
    ensures var t := Trace([cmd] + rest.offs, [CommandAt(file, cmd, useSections)] + rest.cmds, rest.stop);
            UpToFailure(file, t, cmd, at, end, useSections)
  {
    assert ([cmd] + rest.offs)[1..] == rest.offs;
  }

  /** t without its first command. */
  function Rest(t: Trace): Trace
    requires t.offs != [] && t.cmds != []
  {
    Trace(t.offs[1..], t.cmds[1..], t.stop)
  }

  lemma WalkedRest(file: File, t: Trace, cmd: nat, at: nat, end: nat, useSections: bool)
    requires WalkedTo(file, t, cmd, at, end, useSections) && t.offs != []
    ensures cmd < end && !BadLC(file, cmd, end) && CmdSize(file, cmd) > 0
    ensures Readable(file, cmd, useSections) && t.cmds[0] == CommandAt(file, cmd, useSections)
    ensures WalkedTo(file, Rest(t), cmd + CmdSize(file, cmd), at, end, useSections)
    ensures t == Trace([cmd] + Rest(t).offs, [t.cmds[0]] + Rest(t).cmds, t.stop)
  {
    TilesPartition(file, t.offs, cmd, at);
    TilesPartition(file, t.offs[1..], cmd + CmdSize(file, cmd), at);
  }

  /** Conversely, whatever goes without a gap up to the first failure is the trace. */
  lemma {:induction false} WalkIsTrace(file: File, t: Trace, cmd: nat, at: nat, end: nat, useSections: bool)
    requires end <= |file| && WellFormed(file, cmd, end, useSections)
    requires UpToFailure(file, t, cmd, at, end, useSections)
    ensures TraceFrom(file, cmd, end, useSections) == t
    decreases |t.offs|
  {
    if t.offs == [] {
      assert t.cmds == [];
      if cmd < end && !BadLC(file, cmd, end) {
        JudgeMeaning(CommandAt(file, cmd, useSections), useSections, |file|);
      }
    } else {
      WalkedRest(file, t, cmd, at, end, useSections);
      JudgeMeaning(t.cmds[0], useSections, |file|);
      assert AllAcceptable(Rest(t).cmds, useSections, |file|);
      WalkIsTrace(file, Rest(t), cmd + CmdSize(file, cmd), at, end, useSections);
    }
  }

  /** One step of a complete walk, with k commands behind it. */
  lemma TilesNext(file: File, offs: seq<nat>, k: nat, cmd: nat, end: nat)
    requires k <= |offs| && Tiles(file, offs[k..], cmd, end) && cmd < end
    ensures k < |offs| && offs[k] == cmd && cmd + LC_SIZE <= |file|
    ensures Tiles(file, offs[k + 1..], cmd + CmdSize(file, cmd), end)
  {
    assert offs[k..] == [offs[k]] + offs[k + 1..];
  }

  /** Sum of the cmdsize fields. */
  ghost function TotalSize(file: File, offs: seq<nat>): nat
    requires forall i :: 0 <= i < |offs| ==> offs[i] + LC_SIZE <= |file|
  {
    if offs == [] then 0 else CmdSize(file, offs[0]) + TotalSize(file, offs[1..])
  }

  /** Some command of the list contains the byte p. */
  ghost predicate Owned(file: File, offs: seq<nat>, p: int) {
    exists o <- offs :: o + LC_SIZE <= |file| && o <= p < o + CmdSize(file, o)
  }

  /** The sizes add up to the area, no two commands overlap and together they own every byte of it. */
  lemma {:induction false} TilesPartition(file: File, offs: seq<nat>, first: nat, end: nat)
    requires Tiles(file, offs, first, end)
    ensures first <= end
    ensures forall i :: 0 <= i < |offs| ==> first <= offs[i] < end && offs[i] + LC_SIZE <= |file|
    ensures TotalSize(file, offs) == end - first
    ensures forall i, j :: 0 <= i < j < |offs| ==>
              offs[i] + LC_SIZE <= |file| && offs[i] + CmdSize(file, offs[i]) <= offs[j]
    ensures forall p :: Owned(file, offs, p) <==> first <= p < end
  {
    if offs != [] {
      var rest, next := offs[1..], first + CmdSize(file, first);
      TilesPartition(file, rest, next, end);
      assert forall o :: o in offs <==> o == first || o in rest;
      forall p ensures Owned(file, offs, p) <==> first <= p < end {
        assert Owned(file, rest, p) <==> next <= p < end;
      }
    }
  }

  // ------------------------------------------------------------- what pass 1 says

  /** The result of pass 1: what stopped it, or the layout of the hull h. */
  function Conclusion(stop: Option<LoadError>, h: Surveyed): Result<Surveyed, LoadError>
    requires h.Hull?
  {
    if stop.Some? then Failure(stop.value)
    else if h.highest < h.lowest then Failure(BadLayout(h.lowest, h.highest))
    else Success(h)
  }

  lemma {:induction false} Pass1FromTrace(file: File, cmd: nat, end: nat, useSections: bool, seen: seq<Command>)
    requires end <= |file| && WellFormed(file, cmd, end, useSections)
    requires Survey(seen, useSections, |file|).Hull?
    ensures var t := TraceFrom(file, cmd, end, useSections);
            var h := Survey(seen + t.cmds, useSections, |file|);
            && h.Hull?
            && Pass1From(file, cmd, end, useSections, Survey(seen, useSections, |file|)) == Conclusion(t.stop, h)
    decreases end - cmd
  {
    if cmd >= end || BadLC(file, cmd, end) {
      assert seen + [] == seen;
    } else {
      var c := CommandAt(file, cmd, useSections);
      if Judge(c, useSections, |file|).Rejects() {
        assert seen + [] == seen;
      } else {
        SurveyShift(seen, c, TraceFrom(file, cmd + CmdSize(file, cmd), end, useSections).cmds, useSections, |file|);
        Pass1FromTrace(file, cmd + CmdSize(file, cmd), end, useSections, seen + [c]);
      }
    }
  }

  lemma SurveyShift(seen: seq<Command>, c: Command, rest: seq<Command>, useSections: bool, flen: nat)
    ensures Survey(seen + ([c] + rest), useSections, flen) == Survey((seen + [c]) + rest, useSections, flen)
    ensures Survey(seen + [c], useSections, flen) ==
            Step(Survey(seen, useSections, flen), Judge(c, useSections, flen))
  {
    assert seen + ([c] + rest) == (seen + [c]) + rest;
    SurveyAppend(seen, c, useSections, flen);
  }

  /** Pass 1 in terms of its trace: what stopped the trace, or the layout of the hull. */
  lemma Pass1IsTrace(file: File, area: Area, useSections: bool)
    requires area.end <= |file| && WellFormed(file, area.first, area.end, useSections)
    ensures var t := TraceFrom(file, area.first, area.end, useSections);
            var h := Survey(t.cmds, useSections, |file|);
            h.Hull? && Pass1(file, area, useSections) == Conclusion(t.stop, h)
  {
    Pass1FromTrace(file, area.first, area.end, useSections, []);
    var t := TraceFrom(file, area.first, area.end, useSections);
    assert [] + t.cmds == t.cmds;
  }

  /** A complete walk over acceptable commands with a proper layout. */
  ghost predicate Loadable(file: File, area: Area, t: Trace, useSections: bool) {
    && Walked(file, t, area.first, area.end, useSections)
    && AllAcceptable(t.cmds, useSections, |file|)
    && ProperLayout(Mappings(t.cmds, useSections))
  }

  /**
   Pass 1 succeeds exactly when the command area is a gapless sequence of
   acceptable commands with a proper layout. That sequence is its trace, and
   the result is the hull of that sequence.
   */
  lemma Pass1Meaning(file: File, area: Area, useSections: bool)
    requires area.first <= area.end <= |file| && WellFormed(file, area.first, area.end, useSections)
    ensures var r := Pass1(file, area, useSections);
            var t := TraceFrom(file, area.first, area.end, useSections);
            && (r.Success? <==> exists u :: Loadable(file, area, u, useSections))
            && (forall u :: Loadable(file, area, u, useSections) ==> u == t)
            && (r.Success? ==>
                  && Loadable(file, area, t, useSections) && Load(file, t.cmds, useSections).Some?
                  && r.value == Survey(t.cmds, useSections, |file|))
  {
    var t := TraceFrom(file, area.first, area.end, useSections);
    Pass1IsTrace(file, area, useSections);
    LayoutMeaning(t.cmds, useSections, |file|);
    var at := TraceWalked(file, area.first, area.end, useSections);
    if Pass1(file, area, useSections).Success? {
      assert Loadable(file, area, t, useSections);
    }
    forall u | Loadable(file, area, u, useSections) ensures u == t {
      WalkIsTrace(file, u, area.first, area.end, area.end, useSections);
    }
  }

  /** e is the error of the first failing command, which lies at `at` behind the acceptable commands of t. */
  ghost predicate FirstFailure(file: File, area: Area, t: Trace, at: nat, useSections: bool, e: LoadError) {
    t.stop == Some(e) && UpToFailure(file, t, area.first, at, area.end, useSections)
  }

  /** All commands are acceptable, but the layout is not proper; e reports the hull. */
  ghost predicate LayoutFailure(file: File, area: Area, t: Trace, useSections: bool, e: LoadError) {
    && Walked(file, t, area.first, area.end, useSections)
    && AllAcceptable(t.cmds, useSections, |file|)
    && !ProperLayout(Mappings(t.cmds, useSections))
    && var h := Survey(t.cmds, useSections, |file|);
       h.Hull? && e == BadLayout(h.lowest, h.highest)
  }

  /**
   Pass 1 fails with e exactly when e is the error of the first failing command,
   up to which the area is a gapless sequence of acceptable commands, or when
   all commands are acceptable and e is the error of their layout.
   */
  lemma Pass1Failure(file: File, area: Area, useSections: bool, e: LoadError)
    requires area.first <= area.end <= |file| && WellFormed(file, area.first, area.end, useSections)
    ensures Pass1(file, area, useSections) == Failure(e) <==>
              || (exists t, at :: FirstFailure(file, area, t, at, useSections, e))
              || (exists t :: LayoutFailure(file, area, t, useSections, e))
  {
    var t := TraceFrom(file, area.first, area.end, useSections);
    Pass1IsTrace(file, area, useSections);
    LayoutMeaning(t.cmds, useSections, |file|);
    var at := TraceWalked(file, area.first, area.end, useSections);
    if Pass1(file, area, useSections) == Failure(e) {
      assert FirstFailure(file, area, t, at, useSections, e) || LayoutFailure(file, area, t, useSections, e);
    }
    forall u, stop | FirstFailure(file, area, u, stop, useSections, e) ensures u == t {
      WalkIsTrace(file, u, area.first, stop, area.end, useSections);
    }
    forall u | LayoutFailure(file, area, u, useSections, e) ensures u == t {
      WalkIsTrace(file, u, area.first, area.end, area.end, useSections);
    }
  }
}
