/** What the two passes mean for whole files. */
module WholeFile {
  import opened Wrappers
  import opened Words
  import opened Segments
  import opened Layout
  import opened Image
  import opened Walk
  import opened Loader

  /** The mappings of an accepted file, in load order. */
  ghost function FileMappings(file: File, useSections: bool): seq<Mapping>
    requires Usable(file, useSections) && CommandArea(file).Success?
  {
    Mappings(Visited(file, useSections).cmds, useSections)
  }

  /**
   An image comes out exactly when the header announces a command area that is
   a gapless sequence of acceptable commands with a proper layout.
   */
  lemma Acceptance(file: File, useSections: bool)
    requires Usable(file, useSections)
    ensures Outcome(file, useSections).Success? <==>
              CommandArea(file).Success? && exists t :: Loadable(file, CommandArea(file).value, t, useSections)
    ensures Outcome(file, useSections).Success? ==>
              var t := Visited(file, useSections);
              && Loadable(file, CommandArea(file).value, t, useSections)
              && Load(file, t.cmds, useSections) == Some(Outcome(file, useSections).value)
  {
    if CommandArea(file).Success? {
      Pass1Meaning(file, CommandArea(file).value, useSections);
    }
  }

  /** The area cannot be loaded: e is the error of its first failing command, or of its layout. */
  ghost predicate AreaFails(file: File, area: Area, useSections: bool, e: LoadError) {
    || (exists t, at :: FirstFailure(file, area, t, at, useSections, e))
    || (exists t :: LayoutFailure(file, area, t, useSections, e))
  }

  /** The file is refused with e: for its header, or for the command area that the header announces. */
  ghost predicate Refused(file: File, useSections: bool, e: LoadError) {
    HeaderFails(file, e) || exists area :: Announces(file, area) && AreaFails(file, area, useSections, e)
  }

  /** Every refusal with its exact reason, and an image under exactly the other circumstances. */
  lemma Refusal(file: File, useSections: bool, e: LoadError)
    requires Usable(file, useSections)
    ensures Outcome(file, useSections) == Failure(e) <==> Refused(file, useSections, e)
    ensures Outcome(file, useSections).Success? <==>
              exists area, t :: Announces(file, area) && Loadable(file, area, t, useSections)
  {
    CommandAreaMeaning(file);
    if CommandArea(file).Success? {
      var area := CommandArea(file).value;
      assert Announces(file, area);
      Pass1Failure(file, area, useSections, e);
      Pass1Meaning(file, area, useSections);
    }
  }

  /** Without address wrap, a gapless sequence of acceptable commands is enough if it maps anything. */
  lemma AcceptanceUnwrapped(file: File, useSections: bool)
    requires Usable(file, useSections)
    requires CommandArea(file).Success? ==> NoneWraps(Visited(file, useSections).cmds, useSections)
    ensures Outcome(file, useSections).Success? <==>
              && CommandArea(file).Success?
              && var area := CommandArea(file).value;
                 exists t :: Maps(file, area, t, useSections)
  {
    if CommandArea(file).Success? {
      var area, t := CommandArea(file).value, Visited(file, useSections);
      Pass1Meaning(file, area, useSections);
      var at := TraceWalked(file, area.first, area.end, useSections);
      AddressSpaceByCommand(t.cmds, useSections, |file|);
      SurveyMeaning(t.cmds, useSections, |file|);
      LayoutMeaning(t.cmds, useSections, |file|);
      assert Loadable(file, area, t, useSections) ==> Maps(file, area, t, useSections);
      forall u | Maps(file, area, u, useSections) ensures Loadable(file, area, u, useSections) {
        WalkIsTrace(file, u, area.first, area.end, area.end, useSections);
      }
    }
  }

  /** A complete walk over acceptable commands of which one at least maps something. */
  ghost predicate Maps(file: File, area: Area, t: Trace, useSections: bool) {
    && Walked(file, t, area.first, area.end, useSections)
    && AllAcceptable(t.cmds, useSections, |file|)
    && Mappings(t.cmds, useSections) != []
  }

  /**
   The image of an accepted file: the byte at every address comes from the last
   covering command in load order and is 0 where none covers it; the image is
   not empty, and its first and last addresses are covered.
   */
  lemma ImageRefinement(file: File, useSections: bool, l: Loaded)
    requires Usable(file, useSections) && Unwrapped(file, useSections)
    requires Outcome(file, useSections) == Success(l)
    ensures IsImage(file, FileMappings(file, useSections), l)
  {
    Acceptance(file, useSections);
    ImageExtent(file, useSections, l);
    LoadedBytesRight(file, Visited(file, useSections).cmds, useSections, l);
  }

  lemma LoadedBytesRight(file: File, cmds: seq<Command>, useSections: bool, l: Loaded)
    requires Load(file, cmds, useSections) == Some(l)
    ensures AllInFile(Mappings(cmds, useSections), |file|)
    ensures forall a :: l.base <= a < l.base + |l.bytes| ==> RightByte(file, Mappings(cmds, useSections), a, At(l, a))
  {
    var ms := Mappings(cmds, useSections);
    MappedInFile(file, cmds, useSections);
    forall a | l.base <= a < l.base + |l.bytes| ensures RightByte(file, ms, a, At(l, a)) {
      LoadByte(file, cmds, useSections, a);
      RightByteAt(file, ms, a);
    }
  }

  lemma RightByteAt(file: File, ms: seq<Mapping>, a: int)
    requires AllInFile(ms, |file|)
    ensures RightByte(file, ms, a, ByteAt(file, ms, a))
  {
    ByteMeaning(file, ms, a);
    if Covered(ms, a) {
      var m :| Wins(ms, m, a);
      WinnerCovers(ms, m, a);
    }
  }

  /**
   l spans exactly the mappings ms, all of which lie in the file, and holds at
   every address the byte that they demand.
   */
  ghost predicate IsImage(file: File, ms: seq<Mapping>, l: Loaded) {
    && AllInFile(ms, |file|) && l.bytes != []
    && Covered(ms, l.base) && Covered(ms, l.base + |l.bytes| - 1)
    && (forall m <- ms :: l.base <= m.addr && m.addr + m.size <= l.base + |l.bytes|)
    && forall a :: l.base <= a < l.base + |l.bytes| ==> RightByte(file, ms, a, At(l, a))
  }

  /** b is what the mappings demand at address a. */
  ghost predicate RightByte(file: File, ms: seq<Mapping>, a: int, b: u8)
    requires AllInFile(ms, |file|)
  {
    if exists m <- ms :: m.addr <= a < m.addr + m.size then
      exists m :: Wins(ms, m, a) && 0 <= m.off + (a - m.addr) < |file| && b == file[m.off + (a - m.addr)]
    else b == 0
  }

  lemma ImageExtent(file: File, useSections: bool, l: Loaded)
    requires Usable(file, useSections) && Unwrapped(file, useSections)
    requires Outcome(file, useSections) == Success(l)
    ensures var ms := FileMappings(file, useSections);
            && AllInFile(ms, |file|) && |l.bytes| > 0
            && Covered(ms, l.base) && Covered(ms, l.base + |l.bytes| - 1)
            && (forall m <- ms :: l.base <= m.addr && m.addr + m.size <= l.base + |l.bytes|)
  {
    Acceptance(file, useSections);
    UnwrappedIsInAddressSpace(file, useSections);
    LoadExtent(file, Visited(file, useSections).cmds, useSections, l);
  }

  lemma LoadExtent(file: File, cmds: seq<Command>, useSections: bool, l: Loaded)
    requires Load(file, cmds, useSections) == Some(l) && AllInAddressSpace(Mappings(cmds, useSections))
    ensures var ms := Mappings(cmds, useSections);
            && AllInFile(ms, |file|) && |l.bytes| > 0
            && Covered(ms, l.base) && Covered(ms, l.base + |l.bytes| - 1)
            && (forall m <- ms :: l.base <= m.addr && m.addr + m.size <= l.base + |l.bytes|)
  {
    TightHull(cmds, useSections, |file|);
    MappedInFile(file, cmds, useSections);
  }

  /** Unwrapped is what pass 2 needs and no more: it says that every copy it makes fits the image. */
  lemma CopiesFitExactly(file: File, useSections: bool)
    requires Usable(file, useSections) && Outcome(file, useSections).Success?
    ensures var l := Outcome(file, useSections).value;
            && l.base + |l.bytes| < TWO64
            && ((forall m <- FileMappings(file, useSections) :: CopyFits(m, l.base, l.base + |l.bytes|)) <==>
                Unwrapped(file, useSections))
  {
    var l := Outcome(file, useSections).value;
    Acceptance(file, useSections);
    UnwrappedIsInAddressSpace(file, useSections);
    forall m | m in FileMappings(file, useSections)
      ensures CopyFits(m, l.base, l.base + |l.bytes|) <==> m.InAddressSpace()
    {
      CopyFitsExactly(Visited(file, useSections).cmds, useSections, |file|, m);
    }
  }

  // -------------------------------------------------------------------- order

  /**
   Two files of one length whose command areas hold the same commands in any
   order, and whose mapped bytes agree, convert to the same image, provided
   overlapping mappings are consistent.
   */
  lemma CommandOrderIrrelevant(f: File, g: File, useSections: bool)
    requires Usable(f, useSections) && Outcome(f, useSections).Success?
    requires Usable(g, useSections) && CommandArea(g).Success? && Visited(g, useSections).stop.None?
    requires multiset(Visited(f, useSections).cmds) == multiset(Visited(g, useSections).cmds)
    requires Consistent(f, FileMappings(f, useSections))
    requires SameMappedBytes(f, g, FileMappings(f, useSections))
    ensures Outcome(g, useSections) == Outcome(f, useSections)
  {
    var cs, ds := Visited(f, useSections).cmds, Visited(g, useSections).cmds;
    Acceptance(f, useSections);
    forall c ensures c in cs <==> c in ds {
      assert c in multiset(cs) <==> c in multiset(ds);
    }
    LoadOrderIrrelevant(f, cs, ds, useSections);
    forall m ensures m in Mappings(cs, useSections) <==> m in Mappings(ds, useSections) {
      SameMembersSameMappings(cs, ds, useSections, m);
    }
    OnlyMappedBytesMatter(f, g, ds, useSections);
    Completed(g, useSections);
  }

  /** A walk that nothing stops and that loads is a success. */
  lemma Completed(file: File, useSections: bool)
    requires Usable(file, useSections) && CommandArea(file).Success?
    requires var t := Visited(file, useSections); t.stop.None? && Load(file, t.cmds, useSections).Some?
    ensures Outcome(file, useSections) == Success(Load(file, Visited(file, useSections).cmds, useSections).value)
  {
    var area := CommandArea(file).value;
    var _ := TraceWalked(file, area.first, area.end, useSections);
    LayoutMeaning(Visited(file, useSections).cmds, useSections, |file|);
    assert Loadable(file, area, Visited(file, useSections), useSections);
    Acceptance(file, useSections);
  }

  // -------------------------------------------------------------------- modes

  /** There is at most one way to cut an area into its commands. */
  lemma {:induction false} TilesUnique(file: File, s: seq<nat>, t: seq<nat>, first: nat, end: nat)
    requires Tiles(file, s, first, end) && Tiles(file, t, first, end)
    ensures s == t
  {
    TilesPartition(file, s, first, end);
    TilesPartition(file, t, first, end);
    if s != [] && t != [] {
      TilesUnique(file, s[1..], t[1..], first + CmdSize(file, first), end);
      assert s == [s[0]] + s[1..] && t == [t[0]] + t[1..];
    }
  }

  lemma {:induction false} SameRanges(cmds: seq<Command>, ds: seq<Command>, useSections: bool, flen: nat)
    requires |cmds| == |ds|
    requires forall i :: 0 <= i < |cmds| ==> Range(cmds[i], useSections) == Range(ds[i], useSections)
    ensures Survey(cmds, useSections, flen) == Survey(ds, useSections, flen)
    ensures Mappings(cmds, useSections) == Mappings(ds, useSections)
  {
    if cmds != [] {
      var n := |cmds| - 1;
      SameRanges(cmds[..n], ds[..n], useSections, flen);
      assert Range(cmds[n], useSections) == Range(ds[n], useSections);
      assert Judge(cmds[n], useSections, flen) == Judge(ds[n], useSections, flen);
    }
  }

  /** Segment mode sees in the commands read for section mode what it sees in its own. */
  lemma ModesWalkAlike(file: File, s: Trace, g: Trace, area: Area)
    requires Walked(file, s, area.first, area.end, true) && Walked(file, g, area.first, area.end, false)
    ensures s.offs == g.offs
    ensures Mappings(s.cmds, false) == Mappings(g.cmds, false)
    ensures Load(file, s.cmds, false) == Load(file, g.cmds, false)
  {
    TilesUnique(file, s.offs, g.offs, area.first, area.end);
    forall i | 0 <= i < |s.cmds| ensures Range(s.cmds[i], false) == Range(g.cmds[i], false) {
      HeaderRange(file, s.offs[i]);
    }
    SameRanges(s.cmds, g.cmds, false, |file|);
  }

  lemma HeaderRange(file: File, cmd: nat)
    requires cmd + LC_SIZE <= |file| && Readable(file, cmd, true)
    ensures Range(CommandAt(file, cmd, true), false) == Range(CommandAt(file, cmd, false), false)
  {
  }

  /**
   If both modes accept a file whose segments are consistent (for instance
   disjoint) and do not wrap, both visit the same commands, the section-mode
   image lies inside the segment-mode image, has its byte wherever a
   section-mode range covers the address, and is 0 elsewhere.
   */
  lemma FileModeAgreement(file: File, s: Loaded, g: Loaded)
    requires Usable(file, true) && Outcome(file, true) == Success(s)
    requires Usable(file, false) && Outcome(file, false) == Success(g) && Unwrapped(file, false)
    requires Consistent(file, FileMappings(file, false)) || PairwiseDisjoint(FileMappings(file, false))
    ensures Visited(file, true).offs == Visited(file, false).offs
    ensures g.base <= s.base && s.base + |s.bytes| <= g.base + |g.bytes|
    ensures forall a :: s.base <= a < s.base + |s.bytes| ==>
              At(s, a) == if Covered(FileMappings(file, true), a) then At(g, a) else 0
  {
    Acceptance(file, true);
    Acceptance(file, false);
    UnwrappedIsInAddressSpace(file, false);
    MappedInFile(file, Visited(file, false).cmds, false);
    if PairwiseDisjoint(FileMappings(file, false)) {
      DisjointIsConsistent(file, FileMappings(file, false));
    }
    ModesWalkAlike(file, Visited(file, true), Visited(file, false), CommandArea(file).value);
    ModeAgreement(file, Visited(file, true).cmds, s, g);
  }

  // ---------------------------------------------------------------- two passes

  /**
   A successful pass 1 covers its area exactly: the sizes of the visited
   commands add up to sizeofcmds, no two of them overlap, and every byte of the
   area belongs to one.
   */
  lemma WalkPartitionsArea(file: File, useSections: bool)
    requires Usable(file, useSections) && Outcome(file, useSections).Success?
    ensures var area := CommandArea(file).value; var offs := Visited(file, useSections).offs;
            && (forall i :: 0 <= i < |offs| ==> offs[i] + LC_SIZE <= |file|)
            && TotalSize(file, offs) == area.end - area.first == Read32(file, 20)
            && (forall i, j :: 0 <= i < j < |offs| ==> offs[i] + CmdSize(file, offs[i]) <= offs[j])
            && (forall p :: Owned(file, offs, p) <==> area.first <= p < area.end)
  {
    Acceptance(file, useSections);
    var area := CommandArea(file).value;
    TilesPartition(file, Visited(file, useSections).offs, area.first, area.end);
  }
}
