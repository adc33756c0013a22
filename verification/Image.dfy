/**
 The memory image that a list of load commands describes: base address, length
 and bytes. The last mapping that covers an address decides its byte.
 */
module Image {
  import opened Wrappers
  import opened Words
  import opened Segments
  import opened Layout

  /** The file byte that m puts at address a. */
  function Pick(file: File, m: Mapping, a: int): u8
    requires m.InFile(|file|) && m.Covers(a)
  {
    file[m.off + (a - m.addr)]
  }

  /** The byte at address a after the first n mappings: the last covering one wins, 0 if none covers it. */
  function ByteUpTo(file: File, ms: seq<Mapping>, n: nat, a: int): u8
    requires AllInFile(ms, |file|) && n <= |ms|
  {
    if n == 0 then 0
    else if ms[n - 1].Covers(a) then Pick(file, ms[n - 1], a)
    else ByteUpTo(file, ms, n - 1, a)
  }

  function ByteAt(file: File, ms: seq<Mapping>, a: int): u8
    requires AllInFile(ms, |file|)
  {
    ByteUpTo(file, ms, |ms|, a)
  }

  /** The `size` bytes from address `base` on. */
  function ImageOf(file: File, ms: seq<Mapping>, base: nat, size: nat): (r: seq<u8>)
    requires AllInFile(ms, |file|)
    ensures |r| == size && forall i :: 0 <= i < size ==> r[i] == ByteAt(file, ms, base + i)
  {
    seq<u8>(size, i requires 0 <= i < size => ByteAt(file, ms, base + i))
  }

  datatype Loaded = Loaded(base: u64, bytes: seq<u8>)

  /** The byte at address a of a loaded image. */
  function At(l: Loaded, a: int): u8
    requires l.base <= a < l.base + |l.bytes|
  {
    l.bytes[a - l.base]
  }

  /** The image of an accepted command list; None when some command or the layout is rejected. */
  function Load(file: File, cmds: seq<Command>, useSections: bool): Option<Loaded> {
    var s := Survey(cmds, useSections, |file|);
    if s.Hull? && s.lowest <= s.highest then
      SurveyMeaning(cmds, useSections, |file|);
      Some(Loaded(s.lowest, ImageOf(file, Mappings(cmds, useSections), s.lowest, s.highest - s.lowest)))
    else None
  }

  lemma MappedInFile(file: File, cmds: seq<Command>, useSections: bool)
    requires Survey(cmds, useSections, |file|).Hull?
    ensures AllInFile(Mappings(cmds, useSections), |file|)
  {
    SurveyMeaning(cmds, useSections, |file|);
  }

  /** The base and the end of a loaded image are the hull of the mappings. */
  lemma LoadHull(file: File, cmds: seq<Command>, useSections: bool)
    requires Load(file, cmds, useSections).Some?
    ensures var l := Load(file, cmds, useSections).value; var ms := Mappings(cmds, useSections);
            AllInFile(ms, |file|) && l.base + |l.bytes| < TWO64 && IsExtent(ms, l.base, l.base + |l.bytes|)
  {
    SurveyMeaning(cmds, useSections, |file|);
  }

  lemma LoadByte(file: File, cmds: seq<Command>, useSections: bool, a: int)
    requires Load(file, cmds, useSections).Some?
    requires var l := Load(file, cmds, useSections).value; l.base <= a < l.base + |l.bytes|
    ensures var l := Load(file, cmds, useSections).value;
            && AllInFile(Mappings(cmds, useSections), |file|)
            && At(l, a) == ByteAt(file, Mappings(cmds, useSections), a)
  {
    MappedInFile(file, cmds, useSections);
  }

  // ---------------------------------------------------------- what the bytes are

  /** ms[k] is the last mapping in load order that covers a. */
  ghost predicate LastCover(ms: seq<Mapping>, k: nat, a: int)
    requires k < |ms|
  {
    ms[k].Covers(a) && forall j :: k < j < |ms| ==> !ms[j].Covers(a)
  }

  ghost predicate Covered(ms: seq<Mapping>, a: int) {
    exists m <- ms :: m.Covers(a)
  }

  lemma {:induction false} LastCoverUpTo(file: File, ms: seq<Mapping>, k: nat, n: nat, a: int)
    requires AllInFile(ms, |file|) && k < n <= |ms| && ms[k].Covers(a)
    requires forall j :: k < j < n ==> !ms[j].Covers(a)
    ensures ByteUpTo(file, ms, n, a) == Pick(file, ms[k], a)
  {
    if k < n - 1 {
      LastCoverUpTo(file, ms, k, n - 1, a);
    }
  }

  lemma LastCoverWins(file: File, ms: seq<Mapping>, k: nat, a: int)
    requires AllInFile(ms, |file|) && k < |ms| && LastCover(ms, k, a)
    ensures ByteAt(file, ms, a) == Pick(file, ms[k], a)
  {
    LastCoverUpTo(file, ms, k, |ms|, a);
  }

  lemma {:induction false} UncoveredUpTo(file: File, ms: seq<Mapping>, n: nat, a: int)
    requires AllInFile(ms, |file|) && n <= |ms|
    requires forall j :: 0 <= j < n ==> !ms[j].Covers(a)
    ensures ByteUpTo(file, ms, n, a) == 0
  {
    if n > 0 {
      UncoveredUpTo(file, ms, n - 1, a);
    }
  }

  lemma UncoveredIsZero(file: File, ms: seq<Mapping>, a: int)
    requires AllInFile(ms, |file|) && !Covered(ms, a)
    ensures ByteAt(file, ms, a) == 0
  {
    UncoveredUpTo(file, ms, |ms|, a);
  }

  /** Only the first n mappings matter to ByteUpTo(.., n, ..). */
  lemma {:induction false} LaterMappingsUnseen(file: File, ms: seq<Mapping>, m: Mapping, n: nat, a: int)
    requires AllInFile(ms, |file|) && AllInFile(ms + [m], |file|) && n <= |ms|
    ensures ByteUpTo(file, ms + [m], n, a) == ByteUpTo(file, ms, n, a)
  {
    if n > 0 {
      LaterMappingsUnseen(file, ms, m, n - 1, a);
    }
  }

  /** Copying one more mapping overwrites exactly the bytes it covers. */
  lemma CopyOneMore(file: File, ms: seq<Mapping>, m: Mapping, a: int)
    requires AllInFile(ms, |file|) && m.InFile(|file|)
    ensures AllInFile(ms + [m], |file|)
    ensures ByteAt(file, ms + [m], a) == if m.Covers(a) then Pick(file, m, a) else ByteAt(file, ms, a)
  {
    LaterMappingsUnseen(file, ms, m, |ms|, a);
  }

  lemma {:induction false} LastCoverExists(ms: seq<Mapping>, a: int) returns (k: nat)
    requires Covered(ms, a)
    ensures k < |ms| && LastCover(ms, k, a)
  {
    k := |ms| - 1;
    if !ms[k].Covers(a) {
      var m :| m in ms && m.Covers(a);
      assert m in ms[..k];
      k := LastCoverExists(ms[..k], a);
    }
  }

  /** m is the last mapping in load order that covers a. */
  ghost predicate Wins(ms: seq<Mapping>, m: Mapping, a: int) {
    exists k: nat | k < |ms| :: ms[k] == m && LastCover(ms, k, a)
  }

  lemma ByteMeaning(file: File, ms: seq<Mapping>, a: int)
    requires AllInFile(ms, |file|)
    ensures Covered(ms, a) ==> exists m :: Wins(ms, m, a)
    ensures forall m :: Wins(ms, m, a) ==> ByteAt(file, ms, a) == Pick(file, m, a)
    ensures !Covered(ms, a) ==> ByteAt(file, ms, a) == 0
  {
    if Covered(ms, a) {
      var k := LastCoverExists(ms, a);
      assert Wins(ms, ms[k], a);
    } else {
      UncoveredIsZero(file, ms, a);
    }
    forall m | Wins(ms, m, a) ensures ByteAt(file, ms, a) == Pick(file, m, a) {
      var k: nat :| k < |ms| && ms[k] == m && LastCover(ms, k, a);
      LastCoverWins(file, ms, k, a);
    }
  }

  /** Every byte of a loaded image, in terms of the commands it was loaded from. */
  lemma ImageMeaning(file: File, cmds: seq<Command>, useSections: bool, a: int)
    requires Load(file, cmds, useSections).Some?
    requires var l := Load(file, cmds, useSections).value; l.base <= a < l.base + |l.bytes|
    ensures var l := Load(file, cmds, useSections).value; var ms := Mappings(cmds, useSections);
            && AllInFile(ms, |file|)
            && (Covered(ms, a) ==> exists m :: Wins(ms, m, a))
            && (forall m :: Wins(ms, m, a) ==> At(l, a) == Pick(file, m, a))
            && (!Covered(ms, a) ==> At(l, a) == 0)
  {
    LoadByte(file, cmds, useSections, a);
    ByteMeaning(file, Mappings(cmds, useSections), a);
  }

  // ---------------------------------------------------------- order independence

  /** Wherever two mappings overlap they hold the same bytes. */
  ghost predicate Consistent(file: File, ms: seq<Mapping>) {
    && AllInFile(ms, |file|)
    && forall p <- ms, q <- ms, a: int :: p.Covers(a) && q.Covers(a) ==> Pick(file, p, a) == Pick(file, q, a)
  }

  ghost predicate PairwiseDisjoint(ms: seq<Mapping>) {
    forall i, j :: 0 <= i < j < |ms| ==>
      ms[i].addr + ms[i].size <= ms[j].addr || ms[j].addr + ms[j].size <= ms[i].addr
  }

  lemma DisjointIsConsistent(file: File, ms: seq<Mapping>)
    requires AllInFile(ms, |file|) && PairwiseDisjoint(ms)
    ensures Consistent(file, ms)
  {
    forall p, q, a: int | p in ms && q in ms && p.Covers(a) && q.Covers(a)
      ensures p == q
    {
      var i :| 0 <= i < |ms| && ms[i] == p;
      var j :| 0 <= j < |ms| && ms[j] == q;
      assert !(i < j) && !(j < i);
    }
  }

  lemma AnyCoverWins(file: File, ms: seq<Mapping>, m: Mapping, a: int)
    requires Consistent(file, ms)
    requires m in ms && m.Covers(a)
    ensures ByteAt(file, ms, a) == Pick(file, m, a)
  {
    var k := LastCoverExists(ms, a);
    LastCoverWins(file, ms, k, a);
  }

  /** Consistent lists with the same members describe the same bytes. */
  lemma SameMembersSameBytes(file: File, ms: seq<Mapping>, ns: seq<Mapping>, a: int)
    requires Consistent(file, ms) && AllInFile(ns, |file|)
    requires forall m :: m in ms <==> m in ns
    ensures ByteAt(file, ms, a) == ByteAt(file, ns, a)
  {
    if Covered(ms, a) {
      var m :| m in ms && m.Covers(a);
      AnyCoverWins(file, ms, m, a);
      assert Consistent(file, ns);
      AnyCoverWins(file, ns, m, a);
    } else {
      UncoveredIsZero(file, ms, a);
      UncoveredIsZero(file, ns, a);
    }
  }

  lemma SameBytesSameImage(f: File, g: File, ms: seq<Mapping>, ns: seq<Mapping>, base: nat, size: nat)
    requires AllInFile(ms, |f|) && AllInFile(ns, |g|)
    requires forall a: int :: ByteAt(f, ms, a) == ByteAt(g, ns, a)
    ensures ImageOf(f, ms, base, size) == ImageOf(g, ns, base, size)
  {
  }

  lemma SameMembersSameMappings(cmds: seq<Command>, ds: seq<Command>, useSections: bool, m: Mapping)
    requires forall c :: c in cmds <==> c in ds
    ensures m in Mappings(cmds, useSections) <==> m in Mappings(ds, useSections)
  {
    MappingsMembers(cmds, useSections, m);
    MappingsMembers(ds, useSections, m);
  }

  /** Whether pass 1 gets through, and with which hull, never depends on the order. */
  lemma HullOrderIrrelevant(cmds: seq<Command>, ds: seq<Command>, useSections: bool, flen: nat)
    requires flen < TWO63
    requires forall c :: c in cmds <==> c in ds
    ensures var s := Survey(cmds, useSections, flen); var t := Survey(ds, useSections, flen);
            && (s.Hull? <==> t.Hull?)
            && (s.Hull? ==> s == t)
  {
    SurveyMeaning(cmds, useSections, flen);
    SurveyMeaning(ds, useSections, flen);
    var ms, ns := Mappings(cmds, useSections), Mappings(ds, useSections);
    forall m ensures m in ms <==> m in ns {
      SameMembersSameMappings(cmds, ds, useSections, m);
    }
    assert (ms != [] ==> ms[0] in ns) && (ns != [] ==> ns[0] in ms);
  }

  lemma LoadOrderIrrelevant(file: File, cmds: seq<Command>, ds: seq<Command>, useSections: bool)
    requires forall c :: c in cmds <==> c in ds
    requires Load(file, cmds, useSections).Some?
    requires Consistent(file, Mappings(cmds, useSections))
    ensures Load(file, ds, useSections) == Load(file, cmds, useSections)
  {
    HullOrderIrrelevant(cmds, ds, useSections, |file|);
    var h := Survey(cmds, useSections, |file|);
    var ms, ns := Mappings(cmds, useSections), Mappings(ds, useSections);
    assert AllInFile(ns, |file|) by {
      SurveyMeaning(ds, useSections, |file|);
    }
    forall a: int ensures ByteAt(file, ms, a) == ByteAt(file, ns, a) {
      forall m ensures m in ms <==> m in ns {
        SameMembersSameMappings(cmds, ds, useSections, m);
      }
      SameMembersSameBytes(file, ms, ns, a);
    }
    SameBytesSameImage(file, file, ms, ns, h.lowest, h.highest - h.lowest);
  }

  /** Every reordering of the commands loads the same base, length and bytes. */
  ghost predicate OrderFree(file: File, cmds: seq<Command>, useSections: bool) {
    forall ds: seq<Command> ::
      multiset(ds) == multiset(cmds) ==> Load(file, ds, useSections) == Load(file, cmds, useSections)
  }

  /** The command of the mapping p, moved to the end of the list. */
  lemma MoveLast(cmds: seq<Command>, useSections: bool, p: Mapping) returns (rest: seq<Command>, c: Command)
    requires p in Mappings(cmds, useSections)
    ensures MappingOf(c, useSections) == Some(p)
    ensures multiset(rest + [c]) == multiset(cmds)
    ensures forall x :: x in cmds <==> x in rest + [c]
  {
    MappingsMembers(cmds, useSections, p);
    c :| c in cmds && MappingOf(c, useSections) == Some(p);
    var i :| 0 <= i < |cmds| && cmds[i] == c;
    rest := cmds[..i] + cmds[i + 1..];
    assert cmds == cmds[..i] + [c] + cmds[i + 1..];
    forall x ensures x in cmds <==> x in rest + [c] {
      assert x in multiset(cmds) <==> x in multiset(rest + [c]);
    }
  }

  lemma LastCommandWins(file: File, rest: seq<Command>, c: Command, useSections: bool, p: Mapping, a: int)
    requires Load(file, rest + [c], useSections).Some?
    requires MappingOf(c, useSections) == Some(p) && p.Covers(a)
    requires var l := Load(file, rest + [c], useSections).value; l.base <= a < l.base + |l.bytes|
    ensures var l := Load(file, rest + [c], useSections).value;
            p.InFile(|file|) && At(l, a) == Pick(file, p, a)
  {
    SurveyMeaning(rest + [c], useSections, |file|);
    MappingsAppend(rest, c, useSections);
    var ms := Mappings(rest + [c], useSections);
    assert ms == Mappings(rest, useSections) + [p];
    assert ms[|ms| - 1] == p && p in ms;
    LastCoverWins(file, ms, |ms| - 1, a);
  }

  /** If every order loads the same image, that image has the byte of every covering mapping. */
  lemma OrderFreeByte(file: File, cmds: seq<Command>, useSections: bool, p: Mapping, a: int)
    requires Load(file, cmds, useSections).Some? && OrderFree(file, cmds, useSections)
    requires p in Mappings(cmds, useSections) && p.Covers(a)
    requires AllInAddressSpace(Mappings(cmds, useSections))
    ensures var l := Load(file, cmds, useSections).value;
            && p.InFile(|file|) && l.base <= a < l.base + |l.bytes|
            && At(l, a) == Pick(file, p, a)
  {
    TightHull(cmds, useSections, |file|);
    var rest, c := MoveLast(cmds, useSections, p);
    assert Load(file, rest + [c], useSections) == Load(file, cmds, useSections);
    LastCommandWins(file, rest, c, useSections, p, a);
  }

  lemma ConsistentIsOrderFree(file: File, cmds: seq<Command>, useSections: bool)
    requires Load(file, cmds, useSections).Some?
    requires Consistent(file, Mappings(cmds, useSections))
    ensures OrderFree(file, cmds, useSections)
  {
    forall ds: seq<Command> | multiset(ds) == multiset(cmds)
      ensures Load(file, ds, useSections) == Load(file, cmds, useSections)
    {
      forall c ensures c in cmds <==> c in ds {
        assert c in multiset(cmds) <==> c in multiset(ds);
      }
      LoadOrderIrrelevant(file, cmds, ds, useSections);
    }
  }

  /**
   Loading is independent of the command order exactly when overlapping
   mappings agree byte for byte; disjoint mappings are the special case.
   */
  lemma OrderIndependence(file: File, cmds: seq<Command>, useSections: bool)
    requires Load(file, cmds, useSections).Some?
    requires AllInAddressSpace(Mappings(cmds, useSections))
    ensures var ms := Mappings(cmds, useSections);
            && AllInFile(ms, |file|)
            && (OrderFree(file, cmds, useSections) <==> Consistent(file, ms))
            && (PairwiseDisjoint(ms) ==> OrderFree(file, cmds, useSections))
  {
    MappedInFile(file, cmds, useSections);
    var ms := Mappings(cmds, useSections);
    if OrderFree(file, cmds, useSections) {
      forall p, q, a: int | p in ms && q in ms && p.Covers(a) && q.Covers(a)
        ensures Pick(file, p, a) == Pick(file, q, a)
      {
        OrderFreeByte(file, cmds, useSections, p, a);
        OrderFreeByte(file, cmds, useSections, q, a);
      }
    }
    if PairwiseDisjoint(ms) {
      DisjointIsConsistent(file, ms);
    }
    if Consistent(file, ms) {
      ConsistentIsOrderFree(file, cmds, useSections);
    }
  }

  // ---------------------------------------------------------- irrelevant commands

  /** Not a segment command, or nothing to copy. */
  predicate Irrelevant(c: Command, useSections: bool) {
    var r := Range(c, useSections);
    r.NotASegment? || (r.Mapped? && r.size == 0)
  }

  function Relevant(cmds: seq<Command>, useSections: bool): seq<Command> {
    if cmds == [] then [] else
      Relevant(cmds[..|cmds| - 1], useSections) +
      (if Irrelevant(cmds[|cmds| - 1], useSections) then [] else [cmds[|cmds| - 1]])
  }

  lemma {:induction false} RelevantSuffice(cmds: seq<Command>, useSections: bool, flen: nat)
    ensures var rs := Relevant(cmds, useSections);
            && Survey(rs, useSections, flen) == Survey(cmds, useSections, flen)
            && Mappings(rs, useSections) == Mappings(cmds, useSections)
  {
    if cmds != [] {
      var init, c := cmds[..|cmds| - 1], cmds[|cmds| - 1];
      RelevantSuffice(init, useSections, flen);
      if Irrelevant(c, useSections) {
        assert Judge(c, useSections, flen) == Skip && MappingOf(c, useSections) == None;
        assert Relevant(cmds, useSections) == Relevant(init, useSections);
      } else {
        SurveyAppend(Relevant(init, useSections), c, useSections, flen);
        MappingsAppend(Relevant(init, useSections), c, useSections);
      }
    }
  }

  /** Hull and mappings determine what is loaded. */
  lemma SameSurveySameLoad(file: File, cmds: seq<Command>, ds: seq<Command>, useSections: bool)
    requires Survey(cmds, useSections, |file|) == Survey(ds, useSections, |file|)
    requires Mappings(cmds, useSections) == Mappings(ds, useSections)
    ensures Load(file, cmds, useSections) == Load(file, ds, useSections)
  {
  }

  /** Deleting every irrelevant command changes neither the outcome of pass 1 nor the image. */
  lemma IrrelevantCommands(file: File, cmds: seq<Command>, useSections: bool)
    ensures var rs := Relevant(cmds, useSections);
            && Survey(rs, useSections, |file|) == Survey(cmds, useSections, |file|)
            && Load(file, rs, useSections) == Load(file, cmds, useSections)
  {
    RelevantSuffice(cmds, useSections, |file|);
    SameSurveySameLoad(file, Relevant(cmds, useSections), cmds, useSections);
  }

  lemma {:induction false} OtherSurveyed(s: seq<Command>, t: seq<Command>, useSections: bool, flen: nat)
    ensures Survey(s + [Other] + t, useSections, flen) == Survey(s + t, useSections, flen)
    ensures Mappings(s + [Other] + t, useSections) == Mappings(s + t, useSections)
  {
    if t == [] {
      OtherIsSkipped(useSections, flen);
      SurveyAppend(s, Other, useSections, flen);
      MappingsAppend(s, Other, useSections);
      assert s + [Other] + t == s + [Other] && s + t == s;
    } else {
      var init, c := t[..|t| - 1], t[|t| - 1];
      OtherSurveyed(s, init, useSections, flen);
      assert s + [Other] + t == (s + [Other] + init) + [c] && s + t == (s + init) + [c];
      SurveyAppend(s + [Other] + init, c, useSections, flen);
      SurveyAppend(s + init, c, useSections, flen);
      MappingsAppend(s + [Other] + init, c, useSections);
      MappingsAppend(s + init, c, useSections);
    }
  }

  /** A command that is no segment changes nothing, wherever it stands in the list. */
  lemma OtherCommandsIgnored(file: File, s: seq<Command>, t: seq<Command>, useSections: bool)
    ensures Survey(s + [Other] + t, useSections, |file|) == Survey(s + t, useSections, |file|)
    ensures Load(file, s + [Other] + t, useSections) == Load(file, s + t, useSections)
  {
    OtherSurveyed(s, t, useSections, |file|);
    SameSurveySameLoad(file, s + [Other] + t, s + t, useSections);
  }

  // ----------------------------------------------------------------- mode agreement

  /** p copies a part of what g copies, to the same addresses. */
  predicate PartOf(p: Mapping, g: Mapping) {
    && g.addr <= p.addr && p.addr + p.size <= g.addr + g.size
    && p.off - g.off == p.addr - g.addr
  }

  ghost predicate Within(ps: seq<Mapping>, gs: seq<Mapping>) {
    forall p <- ps :: exists g <- gs :: PartOf(p, g)
  }

  /** What section mode maps of a segment is a part of what segment mode maps of it. */
  lemma SectionPartOfSegment(c: Command, flen: nat, p: Mapping) returns (g: Mapping)
    requires flen < TWO63 && Acceptable(c, false, flen)
    requires MappingOf(c, true) == Some(p)
    ensures MappingOf(c, false) == Some(g) && PartOf(p, g)
  {
    var w := if c.Seg32? then TWO32 else TWO64;
    SectionModeNeverWraps(w, c.seg);
    g := Mapping(c.seg.vmaddr, c.seg.fileoff, c.seg.filesize);
  }

  lemma SectionsWithinSegments(cmds: seq<Command>, flen: nat)
    requires flen < TWO63 && Survey(cmds, false, flen).Hull?
    ensures Within(Mappings(cmds, true), Mappings(cmds, false))
  {
    SurveyMeaning(cmds, false, flen);
    forall p | p in Mappings(cmds, true) ensures exists g <- Mappings(cmds, false) :: PartOf(p, g) {
      MappingsMembers(cmds, true, p);
      var c :| c in cmds && MappingOf(c, true) == Some(p);
      var g := SectionPartOfSegment(c, flen, p);
      MappingsMembers(cmds, false, g);
    }
  }

  lemma HullWithin(ps: seq<Mapping>, gs: seq<Mapping>, lo: u64, hi: u64, lo': u64, hi': u64)
    requires Within(ps, gs) && AllInAddressSpace(gs)
    requires IsExtent(ps, lo, hi) && IsExtent(gs, lo', hi')
    ensures lo' <= lo && hi <= hi'
  {
    var p :| p in ps && p.addr == lo;
    var g :| g in gs && PartOf(p, g);
    assert lo' <= g.addr;
    var q :| q in ps && Add(TWO64, q.addr, q.size) == hi;
    var h :| h in gs && PartOf(q, h);
    assert h.addr + h.size <= hi';
  }

  lemma PartOfOneByte(file: File, p: Mapping, gs: seq<Mapping>, a: int)
    requires Consistent(file, gs)
    requires p.InFile(|file|) && p.Covers(a) && exists g <- gs :: PartOf(p, g)
    ensures ByteAt(file, gs, a) == Pick(file, p, a)
  {
    var g :| g in gs && PartOf(p, g);
    AnyCoverWins(file, gs, g, a);
  }

  lemma WinnerCovers(ms: seq<Mapping>, m: Mapping, a: int)
    requires Wins(ms, m, a)
    ensures m in ms && m.Covers(a)
  {
  }

  lemma PartByte(file: File, ps: seq<Mapping>, gs: seq<Mapping>, a: int)
    requires AllInFile(ps, |file|) && Within(ps, gs) && Consistent(file, gs)
    ensures ByteAt(file, ps, a) == if Covered(ps, a) then ByteAt(file, gs, a) else 0
  {
    ByteMeaning(file, ps, a);
    if Covered(ps, a) {
      var p :| Wins(ps, p, a);
      WinnerCovers(ps, p, a);
      assert p.InFile(|file|);
      PartOfOneByte(file, p, gs, a);
    }
  }

  /**
   If both modes accept the commands and the segments agree where they overlap,
   the section image lies inside the segment image, has the same byte wherever
   a section range covers the address, and is 0 everywhere else.
   */
  lemma ModeAgreement(file: File, cmds: seq<Command>, s: Loaded, g: Loaded)
    requires Load(file, cmds, true) == Some(s) && Load(file, cmds, false) == Some(g)
    requires AllInAddressSpace(Mappings(cmds, false))
    requires Consistent(file, Mappings(cmds, false))
    ensures g.base <= s.base && s.base + |s.bytes| <= g.base + |g.bytes|
    ensures forall a :: s.base <= a < s.base + |s.bytes| ==>
              At(s, a) == if Covered(Mappings(cmds, true), a) then At(g, a) else 0
  {
    var ps, gs := Mappings(cmds, true), Mappings(cmds, false);
    LoadHull(file, cmds, true);
    LoadHull(file, cmds, false);
    SectionsWithinSegments(cmds, |file|);
    HullWithin(ps, gs, s.base, s.base + |s.bytes|, g.base, g.base + |g.bytes|);
    forall a | s.base <= a < s.base + |s.bytes|
      ensures At(s, a) == if Covered(ps, a) then At(g, a) else 0
    {
      LoadByte(file, cmds, true, a);
      LoadByte(file, cmds, false, a);
      PartByte(file, ps, gs, a);
    }
  }

  // ------------------------------------------------------------- bytes that matter

  /** Two files of one length hold the same bytes in every mapped file range. */
  ghost predicate SameMappedBytes(f: File, g: File, ms: seq<Mapping>) {
    && |f| == |g|
    && forall m <- ms, i: int :: m.off <= i < m.off + m.size && i < |f| ==> f[i] == g[i]
  }

  lemma {:induction false} SameMappedBytesSameByte(f: File, g: File, ms: seq<Mapping>, n: nat, a: int)
    requires AllInFile(ms, |f|) && SameMappedBytes(f, g, ms) && n <= |ms|
    ensures ByteUpTo(f, ms, n, a) == ByteUpTo(g, ms, n, a)
  {
    if n > 0 {
      assert ms[n - 1] in ms;
      SameMappedBytesSameByte(f, g, ms, n - 1, a);
    }
  }

  /** Loading reads nothing of the file outside the mapped ranges. */
  lemma OnlyMappedBytesMatter(f: File, g: File, cmds: seq<Command>, useSections: bool)
    requires SameMappedBytes(f, g, Mappings(cmds, useSections))
    ensures Load(f, cmds, useSections) == Load(g, cmds, useSections)
  {
    if Load(f, cmds, useSections).Some? {
      var ms := Mappings(cmds, useSections);
      MappedInFile(f, cmds, useSections);
      forall a: int ensures ByteAt(f, ms, a) == ByteAt(g, ms, a) {
        SameMappedBytesSameByte(f, g, ms, |ms|, a);
      }
      var h := Survey(cmds, useSections, |f|);
      SameBytesSameImage(f, g, ms, ms, h.lowest, h.highest - h.lowest);
    }
  }
}
