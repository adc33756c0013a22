/**
 The command line: option words with clustered flags, names for C that are
 taken from the following arguments, then the input and the output file.
 */
module Options {
  import opened Wrappers

  datatype Mode = Binary | HeadlessArray | NamedArray

  /** The variables that the option loop sets. */
  datatype Settings = Settings(mode: Mode, name: Option<string>, force: bool, useSections: bool)

  const DEFAULTS: Settings := Settings(Binary, None, false, true)

  datatype Parsed =
    | Run(settings: Settings, infile: string, outfile: string)
    | MissingName
    | BadOption(c: char)
    | Usage

  /** An argument of at least two characters that starts with a dash. */
  predicate IsOptionWord(arg: string) {
    |arg| >= 2 && arg[0] == '-'
  }

  // -------------------------------------------- the loop, by what is left to read

  /** At a word position, with the arguments `args` left. */
  function ReadWords(args: seq<string>, s: Settings): Parsed
    decreases |args|, 1, 0
  {
    if args == [] || !IsOptionWord(args[0]) then
      if |args| == 2 then Run(s, args[0], args[1]) else Usage
    else ReadFlags(args[0][1..], args[1..], s)
  }

  /** Inside an option word, with the flags `flags` and then the arguments `rest` left. */
  function ReadFlags(flags: string, rest: seq<string>, s: Settings): Parsed
    decreases |rest| + 1, 0, |flags|
  {
    if flags == "" then ReadWords(rest, s)
    else
      var c, more := flags[0], flags[1..];
      if c == 'c' then ReadFlags(more, rest, s.(mode := HeadlessArray))
      else if c == 'C' then
        if |rest| < 3 then MissingName
        else ReadFlags(more, rest[1..], s.(mode := NamedArray, name := Some(rest[0])))
      else if c == 'f' then ReadFlags(more, rest, s.(force := true))
      else if c == 's' then ReadFlags(more, rest, s.(useSections := false))
      else BadOption(c)
  }

  function Parse(argv: seq<string>): Parsed {
    if argv == [] then Usage else ReadWords(argv[1..], DEFAULTS)
  }

  /** The option loops of the program; the inner one also advances the outer index. */
  method ParseOptions(argv: seq<string>) returns (r: Parsed)
    ensures r == Parse(argv)
  {
    var argc := |argv|;
    var s := DEFAULTS;
    var aoff := 1;
    while aoff < argc
      invariant aoff >= 1 && (argc > 0 ==> aoff <= argc && ReadWords(argv[aoff..], s) == Parse(argv))
    {
      if !IsOptionWord(argv[aoff]) {
        break;
      }
      var curoff := aoff;
      var i := 1;
      while i < |argv[curoff]|
        invariant 1 <= i <= |argv[curoff]| && curoff <= aoff < argc
        invariant ReadFlags(argv[curoff][i..], argv[aoff + 1..], s) == Parse(argv)
          decreases |argv[curoff]| - i
      {
        var c := argv[curoff][i];
        assert argv[curoff][i..][1..] == argv[curoff][i + 1..];
        match c {
          case 'c' =>
            s := s.(mode := HeadlessArray);
          case 'C' =>
            if argc - aoff < 4 {
              return MissingName;
            }
            assert argv[aoff + 1..][1..] == argv[aoff + 2..];
            aoff := aoff + 1;
            s := s.(mode := NamedArray, name := Some(argv[aoff]));
          case 'f' =>
            s := s.(force := true);
          case 's' =>
            s := s.(useSections := false);
          case _ =>
            return BadOption(c);
        }
        i := i + 1;
      }
      aoff := aoff + 1;
    }
    if argc - aoff != 2 {
      return Usage;
    }
    return Run(s, argv[aoff], argv[aoff + 1]);
  }

  // --------------------------------------------------- command lines by their shape

  /** An option word without its dash, and the arguments its C flags take. */
  datatype Group = Group(flags: string, names: seq<string>)

  function CountC(flags: string): nat {
    if flags == "" then 0 else (if flags[0] == 'C' then 1 else 0) + CountC(flags[1..])
  }

  predicate ValidFlags(flags: string) {
    forall c <- flags :: c in "cCfs"
  }

  predicate ValidGroup(g: Group) {
    g.flags != "" && ValidFlags(g.flags) && |g.names| == CountC(g.flags)
  }

  /** Each word is followed by the names it takes; those are not looked at. */
  function Spell(groups: seq<Group>): seq<string> {
    if groups == [] then [] else (["-" + groups[0].flags] + groups[0].names) + Spell(groups[1..])
  }

  function AllFlags(groups: seq<Group>): string {
    if groups == [] then "" else groups[0].flags + AllFlags(groups[1..])
  }

  function AllNames(groups: seq<Group>): seq<string> {
    if groups == [] then [] else groups[0].names + AllNames(groups[1..])
  }

  /** The last c or C decides the mode. */
  function LastMode(flags: string, otherwise: Mode): Mode {
    if flags == "" then otherwise
    else if flags[|flags| - 1] == 'c' then HeadlessArray
    else if flags[|flags| - 1] == 'C' then NamedArray
    else LastMode(flags[..|flags| - 1], otherwise)
  }

  /** What all flags in the order of the command line, and all names, amount to. */
  function Summary(flags: string, names: seq<string>, s: Settings): Settings {
    Settings(LastMode(flags, s.mode),
             if names == [] then s.name else Some(names[|names| - 1]),
             s.force || 'f' in flags,
             s.useSections && 's' !in flags)
  }

  lemma {:induction false} LastModeAppend(s: string, t: string, otherwise: Mode)
    ensures LastMode(s + t, otherwise) == LastMode(t, LastMode(s, otherwise))
  {
    if t == "" {
      assert s + t == s;
    } else {
      assert (s + t)[..|s + t| - 1] == s + t[..|t| - 1];
      LastModeAppend(s, t[..|t| - 1], otherwise);
    }
  }

  lemma SummaryAppend(f1: string, n1: seq<string>, f2: string, n2: seq<string>, s: Settings)
    ensures Summary(f1 + f2, n1 + n2, s) == Summary(f2, n2, Summary(f1, n1, s))
  {
    LastModeAppend(f1, f2, s.mode);
  }

  /** What one flag does to the settings. */
  lemma OneFlag(c: char, s: Settings)
    ensures Summary(['c'], [], s) == s.(mode := HeadlessArray)
    ensures forall name :: Summary(['C'], [name], s) == s.(mode := NamedArray, name := Some(name))
    ensures Summary(['f'], [], s) == s.(force := true)
    ensures Summary(['s'], [], s) == s.(useSections := false)
  {
    assert LastMode([c][..0], s.mode) == s.mode;
  }

  /** There is no c and no C among the flags from i on. */
  ghost predicate NeitherFrom(flags: string, i: int) {
    forall j :: i <= j < |flags| && 0 <= j ==> flags[j] != 'c' && flags[j] != 'C'
  }

  /** The last c or C of the flags is c. */
  ghost predicate LastIs(flags: string, c: char) {
    exists i :: 0 <= i < |flags| && flags[i] == c && NeitherFrom(flags, i + 1)
  }

  lemma {:induction false} LastModeMeaning(flags: string)
    ensures LastMode(flags, Binary) == Binary <==> 'c' !in flags && 'C' !in flags
    ensures LastMode(flags, Binary) == HeadlessArray <==> LastIs(flags, 'c')
    ensures LastMode(flags, Binary) == NamedArray <==> LastIs(flags, 'C')
  {
    if flags != "" {
      var init, c := flags[..|flags| - 1], flags[|flags| - 1];
      LastModeMeaning(init);
      assert flags == init + [c];
      LastOfMore(init, c, 'c');
      LastOfMore(init, c, 'C');
    }
  }

  lemma LastOfMore(flags: string, d: char, c: char)
    requires c == 'c' || c == 'C'
    ensures LastIs(flags + [d], c) <==> if d == 'c' || d == 'C' then d == c else LastIs(flags, c)
  {
    var more := flags + [d];
    assert more[|flags|] == d;
    if LastIs(flags, c) && d != 'c' && d != 'C' {
      var i :| 0 <= i < |flags| && flags[i] == c && NeitherFrom(flags, i + 1);
      assert more[i] == c;
    }
    if LastIs(more, c) && d != 'c' && d != 'C' {
      var i :| 0 <= i < |more| && more[i] == c && NeitherFrom(more, i + 1);
      assert forall j :: i < j < |flags| ==> flags[j] == more[j];
      assert flags[i] == c;
    }
  }

  /** What the flags and the names of a whole command line set. */
  ghost predicate Sets(flags: string, names: seq<string>, s: Settings) {
    && (s.mode == Binary <==> 'c' !in flags && 'C' !in flags)
    && (s.mode == HeadlessArray <==> LastIs(flags, 'c'))
    && (s.mode == NamedArray <==> LastIs(flags, 'C'))
    && s.name == (if names == [] then None else Some(names[|names| - 1]))
    && (s.force <==> 'f' in flags)
    && (s.useSections <==> 's' !in flags)
  }

  lemma SummarySets(flags: string, names: seq<string>, s: Settings)
    ensures s == Summary(flags, names, DEFAULTS) <==> Sets(flags, names, s)
  {
    LastModeMeaning(flags);
  }

  // ------------------------------------------------------- reading what has a shape

  /** Flags with enough arguments behind their names are read up to what follows. */
  lemma {:induction false} FlagsRead(pre: string, names: seq<string>, post: string, rest: seq<string>, s: Settings)
    requires ValidFlags(pre) && |names| == CountC(pre) && (names != [] ==> |rest| >= 2)
    ensures ReadFlags(pre + post, names + rest, s) == ReadFlags(post, rest, Summary(pre, names, s))
    decreases |pre|
  {
    if pre == "" {
      assert pre + post == post && names + rest == rest;
    } else {
      var c, more := pre[0], pre[1..];
      assert c in pre && forall d <- more :: d in pre;
      assert pre == [c] + more && (pre + post)[1..] == more + post;
      OneFlag(c, s);
      if c == 'C' {
        assert (names + rest)[1..] == names[1..] + rest && names == [names[0]] + names[1..];
        FlagsRead(more, names[1..], post, rest, Summary([c], [names[0]], s));
        SummaryAppend([c], [names[0]], more, names[1..], s);
      } else {
        assert names == [] + names;
        FlagsRead(more, names, post, rest, Summary([c], [], s));
        SummaryAppend([c], [], more, names, s);
      }
    }
  }

  /** At least two arguments follow the names that any of the words takes; C insists on that. */
  predicate EnoughBehind(groups: seq<Group>, tail: seq<string>) {
    groups == [] ||
    ((groups[0].names != [] ==> |Spell(groups[1..])| + |tail| >= 2) && EnoughBehind(groups[1..], tail))
  }

  ghost predicate ValidGroups(groups: seq<Group>) {
    forall g <- groups :: ValidGroup(g)
  }

  /** Well-shaped words are read up to what follows them. */
  lemma {:induction false} WordsRead(groups: seq<Group>, tail: seq<string>, s: Settings)
    requires ValidGroups(groups) && EnoughBehind(groups, tail)
    ensures ReadWords(Spell(groups) + tail, s) == ReadWords(tail, Summary(AllFlags(groups), AllNames(groups), s))
    decreases |groups|
  {
    if groups == [] {
      assert Spell(groups) + tail == tail;
    } else {
      var g, more := groups[0], groups[1..];
      assert g in groups && forall h <- more :: h in groups;
      SpellFirst(groups, tail);
      assert ("-" + g.flags)[1..] == g.flags && g.flags + "" == g.flags;
      FlagsRead(g.flags, g.names, "", Spell(more) + tail, s);
      WordsRead(more, tail, Summary(g.flags, g.names, s));
      SummaryAppend(g.flags, g.names, AllFlags(more), AllNames(more), s);
    }
  }

  lemma SpellFirst(groups: seq<Group>, files: seq<string>)
    requires groups != []
    ensures var args := Spell(groups) + files;
            && args[0] == "-" + groups[0].flags
            && args[1..] == groups[0].names + (Spell(groups[1..]) + files)
  {
    var word := ["-" + groups[0].flags];
    assert Spell(groups) + files == word + (groups[0].names + (Spell(groups[1..]) + files));
  }

  // ------------------------------------------------------------ every shape there is

  /** The flags cannot be read further: at their end, at an unknown one, or at a C without enough behind it. */
  predicate Blocked(flags: string, rest: seq<string>) {
    flags == "" || flags[0] !in "cCfs" || (flags[0] == 'C' && |rest| < 3)
  }

  /** The part of a word that can be read, the names it takes, and what is left of both. */
  lemma {:induction false} FlagsSplit(flags: string, args: seq<string>)
      returns (pre: string, names: seq<string>, post: string, rest: seq<string>)
    ensures flags == pre + post && args == names + rest
    ensures ValidFlags(pre) && |names| == CountC(pre) && (names != [] ==> |rest| >= 2) && Blocked(post, rest)
    decreases |flags|
  {
    pre, names, post, rest := "", [], flags, args;
    if !Blocked(flags, args) {
      var c := flags[0];
      var before;
      if c == 'C' {
        before, names, post, rest := FlagsSplit(flags[1..], args[1..]);
        names := [args[0]] + names;
        assert args == [args[0]] + args[1..];
      } else {
        before, names, post, rest := FlagsSplit(flags[1..], args);
      }
      pre := [c] + before;
      assert pre[1..] == before && flags == [c] + flags[1..];
    }
  }

  /** What stops the reading of the words: no word, or a word that is blocked. */
  ghost predicate Ends(tail: seq<string>) {
    tail == [] || !IsOptionWord(tail[0]) || exists st :: BlockedWord(tail, st)
  }

  /** A blocked word: flags that are read, the names they take, and flags that are not read. */
  datatype Stop = Stop(pre: string, names: seq<string>, post: string, rest: seq<string>)

  predicate BlockedWord(tail: seq<string>, st: Stop) {
    && tail == ["-" + (st.pre + st.post)] + (st.names + st.rest)
    && ValidFlags(st.pre) && |st.names| == CountC(st.pre) && (st.names != [] ==> |st.rest| >= 2)
    && st.post != "" && Blocked(st.post, st.rest)
  }

  /** Every list of arguments is well-shaped words and then something that ends them. */
  lemma {:induction false} WordsSplit(args: seq<string>) returns (groups: seq<Group>, tail: seq<string>)
    ensures args == Spell(groups) + tail && ValidGroups(groups) && EnoughBehind(groups, tail) && Ends(tail)
    decreases |args|
  {
    groups, tail := [], args;
    if args != [] && IsOptionWord(args[0]) {
      var pre, names, post, rest := FlagsSplit(args[0][1..], args[1..]);
      assert args == [args[0]] + (names + rest) && args[0] == "-" + (pre + post);
      if post == "" {
        assert pre + post == pre;
        groups, tail := WordsSplit(rest);
        SpellMore(Group(pre, names), groups, tail);
        groups := [Group(pre, names)] + groups;
      } else {
        assert BlockedWord(tail, Stop(pre, names, post, rest));
      }
    }
  }

  lemma SpellMore(g: Group, more: seq<Group>, files: seq<string>)
    ensures ([g] + more)[1..] == more
    ensures Spell([g] + more) + files == ["-" + g.flags] + (g.names + (Spell(more) + files))
  {
    assert ([g] + more)[1..] == more;
  }

  // ------------------------------------------------------------------------ acceptance

  /** argv consists of the program, the groups, an input file that is no option word, and an output file. */
  ghost predicate Shaped(argv: seq<string>, groups: seq<Group>, infile: string, outfile: string) {
    && argv != [] && argv[1..] == Spell(groups) + [infile, outfile] && ValidGroups(groups)
    && !(|infile| >= 2 && infile[0] == '-')
  }

  lemma {:induction false} FilesAreEnough(groups: seq<Group>, tail: seq<string>)
    requires |tail| >= 2
    ensures EnoughBehind(groups, tail)
  {
    if groups != [] {
      FilesAreEnough(groups[1..], tail);
    }
  }

  lemma ShapedRuns(argv: seq<string>, groups: seq<Group>, infile: string, outfile: string) returns (s: Settings)
    requires Shaped(argv, groups, infile, outfile)
    ensures Parse(argv) == Run(s, infile, outfile)
    ensures s == Summary(AllFlags(groups), AllNames(groups), DEFAULTS) && Sets(AllFlags(groups), AllNames(groups), s)
  {
    s := Summary(AllFlags(groups), AllNames(groups), DEFAULTS);
    FilesAreEnough(groups, [infile, outfile]);
    WordsRead(groups, [infile, outfile], DEFAULTS);
    SummarySets(AllFlags(groups), AllNames(groups), s);
  }

  /**
   The program runs exactly on the command lines of that shape: an argument
   taken as a name is never read as an option, the last c or C decides the
   mode, the last C the name, and f and s count wherever they stand.
   */
  lemma AcceptedCommandLines(argv: seq<string>, s: Settings, infile: string, outfile: string)
    ensures Parse(argv) == Run(s, infile, outfile) <==>
              exists groups :: Shaped(argv, groups, infile, outfile) && Sets(AllFlags(groups), AllNames(groups), s)
  {
    if Parse(argv) == Run(s, infile, outfile) {
      var groups, tail := WordsSplit(argv[1..]);
      WordsRead(groups, tail, DEFAULTS);
      TailOutcome(tail, Summary(AllFlags(groups), AllNames(groups), DEFAULTS));
      assert tail == [infile, outfile];
      assert Shaped(argv, groups, infile, outfile);
      SummarySets(AllFlags(groups), AllNames(groups), s);
    }
    forall groups | Shaped(argv, groups, infile, outfile) && Sets(AllFlags(groups), AllNames(groups), s)
      ensures Parse(argv) == Run(s, infile, outfile)
    {
      var _ := ShapedRuns(argv, groups, infile, outfile);
      SummarySets(AllFlags(groups), AllNames(groups), s);
    }
  }

  // --------------------------------------------------------------------------- refusal

  /** What becomes of the arguments behind the words, whatever ends those. */
  lemma TailOutcome(tail: seq<string>, s: Settings)
    ensures tail == [] || !IsOptionWord(tail[0]) ==>
              ReadWords(tail, s) == if |tail| == 2 then Run(s, tail[0], tail[1]) else Usage
    ensures forall st :: BlockedWord(tail, st) ==>
              && IsOptionWord(tail[0])
              && ReadWords(tail, s) == if st.post[0] == 'C' then MissingName else BadOption(st.post[0])
    ensures Ends(tail) && ReadWords(tail, s).Run? ==> |tail| == 2 && !IsOptionWord(tail[0])
  {
    forall st | BlockedWord(tail, st)
      ensures IsOptionWord(tail[0])
      ensures ReadWords(tail, s) == if st.post[0] == 'C' then MissingName else BadOption(st.post[0])
    {
      assert tail[0][1..] == st.pre + st.post && tail[1..] == st.names + st.rest;
      FlagsRead(st.pre, st.names, st.post, st.rest, s);
    }
  }

  /** Behind well-shaped words, argv ends or goes on with something that is no word, but not with two files. */
  ghost predicate WrongFiles(argv: seq<string>, groups: seq<Group>, tail: seq<string>) {
    && argv != [] && argv[1..] == Spell(groups) + tail && ValidGroups(groups) && EnoughBehind(groups, tail)
    && (tail == [] || !(|tail[0]| >= 2 && tail[0][0] == '-')) && |tail| != 2
  }

  /** Behind well-shaped words, argv goes on with a word whose flag c is blocked. */
  ghost predicate StopsAt(argv: seq<string>, groups: seq<Group>, tail: seq<string>, st: Stop, c: char) {
    && argv != [] && argv[1..] == Spell(groups) + tail && ValidGroups(groups) && EnoughBehind(groups, tail)
    && BlockedWord(tail, st) && st.post[0] == c
  }

  /**
   Every refusal with its exact reason: an unknown flag, a C without a name and
   two files behind it, or anything but two files behind the words.
   */
  lemma RefusedCommandLines(argv: seq<string>, c: char)
    ensures Parse(argv) == BadOption(c) <==>
              c !in "cCfs" && exists groups, tail, st :: StopsAt(argv, groups, tail, st, c)
    ensures Parse(argv) == MissingName <==> exists groups, tail, st :: StopsAt(argv, groups, tail, st, 'C')
    ensures Parse(argv) == Usage <==> argv == [] || exists groups, tail :: WrongFiles(argv, groups, tail)
  {
    forall groups, tail |
      argv != [] && argv[1..] == Spell(groups) + tail && ValidGroups(groups) && EnoughBehind(groups, tail)
      ensures Parse(argv) == ReadWords(tail, Summary(AllFlags(groups), AllNames(groups), DEFAULTS))
    {
      WordsRead(groups, tail, DEFAULTS);
    }
    forall groups, tail, st, d | StopsAt(argv, groups, tail, st, d)
      ensures Parse(argv) == if d == 'C' then MissingName else BadOption(d)
    {
      TailOutcome(tail, Summary(AllFlags(groups), AllNames(groups), DEFAULTS));
    }
    forall groups, tail | WrongFiles(argv, groups, tail) ensures Parse(argv) == Usage {
      TailOutcome(tail, Summary(AllFlags(groups), AllNames(groups), DEFAULTS));
    }
    if argv != [] {
      var groups, tail := WordsSplit(argv[1..]);
      TailOutcome(tail, Summary(AllFlags(groups), AllNames(groups), DEFAULTS));
      if tail == [] || !IsOptionWord(tail[0]) {
        assert |tail| != 2 ==> WrongFiles(argv, groups, tail);
      } else {
        var st :| BlockedWord(tail, st);
        assert StopsAt(argv, groups, tail, st, st.post[0]);
      }
    }
  }

  lemma {:induction false} NamedHasC(flags: string)
    ensures LastMode(flags, Binary).NamedArray? ==> CountC(flags) > 0
  {
    if flags != "" {
      var n := |flags| - 1;
      CountCAppend(flags[..n], [flags[n]]);
      assert flags == flags[..n] + [flags[n]];
      NamedHasC(flags[..n]);
    }
  }

  lemma {:induction false} CountCAppend(s: string, t: string)
    ensures CountC(s + t) == CountC(s) + CountC(t)
  {
    if s == "" {
      assert s + t == t;
    } else {
      assert (s + t)[1..] == s[1..] + t;
      CountCAppend(s[1..], t);
    }
  }

  lemma {:induction false} NamesCount(groups: seq<Group>)
    requires forall g <- groups :: ValidGroup(g)
    ensures |AllNames(groups)| == CountC(AllFlags(groups))
  {
    if groups != [] {
      assert ValidGroup(groups[0]);
      NamesCount(groups[1..]);
      CountCAppend(groups[0].flags, AllFlags(groups[1..]));
    }
  }

  /** Whenever the program runs in named mode, a name has been set. */
  lemma NamedModeHasName(argv: seq<string>)
    ensures Parse(argv).Run? && Parse(argv).settings.mode.NamedArray? ==> Parse(argv).settings.name.Some?
  {
    if Parse(argv).Run? {
      var r := Parse(argv);
      AcceptedCommandLines(argv, r.settings, r.infile, r.outfile);
      var groups :| Shaped(argv, groups, r.infile, r.outfile) && Sets(AllFlags(groups), AllNames(groups), r.settings);
      NamesCount(groups);
      SummarySets(AllFlags(groups), AllNames(groups), r.settings);
      NamedHasC(AllFlags(groups));
    }
  }
}
