/** The whole tool: command line and file in, image or C source out. */
module VMacho {
  import opened Wrappers
  import opened Words
  import opened Image
  import opened Walk
  import opened Loader
  import opened WholeFile
  import Segments
  import Layout
  import Assembly
  import CArray
  import Options

  datatype Output = Raw(bytes: seq<u8>) | Source(text: string)

  /** How the tool ends; the base address is reported on success. */
  datatype Ending =
    | Done(base: u64, output: Output)
    | BadCommandLine(why: Options.Parsed)
    | BadFile(error: LoadError)

  /** What is written for an image in the mode of the settings. */
  function Written(s: Options.Settings, bytes: seq<u8>): Output {
    match s.mode
    case Binary => Raw(bytes)
    case HeadlessArray => Source(CArray.Text(None, bytes))
    case NamedArray => Source(CArray.Text(s.name, bytes))
  }

  /** What the tool takes for granted about a file and the address of its buffer. */
  ghost predicate Ready(argv: seq<string>, file: File, ufile: u64) {
    && ufile + |file| + Segments.LC_SIZE < TWO64
    && match Options.Parse(argv)
       case Run(s, _, _) => Usable(file, s.useSections) && Unwrapped(file, s.useSections)
       case _ => true
  }

  ghost function Expected(argv: seq<string>, file: File, ufile: u64): Ending
    requires Ready(argv, file, ufile)
  {
    match Options.Parse(argv)
    case Run(s, _, _) =>
      (match Outcome(file, s.useSections)
       case Failure(e) => BadFile(e)
       case Success(l) => Done(l.base, Written(s, l.bytes)))
    case why => BadCommandLine(why)
  }

  /** main, with the contents of the input file and the address of its buffer as parameters. */
  method Run(argv: seq<string>, file: File, ufile: u64) returns (r: Ending)
    requires Ready(argv, file, ufile)
    ensures r == Expected(argv, file, ufile)
  {
    var parsed := Options.ParseOptions(argv);
    if !parsed.Run? {
      return BadCommandLine(parsed);
    }
    var s := parsed.settings;
    var e, base, mem, _, _ := Flatten(file, ufile, s.useSections);
    if e.Some? {
      return BadFile(e.value);
    }
    if s.mode.Binary? {
      return Done(base, Raw(mem[..]));
    }
    var text := CArray.Print(if s.mode.NamedArray? then s.name else None, mem[..]);
    return Done(base, Source(text));
  }

  // ------------------------------------------------------------------ what comes out

  /** t is the headless array text of the image, and reads back as it. */
  ghost predicate IsBody(t: string, image: seq<u8>) {
    t == CArray.Text(None, image) && CArray.ParseArray(t) == Some(CArray.Parsed(None, image))
  }

  /**
   How the flags and names of a command line say that the image is written: raw
   without c and C; as a headless array if c is the last of them; if C is, as an
   array with the last name, which reads back too if the name is an identifier.
   */
  ghost predicate WrittenAs(flags: string, names: seq<string>, o: Output, image: seq<u8>) {
    && ('c' !in flags && 'C' !in flags ==> o == Raw(image))
    && (Options.LastIs(flags, 'c') ==> o.Source? && IsBody(o.text, image))
    && (Options.LastIs(flags, 'C') ==>
          && names != [] && o.Source?
          && var name := names[|names| - 1];
             && (exists t :: IsBody(t, image) && o.text == "unsigned char " + name + "[] = {\n" + t + "};\n")
             && (CArray.IsIdentifier(name) ==> CArray.ParseArray(o.text) == Some(CArray.Parsed(Some(name), image))))
  }

  lemma WrittenMeaning(flags: string, names: seq<string>, s: Options.Settings, image: seq<u8>)
    requires Options.Sets(flags, names, s) && (s.mode.NamedArray? ==> s.name.Some?)
    ensures WrittenAs(flags, names, Written(s, image), image)
  {
    CArray.HeadlessRoundTrip(image);
    assert IsBody(CArray.Text(None, image), image);
    if s.mode.NamedArray? {
      CArray.NamedText(s.name.value, image);
      CArray.NamedRoundTrip(s.name.value, image);
    }
  }

  /** A command line of the right shape runs, in section mode unless there is an s, and in named mode with a name. */
  lemma Settled(argv: seq<string>, groups: seq<Options.Group>, infile: string, outfile: string)
      returns (s: Options.Settings)
    requires Options.Shaped(argv, groups, infile, outfile)
    ensures Options.Parse(argv) == Options.Run(s, infile, outfile)
    ensures Options.Sets(Options.AllFlags(groups), Options.AllNames(groups), s)
    ensures s.mode.NamedArray? ==> s.name.Some?
  {
    s := Options.ShapedRuns(argv, groups, infile, outfile);
    Options.NamedModeHasName(argv);
  }

  /**
   From the command line to what is written: the output is an image in the form
   that the flags ask for; it holds every mapped range and nothing around them,
   with the byte of the last load command that covers it at every address.
   */
  lemma EndToEnd(argv: seq<string>, groups: seq<Options.Group>, infile: string, outfile: string,
                 file: File, ufile: u64) returns (image: seq<u8>)
    requires Options.Shaped(argv, groups, infile, outfile)
    requires Ready(argv, file, ufile) && Expected(argv, file, ufile).Done?
    ensures var us := 's' !in Options.AllFlags(groups); var r := Expected(argv, file, ufile);
            && Usable(file, us) && CommandArea(file).Success?
            && IsImage(file, FileMappings(file, us), Loaded(r.base, image))
            && WrittenAs(Options.AllFlags(groups), Options.AllNames(groups), r.output, image)
  {
    var s := Settled(argv, groups, infile, outfile);
    var l := Outcome(file, s.useSections).value;
    image := l.bytes;
    ImageRefinement(file, s.useSections, l);
    WrittenMeaning(Options.AllFlags(groups), Options.AllNames(groups), s, image);
  }

  /** With a command line of the right shape the tool ends with an image, or with the exact reason against the file. */
  lemma FileRefusal(argv: seq<string>, groups: seq<Options.Group>, infile: string, outfile: string,
                    file: File, ufile: u64, e: LoadError)
    requires Options.Shaped(argv, groups, infile, outfile) && Ready(argv, file, ufile)
    ensures var us := 's' !in Options.AllFlags(groups); var r := Expected(argv, file, ufile);
            && !r.BadCommandLine?
            && (r == BadFile(e) <==> Refused(file, us, e))
            && (r.Done? <==> exists area, t :: Announces(file, area) && Loadable(file, area, t, us))
  {
    var s := Settled(argv, groups, infile, outfile);
    Refusal(file, s.useSections, e);
  }

  /** Without such a command line the tool ends with the reason against it, before any file is looked at. */
  lemma CommandLineRefusal(argv: seq<string>, file: File, ufile: u64)
    requires Ready(argv, file, ufile)
    ensures Expected(argv, file, ufile).BadCommandLine? <==>
              !exists groups, infile, outfile :: Options.Shaped(argv, groups, infile, outfile)
    ensures Expected(argv, file, ufile).BadCommandLine? ==>
              Expected(argv, file, ufile).why == Options.Parse(argv)
  {
    var r := Options.Parse(argv);
    if r.Run? {
      Options.AcceptedCommandLines(argv, r.settings, r.infile, r.outfile);
    }
    forall groups, infile, outfile | Options.Shaped(argv, groups, infile, outfile) ensures r.Run? {
      var _ := Settled(argv, groups, infile, outfile);
    }
  }

  /**
   The inverse of the whole tool: assemble chunks of memory into a file and
   convert it with any command line of the right shape, and what is written is
   an image that restores the chunks' memory.
   */
  lemma AssembleConvertReadBack(cs: seq<Assembly.Chunk>, argv: seq<string>, groups: seq<Options.Group>,
                                infile: string, outfile: string, file: File, ufile: u64)
      returns (image: seq<u8>)
    requires Assembly.Fit(cs) && file == Assembly.Assemble(cs)
    requires Options.Shaped(argv, groups, infile, outfile) && ufile + |file| + Segments.LC_SIZE < TWO64
    ensures Ready(argv, file, ufile) && Expected(argv, file, ufile).Done?
    ensures var r := Expected(argv, file, ufile);
            && Assembly.RestoresChunks(cs, Loaded(r.base, image))
            && WrittenAs(Options.AllFlags(groups), Options.AllNames(groups), r.output, image)
  {
    var s := Settled(argv, groups, infile, outfile);
    Assembly.AssemblyRoundTrip(cs, file, s.useSections);
    image := Outcome(file, s.useSections).value.bytes;
    WrittenMeaning(Options.AllFlags(groups), Options.AllNames(groups), s, image);
  }
}
