# Verified model of vmacho

`vmacho` (`tools/vmacho.c`) flattens a Mach-O file into a raw memory image and
writes it as binary or as a C array. This project models its four parts and
proves what the tool is for: the byte at every address of the image comes from
the last load command that maps it, and is 0 where none does; and whatever is
written reads back as that image. As the inverse, a file assembled from chunks
of memory converts back to exactly that memory.

| file | part |
|---|---|
| `Words.dfy` | 32-bit and 64-bit wrapping arithmetic, little-endian reads, result types |
| `Segments.dfy` | range extraction of one load command, both widths and both modes |
| `Encoding.dfy` | the file structures as field lists, against the fixed offsets of the readers |
| `Layout.dfy` | pass 1 over a command list: validation and address hull |
| `Image.dfy` | the image of a command list: last writer wins, order, modes |
| `Walk.dfy` | the walk over variable-length commands and the result of pass 1 |
| `Loader.dfy` | the imperative passes: validate, zero, copy |
| `WholeFile.dfy` | what the two passes mean for a whole file |
| `AddressWrap.dfy` | a file whose second segment wraps past 2^64 |
| `Assembly.dfy` | an assembler for 64-bit files, as the inverse of the conversion |
| `CArray.dfy` | the printer, a parser for its output, the layout of the text |
| `Options.dfy` | the option loops and the shape of the accepted command lines |
| `VMacho.dfy` | `main` from command line and file contents to output |

The two passes, the section loops, the printer and the option loops are methods
with loops (the section loops and the bodies of the two walks, which the code
writes inline, are methods of their own); the image is an array that pass 2
fills in place. Each is proved equal to a specification function, and lemmas say
what that function means.
C arithmetic that can wrap goes through `Words.Add` and `Words.Sub`; the file is
a byte sequence below 2^63 bytes because its length comes from a `long`.

## Assumptions

These are the preconditions, and the code relies on each of them unchecked.

- `Walk.WellFormed`, for each command the walk gets to before it stops: every
  field the code reads lies inside the file and, unless the command is rejected,
  `cmdsize` is positive. A segment need only be there up to `filesize` in segment
  mode; in section mode up to `nsects`, with its sections up to their flags, all
  of them or up to one that makes the code give up.
  `Walk.FormattedIsWellFormed` derives this from the format description
  (`apple-include/mach-o/loader.h`, lines 224-240 and 341-344).
- `Walk.HeaderReadable`: a file with a known magic reaches past `sizeofcmds`.
- `Loader.Unwrapped`: in segment mode no accepted LC_SEGMENT_64 has
  `vmaddr + filesize >= 2^64`. `WholeFile.CopiesFitExactly` shows that this is
  exactly what the copies of pass 2 need, `AddressWrap.WrappedCopyDoesNotFit`
  that pass 1 does not establish it, `Layout.OnlySegments64Wrap` that no other
  command and no other mode needs it.
- The file buffer, whose address `ufile` is a parameter, does not touch the last
  8 bytes of memory; allocation succeeds; the host is little-endian with 64-bit
  pointers.

The usage text does not list `-s` in its synopsis line; the model follows the
code, which accepts it.

## Model

| member | source | states |
|---|---|---|
| Words.WrapsModulo | tools/vmacho.c:149-155 | the sums and differences of the model are C unsigned arithmetic: modulo the width, and inverse to each other |
| Words.LittleEndian32 | tools/vmacho.c:44-129 | the bytes of a field are the base-256 digits of its value, the lowest first |
| Segments.GetMappedSegmentRange | tools/vmacho.c:141-252 | the C function, reading the bytes of the file, returns what Segments.RangeMeaning says of the command stored there |
| Segments.RangeMeaning | tools/vmacho.c:141-252 | every command that is not a segment gives status 1; a segment gives, in either width and mode, exactly the range or status 2 described over the naturals: whole segment, no backed section, hull of the backed sections, or a backed section outside |
| Segments.KindOfCommand | tools/vmacho.c:146-247 | the command word decides what a command is read as: 0x1 and 0x19 are the segments, all others are not |
| Segments.ScanSections32 | tools/vmacho.c:160-181 | the 32-bit section loop with its early return, from the bytes, computes the scan of Segments.ScanMeaning |
| Segments.ScanSections64 | tools/vmacho.c:209-230 | the same for the 64-bit section loop |
| Segments.ZeroFillByte32 | tools/vmacho.c:163 | a 32-bit section is skipped iff the lowest byte of its flags, byte 56, is 1; the attribute bits do not matter |
| Segments.ZeroFillByte64 | tools/vmacho.c:212 | the same for a 64-bit section and its byte 64 |
| Segments.ScanMeaning | tools/vmacho.c:143-181 | the loop gives up iff a non-zerofill section lies outside the segment over the naturals or there is one and the segment end wraps; else lowest > highest iff there is none, and otherwise the pair is their exact hull |
| Segments.SectionModeMeaning | tools/vmacho.c:158-193 | section mode: status 2 under exactly that condition, the empty range at vmaddr iff no section is backed, else the hull of the backed sections at the matching file offset |
| Segments.SegmentModeMeaning | tools/vmacho.c:152-157 | segment mode: the whole segment, with the huge size that a wrapped 32-bit end produces |
| Segments.SectionOrderIrrelevant | tools/vmacho.c:160-192 | the result depends only on the set of non-zerofill sections: order, repetition and zerofill sections do not matter |
| Segments.SectionPermutation | tools/vmacho.c:160-192 | any permutation of the sections gives the same result |
| Segments.SectionModeNeverWraps | tools/vmacho.c:167-192 | a section-mode range never leaves its width, a non-empty one lies in the segment with the matching file offset, and a wrapping segment is rejected or maps nothing |
| Segments.WidthsAgreeExactly | tools/vmacho.c:158-242 | the 32-bit and the 64-bit branch agree on a segment iff its 32-bit end does not wrap, or no section is backed, or the 64-bit branch rejects too |
| Segments.WidthAgreement | tools/vmacho.c:158-242 | the branches agree on all section lists iff vmaddr + filesize < 2^32 |
| Encoding.Segment32ReadBack | tools/vmacho.c:73-115 | an LC_SEGMENT and its sections, laid out field by field as declared, are read back as that command, in segment mode without its sections |
| Encoding.Segment64ReadBack | tools/vmacho.c:88-129 | the same for LC_SEGMENT_64 |
| Encoding.HeaderReadBack | tools/vmacho.c:44-65 | a header laid out as declared yields the command area right behind it, or the too-short error |
| Layout.JudgeMeaning | tools/vmacho.c:411-431 | the bounds test on wrapping sums rejects exactly the ranges that are not inside the file over the naturals |
| Layout.CommandMeaning | tools/vmacho.c:411-431 | from the range of a command to its treatment: other commands and empty ranges are skipped, status 2 and ranges that leave the file are rejected, and the mapping is the range itself |
| Layout.SurveyMeaning | tools/vmacho.c:398-443 | pass 1 accepts a list iff every command is acceptable, and its hull is then the sentinel pair or exactly least start and greatest end |
| Layout.LayoutMeaning | tools/vmacho.c:444-448 | the layout check passes iff some range starts no later than some range ends in 64 bits; without wrap, iff anything is mapped |
| Layout.TightHull | tools/vmacho.c:398-449 | without wrap the layout check passes iff something is mapped; then the image is not empty, holds every range, and its first and last bytes are covered |
| Layout.WrappedSegmentRejected | tools/vmacho.c:149-157 | an LC_SEGMENT whose end wraps fails the bounds test for every offset and file length |
| Layout.OnlySegments64Wrap | tools/vmacho.c:422-438 | of the acceptable commands, exactly a wrapping LC_SEGMENT_64 in segment mode leaves the address space |
| Layout.CopyFitsExactly | tools/vmacho.c:477 | after pass 1 a copy fits the image iff its range ends below 2^64 |
| Layout.WrapIsNotRejected | tools/vmacho.c:433-449 | two concrete commands that pass 1 accepts in any long enough file although one of them wraps and its copy does not fit |
| Image.ByteMeaning | tools/vmacho.c:456-478 | the byte of a list of mappings is that of the last covering one, 0 if there is none |
| Image.ImageMeaning | tools/vmacho.c:398-478 | the same for every address of a loaded image |
| Image.CopyOneMore | tools/vmacho.c:477 | one more copy overwrites exactly the bytes it covers |
| Image.HullOrderIrrelevant | tools/vmacho.c:398-448 | whether pass 1 succeeds, and with which hull, does not depend on the command order |
| Image.OrderIndependence | tools/vmacho.c:398-478 | every reordering of the commands loads the same base, length and bytes iff overlapping mappings agree byte for byte; disjoint ones do |
| Image.IrrelevantCommands | tools/vmacho.c:416-425 | deleting all non-segment commands and all empty ranges changes neither the outcome of pass 1 nor the image |
| Image.OtherCommandsIgnored | tools/vmacho.c:416-417 | a non-segment command put anywhere between others changes neither pass 1 nor the image |
| Image.ModeAgreement | tools/vmacho.c:433-477 | the section image lies in the segment image, has its bytes where a section range covers, and is 0 elsewhere |
| Image.OnlyMappedBytesMatter | tools/vmacho.c:477 | two files that agree on the mapped ranges load the same image |
| Walk.PointerTestMeaning | tools/vmacho.c:402 | the three pointer comparisons decide exactly whether the command fits, wherever the buffer lies |
| Walk.OtherCommandPassed | tools/vmacho.c:244-247 | a stored command whose word is neither 0x1 nor 0x19 is acceptable, has no mapping, and pass 1 goes on behind it with the same hull |
| Walk.CommandAreaMeaning | tools/vmacho.c:349-396 | on the first bytes of the file: which magic and length announce which command area, and which of the three header errors is given otherwise |
| Walk.FormattedIsWellFormed | apple-include/mach-o/loader.h:224-240 | sizes as the format demands them satisfy what the walks take for granted |
| Walk.TilesPartition | tools/vmacho.c:400-406 | sizes of a gapless walk add up, commands do not overlap, and every byte of the area belongs to one |
| Walk.Pass1IsTrace | tools/vmacho.c:400-448 | pass 1 ends with what stops its trace, else with the layout error or the hull |
| Walk.Pass1Meaning | tools/vmacho.c:398-448 | pass 1 succeeds iff the command area is a gapless sequence of acceptable commands and some range starts no later than some range ends in 64 bits; that sequence is unique and is the trace |
| Walk.Pass1Failure | tools/vmacho.c:400-448 | pass 1 fails with an error iff it is that of the first failing command, behind a gapless sequence of acceptable ones, or that of the layout when all are acceptable |
| Loader.ValidateCommand | tools/vmacho.c:402-442 | one iteration of pass 1 on 64-bit pointers |
| Loader.Validate | tools/vmacho.c:398-448 | pass 1: terminates, returns the hull or the first error, and records the commands it gets past |
| Loader.CopyBytes | tools/vmacho.c:477 | memcpy within bounds, everything else unchanged |
| Loader.CopyCommand | tools/vmacho.c:459-477 | one iteration of pass 2 takes the image of n commands to that of n + 1 |
| Loader.Copy | tools/vmacho.c:456-478 | pass 2 without a test visits exactly the offsets of the complete walk, never reaches its error case, and fills the buffer with the image |
| Loader.AllCopyable | tools/vmacho.c:422-477 | after pass 1 every copy has its source in the file and its destination in the image |
| Loader.Flatten | tools/vmacho.c:349-478 | from file bytes to base address and buffer, as in WholeFile.ImageRefinement, or the error of WholeFile.Refusal; both passes go to the same offsets |
| WholeFile.Acceptance | tools/vmacho.c:349-448 | an image comes out iff the header gives a command area that is a gapless sequence of acceptable commands with a proper layout, as in Walk.Pass1Meaning |
| WholeFile.AcceptanceUnwrapped | tools/vmacho.c:349-448 | without address wrap the layout condition is that some command maps something |
| WholeFile.Refusal | tools/vmacho.c:349-448 | a file is refused with an error iff its header bytes call for that error, or its announced area does through its first failing command or its layout |
| WholeFile.ImageRefinement | tools/vmacho.c:398-478 | image refinement for whole files: tight extent, last covering command wins, 0 elsewhere |
| WholeFile.CopiesFitExactly | tools/vmacho.c:433-477 | all copies of pass 2 fit iff no accepted LC_SEGMENT_64 wraps in segment mode |
| AddressWrap.WrappedCopyDoesNotFit | tools/vmacho.c:433-477 | a concrete file that segment mode accepts and of which one copy does not fit the image, so the condition of WholeFile.CopiesFitExactly can fail |
| WholeFile.CommandOrderIrrelevant | tools/vmacho.c:398-478 | files with the same commands in any order and the same mapped bytes give the same result |
| WholeFile.FileModeAgreement | tools/vmacho.c:152-192 | if both modes accept a file, they visit the same commands and their images agree as above |
| WholeFile.WalkPartitionsArea | tools/vmacho.c:400-406 | visited sizes add up to sizeofcmds, without gap or overlap |
| Assembly.AssemblyRoundTrip | tools/vmacho.c:349-478 | a file assembled from chunks of memory, byte by byte as the structures are declared, is accepted in both modes and converts back to exactly that memory |
| CArray.Print | tools/vmacho.c:497-514 | the printing loop produces the text of the buffer |
| CArray.ItemText | tools/vmacho.c:507 | each byte is printed as 0x, its two lower-case hexadecimal digits and a comma |
| CArray.NamedText | tools/vmacho.c:498-514 | a named array is the headless text between the declaration of the array and the closing brace, character by character |
| CArray.RoundTrip | tools/vmacho.c:495-514 | a parser recovers name and bytes, headless or with an identifier for a name |
| CArray.NamedRoundTrip | tools/vmacho.c:498-514 | a named array is recovered if its name is a C identifier; the parser itself takes no other name, which is the converse |
| CArray.PrintInjective | tools/vmacho.c:495-514 | different buffers or names print differently, headless or with any string for a name |
| CArray.BodyLayout | tools/vmacho.c:504-509 | 6n + 4 ceil(n/16) characters, ceil(n/16) newlines, and line k is exactly the indented items of bytes 16k up to 16k + 15 or the end |
| Options.ParseOptions | tools/vmacho.c:264-315 | the nested loops read argv only inside its bounds and give the settings of Options.AcceptedCommandLines or the refusal of Options.RefusedCommandLines |
| Options.AcceptedCommandLines | tools/vmacho.c:264-315 | the tool runs iff argv is words with the names they take, then two files, names never being read as options; it then writes binary without c and C, else as the last of them says, with the last name; it forces iff there is an f and uses sections iff there is no s |
| Options.RefusedCommandLines | tools/vmacho.c:286-313 | which refusal a command line gets: that of the first flag that is unknown or lacks its name, or the usage if all flags are good but not exactly two files follow |
| Options.NamedModeHasName | tools/vmacho.c:285-293 | named mode implies that a name was set |
| VMacho.Run | tools/vmacho.c:254-524 | main: command line, file and passes to the output of VMacho.EndToEnd or to the refusals of VMacho.FileRefusal and VMacho.CommandLineRefusal |
| VMacho.EndToEnd | tools/vmacho.c:254-524 | the output has the form the flags ask for, raw without c and C, headless or named text by the last of them, and reads back as an image that spans exactly the mapped ranges, with the byte of the last covering command at every address and 0 where there is none |
| VMacho.FileRefusal | tools/vmacho.c:349-448 | with a good command line the tool ends with an error iff the file is refused with it, in section mode unless there is an s |
| VMacho.CommandLineRefusal | tools/vmacho.c:269-315 | the tool rejects the command line iff it does not have the accepted shape, whatever the file |
| VMacho.AssembleConvertReadBack | tools/vmacho.c:254-524 | assembling and converting with any accepted command line writes, in the form the flags ask for, an image that restores the memory |

## Left out

- The effect of `-f`: it selects how the output file is opened, and opening is left out; the setting is modelled.
- Opening, sizing, reading and writing files, allocation failure, log messages and exit codes: the model starts from file contents and ends at bytes or text.
- Inputs that break the assumptions above: zero `cmdsize` on an accepted command, structures that reach past the file, and copies outside the buffer have no defined behaviour to model.
- Big-endian hosts and 32-bit pointers: the tool reads fields in host order and compares addresses as 64-bit numbers here.
- Write errors while printing: the stream is a string that grows.
- C keywords as array names: the parser takes every identifier.
- The rest of the repository (boot code, drivers, kernel, shell, scripts, headers): other programs, without the file format logic modelled here.
