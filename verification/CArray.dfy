/**
 The C-array printer, a parser for what it prints, and the layout of the text.
 */
module CArray {
  import opened Wrappers
  import opened Words

  type Byte = u8

  // -------------------------------------------------------------------- printer

  function Digit(d: nat): char
    requires d < 16
  {
    if d < 10 then ('0' as int + d) as char else ('a' as int + (d - 10)) as char
  }

  /** The text 0x%02x, of one byte with its comma. */
  function Item(b: Byte): (s: string)
    ensures |s| == 5
  {
    ['0', 'x', Digit(b / 16), Digit(b % 16), ',']
  }

  /** A line of output starts at every 16th byte. */
  function Indent(i: nat): string {
    if i % 16 == 0 then "    " else ""
  }

  /** What one iteration of the loop prints for byte i of a buffer of length n. */
  function Cell(i: nat, n: nat, b: Byte): (s: string)
    requires i < n
    ensures |s| == if i % 16 == 0 then 10 else 6
  {
    Indent(i) + Item(b) + (if i % 16 == 15 || i == n - 1 then "\n" else " ")
  }

  /** What the loop prints from byte i on. */
  function CellsFrom(mem: seq<Byte>, i: nat): string
    requires i <= |mem|
    decreases |mem| - i
  {
    if i == |mem| then "" else Cell(i, |mem|, mem[i]) + CellsFrom(mem, i + 1)
  }

  const PREFIX: string := "unsigned char "
  const OPENING: string := "[] = {\n"
  const CLOSING: string := "};\n"

  /** The text of an array: only the body, or a definition with a name. */
  function Text(name: Option<string>, mem: seq<Byte>): string {
    match name
    case None => CellsFrom(mem, 0)
    case Some(id) => PREFIX + id + OPENING + CellsFrom(mem, 0) + CLOSING
  }

  /** The printer, with its output stream as a string. */
  method Print(name: Option<string>, mem: seq<Byte>) returns (out: string)
    ensures out == Text(name, mem)
  {
    out := "";
    if name.Some? {
      out := "unsigned char " + name.value + "[] = {\n";
    }
    ghost var head := out;
    for i := 0 to |mem|
      invariant out + CellsFrom(mem, i) == head + CellsFrom(mem, 0)
    {
      var indent := if i % 0x10 == 0 then "    " else "";
      var separator := if i % 0x10 == 0xf || i == |mem| - 1 then "\n" else " ";
      CellPrinted(out, indent, Item(mem[i]), separator, CellsFrom(mem, i + 1));
      out := out + indent + Item(mem[i]) + separator;
    }
    assert out + "" == out;
    if name.Some? {
      out := out + "};\n";
    }
  }

  lemma CellPrinted(out: string, indent: string, item: string, separator: string, rest: string)
    ensures out + ((indent + item + separator) + rest) == (out + indent + item + separator) + rest
  {
  }

  // --------------------------------------------------------------------- parser

  function HexValue(c: char): Option<nat> {
    if '0' <= c <= '9' then Some(c as int - '0' as int)
    else if 'a' <= c <= 'f' then Some(c as int - 'a' as int + 10)
    else None
  }

  datatype Items = Items(bytes: seq<Byte>, rest: string)

  /** A list of hexadecimal items with blanks in between, up to a closing brace or the end. */
  function ParseItems(t: string): Option<Items> {
    if t == "" || t[0] == '}' then Some(Items([], t))
    else if t[0] == ' ' || t[0] == '\n' then ParseItems(t[1..])
    else if |t| >= 5 && t[0] == '0' && t[1] == 'x' && t[4] == ',' then
      match (HexValue(t[2]), HexValue(t[3]), ParseItems(t[5..]))
      case (Some(hi), Some(lo), Some(Items(bytes, rest))) => Some(Items([16 * hi + lo] + bytes, rest))
      case _ => None
    else None
  }

  predicate IdentifierStart(c: char) {
    'a' <= c <= 'z' || 'A' <= c <= 'Z' || c == '_'
  }

  predicate IdentifierPart(c: char) {
    IdentifierStart(c) || '0' <= c <= '9'
  }

  /** A C identifier. */
  predicate IsIdentifier(s: string) {
    s != "" && IdentifierStart(s[0]) && forall c <- s :: IdentifierPart(c)
  }

  /** Number of leading characters that can be part of an identifier. */
  function Word(t: string): (n: nat)
    ensures n <= |t| && forall i :: 0 <= i < n ==> IdentifierPart(t[i])
    ensures n < |t| ==> !IdentifierPart(t[n])
  {
    if t == "" || !IdentifierPart(t[0]) then 0 else 1 + Word(t[1..])
  }

  datatype Parsed = Parsed(name: Option<string>, bytes: seq<Byte>)

  /** The text after the name: opening, items, closing. */
  function ParseTail(t: string): Option<seq<Byte>> {
    if OPENING <= t then
      match ParseItems(t[|OPENING|..])
      case Some(Items(bytes, rest)) => if rest == CLOSING then Some(bytes) else None
      case None => None
    else None
  }

  function ParseArray(t: string): Option<Parsed> {
    if PREFIX <= t then
      var u := t[|PREFIX|..];
      var id := u[..Word(u)];
      match ParseTail(u[|id|..])
      case Some(bytes) => if IsIdentifier(id) then Some(Parsed(Some(id), bytes)) else None
      case None => None
    else
      match ParseItems(t)
      case Some(Items(bytes, rest)) => if rest == "" then Some(Parsed(None, bytes)) else None
      case None => None
  }

  // ----------------------------------------------------------------- round trip

  lemma ItemParses(b: Byte, rest: string)
    ensures ParseItems(Item(b) + rest) ==
            (match ParseItems(rest)
             case Some(Items(bytes, end)) => Some(Items([b] + bytes, end))
             case None => None)
  {
    assert (Item(b) + rest)[5..] == rest;
    assert HexValue(Digit(b / 16)) == Some(b / 16) && HexValue(Digit(b % 16)) == Some(b % 16);
  }

  lemma BlankSkipped(c: char, rest: string)
    requires c == ' ' || c == '\n'
    ensures ParseItems([c] + rest) == ParseItems(rest)
  {
    assert ([c] + rest)[1..] == rest;
  }

  lemma IndentSkipped(rest: string)
    ensures ParseItems("    " + rest) == ParseItems(rest)
  {
    assert "    " + rest == " " + (" " + (" " + (" " + rest)));
    BlankSkipped(' ', " " + (" " + (" " + rest)));
    BlankSkipped(' ', " " + (" " + rest));
    BlankSkipped(' ', " " + rest);
    BlankSkipped(' ', rest);
  }

  lemma CellParses(i: nat, n: nat, b: Byte, rest: string)
    requires i < n
    ensures ParseItems(Cell(i, n, b) + rest) ==
            (match ParseItems(rest)
             case Some(Items(bytes, end)) => Some(Items([b] + bytes, end))
             case None => None)
  {
    var separator: char := if i % 16 == 15 || i == n - 1 then '\n' else ' ';
    var cell := Item(b) + ([separator] + rest);
    assert Cell(i, n, b) + rest == Indent(i) + cell;
    if i % 16 == 0 {
      IndentSkipped(cell);
    } else {
      assert "" + cell == cell;
    }
    ItemParses(b, [separator] + rest);
    BlankSkipped(separator, rest);
  }

  lemma Associate(a: string, b: string, c: string)
    ensures (a + b) + c == a + (b + c)
  {
  }

  lemma {:induction false} CellsParse(mem: seq<Byte>, i: nat, rest: string)
    requires i <= |mem| && (rest == "" || rest[0] == '}')
    ensures ParseItems(CellsFrom(mem, i) + rest) == Some(Items(mem[i..], rest))
    decreases |mem| - i
  {
    if i == |mem| {
      assert CellsFrom(mem, i) + rest == rest && mem[i..] == [];
    } else {
      Associate(Cell(i, |mem|, mem[i]), CellsFrom(mem, i + 1), rest);
      CellParses(i, |mem|, mem[i], CellsFrom(mem, i + 1) + rest);
      CellsParse(mem, i + 1, rest);
      SuffixHead(mem, i);
    }
  }

  lemma SuffixHead(mem: seq<Byte>, i: nat)
    requires i < |mem|
    ensures [mem[i]] + mem[i + 1..] == mem[i..]
  {
  }

  lemma {:induction false} WordOf(id: string, rest: string)
    requires forall c <- id :: IdentifierPart(c)
    requires rest != "" && !IdentifierPart(rest[0])
    ensures Word(id + rest) == |id|
  {
    var t := id + rest;
    assert forall i :: 0 <= i < |id| ==> t[i] == id[i] && IdentifierPart(id[i]);
    assert t[|id|] == rest[0];
  }

  /** The body of any buffer is read back, and nothing but the body parses as headless. */
  lemma HeadlessRoundTrip(mem: seq<Byte>)
    ensures ParseArray(Text(None, mem)) == Some(Parsed(None, mem))
  {
    var t := CellsFrom(mem, 0);
    CellsParse(mem, 0, "");
    assert t + "" == t && mem[0..] == mem;
    if mem != [] {
      assert t[0] == ' ';
    }
    assert PREFIX[0] == 'u';
  }

  lemma TailParses(mem: seq<Byte>)
    ensures ParseTail(OPENING + CellsFrom(mem, 0) + CLOSING) == Some(mem)
  {
    CellsParse(mem, 0, CLOSING);
    assert (OPENING + CellsFrom(mem, 0) + CLOSING)[|OPENING|..] == CellsFrom(mem, 0) + CLOSING;
    assert mem[0..] == mem;
  }

  /** A named array is read back, name and bytes, if the name is a C identifier; the parser takes no other. */
  lemma NamedRoundTrip(id: string, mem: seq<Byte>)
    ensures ParseArray(Text(Some(id), mem)) == Some(Parsed(Some(id), mem)) <==> IsIdentifier(id)
  {
    if IsIdentifier(id) {
      var t, u := Text(Some(id), mem), OPENING + CellsFrom(mem, 0) + CLOSING;
      assert t == PREFIX + (id + u);
      assert t[|PREFIX|..] == id + u;
      WordOf(id, u);
      assert (id + u)[..|id|] == id && (id + u)[|id|..] == u;
      TailParses(mem);
    }
  }

  lemma NoBraceInCell(i: nat, n: nat, b: Byte)
    requires i < n
    ensures '{' !in Cell(i, n, b)
  {
    assert '{' !in Item(b) && '{' !in Indent(i);
  }

  lemma {:induction false} NoBraceFrom(mem: seq<Byte>, i: nat)
    requires i <= |mem|
    ensures '{' !in CellsFrom(mem, i)
    decreases |mem| - i
  {
    if i < |mem| {
      NoBraceFrom(mem, i + 1);
      NoBraceInCell(i, |mem|, mem[i]);
    }
  }

  /** A text splits at its last brace in one way only. */
  lemma LastBrace(p: string, q: string, s: string, t: string)
    requires '{' !in s && '{' !in t && p + (['{'] + s) == q + (['{'] + t)
    ensures p == q && s == t
  {
    var whole := p + (['{'] + s);
    assert whole[|p|] == '{' && whole[|q|] == '{';
    assert forall i :: |p| < i < |whole| ==> whole[i] == s[i - |p| - 1] && whole[i] in s;
    assert forall i :: |q| < i < |whole| ==> whole[i] == t[i - |q| - 1] && whole[i] in t;
    assert p == whole[..|p|] == q;
    assert s == whole[|p| + 1..] == t;
  }

  function BeforeBrace(id: string): string {
    PREFIX + id + "[] = "
  }

  function AfterBrace(mem: seq<Byte>): string {
    "\n" + CellsFrom(mem, 0) + CLOSING
  }

  lemma RegroupBrace(before: string, opening: string, newline: string, body: string, closing: string)
    ensures ((before + (opening + (['{'] + newline))) + body) + closing ==
            (before + opening) + (['{'] + ((newline + body) + closing))
  {
  }

  lemma TextAroundBrace(id: string, mem: seq<Byte>)
    ensures Text(Some(id), mem) == BeforeBrace(id) + (['{'] + AfterBrace(mem))
    ensures '{' !in AfterBrace(mem)
  {
    NoBraceFrom(mem, 0);
    assert OPENING == "[] = " + (['{'] + "\n");
    RegroupBrace(PREFIX + id, "[] = ", "\n", CellsFrom(mem, 0), CLOSING);
  }

  lemma SameNamedText(id: string, mem: seq<Byte>, id': string, mem': seq<Byte>)
    requires Text(Some(id), mem) == Text(Some(id'), mem')
    ensures id == id' && mem == mem'
  {
    TextAroundBrace(id, mem);
    TextAroundBrace(id', mem');
    LastBrace(BeforeBrace(id), BeforeBrace(id'), AfterBrace(mem), AfterBrace(mem'));
    var n := |BeforeBrace(id)| - |"[] = "|;
    assert id == BeforeBrace(id)[|PREFIX|..n] && id' == BeforeBrace(id')[|PREFIX|..n];
    var k := |AfterBrace(mem)| - |CLOSING|;
    assert CellsFrom(mem, 0) == AfterBrace(mem)[1..k] && CellsFrom(mem', 0) == AfterBrace(mem')[1..k];
    HeadlessRoundTrip(mem);
    HeadlessRoundTrip(mem');
  }

  /** Different buffers or names print differently, whatever characters the names have. */
  lemma PrintInjective(a: Parsed, b: Parsed)
    requires Text(a.name, a.bytes) == Text(b.name, b.bytes)
    ensures a == b
  {
    match (a.name, b.name)
    case (Some(id), Some(id')) =>
      SameNamedText(id, a.bytes, id', b.bytes);
    case (None, None) =>
      HeadlessRoundTrip(a.bytes);
      HeadlessRoundTrip(b.bytes);
    case (Some(id), None) =>
      BraceOnlyInNamed(id, a.bytes, b.bytes);
    case (None, Some(id)) =>
      BraceOnlyInNamed(id, b.bytes, a.bytes);
  }

  lemma BraceOnlyInNamed(id: string, mem: seq<Byte>, mem': seq<Byte>)
    ensures Text(Some(id), mem) != Text(None, mem')
  {
    TextAroundBrace(id, mem);
    NoBraceFrom(mem', 0);
    assert Text(Some(id), mem)[|BeforeBrace(id)|] == '{';
  }

  /** The parser recovers exactly what was printed, headless or with an identifier for a name. */
  lemma RoundTrip(name: Option<string>, mem: seq<Byte>)
    requires name.Some? ==> IsIdentifier(name.value)
    ensures ParseArray(Text(name, mem)) == Some(Parsed(name, mem))
  {
    match name
    case None => HeadlessRoundTrip(mem);
    case Some(id) => NamedRoundTrip(id, mem);
  }

  // --------------------------------------------------------------------- layout

  function CeilDiv16(n: nat): nat {
    (n + 15) / 16
  }

  function Min(a: nat, b: nat): nat {
    if a < b then a else b
  }

  /** The lines of a text, without their newlines. */
  function Lines(t: string): seq<string> {
    if t == "" then []
    else if t[0] == '\n' then [""] + Lines(t[1..])
    else
      var rest := Lines(t[1..]);
      if rest == [] then [[t[0]]] else [[t[0]] + rest[0]] + rest[1..]
  }

  /** Number of newlines in t. */
  function Newlines(t: string): nat {
    if t == "" then 0 else (if t[0] == '\n' then 1 else 0) + Newlines(t[1..])
  }

  /** The items of the bytes from i up to e, with one space in between. */
  function Join(mem: seq<Byte>, i: nat, e: nat): string
    requires i < e <= |mem|
    decreases e - i
  {
    if i + 1 == e then Item(mem[i]) else Item(mem[i]) + " " + Join(mem, i + 1, e)
  }

  /** The line of the bytes of mem from i on: 16 of them, or what is left. */
  function Row(mem: seq<Byte>, i: nat): string
    requires i < |mem|
  {
    "    " + Join(mem, i, Min(|mem|, i + 16))
  }

  lemma {:induction false} LinesPrepend(p: string, t: string)
    requires '\n' !in p && Lines(t) != []
    ensures Lines(p + t) == [p + Lines(t)[0]] + Lines(t)[1..]
  {
    if p == "" {
      assert p + t == t && p + Lines(t)[0] == Lines(t)[0];
      assert Lines(t) == [Lines(t)[0]] + Lines(t)[1..];
    } else {
      LinesPrepend(p[1..], t);
      assert (p + t)[1..] == p[1..] + t;
      assert [p[0]] + (p[1..] + Lines(t)[0]) == p + Lines(t)[0];
    }
  }

  lemma LinesBreak(p: string, t: string)
    requires '\n' !in p
    ensures Lines(p + ("\n" + t)) == [p] + Lines(t)
  {
    assert ("\n" + t)[1..] == t;
    LinesPrepend(p, "\n" + t);
    assert p + "" == p;
  }

  /** The bytes after i on the same line end here. */
  function LineEnd(i: nat, n: nat): nat {
    Min(n, i - i % 16 + 16)
  }

  lemma LineEndStep(i: nat, n: nat)
    requires i < n
    ensures i < LineEnd(i, n)
    ensures LineEnd(i, n) == i + 1 <==> i % 16 == 15 || i == n - 1
    ensures LineEnd(i, n) != i + 1 ==> LineEnd(i + 1, n) == LineEnd(i, n) && Indent(i + 1) == ""
  {
  }

  lemma CellSplit(mem: seq<Byte>, i: nat)
    requires i < |mem|
    ensures var head, tail := Indent(i) + Item(mem[i]), CellsFrom(mem, i + 1);
            CellsFrom(mem, i) == if LineEnd(i, |mem|) == i + 1 then head + ("\n" + tail) else (head + " ") + tail
  {
    LineEndStep(i, |mem|);
    var head, tail := Indent(i) + Item(mem[i]), CellsFrom(mem, i + 1);
    assert (head + "\n") + tail == head + ("\n" + tail);
  }

  lemma HeadOneLine(i: nat, b: Byte)
    ensures '\n' !in Indent(i) + Item(b) && '\n' !in (Indent(i) + Item(b)) + " "
  {
  }

  lemma Regroup(indent: string, item: string, line: string)
    ensures ((indent + item) + " ") + line == indent + (item + " " + line)
  {
  }

  /** The first line of what is printed from byte i on, and the text after it. */
  lemma {:induction false} FirstLine(mem: seq<Byte>, i: nat)
    requires i < |mem|
    ensures var e := LineEnd(i, |mem|);
            i < e && Lines(CellsFrom(mem, i)) == [Indent(i) + Join(mem, i, e)] + Lines(CellsFrom(mem, e))
    decreases |mem| - i
  {
    var e := LineEnd(i, |mem|);
    var head, tail := Indent(i) + Item(mem[i]), CellsFrom(mem, i + 1);
    LineEndStep(i, |mem|);
    CellSplit(mem, i);
    HeadOneLine(i, mem[i]);
    if i + 1 == e {
      LinesBreak(head, tail);
    } else {
      FirstLine(mem, i + 1);
      var line := Join(mem, i + 1, e);
      assert "" + line == line;
      LinesPrepend(head + " ", tail);
      Regroup(Indent(i), Item(mem[i]), line);
    }
  }

  /** The rows from byte i on. */
  function Rows(mem: seq<Byte>, i: nat): seq<string>
    decreases |mem| - i
  {
    if i >= |mem| then [] else [Row(mem, i)] + Rows(mem, i + 16)
  }

  lemma FirstRow(mem: seq<Byte>, i: nat)
    requires i < |mem| && i % 16 == 0
    ensures Lines(CellsFrom(mem, i)) == [Row(mem, i)] + Lines(CellsFrom(mem, Min(|mem|, i + 16)))
  {
    FirstLine(mem, i);
  }

  lemma {:induction false} LinesAreRows(mem: seq<Byte>, i: nat)
    requires i % 16 == 0
    ensures Lines(CellsFrom(mem, Min(|mem|, i))) == Rows(mem, i)
    decreases |mem| - i
  {
    if i < |mem| {
      FirstRow(mem, i);
      LinesAreRows(mem, i + 16);
    }
  }

  lemma {:induction false} RowsCount(mem: seq<Byte>, i: nat)
    requires i < |mem|
    ensures |Rows(mem, i)| == CeilDiv16(|mem| - i)
    decreases |mem| - i
  {
    if i + 16 < |mem| {
      RowsCount(mem, i + 16);
    }
  }

  lemma {:induction false} RowAt(mem: seq<Byte>, i: nat, k: nat)
    requires i + 16 * k < |mem|
    ensures k < |Rows(mem, i)| && Rows(mem, i)[k] == Row(mem, i + 16 * k)
    decreases k
  {
    assert Rows(mem, i) == [Row(mem, i)] + Rows(mem, i + 16);
    if k > 0 {
      RowAt(mem, i + 16, k - 1);
    }
  }

  lemma CeilStep(i: nat)
    ensures CeilDiv16(i + 1) == CeilDiv16(i) + if i % 16 == 0 then 1 else 0
  {
  }

  lemma {:induction false} CellsLength(mem: seq<Byte>, i: nat)
    requires i <= |mem|
    ensures |CellsFrom(mem, i)| == 6 * (|mem| - i) + 4 * (CeilDiv16(|mem|) - CeilDiv16(i))
    decreases |mem| - i
  {
    if i < |mem| {
      CeilStep(i);
      CellsLength(mem, i + 1);
    }
  }

  lemma {:induction false} NewlinesAppend(s: string, t: string)
    ensures Newlines(s + t) == Newlines(s) + Newlines(t)
  {
    if s == "" {
      assert s + t == t;
    } else {
      NewlinesAppend(s[1..], t);
      assert (s + t)[1..] == s[1..] + t;
    }
  }

  lemma {:induction false} CellsNewlines(mem: seq<Byte>, i: nat)
    requires i < |mem|
    ensures Newlines(CellsFrom(mem, i)) == CeilDiv16(|mem|) - i / 16
    decreases |mem| - i
  {
    CellNewlines(i, |mem|, mem[i]);
    NewlinesAppend(Cell(i, |mem|, mem[i]), CellsFrom(mem, i + 1));
    if i + 1 < |mem| {
      CellsNewlines(mem, i + 1);
    }
  }

  lemma CellNewlines(i: nat, n: nat, b: Byte)
    requires i < n
    ensures Newlines(Cell(i, n, b)) == if i % 16 == 15 || i == n - 1 then 1 else 0
  {
    var indent, separator := Indent(i), if i % 16 == 15 || i == n - 1 then "\n" else " ";
    NewlinesAppend(indent + Item(b), separator);
    NewlinesAppend(indent, Item(b));
    NoNewlines(indent);
    NoNewlines(Item(b));
    assert separator[1..] == "";
  }

  lemma {:induction false} NoNewlines(s: string)
    requires '\n' !in s
    ensures Newlines(s) == 0
  {
    if s != "" {
      NoNewlines(s[1..]);
    }
  }

  /** The characters of one item: 0x, two lower-case hexadecimal digits, high one first, and a comma. */
  lemma ItemText(b: Byte)
    ensures Item(b) == "0x" + ["0123456789abcdef"[b / 16], "0123456789abcdef"[b % 16]] + ","
  {
    DigitText(b / 16);
    DigitText(b % 16);
  }

  lemma DigitText(d: nat)
    requires d < 16
    ensures Digit(d) == "0123456789abcdef"[d]
  {
  }

  /** A named array is the headless one between the lines of a C definition. */
  lemma NamedText(id: string, mem: seq<Byte>)
    ensures Text(Some(id), mem) == "unsigned char " + id + "[] = {\n" + Text(None, mem) + "};\n"
  {
  }

  /**
   The body of a non-empty buffer has 6 characters per byte and 4 per line, one
   newline per line, and is made of ceil(n / 16) lines that hold 16 bytes each,
   the last one the rest.
   */
  lemma BodyLayout(mem: seq<Byte>)
    requires mem != []
    ensures var n, t := |mem|, Text(None, mem);
            && |t| == 6 * n + 4 * CeilDiv16(n)
            && Newlines(t) == |Lines(t)| == CeilDiv16(n)
            && (forall k :: 0 <= k < |Lines(t)| ==> 16 * k < n && Lines(t)[k] == Row(mem, 16 * k))
  {
    CellsLength(mem, 0);
    CellsNewlines(mem, 0);
    LinesAreRows(mem, 0);
    RowsCount(mem, 0);
    forall k | 0 <= k < CeilDiv16(|mem|) ensures 16 * k < |mem| && Rows(mem, 0)[k] == Row(mem, 16 * k) {
      RowAt(mem, 0, k);
    }
  }
}
