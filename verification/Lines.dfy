/**
  The strings and field lines of a QPACK field section (section 4.5 of RFC 9204),
  as far as they need no dynamic table: what each parser reads, every form it may
  read, and that it stops exactly where the next one starts.
 */
module Lines {
  import opened Words
  import opened PrefixInt
  import Bits
  import Huffman
  import PrefixCode
  import HuffmanTable
  import Hpack
  import StaticTable
  import Utf8

  // A string is its bytes; its length is a machine word.
  type Str = s: seq<byte> | |s| < U64_LIMIT witness []

  type Field = (seq<byte>, seq<byte>)

  // ---- Parsers ----

  /** The string a payload stands for. */
  function StringOf(payload: seq<byte>, huffman: bool): Result<seq<byte>, DecodeError> {
    if !huffman then Ok(payload)
    else
      var run := Hpack.Decode(payload);
      Hpack.LastFits(payload);
      if run.last.End? then Ok(run.out)
      else Err(HuffmanError(Huffman.ErrorOf(run.last, 8 * |payload|)))
  }

  /** A string whose length has a prefix of `size - 1` bits, below the Huffman flag. */
  function ParseString(s: seq<byte>, size: nat): (r: Parsed<seq<byte>, DecodeError>)
    requires 2 <= size <= 9
    ensures r.Parsed? ==> |r.rest| < |s|
  {
    var (head, rest) :- ParsePrefix(s, size - 1);
    if |rest| < head.1 then Failed(UnexpectedEnd)
    else
      match StringOf(rest[..head.1], head.0 % 2 == 1)
      case Ok(v) => Parsed(v, rest[head.1..])
      case Err(e) => Failed(e)
  }

  function ParseText(s: seq<byte>, size: nat): (r: Parsed<seq<byte>, DecodeError>)
    requires 2 <= size <= 9
    ensures r.Parsed? ==> |r.rest| < |s|
  {
    var (v, rest) :- ParseString(s, size);
    if Utf8.Valid(v) then Parsed(v, rest) else Failed(Utf8Error)
  }

  /** A string has at most 8/5 times as many bytes as were read for it. */
  lemma StringExpansion(s: seq<byte>, size: nat)
    requires 2 <= size <= 9 && ParseString(s, size).Parsed?
    ensures var r := ParseString(s, size); 5 * |r.value| <= 8 * (|s| - |r.rest|)
  {
    hide ParsePrefix, Hpack.Decode, Huffman.ErrorOf;
    var head := ParsePrefix(s, size - 1);
    Hpack.DecodeExpansion(head.rest[..head.value.1]);
  }

  function ParseIndex(s: seq<byte>): (r: Parsed<Field, DecodeError>)
    ensures r.Parsed? ==> |r.rest| < |s|
  {
    var (head, rest) :- ParsePrefix(s, 6);
    match StaticTable.Get(head.1)
    case Some(field) => Parsed(field, rest)
    case None => Failed(UnknownEntry)
  }

  function ParseLiteralValue(s: seq<byte>): (r: Parsed<Field, DecodeError>)
    ensures r.Parsed? ==> |r.rest| < |s|
  {
    var (head, rest) :- ParsePrefix(s, 4);
    match StaticTable.Get(head.1)
    case None => Failed(UnknownEntry)
    case Some(field) =>
      var (value, rest) :- ParseText(rest, 8);
      Parsed((field.0, value), rest)
  }

  function ParseLiteral(s: seq<byte>): (r: Parsed<Field, DecodeError>)
    ensures r.Parsed? ==> |r.rest| < |s|
  {
    var (name, rest) :- ParseText(s, 4);
    var (value, rest) :- ParseText(rest, 8);
    Parsed((name, value), rest)
  }

  datatype Form = IndexForm | NameForm | LiteralForm | Refused(error: DecodeError)

  /** The dispatch on the bits of the first byte. */
  function FormOf(peek: byte): Form {
    if peek / 64 == 3 then IndexForm                                   // 11......
    else if peek / 64 == 2 then Refused(DynamicEntry)                  // 10......
    else if peek / 64 == 1 && peek / 16 % 2 == 1 then NameForm         // 01.1....
    else if peek / 64 == 1 then Refused(DynamicEntry)                  // 01.0....
    else if peek / 32 == 1 then LiteralForm                            // 001.....
    else if peek / 16 == 1 then Refused(DynamicEntry)                  // 0001....
    else if peek / 16 == 0 then Refused(DynamicEntry)                  // 0000....
    else Refused(UnknownEntry)
  }

  /** The dispatch, said with the masks of the source. */
  lemma MaskForms(b: byte)
    ensures var p := b as bv8;
            FormOf(b) ==
            if p & 0xC0 == 0xC0 then IndexForm
            else if p & 0xC0 == 0x80 then Refused(DynamicEntry)
            else if p & 0xD0 == 0x50 then NameForm
            else if p & 0xD0 == 0x40 then Refused(DynamicEntry)
            else if p & 0xE0 == 0x20 then LiteralForm
            else if p & 0xF0 == 0x10 then Refused(DynamicEntry)
            else if p & 0xF0 == 0x00 then Refused(DynamicEntry)
            else Refused(UnknownEntry)
  {
  }

  /** Which first bytes announce which line: all others are refused as references
      to the dynamic table, and no first byte is unknown. */
  lemma FormRanges(peek: byte)
    ensures FormOf(peek) == IndexForm <==> 192 <= peek
    ensures FormOf(peek) == NameForm <==> 80 <= peek < 96 || 112 <= peek < 128
    ensures FormOf(peek) == LiteralForm <==> 32 <= peek < 64
    ensures FormOf(peek).Refused? ==> FormOf(peek).error == DynamicEntry
  {
  }

  function ParseLine(s: seq<byte>): (r: Parsed<Field, DecodeError>)
    requires s != []
    ensures r.Parsed? ==> |r.rest| < |s|
  {
    match FormOf(s[0])
    case IndexForm => ParseIndex(s)
    case NameForm => ParseLiteralValue(s)
    case LiteralForm => ParseLiteral(s)
    case Refused(e) => Failed(e)
  }

  /** All lines, each inserted over what came before it. */
  function ParseFields(s: seq<byte>, fields: map<seq<byte>, seq<byte>>): Result<map<seq<byte>, seq<byte>>, DecodeError>
    decreases |s|
  {
    if s == [] then Ok(fields)
    else
      match ParseLine(s)
      case Parsed(field, rest) => ParseFields(rest, fields[field.0 := field.1])
      case Failed(e) => Err(e)
  }

  /** A field section: the two integers of its prefix are read and ignored. */
  function ParseSection(s: seq<byte>): Result<map<seq<byte>, seq<byte>>, DecodeError> {
    match ParsePrefix(s, 8)
    case Failed(e) => Err(e)
    case Parsed(_, rest) =>
      match ParsePrefix(rest, 7)
      case Failed(e) => Err(e)
      case Parsed(_, rest) => ParseFields(rest, map[])
  }

  // ---- Everything they read ----

  /** The two ways to send a string. */
  function Payload(s: seq<byte>, huffman: bool): seq<byte> {
    if huffman then Hpack.EncodeString(s) else s
  }

  function FlagBit(b: bool): nat {
    if b then 1 else 0
  }

  /** A string under `high`, the bits above its Huffman flag. */
  function PrintString(size: nat, high: nat, s: seq<byte>, huffman: bool): (r: seq<byte>)
    requires 2 <= size <= 9 && 2 * high + FlagBit(huffman) < 256
    requires |Payload(s, huffman)| < U64_LIMIT
    ensures r != []
  {
    var p := Payload(s, huffman);
    PrintPrefix(size - 1, 2 * high + FlagBit(huffman), |p|) + p
  }

  /** The lines that need no dynamic table.  `never` is the N bit. */
  datatype Line =
    | Indexed(index: nat)
    | NameRef(never: bool, index: nat, value: Str, huffman: bool)
    | Literal(never: bool, name: Str, nameHuffman: bool, value: Str, huffman: bool)
  {
    predicate Valid() {
      match this
      case Indexed(i) => i < StaticTable.SIZE
      case NameRef(_, i, v, h) => i < StaticTable.SIZE && Utf8.Valid(v) && |Payload(v, h)| < U64_LIMIT
      case Literal(_, n, nh, v, h) =>
        && Utf8.Valid(n) && |Payload(n, nh)| < U64_LIMIT
        && Utf8.Valid(v) && |Payload(v, h)| < U64_LIMIT
    }

    /** The field a line stands for. */
    function Meaning(): Field
      requires Valid()
    {
      match this
      case Indexed(i) => StaticTable.Get(i).value
      case NameRef(_, i, v, _) => (StaticTable.Get(i).value.0, v)
      case Literal(_, n, _, v, _) => (n, v)
    }

    function Print(): (r: seq<byte>)
      requires Valid()
      ensures r != []
    {
      match this
      case Indexed(i) => PrintPrefix(6, 3, i)
      case NameRef(never, i, v, h) => PrintPrefix(4, 5 + 2 * FlagBit(never), i) + PrintString(8, 0, v, h)
      case Literal(never, n, nh, v, h) => PrintString(4, 2 + FlagBit(never), n, nh) + PrintString(8, 0, v, h)
    }
  }

  lemma ParsePrintString(size: nat, high: nat, s: seq<byte>, huffman: bool, rest: seq<byte>)
    requires 2 <= size <= 9 && |Payload(s, huffman)| < U64_LIMIT
    requires (2 * high + FlagBit(huffman)) * Pow2(size - 1) < 256 && 2 * high + FlagBit(huffman) < 256
    ensures ParseString(PrintString(size, high, s, huffman) + rest, size) == Parsed(s, rest)
  {
    hide PrintPrefix, ParsePrefix, Pow2, Hpack.Decode, Hpack.EncodeString;
    var p := Payload(s, huffman);
    var flags := 2 * high + FlagBit(huffman);
    var head := PrintPrefix(size - 1, flags, |p|);
    assert PrintString(size, high, s, huffman) + rest == head + (p + rest);
    ParsePrintPrefix(size - 1, flags, |p|, p + rest);
    assert (p + rest)[..|p|] == p && (p + rest)[|p|..] == rest;
    if huffman {
      Hpack.DecodeOfEncode(s);
    }
  }

  lemma ParsePrintText(size: nat, high: nat, s: seq<byte>, huffman: bool, rest: seq<byte>)
    requires 2 <= size <= 9 && |Payload(s, huffman)| < U64_LIMIT && Utf8.Valid(s)
    requires (2 * high + FlagBit(huffman)) * Pow2(size - 1) < 256 && 2 * high + FlagBit(huffman) < 256
    ensures ParseText(PrintString(size, high, s, huffman) + rest, size) == Parsed(s, rest)
  {
    hide PrintString, ParseString, Pow2, Utf8.Valid;
    ParsePrintString(size, high, s, huffman, rest);
  }

  /** Each line is read back to its meaning, and the parser stops where it ends. */
  lemma ParsePrintLine(l: Line, rest: seq<byte>)
    requires l.Valid()
    ensures ParseLine(l.Print() + rest) == Parsed(l.Meaning(), rest)
  {
    match l
    case Indexed(i) => ParseIndexed(i, rest);
    case NameRef(never, i, v, h) => ParseNameRef(l, rest);
    case Literal(never, n, nh, v, h) => ParseLiteralLine(l, rest);
  }

  lemma ParseIndexed(i: nat, rest: seq<byte>)
    requires i < StaticTable.SIZE
    ensures ParseLine(Indexed(i).Print() + rest) == Parsed(Indexed(i).Meaning(), rest)
  {
    hide PrintPrefix, ParsePrefix, StaticTable.Get, Pow2, FormOf;
    Pow2Small();
    IndexedFirst(i);
    ParsePrintPrefix(6, 3, i, rest);
  }

  lemma IndexedFirst(i: u64)
    ensures 3 * Pow2(6) < 256 && FormOf(PrintPrefix(6, 3, i)[0]) == IndexForm
  {
    hide PrintPrefix, Pow2;
    Pow2Small();
    PrintFirst(6, 3, i);
  }

  lemma ParseNameRef(l: Line, rest: seq<byte>)
    requires l.Valid() && l.NameRef?
    ensures ParseLine(l.Print() + rest) == Parsed(l.Meaning(), rest)
  {
    hide PrintPrefix, ParsePrefix, ParseText, PrintString, Pow2, Utf8.Valid, StaticTable.Get, FormOf, Payload;
    Pow2Small();
    var flags := 5 + 2 * FlagBit(l.never);
    var tail := PrintString(8, 0, l.value, l.huffman);
    NameRefFirst(l.never, l.index);
    assert l.Print() + rest == PrintPrefix(4, flags, l.index) + (tail + rest);
    ParsePrintPrefix(4, flags, l.index, tail + rest);
    ParsePrintText(8, 0, l.value, l.huffman, rest);
  }

  lemma NameRefFirst(never: bool, index: u64)
    ensures var flags := 5 + 2 * FlagBit(never);
            flags * Pow2(4) < 256 && FormOf(PrintPrefix(4, flags, index)[0]) == NameForm
  {
    hide PrintPrefix, Pow2;
    Pow2Small();
    PrintFirst(4, 5 + 2 * FlagBit(never), index);
  }

  lemma ParseLiteralLine(l: Line, rest: seq<byte>)
    requires l.Valid() && l.Literal?
    ensures ParseLine(l.Print() + rest) == Parsed(l.Meaning(), rest)
  {
    hide ParseText, PrintString, Pow2, Utf8.Valid, Payload, FormOf;
    Pow2Small();
    var high := 2 + FlagBit(l.never);
    var head, tail := PrintString(4, high, l.name, l.nameHuffman), PrintString(8, 0, l.value, l.huffman);
    LiteralFirst(l.never, l.name, l.nameHuffman);
    assert l.Print() + rest == head + (tail + rest);
    ParsePrintText(4, high, l.name, l.nameHuffman, tail + rest);
    ParsePrintText(8, 0, l.value, l.huffman, rest);
  }

  lemma LiteralFirst(never: bool, name: seq<byte>, huffman: bool)
    requires |Payload(name, huffman)| < U64_LIMIT
    ensures var high := 2 + FlagBit(never);
            && 2 * high + FlagBit(huffman) < 256 && (2 * high + FlagBit(huffman)) * Pow2(3) < 256
            && FormOf(PrintString(4, high, name, huffman)[0]) == LiteralForm
  {
    hide PrintPrefix, Payload, Pow2;
    Pow2Small();
    PrintFirst(3, 2 * (2 + FlagBit(never)) + FlagBit(huffman), |Payload(name, huffman)|);
  }

  // ---- Sections ----

  predicate AllValid(ls: seq<Line>) {
    forall i :: 0 <= i < |ls| ==> ls[i].Valid()
  }

  function PrintLines(ls: seq<Line>): seq<byte>
    requires AllValid(ls)
  {
    if ls == [] then [] else ls[0].Print() + PrintLines(ls[1..])
  }

  /** The fields of the lines inserted in order, the last of a name winning. */
  function InsertAll(fields: map<seq<byte>, seq<byte>>, ls: seq<Line>): map<seq<byte>, seq<byte>>
    requires AllValid(ls)
    decreases ls
  {
    if ls == [] then fields
    else InsertAll(fields[ls[0].Meaning().0 := ls[0].Meaning().1], ls[1..])
  }

  /** Printed lines are inserted in order, and what follows them is read as if they
      had been read elsewhere. */
  lemma {:induction false} ParsePrintLines(ls: seq<Line>, fields: map<seq<byte>, seq<byte>>, rest: seq<byte>)
    requires AllValid(ls)
    ensures ParseFields(PrintLines(ls) + rest, fields) == ParseFields(rest, InsertAll(fields, ls))
  {
    hide ParseLine, Line.Print, Line.Meaning, Line.Valid;
    if ls == [] {
      assert PrintLines(ls) + rest == rest;
    } else {
      var tail := PrintLines(ls[1..]) + rest;
      assert PrintLines(ls) + rest == ls[0].Print() + tail;
      ParsePrintLine(ls[0], tail);
      ParsePrintLines(ls[1..], fields[ls[0].Meaning().0 := ls[0].Meaning().1], rest);
    }
  }

  /** A section: any prefix, then any lines. */
  function PrintSection(insertCount: u64, sign: bool, base: u64, ls: seq<Line>): seq<byte>
    requires AllValid(ls)
  {
    PrintPrefix(8, 0, insertCount) + (PrintPrefix(7, FlagBit(sign), base) + PrintLines(ls))
  }

  /** The last line wins: it replaces what any before it, or the map, said of its name. */
  lemma {:induction false} LastLineWins(fields: map<seq<byte>, seq<byte>>, ls: seq<Line>, l: Line)
    requires AllValid(ls) && l.Valid()
    ensures InsertAll(fields, []) == fields
    ensures InsertAll(fields, ls + [l]) == InsertAll(fields, ls)[l.Meaning().0 := l.Meaning().1]
    decreases ls
  {
    hide Line.Meaning, Line.Valid;
    if ls == [] {
      assert ls + [l] == [l] && [l][1..] == [];
    } else {
      assert (ls + [l])[0] == ls[0] && (ls + [l])[1..] == ls[1..] + [l];
      LastLineWins(fields[ls[0].Meaning().0 := ls[0].Meaning().1], ls[1..], l);
    }
  }

  /** Decoding any section of these lines is the last-wins insertion of their fields. */
  lemma SectionFold(insertCount: u64, sign: bool, base: u64, ls: seq<Line>)
    requires AllValid(ls)
    ensures ParseSection(PrintSection(insertCount, sign, base, ls)) == Ok(InsertAll(map[], ls))
  {
    hide PrintPrefix, ParsePrefix, ParseFields, Pow2;
    Pow2Small();
    var tail := PrintPrefix(7, FlagBit(sign), base) + PrintLines(ls);
    ParsePrintPrefix(8, 0, insertCount, tail);
    ParsePrintPrefix(7, FlagBit(sign), base, PrintLines(ls));
    ParsePrintLines(ls, map[], []);
    assert PrintLines(ls) + [] == PrintLines(ls);
    assert ParseFields([], InsertAll(map[], ls)) == Ok(InsertAll(map[], ls)) by { NoFields(InsertAll(map[], ls)); }
  }

  lemma NoFields(fields: map<seq<byte>, seq<byte>>)
    ensures ParseFields([], fields) == Ok(fields)
  {
  }

  /** A line that cannot be read, behind any lines, refuses the section with its error. */
  lemma BadLineRefuses(insertCount: u64, sign: bool, base: u64, ls: seq<Line>, rest: seq<byte>)
    requires AllValid(ls) && rest != [] && ParseLine(rest).Failed?
    ensures ParseSection(PrintSection(insertCount, sign, base, ls) + rest) == Err(ParseLine(rest).error)
  {
    hide PrintPrefix, ParsePrefix, ParseLine, PrintLines, Pow2;
    Pow2Small();
    var lines := PrintLines(ls) + rest;
    var tail := PrintPrefix(7, FlagBit(sign), base) + lines;
    assert PrintSection(insertCount, sign, base, ls) + rest == PrintPrefix(8, 0, insertCount) + tail;
    ParsePrintPrefix(8, 0, insertCount, tail);
    ParsePrintPrefix(7, FlagBit(sign), base, lines);
    ParsePrintLines(ls, map[], rest);
  }

  /** So does one that refers to the dynamic table. */
  lemma DynamicRefused(insertCount: u64, sign: bool, base: u64, ls: seq<Line>, rest: seq<byte>)
    requires AllValid(ls) && rest != [] && FormOf(rest[0]).Refused?
    ensures ParseSection(PrintSection(insertCount, sign, base, ls) + rest) == Err(DynamicEntry)
  {
    hide PrintLines, PrintSection, ParseSection;
    FormRanges(rest[0]);
    BadLineRefuses(insertCount, sign, base, ls, rest);
  }

  /** A section whose two leading integers are not both there is refused with the error
      of the one that is not. */
  lemma BadPrefixRefused(insertCount: u64, s: seq<byte>)
    ensures ParsePrefix(s, 8).Failed? ==> ParseSection(s) == Err(ParsePrefix(s, 8).error)
    ensures ParsePrefix(s, 7).Failed? ==>
              ParseSection(PrintPrefix(8, 0, insertCount) + s) == Err(ParsePrefix(s, 7).error)
  {
    hide PrintPrefix, ParsePrefix, Pow2;
    Pow2Small();
    ParsePrintPrefix(8, 0, insertCount, s);
  }

  // ---- Indices outside the static table ----

  /** An index of 99 or more is no entry, whether a line refers to it for its field or
      for its name. */
  lemma UnknownIndexRefused(never: bool, index: u64, rest: seq<byte>)
    requires index >= 99
    ensures ParseLine(PrintPrefix(6, 3, index) + rest) == Failed(UnknownEntry)
    ensures ParseLine(PrintPrefix(4, 5 + 2 * FlagBit(never), index) + rest) == Failed(UnknownEntry)
  {
    hide PrintPrefix, ParsePrefix, ParseText, Pow2, FormOf;
    Pow2Small();
    IndexedFirst(index);
    ParsePrintPrefix(6, 3, index, rest);
    NameRefFirst(never, index);
    ParsePrintPrefix(4, 5 + 2 * FlagBit(never), index, rest);
  }

  /** A section with such a line behind any lines is refused, whatever follows. */
  lemma UnknownRefused(insertCount: u64, sign: bool, base: u64, ls: seq<Line>, never: bool, index: u64, rest: seq<byte>)
    requires AllValid(ls) && index >= 99
    ensures var front := PrintSection(insertCount, sign, base, ls);
            && ParseSection(front + (PrintPrefix(6, 3, index) + rest)) == Err(UnknownEntry)
            && ParseSection(front + (PrintPrefix(4, 5 + 2 * FlagBit(never), index) + rest)) == Err(UnknownEntry)
  {
    hide PrintLines, PrintSection, ParseSection, PrintPrefix, ParseLine;
    UnknownIndexRefused(never, index, rest);
    BadLineRefuses(insertCount, sign, base, ls, PrintPrefix(6, 3, index) + rest);
    BadLineRefuses(insertCount, sign, base, ls, PrintPrefix(4, 5 + 2 * FlagBit(never), index) + rest);
  }

  // ---- Strings that cannot be read ----

  /** By the length `n` announced under either flag: too few bytes are cut short, and
      enough of them are the string they stand for, the error of that, or no text. */
  lemma StringOutcome(size: nat, high: nat, huffman: bool, n: u64, s: seq<byte>)
    requires 2 <= size <= 9
    requires (2 * high + FlagBit(huffman)) * Pow2(size - 1) < 256 && 2 * high + FlagBit(huffman) < 256
    ensures var r := ParseText(PrintPrefix(size - 1, 2 * high + FlagBit(huffman), n) + s, size);
            && (|s| < n ==> r == Failed(UnexpectedEnd))
            && (n <= |s| ==>
                 match StringOf(s[..n], huffman)
                 case Ok(v) => r == if Utf8.Valid(v) then Parsed(v, s[n..]) else Failed(Utf8Error)
                 case Err(e) => r == Failed(e))
  {
    hide PrintPrefix, ParsePrefix, Pow2, StringOf, Utf8.Valid;
    ParsePrintPrefix(size - 1, 2 * high + FlagBit(huffman), n, s);
  }

  // ---- What a Huffman string comes to ----

  /** It is accepted exactly when its bits are the codes of some string and a tail that
      stops cleanly, and as no other string. */
  lemma HuffmanStringExact(payload: seq<byte>, v: seq<byte>)
    ensures StringOf(payload, true) == Ok(v) <==>
            exists tail: Bits.bits ::
              Bits.BitsOf(payload) == PrefixCode.Codes(HuffmanTable.CodeBits, v) + tail && Hpack.StopsClean(tail)
    ensures StringOf(payload, true).Ok? <==> Hpack.StopsClean(Hpack.Tail(payload))
  {
    hide Hpack.Decode, Hpack.Tail, Hpack.StopsClean, Huffman.ErrorOf, Bits.BitsOf, PrefixCode.Codes, HuffmanTable.CodeBits;
    Hpack.CleanDecodeIff(payload, v);
    Hpack.CleanEndIff(payload);
  }

  /** An unhandled value is reported exactly when EOS and eight bits more stand behind
      the last symbol, with the place and the value of these. */
  lemma UnhandledReported(payload: seq<byte>)
    ensures |Hpack.Tail(payload)| <= 8 * |payload|
    ensures var t := Hpack.Tail(payload);
            var q := 8 * |payload| - |t| + 30;
            var r := StringOf(payload, true);
            if |t| >= 38 && Bits.AllOnes(t[..30])
            then r == Err(HuffmanError(Huffman.Unhandled(Huffman.Window(q / 8, q % 8, 8), Bits.Value(t[30..38]))))
            else r.Ok? || (r.error.HuffmanError? && r.error.cause.MissingBits?)
  {
    hide Hpack.Decode, Hpack.Tail, Bits.BitsOf, Bits.Value, Bits.AllOnes;
    Hpack.LastFits(payload);
    Hpack.UnhandledIff(payload);
  }

  /** Missing bits are reported exactly when the bits behind the last symbol run out
      inside a node with a zero among its bits, with the place of these and the number
      of bits of the node. */
  lemma MissingReported(payload: seq<byte>, q: nat, count: u32)
    ensures |Hpack.Tail(payload)| <= 8 * |payload|
    ensures var t := Hpack.Tail(payload);
            StringOf(payload, true) == Err(HuffmanError(Huffman.MissingBits(Huffman.Window(q / 8, q % 8, count)))) <==>
            exists j: nat, n ::
              && Huffman.StopsInside(HuffmanTable.HPACK_STRING, t, j, n) && n.lookup == count
              && !Bits.AllOnes(t[j..]) && q == 8 * |payload| - |t| + j
  {
    hide Hpack.Decode, Hpack.Tail, Bits.BitsOf, Bits.AllOnes, Huffman.LeadsTo;
    var t, last := Hpack.Tail(payload), Hpack.Decode(payload).last;
    Hpack.LastFits(payload);
    forall j: nat, n | Huffman.StopsInside(HuffmanTable.HPACK_STRING, t, j, n) && !Bits.AllOnes(t[j..])
      ensures last == Huffman.Missing(t[j..], n.lookup)
    {
      Hpack.MissingIff(payload, t[j..], n.lookup);
    }
    if last.Missing? {
      Hpack.MissingIff(payload, last.tail, last.count);
    }
  }

  // ---- Parsers look no further than they read ----

  lemma PrefixStable(s: seq<byte>, size: nat, more: seq<byte>)
    requires 1 <= size <= 8 && ParsePrefix(s, size).Parsed?
    ensures var r := ParsePrefix(s, size); ParsePrefix(s + more, size) == Parsed(r.value, r.rest + more)
  {
    hide FlagsOf, LowOf, Mask, Base128, Continued;
    var tail := s[1..];
    assert (s + more)[1..] == tail + more;
    if LowOf(s[0], size) >= Mask(size) {
      var n := Continued(tail);
      ContinuedPrefix(tail, more);
      assert (tail + more)[..n + 1] == tail[..n + 1] && (tail + more)[n + 1..] == tail[n + 1..] + more;
    }
  }

  lemma TextStable(s: seq<byte>, size: nat, more: seq<byte>)
    requires 2 <= size <= 9 && ParseText(s, size).Parsed?
    ensures var r := ParseText(s, size); ParseText(s + more, size) == Parsed(r.value, r.rest + more)
  {
    hide ParsePrefix, StringOf, Utf8.Valid;
    PrefixStable(s, size - 1, more);
    var (head, rest) := (ParsePrefix(s, size - 1).value, ParsePrefix(s, size - 1).rest);
    assert (rest + more)[..head.1] == rest[..head.1] && (rest + more)[head.1..] == rest[head.1..] + more;
  }

  /** Whatever a line parser accepts, it accepts in front of any bytes, and leaves them. */
  lemma LineStable(s: seq<byte>, more: seq<byte>)
    requires s != [] && ParseLine(s).Parsed?
    ensures var r := ParseLine(s); ParseLine(s + more) == Parsed(r.value, r.rest + more)
  {
    hide ParsePrefix, ParseText, StaticTable.Get;
    match FormOf(s[0])
    case IndexForm => PrefixStable(s, 6, more);
    case NameForm =>
      PrefixStable(s, 4, more);
      TextStable(ParsePrefix(s, 4).rest, 8, more);
    case LiteralForm =>
      TextStable(s, 4, more);
      TextStable(ParseText(s, 4).rest, 8, more);
    case Refused(_) =>
  }

  /** An error other than the end of the bytes is there whatever follows. */
  lemma PrefixErrorStable(s: seq<byte>, size: nat, more: seq<byte>)
    requires 1 <= size <= 8 && ParsePrefix(s, size).Failed? && ParsePrefix(s, size).error != UnexpectedEnd
    ensures ParsePrefix(s + more, size) == ParsePrefix(s, size)
  {
    hide ParsePrefix;
    PrefixOutcome(s, size);
    PrefixOutcome(s + more, size);
    assert forall i :: 0 <= i < |s| ==> (s + more)[i] == s[i];
  }

  lemma TextErrorStable(s: seq<byte>, size: nat, more: seq<byte>)
    requires 2 <= size <= 9 && ParseText(s, size).Failed? && ParseText(s, size).error != UnexpectedEnd
    ensures ParseText(s + more, size) == ParseText(s, size)
  {
    hide ParsePrefix, StringOf, Utf8.Valid;
    var head := ParsePrefix(s, size - 1);
    if head.Parsed? {
      PrefixStable(s, size - 1, more);
      assert head.value.1 <= |head.rest| ==> (head.rest + more)[..head.value.1] == head.rest[..head.value.1];
    } else {
      PrefixErrorStable(s, size - 1, more);
    }
  }

  lemma LineErrorStable(s: seq<byte>, more: seq<byte>)
    requires s != [] && ParseLine(s).Failed? && ParseLine(s).error != UnexpectedEnd
    ensures ParseLine(s + more) == ParseLine(s)
  {
    hide ParsePrefix, ParseText, StaticTable.Get;
    match FormOf(s[0])
    case IndexForm =>
      if ParsePrefix(s, 6).Parsed? { PrefixStable(s, 6, more); } else { PrefixErrorStable(s, 6, more); }
    case NameForm =>
      if ParsePrefix(s, 4).Failed? {
        PrefixErrorStable(s, 4, more);
      } else {
        var r := ParsePrefix(s, 4);
        PrefixStable(s, 4, more);
        if StaticTable.Get(r.value.1).Some? {
          TextErrorStable(r.rest, 8, more);
        }
      }
    case LiteralForm =>
      if ParseText(s, 4).Failed? {
        TextErrorStable(s, 4, more);
      } else {
        TextStable(s, 4, more);
        TextErrorStable(ParseText(s, 4).rest, 8, more);
      }
    case Refused(_) =>
  }

  /** A line cut short anywhere is refused for having ended. */
  lemma CutLineRefused(l: Line, n: nat)
    requires l.Valid() && 0 < n < |l.Print()|
    ensures ParseLine(l.Print()[..n]) == Failed(UnexpectedEnd)
  {
    hide ParseLine, Line.Print;
    var s, more := l.Print()[..n], l.Print()[n..];
    assert s + more == l.Print() == l.Print() + [];
    ParsePrintLine(l, []);
    if ParseLine(s).Parsed? {
      assert |ParseLine(s).rest + more| > 0;
      LineStable(s, more);
    } else if ParseLine(s).error != UnexpectedEnd {
      LineErrorStable(s, more);
    }
  }

  // ---- Only text is accepted ----

  predicate IsText(fields: map<seq<byte>, seq<byte>>) {
    forall k :: k in fields ==> Utf8.Valid(k) && Utf8.Valid(fields[k])
  }

  lemma LineIsText(s: seq<byte>)
    requires s != [] && ParseLine(s).Parsed?
    ensures var field := ParseLine(s).value; Utf8.Valid(field.0) && Utf8.Valid(field.1)
  {
    hide ParsePrefix, ParseString, StaticTable.Get, Utf8.Valid;
    match FormOf(s[0])
    case IndexForm => StaticTable.GetIsText(ParsePrefix(s, 6).value.1);
    case NameForm => StaticTable.GetIsText(ParsePrefix(s, 4).value.1);
    case _ =>
  }

  lemma {:induction false} FieldsAreText(s: seq<byte>, fields: map<seq<byte>, seq<byte>>)
    requires IsText(fields) && ParseFields(s, fields).Ok?
    ensures IsText(ParseFields(s, fields).value)
    decreases |s|
  {
    hide ParseLine, Utf8.Valid;
    if s != [] {
      var r := ParseLine(s);
      LineIsText(s);
      FieldsAreText(r.rest, fields[r.value.0 := r.value.1]);
    }
  }

  /** Every name and value of an accepted section is valid UTF-8, wherever it is from. */
  lemma SectionIsText(s: seq<byte>)
    requires ParseSection(s).Ok?
    ensures IsText(ParseSection(s).value)
  {
    hide ParsePrefix, ParseFields, Utf8.Valid;
    FieldsAreText(ParsePrefix(ParsePrefix(s, 8).rest, 7).rest, map[]);
  }
}
