/**
  The header map: decoding a field section into it, line by line, and encoding it
  in whatever order the map is iterated, pseudo-headers first.
 */
module Qpack {
  import opened Words
  import opened Buffers
  import opened PrefixInt
  import opened Lines
  import Huffman
  import Bits
  import Hpack
  import StaticTable
  import Utf8

  type Fields = map<seq<byte>, seq<byte>>

  // ---- Reading ----

  /** No string read here is a Huffman payload whose bit count overflows 32 bits. */
  ghost predicate TextCountable(s: seq<byte>, size: nat)
    requires 2 <= size <= 9
  {
    var head := ParsePrefix(s, size - 1);
    head.Parsed? && head.value.0 % 2 == 1 && head.value.1 <= |head.rest| ==>
      Hpack.Decodable(head.rest[..head.value.1])
  }

  ghost predicate LineCountable(s: seq<byte>)
    requires s != []
  {
    match FormOf(s[0])
    case NameForm =>
      var head := ParsePrefix(s, 4);
      head.Parsed? && StaticTable.Get(head.value.1).Some? ==> TextCountable(head.rest, 8)
    case LiteralForm =>
      TextCountable(s, 4) && (ParseText(s, 4).Parsed? ==> TextCountable(ParseText(s, 4).rest, 8))
    case _ => true
  }

  ghost predicate FieldsCountable(s: seq<byte>)
    decreases |s|
  {
    s != [] ==> LineCountable(s) && (ParseLine(s).Parsed? ==> FieldsCountable(ParseLine(s).rest))
  }

  /** Every string that decoding a section reads has a bit count of 32 bits. */
  ghost predicate SectionCountable(s: seq<byte>) {
    var insertCount := ParsePrefix(s, 8);
    insertCount.Parsed? ==>
      var base := ParsePrefix(insertCount.rest, 7);
      base.Parsed? ==> FieldsCountable(base.rest)
  }

  method DecodeString(buf: Buf, size: nat) returns (r: Result<seq<byte>, DecodeError>)
    requires 2 <= size <= 9 && TextCountable(buf.data, size)
    modifies buf
    ensures match ParseString(old(buf.data), size)
            case Parsed(v, rest) => r == Ok(v) && buf.data == rest
            case Failed(e) => r == Err(e)
  {
    hide ParsePrefix, Hpack.Decode, Hpack.Decodable;
    if !buf.HasRemaining() {
      ParseNothing(size - 1);
      return Err(UnexpectedEnd);
    }
    var head :- DecodePrefix(buf, size - 1);
    var (flags, len) := head;
    if |buf.data| < len {
      return Err(UnexpectedEnd);
    }
    var payload := buf.CopyToBytes(len);
    if flags % 2 == 0 {
      r := Ok(payload);
    } else {
      r := DecodePayload(payload);
    }
  }

  lemma ParseNothing(size: nat)
    requires 1 <= size <= 8
    ensures ParsePrefix([], size) == Failed(UnexpectedEnd)
  {
  }

  /** Collects the symbols of a Huffman payload up to its end or the first error. */
  method DecodePayload(payload: seq<byte>) returns (r: Result<seq<byte>, DecodeError>)
    requires Hpack.Decodable(payload)
    ensures r == StringOf(payload, true)
  {
    hide *;
    var decoded := [];
    var iter := new Hpack.DecodeIter(payload);
    Hpack.DecodeFromStart(payload);
    while true
      invariant iter.Valid() && fresh(iter) && fresh(iter.bitPos) && iter.content == payload
      invariant Hpack.Decode(payload).out == decoded + Hpack.DecodeBits(iter.Rest()).out
      invariant Hpack.Decode(payload).last == Hpack.DecodeBits(iter.Rest()).last
      decreases |iter.Rest()|
    {
      ghost var before := iter.Rest();
      var item := iter.Next();
      Hpack.StepsOfWalk(before, item, if Hpack.IsSymbol(item) then iter.Rest() else [], 8 * |payload|);
      if !Hpack.IsSymbol(item) {
        StringAtEnd(payload, decoded, item, before);
        return if item == None then Ok(decoded) else Err(HuffmanError(item.value.error));
      }
      Bits.Regroup(decoded, item.value.value, Hpack.DecodeBits(iter.Rest()).out);
      decoded := decoded + [item.value.value];
    }
  }

  lemma StringAtEnd(payload: seq<byte>, decoded: seq<byte>, item: Option<Result<byte, Huffman.Error>>, s: Bits.bits)
    requires Hpack.Decode(payload).out == decoded + Hpack.DecodeBits(s).out
    requires Hpack.Decode(payload).last == Hpack.DecodeBits(s).last
    requires Hpack.Steps(item, s, [], 8 * |payload|) && !Hpack.IsSymbol(item)
    ensures StringOf(payload, true) == if item == None then Ok(decoded) else Err(HuffmanError(item.value.error))
  {
    hide Bits.BitsOf, Huffman.ErrorOf, Hpack.DecodeBits, Hpack.Decode;
    assert decoded + [] == decoded;
  }

  method DecodeText(buf: Buf, size: nat) returns (r: Result<seq<byte>, DecodeError>)
    requires 2 <= size <= 9 && TextCountable(buf.data, size)
    modifies buf
    ensures match ParseText(old(buf.data), size)
            case Parsed(v, rest) => r == Ok(v) && buf.data == rest
            case Failed(e) => r == Err(e)
  {
    hide ParseString, TextCountable, Utf8.Valid;
    var value :- DecodeString(buf, size);
    match Utf8.FromUtf8(value) {
      case Some(text) => r := Ok(text);
      case None => r := Err(Utf8Error);
    }
  }

  method DecodeIndex(buf: Buf) returns (r: Result<Field, DecodeError>)
    modifies buf
    ensures match ParseIndex(old(buf.data))
            case Parsed(v, rest) => r == Ok(v) && buf.data == rest
            case Failed(e) => r == Err(e)
  {
    hide ParsePrefix, StaticTable.Get;
    var head :- DecodePrefix(buf, 6);
    match StaticTable.Get(head.1) {
      case Some(field) => r := Ok(field);
      case None => r := Err(UnknownEntry);
    }
  }

  method DecodeLiteralValue(buf: Buf) returns (r: Result<Field, DecodeError>)
    requires var head := ParsePrefix(buf.data, 4);
             head.Parsed? && StaticTable.Get(head.value.1).Some? ==> TextCountable(head.rest, 8)
    modifies buf
    ensures match ParseLiteralValue(old(buf.data))
            case Parsed(v, rest) => r == Ok(v) && buf.data == rest
            case Failed(e) => r == Err(e)
  {
    hide ParsePrefix, ParseText, TextCountable, StaticTable.Get;
    var head :- DecodePrefix(buf, 4);
    match StaticTable.Get(head.1) {
      case Some(field) =>
        var value :- DecodeText(buf, 8);
        r := Ok((field.0, value));
      case None => r := Err(UnknownEntry);
    }
  }

  method DecodeLiteral(buf: Buf) returns (r: Result<Field, DecodeError>)
    requires TextCountable(buf.data, 4)
    requires ParseText(buf.data, 4).Parsed? ==> TextCountable(ParseText(buf.data, 4).rest, 8)
    modifies buf
    ensures match ParseLiteral(old(buf.data))
            case Parsed(v, rest) => r == Ok(v) && buf.data == rest
            case Failed(e) => r == Err(e)
  {
    hide ParseText, TextCountable;
    var name :- DecodeText(buf, 4);
    var value :- DecodeText(buf, 8);
    r := Ok((name, value));
  }

  // ---- Writing ----

  /** The line chosen for a field: its table entry, its name's, or neither. */
  function LineFor(name: Str, value: Str): Line {
    match StaticTable.Find(StaticTable.Text(name), StaticTable.Text(value))
    case Some(i) => Indexed(i)
    case None =>
      match StaticTable.FindName(StaticTable.Text(name))
      case Some(i) => NameRef(false, i, value, false)
      case None => Literal(false, name, false, value, false)
  }

  /** The line chosen for a field means that field. */
  lemma LineForMeans(name: Str, value: Str)
    requires Utf8.Valid(name) && Utf8.Valid(value)
    ensures LineFor(name, value).Valid() && LineFor(name, value).Meaning() == (name, value)
  {
    hide StaticTable.Find, StaticTable.FindName, StaticTable.Get, StaticTable.Text, Utf8.Valid;
    StaticTable.GetOfFind(name, value);
  }

  /** Whatever the table holds is taken from it: a field that is an entry is written as
      that entry, and one of which only the name is there by the least entry of that
      name, with its value raw; only a name that is not there is written out. */
  lemma LineForExact(name: Str, value: Str, i: nat)
    requires i < StaticTable.SIZE
    ensures LineFor(name, value) == Indexed(i) <==> StaticTable.Entry(i) == (StaticTable.Text(name), StaticTable.Text(value))
    ensures LineFor(name, value) == NameRef(false, i, value, false) <==>
              && (forall j: nat :: j < StaticTable.SIZE ==>
                   StaticTable.Entry(j) != (StaticTable.Text(name), StaticTable.Text(value)))
              && StaticTable.Entry(i).0 == StaticTable.Text(name)
              && (forall j: nat :: j < i ==> StaticTable.Entry(j).0 != StaticTable.Text(name))
    ensures LineFor(name, value) == Literal(false, name, false, value, false) <==>
              forall j: nat :: j < StaticTable.SIZE ==> StaticTable.Entry(j).0 != StaticTable.Text(name)
  {
    hide StaticTable.Find, StaticTable.FindName, StaticTable.Entry, StaticTable.Text;
    var n, v := StaticTable.Text(name), StaticTable.Text(value);
    forall j: nat | j < StaticTable.SIZE
      ensures StaticTable.Find(n, v) == Some(j) <==> StaticTable.Entry(j) == (n, v)
      ensures StaticTable.FindName(n) == Some(j) <==>
                StaticTable.Entry(j).0 == n && forall k: nat :: k < j ==> StaticTable.Entry(k).0 != n
    {
      StaticTable.FindExact(n, v, j);
      StaticTable.FindNameExact(n, j);
    }
    FoundWithin(n, v);
  }

  lemma FoundWithin(name: string, value: string)
    ensures StaticTable.Find(name, value).Some? ==> StaticTable.Find(name, value).value < StaticTable.SIZE
    ensures StaticTable.FindName(name).Some? ==> StaticTable.FindName(name).value < StaticTable.SIZE
    ensures StaticTable.FindName(name) == None ==>
              forall j: nat :: j < StaticTable.SIZE ==> StaticTable.Entry(j).0 != name
  {
    hide StaticTable.Find, StaticTable.FindName, StaticTable.Entry;
    if StaticTable.Find(name, value).Some? {
      StaticTable.FindExact(name, value, StaticTable.Find(name, value).value);
    }
    if StaticTable.FindName(name).Some? {
      StaticTable.FindNameExact(name, StaticTable.FindName(name).value);
    }
    forall j: nat | j < StaticTable.SIZE && StaticTable.Entry(j).0 == name ensures StaticTable.FindName(name).Some? {
      StaticTable.NamesEntry(j);
    }
  }

  predicate Pseudo(name: seq<byte>) {
    name != [] && name[0] == ':' as int
  }

  type TextField = (Str, Str)

  function Select(items: seq<TextField>, pseudo: bool): seq<TextField> {
    if items == [] then []
    else if Pseudo(items[0].0) == pseudo then [items[0]] + Select(items[1..], pseudo)
    else Select(items[1..], pseudo)
  }

  /** The stable sort by whether the name starts with a colon. */
  function PseudoFirst(items: seq<TextField>): seq<TextField> {
    Select(items, true) + Select(items, false)
  }

  /** It keeps every item, and puts the pseudo-headers before all others. */
  lemma PseudoFirstSorts(items: seq<TextField>)
    ensures multiset(PseudoFirst(items)) == multiset(items)
    ensures var s := PseudoFirst(items);
            forall i, j :: 0 <= i < j < |s| && s[j].0 != [] && s[j].0[0] == 0x3A ==> s[i].0 != [] && s[i].0[0] == 0x3A
  {
    SelectParts(items);
    SelectAll(items, true);
    SelectAll(items, false);
  }

  lemma {:induction false} SelectParts(items: seq<TextField>)
    ensures multiset(Select(items, true)) + multiset(Select(items, false)) == multiset(items)
  {
    if items != [] {
      SelectParts(items[1..]);
      assert items == [items[0]] + items[1..];
    }
  }

  lemma {:induction false} SelectAll(items: seq<TextField>, pseudo: bool)
    ensures forall x :: x in Select(items, pseudo) ==> Pseudo(x.0) == pseudo
  {
    if items != [] {
      SelectAll(items[1..], pseudo);
    }
  }

  function LinesFor(items: seq<TextField>): (ls: seq<Line>)
    ensures |ls| == |items|
  {
    seq(|items|, i requires 0 <= i < |items| => LineFor(items[i].0, items[i].1))
  }

  predicate AllText(items: seq<TextField>) {
    forall i :: 0 <= i < |items| ==> Utf8.Valid(items[i].0) && Utf8.Valid(items[i].1)
  }

  lemma LinesForValid(items: seq<TextField>)
    requires AllText(items)
    ensures AllValid(LinesFor(items))
  {
    hide LineFor;
    forall i | 0 <= i < |items| ensures LinesFor(items)[i].Valid() {
      LineForMeans(items[i].0, items[i].1);
    }
  }

  lemma {:induction false} SelectValid(items: seq<TextField>, pseudo: bool)
    requires AllText(items)
    ensures AllText(Select(items, pseudo))
  {
    hide Utf8.Valid;
    if items != [] {
      SelectValid(items[1..], pseudo);
    }
  }

  lemma PseudoFirstValid(items: seq<TextField>)
    requires AllText(items)
    ensures AllText(PseudoFirst(items)) && AllValid(LinesFor(PseudoFirst(items)))
  {
    hide Utf8.Valid, AllValid, Select, LinesFor;
    SelectValid(items, true);
    SelectValid(items, false);
    LinesForValid(PseudoFirst(items));
  }

  /** The field section written for a map iterated as `items`. */
  function PrintHeaders(items: seq<TextField>): seq<byte>
    requires AllText(items)
  {
    PseudoFirstValid(items);
    PrintSection(0, false, 0, LinesFor(PseudoFirst(items)))
  }

  /** The bytes the encoder starts with: a section that needs no dynamic table, and lines
      with no N bit and no Huffman flag. */
  lemma WrittenFirst(items: seq<TextField>, name: Str, value: Str)
    requires AllText(items) && Utf8.Valid(name) && Utf8.Valid(value)
    ensures |PrintHeaders(items)| >= 2 && PrintHeaders(items)[0] == 0x00 && PrintHeaders(items)[1] == 0x00
    ensures LineFor(name, value).Valid()
    ensures var b := LineFor(name, value).Print()[0];
            match LineFor(name, value)
            case Indexed(_) => 0xC0 <= b
            case NameRef(_, _, _, _) => 0x50 <= b < 0x60
            case Literal(_, _, _, _, _) => 0x20 <= b < 0x28
  {
    hide StaticTable.Find, StaticTable.FindName, StaticTable.Text, StaticTable.Get, Utf8.Valid, PrintLines, PseudoFirst, Pow2;
    Pow2Small();
    PseudoFirstValid(items);
    LineForMeans(name, value);
    PrefixOfZero();
    match LineFor(name, value)
    case Indexed(i) => PrintFirst(6, 3, i);
    case NameRef(_, i, _, _) => PrintFirst(4, 5, i);
    case Literal(_, _, _, _, _) => PrintFirst(3, 4, |name|);
  }

  lemma PrefixOfZero()
    ensures PrintPrefix(8, 0, 0) == [0x00] && PrintPrefix(7, 0, 0) == [0x00]
  {
    Pow2Small();
  }

  // ---- Round trip ----

  /** `items` lists the map, in any order. */
  predicate Enumerates(items: seq<TextField>, fields: Fields) {
    && (forall i :: 0 <= i < |items| ==> items[i].0 in fields && fields[items[i].0] == items[i].1)
    && (forall k :: k in fields ==> exists i :: 0 <= i < |items| && items[i].0 == k)
  }

  /** Inserting fields of a map yields the part of the map they name. */
  lemma {:induction false} InsertsPart(done: Fields, items: seq<TextField>, fields: Fields)
    requires AllText(items) && AllValid(LinesFor(items))
    requires forall i :: 0 <= i < |items| ==> items[i].0 in fields && fields[items[i].0] == items[i].1
    requires forall k :: k in done ==> k in fields && fields[k] == done[k]
    ensures var r := InsertAll(done, LinesFor(items));
            && (forall k :: k in r ==> k in fields && fields[k] == r[k])
            && (forall k :: k in r <==> k in done || exists i :: 0 <= i < |items| && items[i].0 == k)
    decreases |items|
  {
    hide LineFor, Utf8.Valid;
    if items != [] {
      LineForMeans(items[0].0, items[0].1);
      assert LinesFor(items)[1..] == LinesFor(items[1..]);
      InsertsPart(done[items[0].0 := items[0].1], items[1..], fields);
    }
  }

  lemma SortedEnumerates(items: seq<TextField>, fields: Fields)
    requires Enumerates(items, fields)
    ensures Enumerates(PseudoFirst(items), fields)
  {
    var s := PseudoFirst(items);
    PseudoFirstSorts(items);
    forall i | 0 <= i < |s| ensures s[i].0 in fields && fields[s[i].0] == s[i].1 {
      assert s[i] in multiset(s);
      assert s[i] in items;
    }
    forall k | k in fields ensures exists i :: 0 <= i < |s| && s[i].0 == k {
      var j :| 0 <= j < |items| && items[j].0 == k;
      assert items[j] in multiset(items);
      assert items[j] in s;
    }
  }

  /** For every map of valid strings and every order of iterating it, decoding the
      encoding gives back the map. */
  lemma HeadersRoundTrip(items: seq<TextField>, fields: Fields)
    requires AllText(items) && Enumerates(items, fields)
    ensures ParseSection(PrintHeaders(items)) == Ok(fields)
  {
    hide Utf8.Valid, LineFor, PseudoFirst, LinesFor, ParseSection, PrintSection;
    var sorted := PseudoFirst(items);
    PseudoFirstValid(items);
    SortedEnumerates(items, fields);
    SectionFold(0, false, 0, LinesFor(sorted));
    InsertsPart(map[], sorted, fields);
    assert InsertAll(map[], LinesFor(sorted)) == fields;
  }

  /** Whatever section a map was decoded from, the encoding of it decodes to it again. */
  lemma RecodedSection(s: seq<byte>, items: seq<TextField>)
    requires ParseSection(s).Ok? && Enumerates(items, ParseSection(s).value)
    ensures AllText(items) && ParseSection(PrintHeaders(items)) == ParseSection(s)
  {
    hide Utf8.Valid, ParseSection, PrintHeaders;
    SectionIsText(s);
    HeadersRoundTrip(items, ParseSection(s).value);
  }

  // ---- What is countable ----

  lemma ShortText(s: seq<byte>, size: nat)
    requires 2 <= size <= 9 && |s| < Huffman.PAYLOAD_LIMIT
    ensures TextCountable(s, size)
  {
    hide ParsePrefix, Hpack.Decodable;
    var head := ParsePrefix(s, size - 1);
    if head.Parsed? && head.value.1 <= |head.rest| {
      Hpack.DecodableIff(head.rest[..head.value.1]);
    }
  }

  lemma ShortLine(s: seq<byte>)
    requires s != [] && |s| < Huffman.PAYLOAD_LIMIT
    ensures LineCountable(s)
  {
    hide ParsePrefix, ParseText, TextCountable, StaticTable.Get;
    match FormOf(s[0])
    case NameForm =>
      if ParsePrefix(s, 4).Parsed? {
        ShortText(ParsePrefix(s, 4).rest, 8);
      }
    case LiteralForm =>
      ShortText(s, 4);
      if ParseText(s, 4).Parsed? {
        ShortText(ParseText(s, 4).rest, 8);
      }
    case _ =>
  }

  lemma {:induction false} ShortFields(s: seq<byte>)
    requires |s| < Huffman.PAYLOAD_LIMIT
    ensures FieldsCountable(s)
    decreases |s|
  {
    hide ParseLine, LineCountable;
    if s != [] {
      ShortLine(s);
      if ParseLine(s).Parsed? {
        ShortFields(ParseLine(s).rest);
      }
    }
  }

  /** A section below the limit is countable, whatever it holds. */
  lemma ShortSection(s: seq<byte>)
    requires |s| < Huffman.PAYLOAD_LIMIT
    ensures SectionCountable(s)
  {
    hide ParsePrefix, FieldsCountable;
    if ParsePrefix(s, 8).Parsed? && ParsePrefix(ParsePrefix(s, 8).rest, 7).Parsed? {
      ShortFields(ParsePrefix(ParsePrefix(s, 8).rest, 7).rest);
    }
  }

  /** The lines with no Huffman string, the only ones the encoder writes. */
  predicate Raw(l: Line) {
    match l
    case Indexed(_) => true
    case NameRef(_, _, _, h) => !h
    case Literal(_, _, nh, _, h) => !nh && !h
  }

  lemma RawText(size: nat, high: nat, s: seq<byte>, rest: seq<byte>)
    requires 2 <= size <= 9 && |s| < U64_LIMIT && 2 * high * Pow2(size - 1) < 256 && 2 * high < 256
    ensures TextCountable(PrintString(size, high, s, false) + rest, size)
  {
    hide PrintPrefix, ParsePrefix, Pow2, Hpack.Decodable;
    assert PrintString(size, high, s, false) + rest == PrintPrefix(size - 1, 2 * high, |s|) + (s + rest);
    ParsePrintPrefix(size - 1, 2 * high, |s|, s + rest);
  }

  lemma RawLine(l: Line, rest: seq<byte>)
    requires l.Valid() && Raw(l)
    ensures LineCountable(l.Print() + rest)
  {
    hide PrintPrefix, ParsePrefix, PrintString, ParseText, TextCountable, Pow2, Utf8.Valid, StaticTable.Get, FormOf;
    Pow2Small();
    match l
    case Indexed(i) => IndexedFirst(i);
    case NameRef(never, i, v, _) =>
      NameRefFirst(never, i);
      var tail := PrintString(8, 0, v, false) + rest;
      var flags := 5 + 2 * FlagBit(never);
      assert l.Print() + rest == PrintPrefix(4, flags, i) + tail;
      ParsePrintPrefix(4, flags, i, tail);
      RawText(8, 0, v, rest);
    case Literal(never, n, _, v, _) =>
      var high := 2 + FlagBit(never);
      var tail := PrintString(8, 0, v, false) + rest;
      LiteralFirst(never, n, false);
      assert l.Print() + rest == PrintString(4, high, n, false) + tail;
      RawText(4, high, n, tail);
      ParsePrintText(4, high, n, false, tail);
      RawText(8, 0, v, rest);
  }

  lemma {:induction false} RawLines(ls: seq<Line>)
    requires AllValid(ls) && forall i :: 0 <= i < |ls| ==> Raw(ls[i])
    ensures FieldsCountable(PrintLines(ls))
  {
    hide ParseLine, LineCountable, Line.Print, Line.Meaning, Line.Valid, Raw;
    if ls != [] {
      RawLine(ls[0], PrintLines(ls[1..]));
      ParsePrintLine(ls[0], PrintLines(ls[1..]));
      RawLines(ls[1..]);
    }
  }

  /** What the encoder writes is countable, whatever its length. */
  lemma EncodedSection(items: seq<TextField>)
    requires AllText(items)
    ensures SectionCountable(PrintHeaders(items))
  {
    hide PrintPrefix, ParsePrefix, FieldsCountable, PrintLines, PseudoFirst, Utf8.Valid, Pow2;
    Pow2Small();
    PseudoFirstValid(items);
    var ls := LinesFor(PseudoFirst(items));
    RawLines(ls);
    ParsePrintPrefix(8, 0, 0, PrintPrefix(7, 0, 0) + PrintLines(ls));
    ParsePrintPrefix(7, 0, 0, PrintLines(ls));
  }

  // ---- The map ----

  class Headers {
    var fields: Fields

    constructor ()
      ensures fields == map[]
    {
      fields := map[];
    }

    function Get(name: seq<byte>): Option<seq<byte>>
      reads this
    {
      if name in fields then Some(fields[name]) else None
    }

    method Set(name: seq<byte>, value: seq<byte>)
      modifies this
      ensures fields == old(fields)[name := value]
    {
      fields := fields[name := value];
    }

    /** Reads a whole field section from a buffer. */
    static method Decode(buf: Buf) returns (r: Result<Headers, DecodeError>)
      requires SectionCountable(buf.data)
      modifies buf
      ensures match ParseSection(old(buf.data))
              case Ok(m) => r.Ok? && fresh(r.value) && r.value.fields == m && buf.data == []
              case Err(e) => r == Err(e)
    {
      hide ParsePrefix, ParseLine, LineCountable;
      var _ :- DecodePrefix(buf, 8);
      var _ :- DecodePrefix(buf, 7);
      ghost var s := buf.data;
      var headers := new Headers();
      while buf.HasRemaining()
        invariant FieldsCountable(buf.data) && fresh(headers)
        invariant ParseFields(s, map[]) == ParseFields(buf.data, headers.fields)
        decreases |buf.data|
      {
        var field :- DecodeLine(buf);
        headers.Set(field.0, field.1);
      }
      r := Ok(headers);
    }

    /** Peeks at the first byte and reads the line it announces. */
    static method DecodeLine(buf: Buf) returns (r: Result<Field, DecodeError>)
      requires buf.HasRemaining() && LineCountable(buf.data)
      modifies buf
      ensures match ParseLine(old(buf.data))
              case Parsed(v, rest) => r == Ok(v) && buf.data == rest
              case Failed(e) => r == Err(e)
    {
      hide ParseIndex, ParseLiteral, ParseLiteralValue, ParsePrefix, ParseText, TextCountable, StaticTable.Get;
      var peek := buf.GetU8();
      buf.Unread(peek);
      assert buf.data == old(buf.data);
      match FormOf(peek) {
        case IndexForm => r := DecodeIndex(buf);
        case NameForm => r := DecodeLiteralValue(buf);
        case LiteralForm => r := DecodeLiteral(buf);
        case Refused(e) => r := Err(e);
      }
    }

    /** Writes the fields, iterated in the order of `items`. */
    method Encode(buf: BufMut, items: seq<TextField>)
      requires AllText(items) && Enumerates(items, fields)
      modifies buf
      ensures buf.data == old(buf.data) + PrintHeaders(items)
    {
      hide PrintPrefix, LineFor, PseudoFirst, PrintLines, Utf8.Valid;
      PseudoFirstValid(items);
      EncodePrefix(buf, 8, 0, 0);
      EncodePrefix(buf, 7, 0, 0);
      ghost var start := buf.data;
      var headers := PseudoFirst(items);
      ghost var ls := LinesFor(headers);
      var i := 0;
      assert ls[0..] == ls;
      while i < |headers|
        invariant i <= |headers|
        invariant buf.data + PrintLines(ls[i..]) == start + PrintLines(ls)
      {
        PrintLinesStep(ls, i);
        EncodeField(buf, headers[i].0, headers[i].1);
        i := i + 1;
      }
      PrintLinesNone();
      assert ls[i..] == [];
      assert start + PrintLines(ls)
          == old(buf.data) + (PrintPrefix(8, 0, 0) + (PrintPrefix(7, 0, 0) + PrintLines(ls)));
    }

    static method EncodeField(buf: BufMut, name: Str, value: Str)
      requires Utf8.Valid(name) && Utf8.Valid(value)
      modifies buf
      ensures LineFor(name, value).Valid() && buf.data == old(buf.data) + LineFor(name, value).Print()
    {
      hide PrintPrefix, StaticTable.Find, StaticTable.FindName, StaticTable.Text, StaticTable.Get, Utf8.Valid;
      LineForMeans(name, value);
      match StaticTable.Find(StaticTable.Text(name), StaticTable.Text(value)) {
        case Some(index) => EncodeIndex(buf, index);
        case None =>
          match StaticTable.FindName(StaticTable.Text(name)) {
            case Some(index) => EncodeLiteralValue(buf, index, value);
            case None => EncodeLiteral(buf, name, value);
          }
      }
    }

    static method EncodeIndex(buf: BufMut, index: nat)
      requires index < StaticTable.SIZE
      modifies buf
      ensures buf.data == old(buf.data) + Indexed(index).Print()
    {
      EncodePrefix(buf, 6, 3, index);
    }

    static method EncodeLiteralValue(buf: BufMut, name: nat, value: Str)
      requires name < StaticTable.SIZE && Utf8.Valid(value)
      modifies buf
      ensures buf.data == old(buf.data) + NameRef(false, name, value, false).Print()
    {
      hide PrintPrefix, Utf8.Valid;
      EncodePrefix(buf, 4, 5, name);
      EncodePrefix(buf, 7, 0, |value|);
      buf.PutSlice(value);
    }

    static method EncodeLiteral(buf: BufMut, name: Str, value: Str)
      requires Utf8.Valid(name) && Utf8.Valid(value)
      modifies buf
      ensures buf.data == old(buf.data) + Literal(false, name, false, value, false).Print()
    {
      hide PrintPrefix, Utf8.Valid;
      EncodePrefix(buf, 3, 4, |name|);
      buf.PutSlice(name);
      EncodePrefix(buf, 7, 0, |value|);
      buf.PutSlice(value);
    }
  }

  lemma PrintLinesStep(ls: seq<Line>, i: nat)
    requires AllValid(ls) && i < |ls|
    ensures PrintLines(ls[i..]) == ls[i].Print() + PrintLines(ls[i + 1..])
  {
    assert ls[i..][1..] == ls[i + 1..];
  }

  lemma PrintLinesNone()
    ensures PrintLines([]) == []
  {
  }
}
