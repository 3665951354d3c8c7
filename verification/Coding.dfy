/**
  Variable-length integers (section 16 of RFC 9000): the two readers and the
  writer, and the four encodings they share.
 */
module Coding {
  import opened Words
  import opened Buffers

  // The values a VarInt can hold.
  type varint = x: int | 0 <= x < 0x4000_0000_0000_0000

  datatype CodingError =
    | FinishedEarly
    | VarIntMalformed(tag: byte)
    | VarIntBoundsExceeded
    | UnexpectedEnd

  function FromU64(x: u64): Result<varint, CodingError> {
    if x < 0x4000_0000_0000_0000 then Ok(x) else Err(VarIntBoundsExceeded)
  }

  // ---- Big-endian bytes ----

  function BigEndian(s: seq<byte>): nat {
    if s == [] then 0 else 256 * BigEndian(s[..|s| - 1]) + s[|s| - 1]
  }

  function BigEndianBytes(v: nat, n: nat): (s: seq<byte>)
    ensures |s| == n
  {
    if n == 0 then [] else BigEndianBytes(v / 256, n - 1) + [v % 256]
  }

  function Pow256(n: nat): (r: nat)
    ensures r > 0
  {
    if n == 0 then 1 else 256 * Pow256(n - 1)
  }

  lemma Pow256Small()
    ensures Pow256(0) == 1 && Pow256(1) == 0x100 && Pow256(2) == 0x1_0000 && Pow256(3) == 0x100_0000
    ensures Pow256(4) == 0x1_0000_0000 && Pow256(7) == 0x100_0000_0000_0000
    ensures Pow256(8) == 0x1_0000_0000_0000_0000
  {
    assert Pow256(3) == 0x100_0000;
    assert Pow256(6) == 256 * (256 * (256 * Pow256(3)));
  }

  lemma {:induction false} BigEndianOfBytes(v: nat, n: nat)
    requires v < Pow256(n)
    ensures BigEndian(BigEndianBytes(v, n)) == v
  {
    if n > 0 {
      BigEndianOfBytes(v / 256, n - 1);
      assert BigEndianBytes(v, n)[..n - 1] == BigEndianBytes(v / 256, n - 1);
    }
  }

  lemma {:induction false} BytesOfBigEndian(s: seq<byte>)
    ensures BigEndian(s) < Pow256(|s|)
    ensures BigEndianBytes(BigEndian(s), |s|) == s
  {
    if s != [] {
      BytesOfBigEndian(s[..|s| - 1]);
    }
  }

  lemma {:induction false} BigEndianFirst(s: seq<byte>)
    requires s != []
    ensures BigEndian(s) == s[0] * Pow256(|s| - 1) + BigEndian(s[1..])
  {
    if |s| > 1 {
      var t := s[..|s| - 1];
      BigEndianFirst(t);
      assert s[1..][..|s| - 2] == t[1..];
      Scale(s[0], Pow256(|s| - 2));
    }
  }

  lemma Scale(a: nat, p: nat)
    ensures 256 * (a * p) == a * (256 * p)
  {
  }

  // ---- The four forms ----

  predicate Fits(x: varint, width: nat) {
    || (width == 1 && x < 0x40)
    || (width == 2 && x < 0x4000)
    || (width == 4 && x < 0x4000_0000)
    || width == 8
  }

  /** `x` in one of the widths it fits, the two high bits of the first byte naming
      the width. */
  function VarintIn(x: varint, width: nat): (s: seq<byte>)
    requires Fits(x, width)
    ensures |s| == width
  {
    var tagged := match width
      case 1 => x
      case 2 => 0x4000 + x
      case 4 => 0x8000_0000 + x
      case _ => 0xC000_0000_0000_0000 + x;
    BigEndianBytes(tagged, width)
  }

  /** The least width that fits. */
  function LeastWidth(x: varint): (w: nat)
    ensures Fits(x, w)
    ensures forall v :: Fits(x, v) ==> w <= v
  {
    if x < 0x40 then 1 else if x < 0x4000 then 2 else if x < 0x4000_0000 then 4 else 8
  }

  function PrintVarint(x: varint): (s: seq<byte>)
    ensures s != []
  {
    VarintIn(x, LeastWidth(x))
  }

  /** The width that a first byte announces. */
  function WidthOf(first: byte): nat {
    match first / 64
    case 0 => 1
    case 1 => 2
    case 2 => 4
    case _ => 8
  }

  /** Reads one integer off the front: the first byte gives the width, and its low
      six bits and the bytes after it the value. */
  function ParseVarint(s: seq<byte>): (r: Parsed<varint, CodingError>)
    ensures r.Parsed? ==> |r.rest| < |s|
  {
    if s == [] || |s| < WidthOf(s[0]) then Failed(UnexpectedEnd)
    else
      var w := WidthOf(s[0]);
      UntaggedFits(s[0], s[1..w]);
      Parsed(BigEndian([s[0] % 64] + s[1..w]), s[w..])
  }

  lemma UntaggedFits(first: byte, tail: seq<byte>)
    requires |tail| + 1 == WidthOf(first)
    ensures BigEndian([first % 64] + tail) < 0x4000_0000_0000_0000
    ensures BigEndian([first] + tail) == (first / 64) * (64 * Pow256(|tail|)) + BigEndian([first % 64] + tail)
    ensures BigEndian([first % 64] + tail) < 64 * Pow256(|tail|)
  {
    hide BigEndian, BigEndianBytes, Pow256;
    BigEndianFirst([first % 64] + tail);
    BigEndianFirst([first] + tail);
    assert ([first % 64] + tail)[1..] == tail && ([first] + tail)[1..] == tail;
    BytesOfBigEndian(tail);
    Pow256Small();
    match |tail| {
      case 0 => assert Pow256(|tail|) == 1;
      case 1 => assert Pow256(|tail|) == 0x100;
      case 3 => assert Pow256(|tail|) == 0x100_0000;
      case _ => assert Pow256(|tail|) == 0x100_0000_0000_0000;
    }
  }

  /** Reading a value back from any width it fits leaves exactly what follows. */
  lemma ParseOfForm(x: varint, width: nat, rest: seq<byte>)
    requires Fits(x, width)
    ensures ParseVarint(VarintIn(x, width) + rest) == Parsed(x, rest)
  {
    hide BigEndian, BigEndianBytes, Pow256;
    Pow256Small();
    var s := VarintIn(x, width);
    var tagged := match width case 1 => x case 2 => 0x4000 + x case 4 => 0x8000_0000 + x case _ => 0xC000_0000_0000_0000 + x;
    BigEndianOfBytes(tagged, width);
    BigEndianFirst(s);
    BytesOfBigEndian(s[1..]);
    assert WidthOf(s[0]) == width;
    assert s == [s[0]] + s[1..];
    UntaggedFits(s[0], s[1..]);
    assert (s + rest)[1..width] == s[1..] && (s + rest)[width..] == rest;
  }

  /** Nothing but the four forms is read: the bytes taken are the value in the
      width their first byte announces. */
  lemma FormOfParse(s: seq<byte>)
    requires ParseVarint(s).Parsed?
    ensures var r := ParseVarint(s);
            Fits(r.value, WidthOf(s[0])) && s == VarintIn(r.value, WidthOf(s[0])) + r.rest
  {
    hide BigEndian, BigEndianBytes, Pow256;
    Pow256Small();
    var w := WidthOf(s[0]);
    UntaggedFits(s[0], s[1..w]);
    assert [s[0]] + s[1..w] == s[..w];
    BytesOfBigEndian(s[..w]);
    assert s == s[..w] + s[w..];
  }

  lemma ParsePrintVarint(x: varint, rest: seq<byte>)
    ensures ParseVarint(PrintVarint(x) + rest) == Parsed(x, rest)
  {
    ParseOfForm(x, LeastWidth(x), rest);
  }

  /** More bytes change no integer that is there. */
  lemma VarintStable(s: seq<byte>, more: seq<byte>)
    requires ParseVarint(s).Parsed?
    ensures ParseVarint(s + more) == Parsed(ParseVarint(s).value, ParseVarint(s).rest + more)
  {
    hide BigEndian;
    var w := WidthOf(s[0]);
    assert (s + more)[1..w] == s[1..w] && (s + more)[w..] == s[w..] + more;
  }

  /** An integer cut short is none. */
  lemma CutVarintRefused(x: varint, width: nat, n: nat)
    requires Fits(x, width) && n < width
    ensures ParseVarint(VarintIn(x, width)[..n]) == Failed(UnexpectedEnd)
  {
    hide VarintIn;
    var s := VarintIn(x, width);
    ParseOfForm(x, width, []);
    assert s[..n] + s[n..] == s == s + [];
    if ParseVarint(s[..n]).Parsed? {
      VarintStable(s[..n], s[n..]);
    }
  }

  // ---- The readers and the writer ----

  lemma ParseShort(s: seq<byte>)
    ensures s == [] || |s| < WidthOf(s[0]) ==> ParseVarint(s) == Failed(UnexpectedEnd)
  {
  }

  lemma ParseWhole(s: seq<byte>, word: seq<byte>)
    requires s != [] && |word| == WidthOf(s[0]) <= |s| && word == [s[0] % 64] + s[1..|word|]
    ensures BigEndian(word) < 0x4000_0000_0000_0000
    ensures ParseVarint(s) == Parsed(BigEndian(word), s[|word|..])
  {
    hide BigEndian;
    UntaggedFits(s[0], s[1..|word|]);
  }

  lemma TailSlices(s: seq<byte>, width: nat)
    requires 1 <= width <= |s|
    ensures s[1..][..width - 1] == s[1..width] && s[1..][width - 1..] == s[width..]
  {
  }

  /** Fills the word behind its first byte. */
  method CopyRest(buf: Buf, word: array<byte>, width: nat, ghost s: seq<byte>)
    requires 1 <= width <= word.Length && width <= |s| && buf.data == s[1..]
    modifies buf, word
    ensures word[..width] == [old(word[0])] + s[1..width] && buf.data == s[width..]
  {
    TailSlices(s, width);
    buf.CopyToSlice(word, 1, width);
    assert word[..width] == word[..][..width];
  }

  /** Reads from a buffer, which must not be empty. */
  method ReadVarint(buf: Buf) returns (r: Result<varint, CodingError>)
    requires buf.HasRemaining()
    modifies buf
    ensures match ParseVarint(old(buf.data))
            case Parsed(x, rest) => r == Ok(x) && buf.data == rest
            case Failed(_) => r == Err(UnexpectedEnd) && buf.data == old(buf.data)[1..]
  {
    hide BigEndian, ParseVarint;
    ParseShort(buf.data);
    var word := new byte[8](_ => 0);
    ghost var s := buf.data;
    word[0] := buf.GetU8();
    var tag := word[0] / 64;
    word[0] := word[0] % 64;
    var width := 1;
    if tag == 0 {
      assert word[..1] == [s[0] % 64] + s[1..1];
    } else if tag == 1 {
      if |buf.data| < 1 {
        return Err(UnexpectedEnd);
      }
      width := 2;
      CopyRest(buf, word, 2, s);
    } else if tag == 2 {
      if |buf.data| < 3 {
        return Err(UnexpectedEnd);
      }
      width := 4;
      CopyRest(buf, word, 4, s);
    } else if tag == 3 {
      if |buf.data| < 7 {
        return Err(UnexpectedEnd);
      }
      width := 8;
      CopyRest(buf, word, 8, s);
    } else {
      return Err(VarIntMalformed(tag));
    }
    ParseWhole(s, word[..width]);
    r := FromU64(BigEndian(word[..width]));
  }

  /** The same from a stream, which may finish first. */
  method ReadRest(stream: RecvStream, word: array<byte>, width: nat, ghost s: seq<byte>) returns (ok: bool)
    requires 1 <= width <= word.Length && s != [] && stream.data == s[1..]
    modifies stream, word
    ensures ok == (width <= |s|)
    ensures ok ==> word[..width] == [old(word[0])] + s[1..width] && stream.data == s[width..]
    ensures !ok ==> stream.data == []
  {
    ok := stream.ReadExact(word, 1, width);
    if ok {
      TailSlices(s, width);
      assert word[..width] == word[..][..width];
    }
  }

  /** Reads from a receive stream, asking for the rest only once the first byte
      has told how much there is. */
  method ReadVarintAsync(stream: RecvStream) returns (r: Result<varint, CodingError>)
    modifies stream
    ensures match ParseVarint(old(stream.data))
            case Parsed(x, rest) => r == Ok(x) && stream.data == rest
            case Failed(_) => r == Err(FinishedEarly) && stream.data == []
  {
    hide BigEndian, ParseVarint;
    ParseShort(stream.data);
    var word := new byte[8](_ => 0);
    ghost var s := stream.data;
    var ok := stream.ReadExact(word, 0, 1);
    if !ok {
      return Err(FinishedEarly);
    }
    assert word[..][0] == s[0];
    var tag := word[0] / 64;
    word[0] := word[0] % 64;
    var width := 1;
    if tag == 0 {
      assert word[..1] == [s[0] % 64] + s[1..1];
    } else if tag == 1 {
      width := 2;
      ok := ReadRest(stream, word, 2, s);
    } else if tag == 2 {
      width := 4;
      ok := ReadRest(stream, word, 4, s);
    } else if tag == 3 {
      width := 8;
      ok := ReadRest(stream, word, 8, s);
    } else {
      return Err(VarIntMalformed(tag));
    }
    if !ok {
      return Err(FinishedEarly);
    }
    ParseWhole(s, word[..width]);
    r := FromU64(BigEndian(word[..width]));
  }

  /** Appends the shortest form. */
  method WriteVarint(buf: BufMut, x: varint)
    modifies buf
    ensures buf.data == old(buf.data) + PrintVarint(x)
  {
    if x < 0x40 {
      buf.PutU8(x);
      assert BigEndianBytes(x, 1) == [x];
    } else if x < 0x4000 {
      buf.PutSlice(BigEndianBytes(0x4000 + x, 2));
    } else if x < 0x4000_0000 {
      buf.PutSlice(BigEndianBytes(0x8000_0000 + x, 4));
    } else {
      buf.PutSlice(BigEndianBytes(0xC000_0000_0000_0000 + x, 8));
    }
  }
}
