/**
  HTTP/3 frames on a stream (section 7 of RFC 9114): writing one, and accepting the
  next one that is not grease.
 */
module Frames {
  import opened Words
  import opened Buffers
  import opened Coding
  import opened PrefixInt

  datatype H3Error =
    | SettingsError
    | CodingFault(coding: CodingError)
    | ProtocolError(reason: string)
    | ReadExactError
    | QpackDecodeError(qpack: DecodeError)
    | ConnectError

  const HEADERS: varint := 0x01
  const SETTINGS: varint := 0x04

  /** A payload has a length that a variable-length integer can hold. */
  datatype Frame = Frame(ftype: varint, payload: seq<byte>) {
    predicate Valid() {
      |payload| < 0x4000_0000_0000_0000
    }

    function Print(): (s: seq<byte>)
      requires Valid()
    {
      PrintVarint(ftype) + (PrintVarint(|payload|) + payload)
    }
  }

  predicate IsGrease(val: varint) {
    if val < 0x21 then false else (val - 0x21) % 0x1f == 0
  }

  /** The reserved types of section 7.2.8 of RFC 9114. */
  lemma GreaseExact(val: varint)
    ensures IsGrease(val) <==> exists n: nat :: val == 0x1f * n + 0x21
  {
    if IsGrease(val) {
      assert val == 0x1f * ((val - 0x21) / 0x1f) + 0x21;
    }
  }

  // ---- One frame, and the next that counts ----

  function ParseFrame(s: seq<byte>): (r: Parsed<Frame, H3Error>)
    ensures r.Parsed? ==> |r.rest| < |s| && r.value.Valid()
  {
    match ParseVarint(s)
    case Failed(_) => Failed(CodingFault(FinishedEarly))
    case Parsed(ftype, rest) =>
      match ParseVarint(rest)
      case Failed(_) => Failed(CodingFault(FinishedEarly))
      case Parsed(len, rest) =>
        if |rest| < len then Failed(ReadExactError)
        else Parsed(Frame(ftype, rest[..len]), rest[len..])
  }

  function AcceptFrame(s: seq<byte>): (r: Parsed<Frame, H3Error>)
    ensures r.Parsed? ==> |r.rest| < |s| && r.value.Valid() && !IsGrease(r.value.ftype)
    decreases |s|
  {
    var (f, rest) :- ParseFrame(s);
    if IsGrease(f.ftype) then AcceptFrame(rest) else Parsed(f, rest)
  }

  method Encode(buf: BufMut, ftype: varint, fdata: seq<byte>)
    requires Frame(ftype, fdata).Valid()
    modifies buf
    ensures buf.data == old(buf.data) + Frame(ftype, fdata).Print()
  {
    hide PrintVarint;
    WriteVarint(buf, ftype);
    WriteVarint(buf, |fdata|);
    buf.PutSlice(fdata);
    assert buf.data == old(buf.data) + (PrintVarint(ftype) + (PrintVarint(|fdata|) + fdata));
  }

  /** Skips grease; the bytes remaining bound the skipping. */
  method Accept(stream: RecvStream) returns (r: Result<(varint, nat, seq<byte>), H3Error>)
    modifies stream
    ensures match AcceptFrame(old(stream.data))
            case Parsed(f, rest) => r == Ok((f.ftype, |f.payload|, f.payload)) && stream.data == rest
            case Failed(e) => r == Err(e)
  {
    hide ParseVarint;
    while true
      invariant AcceptFrame(stream.data) == AcceptFrame(old(stream.data))
      decreases |stream.data|
    {
      ghost var s := stream.data;
      var ftype := ReadVarintAsync(stream);
      if ftype.Err? {
        return Err(CodingFault(ftype.error));
      }
      var len := ReadVarintAsync(stream);
      if len.Err? {
        return Err(CodingFault(len.error));
      }
      ghost var rest := stream.data;
      var data := new byte[len.value](_ => 0);
      var ok := stream.ReadExact(data, 0, len.value);
      if !ok {
        return Err(ReadExactError);
      }
      assert data[..] == rest[..len.value];
      if IsGrease(ftype.value) {
        continue;
      }
      return Ok((ftype.value, len.value, data[..]));
    }
  }

  // ---- Sequences of frames ----

  predicate AllValid(fs: seq<Frame>) {
    forall i :: 0 <= i < |fs| ==> fs[i].Valid()
  }

  function PrintFrames(fs: seq<Frame>): seq<byte>
    requires AllValid(fs)
  {
    if fs == [] then [] else fs[0].Print() + PrintFrames(fs[1..])
  }

  function NonGrease(fs: seq<Frame>): (r: seq<Frame>) {
    if fs == [] then []
    else if IsGrease(fs[0].ftype) then NonGrease(fs[1..])
    else [fs[0]] + NonGrease(fs[1..])
  }

  /** All that repeated accepting yields, and the error it ends with. */
  function AcceptAll(s: seq<byte>): (seq<Frame>, H3Error)
    decreases |s|
  {
    match AcceptFrame(s)
    case Failed(e) => ([], e)
    case Parsed(f, rest) => var r := AcceptAll(rest); ([f] + r.0, r.1)
  }

  lemma ParsePrintFrame(f: Frame, rest: seq<byte>)
    requires f.Valid()
    ensures ParseFrame(f.Print() + rest) == Parsed(f, rest)
  {
    hide ParseFrame, VarintIn;
    ParseOfFrameIn(f, LeastWidth(f.ftype), LeastWidth(|f.payload|), rest);
  }

  // ---- Frames in every form, whole and cut short ----

  /** A frame whose type and length have the widths `v` and `w`. */
  function FrameIn(f: Frame, v: nat, w: nat): seq<byte>
    requires f.Valid() && Fits(f.ftype, v) && Fits(|f.payload|, w)
  {
    VarintIn(f.ftype, v) + (VarintIn(|f.payload|, w) + f.payload)
  }

  lemma ParseOfFrameIn(f: Frame, v: nat, w: nat, rest: seq<byte>)
    requires f.Valid() && Fits(f.ftype, v) && Fits(|f.payload|, w)
    ensures ParseFrame(FrameIn(f, v, w) + rest) == Parsed(f, rest)
  {
    hide ParseVarint, VarintIn;
    var tail := VarintIn(|f.payload|, w) + (f.payload + rest);
    assert FrameIn(f, v, w) + rest == VarintIn(f.ftype, v) + tail;
    ParseOfForm(f.ftype, v, tail);
    ParseOfForm(|f.payload|, w, f.payload + rest);
    assert (f.payload + rest)[..|f.payload|] == f.payload && (f.payload + rest)[|f.payload|..] == rest;
  }

  /** Nothing but whole frames is read: the bytes taken are the type, the length and a
      payload of exactly that length. */
  lemma FormOfFrame(s: seq<byte>)
    requires ParseFrame(s).Parsed?
    ensures var f := ParseFrame(s).value;
            exists v, w :: Fits(f.ftype, v) && Fits(|f.payload|, w) && s == FrameIn(f, v, w) + ParseFrame(s).rest
  {
    hide ParseVarint, VarintIn;
    var f, rest := ParseFrame(s).value, ParseFrame(s).rest;
    var tail := ParseVarint(s).rest;
    FormOfParse(s);
    FormOfParse(tail);
    var v, w := WidthOf(s[0]), WidthOf(tail[0]);
    assert ParseVarint(tail).rest == f.payload + rest;
    assert Fits(f.ftype, v) && Fits(|f.payload|, w) && s == FrameIn(f, v, w) + rest;
  }

  /** A stream that ends within a frame yields no frame: if the type and the length are
      whole, the payload cannot be read; if not, one of them cannot. */
  lemma CutFrameRefused(f: Frame, v: nat, w: nat, n: nat)
    requires f.Valid() && Fits(f.ftype, v) && Fits(|f.payload|, w) && n < |FrameIn(f, v, w)|
    ensures AcceptFrame(FrameIn(f, v, w)[..n]) == Failed(if v + w <= n then ReadExactError else CodingFault(FinishedEarly))
  {
    hide ParseVarint, VarintIn;
    var first, second := VarintIn(f.ftype, v), VarintIn(|f.payload|, w);
    var s := FrameIn(f, v, w)[..n];
    if n < v {
      assert s == first[..n];
      CutVarintRefused(f.ftype, v, n);
    } else if n < v + w {
      assert s == first + second[..n - v];
      ParseOfForm(f.ftype, v, second[..n - v]);
      CutVarintRefused(|f.payload|, w, n - v);
    } else {
      var part := f.payload[..n - v - w];
      assert s == first + (second + part);
      ParseOfForm(f.ftype, v, second + part);
      ParseOfForm(|f.payload|, w, part);
    }
  }

  /** So does one that ends within a frame behind any grease. */
  lemma CutStreamRefused(grease: seq<Frame>, f: Frame, v: nat, w: nat, n: nat)
    requires AllValid(grease) && NonGrease(grease) == []
    requires f.Valid() && Fits(f.ftype, v) && Fits(|f.payload|, w) && n < |FrameIn(f, v, w)|
    ensures AcceptFrame(PrintFrames(grease) + FrameIn(f, v, w)[..n])
         == Failed(if v + w <= n then ReadExactError else CodingFault(FinishedEarly))
  {
    hide AcceptFrame, FrameIn, PrintFrames, NonGrease;
    AcceptPastGrease(grease, FrameIn(f, v, w)[..n]);
    CutFrameRefused(f, v, w, n);
  }

  /** Accepting stops right behind a frame that is no grease, whatever follows. */
  lemma AcceptPrinted(f: Frame, rest: seq<byte>)
    requires f.Valid()
    ensures AcceptFrame(f.Print() + rest) == if IsGrease(f.ftype) then AcceptFrame(rest) else Parsed(f, rest)
  {
    hide ParseFrame, Frame.Print;
    ParsePrintFrame(f, rest);
  }

  /** Grease in front of anything is skipped. */
  lemma {:induction false} AcceptPastGrease(fs: seq<Frame>, rest: seq<byte>)
    requires AllValid(fs) && NonGrease(fs) == []
    ensures AcceptFrame(PrintFrames(fs) + rest) == AcceptFrame(rest)
  {
    if fs == [] {
      assert PrintFrames(fs) + rest == rest;
    } else {
      assert PrintFrames(fs) + rest == fs[0].Print() + (PrintFrames(fs[1..]) + rest);
      AcceptPrinted(fs[0], PrintFrames(fs[1..]) + rest);
      AcceptPastGrease(fs[1..], rest);
    }
  }

  /** The next frame accepted is the first that is no grease, and the frames behind it
      are left unread. */
  lemma AcceptNext(fs: seq<Frame>, k: nat, rest: seq<byte>)
    requires AllValid(fs) && k < |fs| && NonGrease(fs[..k]) == [] && !IsGrease(fs[k].ftype)
    ensures AcceptFrame(PrintFrames(fs) + rest) == Parsed(fs[k], PrintFrames(fs[k + 1..]) + rest)
  {
    hide Frame.Print, AcceptFrame;
    var tail := PrintFrames(fs[k + 1..]) + rest;
    PrintFramesSplit(fs, k);
    assert fs[k..][1..] == fs[k + 1..];
    assert PrintFrames(fs) + rest == PrintFrames(fs[..k]) + (fs[k].Print() + tail);
    AcceptPastGrease(fs[..k], fs[k].Print() + tail);
    AcceptPrinted(fs[k], tail);
  }

  lemma {:induction false} PrintFramesSplit(fs: seq<Frame>, k: nat)
    requires AllValid(fs) && k <= |fs|
    ensures PrintFrames(fs) == PrintFrames(fs[..k]) + PrintFrames(fs[k..])
  {
    hide Frame.Print;
    if k > 0 {
      PrintFramesSplit(fs[1..], k - 1);
      assert fs[..k][1..] == fs[1..][..k - 1] && fs[1..][k - 1..] == fs[k..];
    }
  }

  /** Frames written back to back are accepted in order, without the grease, and
      what follows them is accepted as if it stood alone. */
  lemma {:induction false} AcceptSequence(fs: seq<Frame>, rest: seq<byte>)
    requires AllValid(fs)
    ensures AcceptAll(PrintFrames(fs) + rest) == (NonGrease(fs) + AcceptAll(rest).0, AcceptAll(rest).1)
  {
    hide Frame.Print, AcceptFrame;
    if fs == [] {
      assert PrintFrames(fs) + rest == rest;
      assert NonGrease(fs) + AcceptAll(rest).0 == AcceptAll(rest).0;
    } else {
      var tail := PrintFrames(fs[1..]) + rest;
      assert PrintFrames(fs) + rest == fs[0].Print() + tail;
      AcceptPrinted(fs[0], tail);
      AcceptSequence(fs[1..], rest);
      if IsGrease(fs[0].ftype) {
        SameAll(PrintFrames(fs) + rest, tail);
      } else {
        assert [fs[0]] + (NonGrease(fs[1..]) + AcceptAll(rest).0) == NonGrease(fs) + AcceptAll(rest).0;
      }
    }
  }

  lemma SameAll(s: seq<byte>, t: seq<byte>)
    requires AcceptFrame(s) == AcceptFrame(t)
    ensures AcceptAll(s) == AcceptAll(t)
  {
  }

  /** A stream of whole frames yields exactly those that are no grease, then ends early. */
  lemma AcceptStream(fs: seq<Frame>)
    requires AllValid(fs)
    ensures AcceptAll(PrintFrames(fs)) == (NonGrease(fs), CodingFault(FinishedEarly))
  {
    AcceptSequence(fs, []);
    assert PrintFrames(fs) + [] == PrintFrames(fs);
    assert NonGrease(fs) + [] == NonGrease(fs);
  }
}
