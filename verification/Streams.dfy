/**
  The header of a WebTransport stream, a type and a session id, and the suspended
  decoder that reads it as bytes arrive.
 */
module Streams {
  import opened Words
  import opened Buffers
  import opened Coding

  datatype Header =
    | Whole(stype: varint, rest: seq<byte>)
    | Mismatch(rest: seq<byte>)
    | Short

  /** The header at the front of all the bytes of a stream: the session id is
      compared before anyone looks at the type. */
  function ParseHeader(id: varint, s: seq<byte>): Header {
    match ParseVarint(s)
    case Failed(_) => Short
    case Parsed(stype, rest) =>
      match ParseVarint(rest)
      case Failed(_) => Short
      case Parsed(sid, rest) => if sid != id then Mismatch(rest) else Whole(stype, rest)
  }

  /** The bytes `s` start with a type and a session id, each in some width. */
  ghost predicate Spelled(s: seq<byte>, stype: varint, sid: varint, rest: seq<byte>) {
    exists v, w :: Fits(stype, v) && Fits(sid, w) && s == VarintIn(stype, v) + (VarintIn(sid, w) + rest)
  }

  /** A header is read exactly where one is spelled, and the session exactly decides
      whether it is taken; bytes that spell none are too few. */
  lemma HeaderExact(id: varint, s: seq<byte>)
    ensures forall t, rest :: ParseHeader(id, s) == Whole(t, rest) <==> Spelled(s, t, id, rest)
    ensures forall rest :: ParseHeader(id, s) == Mismatch(rest) <==> exists t, sid :: sid != id && Spelled(s, t, sid, rest)
    ensures ParseHeader(id, s) == Short <==> forall t, sid, rest :: !Spelled(s, t, sid, rest)
  {
    hide ParseHeader, Spelled;
    forall t, sid, rest | Spelled(s, t, sid, rest)
      ensures ParseHeader(id, s) == if sid == id then Whole(t, rest) else Mismatch(rest)
    {
      SpelledHeader(id, s, t, sid, rest);
    }
    if ParseHeader(id, s) != Short {
      var t, sid := HeaderSpelled(id, s);
    }
  }

  lemma SpelledHeader(id: varint, s: seq<byte>, t: varint, sid: varint, rest: seq<byte>)
    requires Spelled(s, t, sid, rest)
    ensures ParseHeader(id, s) == if sid == id then Whole(t, rest) else Mismatch(rest)
  {
    hide ParseVarint, VarintIn;
    var v, w :| Fits(t, v) && Fits(sid, w) && s == VarintIn(t, v) + (VarintIn(sid, w) + rest);
    ParseOfForm(t, v, VarintIn(sid, w) + rest);
    ParseOfForm(sid, w, rest);
  }

  lemma HeaderSpelled(id: varint, s: seq<byte>) returns (t: varint, sid: varint)
    requires ParseHeader(id, s) != Short
    ensures Spelled(s, t, sid, ParseHeader(id, s).rest)
    ensures sid == id <==> ParseHeader(id, s).Whole?
    ensures sid == id ==> ParseHeader(id, s).stype == t
  {
    hide ParseVarint, VarintIn;
    var first := ParseVarint(s);
    var second := ParseVarint(first.rest);
    FormOfParse(s);
    FormOfParse(first.rest);
    t, sid := first.value, second.value;
    var v, w := WidthOf(s[0]), WidthOf(first.rest[0]);
    assert Fits(t, v) && Fits(sid, w) && s == VarintIn(t, v) + (VarintIn(sid, w) + second.rest);
  }

  datatype HeaderError = ReadFailed(error: CodingError) | SessionMismatch

  /** `decode_uni` and `decode_bi` on a stream whose bytes are all there. */
  method DecodeHeader(id: varint, stream: RecvStream) returns (r: Result<varint, HeaderError>)
    modifies stream
    ensures match ParseHeader(id, old(stream.data))
            case Whole(stype, rest) => r == Ok(stype) && stream.data == rest
            case Mismatch(rest) => r == Err(SessionMismatch) && stream.data == rest
            case Short => r == Err(ReadFailed(FinishedEarly)) && stream.data == []
  {
    hide ParseVarint;
    var stype := ReadVarintAsync(stream);
    if stype.Err? {
      return Err(ReadFailed(stype.error));
    }
    var sid := ReadVarintAsync(stream);
    if sid.Err? {
      return Err(ReadFailed(sid.error));
    }
    if sid.value != id {
      return Err(SessionMismatch);
    }
    r := Ok(stype.value);
  }

  /** What opening a stream writes: its type, then the session id. */
  method WriteHeader(stream: BufMut, stype: varint, id: varint)
    modifies stream
    ensures stream.data == old(stream.data) + (PrintVarint(stype) + PrintVarint(id))
  {
    hide PrintVarint;
    WriteVarint(stream, stype);
    WriteVarint(stream, id);
  }

  // ---- The suspended decoder ----

  /** Between polls the decoder holds the type, once it is read, and the bytes of
      the integer it is filling.  At the end it holds the type of a stream of this
      session, or why there is none. */
  datatype Decoder =
    | Reading(first: Option<varint>, word: seq<byte>)
    | Decoded(stype: varint)
    | WrongSession
    | EndedEarly
  {
    /** A whole integer is never left in the word. */
    predicate Valid() {
      Reading? && word != [] ==> |word| < WidthOf(word[0])
    }

    /** What the pending `read_exact` still wants: the first byte, or the rest. */
    function Wanted(): (n: nat)
      requires Valid() && Reading?
      ensures n > 0
    {
      if word == [] then 1 else WidthOf(word[0]) - |word|
    }
  }

  const START := Reading(None, [])

  function IntegerRead(id: varint, first: Option<varint>, value: varint): Decoder {
    match first
    case None => Reading(Some(value), [])
    case Some(t) => if value != id then WrongSession else Decoded(t)
  }

  /** One poll: `read_exact` takes what it wants of the bytes at hand, again and
      again, until it has too few of them.  Returned with the decoder are the bytes
      it left in the stream. */
  function PollDecoder(id: varint, d: Decoder, s: seq<byte>, ended: bool): (r: (Decoder, seq<byte>))
    requires d.Valid()
    ensures r.0.Valid() && |r.1| <= |s|
    decreases |s|
  {
    if !d.Reading? then (d, s)
    else
      var n := d.Wanted();
      if |s| < n then (if ended then EndedEarly else Reading(d.first, d.word + s), [])
      else
        var word := d.word + s[..n];
        if |word| < WidthOf(word[0]) then PollDecoder(id, Reading(d.first, word), s[n..], ended)
        else PollDecoder(id, IntegerRead(id, d.first, WholeWord(word)), s[n..], ended)
  }

  /** The value of a word filled to its width. */
  function WholeWord(word: seq<byte>): varint
    requires word != [] && |word| == WidthOf(word[0])
  {
    ParseVarint(word).value
  }

  /** Polling after each arrival, the bytes left by one poll waiting for the next. */
  function PollAfterEach(id: varint, d: Decoder, left: seq<byte>, chunks: seq<seq<byte>>): (r: (Decoder, seq<byte>))
    requires d.Valid()
    ensures r.0.Valid()
    decreases |chunks|
  {
    if chunks == [] then (d, left)
    else
      var r := PollDecoder(id, d, left + chunks[0], false);
      PollAfterEach(id, r.0, r.1, chunks[1..])
  }

  function Concat(chunks: seq<seq<byte>>): seq<byte> {
    if chunks == [] then [] else chunks[0] + Concat(chunks[1..])
  }

  // ---- Chunking does not matter ----

  /** Polling now and again after more bytes is polling once with all of them. */
  lemma {:induction false} PollTwice(id: varint, d: Decoder, s: seq<byte>, t: seq<byte>, ended: bool)
    requires d.Valid()
    ensures var r := PollDecoder(id, d, s, false);
            PollDecoder(id, r.0, r.1 + t, ended) == PollDecoder(id, d, s + t, ended)
    decreases |s|
  {
    hide ParseVarint;
    if d.Reading? {
      var n := d.Wanted();
      if n <= |s| {
        assert (s + t)[..n] == s[..n] && (s + t)[n..] == s[n..] + t;
        var word := d.word + s[..n];
        if |word| < WidthOf(word[0]) {
          PollTwice(id, Reading(d.first, word), s[n..], t, ended);
        } else {
          PollTwice(id, IntegerRead(id, d.first, WholeWord(word)), s[n..], t, ended);
        }
      } else {
        PollShort(id, d, s, t, ended);
        assert [] + t == t;
      }
    }
  }

  lemma PollShort(id: varint, d: Decoder, s: seq<byte>, t: seq<byte>, ended: bool)
    requires d.Valid() && d.Reading? && |s| < d.Wanted()
    ensures PollDecoder(id, Reading(d.first, d.word + s), t, ended) == PollDecoder(id, d, s + t, ended)
  {
    hide ParseVarint;
    var w := Reading(d.first, d.word + s);
    if s == [] {
      assert d.word + s == d.word && s + t == t;
    } else {
      var n := d.Wanted();
      assert d.word != [] && w.Wanted() == n - |s|;
      if n <= |s + t| {
        assert (d.word + s) + t[..n - |s|] == d.word + (s + t)[..n];
        assert (s + t)[n..] == t[n - |s|..];
      } else {
        assert d.word + s + t == d.word + (s + t);
      }
    }
  }

  /** However the bytes of a stream are split into arrivals, the polls leave the same
      decoder and the same unread bytes as one poll over all of them, be it before
      the stream ends or after. */
  lemma {:induction false} ChunksAsOne(id: varint, d: Decoder, left: seq<byte>, chunks: seq<seq<byte>>, ended: bool)
    requires d.Valid()
    ensures var r := PollAfterEach(id, d, left, chunks);
            PollDecoder(id, r.0, r.1, ended) == PollDecoder(id, d, left + Concat(chunks), ended)
    decreases |chunks|
  {
    hide PollDecoder;
    if chunks == [] {
      assert left + Concat(chunks) == left;
    } else {
      var r := PollDecoder(id, d, left + chunks[0], false);
      var more := Concat(chunks[1..]);
      ChunksAsOne(id, r.0, r.1, chunks[1..], ended);
      PollTwice(id, d, left + chunks[0], more, ended);
      assert left + chunks[0] + more == left + Concat(chunks);
    }
  }

  // ---- The decoder reads the header ----

  /** One integer: the decoder takes it whole, or waits for the rest of it. */
  lemma {:induction false} PollInteger(id: varint, first: Option<varint>, s: seq<byte>, ended: bool)
    ensures match ParseVarint(s)
            case Parsed(v, rest) =>
              PollDecoder(id, Reading(first, []), s, ended) == PollDecoder(id, IntegerRead(id, first, v), rest, ended)
            case Failed(_) =>
              PollDecoder(id, Reading(first, []), s, ended) == (if ended then EndedEarly else Reading(first, s), [])
  {
    hide BigEndian;
    if s != [] {
      var w := WidthOf(s[0]);
      assert [] + s[..1] == [s[0]];
      if w <= |s| {
        assert [s[0]] + s[1..][..w - 1] == s[..w] && s[1..][w - 1..] == s[w..];
        assert s[..w][1..w] == s[1..w];
        if w == 1 {
          assert s[..1] == [s[0]];
        }
      } else {
        assert [s[0]] + s[1..] == s;
      }
    } else {
      assert [] + s == s;
    }
  }

  /** On all the bytes of a stream the decoder finishes exactly as one read of the
      header does, and leaves exactly what that read leaves. */
  lemma {:induction false} DecoderReadsHeader(id: varint, s: seq<byte>, ended: bool)
    ensures var (d, left) := PollDecoder(id, START, s, ended);
            match ParseHeader(id, s)
            case Whole(t, rest) => d == Decoded(t) && left == rest
            case Mismatch(rest) => d == WrongSession && left == rest
            case Short => left == [] && if ended then d == EndedEarly else d.Reading?
  {
    hide ParseVarint;
    PollInteger(id, None, s, ended);
    match ParseVarint(s)
    case Parsed(stype, rest) => PollInteger(id, Some(stype), rest, ended);
    case Failed(_) =>
  }

  /** Polling after each arrival, and once more when the stream has ended, if it has. */
  function PollChunks(id: varint, chunks: seq<seq<byte>>, ended: bool): (Decoder, seq<byte>) {
    var r := PollAfterEach(id, START, [], chunks);
    if ended then PollDecoder(id, r.0, r.1, true) else r
  }

  /** For every split of the bytes into arrivals, polling after each of them, and after
      the end of the stream, finds the header that one read of all the bytes finds. */
  lemma ChunkingIndependence(id: varint, chunks: seq<seq<byte>>, ended: bool)
    ensures var (d, left) := PollChunks(id, chunks, ended);
            match ParseHeader(id, Concat(chunks))
            case Whole(t, rest) => d == Decoded(t) && left == rest
            case Mismatch(rest) => d == WrongSession && left == rest
            case Short => left == [] && if ended then d == EndedEarly else d.Reading?
  {
    assert PollDecoder(id, START, [], false) == (START, []);
    hide PollDecoder, ParseHeader;
    var s := Concat(chunks);
    ChunksAsOne(id, START, [], chunks, ended);
    assert [] + s == s;
    DecoderReadsHeader(id, s, ended);
    PolledIsStable(id, START, [], chunks);
  }

  /** A decoder that was just polled has nothing more to take. */
  lemma {:induction false} PolledIsStable(id: varint, d: Decoder, left: seq<byte>, chunks: seq<seq<byte>>)
    requires d.Valid() && PollDecoder(id, d, left, false) == (d, left)
    ensures var r := PollAfterEach(id, d, left, chunks); PollDecoder(id, r.0, r.1, false) == r
    decreases |chunks|
  {
    hide PollDecoder;
    if chunks != [] {
      var r := PollDecoder(id, d, left + chunks[0], false);
      PollTwice(id, d, left + chunks[0], [], false);
      assert r.1 + [] == r.1 && left + chunks[0] + [] == left + chunks[0];
      PolledIsStable(id, r.0, r.1, chunks[1..]);
    }
  }

  /** The header that opening a stream writes, whatever payload follows and however
      all of it arrives, is decoded to the type, with the payload left unread. */
  lemma OpenedStreamDecodes(id: varint, stype: varint, payload: seq<byte>, chunks: seq<seq<byte>>, ended: bool)
    requires Concat(chunks) == PrintVarint(stype) + (PrintVarint(id) + payload)
    ensures PollChunks(id, chunks, ended) == (Decoded(stype), payload)
  {
    hide PollChunks, PollDecoder, ParseVarint, PrintVarint;
    ParsePrintVarint(stype, PrintVarint(id) + payload);
    ParsePrintVarint(id, payload);
    ChunkingIndependence(id, chunks, ended);
  }

  /** More bytes change no header that is already there. */
  lemma HeaderStable(id: varint, s: seq<byte>, more: seq<byte>)
    ensures match ParseHeader(id, s)
            case Whole(t, rest) => ParseHeader(id, s + more) == Whole(t, rest + more)
            case Mismatch(rest) => ParseHeader(id, s + more) == Mismatch(rest + more)
            case Short => true
  {
    hide ParseVarint;
    if ParseVarint(s).Parsed? {
      VarintStable(s, more);
      if ParseVarint(ParseVarint(s).rest).Parsed? {
        VarintStable(ParseVarint(s).rest, more);
      }
    }
  }
}
