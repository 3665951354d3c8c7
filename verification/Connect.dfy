/**
  The extended CONNECT request: the bytes it is made of, the reply, and the checks
  each side makes on what it reads.
 */
module Connect {
  import opened Words
  import opened Buffers
  import opened Frames
  import opened Qpack
  import Coding
  import Lines
  import StaticTable

  const METHOD: Lines.Str := StaticTable.Bytes(":method")
  const CONNECT_VALUE: Lines.Str := StaticTable.Bytes("CONNECT")
  const PROTOCOL: Lines.Str := StaticTable.Bytes(":protocol")
  const WEBTRANSPORT: Lines.Str := StaticTable.Bytes("webtransport")
  const STATUS: Lines.Str := StaticTable.Bytes(":status")
  const STATUS_OK: Lines.Str := StaticTable.Bytes("200")
  const DRAFT: Lines.Str := StaticTable.Bytes("sec-webtransport-http3-draft")
  const DRAFT02: Lines.Str := StaticTable.Bytes("draft02")

  predicate Has(fields: Fields, name: seq<byte>, value: seq<byte>) {
    name in fields && fields[name] == value
  }

  // ---- What each side reads ----

  /** The next frame that is no grease, which must hold headers. */
  function AcceptHeaders(s: seq<byte>, reason: string): Result<Fields, H3Error> {
    match AcceptFrame(s)
    case Failed(e) => Err(e)
    case Parsed(f, _) =>
      if f.ftype != HEADERS then Err(ProtocolError(reason))
      else
        match Lines.ParseSection(f.payload)
        case Ok(m) => Ok(m)
        case Err(e) => Err(QpackDecodeError(e))
  }

  function AcceptRequest(s: seq<byte>): Result<Fields, H3Error> {
    var m :- AcceptHeaders(s, "Incorrect Ftype");
    if Has(m, METHOD, CONNECT_VALUE) then Ok(m) else Err(ProtocolError(":method invalid in H3 Header"))
  }

  /** A session is a request for WebTransport. */
  function AcceptSession(s: seq<byte>): Result<Fields, H3Error> {
    var m :- AcceptRequest(s);
    if Has(m, PROTOCOL, WEBTRANSPORT) then Ok(m) else Err(ProtocolError(":protocol invalid in H3 Header"))
  }

  function AcceptReply(s: seq<byte>): Result<Fields, H3Error> {
    var m :- AcceptHeaders(s, "Received Unknown Header on Connect Open");
    if !Has(m, STATUS, STATUS_OK) then Err(ConnectError)
    else if !Has(m, DRAFT, DRAFT02) then Err(ConnectError)
    else Ok(m)
  }

  /** The headers that are read have bit counts of 32 bits.  However much else comes on
      the stream does not matter. */
  ghost predicate HeadersCountable(s: seq<byte>) {
    var f := AcceptFrame(s);
    f.Parsed? && f.value.ftype == HEADERS ==> SectionCountable(f.value.payload)
  }

  // ---- What each side writes ----

  predicate Writable(items: seq<TextField>) {
    AllText(items) && Frame(HEADERS, PrintHeaders(items)).Valid()
  }

  /** A headers frame of the fields, iterated as `items`. */
  function PrintMessage(items: seq<TextField>): seq<byte>
    requires Writable(items)
  {
    Frame(HEADERS, PrintHeaders(items)).Print()
  }

  const OK_FIELDS: Fields := map[STATUS := STATUS_OK, DRAFT := DRAFT02]

  // ---- Round trips ----

  /** A map of headers gives a name this value. */
  predicate Says(fields: Fields, name: string, value: string) {
    StaticTable.Bytes(name) in fields && fields[StaticTable.Bytes(name)] == StaticTable.Bytes(value)
  }

  /** Headers written behind any run of grease are read back, whatever follows. */
  lemma HeadersCross(items: seq<TextField>, fields: Fields, grease: seq<Frame>, rest: seq<byte>, reason: string)
    requires Writable(items) && Enumerates(items, fields)
    requires AllValid(grease) && NonGrease(grease) == []
    ensures AcceptHeaders(PrintFrames(grease) + (PrintMessage(items) + rest), reason) == Ok(fields)
  {
    hide Frame.Print, AcceptFrame, PrintHeaders, Lines.ParseSection, PrintFrames, NonGrease, Enumerates, AllText;
    var f := Frame(HEADERS, PrintHeaders(items));
    AcceptPastGrease(grease, f.Print() + rest);
    AcceptPrinted(f, rest);
    HeadersRoundTrip(items, fields);
  }

  /** And the side that reads them counts no bits beyond 32. */
  lemma WrittenCountable(items: seq<TextField>, grease: seq<Frame>, rest: seq<byte>)
    requires Writable(items)
    requires AllValid(grease) && NonGrease(grease) == []
    ensures HeadersCountable(PrintFrames(grease) + (PrintMessage(items) + rest))
  {
    hide Frame.Print, AcceptFrame, PrintHeaders, SectionCountable, PrintFrames, NonGrease, AllText;
    var f := Frame(HEADERS, PrintHeaders(items));
    AcceptPastGrease(grease, f.Print() + rest);
    AcceptPrinted(f, rest);
    EncodedSection(items);
  }

  /** The peer accepts exactly the requests whose method is CONNECT, and sees their fields. */
  lemma RequestCrosses(items: seq<TextField>, fields: Fields, grease: seq<Frame>, rest: seq<byte>)
    requires Writable(items) && Enumerates(items, fields)
    requires AllValid(grease) && NonGrease(grease) == []
    ensures AcceptRequest(PrintFrames(grease) + (PrintMessage(items) + rest))
         == if Says(fields, ":method", "CONNECT") then Ok(fields)
            else Err(ProtocolError(":method invalid in H3 Header"))
  {
    hide AcceptHeaders, PrintMessage, PrintFrames, NonGrease, Enumerates, Writable;
    HeadersCross(items, fields, grease, rest, "Incorrect Ftype");
  }

  /** The side that opened accepts exactly the replies whose status is 200 and whose
      draft is the second; any other, a refusal among them, is an error. */
  lemma RepliesCross(items: seq<TextField>, fields: Fields, grease: seq<Frame>, rest: seq<byte>)
    requires Writable(items) && Enumerates(items, fields)
    requires AllValid(grease) && NonGrease(grease) == []
    ensures AcceptReply(PrintFrames(grease) + (PrintMessage(items) + rest))
         == if && Says(fields, ":status", "200")
               && Says(fields, "sec-webtransport-http3-draft", "draft02")
            then Ok(fields) else Err(ConnectError)
  {
    hide AcceptHeaders, PrintMessage, PrintFrames, NonGrease, Enumerates, Writable;
    HeadersCross(items, fields, grease, rest, "Received Unknown Header on Connect Open");
  }

  /** What either side makes of a frame, behind any grease, that is no grease itself and
      is not of headers, or holds no field section. */
  lemma OtherMessageRefused(grease: seq<Frame>, f: Frame, rest: seq<byte>, reason: string)
    requires AllValid(grease) && NonGrease(grease) == [] && f.Valid() && !IsGrease(f.ftype)
    ensures var r := AcceptHeaders(PrintFrames(grease) + (f.Print() + rest), reason);
            && (f.ftype != 0x01 ==> r == Err(ProtocolError(reason)))
            && (f.ftype == 0x01 && Lines.ParseSection(f.payload).Err? ==>
                 r == Err(QpackDecodeError(Lines.ParseSection(f.payload).error)))
  {
    hide Frame.Print, AcceptFrame, Lines.ParseSection, PrintFrames, NonGrease;
    AcceptPastGrease(grease, f.Print() + rest);
    AcceptPrinted(f, rest);
  }

  /** A request or reply whose stream ends before its frame is whole is an error of
      reading, wherever it is cut. */
  lemma CutMessageRefused(items: seq<TextField>, grease: seq<Frame>, n: nat, reason: string)
    requires Writable(items) && n < |PrintMessage(items)|
    requires AllValid(grease) && NonGrease(grease) == []
    ensures var r := AcceptHeaders(PrintFrames(grease) + PrintMessage(items)[..n], reason);
            r == Err(ReadExactError) || r == Err(CodingFault(Coding.FinishedEarly))
  {
    hide Coding.VarintIn, AcceptFrame, PrintHeaders, PrintFrames, NonGrease, AllText;
    var f := Frame(HEADERS, PrintHeaders(items));
    CutStreamRefused(grease, f, Coding.LeastWidth(f.ftype), Coding.LeastWidth(|f.payload|), n);
  }

  /** The reply passes the checks of the side that opened, in any order of its fields. */
  lemma ReplyCrosses(items: seq<TextField>, grease: seq<Frame>, rest: seq<byte>)
    requires Writable(items) && Enumerates(items, OK_FIELDS)
    requires AllValid(grease) && NonGrease(grease) == []
    ensures AcceptReply(PrintFrames(grease) + (PrintMessage(items) + rest)) == Ok(OK_FIELDS)
  {
    hide AcceptReply, PrintMessage, PrintFrames, NonGrease, Enumerates, Writable;
    RepliesCross(items, OK_FIELDS, grease, rest);
    StatusIsNotDraft();
  }

  /** The fields of the request that a session is opened with. */
  const SESSION_FIELDS: Fields := map[
    StaticTable.Bytes("origin") := StaticTable.Bytes("https://googlechrome.github.io"),
    PROTOCOL := WEBTRANSPORT,
    METHOD := CONNECT_VALUE,
    StaticTable.Bytes(":scheme") := StaticTable.Bytes("https"),
    StaticTable.Bytes("sec-webtransport-http3-draft02") := StaticTable.Bytes("1")]

  /** Accepted as sessions are exactly the CONNECT requests for WebTransport. */
  lemma SessionsCross(items: seq<TextField>, fields: Fields, grease: seq<Frame>, rest: seq<byte>)
    requires Writable(items) && Enumerates(items, fields)
    requires AllValid(grease) && NonGrease(grease) == []
    ensures AcceptSession(PrintFrames(grease) + (PrintMessage(items) + rest))
         == if !Says(fields, ":method", "CONNECT")
            then Err(ProtocolError(":method invalid in H3 Header"))
            else if !Says(fields, ":protocol", "webtransport")
            then Err(ProtocolError(":protocol invalid in H3 Header"))
            else Ok(fields)
  {
    hide AcceptRequest, PrintMessage, PrintFrames, NonGrease, Enumerates, Writable;
    RequestCrosses(items, fields, grease, rest);
  }

  /** A session opened by this library passes both checks of the accepting side. */
  lemma SessionCrosses(items: seq<TextField>, grease: seq<Frame>, rest: seq<byte>)
    requires Writable(items) && Enumerates(items, SESSION_FIELDS)
    requires AllValid(grease) && NonGrease(grease) == []
    ensures AcceptSession(PrintFrames(grease) + (PrintMessage(items) + rest)) == Ok(SESSION_FIELDS)
  {
    hide AcceptSession, PrintMessage, PrintFrames, NonGrease, Enumerates, Writable;
    SessionsCross(items, SESSION_FIELDS, grease, rest);
    SessionFields();
  }

  lemma SessionFields()
    ensures Has(SESSION_FIELDS, METHOD, CONNECT_VALUE) && Has(SESSION_FIELDS, PROTOCOL, WEBTRANSPORT)
  {
    var scheme := StaticTable.Bytes(":scheme");
    assert METHOD[1] == 'm' as int && scheme[1] == 's' as int;
    assert |METHOD| == 7 && |PROTOCOL| == 9 && |scheme| == 7;
    assert |StaticTable.Bytes("sec-webtransport-http3-draft02")| == 30;
  }

  lemma StatusIsNotDraft()
    ensures STATUS != DRAFT
  {
    assert |STATUS| == 7 && |DRAFT| == 28;
  }

  // ---- The request ----

  class Request {
    var writer: BufMut
    var reader: RecvStream
    var headers: Headers

    constructor (writer: BufMut, reader: RecvStream, headers: Headers)
      ensures this.writer == writer && this.reader == reader && this.headers == headers
    {
      this.writer, this.reader, this.headers := writer, reader, headers;
    }

    /** The headers of the next frame. */
    static method ReadHeaders(reader: RecvStream, reason: string) returns (r: Result<Headers, H3Error>)
      requires HeadersCountable(reader.data)
      modifies reader
      ensures match AcceptHeaders(old(reader.data), reason)
              case Ok(m) => r.Ok? && fresh(r.value) && r.value.fields == m
              case Err(e) => r == Err(e)
    {
      hide Lines.ParseSection, SectionCountable;
      var frame :- Frames.Accept(reader);
      var (ftype, _, fdata) := frame;
      if ftype != HEADERS {
        return Err(ProtocolError(reason));
      }
      var buf := new Buf(fdata);
      var decoded := Headers.Decode(buf);
      match decoded {
        case Ok(h) => r := Ok(h);
        case Err(e) => r := Err(QpackDecodeError(e));
      }
    }

    static method Accept(writer: BufMut, reader: RecvStream) returns (r: Result<Request, H3Error>)
      requires HeadersCountable(reader.data)
      modifies reader
      ensures match AcceptRequest(old(reader.data))
              case Ok(m) => r.Ok? && fresh(r.value) && r.value.headers.fields == m && r.value.writer == writer
              case Err(e) => r == Err(e)
    {
      hide AcceptHeaders, HeadersCountable;
      var headers :- ReadHeaders(reader, "Incorrect Ftype");
      if headers.Get(METHOD) != Some(CONNECT_VALUE) {
        return Err(ProtocolError(":method invalid in H3 Header"));
      }
      var request := new Request(writer, reader, headers);
      r := Ok(request);
    }

    /** Accepts a session and replies, with the map of the reply iterated as `items`; a
        request that is refused gets no reply. */
    static method AcceptConnect(writer: BufMut, reader: RecvStream, items: seq<TextField>)
      returns (r: Result<Request, H3Error>)
      requires Writable(items) && Enumerates(items, OK_FIELDS) && HeadersCountable(reader.data)
      modifies writer, reader
      ensures match AcceptSession(old(reader.data))
              case Ok(m) => r.Ok? && r.value.headers.fields == m && writer.data == old(writer.data) + PrintMessage(items)
              case Err(e) => r == Err(e) && writer.data == old(writer.data)
    {
      hide AcceptRequest, PrintMessage, HeadersCountable, Enumerates;
      var request :- Accept(writer, reader);
      if request.headers.Get(PROTOCOL) != Some(WEBTRANSPORT) {
        return Err(ProtocolError(":protocol invalid in H3 Header"));
      }
      request.ReplyOk(items);
      r := Ok(request);
    }

    /** Writes the request, its map iterated as `items`, then checks the reply. */
    static method Open(writer: BufMut, reader: RecvStream, headers: Headers, items: seq<TextField>)
      returns (r: Result<Request, H3Error>)
      requires Writable(items) && Enumerates(items, headers.fields) && HeadersCountable(reader.data)
      modifies writer, reader
      ensures writer.data == old(writer.data) + PrintMessage(items)
      ensures match AcceptReply(old(reader.data))
              case Ok(_) => r.Ok? && fresh(r.value) && r.value.headers == headers && r.value.writer == writer
              case Err(e) => r == Err(e)
    {
      hide AcceptHeaders, HeadersCountable, PrintHeaders, Frame.Print, Enumerates;
      WriteHeaders(writer, headers, items);
      var resp :- ReadHeaders(reader, "Received Unknown Header on Connect Open");
      if resp.Get(STATUS) != Some(STATUS_OK) {
        return Err(ConnectError);
      }
      if resp.Get(DRAFT) != Some(DRAFT02) {
        return Err(ConnectError);
      }
      var request := new Request(writer, reader, headers);
      r := Ok(request);
    }

    static method WriteHeaders(writer: BufMut, headers: Headers, items: seq<TextField>)
      requires Writable(items) && Enumerates(items, headers.fields)
      modifies writer
      ensures writer.data == old(writer.data) + PrintMessage(items)
    {
      hide PrintHeaders, Frame.Print, Enumerates;
      var hdata := new BufMut();
      var buf := new BufMut();
      headers.Encode(hdata, items);
      assert hdata.data == PrintHeaders(items);
      Frames.Encode(buf, HEADERS, hdata.data);
      assert buf.data == PrintMessage(items);
      writer.PutSlice(buf.data);
    }

    /** Writes the reply, its map iterated as `items`. */
    method ReplyOk(items: seq<TextField>)
      requires Writable(items) && Enumerates(items, OK_FIELDS)
      modifies writer
      ensures writer.data == old(writer.data) + PrintMessage(items)
    {
      hide PrintMessage, Enumerates;
      var h := new Headers();
      h.Set(STATUS, STATUS_OK);
      h.Set(DRAFT, DRAFT02);
      assert h.fields == OK_FIELDS;
      WriteHeaders(writer, h, items);
    }
  }
}
