/**
  The HTTP/3 settings map: its wire form, the way it is filled, and the exchange of
  settings on the control stream.
 */
module SettingsMap {
  import opened Words
  import opened Buffers
  import opened Coding
  import opened Frames

  const ENABLE_CONNECT_PROTOCOL: varint := 0x8
  const WEBTRANSPORT_MAX_SESSIONS: varint := 0xc671706a
  const ENABLE_DATAGRAM: varint := 0x33
  const ENABLE_DATAGRAM_DEPRECATED: varint := 0xFFD277
  const WEBTRANSPORT_ENABLE_DEPRECATED: varint := 0x2b603742
  const WEBTRANSPORT_MAX_SESSIONS_DEPRECATED: varint := 0x2b603743
  const GREASE: varint := 0x1f + 0x21
  const CONTROL: varint := 0x00

  type Pairs = map<varint, varint>

  /** Every value was narrowed to 32 bits on its way in. */
  predicate Narrow(m: Pairs) {
    forall k :: k in m ==> m[k] < 0x1_0000_0000
  }

  function Supports(m: Pairs): bool {
    if WEBTRANSPORT_ENABLE_DEPRECATED in m then m[WEBTRANSPORT_ENABLE_DEPRECATED] >= 1
    else if WEBTRANSPORT_MAX_SESSIONS in m then m[WEBTRANSPORT_MAX_SESSIONS] >= 1
    else if WEBTRANSPORT_MAX_SESSIONS_DEPRECATED in m then m[WEBTRANSPORT_MAX_SESSIONS_DEPRECATED] >= 1
    else false
  }

  function Enabled(m: Pairs, maxSessions: u32): Pairs {
    m[ENABLE_CONNECT_PROTOCOL := 1][ENABLE_DATAGRAM := 1][ENABLE_DATAGRAM_DEPRECATED := 1]
     [WEBTRANSPORT_MAX_SESSIONS := maxSessions][WEBTRANSPORT_MAX_SESSIONS_DEPRECATED := maxSessions]
     [WEBTRANSPORT_ENABLE_DEPRECATED := 1]
  }

  /** The first present of three settings, in this order, decides alone; where none is
      present there is no support. */
  lemma SupportsExact(m: Pairs)
    ensures Supports(m) <==>
              || (0x2b603742 in m && m[0x2b603742] >= 1)
              || (0x2b603742 !in m && 0xc671706a in m && m[0xc671706a] >= 1)
              || (0x2b603742 !in m && 0xc671706a !in m && 0x2b603743 in m && m[0x2b603743] >= 1)
    ensures Supports(m) ==> exists k :: k in {0x2b603742, 0xc671706a, 0x2b603743} && k in m && m[k] >= 1
    ensures (forall k :: k in {0x2b603742, 0xc671706a, 0x2b603743} ==> k !in m) ==> !Supports(m)
  {
    if Supports(m) {
      var k := if 0x2b603742 in m then 0x2b603742 else if 0xc671706a in m then 0xc671706a else 0x2b603743;
      assert k in {0x2b603742, 0xc671706a, 0x2b603743} && k in m && m[k] >= 1;
    }
  }

  /** The settings of WebTransport by their numbers, with those of both drafts; all
      others stay, and with them the grease that is there from the start. */
  lemma EnabledExact(m: Pairs, maxSessions: u32)
    ensures var r := Enabled(m, maxSessions);
            && (forall k :: k in {0x8, 0x33, 0xFFD277, 0x2b603742} ==> k in r && r[k] == 1)
            && (forall k :: k in {0xc671706a, 0x2b603743} ==> k in r && r[k] == maxSessions)
            && (forall k :: k !in {0x8, 0x33, 0xFFD277, 0x2b603742, 0xc671706a, 0x2b603743} ==>
                 (k in r <==> k in m) && (k in m ==> r[k] == m[k]))
    ensures GREASE == 0x40
  {
  }

  // ---- The wire form ----

  datatype Fault =
    | Malformed(coding: CodingError)
    | Aborted     // reading an integer from an empty buffer aborts the task

  /** Pairs of integers up to the end, later ones replacing earlier ones of the same
      identifier, values narrowed to 32 bits. */
  function ParsePairs(s: seq<byte>, m: Pairs): Result<Pairs, Fault>
    decreases |s|
  {
    if s == [] then Ok(m)
    else
      match ParseVarint(s)
      case Failed(e) => Err(Malformed(e))
      case Parsed(id, rest) =>
        if rest == [] then Err(Aborted)
        else
          match ParseVarint(rest)
          case Failed(e) => Err(Malformed(e))
          case Parsed(value, rest) => ParsePairs(rest, m[id := value % 0x1_0000_0000])
  }

  function PrintPairs(items: seq<(varint, varint)>): seq<byte> {
    if items == [] then []
    else PrintVarint(items[0].0) + (PrintVarint(items[0].1) + PrintPairs(items[1..]))
  }

  /** The number of integers a byte string holds, if it holds only whole ones. */
  function Integers(s: seq<byte>): Option<nat>
    decreases |s|
  {
    if s == [] then Some(0)
    else
      match ParseVarint(s)
      case Failed(_) => None
      case Parsed(_, rest) =>
        match Integers(rest)
        case Some(n) => Some(n + 1)
        case None => None
  }

  /** Decoding succeeds exactly on an even number of whole integers; it reports an
      error exactly when the last integer is cut short, and aborts exactly when an
      identifier stands without a value. */
  lemma {:induction false} PairsOutcome(s: seq<byte>, m: Pairs)
    ensures ParsePairs(s, m).Ok? <==> Integers(s).Some? && Integers(s).value % 2 == 0
    ensures ParsePairs(s, m) == Err(Malformed(UnexpectedEnd)) <==> Integers(s) == None
    ensures ParsePairs(s, m) == Err(Aborted) <==> Integers(s).Some? && Integers(s).value % 2 == 1
    decreases |s|
  {
    hide ParseVarint;
    ParseFailsEnd(s);
    if s != [] && ParseVarint(s).Parsed? {
      var rest := ParseVarint(s).rest;
      ParseFailsEnd(rest);
      if rest != [] && ParseVarint(rest).Parsed? {
        PairsOutcome(ParseVarint(rest).rest, m[ParseVarint(s).value := ParseVarint(rest).value % 0x1_0000_0000]);
      }
    }
  }

  lemma ParseFailsEnd(s: seq<byte>)
    ensures ParseVarint(s).Failed? ==> ParseVarint(s).error == UnexpectedEnd
  {
  }

  /** The shortest payload that aborts: an identifier and nothing else. */
  lemma LoneIdentifierAborts()
    ensures ParsePairs([0x01], map[]) == Err(Aborted)
  {
    assert PrintVarint(1) == [0x01] by {
      assert BigEndianBytes(1, 1) == [1];
    }
    ParsePrintVarint(1, []);
    assert [0x01 as byte] + [] == [0x01];
  }

  /** Settings inserted in order, the last of an identifier winning, with the low 32
      bits of each value. */
  function InsertPairs(m: Pairs, items: seq<(varint, varint)>): Pairs
    decreases items
  {
    if items == [] then m else InsertPairs(m[items[0].0 := items[0].1 % 0x1_0000_0000], items[1..])
  }

  /** For every sequence of pairs, repeated identifiers and wide values included. */
  lemma {:induction false} PairsFold(items: seq<(varint, varint)>, m: Pairs)
    ensures ParsePairs(PrintPairs(items), m) == Ok(InsertPairs(m, items))
    decreases items
  {
    hide ParseVarint, PrintVarint;
    if items != [] {
      ParsePrintVarint(items[0].0, PrintVarint(items[0].1) + PrintPairs(items[1..]));
      ParsePrintVarint(items[0].1, PrintPairs(items[1..]));
      PairsFold(items[1..], m[items[0].0 := items[0].1 % 0x1_0000_0000]);
    }
  }

  /** The last pair wins, with the low 32 bits of its value. */
  lemma {:induction false} LastPairWins(m: Pairs, items: seq<(varint, varint)>, id: varint, value: varint)
    ensures InsertPairs(m, []) == m
    ensures InsertPairs(m, items + [(id, value)]) == InsertPairs(m, items)[id := value % 0x1_0000_0000]
    decreases items
  {
    if items == [] {
      assert items + [(id, value)] == [(id, value)] && [(id, value)][1..] == [];
    } else {
      assert (items + [(id, value)])[0] == items[0] && (items + [(id, value)])[1..] == items[1..] + [(id, value)];
      LastPairWins(m[items[0].0 := items[0].1 % 0x1_0000_0000], items[1..], id, value);
    }
  }

  // ---- Round trip ----

  predicate Enumerates(items: seq<(varint, varint)>, m: Pairs) {
    && (forall i :: 0 <= i < |items| ==> items[i].0 in m && m[items[i].0] == items[i].1)
    && (forall k :: k in m ==> exists i :: 0 <= i < |items| && items[i].0 == k)
  }

  lemma {:induction false} ParsePrintPairs(items: seq<(varint, varint)>, m: Pairs, done: Pairs)
    requires Narrow(m)
    requires forall i :: 0 <= i < |items| ==> items[i].0 in m && m[items[i].0] == items[i].1
    requires forall k :: k in done ==> k in m && m[k] == done[k]
    ensures var r := ParsePairs(PrintPairs(items), done);
            && r.Ok?
            && (forall k :: k in r.value ==> k in m && m[k] == r.value[k])
            && (forall k :: k in r.value <==> k in done || exists i :: 0 <= i < |items| && items[i].0 == k)
  {
    hide ParseVarint, PrintVarint;
    if items != [] {
      var (id, value) := items[0];
      var tail := PrintVarint(value) + PrintPairs(items[1..]);
      ParsePrintVarint(id, tail);
      ParsePrintVarint(value, PrintPairs(items[1..]));
      assert value % 0x1_0000_0000 == value;
      ParsePrintPairs(items[1..], m, done[id := value]);
    }
  }

  /** For every map of 32-bit values and every order of iterating it, decoding the
      encoding gives back the map. */
  lemma SettingsRoundTrip(items: seq<(varint, varint)>, m: Pairs)
    requires Narrow(m) && Enumerates(items, m)
    ensures ParsePairs(PrintPairs(items), map[]) == Ok(m)
  {
    hide ParsePairs, PrintPairs;
    ParsePrintPairs(items, m, map[]);
    assert ParsePairs(PrintPairs(items), map[]).value == m;
  }

  // ---- The map ----

  class Settings {
    var inner: Pairs

    predicate Valid()
      reads this
    {
      Narrow(inner)
    }

    /** The derived default: no setting at all. */
    constructor Default()
      ensures Valid() && inner == map[]
    {
      inner := map[];
    }

    constructor ()
      ensures Valid() && inner == map[GREASE := 0x6429]
    {
      inner := map[GREASE := 0x6429];
    }

    method Insert(setting: varint, value: u32)
      requires Valid()
      modifies this
      ensures Valid() && inner == old(inner)[setting := value]
    {
      inner := inner[setting := value];
    }

    method EnableWebtransport(maxSessions: u32)
      requires Valid()
      modifies this
      ensures Valid() && inner == Enabled(old(inner), maxSessions) && SupportsWebtransport()
    {
      Insert(ENABLE_CONNECT_PROTOCOL, 1);
      Insert(ENABLE_DATAGRAM, 1);
      Insert(ENABLE_DATAGRAM_DEPRECATED, 1);
      Insert(WEBTRANSPORT_MAX_SESSIONS, maxSessions);
      Insert(WEBTRANSPORT_MAX_SESSIONS_DEPRECATED, maxSessions);
      Insert(WEBTRANSPORT_ENABLE_DEPRECATED, 1);
    }

    function SupportsWebtransport(): bool
      reads this
    {
      Supports(inner)
    }

    static method Decode(data: Buf, len: nat) returns (r: Result<Settings, Fault>)
      requires len <= |data.data|
      modifies data
      ensures data.data == old(data.data)[len..]
      ensures match ParsePairs(old(data.data)[..len], map[])
              case Ok(m) => r.Ok? && fresh(r.value) && r.value.Valid() && r.value.inner == m
              case Err(e) => r == Err(e)
    {
      hide ParseVarint;
      var settings := new Settings.Default();
      var part := data.CopyToBytes(len);
      var buf := new Buf(part);
      while buf.HasRemaining()
        invariant fresh(settings) && fresh(buf) && settings.Valid() && data.data == old(data.data)[len..]
        invariant ParsePairs(buf.data, settings.inner) == ParsePairs(old(data.data)[..len], map[])
        decreases |buf.data|
      {
        ParseFailsEnd(buf.data);
        var setting := ReadVarint(buf);
        if setting.Err? {
          return Err(Malformed(setting.error));
        }
        if !buf.HasRemaining() {
          return Err(Aborted);
        }
        ParseFailsEnd(buf.data);
        var value := ReadVarint(buf);
        if value.Err? {
          return Err(Malformed(value.error));
        }
        settings.Insert(setting.value, value.value % 0x1_0000_0000);
      }
      r := Ok(settings);
    }

    /** Writes the settings, iterated in the order of `items`. */
    method Encode(items: seq<(varint, varint)>) returns (len: nat, data: seq<byte>)
      requires Enumerates(items, inner)
      ensures data == PrintPairs(items) && len == |data|
    {
      hide PrintVarint, PrintPairs;
      var buf := new BufMut();
      var i := 0;
      assert items[0..] == items;
      while i < |items|
        invariant i <= |items| && fresh(buf)
        invariant buf.data + PrintPairs(items[i..]) == PrintPairs(items)
      {
        ghost var before := buf.data;
        WriteVarint(buf, items[i].0);
        WriteVarint(buf, items[i].1);
        PrintPairsStep(items, i, before);
        i := i + 1;
      }
      PrintPairsNone(items, i);
      data := buf.data;
      len := |data|;
    }
  }

  // ---- The control stream ----

  /** Opens the control stream: its type, then a frame of the settings. */
  method OpenControl(cs: BufMut, settings: Settings, items: seq<(varint, varint)>)
    requires Enumerates(items, settings.inner) && Frame(SETTINGS, PrintPairs(items)).Valid()
    modifies cs
    ensures cs.data == old(cs.data) + PrintControl(items)
  {
    hide PrintVarint, PrintPairs, Frame.Print, Enumerates;
    WriteVarint(cs, CONTROL);
    var _, fdata := settings.Encode(items);
    var buffer := new BufMut();
    Encode(buffer, SETTINGS, fdata);
    cs.PutSlice(buffer.data);
  }

  /** Reads the settings of the peer off a stream that came in. */
  method ReadControl(cs: RecvStream) returns (r: Result<Settings, ControlFault>)
    modifies cs
    ensures match AcceptControl(old(cs.data))
            case Parsed(m, rest) => r.Ok? && fresh(r.value) && r.value.Valid() && r.value.inner == m && cs.data == rest
            case Failed(e) => r == Err(e)
  {
    hide ParseVarint, ParsePairs, AcceptFrame;
    var stype := ReadVarintAsync(cs);
    if stype.Err? {
      return Err(Reported(CodingFault(stype.error)));
    }
    if stype.value != CONTROL {
      return Err(Reported(SettingsError));
    }
    var frame := Accept(cs);
    if frame.Err? {
      return Err(Reported(frame.error));
    }
    var (ftype, len, data) := frame.value;
    if ftype != SETTINGS {
      return Err(Reported(SettingsError));
    }
    var buf := new Buf(data);
    assert data[..len] == data;
    var settings := Settings.Decode(buf, len);
    match settings {
      case Ok(s) => r := Ok(s);
      case Err(Malformed(e)) => r := Err(Reported(CodingFault(e)));
      case Err(Aborted) => r := Err(Abort);
    }
  }

  lemma PrintPairsStep(items: seq<(varint, varint)>, i: nat, before: seq<byte>)
    requires i < |items|
    ensures before + PrintPairs(items[i..])
         == before + PrintVarint(items[i].0) + PrintVarint(items[i].1) + PrintPairs(items[i + 1..])
  {
    hide PrintVarint;
    assert items[i..][1..] == items[i + 1..];
  }

  lemma PrintPairsNone(items: seq<(varint, varint)>, i: nat)
    requires i == |items|
    ensures PrintPairs(items[i..]) == []
  {
  }

  // ---- The exchange on the control stream ----

  /** What the opening side writes. */
  function PrintControl(items: seq<(varint, varint)>): seq<byte>
    requires Frame(SETTINGS, PrintPairs(items)).Valid()
  {
    PrintVarint(CONTROL) + Frame(SETTINGS, PrintPairs(items)).Print()
  }

  datatype ControlFault = Reported(error: H3Error) | Abort

  /** What the accepting side makes of a stream: the settings and the rest. */
  function AcceptControl(s: seq<byte>): Parsed<Pairs, ControlFault> {
    match ParseVarint(s)
    case Failed(_) => Failed(Reported(CodingFault(FinishedEarly)))
    case Parsed(stype, rest) =>
      if stype != CONTROL then Failed(Reported(SettingsError))
      else
        match AcceptFrame(rest)
        case Failed(e) => Failed(Reported(e))
        case Parsed(f, rest) =>
          if f.ftype != SETTINGS then Failed(Reported(SettingsError))
          else
            match ParsePairs(f.payload, map[])
            case Ok(m) => Parsed(m, rest)
            case Err(Malformed(e)) => Failed(Reported(CodingFault(e)))
            case Err(Aborted) => Failed(Abort)
  }

  /** Settings cross the wire unchanged, and with them the answer to whether the
      peer supports WebTransport. */
  lemma ControlRoundTrip(items: seq<(varint, varint)>, m: Pairs, rest: seq<byte>)
    requires Narrow(m) && Enumerates(items, m) && Frame(SETTINGS, PrintPairs(items)).Valid()
    ensures AcceptControl(PrintControl(items) + rest) == Parsed(m, rest)
  {
    hide ParseVarint, PrintVarint, AcceptFrame, ParsePairs, PrintPairs, Frame.Print;
    var f := Frame(SETTINGS, PrintPairs(items));
    assert PrintControl(items) + rest == PrintVarint(CONTROL) + (f.Print() + rest);
    ParsePrintVarint(CONTROL, f.Print() + rest);
    AcceptPrinted(f, rest);
    SettingsRoundTrip(items, m);
  }

  /** Of a peer that set none of the three settings, the other side learns that there is
      no support. */
  lemma NoSupportCrosses(items: seq<(varint, varint)>, m: Pairs, rest: seq<byte>)
    requires Narrow(m) && Enumerates(items, m) && Frame(SETTINGS, PrintPairs(items)).Valid()
    requires 0x2b603742 !in m && 0xc671706a !in m && 0x2b603743 !in m
    ensures var r := AcceptControl(PrintControl(items) + rest); r == Parsed(m, rest) && !Supports(r.value)
  {
    hide AcceptControl, PrintControl, PrintPairs;
    ControlRoundTrip(items, m, rest);
  }

  /** A stream that is no control stream is refused, whatever it carries. */
  lemma OtherStreamRefused(stype: varint, width: nat, rest: seq<byte>)
    requires Fits(stype, width) && stype != 0x00
    ensures AcceptControl(VarintIn(stype, width) + rest) == Failed(Reported(SettingsError))
  {
    hide ParseVarint, VarintIn;
    ParseOfForm(stype, width, rest);
  }

  /** So is one whose first frame, behind any grease, is not of settings. */
  lemma OtherFrameRefused(width: nat, grease: seq<Frame>, f: Frame, rest: seq<byte>)
    requires Fits(CONTROL, width) && AllValid(grease) && NonGrease(grease) == []
    requires f.Valid() && !IsGrease(f.ftype) && f.ftype != 0x04
    ensures AcceptControl(VarintIn(0x00, width) + (PrintFrames(grease) + (f.Print() + rest)))
         == Failed(Reported(SettingsError))
  {
    hide ParseVarint, VarintIn, AcceptFrame, PrintFrames, NonGrease, Frame.Print;
    ParseOfForm(0x00, width, PrintFrames(grease) + (f.Print() + rest));
    AcceptPastGrease(grease, f.Print() + rest);
    AcceptPrinted(f, rest);
  }

  /** One whose first frame cannot be read is refused with the error of reading it, and
      one whose settings cannot with theirs. */
  lemma UnreadableRefused(s: seq<byte>)
    ensures AcceptFrame(s).Failed? ==>
              AcceptControl(PrintVarint(0x00) + s) == Failed(Reported(AcceptFrame(s).error))
    ensures AcceptFrame(s).Parsed? && AcceptFrame(s).value.ftype == 0x04 ==>
              match Integers(AcceptFrame(s).value.payload)
              case None => AcceptControl(PrintVarint(0x00) + s) == Failed(Reported(CodingFault(UnexpectedEnd)))
              case Some(n) => n % 2 == 1 ==> AcceptControl(PrintVarint(0x00) + s) == Failed(Abort)
  {
    hide ParseVarint, PrintVarint, AcceptFrame, ParsePairs, Integers;
    ParsePrintVarint(0x00, s);
    if AcceptFrame(s).Parsed? {
      PairsOutcome(AcceptFrame(s).value.payload, map[]);
    }
  }
}
