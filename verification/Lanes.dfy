/**
  Accepting streams as a transition system.  Unidirectional and bidirectional
  streams take separate lanes of the same shape.  Streams arrive, bytes arrive on
  them, they end, and tasks polling the acceptor drain arrivals into the set of
  suspended decoders and take finished decoders out of it, in any interleaving.
 */
module Lanes {
  import opened Words
  import opened Coding
  import opened Streams

  type StreamId = nat
  type Task = nat

  datatype Kind = Uni | Bi

  const PUSH: varint := 0x01
  const QPACK_ENCODER: varint := 0x02
  const QPACK_DECODER: varint := 0x03
  const UNI_WEBTRANSPORT: varint := 0x54
  const BI_WEBTRANSPORT: varint := 0x41

  datatype WTError =
    | AcceptError
    | ConnectionError
    | ProtocolError
    | CodingFault(error: CodingError)

  datatype Slot = Encoder | Decoder | Pushed

  /** What becomes of a stream of this session by its type. */
  datatype Fate = Deliver | Park(slot: Slot) | Drop

  function FateOf(kind: Kind, stype: varint): Fate {
    match kind
    case Uni =>
      if stype == UNI_WEBTRANSPORT then Deliver
      else if stype == QPACK_ENCODER then Park(Encoder)
      else if stype == QPACK_DECODER then Park(Decoder)
      else if stype == PUSH then Park(Pushed)
      else Drop
    case Bi =>
      if stype == BI_WEBTRANSPORT then Deliver else Drop
  }

  /** What the suspended decoder of a stream has come to: see `Streams`. */
  datatype Verdict = Waiting | Fault(error: WTError) | Header(stype: varint)

  function Judge(id: varint, received: seq<byte>, ended: bool): Verdict {
    match ParseHeader(id, received)
    case Whole(stype, _) => Header(stype)
    case Mismatch(_) => Fault(ProtocolError)
    case Short => if ended then Fault(CodingFault(FinishedEarly)) else Waiting
  }

  /** A verdict is the end of the decoder, however the bytes arrived. */
  lemma JudgeIsDecoder(id: varint, received: seq<byte>, ended: bool)
    ensures var d := PollDecoder(id, START, received, ended).0;
            match Judge(id, received, ended)
            case Waiting => d.Reading?
            case Header(stype) => d == Decoded(stype)
            case Fault(e) => if e == ProtocolError then d == WrongSession else d == EndedEarly
  {
    hide PollDecoder, ParseHeader;
    DecoderReadsHeader(id, received, ended);
  }

  datatype Lane = Lane(
    kind: Kind,
    id: varint,
    queue: seq<StreamId>,             // arrived, not yet drained
    drained: set<StreamId>,           // decoders in the unordered set
    encoder: Option<StreamId>,        // placeholders that keep control streams open
    decoder: Option<StreamId>,
    push: Option<StreamId>,
    delivered: map<StreamId, Task>,
    discarded: set<StreamId>,         // reported or dropped
    received: map<StreamId, seq<byte>>,
    ended: set<StreamId>)
  {
    function VerdictOf(s: StreamId): Verdict
      requires s in received
    {
      Judge(id, received[s], s in ended)
    }

    predicate Finished(s: StreamId) {
      s in received && VerdictOf(s) != Waiting
    }

    function Occupant(slot: Slot): Option<StreamId> {
      match slot
      case Encoder => encoder
      case Decoder => decoder
      case Pushed => push
    }

    /** Storing a stream in a placeholder drops the one it held. */
    function Parking(slot: Slot, s: StreamId): Lane {
      var dropped := if Occupant(slot).Some? then {Occupant(slot).value} else {};
      var l := this.(discarded := discarded + dropped);
      match slot
      case Encoder => l.(encoder := Some(s))
      case Decoder => l.(decoder := Some(s))
      case Pushed => l.(push := Some(s))
    }
  }

  // ---- Events ----

  datatype Event =
    | Arrive(s: StreamId)
    | Receive(s: StreamId, chunk: seq<byte>)
    | End(s: StreamId)
    | Drain
    | Select(s: StreamId, task: Task)

  predicate Enabled(l: Lane, e: Event) {
    match e
    case Arrive(s) => s !in l.received
    case Receive(s, _) => s in l.received && s !in l.ended
    case End(s) => s in l.received
    case Drain => l.queue != []
    case Select(s, _) => s in l.drained && l.Finished(s)
  }

  function Apply(l: Lane, e: Event): Lane
    requires Enabled(l, e)
  {
    match e
    case Arrive(s) => l.(queue := l.queue + [s], received := l.received[s := []])
    case Receive(s, chunk) => l.(received := l.received[s := l.received[s] + chunk])
    case End(s) => l.(ended := l.ended + {s})
    case Drain => l.(queue := l.queue[1..], drained := l.drained + {l.queue[0]})
    case Select(s, task) =>
      var m := l.(drained := l.drained - {s});
      match l.VerdictOf(s)
      case Header(stype) =>
        (match FateOf(l.kind, stype)
         case Deliver => m.(delivered := m.delivered[s := task])
         case Park(slot) => m.Parking(slot, s)
         case Drop => m.(discarded := m.discarded + {s}))
      case _ => m.(discarded := m.discarded + {s})
  }

  predicate Legal(l: Lane, es: seq<Event>)
    decreases es
  {
    es == [] || (Enabled(l, es[0]) && Legal(Apply(l, es[0]), es[1..]))
  }

  function Replay(l: Lane, es: seq<Event>): Lane
    requires Legal(l, es)
    decreases es
  {
    if es == [] then l else Replay(Apply(l, es[0]), es[1..])
  }

  function Initial(kind: Kind, id: varint): Lane {
    Lane(kind, id, [], {}, None, None, None, map[], {}, map[], {})
  }

  lemma {:induction false} ReplayAppend(l: Lane, es: seq<Event>, e: Event)
    requires Legal(l, es) && Enabled(Replay(l, es), e)
    ensures Legal(l, es + [e]) && Replay(l, es + [e]) == Apply(Replay(l, es), e)
    decreases es
  {
    hide Apply, Enabled;
    if es == [] {
      assert es + [e] == [e];
      assert [e][1..] == [];
    } else {
      assert (es + [e])[0] == es[0] && (es + [e])[1..] == es[1..] + [e];
      ReplayAppend(Apply(l, es[0]), es[1..], e);
    }
  }

  lemma {:induction false} ReplayConcat(l: Lane, es: seq<Event>, more: seq<Event>)
    requires Legal(l, es) && Legal(Replay(l, es), more)
    ensures Legal(l, es + more) && Replay(l, es + more) == Replay(Replay(l, es), more)
    decreases es
  {
    hide Apply, Enabled;
    if es == [] {
      assert es + more == more;
    } else {
      assert (es + more)[0] == es[0] && (es + more)[1..] == es[1..] + more;
      ReplayConcat(Apply(l, es[0]), es[1..], more);
    }
  }

  // ---- Conservation ----

  function Count(b: bool): nat {
    if b then 1 else 0
  }

  /** In how many places a stream is. */
  function Places(l: Lane, s: StreamId): nat {
    Count(s in l.queue) + Count(s in l.drained) + Count(s in l.delivered) + Count(s in l.discarded)
    + Count(l.encoder == Some(s)) + Count(l.decoder == Some(s)) + Count(l.push == Some(s))
  }

  /** The type of a stream of this session whose header is whole. */
  predicate HasType(l: Lane, s: StreamId, fate: Fate) {
    && s in l.received
    && var h := ParseHeader(l.id, l.received[s]);
    && h.Whole?
    && FateOf(l.kind, h.stype) == fate
  }

  /** Each arrived stream is in exactly one place, and no other stream is anywhere. */
  ghost predicate Conserved(l: Lane) {
    && (forall s :: Places(l, s) == Count(s in l.received))
    && (forall i, j :: 0 <= i < j < |l.queue| ==> l.queue[i] != l.queue[j])
  }

  /** What was delivered or parked carries this session and its type. */
  predicate Typed(l: Lane) {
    && (forall s :: s in l.delivered ==> HasType(l, s, Deliver))
    && (forall slot :: l.Occupant(slot).Some? ==> HasType(l, l.Occupant(slot).value, Park(slot)))
  }

  ghost predicate Inv(l: Lane) {
    Conserved(l) && Typed(l)
  }

  lemma InitialInv(kind: Kind, id: varint)
    ensures Inv(Initial(kind, id))
  {
  }

  lemma ApplyInv(l: Lane, e: Event)
    requires Inv(l) && Enabled(l, e)
    ensures Inv(Apply(l, e))
  {
    hide Places, HasType;
    match e {
      case Drain => DrainConserves(l);
      case Select(s, task) => SelectConserves(l, s, task);
      case _ => EnvironmentConserves(l, e);
    }
    ApplyTyped(l, e);
  }

  lemma EnvironmentConserves(l: Lane, e: Event)
    requires Conserved(l) && Enabled(l, e) && !e.Drain? && !e.Select?
    ensures Conserved(Apply(l, e))
  {
    var m := Apply(l, e);
    forall s: StreamId ensures Places(m, s) == Count(s in m.received) {
      assert Places(l, s) == Count(s in l.received);
    }
  }

  lemma DrainConserves(l: Lane)
    requires Conserved(l) && Enabled(l, Drain)
    ensures Conserved(Apply(l, Drain))
  {
    var m := Apply(l, Drain);
    forall s: StreamId ensures Places(m, s) == Count(s in m.received) {
      assert Places(l, s) == Count(s in l.received);
      assert s in l.queue <==> s == l.queue[0] || s in l.queue[1..];
    }
  }

  lemma SelectConserves(l: Lane, s: StreamId, task: Task)
    requires Conserved(l) && Enabled(l, Select(s, task))
    ensures Conserved(Apply(l, Select(s, task)))
  {
    hide Judge, FateOf, Conserved;
    var v := l.VerdictOf(s);
    if v.Header? && FateOf(l.kind, v.stype).Park? {
      ParkConserves(l, s, FateOf(l.kind, v.stype).slot);
    } else if v.Header? && FateOf(l.kind, v.stype) == Deliver {
      DeliverConserves(l, s, task);
    } else {
      DiscardConserves(l, s);
    }
  }

  lemma DeliverConserves(l: Lane, s: StreamId, task: Task)
    requires Conserved(l) && s in l.drained
    ensures Conserved(l.(drained := l.drained - {s}).(delivered := l.delivered[s := task]))
  {
    var m := l.(drained := l.drained - {s}).(delivered := l.delivered[s := task]);
    forall x: StreamId ensures Places(m, x) == Count(x in m.received) {
      assert Places(l, x) == Count(x in l.received);
    }
  }

  lemma DiscardConserves(l: Lane, s: StreamId)
    requires Conserved(l) && s in l.drained
    ensures Conserved(l.(drained := l.drained - {s}).(discarded := l.discarded + {s}))
  {
    var m := l.(drained := l.drained - {s}).(discarded := l.discarded + {s});
    forall x: StreamId ensures Places(m, x) == Count(x in m.received) {
      assert Places(l, x) == Count(x in l.received);
    }
  }

  lemma ParkConserves(l: Lane, s: StreamId, slot: Slot)
    requires Conserved(l) && s in l.drained
    ensures Conserved(l.(drained := l.drained - {s}).Parking(slot, s))
  {
    var m := l.(drained := l.drained - {s}).Parking(slot, s);
    forall x: StreamId ensures Places(m, x) == Count(x in m.received) {
      assert Places(l, x) == Count(x in l.received);
    }
  }

  lemma ApplyTyped(l: Lane, e: Event)
    requires Typed(l) && Enabled(l, e)
    ensures Typed(Apply(l, e))
  {
    hide ParseHeader;
    var m := Apply(l, e);
    forall s | HasType(l, s, Deliver) ensures HasType(m, s, Deliver) {
      TypeStays(l, e, s, Deliver);
    }
    forall slot: Slot | m.Occupant(slot).Some? ensures HasType(m, m.Occupant(slot).value, Park(slot)) {
      if m.Occupant(slot) == l.Occupant(slot) {
        TypeStays(l, e, m.Occupant(slot).value, Park(slot));
      }
    }
  }

  lemma TypeStays(l: Lane, e: Event, s: StreamId, fate: Fate)
    requires Enabled(l, e) && HasType(l, s, fate)
    ensures HasType(Apply(l, e), s, fate)
  {
    hide ParseHeader;
    if e.Receive? && e.s == s {
      HeaderStable(l.id, l.received[s], e.chunk);
    }
  }

  function WebTransportType(kind: Kind): varint {
    if kind == Uni then UNI_WEBTRANSPORT else BI_WEBTRANSPORT
  }

  /** The bytes that came on a stream start with the WebTransport type of its kind and
      this session's id, each as an integer of some width. */
  ghost predicate Carries(l: Lane, s: StreamId) {
    && s in l.received
    && exists v, w, rest ::
         && Fits(WebTransportType(l.kind), v) && Fits(l.id, w)
         && l.received[s] == VarintIn(WebTransportType(l.kind), v) + (VarintIn(l.id, w) + rest)
  }

  /** The streams fit to be delivered are those whose bytes say so. */
  lemma DeliverableCarries(l: Lane, s: StreamId)
    ensures HasType(l, s, Deliver) <==> Carries(l, s)
  {
    hide ParseVarint, VarintIn;
    if HasType(l, s, Deliver) {
      var a := l.received[s];
      var b := ParseVarint(a).rest;
      FormOfParse(a);
      FormOfParse(b);
      assert Fits(WebTransportType(l.kind), WidthOf(a[0])) && Fits(l.id, WidthOf(b[0]));
      assert a == VarintIn(WebTransportType(l.kind), WidthOf(a[0])) + (VarintIn(l.id, WidthOf(b[0])) + ParseVarint(b).rest);
    }
    if Carries(l, s) {
      var t := WebTransportType(l.kind);
      var v, w, rest :| Fits(t, v) && Fits(l.id, w) && l.received[s] == VarintIn(t, v) + (VarintIn(l.id, w) + rest);
      ParseOfForm(t, v, VarintIn(l.id, w) + rest);
      ParseOfForm(l.id, w, rest);
    }
  }

  // ---- What becomes of each stream, by its bytes ----

  /** A decoder is finished exactly when its stream spells a header or has ended. */
  lemma FinishedExact(l: Lane, s: StreamId)
    ensures l.Finished(s) <==>
            s in l.received && (s in l.ended || exists t, sid, rest :: Spelled(l.received[s], t, sid, rest))
  {
    hide ParseHeader, Spelled;
    if s in l.received {
      HeaderExact(l.id, l.received[s]);
    }
  }

  /** By the numbers of the protocol: where each stream goes that is selected. */
  lemma SelectedUni(l: Lane, s: StreamId, task: Task, t: varint, sid: varint, rest: seq<byte>)
    requires Inv(l) && l.kind == Uni && Enabled(l, Select(s, task)) && Spelled(l.received[s], t, sid, rest)
    ensures var m := Apply(l, Select(s, task));
            && (s in m.delivered <==> sid == l.id && t == 0x54)
            && (m.encoder == Some(s) <==> sid == l.id && t == 0x02)
            && (m.decoder == Some(s) <==> sid == l.id && t == 0x03)
            && (m.push == Some(s) <==> sid == l.id && t == 0x01)
            && (s in m.discarded <==> sid != l.id || t !in {0x54, 0x02, 0x03, 0x01})
    ensures l.VerdictOf(s) == if sid != l.id then Fault(ProtocolError) else Header(t)
  {
    hide ParseHeader, Spelled, Conserved, Typed;
    SpelledHeader(l.id, l.received[s], t, sid, rest);
    DrainedNowhereElse(l, s);
  }

  lemma SelectedBi(l: Lane, s: StreamId, task: Task, t: varint, sid: varint, rest: seq<byte>)
    requires Inv(l) && l.kind == Bi && Enabled(l, Select(s, task)) && Spelled(l.received[s], t, sid, rest)
    ensures var m := Apply(l, Select(s, task));
            && (s in m.delivered <==> sid == l.id && t == 0x41)
            && (s in m.discarded <==> sid != l.id || t != 0x41)
    ensures l.VerdictOf(s) == if sid != l.id then Fault(ProtocolError) else Header(t)
  {
    hide ParseHeader, Spelled, Conserved, Typed;
    SpelledHeader(l.id, l.received[s], t, sid, rest);
    DrainedNowhereElse(l, s);
  }

  /** A stream that ended before its header was whole is reported and let go. */
  lemma SelectedShort(l: Lane, s: StreamId, task: Task)
    requires Inv(l) && Enabled(l, Select(s, task))
    requires forall t, sid, rest :: !Spelled(l.received[s], t, sid, rest)
    ensures l.VerdictOf(s) == Fault(CodingFault(FinishedEarly)) && s in l.ended
    ensures s in Apply(l, Select(s, task)).discarded
  {
    hide ParseHeader, Spelled, Conserved, Typed;
    HeaderExact(l.id, l.received[s]);
  }

  lemma DrainedNowhereElse(l: Lane, s: StreamId)
    requires Inv(l) && s in l.drained
    ensures s in l.received && s !in l.delivered && s !in l.discarded
    ensures l.encoder != Some(s) && l.decoder != Some(s) && l.push != Some(s)
  {
    hide Typed;
    assert Places(l, s) == Count(s in l.received);
  }

  // ---- Whole runs ----

  /** Under every interleaving of arrivals, bytes and polls, from the start on. */
  lemma {:induction false} RunInv(l: Lane, es: seq<Event>)
    requires Inv(l) && Legal(l, es)
    ensures Inv(Replay(l, es))
    decreases es
  {
    hide Inv, Apply, Enabled;
    if es != [] {
      ApplyInv(l, es[0]);
      RunInv(Apply(l, es[0]), es[1..]);
    }
  }

  /** The streams delivered by a run, with the task each went to. */
  function Deliveries(l: Lane, es: seq<Event>): seq<(StreamId, Task)>
    requires Legal(l, es)
    decreases es
  {
    if es == [] then []
    else
      var rest := Deliveries(Apply(l, es[0]), es[1..]);
      if es[0].Select? && es[0].s in Apply(l, es[0]).delivered then [(es[0].s, es[0].task)] + rest else rest
  }

  /** A run delivers no stream twice, nor one that was delivered before it; what it
      delivers stays delivered to that task, and nothing else is added. */
  lemma {:induction false} DeliveredOnce(l: Lane, es: seq<Event>)
    requires Inv(l) && Legal(l, es)
    ensures var ds, m := Deliveries(l, es), Replay(l, es);
            && (forall i :: 0 <= i < |ds| ==> ds[i].0 !in l.delivered)
            && (forall i, j :: 0 <= i < j < |ds| ==> ds[i].0 != ds[j].0)
            && (forall i :: 0 <= i < |ds| ==> ds[i].0 in m.delivered && m.delivered[ds[i].0] == ds[i].1)
            && (forall s :: s in l.delivered ==> s in m.delivered && m.delivered[s] == l.delivered[s])
            && (forall s :: s in m.delivered ==> s in l.delivered || (s, m.delivered[s]) in ds)
    decreases es
  {
    hide Inv, Apply, Enabled;
    if es != [] {
      var e, next := es[0], Apply(l, es[0]);
      ApplyInv(l, e);
      ApplyDelivers(l, e);
      DeliveredOnce(next, es[1..]);
      var tail, ds, m := Deliveries(next, es[1..]), Deliveries(l, es), Replay(l, es);
      assert ds == if e.Select? && e.s in next.delivered then [(e.s, e.task)] + tail else tail;
      forall s | s in m.delivered && s !in l.delivered ensures (s, m.delivered[s]) in ds {
        if s in next.delivered {
          assert ds[0] == (s, m.delivered[s]);
        } else {
          assert (s, m.delivered[s]) in tail;
        }
      }
    }
  }

  /** One event delivers at most the stream it selects, which was not delivered before. */
  lemma ApplyDelivers(l: Lane, e: Event)
    requires Inv(l) && Enabled(l, e)
    ensures var m := Apply(l, e).delivered;
            if e.Select? then e.s !in l.delivered && (m == l.delivered || m == l.delivered[e.s := e.task])
            else m == l.delivered
  {
    hide Inv, Judge;
    if e.Select? {
      DrainedNowhereElse(l, e.s);
    }
  }

  /** The whole of it, for the runs of an acceptor from its creation: every arrived
      stream is in exactly one place, every delivery is the only one of its stream,
      and every delivered stream has the WebTransport type and this session's id. */
  lemma WholeRun(kind: Kind, id: varint, es: seq<Event>)
    requires Legal(Initial(kind, id), es)
    ensures var l, ds := Replay(Initial(kind, id), es), Deliveries(Initial(kind, id), es);
            && (forall s :: Places(l, s) == Count(s in l.received))
            && (forall i, j :: 0 <= i < j < |ds| ==> ds[i].0 != ds[j].0)
            && (forall i :: 0 <= i < |ds| ==> ds[i].0 in l.delivered && l.delivered[ds[i].0] == ds[i].1)
            && (forall s :: s in l.delivered ==> (s, l.delivered[s]) in ds)
            && (forall s :: s in l.delivered ==> Carries(l, s))
  {
    hide Places, HasType, Deliveries, Replay, Carries;
    InitialInv(kind, id);
    RunInv(Initial(kind, id), es);
    DeliveredOnce(Initial(kind, id), es);
    var l := Replay(Initial(kind, id), es);
    forall s | s in l.delivered ensures Carries(l, s) {
      DeliverableCarries(l, s);
    }
  }
}
