/**
  The acceptor of a connection: what each of its polls does to the two lanes.  Clones
  share it behind a mutex, so every poll runs alone; between polls the network acts.
 */
module Accept {
  import opened Words
  import opened Coding
  import opened Lanes
  import opened Polls

  /** What polling an asynchronous operation yields. */
  datatype Async<+T> = NotReady | Ready(value: T)

  /** The connection's arrivals in one direction, in the order they come. */
  class Incoming {
    var queue: seq<StreamId>
    var received: map<StreamId, seq<byte>>
    var ended: set<StreamId>
    var closed: bool

    constructor ()
      ensures queue == [] && received == map[] && ended == {} && !closed
    {
      queue, received, ended, closed := [], map[], {}, false;
    }

    /** The next stream, as a future of the connection: an error once it is closed. */
    method PollNext() returns (r: Async<Result<StreamId, WTError>>)
      modifies this`queue
      ensures old(queue) != [] ==> r == Ready(Ok(old(queue)[0])) && queue == old(queue)[1..]
      ensures old(queue) == [] ==> queue == [] && r == if closed then Ready(Err(ConnectionError)) else NotReady
    {
      if queue != [] {
        r := Ready(Ok(queue[0]));
        queue := queue[1..];
      } else {
        r := if closed then Ready(Err(ConnectionError)) else NotReady;
      }
    }

    /** The connection is lost or closed, which it stays. */
    method Close()
      modifies this`closed
      ensures closed
    {
      closed := true;
    }
  }

  class WTAccept {
    const id: varint

    // Decoders suspended on streams that were drained.
    var drainedUni: set<StreamId>
    var drainedBi: set<StreamId>

    const uni: Incoming
    const bi: Incoming

    var qpackEncoder: Option<StreamId>
    var qpackDecoder: Option<StreamId>
    var push: Option<StreamId>

    // What left the acceptor: streams handed to tasks, and streams let go.
    ghost var deliveredUni: map<StreamId, Task>
    ghost var deliveredBi: map<StreamId, Task>
    ghost var discardedUni: set<StreamId>
    ghost var discardedBi: set<StreamId>

    ghost function UniLane(): Lane
      reads this, uni
    {
      Lane(Uni, id, uni.queue, drainedUni, qpackEncoder, qpackDecoder, push,
           deliveredUni, discardedUni, uni.received, uni.ended)
    }

    ghost function BiLane(): Lane
      reads this, bi
    {
      Lane(Bi, id, bi.queue, drainedBi, None, None, None, deliveredBi, discardedBi, bi.received, bi.ended)
    }

    ghost predicate Valid()
      reads this, uni, bi
    {
      uni != bi && Inv(UniLane()) && Inv(BiLane())
    }

    constructor (id: varint)
      ensures Valid() && fresh(uni) && fresh(bi)
      ensures UniLane() == Initial(Uni, id) && BiLane() == Initial(Bi, id)
      ensures !uni.closed && !bi.closed
    {
      this.id := id;
      drainedUni, drainedBi := {}, {};
      uni := new Incoming();
      bi := new Incoming();
      qpackEncoder, qpackDecoder, push := None, None, None;
      deliveredUni, deliveredBi, discardedUni, discardedBi := map[], map[], {}, {};
      new;
      InitialInv(Uni, id);
      InitialInv(Bi, id);
    }

    /** The connection closes, for streams of both kinds at once. */
    method NetworkClose()
      requires Valid()
      modifies uni`closed, bi`closed
      ensures Valid() && UniLane() == old(UniLane()) && BiLane() == old(BiLane())
      ensures uni.closed && bi.closed
    {
      uni.Close();
      bi.Close();
    }

    /** The decoder of a stream has an outcome. */
    predicate Resolved(incoming: Incoming, s: StreamId)
      reads incoming
    {
      s in incoming.received && Judge(id, incoming.received[s], s in incoming.ended) != Waiting
    }

    // ---- Unidirectional streams ----

    /** The network acts between polls. */
    method NetworkUni(e: Event)
      requires Valid() && Enabled(UniLane(), e) && !e.Drain? && !e.Select?
      modifies uni`queue, uni`received, uni`ended
      ensures Valid() && UniLane() == Apply(old(UniLane()), e) && BiLane() == old(BiLane())
    {
      hide Inv, Judge;
      ApplyInv(UniLane(), e);
      match e {
        case Arrive(s) => uni.queue, uni.received := uni.queue + [s], uni.received[s := []];
        case Receive(s, chunk) => uni.received := uni.received[s := uni.received[s] + chunk];
        case End(s) => uni.ended := uni.ended + {s};
        case _ =>
      }
    }

    /** Moves every arrival into the set of suspended decoders. */
    method DrainUni() returns (r: Result<(), WTError>, ghost es: seq<Event>)
      requires Valid()
      modifies this`drainedUni, uni`queue
      ensures Legal(old(UniLane()), es) && Replay(old(UniLane()), es) == UniLane()
      ensures forall i :: 0 <= i < |es| ==> es[i] == Drain
      ensures uni.queue == [] && |drainedUni| <= |old(drainedUni)| + |old(uni.queue)|
      ensures r == if uni.closed then Err(ConnectionError) else Ok(())
    {
      hide Places, Typed, HasType, Judge;
      ghost var start := UniLane();
      es := [];
      while true
        invariant Legal(start, es) && Replay(start, es) == UniLane()
        invariant forall i :: 0 <= i < |es| ==> es[i] == Drain
        invariant |drainedUni| + |uni.queue| <= |old(drainedUni)| + |old(uni.queue)|
        decreases |uni.queue|
      {
        var s := uni.PollNext();
        match s {
          case NotReady => return Ok(()), es;
          case Ready(Err(e)) => return Err(e), es;
          case Ready(Ok(stream)) =>
            drainedUni := drainedUni + {stream};
            ReplayAppend(start, es, Drain);
            es := es + [Drain];
        }
      }
    }

    /** Takes some finished decoder out of the set, if there is one. */
    method SelectUni() returns (r: Async<Result<(varint, StreamId), WTError>>, ghost picked: StreamId)
      modifies this`drainedUni
      ensures r == NotReady ==> drainedUni == old(drainedUni) && forall s :: s in drainedUni ==> !UniLane().Finished(s)
      ensures r != NotReady ==>
                && picked in old(drainedUni) && drainedUni == old(drainedUni) - {picked}
                && UniLane().Finished(picked) && r.value == Outcome(UniLane().VerdictOf(picked), picked)
    {
      hide Judge;
      picked := 0;
      if s :| s in drainedUni && Resolved(uni, s) {
        picked := s;
        drainedUni := drainedUni - {s};
        r := Ready(Outcome(Judge(id, uni.received[s], s in uni.ended), s));
      } else {
        r := NotReady;
      }
    }

    /** Keeps a stream in a placeholder, so that it is not closed; the one held before is. */
    method Store(slot: Slot, stream: StreamId)
      modifies this`qpackEncoder, this`qpackDecoder, this`push, this`discardedUni
      ensures UniLane() == old(UniLane()).Parking(slot, stream)
    {
      match slot {
        case Encoder =>
          discardedUni := discardedUni + HeldIn(qpackEncoder);
          qpackEncoder := Some(stream);
        case Decoder =>
          discardedUni := discardedUni + HeldIn(qpackDecoder);
          qpackDecoder := Some(stream);
        case Pushed =>
          discardedUni := discardedUni + HeldIn(push);
          push := Some(stream);
      }
    }

    /** One poll: drains, then selects until a stream of this session and type turns
        up, a decoder failed, or none is finished.  On a closed connection it only drains,
        and reports that the connection is lost, whatever is finished. */
    method PollAcceptUni(task: Task) returns (r: Async<Result<StreamId, WTError>>, ghost es: seq<Event>)
      requires Valid()
      modifies this, uni`queue
      ensures Valid() && BiLane() == old(BiLane())
      ensures Legal(old(UniLane()), es) && Replay(old(UniLane()), es) == UniLane()
      ensures uni.queue == []
      ensures uni.closed <==> r == Ready(Err(ConnectionError))
      ensures if uni.closed then forall i :: 0 <= i < |es| ==> es[i] == Drain
              else IsPoll(old(UniLane()), task, es, ResultOf(r))
    {
      hide Inv, Apply, Enabled, Judge, HasType, IsPoll, Passing, Legal, Replay, Lane.Parking;
      ghost var start := UniLane();
      es := [];
      NoSteps(start, task);
      while true
        invariant Valid() && BiLane() == old(BiLane())
        invariant uni.closed ==> es == []
        invariant Legal(start, es) && Passing(start, es, task) && Replay(start, es) == UniLane()
        decreases |uni.queue| + |drainedUni|
      {
        ghost var ds, picked;
        var drained, selected;
        drained, ds := DrainUni();
        DrainedSteps(start, es, ds, task);
        es := es + ds;
        if drained.Err? {
          return Ready(Err(drained.error)), es;
        }
        ghost var before := UniLane();
        selected, picked := SelectUni();
        if selected == NotReady {
          NothingLeft(start, es, task);
          return NotReady, es;
        }
        SelectedStep(start, es, picked, task);
        SelectStep(before, picked, task);
        es := es + [Select(picked, task)];
        match selected.value {
          case Err(e) =>
            discardedUni := discardedUni + {picked};
            return Ready(Err(e)), es;
          case Ok((stype, stream)) =>
            match stype {
              case 0x54 =>
                deliveredUni := deliveredUni[stream := task];
                return Ready(Ok(stream)), es;
              case 0x02 => Store(Encoder, stream);
              case 0x03 => Store(Decoder, stream);
              case 0x01 => Store(Pushed, stream);
              case _ =>
                discardedUni := discardedUni + {stream};
            }
        }
      }
    }

    // ---- Bidirectional streams ----

    /** The network acts between polls. */
    method NetworkBi(e: Event)
      requires Valid() && Enabled(BiLane(), e) && !e.Drain? && !e.Select?
      modifies bi`queue, bi`received, bi`ended
      ensures Valid() && BiLane() == Apply(old(BiLane()), e) && UniLane() == old(UniLane())
    {
      hide Inv, Judge;
      ApplyInv(BiLane(), e);
      match e {
        case Arrive(s) => bi.queue, bi.received := bi.queue + [s], bi.received[s := []];
        case Receive(s, chunk) => bi.received := bi.received[s := bi.received[s] + chunk];
        case End(s) => bi.ended := bi.ended + {s};
        case _ =>
      }
    }

    /** Moves every arrival into the set of suspended decoders. */
    method DrainBi() returns (r: Result<(), WTError>, ghost es: seq<Event>)
      requires Valid()
      modifies this`drainedBi, bi`queue
      ensures Legal(old(BiLane()), es) && Replay(old(BiLane()), es) == BiLane()
      ensures forall i :: 0 <= i < |es| ==> es[i] == Drain
      ensures bi.queue == [] && |drainedBi| <= |old(drainedBi)| + |old(bi.queue)|
      ensures r == if bi.closed then Err(ConnectionError) else Ok(())
    {
      hide Places, Typed, HasType, Judge;
      ghost var start := BiLane();
      es := [];
      while true
        invariant Legal(start, es) && Replay(start, es) == BiLane()
        invariant forall i :: 0 <= i < |es| ==> es[i] == Drain
        invariant |drainedBi| + |bi.queue| <= |old(drainedBi)| + |old(bi.queue)|
        decreases |bi.queue|
      {
        var s := bi.PollNext();
        match s {
          case NotReady => return Ok(()), es;
          case Ready(Err(e)) => return Err(e), es;
          case Ready(Ok(stream)) =>
            drainedBi := drainedBi + {stream};
            ReplayAppend(start, es, Drain);
            es := es + [Drain];
        }
      }
    }

    /** Takes some finished decoder out of the set, if there is one. */
    method SelectBi() returns (r: Async<Result<(varint, StreamId), WTError>>, ghost picked: StreamId)
      modifies this`drainedBi
      ensures r == NotReady ==> drainedBi == old(drainedBi) && forall s :: s in drainedBi ==> !BiLane().Finished(s)
      ensures r != NotReady ==>
                && picked in old(drainedBi) && drainedBi == old(drainedBi) - {picked}
                && BiLane().Finished(picked) && r.value == Outcome(BiLane().VerdictOf(picked), picked)
    {
      hide Judge;
      picked := 0;
      if s :| s in drainedBi && Resolved(bi, s) {
        picked := s;
        drainedBi := drainedBi - {s};
        r := Ready(Outcome(Judge(id, bi.received[s], s in bi.ended), s));
      } else {
        r := NotReady;
      }
    }

    /** One poll: drains, then selects until a stream of this session and type turns
        up, a decoder failed, or none is finished.  On a closed connection it only drains,
        and reports that the connection is lost, whatever is finished. */
    method PollAcceptBi(task: Task) returns (r: Async<Result<StreamId, WTError>>, ghost es: seq<Event>)
      requires Valid()
      modifies this, bi`queue
      ensures Valid() && UniLane() == old(UniLane())
      ensures Legal(old(BiLane()), es) && Replay(old(BiLane()), es) == BiLane()
      ensures bi.queue == []
      ensures bi.closed <==> r == Ready(Err(ConnectionError))
      ensures if bi.closed then forall i :: 0 <= i < |es| ==> es[i] == Drain
              else IsPoll(old(BiLane()), task, es, ResultOf(r))
    {
      hide Inv, Apply, Enabled, Judge, HasType, IsPoll, Passing, Legal, Replay, Lane.Parking;
      ghost var start := BiLane();
      es := [];
      NoSteps(start, task);
      while true
        invariant Valid() && UniLane() == old(UniLane())
        invariant bi.closed ==> es == []
        invariant Legal(start, es) && Passing(start, es, task) && Replay(start, es) == BiLane()
        decreases |bi.queue| + |drainedBi|
      {
        ghost var ds, picked;
        var drained, selected;
        drained, ds := DrainBi();
        DrainedSteps(start, es, ds, task);
        es := es + ds;
        if drained.Err? {
          return Ready(Err(drained.error)), es;
        }
        ghost var before := BiLane();
        selected, picked := SelectBi();
        if selected == NotReady {
          NothingLeft(start, es, task);
          return NotReady, es;
        }
        SelectedStep(start, es, picked, task);
        SelectStep(before, picked, task);
        es := es + [Select(picked, task)];
        match selected.value {
          case Err(e) =>
            discardedBi := discardedBi + {picked};
            return Ready(Err(e)), es;
          case Ok((stype, stream)) =>
            match stype {
              case 0x41 =>
                deliveredBi := deliveredBi[stream := task];
                return Ready(Ok(stream)), es;
              case _ =>
                discardedBi := discardedBi + {stream};
            }
        }
      }
    }
  }

  /** What a finished decoder hands over. */
  function Outcome(v: Verdict, s: StreamId): Result<(varint, StreamId), WTError>
    requires v != Waiting
  {
    match v
    case Header(stype) => Ok((stype, s))
    case Fault(e) => Err(e)
  }

  function ResultOf(r: Async<Result<StreamId, WTError>>): PollResult {
    match r
    case NotReady => Pending
    case Ready(Ok(s)) => Delivered(s)
    case Ready(Err(e)) => Reported(e)
  }

  /** The stream a placeholder holds, which storing another one drops. */
  ghost function HeldIn(o: Option<StreamId>): set<StreamId> {
    if o.Some? then {o.value} else {}
  }

  // ---- The steps of a poll under way ----

  /** Steps of a poll by `task` on `l` that have not ended it. */
  predicate Passing(l: Lane, es: seq<Event>, task: Task) {
    Legal(l, es) && forall i :: 0 <= i < |es| ==> Own(es[i], task) && Passes(l, es[i])
  }

  lemma NoSteps(l: Lane, task: Task)
    requires Inv(l)
    ensures Passing(l, [], task) && Legal(l, []) && Replay(l, []) == l
  {
  }

  lemma DrainedSteps(l: Lane, es: seq<Event>, ds: seq<Event>, task: Task)
    requires Inv(l) && Passing(l, es, task)
    requires Legal(l, es) && Legal(Replay(l, es), ds) && forall i :: 0 <= i < |ds| ==> ds[i] == Drain
    ensures Passing(l, es + ds, task) && Legal(l, es + ds)
    ensures Replay(l, es + ds) == Replay(Replay(l, es), ds) && Inv(Replay(l, es + ds))
  {
    hide Inv, Apply, Enabled;
    ReplayConcat(l, es, ds);
    RunInv(l, es + ds);
  }

  lemma NothingLeft(l: Lane, es: seq<Event>, task: Task)
    requires Passing(l, es, task) && Legal(l, es) && Idle(Replay(l, es))
    ensures IsPoll(l, task, es, Pending)
  {
  }

  /** Selecting a finished stream delivers it, reports its failure, or passes. */
  lemma SelectedStep(l: Lane, es: seq<Event>, s: StreamId, task: Task)
    requires Inv(l) && Passing(l, es, task) && Legal(l, es)
    requires s in Replay(l, es).drained && Replay(l, es).Finished(s)
    ensures var before, done := Replay(l, es), es + [Select(s, task)];
            var v := before.VerdictOf(s);
            && Enabled(before, Select(s, task))
            && Legal(l, done) && Replay(l, done) == Apply(before, Select(s, task)) && Inv(Replay(l, done))
            && (v.Fault? ==> v.error != ConnectionError && IsPoll(l, task, done, Reported(v.error)))
            && (v.Header? && FateOf(l.kind, v.stype) == Deliver ==> IsPoll(l, task, done, Delivered(s)))
            && (v.Header? && FateOf(l.kind, v.stype) != Deliver ==> Passing(l, done, task))
  {
    hide Inv, Apply, Pool;
    OwnSteps(l, es, task);
    SelectStep(Replay(l, es), s, task);
    ReplayAppend(l, es, Select(s, task));
    RunInv(l, es + [Select(s, task)]);
    SameTypes(l, Replay(l, es));
  }

  /** Selecting a finished stream, spelled out by its verdict. */
  lemma SelectStep(l: Lane, s: StreamId, task: Task)
    requires s in l.drained && l.Finished(s)
    ensures Enabled(l, Select(s, task))
    ensures var m, v := l.(drained := l.drained - {s}), l.VerdictOf(s);
            Apply(l, Select(s, task)) ==
            if v.Fault? then m.(discarded := m.discarded + {s})
            else match FateOf(l.kind, v.stype)
                 case Deliver => m.(delivered := m.delivered[s := task])
                 case Park(slot) => m.Parking(slot, s)
                 case Drop => m.(discarded := m.discarded + {s})
    ensures l.VerdictOf(s).Header? ==> HasType(l, s, FateOf(l.kind, l.VerdictOf(s).stype))
    ensures l.VerdictOf(s) != Fault(ConnectionError)
  {
  }
}
