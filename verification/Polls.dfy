/**
  What one poll of an acceptor may do, and how far repeated polls get while the
  network goes on acting between them.
 */
module Polls {
  import opened Words
  import opened Coding
  import opened Streams
  import opened Lanes

  datatype PollResult = Pending | Delivered(s: StreamId) | Reported(error: WTError)

  /** The steps a poll takes itself. */
  predicate Own(e: Event, task: Task) {
    e == Drain || (e.Select? && e.task == task)
  }

  /** A step that does not end a poll: a drained arrival, or a finished stream of this
      session with some other type. */
  predicate Passes(l: Lane, e: Event) {
    e.Select? ==>
      && e.s in l.received
      && l.VerdictOf(e.s).Header?
      && FateOf(l.kind, l.VerdictOf(e.s).stype) != Deliver
  }

  /** Nothing to drain, nothing finished. */
  predicate Idle(l: Lane) {
    l.queue == [] && forall s :: s in l.drained ==> !l.Finished(s)
  }

  /** `es` is what a poll by `task` does on lane `l` when it returns `r`: passing steps
      until nothing is left to do, or up to the first stream that is delivered or
      whose decoder failed. */
  predicate IsPoll(l: Lane, task: Task, es: seq<Event>, r: PollResult) {
    && Legal(l, es)
    && (forall i :: 0 <= i < |es| ==> Own(es[i], task))
    && match r
       case Pending => Idle(Replay(l, es)) && forall i :: 0 <= i < |es| ==> Passes(l, es[i])
       case Delivered(s) =>
         && es != [] && es[|es| - 1] == Select(s, task)
         && s in l.received && HasType(l, s, Deliver)
         && forall i :: 0 <= i < |es| - 1 ==> Passes(l, es[i])
       case Reported(e) =>
         && es != [] && es[|es| - 1].Select?
         && es[|es| - 1].s in l.received && l.VerdictOf(es[|es| - 1].s) == Fault(e)
         && forall i :: 0 <= i < |es| - 1 ==> Passes(l, es[i])
  }

  /** A poll ends with the first stream that is fit to be delivered or whose decoder
      failed, and returns exactly that; otherwise it is pending, with nothing left. */
  lemma PollEnds(l: Lane, task: Task, es: seq<Event>, r: PollResult)
    requires IsPoll(l, task, es, r)
    ensures forall i :: 0 <= i < |es| && es[i].Select? ==>
              && es[i].task == task && es[i].s in l.received
              && (HasType(l, es[i].s, Deliver) ==> i == |es| - 1 && r == Delivered(es[i].s))
              && (l.VerdictOf(es[i].s).Fault? ==> i == |es| - 1 && r == Reported(l.VerdictOf(es[i].s).error))
    ensures r == Pending ==> Replay(l, es).queue == [] && forall s :: s in Replay(l, es).drained ==> !Replay(l, es).Finished(s)
    ensures r.Delivered? ==> es != [] && es[|es| - 1] == Select(r.s, task) && HasType(l, r.s, Deliver)
    ensures r.Reported? ==>
              && es != [] && es[|es| - 1].Select? && es[|es| - 1].s in l.received
              && l.VerdictOf(es[|es| - 1].s) == Fault(r.error)
  {
    hide ParseHeader, Legal, Replay;
  }

  /** The streams not yet selected whose decoders are finished. */
  function Pool(l: Lane): set<StreamId> {
    set s | s in l.received && (s in l.queue || s in l.drained) && l.Finished(s)
  }

  /** All the streams not yet selected, finished or stalled. */
  function Held(l: Lane): set<StreamId> {
    l.drained + set s | s in l.queue
  }

  function Selections(es: seq<Event>): nat {
    if es == [] then 0 else Count(es[0].Select?) + Selections(es[1..])
  }

  // ---- Steps of a poll ----

  lemma SelectDelivers(l: Lane, s: StreamId, task: Task)
    requires Enabled(l, Select(s, task)) && HasType(l, s, Deliver)
    ensures s in Apply(l, Select(s, task)).delivered
  {
    hide ParseHeader;
  }

  lemma OwnStep(l: Lane, e: Event, task: Task)
    requires Inv(l) && Enabled(l, e) && Own(e, task)
    ensures var m := Apply(l, e);
            && m.received == l.received && m.ended == l.ended && m.id == l.id && m.kind == l.kind
            && Pool(m) == (if e.Select? then Pool(l) - {e.s} else Pool(l))
            && Held(m) == (if e.Select? then Held(l) - {e.s} else Held(l))
            && (e.Select? ==> e.s in Held(l))
            && (e.Select? ==> e.s in Pool(l) && (HasType(l, e.s, Deliver) ==> e.s in m.delivered))
  {
    hide Typed, Conserved, Judge, FateOf, Pool, Held, HasType, Lane.Finished;
    if e.Select? {
      SelectPool(l, e.s, task);
      if HasType(l, e.s, Deliver) {
        SelectDelivers(l, e.s, e.task);
      }
    } else {
      DrainPool(l);
    }
  }

  lemma DrainPool(l: Lane)
    requires Enabled(l, Drain)
    ensures Pool(Apply(l, Drain)) == Pool(l) && Held(Apply(l, Drain)) == Held(l)
  {
    hide Judge;
    assert forall s :: s in l.queue <==> s == l.queue[0] || s in l.queue[1..];
  }

  lemma SelectPool(l: Lane, s: StreamId, task: Task)
    requires Conserved(l) && Enabled(l, Select(s, task))
    ensures Pool(Apply(l, Select(s, task))) == Pool(l) - {s} && s in Pool(l)
    ensures Held(Apply(l, Select(s, task))) == Held(l) - {s} && s in Held(l)
  {
    hide Judge, FateOf, ParseHeader, Conserved, Places;
    SelectedNotQueued(l, s);
  }

  lemma SelectedNotQueued(l: Lane, s: StreamId)
    requires Conserved(l) && s in l.drained
    ensures s !in l.queue && s in l.received
  {
    assert Places(l, s) == Count(s in l.received);
  }

  /** Along the steps of polls the pool shrinks by one stream a selection, and every
      WebTransport stream that leaves it is delivered. */
  lemma {:induction false} OwnSteps(l: Lane, es: seq<Event>, task: Task)
    requires Inv(l) && Legal(l, es) && forall i :: 0 <= i < |es| ==> Own(es[i], task)
    ensures var m := Replay(l, es);
            && Inv(m) && m.received == l.received && m.ended == l.ended && m.id == l.id && m.kind == l.kind
            && Pool(m) <= Pool(l) && |Pool(l)| == |Pool(m)| + Selections(es)
            && |Held(l)| == |Held(m)| + Selections(es)
            && (forall s :: s in l.delivered ==> s in m.delivered)
            && (forall s :: s in Pool(l) && s !in Pool(m) && HasType(l, s, Deliver) ==> s in m.delivered)
    decreases es
  {
    hide Inv, Pool, Held, Apply, Enabled;
    if es != [] {
      var e, next := es[0], Apply(l, es[0]);
      ApplyInv(l, e);
      ApplyDelivers(l, e);
      OwnStep(l, e, task);
      OwnSteps(next, es[1..], task);
      SameTypes(l, next);
    }
  }

  /** What a poll does on a closed connection delivers nothing and lets go of nothing. */
  lemma {:induction false} DrainsDeliverNothing(l: Lane, es: seq<Event>)
    requires Legal(l, es) && forall i :: 0 <= i < |es| ==> es[i] == Drain
    ensures var m := Replay(l, es);
            m.delivered == l.delivered && m.discarded == l.discarded && Held(m) == Held(l)
    decreases es
  {
    hide Held;
    if es != [] {
      DrainPool(l);
      DrainsDeliverNothing(Apply(l, Drain), es[1..]);
    }
  }

  lemma SameTypes(l: Lane, m: Lane)
    requires m.received == l.received && m.id == l.id && m.kind == l.kind
    ensures forall s, fate :: HasType(m, s, fate) <==> HasType(l, s, fate)
  {
  }

  /** A poll that returns anything has taken a finished stream out of the pool; one
      that is pending has left none in it. */
  lemma PollProgress(l: Lane, task: Task, es: seq<Event>, r: PollResult)
    requires Inv(l) && IsPoll(l, task, es, r)
    ensures var m := Replay(l, es);
            && Inv(m) && Pool(m) <= Pool(l)
            && (if r == Pending then Pool(m) == {} else |Pool(m)| < |Pool(l)|)
            && (forall s :: s in l.delivered ==> s in m.delivered)
            && (forall s :: s in Pool(l) && s !in Pool(m) && HasType(l, s, Deliver) ==> s in m.delivered)
  {
    hide Inv, Judge, Enabled, Apply;
    OwnSteps(l, es, task);
    if r != Pending {
      LastSelects(es);
    }
  }

  lemma {:induction false} LastSelects(es: seq<Event>)
    requires es != [] && es[|es| - 1].Select?
    ensures Selections(es) > 0
  {
    if |es| > 1 {
      LastSelects(es[1..]);
    }
  }

  // ---- Runs of polls and of the network ----

  /** One turn of a run: a task polls, or the network acts between two polls. */
  datatype Turn =
    | Polled(task: Task, steps: seq<Event>, result: PollResult)
    | Acted(event: Event)

  predicate Taken(l: Lane, t: Turn) {
    match t
    case Polled(task, steps, result) => IsPoll(l, task, steps, result)
    case Acted(e) => !e.Drain? && !e.Select? && Enabled(l, e)
  }

  /** The events of a turn. */
  function Steps(t: Turn): seq<Event> {
    match t
    case Polled(_, steps, _) => steps
    case Acted(e) => [e]
  }

  lemma TakenLegal(l: Lane, t: Turn)
    requires Taken(l, t)
    ensures Legal(l, Steps(t))
  {
    if t.Acted? {
      assert [t.event][1..] == [];
    }
  }

  function Next(l: Lane, t: Turn): Lane
    requires Taken(l, t)
  {
    TakenLegal(l, t);
    Replay(l, Steps(t))
  }

  /** A run: turns one after the other, each from where the last one ended. */
  predicate TurnRun(l: Lane, ts: seq<Turn>)
    decreases ts
  {
    ts == [] || (Taken(l, ts[0]) && TurnRun(Next(l, ts[0]), ts[1..]))
  }

  function After(l: Lane, ts: seq<Turn>): Lane
    requires TurnRun(l, ts)
    decreases ts
  {
    if ts == [] then l else After(Next(l, ts[0]), ts[1..])
  }

  function PollCount(ts: seq<Turn>): nat {
    if ts == [] then 0 else Count(ts[0].Polled?) + PollCount(ts[1..])
  }

  function Arrivals(ts: seq<Turn>): nat {
    if ts == [] then 0 else Count(ts[0].Acted? && ts[0].event.Arrive?) + Arrivals(ts[1..])
  }

  /** The network's turn is what finishes a stream that is still held. */
  predicate Finishes(l: Lane, t: Turn)
    requires Taken(l, t)
  {
    t.Acted? && t.event.s !in Pool(l) && t.event.s in Pool(Next(l, t))
  }

  /** How many streams finish along a run. */
  function Finishing(l: Lane, ts: seq<Turn>): nat
    requires TurnRun(l, ts)
    decreases ts
  {
    if ts == [] then 0 else Count(Finishes(l, ts[0])) + Finishing(Next(l, ts[0]), ts[1..])
  }

  // ---- One turn ----

  lemma NetworkNext(l: Lane, e: Event)
    requires Taken(l, Acted(e))
    ensures Next(l, Acted(e)) == Apply(l, e)
  {
    hide Apply, Enabled;
    assert [e][0] == e && [e][1..] == [];
    assert Replay(Apply(l, e), []) == Apply(l, e);
  }

  lemma FinishedStays(l: Lane, e: Event, s: StreamId)
    requires Enabled(l, e) && l.Finished(s)
    ensures Apply(l, e).Finished(s)
  {
    hide ParseHeader;
    if e.Receive? && e.s == s {
      HeaderStable(l.id, l.received[s], e.chunk);
    }
  }

  /** The network takes nothing out of the pool, and brings at most one stream in. */
  lemma NetworkPool(l: Lane, e: Event)
    requires Taken(l, Acted(e))
    ensures var m := Apply(l, e);
            && Pool(m) == (if e.s !in Pool(l) && e.s in Pool(m) then Pool(l) + {e.s} else Pool(l))
            && Held(m) == (if e.Arrive? then Held(l) + {e.s} else Held(l))
  {
    hide Judge;
    forall s | s in Pool(l) ensures s in Pool(Apply(l, e)) {
      FinishedStays(l, e, s);
    }
  }

  lemma NetworkTurn(l: Lane, e: Event)
    requires Inv(l) && Taken(l, Acted(e))
    ensures var m := Next(l, Acted(e));
            && Inv(m) && Pool(l) <= Pool(m) && l.delivered == m.delivered
            && |Pool(m)| == |Pool(l)| + Count(Finishes(l, Acted(e)))
            && |Held(m)| <= |Held(l)| + Count(e.Arrive?)
            && (forall s :: HasType(l, s, Deliver) ==> HasType(m, s, Deliver))
  {
    hide Inv, Pool, Held, HasType, Apply, Enabled;
    NetworkNext(l, e);
    ApplyInv(l, e);
    ApplyDelivers(l, e);
    NetworkPool(l, e);
    forall s | HasType(l, s, Deliver) ensures HasType(Apply(l, e), s, Deliver) {
      TypeStays(l, e, s, Deliver);
    }
  }

  /** A turn keeps what was delivered, and takes a WebTransport stream out of the pool
      only to deliver it.  A poll shrinks the pool unless it leaves it empty. */
  lemma TurnProgress(l: Lane, t: Turn)
    requires Inv(l) && Taken(l, t)
    ensures var m := Next(l, t);
            && Inv(m)
            && (forall s :: s in l.delivered ==> s in m.delivered)
            && (forall s :: HasType(l, s, Deliver) ==> HasType(m, s, Deliver))
            && (forall s :: s in Pool(l) && HasType(l, s, Deliver) ==> s in Pool(m) || s in m.delivered)
            && (t.Polled? ==> Pool(m) == {} || |Pool(m)| < |Pool(l)|)
            && (t.Polled? ==> |Held(l)| - |Pool(l)| == |Held(m)| - |Pool(m)|)
            && (t.Acted? ==> |Pool(m)| == |Pool(l)| + Count(Finishes(l, t)))
            && (t.Acted? ==> |Held(m)| <= |Held(l)| + Count(t.event.Arrive?))
  {
    hide Inv, Pool, Held, HasType, Idle, Own, Passes, Finishes;
    match t
    case Polled(task, steps, result) =>
      PollProgress(l, task, steps, result);
      OwnSteps(l, steps, task);
      SameTypes(l, Replay(l, steps));
    case Acted(e) => NetworkTurn(l, e);
  }

  // ---- Progress ----

  /** Along every run, whatever arrives, whatever bytes come and whatever ends between
      the polls: a finished WebTransport stream is delivered once there were as many
      polls as streams finished before the run and on the way. */
  lemma {:induction false} FinishedDelivered(l: Lane, ts: seq<Turn>, s: StreamId)
    requires Inv(l) && TurnRun(l, ts) && HasType(l, s, Deliver)
    requires s in l.delivered || (s in Pool(l) && PollCount(ts) >= |Pool(l)| + Finishing(l, ts))
    ensures s in After(l, ts).delivered
    decreases ts
  {
    hide Inv, Pool, HasType, Taken, Next, Finishes;
    if ts == [] {
      assert s in l.delivered || |Pool(l)| > 0;
    } else {
      TurnProgress(l, ts[0]);
      FinishedDelivered(Next(l, ts[0]), ts[1..], s);
    }
  }

  /** No more streams finish than are held at first or arrive. */
  lemma {:induction false} FinishingAtMostHeld(l: Lane, ts: seq<Turn>)
    requires Inv(l) && TurnRun(l, ts)
    ensures |Pool(l)| + Finishing(l, ts) <= |Held(l)| + Arrivals(ts)
    decreases ts
  {
    hide Inv, HasType, Taken, Next, Lane.Finished;
    if ts == [] {
      PoolIsHeld(l);
    } else {
      hide Pool, Held;
      TurnProgress(l, ts[0]);
      FinishingAtMostHeld(Next(l, ts[0]), ts[1..]);
    }
  }

  lemma PoolIsHeld(l: Lane)
    ensures Pool(l) <= Held(l) && |Pool(l)| <= |Held(l)|
  {
    hide Lane.Finished;
    assert Held(l) == Pool(l) + (Held(l) - Pool(l));
  }

  /** The events of a run, in order: a run is one of those of which safety is proved. */
  function EventsOf(ts: seq<Turn>): seq<Event> {
    if ts == [] then [] else Steps(ts[0]) + EventsOf(ts[1..])
  }

  lemma {:induction false} RunsAreLegal(l: Lane, ts: seq<Turn>)
    requires TurnRun(l, ts)
    ensures Legal(l, EventsOf(ts)) && Replay(l, EventsOf(ts)) == After(l, ts)
    decreases ts
  {
    hide Taken, Steps, Enabled, Apply;
    if ts != [] {
      TakenLegal(l, ts[0]);
      RunsAreLegal(Next(l, ts[0]), ts[1..]);
      ReplayConcat(l, Steps(ts[0]), EventsOf(ts[1..]));
    }
  }

  /** Progress on a live connection, from its creation on: at any moment of any run, a
      finished WebTransport stream is delivered by the time there were as many polls as
      streams are then held, stalled ones included, or arrive later. */
  lemma LivePollsDeliver(kind: Kind, id: varint, past: seq<Turn>, ts: seq<Turn>)
    requires TurnRun(Initial(kind, id), past)
    requires var l := After(Initial(kind, id), past);
             TurnRun(l, ts) && PollCount(ts) >= |Held(l)| + Arrivals(ts)
    ensures var l := After(Initial(kind, id), past);
            forall s :: s in Pool(l) && HasType(l, s, Deliver) ==> s in After(l, ts).delivered
  {
    hide Inv, Pool, Held, HasType, TurnRun, After, Finishing, PollCount, Arrivals, Legal, Replay;
    var l := After(Initial(kind, id), past);
    InitialInv(kind, id);
    RunsAreLegal(Initial(kind, id), past);
    RunInv(Initial(kind, id), EventsOf(past));
    FinishingAtMostHeld(l, ts);
    forall s | s in Pool(l) && HasType(l, s, Deliver) ensures s in After(l, ts).delivered {
      FinishedDelivered(l, ts, s);
    }
  }

  /** While nothing comes at all, as many polls as there are finished streams, by any
      tasks and with any choices among the finished ones, resolve them all and deliver
      every WebTransport stream among them, however many streams are stalled. */
  lemma {:induction false} PollsDeliver(l: Lane, ts: seq<Turn>)
    requires Inv(l) && TurnRun(l, ts) && |ts| >= |Pool(l)|
    requires forall i :: 0 <= i < |ts| ==> ts[i].Polled?
    ensures Pool(After(l, ts)) == {}
    ensures forall s :: s in Pool(l) && HasType(l, s, Deliver) ==> s in After(l, ts).delivered
    ensures forall s :: s in l.delivered ==> s in After(l, ts).delivered
    decreases ts
  {
    hide Inv, Pool, HasType, Taken, Next;
    if ts != [] {
      TurnProgress(l, ts[0]);
      PollsDeliver(Next(l, ts[0]), ts[1..]);
    }
  }
}
