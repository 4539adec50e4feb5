/** The queue of asynchronous events and its delivery between macro statements. */
module EventRing {

  const REGEVTNUM := 32
  const MODULUS := 0x1_0000_0000

  /** What can happen to the queue: an event arrives; or execution comes to the end of a nested list,
      where pending events may be delivered. The k-th event delivered there is handled by handlers[k];
      if there is none, its handling does nothing to the queue. */
  datatype Step = Arrive(event: int) | ListDone(breakReturn: bool, handlers: seq<Handler>)

  /** What happens to the queue while an event is handled. */
  datatype Handler = Handler(steps: seq<Step>)

  datatype Arrival = Arrival(event: int, full: bool)

  /** Events not yet delivered; events delivered so far and events that ever arrived, both in order;
      the depth counter of delivery; and how often a list ended with events pending and did not deliver
      them, because the counter was not zero. */
  datatype Queue = Queue(pending: seq<int>, delivered: seq<int>, arrived: seq<Arrival>, active: nat, missed: nat)

  const EMPTY := Queue([], [], [], 0, 0)

  // ----- What steps do

  function Accept(q: Queue, event: int): Queue {
    if |q.pending| < REGEVTNUM then q.(pending := q.pending + [event], arrived := q.arrived + [Arrival(event, false)])
    else q.(arrived := q.arrived + [Arrival(event, true)])
  }

  function Deliver(q: Queue): Queue
    requires q.pending != []
  {
    q.(pending := q.pending[1..], delivered := q.delivered + [q.pending[0]])
  }

  function Exec(q: Queue, step: Step): Queue
    decreases step, 0
  {
    match step
    case Arrive(event) => Accept(q, event)
    case ListDone(_, handlers) =>
      if q.pending == [] then q
      else if q.active != 0 then q.(active := (q.active + 1) % MODULUS, missed := q.missed + 1)
      else Leave(Drained(q.(active := 1), handlers))
  }

  function Leave(q: Queue): Queue { q.(active := (q.active + MODULUS - 1) % MODULUS) }

  function ExecAll(q: Queue, steps: seq<Step>): Queue
    decreases steps, 0
  {
    if steps == [] then q else ExecAll(Exec(q, steps[0]), steps[1..])
  }

  /** Delivers until nothing is pending, running the handlers. */
  function Drained(q: Queue, handlers: seq<Handler>): Queue
    decreases handlers, |q.pending|
  {
    if q.pending == [] then q
    else if handlers == [] then Drained(Deliver(q), [])
    else Drained(ExecAll(Deliver(q), handlers[0].steps), handlers[1..])
  }

  // ----- The ring

  class EventQueue {
    const queue: array<int>
    var evtno: nat
    var head: nat
    var tail: nat
    var active: nat
    var signal: bool
    ghost var model: Queue

    /** The counters wrap; the ring holds the pending events from head on; the signal bit says whether there are any. */
    ghost predicate Valid()
      reads this, queue
    {
      && queue.Length == REGEVTNUM
      && evtno == |model.pending| <= REGEVTNUM
      && head < MODULUS && tail == (head + evtno) % MODULUS
      && (forall i :: 0 <= i < evtno ==> queue[Slot(head, i)] == model.pending[i])
      && (signal <==> model.pending != [])
      && active == model.active < MODULUS
    }

    constructor ()
      ensures Valid() && fresh(queue) && model == EMPTY
    {
      queue := new int[REGEVTNUM];
      evtno, head, tail, active, signal, model := 0, 0, 0, 0, false, EMPTY;
    }

    /** An event arrives. */
    method ExecuteEvent(event: int)
      requires Valid()
      modifies this, queue
      ensures Valid() && model == Accept(old(model), event)
    {
      hide Slot;
      model := Accept(model, event);
      evtno := evtno + 1;
      if evtno <= REGEVTNUM {
        SlotsDiffer(head, tail, evtno - 1);
        var slot := tail % REGEVTNUM;
        tail := (tail + 1) % MODULUS;
        queue[slot] := event;
        signal := true;
        return;
      }
      evtno := evtno - 1;
    }

    /** Takes the next event out of the ring. */
    method Take() returns (event: int)
      requires Valid() && model.pending != []
      modifies this
      ensures Valid() && model == Deliver(old(model)) && event == old(model).pending[0]
    {
      hide Slot;
      var slot, next := head % REGEVTNUM, (head + 1) % MODULUS;
      NextSlots(head, next, evtno);
      head := next;
      event := queue[slot];
      evtno := evtno - 1;
      if evtno == 0 { signal := false; }
      model := Deliver(model);
    }

    /** One step. */
    method Do(step: Step)
      requires Valid()
      modifies this, queue
      ensures Valid() && model == Exec(old(model), step)
      decreases step, 0
    {
      match step
      case Arrive(event) => ExecuteEvent(event);
      case ListDone(breakReturn, handlers) =>
        if signal || breakReturn {
          if evtno != 0 {
            if active == 0 {
              active := active + 1;
              model := model.(active := 1);
              Drain(handlers);
              active := (active + MODULUS - 1) % MODULUS;
              model := Leave(model);
            } else {
              active := (active + 1) % MODULUS;
              model := model.(active := active, missed := model.missed + 1);
            }
          }
        }
    }

    method DoAll(steps: seq<Step>)
      requires Valid()
      modifies this, queue
      ensures Valid() && model == ExecAll(old(model), steps)
      decreases steps, 0
    {
      if steps != [] {
        Do(steps[0]);
        DoAll(steps[1..]);
      }
    }

    /** Delivers the events pending, and those that arrive meanwhile. */
    method Drain(handlers: seq<Handler>)
      requires Valid()
      modifies this, queue
      ensures Valid() && model == Drained(old(model), handlers)
      decreases handlers, 1
    {
      ghost var all := Drained(model, handlers);
      var k := 0;
      while evtno != 0
        invariant Valid() && 0 <= k <= |handlers| && Drained(model, handlers[k..]) == all
        decreases |handlers| - k, evtno
      {
        var event := Take();
        if k < |handlers| {
          DoAll(handlers[k].steps);
          k := k + 1;
        }
      }
    }
  }

  function Slot(head: nat, i: nat): (slot: nat)
    ensures slot < REGEVTNUM
  {
    (head + i) % REGEVTNUM
  }

  /** The slot at the tail is not that of a pending event, whether or not the counters have wrapped. */
  lemma SlotsDiffer(head: nat, tail: nat, n: nat)
    requires n < REGEVTNUM && head < MODULUS && tail == (head + n) % MODULUS
    ensures tail % REGEVTNUM == Slot(head, n) && (tail + 1) % MODULUS == (head + (n + 1)) % MODULUS
    ensures forall i: nat :: i < n ==> Slot(head, i) != Slot(head, n)
  {
    TailSlot(head, tail, n);
    forall i: nat | i < n ensures Slot(head, i) != Slot(head, n) { Apart(head + i, n - i); }
  }

  lemma TailSlot(head: nat, tail: nat, n: nat)
    requires n < REGEVTNUM && head < MODULUS && tail == (head + n) % MODULUS
    ensures tail % REGEVTNUM == Slot(head, n) && (tail + 1) % MODULUS == (head + (n + 1)) % MODULUS
  {
    assert tail == if head + n < MODULUS then head + n else head + n - MODULUS;
  }

  lemma Apart(a: nat, d: nat)
    requires 0 < d < REGEVTNUM
    ensures a % REGEVTNUM != (a + d) % REGEVTNUM
  {
  }

  lemma NextSlots(head: nat, next: nat, n: nat)
    requires 0 < n && head < MODULUS && next == (head + 1) % MODULUS
    ensures forall i: nat :: Slot(next, i) == Slot(head, i + 1)
    ensures (next + (n - 1)) % MODULUS == (head + n) % MODULUS
    ensures head % REGEVTNUM == Slot(head, 0)
  {
    assert next == if head + 1 < MODULUS then head + 1 else head + 1 - MODULUS;
  }

  // ----- Order and loss

  /** The events that did not arrive at a full queue, in order. */
  function Accepted(arrived: seq<Arrival>): seq<int> {
    if arrived == [] then []
    else
      var last := arrived[|arrived| - 1];
      Accepted(arrived[..|arrived| - 1]) + if last.full then [] else [last.event]
  }

  /** Events delivered, and those still to be. */
  function Promised(q: Queue): seq<int> { q.delivered + q.pending }

  /** What was accepted is delivered or pending, in the order of arrival. */
  ghost predicate InOrder(q: Queue) {
    |q.pending| <= REGEVTNUM && Accepted(q.arrived) == Promised(q)
  }

  lemma AcceptKeeps(q: Queue, event: int)
    requires InOrder(q)
    ensures InOrder(Accept(q, event)) && Promised(q) <= Promised(Accept(q, event))
  {
    var r := Accept(q, event);
    assert r.arrived[..|r.arrived| - 1] == q.arrived;
  }

  lemma DeliverKeeps(q: Queue)
    requires InOrder(q) && q.pending != []
    ensures InOrder(Deliver(q)) && Promised(q) == Promised(Deliver(q))
  {
    assert q.pending == [q.pending[0]] + q.pending[1..];
  }

  /** Order is kept by every step, and what was delivered or has arrived is never revised. */
  lemma {:induction false} ExecKeeps(q: Queue, step: Step)
    requires InOrder(q)
    ensures var r := Exec(q, step);
            InOrder(r) && q.delivered <= r.delivered && Promised(q) <= Promised(r) && q.arrived <= r.arrived
    decreases step, 0
  {
    hide InOrder;
    match step
    case Arrive(event) => AcceptKeeps(q, event);
    case ListDone(_, handlers) =>
      SameEvents(q, q.(active := 1));
      SameEvents(q, q.(active := (q.active + 1) % MODULUS, missed := q.missed + 1));
      if q.pending != [] && q.active == 0 {
        DrainedKeeps(q.(active := 1), handlers);
        SameEvents(Drained(q.(active := 1), handlers), Exec(q, step));
      }
  }

  lemma SameEvents(q: Queue, r: Queue)
    requires InOrder(q) && q.pending == r.pending && q.delivered == r.delivered && q.arrived == r.arrived
    ensures InOrder(r) && Promised(q) == Promised(r)
  {
  }

  lemma {:induction false} ExecAllKeeps(q: Queue, steps: seq<Step>)
    requires InOrder(q)
    ensures var r := ExecAll(q, steps);
            InOrder(r) && q.delivered <= r.delivered && Promised(q) <= Promised(r) && q.arrived <= r.arrived
    decreases steps, 0
  {
    hide InOrder, Exec;
    if steps != [] {
      ExecKeeps(q, steps[0]);
      ExecAllKeeps(Exec(q, steps[0]), steps[1..]);
    }
  }

  /** Draining leaves nothing pending: whatever was promised is delivered, in order. */
  lemma {:induction false} DrainedKeeps(q: Queue, handlers: seq<Handler>)
    requires InOrder(q)
    ensures var r := Drained(q, handlers);
            InOrder(r) && r.pending == [] && Promised(q) <= Promised(r) == r.delivered && q.arrived <= r.arrived
    decreases handlers, |q.pending|
  {
    if q.pending != [] {
      DeliverKeeps(q);
      var d := Deliver(q);
      var r := if handlers == [] then d else ExecAll(d, handlers[0].steps);
      if handlers != [] { ExecAllKeeps(d, handlers[0].steps); }
      DrainedKeeps(r, if handlers == [] then [] else handlers[1..]);
    }
  }

  /** Over any run from an empty queue: the events delivered are the first of those accepted, in the
      order of their arrival; at most 32 are pending; an event that found room is never lost. */
  lemma Fifo(steps: seq<Step>)
    ensures var q := ExecAll(EMPTY, steps);
            && q.delivered <= Accepted(q.arrived) && |q.pending| <= 32
            && Accepted(q.arrived) == q.delivered + q.pending
  {
    hide ExecAll;
    ExecAllKeeps(EMPTY, steps);
  }

  /** After any run, an event that arrives is lost if and only if exactly 32 are pending; otherwise it is
      pending after all the others. Nothing is delivered at its arrival. */
  lemma LostIffFull(steps: seq<Step>, event: int)
    ensures var q, r := ExecAll(EMPTY, steps), ExecAll(EMPTY, steps + [Arrive(event)]);
            && |q.pending| <= 32 && r.delivered == q.delivered
            && r.pending == (if |q.pending| == 32 then q.pending else q.pending + [event])
            && Accepted(r.arrived) == Accepted(q.arrived) + if |q.pending| == 32 then [] else [event]
  {
    hide ExecAll, Exec;
    ExecAllKeeps(EMPTY, steps);
    var q := ExecAll(EMPTY, steps);
    ExecLast(EMPTY, steps, Arrive(event));
    var r := Accept(q, event);
    assert Exec(q, Arrive(event)) == r by { ArrivalAccepted(q, event); }
    assert r.arrived[..|r.arrived| - 1] == q.arrived;
  }

  lemma ArrivalAccepted(q: Queue, event: int)
    ensures Exec(q, Arrive(event)) == Accept(q, event)
  {
  }

  lemma {:induction false} ExecLast(q: Queue, steps: seq<Step>, step: Step)
    ensures ExecAll(q, steps + [step]) == Exec(ExecAll(q, steps), step)
    decreases steps
  {
    hide Exec;
    if steps == [] {
      assert [] + [step] == [step] && [step][1..] == [];
    } else {
      ExecLast(Exec(q, steps[0]), steps[1..], step);
      assert (steps + [step])[1..] == steps[1..] + [step];
    }
  }

  // ----- The depth counter

  /** The depth counter never gets back the increments of list ends that failed to deliver. */
  lemma {:induction false} ExecCounts(q: Queue, step: Step)
    requires q.active < MODULUS
    ensures var r := Exec(q, step);
            r.active < MODULUS && q.missed <= r.missed && (r.active - q.active - r.missed + q.missed) % MODULUS == 0
    decreases step, 0
  {
    if step.ListDone? && q.pending != [] && q.active == 0 {
      DrainedCounts(q.(active := 1), step.handlers);
    }
  }

  lemma {:induction false} ExecAllCounts(q: Queue, steps: seq<Step>)
    requires q.active < MODULUS
    ensures var r := ExecAll(q, steps);
            r.active < MODULUS && q.missed <= r.missed && (r.active - q.active - r.missed + q.missed) % MODULUS == 0
    decreases steps, 0
  {
    hide Exec;
    if steps != [] {
      ExecCounts(q, steps[0]);
      ExecAllCounts(Exec(q, steps[0]), steps[1..]);
    }
  }

  lemma {:induction false} DrainedCounts(q: Queue, handlers: seq<Handler>)
    requires q.active < MODULUS
    ensures var r := Drained(q, handlers);
            r.active < MODULUS && q.missed <= r.missed && (r.active - q.active - r.missed + q.missed) % MODULUS == 0
    decreases handlers, |q.pending|
  {
    if q.pending != [] {
      var d := Deliver(q);
      if handlers == [] {
        DrainedCounts(d, []);
      } else {
        ExecAllCounts(d, handlers[0].steps);
        DrainedCounts(ExecAll(d, handlers[0].steps), handlers[1..]);
      }
    }
  }

  /** Outside of any delivery, a list's end delivers everything pending if and only if the earlier
      failures to deliver are a multiple of 2^32 in number: the depth counter is increased for each of
      them and never decreased again. */
  lemma DeliversIff(steps: seq<Step>, breakReturn: bool, handlers: seq<Handler>)
    ensures var q := ExecAll(EMPTY, steps);
            q.pending != [] ==>
              (Exec(q, ListDone(breakReturn, handlers)).pending == [] <==> q.missed % 0x1_0000_0000 == 0)
  {
    hide ExecAll;
    ExecAllCounts(EMPTY, steps);
    ExecAllKeeps(EMPTY, steps);
    var q := ExecAll(EMPTY, steps);
    if q.active == 0 {
      SameEvents(q, q.(active := 1));
      DrainedKeeps(q.(active := 1), handlers);
    }
    CounterIs(q.active, q.missed);
  }

  lemma CounterIs(active: nat, missed: nat)
    requires active < MODULUS && (active - missed) % MODULUS == 0
    ensures active == missed % MODULUS
  {
  }

  // ----- When the first failure comes

  /** What a run does to the events pending if every list that ends outside of any handler delivers them;
      and whether in doing so a list ends inside a running handler with events pending. */
  function Play(pending: seq<int>, inside: bool, step: Step): (seq<int>, bool)
    decreases step, 0
  {
    match step
    case Arrive(event) => (if |pending| < REGEVTNUM then pending + [event] else pending, false)
    case ListDone(_, handlers) =>
      if pending == [] then (pending, false)
      else if inside then (pending, true)
      else PlayDrain(pending, handlers)
  }

  function PlayAll(pending: seq<int>, inside: bool, steps: seq<Step>): (seq<int>, bool)
    decreases steps, 0
  {
    if steps == [] then (pending, false)
    else
      var (next, now) := Play(pending, inside, steps[0]);
      var (end, later) := PlayAll(next, inside, steps[1..]);
      (end, now || later)
  }

  /** The handlers run one after the other, each inside. */
  function PlayDrain(pending: seq<int>, handlers: seq<Handler>): (seq<int>, bool)
    decreases handlers, |pending|
  {
    if pending == [] then (pending, false)
    else if handlers == [] then PlayDrain(pending[1..], [])
    else
      var (next, now) := PlayAll(pending[1..], true, handlers[0].steps);
      var (end, later) := PlayDrain(next, handlers[1..]);
      (end, now || later)
  }

  /** Some list ends inside a running handler with events pending. */
  predicate Collides(steps: seq<Step>) { PlayAll([], false, steps).1 }

  /** From q to r the code has done what the play says, as long as there was no collision. */
  ghost predicate Played(q: Queue, r: Queue, play: (seq<int>, bool)) {
    if play.1 then q.missed < r.missed else r.missed == q.missed && r.active == q.active && r.pending == play.0
  }

  lemma {:induction false} ExecPlays(q: Queue, inside: bool, step: Step)
    requires q.active == if inside then 1 else 0
    ensures Played(q, Exec(q, step), Play(q.pending, inside, step))
    decreases step, 0
  {
    if step.ListDone? && q.pending != [] && !inside {
      DrainedPlays(q.(active := 1), step.handlers);
    }
  }

  lemma {:induction false} ExecAllPlays(q: Queue, inside: bool, steps: seq<Step>)
    requires q.active == if inside then 1 else 0
    ensures Played(q, ExecAll(q, steps), PlayAll(q.pending, inside, steps))
    decreases steps, 0
  {
    hide Exec, Play;
    if steps != [] {
      var next, play := Exec(q, steps[0]), Play(q.pending, inside, steps[0]);
      ExecPlays(q, inside, steps[0]);
      ExecCounts(q, steps[0]);
      ExecAllCounts(next, steps[1..]);
      if !play.1 { ExecAllPlays(next, inside, steps[1..]); }
    }
  }

  lemma {:induction false} DrainedPlays(q: Queue, handlers: seq<Handler>)
    requires q.active == 1
    ensures Played(q, Drained(q, handlers), PlayDrain(q.pending, handlers))
    decreases handlers, |q.pending|
  {
    if q.pending != [] {
      var d := Deliver(q);
      if handlers == [] {
        DrainedPlays(d, []);
      } else {
        var next, play := ExecAll(d, handlers[0].steps), PlayAll(d.pending, true, handlers[0].steps);
        ExecAllPlays(d, true, handlers[0].steps);
        ExecAllCounts(d, handlers[0].steps);
        DrainedCounts(next, handlers[1..]);
        if !play.1 { DrainedPlays(next, handlers[1..]); }
      }
    }
  }

  /** A run has failed to deliver if and only if some list ended inside a running handler with events pending. */
  lemma FailsIffCollides(steps: seq<Step>)
    ensures ExecAll(EMPTY, steps).missed == 0 <==> !Collides(steps)
  {
    hide ExecAll, PlayAll;
    ExecAllPlays(EMPTY, false, steps);
  }

  /** Number of list ends in a step, those in handlers included. */
  function Lists(step: Step): nat
    decreases step, 0
  {
    if step.Arrive? then 0 else 1 + ListsOfHandlers(step.handlers)
  }

  function ListsOf(steps: seq<Step>): nat
    decreases steps, 0
  {
    if steps == [] then 0 else Lists(steps[0]) + ListsOf(steps[1..])
  }

  function ListsOfHandlers(handlers: seq<Handler>): nat
    decreases handlers
  {
    if handlers == [] then 0 else ListsOf(handlers[0].steps) + ListsOfHandlers(handlers[1..])
  }

  lemma {:induction false} ExecFailures(q: Queue, step: Step)
    ensures Exec(q, step).missed <= q.missed + Lists(step)
    decreases step, 0
  {
    if step.ListDone? && q.pending != [] && q.active == 0 {
      DrainedFailures(q.(active := 1), step.handlers);
    }
  }

  lemma {:induction false} ExecAllFailures(q: Queue, steps: seq<Step>)
    ensures ExecAll(q, steps).missed <= q.missed + ListsOf(steps)
    decreases steps, 0
  {
    hide Exec, Lists;
    if steps != [] {
      ExecFailures(q, steps[0]);
      ExecAllFailures(Exec(q, steps[0]), steps[1..]);
    }
  }

  lemma {:induction false} DrainedFailures(q: Queue, handlers: seq<Handler>)
    ensures Drained(q, handlers).missed <= q.missed + ListsOfHandlers(handlers)
    decreases handlers, |q.pending|
  {
    if q.pending != [] {
      var d := Deliver(q);
      if handlers == [] {
        DrainedFailures(d, []);
      } else {
        ExecAllFailures(d, handlers[0].steps);
        DrainedFailures(ExecAll(d, handlers[0].steps), handlers[1..]);
      }
    }
  }

  /** After any run of fewer than 2^32 list ends, the next one outside of any handler delivers what is
      pending if and only if in that run no list ended inside a running handler with events pending. */
  lemma DeliversUnlessCollided(steps: seq<Step>, breakReturn: bool, handlers: seq<Handler>)
    requires ListsOf(steps) < 0x1_0000_0000
    ensures var q := ExecAll(EMPTY, steps);
            q.pending != [] ==> (Exec(q, ListDone(breakReturn, handlers)).pending == [] <==> !Collides(steps))
  {
    hide ExecAll, Exec, Collides, ListsOf;
    DeliversIff(steps, breakReturn, handlers);
    FailsIffCollides(steps);
    ExecAllFailures(EMPTY, steps);
  }

  /** Once a list's end has failed to deliver, nothing is delivered any more (until 2^32 have). */
  lemma {:induction false} Wedged(q: Queue, steps: seq<Step>)
    requires q.active == q.missed % MODULUS && 0 < q.missed && ExecAll(q, steps).missed < 0x1_0000_0000
    ensures ExecAll(q, steps).delivered == q.delivered
    decreases steps
  {
    if steps != [] {
      var next := Exec(q, steps[0]);
      ExecCounts(q, steps[0]);
      ExecAllCounts(next, steps[1..]);
      assert ExecAll(q, steps) == ExecAll(next, steps[1..]);
      assert next.active == next.missed % MODULUS && next.delivered == q.delivered by { hide ExecAll; }
      Wedged(next, steps[1..]);
    }
  }

  lemma ExecFirst(q: Queue, step: Step, rest: seq<Step>)
    ensures ExecAll(q, [step] + rest) == ExecAll(Exec(q, step), rest)
  {
    assert ([step] + rest)[1..] == rest;
  }

  /** Two events pending and a handler with a nested list are enough: an event after that stays pending,
      whatever lists end. */
  lemma NestedListWedges(event: int, later: seq<Step>)
    ensures var handlers := [Handler([ListDone(false, [])])];
            var q := ExecAll(EMPTY, [Arrive(1), Arrive(2), ListDone(false, handlers), Arrive(event)]);
            && Collides([Arrive(1), Arrive(2), ListDone(false, handlers), Arrive(event)])
            && q.delivered == [1, 2] && q.pending == [event] && q.missed == 1
            && (ExecAll(q, later).missed < MODULUS ==> ExecAll(q, later).delivered == [1, 2])
  {
    var handlers := [Handler([ListDone(false, [])])];
    var end := ListDone(false, handlers);
    var q2 := Queue([1, 2], [], [Arrival(1, false), Arrival(2, false)], 0, 0);
    var q3 := q2.(pending := [], delivered := [1, 2], active := 1, missed := 1);
    var q := Accept(q3, event);
    assert Exec(Exec(EMPTY, Arrive(1)), Arrive(2)) == q2;
    assert Exec(q2, end) == q3;
    hide Exec;
    assert [Arrive(1)] + [Arrive(2), end, Arrive(event)] == [Arrive(1), Arrive(2), end, Arrive(event)];
    ExecFirst(EMPTY, Arrive(1), [Arrive(2), end, Arrive(event)]);
    assert [Arrive(2)] + [end, Arrive(event)] == [Arrive(2), end, Arrive(event)];
    ExecFirst(Exec(EMPTY, Arrive(1)), Arrive(2), [end, Arrive(event)]);
    assert [end] + [Arrive(event)] == [end, Arrive(event)];
    ExecFirst(q2, end, [Arrive(event)]);
    AcceptedAlone(q3, event);
    FailsIffCollides([Arrive(1), Arrive(2), end, Arrive(event)]);
    if ExecAll(q, later).missed < MODULUS { Wedged(q, later); }
  }

  lemma AcceptedAlone(q: Queue, event: int)
    ensures ExecAll(q, [Arrive(event)]) == Accept(q, event)
  {
    assert [Arrive(event)][1..] == [];
  }

  /** Handlers during which no list ends. */
  predicate Flat(handlers: seq<Handler>) {
    forall h <- handlers :: forall s <- h.steps :: s.Arrive?
  }

  lemma {:induction false} ArrivalsMissNothing(q: Queue, steps: seq<Step>)
    requires forall s <- steps :: s.Arrive?
    ensures ExecAll(q, steps).missed == q.missed && ExecAll(q, steps).active == q.active
    decreases steps
  {
    if steps != [] { ArrivalsMissNothing(Exec(q, steps[0]), steps[1..]); }
  }

  lemma {:induction false} FlatMissesNothing(q: Queue, handlers: seq<Handler>)
    requires Flat(handlers)
    ensures Drained(q, handlers).missed == q.missed && Drained(q, handlers).active == q.active
    decreases handlers, |q.pending|
  {
    if q.pending != [] {
      if handlers == [] {
        FlatMissesNothing(Deliver(q), []);
      } else {
        assert handlers[0] in handlers;
        ArrivalsMissNothing(Deliver(q), handlers[0].steps);
        FlatMissesNothing(ExecAll(Deliver(q), handlers[0].steps), handlers[1..]);
      }
    }
  }

  /** If no list ends while an event is handled, every list's end delivers everything, over any run. */
  lemma {:induction false} FlatHandlersNeverWedge(q: Queue, steps: seq<Step>)
    requires q.active == 0 && q.missed == 0
    requires forall s <- steps :: s.ListDone? ==> Flat(s.handlers)
    ensures ExecAll(q, steps).active == 0 && ExecAll(q, steps).missed == 0
    decreases steps
  {
    if steps != [] {
      if steps[0].ListDone? { FlatMissesNothing(q.(active := 1), steps[0].handlers); }
      FlatHandlersNeverWedge(Exec(q, steps[0]), steps[1..]);
    }
  }
}
