/** The bounded mailbox that carries the profile picker's events to the user interface. */
module PickerMailbox {
  import opened Options

  const CAPACITY: nat := 32

  datatype PickerEvent =
    | Preparing
    | Opened(selected: nat, page: nat, rosterRevision: nat)
    | Selection(selected: nat, page: nat, rosterRevision: nat)
    | Commit(index: nat, rosterRevision: nat)
    | Dismissed
    | TriggerTapped

  predicate Terminal(e: PickerEvent) {
    e.Commit? || e.Dismissed? || e.TriggerTapped?
  }

  function Terminals(events: seq<PickerEvent>): seq<PickerEvent> {
    if events == [] then []
    else (if Terminal(events[0]) then [events[0]] else []) + Terminals(events[1..])
  }

  lemma {:induction false} TerminalsConcat(a: seq<PickerEvent>, b: seq<PickerEvent>)
    ensures Terminals(a + b) == Terminals(a) + Terminals(b)
    decreases |a|
  {
    if a == [] {
      assert a + b == b;
    } else {
      var head := if Terminal(a[0]) then [a[0]] else [];
      assert (a + b)[0] == a[0] && (a + b)[1..] == a[1..] + b;
      TerminalsConcat(a[1..], b);
      assert Terminals(a + b) == head + Terminals(a[1..] + b);
      assert head + (Terminals(a[1..]) + Terminals(b)) == (head + Terminals(a[1..])) + Terminals(b);
    }
  }

  lemma TerminalsOfOne(e: PickerEvent)
    ensures Terminals([e]) == if Terminal(e) then [e] else []
  {
    assert [e][1..] == [];
  }

  // ----- Publishing -----

  /** The queue without the visual events at its end. */
  function TrimVisual(events: seq<PickerEvent>): (trimmed: seq<PickerEvent>)
    ensures trimmed <= events
    ensures trimmed == [] || Terminal(trimmed[|trimmed| - 1])
    ensures Terminals(trimmed) == Terminals(events)
  {
    if events == [] || Terminal(events[|events| - 1]) then events
    else
      var n := |events| - 1;
      assert events == events[..n] + [events[n]];
      TerminalsConcat(events[..n], [events[n]]);
      TerminalsOfOne(events[n]);
      assert Terminals(events[..n]) + [] == Terminals(events[..n]);
      TrimVisual(events[..n])
  }

  /** What an event makes superfluous at the end of the queue. */
  function Superseded(events: seq<PickerEvent>, e: PickerEvent): seq<PickerEvent> {
    var n := |events|;
    if e.Selection? && n > 0 && events[n - 1].Selection? then events[..n - 1]
    else if e.Opened? && n > 0 && events[n - 1].Preparing? then events[..n - 1]
    else if Terminal(e) then TrimVisual(events)
    else events
  }

  predicate Overflows(events: seq<PickerEvent>, e: PickerEvent) {
    |Superseded(events, e)| == CAPACITY
  }

  function Published(events: seq<PickerEvent>, e: PickerEvent): seq<PickerEvent> {
    var kept := Superseded(events, e);
    (if |kept| == CAPACITY then kept[1..] else kept) + [e]
  }

  /** Terminal events first, then visual ones; no two selections in a row; never more than the capacity. */
  predicate WellShaped(events: seq<PickerEvent>) {
    && |events| <= CAPACITY
    && (forall i, j | 0 <= i < j < |events| && Terminal(events[j]) :: Terminal(events[i]))
    && (forall i | 0 < i < |events| :: !(events[i - 1].Selection? && events[i].Selection?))
  }

  lemma TrimmedIsTerminal(events: seq<PickerEvent>)
    requires WellShaped(events)
    ensures forall i | 0 <= i < |TrimVisual(events)| :: Terminal(TrimVisual(events)[i])
    ensures WellShaped(TrimVisual(events))
  {
    var t := TrimVisual(events);
    forall i | 0 <= i < |t|
      ensures Terminal(t[i])
    {
      assert t[|t| - 1] == events[|t| - 1];
    }
  }

  /** Publishing keeps the shape of the queue, with the new event last. */
  lemma PublishedIsWellShaped(events: seq<PickerEvent>, e: PickerEvent)
    requires WellShaped(events)
    ensures WellShaped(Published(events, e))
    ensures Published(events, e)[|Published(events, e)| - 1] == e
  {
    hide TrimVisual, WellShaped;
    var kept := Superseded(events, e);
    SupersededIsWellShaped(events, e);
    if |kept| == CAPACITY {
      PoppedIsWellShaped(kept);
      AppendedIsWellShaped(kept[1..], e);
    } else {
      AppendedIsWellShaped(kept, e);
    }
  }

  lemma SupersededIsWellShaped(events: seq<PickerEvent>, e: PickerEvent)
    requires WellShaped(events)
    ensures var kept := Superseded(events, e);
      && WellShaped(kept) && |kept| <= CAPACITY
      && (Terminal(e) ==> forall i | 0 <= i < |kept| :: Terminal(kept[i]))
      && (e.Selection? && kept != [] ==> !kept[|kept| - 1].Selection?)
  {
    hide TrimVisual;
    if Terminal(e) {
      TrimmedIsTerminal(events);
    }
  }

  lemma PoppedIsWellShaped(events: seq<PickerEvent>)
    requires WellShaped(events)
    ensures events != [] ==> WellShaped(events[1..])
  {
  }

  lemma AppendedIsWellShaped(queue: seq<PickerEvent>, e: PickerEvent)
    requires WellShaped(queue) && |queue| < CAPACITY
    requires Terminal(e) ==> forall i | 0 <= i < |queue| :: Terminal(queue[i])
    requires e.Selection? && queue != [] ==> !queue[|queue| - 1].Selection?
    ensures WellShaped(queue + [e])
  {
    forall i, j | 0 <= i < j < |queue + [e]| && Terminal((queue + [e])[j])
      ensures Terminal((queue + [e])[i])
    {
      assert (queue + [e])[i] == queue[i];
    }
  }

  /** Only visual events are ever superseded. */
  lemma SupersededKeepsTerminals(events: seq<PickerEvent>, e: PickerEvent)
    ensures Terminals(Superseded(events, e)) == Terminals(events)
  {
    var n := |events|;
    if n > 0 {
      assert events == events[..n - 1] + [events[n - 1]];
      TerminalsConcat(events[..n - 1], [events[n - 1]]);
      TerminalsOfOne(events[n - 1]);
      assert Terminals(events[..n - 1]) + [] == Terminals(events[..n - 1]);
    }
  }

  /**
   * Of the visual events a publication that is not terminal supersedes at most the newest, and that only if
   * it is a selection giving way to a selection, or a preparation giving way to the opened picker.
   */
  lemma VisualsSuperseded(events: seq<PickerEvent>, e: PickerEvent)
    requires e.Preparing? || e.Opened? || e.Selection?
    ensures var n := |events|;
      var gives := n > 0 && ((e.Selection? && events[n - 1].Selection?) || (e.Opened? && events[n - 1].Preparing?));
      Superseded(events, e) == if gives then events[..n - 1] else events
  {
  }

  /** A commit, a dismissal and a tapped trigger supersede all visual events, and nothing else. */
  lemma TerminalSupersedes(events: seq<PickerEvent>, e: PickerEvent)
    requires WellShaped(events) && (e.Commit? || e.Dismissed? || e.TriggerTapped?)
    ensures var kept := Superseded(events, e);
      && kept == Terminals(events) && kept <= events
      && (forall x <- kept :: !(x.Preparing? || x.Opened? || x.Selection?))
      && (forall x <- events[|kept|..] :: x.Preparing? || x.Opened? || x.Selection?)
  {
    hide TrimVisual, Terminals, WellShaped;
    TrimmedIsTerminal(events);
    AllTerminal(TrimVisual(events));
    TrimmedAreVisual(events);
    SupersededKeepsTerminals(events, e);
  }

  lemma {:induction false} TrimmedAreVisual(events: seq<PickerEvent>)
    ensures forall x <- events[|TrimVisual(events)|..] :: !Terminal(x)
    decreases |events|
  {
    if events != [] && !Terminal(events[|events| - 1]) {
      var n := |events| - 1;
      TrimmedAreVisual(events[..n]);
      var k := |TrimVisual(events)|;
      assert events[k..] == events[..n][k..] + [events[n]];
    }
  }

  lemma {:induction false} AllTerminal(events: seq<PickerEvent>)
    requires forall i | 0 <= i < |events| :: Terminal(events[i])
    ensures Terminals(events) == events
    decreases |events|
  {
    if events != [] {
      AllTerminal(events[1..]);
    }
  }

  class PickerEventMailbox {
    var events: seq<PickerEvent>

    constructor ()
      ensures events == []
    {
      events := [];
    }

    /** The caller is told to wake the reader exactly when the queue was empty. */
    method Publish(event: PickerEvent) returns (wake: bool)
      requires WellShaped(events)
      modifies this
      ensures WellShaped(events) && events == Published(old(events), event)
      ensures wake <==> old(events) == []
    {
      wake := events == [];
      PublishedIsWellShaped(events, event);
      ghost var queued := events;
      if event.Selection? && events != [] && events[|events| - 1].Selection? {
        events := events[..|events| - 1];
        events := events + [event];
        return;
      }
      if event.Opened? && events != [] && events[|events| - 1].Preparing? {
        events := events[..|events| - 1];
      } else if Terminal(event) {
        while events != [] && !Terminal(events[|events| - 1])
          invariant TrimVisual(events) == TrimVisual(queued)
          decreases |events|
        {
          events := events[..|events| - 1];
        }
      }
      if |events| == CAPACITY {
        events := events[1..];
      }
      events := events + [event];
    }

    method Pop() returns (event: Option<PickerEvent>)
      requires WellShaped(events)
      modifies this
      ensures WellShaped(events)
      ensures old(events) == [] ==> event.None? && events == []
      ensures old(events) != [] ==> event == Some(old(events)[0]) && events == old(events)[1..]
    {
      if events == [] {
        return None;
      }
      event := Some(events[0]);
      events := events[1..];
    }
  }

  // ----- Over whole runs -----

  datatype Op = Publish(event: PickerEvent) | Pop

  /** The events that left at the front were delivered to the reader or, on overflow, dropped. */
  datatype Traffic = Traffic(queue: seq<PickerEvent>, removed: seq<PickerEvent>, published: seq<PickerEvent>,
                             overflowed: bool, delivered: seq<PickerEvent>, dropped: seq<PickerEvent>)

  const QUIET := Traffic([], [], [], false, [], [])

  function After(t: Traffic, op: Op): Traffic {
    match op
    case Publish(e) =>
      var kept := Superseded(t.queue, e);
      Traffic(Published(t.queue, e),
              t.removed + (if |kept| == CAPACITY then [kept[0]] else []),
              t.published + [e],
              t.overflowed || Overflows(t.queue, e),
              t.delivered,
              t.dropped + (if |kept| == CAPACITY then [kept[0]] else []))
    case Pop =>
      if t.queue == [] then t
      else t.(queue := t.queue[1..], removed := t.removed + [t.queue[0]], delivered := t.delivered + [t.queue[0]])
  }

  function RunOps(t: Traffic, ops: seq<Op>): Traffic
    decreases |ops|
  {
    if ops == [] then t else RunOps(After(t, ops[0]), ops[1..])
  }

  /** Nothing is lost or doubled; and unless a terminal event was dropped, all that left were delivered. */
  predicate Conserved(t: Traffic) {
    && WellShaped(t.queue)
    && Terminals(t.removed) + Terminals(t.queue) == Terminals(t.published)
    && |Terminals(t.removed)| == |Terminals(t.delivered)| + |Terminals(t.dropped)|
    && (Terminals(t.dropped) == [] ==> Terminals(t.removed) == Terminals(t.delivered))
    && (!t.overflowed ==> t.removed == t.delivered && t.dropped == [])
  }

  lemma PublishConserves(t: Traffic, e: PickerEvent)
    requires Conserved(t)
    ensures Conserved(After(t, Publish(e)))
  {
    hide TrimVisual, Terminals, WellShaped, Superseded;
    var kept := Superseded(t.queue, e);
    PublishedIsWellShaped(t.queue, e);
    SupersededKeepsTerminals(t.queue, e);
    TerminalsConcat(t.published, [e]);
    assert t.removed + [] == t.removed && t.dropped + [] == t.dropped;
    if |kept| == CAPACITY {
      assert kept == [kept[0]] + kept[1..];
      TerminalsConcat([kept[0]], kept[1..]);
      TerminalsConcat(kept[1..], [e]);
      TerminalsConcat(t.removed, [kept[0]]);
      TerminalsConcat(t.dropped, [kept[0]]);
      NoneToAdd(Terminals(t.removed), Terminals([kept[0]]));
      NoneToAdd(Terminals(t.dropped), Terminals([kept[0]]));
    } else {
      TerminalsConcat(kept, [e]);
    }
  }

  lemma NoneToAdd(a: seq<PickerEvent>, b: seq<PickerEvent>)
    ensures a + b == [] ==> a == [] && b == []
    ensures b == [] ==> a + b == a
  {
    assert |a + b| == |a| + |b|;
  }

  lemma PopConserves(t: Traffic)
    requires Conserved(t)
    ensures Conserved(After(t, Pop))
  {
    hide Terminals, WellShaped;
    PoppedIsWellShaped(t.queue);
    if t.queue != [] {
      assert t.queue == [t.queue[0]] + t.queue[1..];
      TerminalsConcat([t.queue[0]], t.queue[1..]);
      TerminalsConcat(t.removed, [t.queue[0]]);
      TerminalsConcat(t.delivered, [t.queue[0]]);
    }
  }

  lemma AfterConserves(t: Traffic, op: Op)
    requires Conserved(t)
    ensures Conserved(After(t, op))
  {
    hide Conserved, After;
    match op
    case Publish(e) => PublishConserves(t, e);
    case Pop => PopConserves(t);
  }

  lemma {:induction false} RunConserves(t: Traffic, ops: seq<Op>)
    requires Conserved(t)
    ensures Conserved(RunOps(t, ops))
    decreases |ops|
  {
    hide Conserved, After;
    if ops != [] {
      AfterConserves(t, ops[0]);
      RunConserves(After(t, ops[0]), ops[1..]);
    }
  }

  // ----- What an overflow loses -----

  /** Publishing the event pushes a terminal event out of the queue. */
  predicate LosesTerminal(events: seq<PickerEvent>, e: PickerEvent) {
    |Superseded(events, e)| == CAPACITY && Terminal(events[0])
  }

  predicate Loses(t: Traffic, op: Op) {
    op.Publish? && LosesTerminal(t.queue, op.event)
  }

  /** A publication keeps every terminal event, its own included, exactly unless it pushes one out. */
  lemma PublishLosesExactly(events: seq<PickerEvent>, e: PickerEvent)
    ensures Terminals(Published(events, e)) == Terminals(events + [e]) <==> !LosesTerminal(events, e)
  {
    hide TrimVisual, Terminals;
    var kept := Superseded(events, e);
    SupersededKeepsTerminals(events, e);
    TerminalsConcat(events, [e]);
    TerminalsConcat(kept, [e]);
    if |kept| == CAPACITY {
      assert kept == [kept[0]] + kept[1..];
      SupersededIsPrefix(events, e);
      TerminalsConcat([kept[0]], kept[1..]);
      TerminalsConcat(kept[1..], [e]);
      TerminalsOfOne(kept[0]);
      assert [] + Terminals(kept[1..]) == Terminals(kept[1..]);
    }
  }

  lemma SupersededIsPrefix(events: seq<PickerEvent>, e: PickerEvent)
    ensures Superseded(events, e) <= events
  {
    hide TrimVisual;
  }

  lemma AfterDrops(t: Traffic, op: Op)
    ensures Terminals(After(t, op).dropped) == Terminals(t.dropped) + if Loses(t, op) then [t.queue[0]] else []
  {
    hide TrimVisual, Terminals;
    assert Terminals(t.dropped) + [] == Terminals(t.dropped);
    assert t.dropped + [] == t.dropped;
    if op.Publish? {
      var kept := Superseded(t.queue, op.event);
      SupersededIsPrefix(t.queue, op.event);
      if |kept| == CAPACITY {
        TerminalsConcat(t.dropped, [kept[0]]);
        TerminalsOfOne(kept[0]);
      }
    }
  }

  lemma {:induction false} DropsExactly(t: Traffic, ops: seq<Op>)
    ensures Terminals(t.dropped) <= Terminals(RunOps(t, ops).dropped)
    ensures Terminals(RunOps(t, ops).dropped) == Terminals(t.dropped)
       <==> forall i | 0 <= i < |ops| :: !Loses(RunOps(t, ops[..i]), ops[i])
    decreases |ops|
  {
    hide Loses, After, Terminals;
    if ops != [] {
      var u, rest := After(t, ops[0]), ops[1..];
      AfterDrops(t, ops[0]);
      DropsExactly(u, rest);
      assert RunOps(t, ops[..0]) == t;
      forall i | 0 <= i < |rest|
        ensures RunOps(u, rest[..i]) == RunOps(t, ops[..i + 1]) && rest[i] == ops[i + 1]
      {
        assert ops[..i + 1][0] == ops[0] && ops[..i + 1][1..] == rest[..i];
      }
      if forall i | 0 <= i < |rest| :: !Loses(RunOps(u, rest[..i]), rest[i]) {
        forall i | 0 < i < |ops|
          ensures !Loses(RunOps(t, ops[..i]), ops[i])
        {
          assert !Loses(RunOps(u, rest[..i - 1]), rest[i - 1]);
        }
      }
    }
  }

  /**
   * In every run the queue keeps its shape, and every terminal event published has been delivered, once
   * and in order, or is still queued, exactly if no publication pushed a terminal event out of a full
   * queue; in particular if the queue never overflowed.
   */
  lemma TerminalsAreDelivered(ops: seq<Op>)
    ensures var t := RunOps(QUIET, ops);
      && WellShaped(t.queue)
      && (Terminals(t.delivered) + Terminals(t.queue) == Terminals(t.published)
          <==> forall i | 0 <= i < |ops| :: !Loses(RunOps(QUIET, ops[..i]), ops[i]))
      && (Terminals(t.delivered) + Terminals(t.queue) == Terminals(t.published)
          <==> forall e <- t.dropped :: !Terminal(e))
      && (!t.overflowed ==> Terminals(t.delivered) + Terminals(t.queue) == Terminals(t.published))
  {
    hide Loses;
    var t := RunOps(QUIET, ops);
    RunConserves(QUIET, ops);
    DropsExactly(QUIET, ops);
    NoneTerminal(t.dropped);
  }

  lemma {:induction false} NoneTerminal(events: seq<PickerEvent>)
    ensures Terminals(events) == [] <==> forall e <- events :: !Terminal(e)
    decreases |events|
  {
    if events != [] {
      NoneTerminal(events[1..]);
      assert forall e <- events :: e == events[0] || e in events[1..];
    }
  }

  function Dismissals(n: nat): seq<PickerEvent> {
    seq(n, _ => Dismissed)
  }

  function Dismissing(n: nat): seq<Op> {
    seq(n, _ => Publish(Dismissed))
  }

  lemma {:induction false} DismissalsQueueUp(n: nat)
    requires n <= CAPACITY
    ensures RunOps(QUIET, Dismissing(n)) == Traffic(Dismissals(n), [], Dismissals(n), false, [], [])
  {
    hide RunOps, After, Dismissing;
    if n == 0 {
      NoDismissals();
    } else {
      DismissalsQueueUp(n - 1);
      OneMoreDismissal(n - 1);
    }
  }

  lemma NoDismissals()
    ensures RunOps(QUIET, Dismissing(0)) == QUIET && Dismissals(0) == []
  {
  }

  lemma OneMoreDismissal(n: nat)
    requires n < CAPACITY
    ensures Dismissals(n + 1) == Dismissals(n) + [Dismissed]
    ensures var t := Traffic(Dismissals(n), [], Dismissals(n), false, [], []);
      After(t, Publish(Dismissed)) == Traffic(Dismissals(n + 1), [], Dismissals(n + 1), false, [], [])
    ensures RunOps(QUIET, Dismissing(n + 1)) == After(RunOps(QUIET, Dismissing(n)), Publish(Dismissed))
  {
    hide RunOps;
    assert n > 0 ==> Terminal(Dismissals(n)[n - 1]);
    assert Superseded(Dismissals(n), Dismissed) == Dismissals(n);
    assert Dismissals(n + 1) == Dismissals(n) + [Dismissed];
    assert Dismissing(n + 1) == Dismissing(n) + [Publish(Dismissed)];
    RunOpsAppend(QUIET, Dismissing(n), Publish(Dismissed));
  }

  lemma {:induction false} RunOpsAppend(t: Traffic, ops: seq<Op>, op: Op)
    ensures RunOps(t, ops + [op]) == After(RunOps(t, ops), op)
    decreases |ops|
  {
    hide After;
    if ops == [] {
      assert [] + [op] == [op] && [op][1..] == [];
    } else {
      assert (ops + [op])[1..] == ops[1..] + [op];
      RunOpsAppend(After(t, ops[0]), ops[1..], op);
    }
  }

  /** One dismissal more than the queue holds, and the first is lost. */
  lemma OneDismissalTooMany()
    ensures var t := RunOps(QUIET, Dismissing(CAPACITY + 1));
      && Loses(RunOps(QUIET, Dismissing(CAPACITY)), Publish(Dismissed))
      && t.dropped == [Dismissed] && t.delivered == []
      && |t.queue| == CAPACITY && |t.published| == CAPACITY + 1
  {
    DismissalsQueueUp(CAPACITY);
    assert Dismissing(CAPACITY + 1) == Dismissing(CAPACITY) + [Publish(Dismissed)];
    RunOpsAppend(QUIET, Dismissing(CAPACITY), Publish(Dismissed));
    var full := Dismissals(CAPACITY);
    assert Terminal(full[CAPACITY - 1]) && full[0] == Dismissed;
  }
}
