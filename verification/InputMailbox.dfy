/**
 * The bounded mailbox between the polling thread and the visualizer: it may drop analog samples under
 * pressure, but never a button edge without saying so.
 */
module InputMailbox {
  import opened Bits
  import opened Options

  const CAPACITY: nat := 64
  const INPUT_REPORT_ID: byte := 0x45
  const EXTENDED_INPUT_REPORT_ID: byte := 0x42
  const INPUT_REPORT_SIZE: nat := 46
  const EXTENDED_INPUT_REPORT_SIZE: nat := 54

  datatype Outcome = Happened(what: string) | Failed(error: string)

  datatype InputEvent =
    | Report(reportId: byte, data: seq<byte>, receivedAt: nat)
    | Lifecycle(outcome: Outcome)
    | Search(status: string)

  /** The button mask of a report that validates; anything else has none. */
  function Mask(e: InputEvent): Option<nat> {
    if e.Report? && ((e.reportId == INPUT_REPORT_ID && |e.data| == INPUT_REPORT_SIZE)
                     || (e.reportId == EXTENDED_INPUT_REPORT_ID && |e.data| == EXTENDED_INPUT_REPORT_SIZE))
    then Some(FromBytes(e.data[2..6]))
    else None
  }

  // ----- What a sequence of events means -----

  /** A maximal run of reports with the same buttons, a malformed report, or a barrier. */
  datatype Item =
    | Run(mask: nat, first: InputEvent, last: InputEvent)
    | Malformed(report: InputEvent)
    | Barrier(event: InputEvent)

  /** A status that only repeats the one just given. */
  predicate Repeats(previous: InputEvent, e: InputEvent) {
    previous == e && (e.Search? || (e.Lifecycle? && e.outcome.Failed?))
  }

  function Extend(items: seq<Item>, e: InputEvent): seq<Item> {
    var n := |items|;
    if e.Report? then
      match Mask(e)
      case None => items + [Malformed(e)]
      case Some(mask) =>
        if n > 0 && items[n - 1].Run? && items[n - 1].mask == mask
        then items[..n - 1] + [Run(mask, items[n - 1].first, e)]
        else items + [Run(mask, e, e)]
    else if n > 0 && items[n - 1].Barrier? && Repeats(items[n - 1].event, e) then items
    else items + [Barrier(e)]
  }

  function ExtendAll(items: seq<Item>, events: seq<InputEvent>): seq<Item>
    decreases |events|
  {
    if events == [] then items else ExtendAll(Extend(items, events[0]), events[1..])
  }

  /** The button edges, the first and last sample between them, and the barriers, in order. */
  function Structure(events: seq<InputEvent>): seq<Item> {
    ExtendAll([], events)
  }

  lemma {:induction false} ExtendConcat(items: seq<Item>, a: seq<InputEvent>, b: seq<InputEvent>)
    ensures ExtendAll(items, a + b) == ExtendAll(ExtendAll(items, a), b)
    decreases |a|
  {
    hide Extend;
    if a == [] {
      assert a + b == b;
    } else {
      assert (a + b)[1..] == a[1..] + b;
      ExtendConcat(Extend(items, a[0]), a[1..], b);
    }
  }

  lemma StructureAppend(events: seq<InputEvent>, e: InputEvent)
    ensures Structure(events + [e]) == Extend(Structure(events), e)
  {
    hide Extend;
    ExtendConcat([], events, [e]);
    assert [e][1..] == [];
  }

  /** The last item tells what the last event was. */
  lemma LastItem(events: seq<InputEvent>)
    requires events != []
    ensures var items, e := Structure(events), events[|events| - 1];
      && items != []
      && var item := items[|items| - 1];
         if !e.Report? then item == Barrier(e)
         else if Mask(e).None? then item == Malformed(e)
         else item.Run? && item.mask == Mask(e).value && item.last == e
  {
    var n := |events| - 1;
    assert events == events[..n] + [events[n]];
    StructureAppend(events[..n], events[n]);
  }

  /** A run keeps its first sample for as long as it goes on, and any other report begins anew. */
  lemma FirstSampleStays(events: seq<InputEvent>, e: InputEvent)
    requires Mask(e).Some?
    ensures var before, after := Structure(events), Structure(events + [e]);
      if events != [] && Mask(events[|events| - 1]) == Mask(e)
      then
        && |after| == |before| > 0 && after[..|after| - 1] == before[..|before| - 1]
        && before[|before| - 1].Run? && after[|after| - 1] == before[|before| - 1].(last := e)
      else after == before + [Run(Mask(e).value, e, e)]
  {
    hide Mask, ExtendAll;
    StructureAppend(events, e);
    assert e.Report? by {
      OnlyReportsShow(e);
    }
    if events != [] {
      OnlyReportsShow(events[|events| - 1]);
      LastItem(events);
    } else {
      NothingStructured();
    }
  }

  lemma OnlyReportsShow(e: InputEvent)
    ensures Mask(e).Some? ==> e.Report?
  {
  }

  lemma NothingStructured()
    ensures Structure([]) == []
  {
  }

  /** A sample between two others of the same run can go. */
  lemma MiddleSampleIsRedundant(events: seq<InputEvent>, k: nat)
    requires IsMiddle(events, k)
    ensures Structure(events[..k] + events[k + 1..]) == Structure(events)
  {
    hide ExtendAll;
    var head, tail := events[..k], events[k + 2..];
    assert events == head + ([events[k]] + ([events[k + 1]] + tail));
    assert events[..k] + events[k + 1..] == head + ([events[k + 1]] + tail);
    ExtendConcat([], head, [events[k]] + ([events[k + 1]] + tail));
    ExtendConcat([], head, [events[k + 1]] + tail);
    var items := Structure(head);
    LastItem(head);
    ExtendOne(items, events[k], [events[k + 1]] + tail);
    ExtendOne(items, events[k + 1], tail);
    ExtendOne(Extend(items, events[k]), events[k + 1], tail);
  }

  lemma ExtendOne(items: seq<Item>, e: InputEvent, events: seq<InputEvent>)
    ensures ExtendAll(items, [e] + events) == ExtendAll(Extend(items, e), events)
  {
    hide Extend;
    assert ([e] + events)[1..] == events;
  }

  /** Replacing the newest sample of a run that has an older one only moves the run's end. */
  lemma NewestSampleReplaced(events: seq<InputEvent>, e: InputEvent)
    requires |events| >= 2 && Mask(e).Some?
    requires Mask(events[|events| - 2]) == Mask(events[|events| - 1]) == Mask(e)
    ensures Structure(events[..|events| - 1] + [e]) == Extend(Structure(events), e)
  {
    var n := |events| - 1;
    StructureAppend(events[..n], e);
    assert events == events[..n] + [events[n]];
    StructureAppend(events[..n], events[n]);
    LastItem(events[..n]);
  }

  predicate IsMiddle(events: seq<InputEvent>, k: nat) {
    && 1 <= k && k + 1 < |events|
    && Mask(events[k]).Some?
    && Mask(events[k - 1]) == Mask(events[k]) == Mask(events[k + 1])
  }

  // ----- The cached summary -----

  /** The last two button masks since the last barrier. */
  datatype StableRun = StableRun(previous: Option<nat>, latest: Option<nat>)

  const NO_RUN := StableRun(None, None)

  function AfterEvent(run: StableRun, e: InputEvent): StableRun {
    if e.Report? then StableRun(run.latest, Mask(e)) else NO_RUN
  }

  function RunOf(events: seq<InputEvent>): StableRun {
    if events == [] then NO_RUN else AfterEvent(RunOf(events[..|events| - 1]), events[|events| - 1])
  }

  lemma RunOfAppend(events: seq<InputEvent>, e: InputEvent)
    ensures RunOf(events + [e]) == AfterEvent(RunOf(events), e)
  {
    assert (events + [e])[..|events|] == events;
  }

  /** What the summary says of the queue's end is so. */
  lemma RunOfTells(events: seq<InputEvent>)
    ensures var run, n := RunOf(events), |events|;
      && (run.latest.Some? ==> n >= 1 && Mask(events[n - 1]) == run.latest)
      && (run.previous.Some? ==> n >= 2 && Mask(events[n - 2]) == run.previous)
  {
  }

  // ----- Counting -----

  function Reports(events: seq<InputEvent>): nat {
    if events == [] then 0 else Reports(events[..|events| - 1]) + if events[|events| - 1].Report? then 1 else 0
  }

  lemma {:induction false} ReportsConcat(a: seq<InputEvent>, b: seq<InputEvent>)
    ensures Reports(a + b) == Reports(a) + Reports(b)
    decreases |b|
  {
    if b == [] {
      assert a + b == a;
    } else {
      assert (a + b)[..|a + b| - 1] == a + b[..|b| - 1];
      ReportsConcat(a, b[..|b| - 1]);
    }
  }

  lemma ReportsOfOne(e: InputEvent)
    ensures Reports([e]) == if e.Report? then 1 else 0
  {
    assert [e][..0] == [];
  }

  lemma {:induction false} ReportsAtMost(events: seq<InputEvent>)
    ensures Reports(events) <= |events|
    decreases |events|
  {
    if events != [] {
      ReportsAtMost(events[..|events| - 1]);
    }
  }

  function Barriers(events: seq<InputEvent>): seq<InputEvent> {
    if events == [] then []
    else Barriers(events[..|events| - 1]) + if events[|events| - 1].Report? then [] else [events[|events| - 1]]
  }

  lemma {:induction false} BarriersConcat(a: seq<InputEvent>, b: seq<InputEvent>)
    ensures Barriers(a + b) == Barriers(a) + Barriers(b)
    decreases |b|
  {
    if b == [] {
      assert a + b == a;
    } else {
      assert (a + b)[..|a + b| - 1] == a + b[..|b| - 1];
      BarriersConcat(a, b[..|b| - 1]);
    }
  }

  lemma BarriersOfOne(e: InputEvent)
    ensures Barriers([e]) == if e.Report? then [] else [e]
  {
    assert [e][..0] == [];
  }

  lemma {:induction false} BarriersAlone(events: seq<InputEvent>)
    ensures Barriers(Barriers(events)) == Barriers(events) && Reports(Barriers(events)) == 0
    ensures RunOf(Barriers(events)) == NO_RUN
    ensures |events| == |Barriers(events)| + Reports(events)
    decreases |events|
  {
    if events != [] {
      var n := |events| - 1;
      BarriersAlone(events[..n]);
      if events[n].Report? {
        assert Barriers(events) == Barriers(events[..n]);
      } else {
        BarriersConcat(Barriers(events[..n]), [events[n]]);
        BarriersOfOne(events[n]);
        ReportsConcat(Barriers(events[..n]), [events[n]]);
        ReportsOfOne(events[n]);
        RunOfAppend(Barriers(events[..n]), events[n]);
      }
    } else {
      assert Barriers(events) == [];
    }
  }

  /** The barriers of a history, without those that only repeat the event just before them. */
  function Lasting(history: seq<InputEvent>): seq<InputEvent> {
    if history == [] then []
    else
      var n := |history| - 1;
      Lasting(history[..n])
      + if history[n].Report? || (n > 0 && Repeats(history[n - 1], history[n])) then [] else [history[n]]
  }

  lemma LastingAppend(history: seq<InputEvent>, e: InputEvent)
    ensures Lasting(history + [e]) == Lasting(history)
      + if e.Report? || (history != [] && Repeats(history[|history| - 1], e)) then [] else [e]
  {
    hide Repeats;
    var longer := history + [e];
    assert longer[..|history|] == history && longer[|history|] == e;
    assert history != [] ==> longer[|history| - 1] == history[|history| - 1];
  }

  lemma BarriersAppend(history: seq<InputEvent>, e: InputEvent)
    ensures Barriers(history + [e]) == Barriers(history) + if e.Report? then [] else [e]
  {
    assert (history + [e])[..|history|] == history;
  }

  /** Some event repeats the one just before it. */
  ghost predicate HasRepeat(history: seq<InputEvent>) {
    exists i | 0 < i < |history| :: Repeats(history[i - 1], history[i])
  }

  lemma RepeatAppend(history: seq<InputEvent>, e: InputEvent)
    ensures HasRepeat(history + [e])
       <==> HasRepeat(history) || (history != [] && Repeats(history[|history| - 1], e))
  {
    hide Repeats;
    var longer := history + [e];
    forall i | 0 < i < |history| && Repeats(history[i - 1], history[i])
      ensures HasRepeat(longer)
    {
      assert Repeats(longer[i - 1], longer[i]);
    }
    if history != [] {
      assert longer[|history| - 1] == history[|history| - 1] && longer[|history|] == e;
    }
    forall i | 0 < i < |history| && Repeats(longer[i - 1], longer[i])
      ensures Repeats(history[i - 1], history[i])
    {
    }
  }

  /** Barriers are lost from a history exactly when it holds one that repeats the event just before it. */
  lemma {:induction false} BarriersLastExactly(history: seq<InputEvent>)
    ensures |Lasting(history)| <= |Barriers(history)|
    ensures Lasting(history) == Barriers(history) <==> !HasRepeat(history)
    decreases |history|
  {
    if history == [] {
      assert Lasting(history) == Barriers(history);
    } else {
      var n := |history| - 1;
      var earlier, e := history[..n], history[n];
      assert history == earlier + [e];
      BarriersLastExactly(earlier);
      LastingAppend(earlier, e);
      BarriersAppend(earlier, e);
      RepeatAppend(earlier, e);
      SameEnd(Lasting(earlier), Barriers(earlier), e);
    }
  }

  lemma SameEnd(a: seq<InputEvent>, b: seq<InputEvent>, e: InputEvent)
    ensures a + [e] == b + [e] <==> a == b
    ensures a + [] == a && b + [] == b
  {
    if a + [e] == b + [e] {
      assert a == (a + [e])[..|a|] && b == (b + [e])[..|b|];
    }
  }

  /** A search status given twice is handed on once. */
  lemma RepeatedStatusIsLost(status: string)
    ensures var history := [Search(status), Search(status)];
      Lasting(history) == [Search(status)] && Barriers(history) == [Search(status), Search(status)]
  {
    var e := Search(status);
    assert [e, e] == [e] + [e] && [e] == [] + [e];
    LastingAppend([e], e);
    LastingAppend([], e);
    BarriersAppend([e], e);
    BarriersAppend([], e);
  }

  /** Of two equal connection events both are handed on; of two equal errors, one. */
  lemma OnlyErrorsRepeat(what: string)
    ensures var e := Lifecycle(Happened(what)); Lasting([e, e]) == [e, e]
    ensures var e := Lifecycle(Failed(what)); Lasting([e, e]) == [e]
  {
    PairLasts(Lifecycle(Happened(what)));
    PairLasts(Lifecycle(Failed(what)));
  }

  lemma PairLasts(e: InputEvent)
    requires !e.Report?
    ensures Lasting([e, e]) == if Repeats(e, e) then [e] else [e, e]
  {
    assert [e, e] == [e] + [e] && [e] == [] + [e];
    LastingAppend([e], e);
    LastingAppend([], e);
  }

  /** Different events never count as repeats, and neither do reports. */
  lemma RepeatsExactly(previous: InputEvent, e: InputEvent)
    ensures previous != e || e.Report? ==> Lasting([previous, e]) == Barriers([previous, e])
  {
    assert [previous, e] == ([] + [previous]) + [e];
    LastingAppend([previous], e);
    LastingAppend([], previous);
    BarriersAppend([previous], e);
    BarriersAppend([], previous);
  }

  /** Of two valid reports exactly those with the same bytes 2 to 5 show the same buttons. */
  lemma ButtonsAreFourBytes(a: InputEvent, b: InputEvent)
    requires Mask(a).Some? && Mask(b).Some?
    ensures Mask(a) == Mask(b)
       <==> a.data[2] == b.data[2] && a.data[3] == b.data[3] && a.data[4] == b.data[4] && a.data[5] == b.data[5]
  {
    hide FromBytes;
    FromBytesRoundTrip(a.data[2..6]);
    FromBytesRoundTrip(b.data[2..6]);
    assert a.data[2..6] == [a.data[2], a.data[3], a.data[4], a.data[5]];
    assert b.data[2..6] == [b.data[2], b.data[3], b.data[4], b.data[5]];
  }

  /** A report shows buttons exactly if it is one of the two kinds, in full length. */
  lemma ValidReports(e: InputEvent)
    ensures Mask(e).Some?
       <==> e.Report? && ((e.reportId == 0x45 && |e.data| == 46) || (e.reportId == 0x42 && |e.data| == 54))
  {
  }

  // ----- The mailbox -----

  /** The queue is full and nothing in it can be merged with the report. */
  ghost predicate MustOverflow(events: seq<InputEvent>, e: InputEvent) {
    && e.Report?
    && |events| >= CAPACITY
    && !(Mask(e).Some? && RunOf(events) == StableRun(Mask(e), Mask(e)))
    && forall k :: !IsMiddle(events, k)
  }

  /**
   * The queue gives up its run structure exactly when it is full and, with the report, holds no sample that
   * lies between two others of its run.
   */
  lemma MustOverflowExactly(events: seq<InputEvent>, e: InputEvent)
    ensures MustOverflow(events, e)
       <==> e.Report? && |events| >= CAPACITY && forall k :: !IsMiddle(events + [e], k)
  {
    hide Mask, RunOf;
    var longer, n := events + [e], |events|;
    if n >= CAPACITY {
      LastTwo(events);
    }
    forall k: nat
      ensures IsMiddle(events, k) ==> IsMiddle(longer, k)
    {
      if IsMiddle(events, k) {
        assert longer[k - 1] == events[k - 1] && longer[k] == events[k] && longer[k + 1] == events[k + 1];
      }
    }
    forall k: nat
      ensures IsMiddle(longer, k) ==> IsMiddle(events, k) || k == n - 1
    {
      if IsMiddle(longer, k) && k < n - 1 {
        assert longer[k - 1] == events[k - 1] && longer[k] == events[k] && longer[k + 1] == events[k + 1];
      }
    }
    if n >= CAPACITY {
      assert longer[n - 2] == events[n - 2] && longer[n - 1] == events[n - 1] && longer[n] == e;
      if Mask(e).Some? {
        assert Mask(e) == Some(Mask(e).value);
      }
      assert IsMiddle(longer, n - 1) <==> Mask(e).Some? && RunOf(events) == StableRun(Mask(e), Mask(e));
    }
  }

  lemma LastTwo(events: seq<InputEvent>)
    requires |events| >= 2
    ensures var run, n := RunOf(events), |events|;
      forall mask: nat :: run == StableRun(Some(mask), Some(mask))
        <==> Mask(events[n - 1]) == Some(mask) && Mask(events[n - 2]) == Some(mask)
  {
    hide RunOf;
    var n := |events|;
    var shorter := events[..n - 1];
    assert shorter[n - 2] == events[n - 2];
    assert events == shorter + [events[n - 1]] && shorter == shorter[..n - 2] + [events[n - 2]];
    RunOfAppend(shorter, events[n - 1]);
    RunOfAppend(shorter[..n - 2], events[n - 2]);
  }

  /** What the queue owes to the history it stands for. */
  ghost predicate Represents(events: seq<InputEvent>, history: seq<InputEvent>, overflowed: bool) {
    && Reports(events) <= CAPACITY
    && (events == [] <==> history == [])
    && (history != [] ==> events[|events| - 1] == history[|history| - 1])
    && Barriers(events) == Lasting(history)
    && (!overflowed ==> Structure(events) == Structure(history))
  }

  lemma RepeatDropped(events: seq<InputEvent>, history: seq<InputEvent>, overflowed: bool, e: InputEvent)
    requires Represents(events, history, overflowed) && events != [] && Repeats(events[|events| - 1], e)
    ensures Represents(events, history + [e], overflowed)
  {
    hide Reports, Barriers, Lasting, Mask, ExtendAll;
    StructureAppend(history, e);
    LastingAppend(history, e);
    LastItem(history);
    assert Lasting(history) + [] == Lasting(history);
  }

  lemma Enqueued(events: seq<InputEvent>, history: seq<InputEvent>, overflowed: bool, e: InputEvent)
    requires Represents(events, history, overflowed)
    requires e.Report? ==> |events| < CAPACITY
    requires !(events != [] && Repeats(events[|events| - 1], e))
    ensures Represents(events + [e], history + [e], overflowed)
    ensures Reports(events + [e]) == Reports(events) + if e.Report? then 1 else 0
  {
    hide Reports, Barriers, Lasting, Mask, Structure, Extend;
    StructureAppend(events, e);
    StructureAppend(history, e);
    LastingAppend(history, e);
    BarriersConcat(events, [e]);
    BarriersOfOne(e);
    ReportsConcat(events, [e]);
    ReportsOfOne(e);
    ReportsAtMost(events);
  }

  /** One queued report gives way to a new one without the run structure changing. */
  lemma Merged(events: seq<InputEvent>, history: seq<InputEvent>, overflowed: bool, e: InputEvent,
               queue: seq<InputEvent>)
    requires Represents(events, history, overflowed) && e.Report?
    requires queue != [] && queue[|queue| - 1] == e
    requires Structure(queue) == Extend(Structure(events), e)
    requires Reports(queue) == Reports(events) && Barriers(queue) == Barriers(events)
    ensures Represents(queue, history + [e], overflowed)
  {
    hide Reports, Barriers, Lasting, Mask, Structure, Extend;
    StructureAppend(history, e);
    LastingAppend(history, e);
    assert Lasting(history) + [] == Lasting(history);
  }

  lemma Overflowed(events: seq<InputEvent>, history: seq<InputEvent>, overflowed: bool, e: InputEvent)
    requires Represents(events, history, overflowed) && e.Report?
    ensures Represents(Barriers(events) + [e], history + [e], true)
    ensures Reports(Barriers(events) + [e]) == 1 && RunOf(Barriers(events) + [e]) == StableRun(None, Mask(e))
    ensures |events| - |Barriers(events)| == Reports(events)
  {
    hide Reports, Barriers, Lasting, Mask, Structure, RunOf;
    BarriersAlone(events);
    BarriersConcat(Barriers(events), [e]);
    BarriersOfOne(e);
    ReportsConcat(Barriers(events), [e]);
    ReportsOfOne(e);
    RunOfAppend(Barriers(events), e);
    LastingAppend(history, e);
    assert Lasting(history) + [] == Lasting(history) && Barriers(events) + [] == Barriers(events);
  }

  class Mailbox {
    var events: seq<InputEvent>
    var run: StableRun
    var overflowed: bool
    var published: nat
    var coalesced: nat
    var dropped: nat
    var overflows: nat
    /** Everything published since the last drain. */
    ghost var history: seq<InputEvent>
    /** The reports handed out by all drains. */
    ghost var delivered: nat

    ghost predicate Valid()
      reads this
    {
      && run == RunOf(events)
      && published == delivered + Reports(events) + coalesced + dropped
      && Represents(events, history, overflowed)
    }

    constructor ()
      ensures Valid() && history == [] && !overflowed
      ensures published == coalesced == dropped == overflows == 0
    {
      events, run, overflowed := [], NO_RUN, false;
      published, coalesced, dropped, overflows := 0, 0, 0, 0;
      history, delivered := [], 0;
    }

    /**
     * Whatever is published, the queue keeps every barrier and ends with the newest event; it says so
     * when it had to give up the run structure, and it does so only when nothing could be merged.
     */
    method Publish(event: InputEvent)
      requires Valid()
      modifies this
      ensures Valid()
      ensures history == old(history) + [event] && delivered == old(delivered)
      ensures overflowed == (old(overflowed) || MustOverflow(old(events), event))
      ensures overflows == old(overflows) + if MustOverflow(old(events), event) then 1 else 0
      ensures published == old(published) + if event.Report? then 1 else 0
      ensures |old(events)| < CAPACITY ==> coalesced == old(coalesced)
      ensures !MustOverflow(old(events), event) ==> dropped == old(dropped)
      ensures MustOverflow(old(events), event) ==>
        dropped == old(dropped) + Reports(old(events)) && events == Barriers(old(events)) + [event]
    {
      hide Represents, Mask, Reports, Barriers, RunOf, MustOverflow;
      ghost var earlier, queued := history, events;
      history := history + [event];
      SameEmptiness(queued, earlier, overflowed);
      RoomIsEnough(queued, event);
      if !event.Report? {
        if events != [] && Repeats(events[|events| - 1], event) {
          RepeatDropped(queued, earlier, overflowed, event);
          return;
        }
        run := NO_RUN;
        events := events + [event];
        Enqueued(queued, earlier, overflowed, event);
        RunOfAppend(queued, event);
        return;
      }
      published := published + 1;
      var mask := Mask(event);
      if |events| < CAPACITY {
        events := events + [event];
        run := StableRun(run.latest, mask);
        Enqueued(queued, earlier, overflowed, event);
        RunOfAppend(queued, event);
        return;
      }
      PublishUnderPressure(event);
    }

    /** The queue is full: merge the report into its run, drop a middle sample, or keep only the barriers. */
    method PublishUnderPressure(event: InputEvent)
      requires event.Report? && |events| >= CAPACITY
      requires history != [] && history[|history| - 1] == event
      requires run == RunOf(events) && Represents(events, history[..|history| - 1], overflowed)
      modifies this`events, this`run, this`overflowed, this`coalesced, this`dropped, this`overflows
      ensures run == RunOf(events) && Represents(events, history, overflowed)
      ensures overflowed == (old(overflowed) || MustOverflow(old(events), event))
      ensures overflows == old(overflows) + if MustOverflow(old(events), event) then 1 else 0
      ensures Reports(events) + coalesced + dropped == Reports(old(events)) + old(coalesced) + old(dropped) + 1
      ensures !MustOverflow(old(events), event) ==> dropped == old(dropped)
      ensures MustOverflow(old(events), event) ==>
        dropped == old(dropped) + Reports(old(events)) && events == Barriers(old(events)) + [event]
    {
      hide Represents, Mask, Reports, Barriers, RunOf, Structure, Extend;
      ghost var earlier, queued := history[..|history| - 1], events;
      assert history == earlier + [event];
      var mask := Mask(event);
      LatestIsReport(events);
      if mask.Some? && run.latest == mask && run.previous == mask && events[|events| - 1].Report? {
        ReplaceNewest(event);
        Merged(queued, earlier, overflowed, event, events);
        return;
      }
      var redundant := RedundantReportIndex();
      if redundant.Some? {
        var k := redundant.value;
        events := events[..k] + events[k + 1..] + [event];
        run := RebuildRun();
        coalesced := coalesced + 1;
        MiddleGivesWay(queued, k, earlier, overflowed, event);
      } else {
        var kept := RetainBarriers();
        var discarded := |events| - |kept|;
        Overflowed(queued, earlier, overflowed, event);
        events := kept + [event];
        run := StableRun(None, mask);
        overflowed := true;
        dropped := dropped + discarded;
        overflows := overflows + 1;
      }
    }

    /** The newest queued sample gives way to one of the same run. */
    method ReplaceNewest(event: InputEvent)
      requires |events| >= 1 && run == RunOf(events)
      requires event.Report? && Mask(event).Some? && run == StableRun(Mask(event), Mask(event))
      modifies this`events, this`coalesced
      ensures events == old(events)[..|old(events)| - 1] + [event]
      ensures coalesced == old(coalesced) + 1
      ensures Structure(events) == Extend(Structure(old(events)), event)
      ensures run == RunOf(events)
      ensures Reports(events) == Reports(old(events)) && Barriers(events) == Barriers(old(events))
    {
      ghost var queued := events;
      RunOfTells(queued);
      events := events[..|events| - 1];
      events := events + [event];
      coalesced := coalesced + 1;
      NewestSampleReplaced(queued, event);
      var n := |queued| - 1;
      assert queued == queued[..n] + [queued[n]];
      ReportsConcat(queued[..n], [queued[n]]);
      ReportsConcat(queued[..n], [event]);
      ReportsOfOne(queued[n]);
      ReportsOfOne(event);
      BarriersConcat(queued[..n], [queued[n]]);
      BarriersConcat(queued[..n], [event]);
      BarriersOfOne(queued[n]);
      BarriersOfOne(event);
      RunOfAppend(queued[..n], event);
    }

    /** The middle sample of the first run of three, if there is one. */
    method RedundantReportIndex() returns (index: Option<nat>)
      ensures index.Some? ==> IsMiddle(events, index.value)
      ensures index.Some? ==> forall k | 0 <= k < index.value :: !IsMiddle(events, k)
      ensures index.None? ==> forall k :: !IsMiddle(events, k)
    {
      hide Mask;
      var last: Option<(nat, nat)> := None;
      var runLength := 0;
      for i := 0 to |events|
        invariant last.Some? ==> i >= 1 && last.value.0 == i - 1 && Mask(events[i - 1]) == Some(last.value.1)
        invariant last.Some? ==> 1 <= runLength <= 2
        invariant last.Some? ==> (runLength == 2 <==> i >= 2 && Mask(events[i - 2]) == Mask(events[i - 1]))
        invariant last.None? ==> i == 0 || Mask(events[i - 1]).None?
        invariant forall k | 0 <= k && k + 1 < i :: !IsMiddle(events, k)
      {
        var mask := Mask(events[i]);
        if mask.None? {
          last := None;
          runLength := 0;
        } else {
          if last.Some? && last.value.1 == mask.value {
            runLength := runLength + 1;
            if runLength >= 3 {
              return Some(last.value.0);
            }
          } else {
            runLength := 1;
          }
          last := Some((i, mask.value));
        }
      }
      return None;
    }

    method RebuildRun() returns (rebuilt: StableRun)
      ensures rebuilt == RunOf(events)
    {
      rebuilt := NO_RUN;
      for i := 0 to |events|
        invariant rebuilt == RunOf(events[..i])
      {
        assert events[..i + 1] == events[..i] + [events[i]];
        RunOfAppend(events[..i], events[i]);
        rebuilt := if events[i].Report? then StableRun(rebuilt.latest, Mask(events[i])) else NO_RUN;
      }
      assert events[..|events|] == events;
    }

    method RetainBarriers() returns (kept: seq<InputEvent>)
      ensures kept == Barriers(events)
    {
      kept := [];
      for i := 0 to |events|
        invariant kept == Barriers(events[..i])
      {
        assert events[..i + 1] == events[..i] + [events[i]];
        BarriersConcat(events[..i], [events[i]]);
        BarriersOfOne(events[i]);
        if !events[i].Report? {
          kept := kept + [events[i]];
        }
      }
      assert events[..|events|] == events;
    }

    /**
     * A drain hands out the queue. Unless it reports an overflow, the reader sees the very run structure
     * of everything published since the drain before.
     */
    method TakeAll() returns (destination: seq<InputEvent>, overflow: bool)
      requires Valid()
      modifies this
      ensures Valid() && history == [] && events == [] && !overflowed
      ensures destination == old(events) && overflow == old(overflowed)
      ensures !overflow ==> Structure(destination) == Structure(old(history))
      ensures Barriers(destination) == Lasting(old(history))
      ensures old(history) != [] ==>
        destination != [] && destination[|destination| - 1] == old(history)[|old(history)| - 1]
      ensures Reports(destination) <= CAPACITY && delivered == old(delivered) + Reports(destination)
      ensures published == old(published) && coalesced == old(coalesced) && dropped == old(dropped)
    {
      run := NO_RUN;
      destination := events;
      delivered := delivered + Reports(events);
      events := [];
      history := [];
      overflow := overflowed;
      overflowed := false;
    }
  }

  lemma RoomIsEnough(events: seq<InputEvent>, e: InputEvent)
    ensures !e.Report? || |events| < CAPACITY ==> !MustOverflow(events, e)
  {
  }

  lemma SameEmptiness(events: seq<InputEvent>, history: seq<InputEvent>, overflowed: bool)
    requires Represents(events, history, overflowed)
    ensures events == [] <==> history == []
  {
  }

  lemma LatestIsReport(events: seq<InputEvent>)
    ensures events != [] && RunOf(events).latest.Some? ==> events[|events| - 1].Report?
  {
  }

  /** Dropping a middle sample and adding the new one keeps everything the mailbox promises. */
  lemma MiddleGivesWay(events: seq<InputEvent>, k: nat, history: seq<InputEvent>, overflowed: bool, e: InputEvent)
    requires Represents(events, history, overflowed) && IsMiddle(events, k) && e.Report?
    ensures var rest := events[..k] + events[k + 1..] + [e];
      Represents(rest, history + [e], overflowed) && Reports(rest) == Reports(events)
  {
    hide Structure, Extend, Reports, Barriers, Represents, Mask;
    var shorter := events[..k] + events[k + 1..];
    MiddleSampleIsRedundant(events, k);
    StructureAppend(shorter, e);
    MiddleCounts(events, k, e);
    Merged(events, history, overflowed, e, shorter + [e]);
  }

  lemma MiddleCounts(events: seq<InputEvent>, k: nat, e: InputEvent)
    requires IsMiddle(events, k) && e.Report?
    ensures var rest := events[..k] + events[k + 1..] + [e];
      Reports(rest) == Reports(events) && Barriers(rest) == Barriers(events)
  {
    hide Reports, Barriers;
    assert events[k].Report?;
    hide Mask;
    var head, tail := events[..k], events[k + 1..];
    Counts(head, [events[k]] + tail);
    Counts([events[k]], tail);
    Counts(head, tail);
    Counts(head + tail, [e]);
    CountsOfOne(events[k]);
    CountsOfOne(e);
    assert events == head + ([events[k]] + tail);
    assert [] + Barriers(tail) == Barriers(tail);
    assert Barriers(head + tail) + [] == Barriers(head + tail);
  }

  lemma Counts(a: seq<InputEvent>, b: seq<InputEvent>)
    ensures Reports(a + b) == Reports(a) + Reports(b) && Barriers(a + b) == Barriers(a) + Barriers(b)
  {
    ReportsConcat(a, b);
    BarriersConcat(a, b);
  }

  lemma CountsOfOne(e: InputEvent)
    ensures Reports([e]) == (if e.Report? then 1 else 0) && Barriers([e]) == if e.Report? then [] else [e]
  {
    ReportsOfOne(e);
    BarriersOfOne(e);
  }
}
