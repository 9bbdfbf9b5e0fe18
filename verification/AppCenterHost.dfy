/** The host of the app window: who owns a bridge suspension while child processes come and go. */
module AppCenterHost {
  import opened Options

  const LAST_GENERATION: nat := 0xffff_ffff_ffff_ffff

  /** A request on the channel. `origin` is the session whose reader thread sent it. */
  datatype Request = Request(generation: nat, origin: nat)

  /** What the operating system reports of the child. */
  datatype Poll = Running | Exited | WaitFailed | ReaderEnded

  /**
   * Sessions are counted without bound; `child` is the session whose process is held, `readers` are the
   * sessions whose reader thread may still send, `spawns` counts the spawn attempts so far.
   */
  datatype Host = Host(child: Option<nat>, generation: Option<nat>, nextGeneration: nat, owner: Option<nat>,
                       requests: seq<Request>, readers: set<nat>, spawns: nat)

  const NEW_HOST := Host(None, None, 1, None, [], {}, 0)

  /** `wrapping_add(1).max(1)` on 64 bits. */
  function NextGeneration(g: nat): nat {
    if g >= LAST_GENERATION then 1 else g + 1
  }

  /** The generation number that the session of that count is given. */
  function GenerationOf(session: nat): nat
    requires session > 0
  {
    (session - 1) % LAST_GENERATION + 1
  }

  // ----- Transitions -----

  function Discarded(h: Host): Host {
    h.(child := None, generation := None, requests := [],
       readers := if h.child.Some? then h.readers - {h.child.value} else h.readers)
  }

  function Detached(h: Host): Host {
    h.(child := None, generation := None)
  }

  function Reaped(h: Host, poll: Poll): Host {
    if h.child.None? || poll.Running? then h else Discarded(h)
  }

  datatype Launched = Launched(host: Host, result: Option<bool>)

  /** A spawn takes a generation number even when the process then does not start. */
  function Spawned(h: Host, starts: bool): Launched {
    if h.child.Some? || h.owner.Some? then Launched(h, None)
    else
      var counted := h.(nextGeneration := NextGeneration(h.nextGeneration), spawns := h.spawns + 1);
      if starts
      then Launched(counted.(child := Some(h.spawns + 1), generation := Some(h.nextGeneration),
                             readers := h.readers + {h.spawns + 1}),
                    Some(false))
      else Launched(counted, None)
  }

  /** The result is whether an existing window was reused, or nothing on an error. */
  function AfterLaunch(h: Host, poll: Poll, delivered: bool, starts: bool): Launched {
    var r := Reaped(h, poll);
    if r.owner.Some? && r.child.None? then Launched(r, None)
    else if r.child.Some? && delivered then Launched(r, Some(true))
    else if r.child.Some? then
      var d := Discarded(r);
      if d.owner.Some? then Launched(d, None) else Spawned(d, starts)
    else Spawned(r, starts)
  }

  /** A command to the child; a full or broken pipe costs the child. */
  function Commanded(h: Host, delivered: bool): Host {
    if h.child.Some? && !delivered then Discarded(h) else h
  }

  function Claimed(h: Host, g: nat): Host {
    if h.generation == Some(g) && h.owner.None? then h.(owner := Some(g)) else h
  }

  function Released(h: Host, g: nat): Host {
    if h.owner == Some(g) then h.(owner := None) else h
  }

  function Recovered(h: Host): Host {
    if h.child.None? then h.(owner := None) else h
  }

  /** Polls until the child is gone or time is up, and then lets it go. */
  function PolledOut(h: Host, polls: seq<Poll>): Host
    decreases |polls|
  {
    if polls == [] then Detached(h)
    else if h.child.Some? && !polls[0].Running? then Reaped(h, polls[0])
    else PolledOut(h, polls[1..])
  }

  function Stopped(h: Host, delivered: bool, polls: seq<Poll>): Host {
    if h.owner.Some? || h.child.None? then h
    else if !delivered then Discarded(h)
    else PolledOut(h, polls)
  }

  /** Only a reader thread that still runs can send. */
  function Arrived(h: Host, origin: nat): Host {
    if origin in h.readers && origin > 0
    then h.(requests := h.requests + [Request(GenerationOf(origin), origin)])
    else h
  }

  function Current(h: Host, requests: seq<Request>): seq<Request> {
    if requests == [] then []
    else (if Some(requests[0].generation) == h.generation then [requests[0]] else []) + Current(h, requests[1..])
  }

  datatype Event =
    | Launching(poll: Poll, delivered: bool, starts: bool)
    | Commanding(delivered: bool)
    | Claiming(generation: nat)
    | Releasing(generation: nat)
    | Recovering
    | Reaping(poll: Poll)
    | Stopping(delivered: bool, polls: seq<Poll>)
    | Arriving(origin: nat)
    | Draining

  function Step(h: Host, e: Event): Host {
    match e
    case Launching(poll, delivered, starts) => AfterLaunch(h, poll, delivered, starts).host
    case Commanding(delivered) => Commanded(h, delivered)
    case Claiming(g) => Claimed(h, g)
    case Releasing(g) => Released(h, g)
    case Recovering => Recovered(h)
    case Reaping(poll) => Reaped(h, poll)
    case Stopping(delivered, polls) => Stopped(h, delivered, polls)
    case Arriving(origin) => Arrived(h, origin)
    case Draining => h.(requests := [])
  }

  function Run(h: Host, events: seq<Event>): Host
    decreases |events|
  {
    if events == [] then h else Run(Step(h, events[0]), events[1..])
  }

  // ----- The invariant -----

  predicate Inv(h: Host) {
    && h.nextGeneration == GenerationOf(h.spawns + 1)
    && (h.child.None? <==> h.generation.None?)
    && (h.child.Some? ==> 0 < h.child.value <= h.spawns && h.generation == Some(GenerationOf(h.child.value)))
    && (h.owner.Some? && h.child.Some? ==> h.owner == h.generation)
    && (forall r <- h.readers :: 0 < r <= h.spawns)
    && (forall i | 0 <= i < |h.requests| ::
          0 < h.requests[i].origin <= h.spawns && h.requests[i].generation == GenerationOf(h.requests[i].origin))
  }

  lemma ModuloIs(n: nat, q: int, r: nat, m: nat)
    requires r < m && n == q * m + r
    ensures n % m == r
  {
    var d := n / m - q;
    assert d * m == r - n % m;
  }

  lemma ModuloSuccessor(n: nat, m: nat)
    requires m > 0
    ensures (n + 1) % m == if n % m == m - 1 then 0 else n % m + 1
  {
    if n % m == m - 1 {
      ModuloIs(n + 1, n / m + 1, 0, m);
    } else {
      ModuloIs(n + 1, n / m, n % m + 1, m);
    }
  }

  lemma GenerationAdvances(session: nat)
    requires session > 0
    ensures GenerationOf(session + 1) == NextGeneration(GenerationOf(session))
  {
    ModuloSuccessor(session - 1, LAST_GENERATION);
  }

  /** Two sessions share a generation number exactly when whole cycles of the counter lie between them. */
  lemma GenerationsDistinguish(a: nat, b: nat)
    requires 0 < a <= b
    ensures GenerationOf(a) == GenerationOf(b) <==> (b - a) % LAST_GENERATION == 0
    ensures b - a < LAST_GENERATION ==> (GenerationOf(a) == GenerationOf(b) <==> a == b)
  {
    var m := LAST_GENERATION;
    var qa, qb := (a - 1) / m, (b - 1) / m;
    var ra, rb := (a - 1) % m, (b - 1) % m;
    assert b - a == (qb - qa) * m + (rb - ra);
    assert ra == rb ==> (b - a) % m == 0;
  }

  lemma SpawnKeepsInv(h: Host, starts: bool)
    requires Inv(h)
    ensures Inv(Spawned(h, starts).host)
  {
    hide GenerationOf, NextGeneration;
    GenerationAdvances(h.spawns + 1);
  }

  lemma StepKeepsInv(h: Host, e: Event)
    requires Inv(h)
    ensures Inv(Step(h, e))
  {
    hide GenerationOf, NextGeneration, Spawned;
    match e
    case Launching(poll, _, starts) =>
      SpawnKeepsInv(Reaped(h, poll), starts);
      SpawnKeepsInv(Discarded(Reaped(h, poll)), starts);
    case Stopping(_, polls) => PollingKeepsInv(h, polls);
    case _ =>
  }

  lemma {:induction false} PollingKeepsInv(h: Host, polls: seq<Poll>)
    requires Inv(h)
    ensures Inv(PolledOut(h, polls))
    ensures PolledOut(h, polls).owner == h.owner && PolledOut(h, polls).spawns == h.spawns
    ensures PolledOut(h, polls).child in {None, h.child}
    decreases |polls|
  {
    hide GenerationOf;
    if polls != [] && !(h.child.Some? && !polls[0].Running?) {
      PollingKeepsInv(h, polls[1..]);
    }
  }

  lemma {:induction false} RunKeepsInv(h: Host, events: seq<Event>)
    requires Inv(h)
    ensures Inv(Run(h, events))
    decreases |events|
  {
    hide Inv, Step;
    if events != [] {
      StepKeepsInv(h, events[0]);
      RunKeepsInv(Step(h, events[0]), events[1..]);
    }
  }

  // ----- Suspensions -----

  /** The events that may end the ownership of a suspension: its owner's release, or recovery without a child. */
  predicate EndsOwnership(h: Host, e: Event) {
    && h.owner.Some?
    && (e == Releasing(h.owner.value) || (e.Recovering? && h.child.None?))
  }

  /** While a suspension is owned, nothing but its end touches it, and no other child comes to life. */
  lemma OwnershipIsStable(h: Host, e: Event)
    requires Inv(h) && h.owner.Some?
    ensures Step(h, e).owner == if EndsOwnership(h, e) then None else h.owner
    ensures Step(h, e).child in {None, h.child} && Step(h, e).spawns == h.spawns
  {
    hide GenerationOf, NextGeneration;
  }

  /**
   * No suspension is orphaned: over any run in which its owner does not release it and it is not
   * recovered without a child, the suspension stays owned by the same generation, and the only child
   * there can be is the one that was there.
   */
  lemma {:induction false} SuspensionIsNeverOrphaned(h: Host, events: seq<Event>)
    requires Inv(h) && h.owner.Some?
    requires forall i | 0 <= i < |events| :: !EndsOwnership(Run(h, events[..i]), events[i])
    ensures Run(h, events).owner == h.owner && Run(h, events).spawns == h.spawns
    ensures Run(h, events).child in {None, h.child}
    decreases |events|
  {
    hide Inv, Step, EndsOwnership;
    if events != [] {
      var e, t := events[0], Step(h, events[0]);
      assert Run(h, events[..0]) == h;
      OwnershipIsStable(h, e);
      StepKeepsInv(h, e);
      forall i | 0 <= i < |events[1..]|
        ensures !EndsOwnership(Run(t, events[1..][..i]), events[1..][i])
      {
        assert events[..i + 1][0] == e && events[..i + 1][1..] == events[1..][..i];
        assert Run(h, events[..i + 1]) == Run(t, events[1..][..i]);
      }
      SuspensionIsNeverOrphaned(t, events[1..]);
    }
  }

  /** In every run, an owner that still has a child is that child; one without a child can be recovered. */
  lemma OwnerIsLiveOrRecoverable(events: seq<Event>)
    ensures var h := Run(NEW_HOST, events);
      h.owner.Some? ==>
        if h.child.Some? then h.child.value > 0 && h.owner == h.generation == Some(GenerationOf(h.child.value))
        else Step(h, Recovering).owner.None?
  {
    NewHostIsSound();
    RunKeepsInv(NEW_HOST, events);
  }

  lemma NewHostIsSound()
    ensures Inv(NEW_HOST)
  {
  }

  // ----- What begins and ends -----

  /** A suspension begins exactly with the claim of the present child, and is that child's. */
  lemma SuspensionBeginsExactly(h: Host, e: Event)
    requires Inv(h) && h.owner.None?
    ensures Step(h, e).owner.Some?
       <==> e.Claiming? && h.child.Some? && h.child.value > 0 && e.generation == GenerationOf(h.child.value)
    ensures Step(h, e).owner.Some? ==> Step(h, e).owner == Some(e.generation)
    ensures e.Claiming? ==> Step(h, e) == h.(owner := Step(h, e).owner)
  {
    hide GenerationOf, NextGeneration;
    if e.Stopping? && e.delivered && h.child.Some? {
      PollingLeavesOwner(h, e.polls);
    }
  }

  lemma {:induction false} PollingLeavesOwner(h: Host, polls: seq<Poll>)
    requires h.child.Some?
    ensures var t := PolledOut(h, polls); t.owner == h.owner && t.child.None? && t.generation.None?
    ensures var t := PolledOut(h, polls); t.spawns == h.spawns && t.nextGeneration == h.nextGeneration
    decreases |polls|
  {
    if polls != [] && polls[0].Running? {
      PollingLeavesOwner(h, polls[1..]);
    } else if polls != [] {
      assert Reaped(h, polls[0]).child.None?;
    }
  }

  /** The first child can claim a suspension, release it, and claim it again. */
  lemma ASuspensionLives()
    ensures var claimed := Run(NEW_HOST, [LAUNCH, Claiming(1)]);
      && claimed.owner == Some(1) && claimed.child == Some(1)
      && Run(claimed, [Releasing(1)]).owner.None?
      && Run(claimed, [Releasing(1), Claiming(1)]) == claimed
      && Run(claimed, [Reaping(Exited)]).child.None? && Run(claimed, [Reaping(Exited)]).owner == Some(1)
      && Run(claimed, [Reaping(Exited), Recovering]).owner.None?
  {
    var first := Step(NEW_HOST, LAUNCH);
    assert first == Host(Some(1), Some(1), 2, None, [], {1}, 1);
    var claimed := Step(first, Claiming(1));
    TwoSteps(NEW_HOST, LAUNCH, Claiming(1));
    TwoSteps(claimed, Releasing(1), Claiming(1));
    TwoSteps(claimed, Reaping(Exited), Recovering);
    OneStep(claimed, Releasing(1));
    OneStep(claimed, Reaping(Exited));
  }

  lemma OneStep(h: Host, e: Event)
    ensures Run(h, [e]) == Step(h, e)
  {
    hide Step;
    assert [e][1..] == [];
  }

  /** The events that find the child gone, cannot reach it, or stop it. */
  predicate LosesChild(h: Host, e: Event) {
    match e
    case Launching(poll, delivered, _) => !poll.Running? || !delivered
    case Commanding(delivered) => !delivered
    case Reaping(poll) => !poll.Running?
    case Stopping(_, _) => h.owner.None?
    case _ => false
  }

  /**
   * The child is kept as long as it is found alive, reached, and not stopped; a new one comes to life
   * exactly when an app window is launched without a child being left and without a suspension being owned,
   * and the process starts. It has the next number, and every lost child takes its requests with it.
   */
  lemma ChildLivesExactly(h: Host, e: Event)
    requires Inv(h)
    ensures var t := Step(h, e);
      && (t.child == h.child <==> if h.child.Some? then !LosesChild(h, e) else !Spawns(h, e))
      && (t.child != h.child ==> t.child == if Spawns(h, e) then Some(h.spawns + 1) else None)
      && (t.spawns != h.spawns ==> e.Launching? && t.spawns == h.spawns + 1)
      && (h.child.Some? && LosesChild(h, e) && !e.Stopping? ==> t.requests == [] && h.child.value !in t.readers)
  {
    hide GenerationOf, NextGeneration;
    if e.Stopping? && e.delivered && h.child.Some? && h.owner.None? {
      PollingLeavesOwner(h, e.polls);
    }
  }

  predicate Spawns(h: Host, e: Event) {
    && e.Launching? && e.starts
    && h.owner.None?
    && (h.child.None? || LosesChild(h, e))
  }

  /** A launch reports a reused window, a new one, or an error, as it is. */
  lemma LaunchReports(h: Host, poll: Poll, delivered: bool, starts: bool)
    requires Inv(h)
    ensures var l := AfterLaunch(h, poll, delivered, starts);
      && (l.result == Some(true) <==> h.child.Some? && l.host.child == h.child)
      && (l.result == Some(false) <==> l.host.child.Some? && l.host.child != h.child)
      && (l.result.None? <==> l.host.child.None?)
  {
    hide GenerationOf, NextGeneration;
  }

  // ----- Requests -----

  /**
   * Requests join the queue exactly as the reader of a session that may still send hands them over, tagged
   * with that session's number; a drain empties it; and a lost child, unless stopped, clears it.
   */
  lemma RequestsQueueExactly(h: Host, e: Event)
    requires Inv(h) && !e.Stopping? && !(h.child.Some? && LosesChild(h, e))
    ensures Step(h, e).requests ==
      if e.Draining? then []
      else if e.Arriving? && e.origin in h.readers && e.origin > 0
      then h.requests + [Request(GenerationOf(e.origin), e.origin)]
      else h.requests
  {
    hide GenerationOf, NextGeneration;
  }

  lemma {:induction false} CurrentComeFrom(h: Host, requests: seq<Request>)
    requires h.child.Some? && h.child.value > 0 && h.generation == Some(GenerationOf(h.child.value))
    requires forall i | 0 <= i < |requests| ::
      requests[i].origin > 0 && requests[i].generation == GenerationOf(requests[i].origin)
    ensures forall i | 0 <= i < |Current(h, requests)| ::
      Current(h, requests)[i] in requests && GenerationOf(Current(h, requests)[i].origin) == GenerationOf(h.child.value)
    decreases |requests|
  {
    hide GenerationOf;
    if requests != [] {
      CurrentComeFrom(h, requests[1..]);
    }
  }

  /**
   * A drain yields only requests of the present child, as long as at most 2^64 - 1 spawns have been
   * attempted; beyond that, of sessions whole cycles of the counter away as well.
   */
  lemma DrainYieldsOnlyCurrent(events: seq<Event>, i: nat)
    requires var h := Run(NEW_HOST, events); i < |Current(h, h.requests)|
    ensures var h := Run(NEW_HOST, events);
      && h.child.Some? && h.child.value > 0
      && Current(h, h.requests)[i].origin > 0
      && (h.spawns <= LAST_GENERATION ==> Current(h, h.requests)[i].origin == h.child.value)
      && GenerationOf(Current(h, h.requests)[i].origin) == GenerationOf(h.child.value)
  {
    hide GenerationOf, Run;
    var h := Run(NEW_HOST, events);
    NewHostIsSound();
    RunKeepsInv(NEW_HOST, events);
    if h.child.None? {
      NothingCurrent(h, h.requests);
    } else {
      CurrentComeFrom(h, h.requests);
      var o, c := Current(h, h.requests)[i].origin, h.child.value;
      if o <= c { GenerationsDistinguish(o, c); } else { GenerationsDistinguish(c, o); }
    }
  }

  lemma {:induction false} NothingCurrent(h: Host, requests: seq<Request>)
    requires h.generation.None?
    ensures Current(h, requests) == []
    decreases |requests|
  {
    if requests != [] {
      NothingCurrent(h, requests[1..]);
    }
  }

  // Past the bound a detached reader that outlives a whole cycle of the counter is taken for current.

  const FAILED_LAUNCH := Launching(Running, true, false)
  const LAUNCH := Launching(Running, true, true)
  const LET_GO := Stopping(true, [])

  function FailedLaunches(n: nat): seq<Event> {
    seq(n, _ => FAILED_LAUNCH)
  }

  lemma {:induction false} FailedLaunchesOnlyCount(h: Host, n: nat)
    requires h.child.None? && h.owner.None? && h.nextGeneration == GenerationOf(h.spawns + 1)
    ensures Run(h, FailedLaunches(n)) == h.(spawns := h.spawns + n, nextGeneration := GenerationOf(h.spawns + n + 1))
    decreases n
  {
    hide GenerationOf, NextGeneration;
    if n > 0 {
      GenerationAdvances(h.spawns + 1);
      var t := Step(h, FAILED_LAUNCH);
      assert FailedLaunches(n)[1..] == FailedLaunches(n - 1);
      FailedLaunchesOnlyCount(t, n - 1);
    }
  }

  lemma {:induction false} RunConcat(h: Host, a: seq<Event>, b: seq<Event>)
    ensures Run(h, a + b) == Run(Run(h, a), b)
    decreases |a|
  {
    hide Step;
    if a == [] {
      assert a + b == b;
    } else {
      assert (a + b)[1..] == a[1..] + b;
      RunConcat(Step(h, a[0]), a[1..], b);
    }
  }

  /** Session `k` is spawned and let go, a whole cycle of spawns passes, and then its reader speaks up. */
  function WrappedRun(k: nat): seq<Event>
    requires k > 0
  {
    FailedLaunches(k - 1) + ([LAUNCH, LET_GO] + (FailedLaunches(LAST_GENERATION - 1) + [LAUNCH, Arriving(k)]))
  }

  lemma TwoSteps(h: Host, a: Event, b: Event)
    ensures Run(h, [a, b]) == Step(Step(h, a), b)
  {
    hide Step;
    assert [a, b][1..] == [b] && [b][1..] == [];
    assert Run(h, [a, b]) == Run(Step(h, a), [b]);
  }

  lemma WrappedRunInParts(k: nat)
    requires k > 0
    ensures var idle := Run(NEW_HOST, FailedLaunches(k - 1));
      var gone := Step(Step(idle, LAUNCH), LET_GO);
      Run(NEW_HOST, WrappedRun(k)) == Step(Step(Run(gone, FailedLaunches(LAST_GENERATION - 1)), LAUNCH), Arriving(k))
  {
    hide Step, Run, FailedLaunches;
    var idle := Run(NEW_HOST, FailedLaunches(k - 1));
    var cycle, last := FailedLaunches(LAST_GENERATION - 1), [LAUNCH, Arriving(k)];
    RunConcat(NEW_HOST, FailedLaunches(k - 1), [LAUNCH, LET_GO] + (cycle + last));
    RunConcat(idle, [LAUNCH, LET_GO], cycle + last);
    TwoSteps(idle, LAUNCH, LET_GO);
    RunConcat(Step(Step(idle, LAUNCH), LET_GO), cycle, last);
    TwoSteps(Run(Step(Step(idle, LAUNCH), LET_GO), cycle), LAUNCH, Arriving(k));
  }

  /** A whole cycle after it, the request of any session passes for one of the present child. */
  lemma OldRequestAfterWrap(k: nat)
    requires k > 0
    ensures var h := Run(NEW_HOST, WrappedRun(k));
      && h.spawns == k + LAST_GENERATION
      && h.child == Some(k + LAST_GENERATION)
      && h.generation == Some(GenerationOf(k)) == Some(GenerationOf(k + LAST_GENERATION))
      && Current(h, h.requests) == h.requests == [Request(GenerationOf(k), k)]
  {
    hide GenerationOf, NextGeneration, Run, FailedLaunches;
    var m := LAST_GENERATION;
    FirstGeneration();
    FailedLaunchesOnlyCount(NEW_HOST, k - 1);
    var idle := Run(NEW_HOST, FailedLaunches(k - 1));
    GenerationAdvances(k);
    var gone := Step(Step(idle, LAUNCH), LET_GO);
    assert gone == Host(None, None, GenerationOf(k + 1), None, [], {k}, k);
    FailedLaunchesOnlyCount(gone, m - 1);
    var wrapped := Run(gone, FailedLaunches(m - 1));
    WholeCycle(k);
    assert wrapped == Host(None, None, GenerationOf(k), None, [], {k}, k + m - 1);
    WrappedRunInParts(k);
    var h := Step(Step(wrapped, LAUNCH), Arriving(k));
    assert h.requests == [Request(GenerationOf(k), k)] && h.requests[1..] == [];
  }

  lemma FirstGeneration()
    ensures GenerationOf(1) == 1
  {
  }

  lemma WholeCycle(k: nat)
    requires k > 0
    ensures GenerationOf(k + LAST_GENERATION) == GenerationOf(k)
  {
    GenerationsDistinguish(k, k + LAST_GENERATION);
  }

  /** A drain would yield a request of a session other than the present child. */
  ghost predicate YieldsForeign(h: Host) {
    exists i | 0 <= i < |Current(h, h.requests)| :: h.child != Some(Current(h, h.requests)[i].origin)
  }

  /** The bound is exact: some run of so many spawn attempts yields a foreign request just when it is passed. */
  lemma ForeignRequestsExactlyPastTheBound(spawns: nat)
    ensures (exists events :: Run(NEW_HOST, events).spawns == spawns && YieldsForeign(Run(NEW_HOST, events)))
       <==> spawns > LAST_GENERATION
  {
    hide Run, GenerationOf;
    if spawns > LAST_GENERATION {
      var k := spawns - LAST_GENERATION;
      var h := Run(NEW_HOST, WrappedRun(k));
      OldRequestAfterWrap(k);
      assert Current(h, h.requests)[0].origin == k;
      assert h.spawns == spawns && YieldsForeign(h);
    }
    forall events | Run(NEW_HOST, events).spawns == spawns && YieldsForeign(Run(NEW_HOST, events))
      ensures spawns > LAST_GENERATION
    {
      var h := Run(NEW_HOST, events);
      var i :| 0 <= i < |Current(h, h.requests)| && h.child != Some(Current(h, h.requests)[i].origin);
      DrainYieldsOnlyCurrent(events, i);
    }
  }

  // ----- The host object -----

  class AppCenterHost {
    var child: Option<nat>
    var generation: Option<nat>
    var nextGeneration: nat
    var suspensionOwner: Option<nat>
    var requests: seq<Request>
    var readers: set<nat>
    var spawns: nat

    ghost function View(): Host
      reads this
    {
      Host(child, generation, nextGeneration, suspensionOwner, requests, readers, spawns)
    }

    constructor ()
      ensures View() == NEW_HOST
    {
      child, generation, nextGeneration, suspensionOwner := None, None, 1, None;
      requests, readers, spawns := [], {}, 0;
    }

    method Launch(poll: Poll, delivered: bool, starts: bool) returns (result: Option<bool>)
      modifies this
      ensures Launched(View(), result) == AfterLaunch(old(View()), poll, delivered, starts)
    {
      var _ := Reap(poll);
      if suspensionOwner.Some? && child.None? {
        return None;
      }
      if child.Some? {
        var ok := SendCommand(delivered);
        if ok {
          return Some(true);
        }
        if suspensionOwner.Some? {
          return None;
        }
      }
      result := Spawn(starts);
    }

    method Spawn(starts: bool) returns (result: Option<bool>)
      modifies this
      ensures Launched(View(), result) == Spawned(old(View()), starts)
    {
      if child.Some? || suspensionOwner.Some? {
        return None;
      }
      var taken := nextGeneration;
      nextGeneration := NextGeneration(nextGeneration);
      spawns := spawns + 1;
      if !starts {
        return None;
      }
      readers := readers + {spawns};
      generation := Some(taken);
      child := Some(spawns);
      return Some(false);
    }

    method Drain() returns (drained: seq<Request>)
      modifies this`requests
      ensures drained == Current(old(View()), old(requests)) && View() == Step(old(View()), Draining)
    {
      drained := [];
      ghost var host, all := View(), requests;
      assert all[..0] == [];
      for i := 0 to |requests|
        invariant requests == all && View() == host
        invariant drained + Current(host, all[i..]) == Current(host, all)
      {
        assert all[i..][0] == all[i] && all[i..][1..] == all[i + 1..];
        if Some(requests[i].generation) == generation {
          drained := drained + [requests[i]];
        }
      }
      requests := [];
    }

    method SendCommand(delivered: bool) returns (ok: bool)
      modifies this
      ensures View() == Commanded(old(View()), delivered)
      ensures ok == (old(child).Some? && delivered)
    {
      if child.None? {
        return false;
      }
      if !delivered {
        DiscardChild();
      }
      return delivered;
    }

    method ClaimSuspension(g: nat) returns (ok: bool)
      modifies this`suspensionOwner
      ensures View() == Claimed(old(View()), g)
      ensures ok == (generation == Some(g) && suspensionOwner == Some(g))
    {
      if generation != Some(g) {
        return false;
      }
      if suspensionOwner.None? {
        suspensionOwner := Some(g);
      }
      return suspensionOwner == Some(g);
    }

    method ReleaseSuspension(g: nat) returns (ok: bool)
      modifies this`suspensionOwner
      ensures View() == Released(old(View()), g)
      ensures ok == suspensionOwner.None?
    {
      if suspensionOwner == Some(g) {
        suspensionOwner := None;
      }
      return suspensionOwner.None?;
    }

    method CompleteSuspensionRecovery()
      modifies this`suspensionOwner
      ensures View() == Recovered(old(View()))
    {
      if child.None? {
        suspensionOwner := None;
      }
    }

    method Reap(poll: Poll) returns (gone: bool)
      modifies this
      ensures View() == Reaped(old(View()), poll)
      ensures gone == (old(child).Some? && !poll.Running?)
    {
      if child.None? || poll.Running? {
        return false;
      }
      DiscardChild();
      return true;
    }

    /** `polls` are what the child's state is found to be until the time allowed for a graceful stop is over. */
    method Stop(delivered: bool, polls: seq<Poll>) returns (ok: bool)
      modifies this
      ensures View() == Stopped(old(View()), delivered, polls)
      ensures ok == (old(suspensionOwner).None? && (old(child).None? || delivered))
    {
      if suspensionOwner.Some? {
        return false;
      }
      if child.None? {
        return true;
      }
      var sent := SendCommand(delivered);
      if !sent {
        return false;
      }
      ghost var host := View();
      for i := 0 to |polls|
        invariant View() == host
        invariant PolledOut(host, polls) == PolledOut(host, polls[i..])
      {
        assert polls[i..][0] == polls[i] && polls[i..][1..] == polls[i + 1..];
        var gone := Reap(polls[i]);
        if gone {
          return true;
        }
      }
      DetachChild();
      return true;
    }

    method DiscardChild()
      modifies this`child, this`generation, this`requests, this`readers
      ensures View() == Discarded(old(View()))
    {
      if child.Some? {
        readers := readers - {child.value};
      }
      child := None;
      generation := None;
      requests := [];
    }

    method DetachChild()
      modifies this`child, this`generation
      ensures View() == Detached(old(View()))
    {
      child := None;
      generation := None;
    }
  }
}
