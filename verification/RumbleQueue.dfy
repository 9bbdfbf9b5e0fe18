/** Rumble feedback to the host: its safety zero, its refresh, its source lease and its quarantine. */
module RumbleQueue {
  import opened Bits

  const REFRESH_MS: uint32 := 25
  const SOURCE_LEASE_MS: uint32 := 250
  const STARTUP_QUIET_MS: uint32 := 250

  datatype Feedback = Feedback(low: uint16, high: uint16)

  const ZERO := Feedback(0, 0)

  predicate Active(f: Feedback) {
    f.low != 0 || f.high != 0
  }

  datatype Rumble = Rumble(
    desired: Feedback,
    pending: bool, pendingFeedback: Feedback, pendingIsSafetyZero: bool, pendingIsRefresh: bool,
    deferred: bool, deferredFeedback: Feedback,
    refreshArmed: bool, leaseArmed: bool, quarantined: bool,
    lastTxMs: uint32, lastSourceMs: uint32, quietSinceMs: uint32)

  const INITIAL_RUMBLE := Rumble(ZERO, true, ZERO, true, false, false, ZERO, false, false, false, 0, 0, 0)

  function QueueFeedback(r: Rumble, f: Feedback, safety: bool): Rumble {
    var q := r.(desired := f, refreshArmed := Active(f));
    if q.pendingIsSafetyZero && !safety && Active(f) then
      q.(deferredFeedback := f, deferred := true)
    else
      q.(deferred := q.deferred && !safety, pendingFeedback := f, pending := true,
         pendingIsSafetyZero := safety, pendingIsRefresh := false)
  }

  function ForceZero(r: Rumble): Rumble {
    QueueFeedback(r.(leaseArmed := false, refreshArmed := false), ZERO, true)
  }

  function Quarantine(r: Rumble, now: uint32): Rumble {
    ForceZero(r.(quarantined := true, quietSinceMs := now))
  }

  /** A rumble packet from the host driver. */
  function FromSource(r: Rumble, f: Feedback, now: uint32): Rumble {
    if !Active(f) then ForceZero(r.(quarantined := false))
    else if r.quarantined then r.(quietSinceMs := now)
    else QueueFeedback(r.(lastSourceMs := now, leaseArmed := true), f, false)
  }

  /** What a tick does before it looks for something to send. */
  function Timers(r: Rumble, now: uint32): Rumble {
    var calm := if r.quarantined && Elapsed(now, r.quietSinceMs) >= STARTUP_QUIET_MS
      then r.(quarantined := false) else r;
    var leased := if LeaseExpired(calm, now) then ForceZero(calm) else calm;
    if !leased.pending && leased.refreshArmed && Elapsed(now, leased.lastTxMs) >= REFRESH_MS
    then leased.(pendingFeedback := leased.desired, pending := true, pendingIsSafetyZero := false,
                 pendingIsRefresh := true)
    else leased
  }

  predicate LeaseExpired(r: Rumble, now: uint32) {
    r.leaseArmed && Elapsed(now, r.lastSourceMs) >= SOURCE_LEASE_MS
  }

  /** The pending feedback has been sent. */
  function Transmitted(r: Rumble, now: uint32): Rumble {
    var q := r.(lastTxMs := now);
    if q.pendingIsSafetyZero && q.deferred then
      q.(pendingFeedback := q.deferredFeedback, pendingIsSafetyZero := false, pendingIsRefresh := false,
         deferred := false, pending := true)
    else
      q.(pending := false, pendingIsSafetyZero := false, pendingIsRefresh := false)
  }

  predicate Sound(r: Rumble) {
    && (r.pendingIsSafetyZero ==> r.pending && r.pendingFeedback == ZERO)
    && (r.deferred ==> r.pendingIsSafetyZero && r.deferredFeedback == r.desired && Active(r.desired))
    && (r.pending && !r.deferred ==> r.pendingFeedback == r.desired)
    && (r.leaseArmed <==> Active(r.desired))
    && (r.refreshArmed <==> Active(r.desired))
    && (r.quarantined ==> !Active(r.desired))
  }

  /** Every way the rumble state moves keeps the lease and the refresh armed exactly for active feedback. */
  lemma RumbleStaysSound(r: Rumble, f: Feedback, now: uint32)
    requires Sound(r)
    ensures Sound(ForceZero(r)) && Sound(Quarantine(r, now)) && Sound(FromSource(r, f, now)) && Sound(Timers(r, now))
    ensures r.pending ==> Sound(Transmitted(r, now))
  {
  }

  /** Only a transmission drains the queue, and then what was sent is what is desired. */
  lemma OnlySendingDrains(r: Rumble, now: uint32)
    requires Sound(r)
    ensures !Timers(r, now).pending ==> !r.pending && Timers(r, now).desired == r.desired
    ensures r.pending && !Transmitted(r, now).pending ==> Transmitted(r, now).desired == r.pendingFeedback
  {
  }
}
