/** The one-deep queue in front of the USB input endpoint, with its safety neutral. */
module HidQueue {
  import opened Bits

  /** Axes are kept as the 16 bits of their two's complement. */
  datatype Report = Report(buttons: uint16, hat: byte, leftX: uint16, leftY: uint16, rightX: uint16, rightY: uint16,
                           leftTrigger: uint16, rightTrigger: uint16)

  const NEUTRAL_REPORT := Report(0, 8, 0, 0, 0, 0, 0, 0)

  datatype Hid = Hid(
    pending: bool, pendingReport: Report, pendingIsSafety: bool,
    deferred: bool, deferredReport: Report,
    lastValid: bool, last: Report)

  const INITIAL_HID := Hid(true, NEUTRAL_REPORT, true, false, NEUTRAL_REPORT, false, NEUTRAL_REPORT)

  function QueueReport(q: Hid, report: Report, safety: bool): Hid {
    if q.pendingIsSafety && !safety then
      q.(deferredReport := report, deferred := true)
    else
      var r := if safety then q.(deferred := false) else q;
      if r.lastValid && report == r.last then
        r.(pending := false, pendingIsSafety := false)
      else
        r.(pendingReport := report, pending := true, pendingIsSafety := safety)
  }

  /** The endpoint accepted the pending report. */
  function MarkSent(q: Hid): Hid {
    if !q.pending then q
    else
      var r := q.(last := q.pendingReport, lastValid := true, pending := false, pendingIsSafety := false);
      if q.pendingIsSafety && r.deferred then QueueReport(r.(deferred := false), r.deferredReport, false) else r
  }

  /** The report the endpoint will hold once the queue has drained. */
  function Target(q: Hid): Report {
    if q.deferred then q.deferredReport
    else if q.pending then q.pendingReport
    else q.last
  }

  predicate Sound(q: Hid) {
    && (q.pendingIsSafety ==> q.pending && q.pendingReport == NEUTRAL_REPORT)
    && (q.deferred ==> q.pendingIsSafety)
    && (!q.pending ==> q.lastValid)
    && (q.pending && q.lastValid ==> q.pendingReport != q.last)
  }

  /** Latest wins: whatever was pending or deferred, the queue now heads for the report just queued. */
  lemma LatestWins(q: Hid, report: Report, safety: bool)
    requires Sound(q) && (safety ==> report == NEUTRAL_REPORT)
    ensures Sound(QueueReport(q, report, safety))
    ensures Target(QueueReport(q, report, safety)) == report
    ensures QueueReport(q, report, safety).last == q.last && QueueReport(q, report, safety).lastValid == q.lastValid
  {
  }

  /** Accepting a report moves the queue along without changing where it heads, and two acceptances drain it. */
  lemma AcceptanceConverges(q: Hid)
    requires Sound(q)
    ensures Sound(MarkSent(q)) && Target(MarkSent(q)) == Target(q)
    ensures var drained := MarkSent(MarkSent(q));
      !drained.pending && !drained.deferred && drained.lastValid && drained.last == Target(q)
  {
  }
}
