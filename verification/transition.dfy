/**
 * The per-site step of the checker's main loop: merge one probe result with
 * the site's stored record, update the counters and decide, through the
 * debounce flag `alertSent`, whether a DOWN alert, a BACK UP alert or no
 * alert is due. Also `calculate_uptime`, in hundredths of a percent.
 */
module Transition {
  import opened Wrappers
  import opened Probe

  /** The record stored per site name: the latest probe fields plus the history counters. */
  datatype Record = Record(
    probe: ProbeResult,
    lastCheck: string,
    totalChecks: nat,
    successfulChecks: nat,
    uptime: int,            // hundredths of a percent: 9950 stands for 99.50
    alertSent: bool)

  /** An alert that is due; message text and delivery are not modelled. */
  datatype Alert =
    | Down(site: string, url: string, error: Option<string>, lastCheck: Option<string>)
    | Up(site: string, url: string, latency: Option<int>, statusCode: Option<int>)

  /** The new record for a site and the alert, if any, that goes with it. */
  datatype Transition = Transition(record: Record, alert: Option<Alert>)

  /** A positive factor carries the sign of a positive product to the other factor. */
  lemma PositiveFactor(a: int, b: int)
    requires a > 0 && a * b > 0
    ensures b > 0
  {
  }

  /** Integer facts behind the rounding in `CalculateUptime`. */
  lemma UptimeRounding(s: int, t: int)
    requires s >= 0 && t > 0
    ensures var r := (20000 * s + t) / (2 * t);
            && 0 <= 20000 * s + t - 2 * t * r < 2 * t
            && (s <= t ==> 0 <= r <= 10000)
            && (s == 0 ==> r == 0)
            && (s == t ==> r == 10000)
  {
    var n := 20000 * s + t;
    var r, m := n / (2 * t), n % (2 * t);
    assert n == 2 * t * r + m && 0 <= m < 2 * t;
    // 2t(r + 1) = n - m + 2t > 0
    assert 2 * t * (r + 1) == n - m + 2 * t;
    PositiveFactor(2 * t, r + 1);
    if s <= t {
      // 2t(10001 - r) = 20002t - n + m >= 20002t - 20001t > 0
      assert 2 * t * (10001 - r) == 20002 * t - n + m;
      PositiveFactor(2 * t, 10001 - r);
    }
    if s == 0 {
      assert 2 * t * (1 - r) == 2 * t - n + m;
      PositiveFactor(2 * t, 1 - r);
    }
    if s == t {
      assert 2 * t * (r - 9999) == n - m - 19998 * t;
      PositiveFactor(2 * t, r - 9999);
    }
  }

  /**
   * `calculate_uptime`: 100 * successful / total rounded to two decimals,
   * with total defaulting to 1 and successful to 0; the result is in
   * hundredths of a percent, rounded to the nearest (halves up).
   */
  function CalculateUptime(totalChecks: Option<nat>, successfulChecks: Option<nat>): (r: int)
    requires totalChecks.GetOr(1) > 0
    ensures var t, s := totalChecks.GetOr(1), successfulChecks.GetOr(0);
            && 0 <= 20000 * s + t - 2 * t * r < 2 * t
            && (s <= t ==> 0 <= r <= 10000)
            && (s == 0 ==> r == 0)
            && (s == t ==> r == 10000)
  {
    var t: int, s: int := totalChecks.GetOr(1), successfulChecks.GetOr(0);
    UptimeRounding(s, t);
    (20000 * s + t) / (2 * t)
  }

  /** `previous_data.get('total_checks', 0)`. */
  function PriorTotal(prior: Option<Record>): nat {
    if prior.Some? then prior.value.totalChecks else 0
  }

  /** `previous_data.get('successful_checks', 0)`. */
  function PriorSuccessful(prior: Option<Record>): nat {
    if prior.Some? then prior.value.successfulChecks else 0
  }

  /** `previous_data.get('online', True)`: a site never seen is taken to have been online. */
  function WasOnline(prior: Option<Record>): bool {
    prior.None? || prior.value.probe.online
  }

  /** `previous_data.get('alert_sent', False)`. */
  function AlertSentBefore(prior: Option<Record>): bool {
    prior.Some? && prior.value.alertSent
  }

  /** `previous_data.get('last_check', 'Never')`, with `None` for "Never". */
  function PriorLastCheck(prior: Option<Record>): Option<string> {
    if prior.Some? then Some(prior.value.lastCheck) else None
  }

  /**
   * One site's step of the main loop: the new record, always, and the
   * alert, when the site went down with no alert outstanding or came back
   * up with one outstanding.
   */
  function Update(site: Site, prior: Option<Record>, probe: ProbeResult, now: string): (t: Transition)
    ensures t.record.probe == probe && t.record.lastCheck == now
    ensures t.record.totalChecks == PriorTotal(prior) + 1
    ensures t.record.successfulChecks == PriorSuccessful(prior) + (if probe.online then 1 else 0)
    ensures t.record.uptime == CalculateUptime(Some(t.record.totalChecks), Some(t.record.successfulChecks))
    ensures t.alert.Some? && t.alert.value.Down? <==>
              !probe.online && WasOnline(prior) && !AlertSentBefore(prior)
    ensures t.alert.Some? && t.alert.value.Up? <==>
              probe.online && !WasOnline(prior) && AlertSentBefore(prior)
    ensures t.alert.Some? && t.alert.value.Down? ==>
              t.alert.value == Down(site.name, site.url, probe.error, PriorLastCheck(prior)) && t.record.alertSent
    ensures t.alert.Some? && t.alert.value.Up? ==>
              t.alert.value == Up(site.name, site.url, probe.latency, probe.statusCode) && !t.record.alertSent
    ensures t.alert.None? ==> t.record.alertSent == AlertSentBefore(prior)
  {
    var total := PriorTotal(prior) + 1;
    var successful := PriorSuccessful(prior) + (if probe.online then 1 else 0);
    var alertSent := AlertSentBefore(prior);
    var wasOnline := WasOnline(prior);
    var record := Record(probe, now, total, successful,
                         CalculateUptime(Some(total), Some(successful)), alertSent);
    if !probe.online && wasOnline && !alertSent then
      Transition(record.(alertSent := true), Some(Down(site.name, site.url, probe.error, PriorLastCheck(prior))))
    else if probe.online && !wasOnline && alertSent then
      Transition(record.(alertSent := false), Some(Up(site.name, site.url, probe.latency, probe.statusCode)))
    else
      Transition(record, None)
  }

  /**
   * What every stored record satisfies when the store started empty:
   * ordered counters, the derived uptime, and an alert outstanding exactly
   * when the site was last seen down.
   */
  predicate Consistent(r: Record) {
    && 1 <= r.totalChecks
    && r.successfulChecks <= r.totalChecks
    && r.uptime == CalculateUptime(Some(r.totalChecks), Some(r.successfulChecks))
    && r.alertSent == !r.probe.online
  }

  predicate ConsistentOrAbsent(prior: Option<Record>) {
    prior.None? || Consistent(prior.value)
  }

  /**
   * From a consistent record (or none), an update keeps the record
   * consistent, keeps the uptime within 0..100 %, and alerts exactly when
   * the online state changes: DOWN when it is lost, BACK UP when regained.
   */
  lemma UpdateAlertsOnChange(site: Site, prior: Option<Record>, probe: ProbeResult, now: string)
    requires ConsistentOrAbsent(prior)
    ensures var t := Update(site, prior, probe, now);
            && Consistent(t.record)
            && 0 <= t.record.uptime <= 10000
            && (t.alert.Some? <==> probe.online != WasOnline(prior))
            && (t.alert.Some? ==> (t.alert.value.Down? <==> !probe.online))
  {
  }

  /** A site never seen before whose first check fails gets a DOWN alert. */
  lemma FirstFailureAlerts(site: Site, probe: ProbeResult, now: string)
    requires !probe.online
    ensures Update(site, None, probe, now).alert == Some(Down(site.name, site.url, probe.error, None))
    ensures Update(site, None, probe, now).record.alertSent
  {
  }

  /** After a DOWN alert, further failures stay silent and keep the flag set. */
  lemma RepeatedFailureIsSilent(site: Site, prior: Record, probe: ProbeResult, now: string)
    requires !prior.probe.online && prior.alertSent && !probe.online
    ensures Update(site, Some(prior), probe, now).alert.None?
    ensures Update(site, Some(prior), probe, now).record.alertSent
  {
  }

  /** A site down with its alert outstanding that answers again gets one BACK UP alert and the flag clears. */
  lemma RecoveryAlertsUp(site: Site, prior: Record, probe: ProbeResult, now: string)
    requires !prior.probe.online && prior.alertSent && probe.online
    ensures Update(site, Some(prior), probe, now).alert == Some(Up(site.name, site.url, probe.latency, probe.statusCode))
    ensures !Update(site, Some(prior), probe, now).record.alertSent
  {
  }

  /**
   * A DOWN alert is only due when the previous check saw the site up, so
   * its "Last Online" value, the previous `last_check`, is the time of the
   * last check at which the site was up ("Never" when there is none).
   */
  lemma DownAlertFollowsOnlineCheck(site: Site, prior: Option<Record>, probe: ProbeResult, now: string)
    requires Update(site, prior, probe, now).alert.Some? && Update(site, prior, probe, now).alert.value.Down?
    ensures prior.Some? ==> prior.value.probe.online
    ensures Update(site, prior, probe, now).alert.value.lastCheck == PriorLastCheck(prior)
  {
  }

  /** One probe and the time it was recorded. */
  datatype Sample = Sample(probe: ProbeResult, stamp: string)

  /** The last record of a site and the alerts raised, oldest first. */
  datatype History = History(last: Option<Record>, alerts: seq<Alert>)

  function AlertList(alert: Option<Alert>): seq<Alert> {
    if alert.Some? then [alert.value] else []
  }

  /** The same site checked once per sample, as successive runs of the checker would. */
  function Replay(site: Site, prior: Option<Record>, samples: seq<Sample>): (h: History)
    ensures samples != [] ==> h.last.Some?
    ensures samples == [] ==> h.last == prior
    ensures |h.alerts| <= |samples|
    decreases |samples|
  {
    if samples == [] then History(prior, [])
    else
      var t := Update(site, prior, samples[0].probe, samples[0].stamp);
      var rest := Replay(site, Some(t.record), samples[1..]);
      History(rest.last, AlertList(t.alert) + rest.alerts)
  }

  /**
   * The debounce works: over any run of checks from a consistent record (or
   * none), alerts alternate between DOWN and BACK UP, the first one
   * reverses the starting online state, the last one matches the final
   * state, and with no alert at all the online state ends where it began.
   * So each outage gives one DOWN alert and each recovery one BACK UP alert.
   */
  lemma {:induction false} ReplayAlternates(site: Site, prior: Option<Record>, samples: seq<Sample>)
    requires ConsistentOrAbsent(prior)
    ensures var h := Replay(site, prior, samples);
            && ConsistentOrAbsent(h.last)
            && (forall i :: 0 <= i < |h.alerts| - 1 ==> h.alerts[i].Down? != h.alerts[i + 1].Down?)
            && (h.alerts != [] ==> h.alerts[0].Down? == WasOnline(prior))
            && (h.alerts != [] ==> h.alerts[|h.alerts| - 1].Down? == !WasOnline(h.last))
            && (h.alerts == [] ==> WasOnline(h.last) == WasOnline(prior))
    decreases |samples|
  {
    if samples != [] {
      var t := Update(site, prior, samples[0].probe, samples[0].stamp);
      UpdateAlertsOnChange(site, prior, samples[0].probe, samples[0].stamp);
      ReplayAlternates(site, Some(t.record), samples[1..]);
      var rest := Replay(site, Some(t.record), samples[1..]);
      var h := Replay(site, prior, samples);
      assert h.alerts == AlertList(t.alert) + rest.alerts;
      if t.alert.Some? {
        assert forall i :: 1 <= i < |h.alerts| ==> h.alerts[i] == rest.alerts[i - 1];
      }
    }
  }
}
