# Website checker: the per-site monitoring state machine

This project models the core of a small uptime and certificate monitor
(`checker.py`). On each run the monitor probes every configured site once.
It merges the probe result with that site's stored record and updates the
counters (`total_checks`, `successful_checks`, `uptime`). The debounce flag
`alert_sent` then decides whether a DOWN alert, a BACK UP alert or no alert
is due. Finally the new record is written back into the status map, which
is keyed by site name.

Modules, one per component:

- `Wrappers` (wrappers.dfy): `Option`, for Python's `None`-or-value fields and `dict.get` defaults.
- `Text` (text.dfy): the substring test (`in`) and `str.split`, with their properties.
- `Probe` (probe.dfy): `check_website`, `check_content`, `check_ssl_expiry` and the hostname slice.
  The network answer, the TLS certificate fetch (a function from hostname to outcome) and the clock are inputs.
- `Transition` (transition.dfy): `calculate_uptime` and the per-site step of `main`.
  The step is a pure `Update(site, prior, probe, now)` that returns the new record and the alert that is due.
  This module also holds the record invariant and the debounce lemmas.
- `Monitor` (monitor.dfy): the loop of `main`, as the method `RunCycle`.
  It updates a `map<string, Record>` site after site.
  It is proved equal to the specification function `Cycle`, and lemmas about `Cycle` give the frame and the invariant.

Representation choices:

- Uptime is kept exactly, in hundredths of a percent: `9950` stands for 99.50 %.
- A stored record nests the probe fields under `probe` instead of flattening them.
- `last_check` is an input timestamp string.
- Certificate expiry and "now" are whole seconds since the epoch.

Behaviour of checker.py worth noting:

- `check_ssl_expiry` is called for every URL, including plain `http` ones.
- When `requests.get` raises, no certificate check is attempted. `ssl_days_remaining` stays `None`.
- The DOWN alert's "Last Online" value is the previous record's `last_check`. A DOWN alert is only due when that previous check saw the site up, so this is the time of the last check at which the site was up, or "Never" for a new site.

## Model

| member | source | states |
|---|---|---|
| Text.Contains | checker.py:96 | Python's `text in body` holds exactly when some position of the body starts a copy of the text |
| Text.Split | checker.py:51 | `str.split` on a non-empty separator always yields at least one piece |
| Text.JoinSplit | checker.py:51 | joining the pieces of a split with the separator gives back the original string |
| Text.SplitPiecesFree | checker.py:51 | no piece of a split contains the separator |
| Text.SplitWithoutSeparator | checker.py:51 | a string in which the separator does not occur splits into itself alone |
| Text.SplitOnePiece | checker.py:51 | a split yields a single piece exactly when the separator does not occur in the string |
| Text.SplitAtLeftmost | checker.py:51 | when a split yields several pieces, the separator occurs right after the first piece and nowhere earlier: the cut is at the leftmost occurrence |
| Text.SplitResumesAfterSeparator | checker.py:51 | the pieces after the first are exactly the split of the text that follows the first piece and its separator |
| Text.SplitAtFirst | checker.py:51 | when the text before a separator cannot start one, that text is the first piece and the rest is split on |
| Probe.CheckContent | checker.py:94-97 | content is valid when no validation text (or an empty one) is configured, and otherwise exactly when the text occurs in the body |
| Probe.HostnameAsWritten | checker.py:51 | the hostname expression as written never yields a string containing `/` |
| Probe.HostnameAsWrittenOfUrl | checker.py:51 | as written, for `scheme://host` followed by nothing or by a path in which `//` does not occur, the hostname is exactly `host` |
| Probe.HostnameAsWrittenMisreadsPath | checker.py:51 | as written, a URL `scheme://host//tail` yields `tail` as its hostname, while the intended reading yields `host` |
| Probe.HostnameAsWrittenExample | checker.py:51 | as written, `https://example.com//status` yields the hostname `status` |
| Probe.Hostname | checker.py:51 | the corrected hostname (text after the first `//`, up to the next `/`) contains no `/` |
| Probe.HostnameOfUrl | checker.py:51 | for `scheme://host` followed by nothing or by a path, the corrected hostname is exactly `host` |
| Probe.CheckSslExpiry | checker.py:49-64 | the certificate is fetched for the host the line-51 expression picks out, as written; a certificate with an expiry gives the whole days left, rounded down; a missing expiry gives "No expiry date"; any failure gives "SSL Error: " and its message |
| Probe.ExpiredCertificateIsNegative | checker.py:61-62 | an already expired certificate gives a negative day count, not an error |
| Probe.ProbeOf | checker.py:66-92 | online exactly when a response with status 200 came back; an exception sets `error` and leaves every other field unset; a response fills status, latency, content check and certificate days |
| Probe.CheckWebsite | checker.py:66-92 | the in-place construction of the result dictionary produces exactly the probe result `ProbeOf` describes |
| Transition.CalculateUptime | checker.py:99-102 | uptime is 100 * successful / total to the nearest hundredth (total defaults to 1, successful to 0); it lies in 0..100 % when successful <= total, is 0 with no success and 100 % with no failure |
| Transition.Update | checker.py:128-169 | total grows by one from its default 0; successful grows by one exactly when the probe is online; uptime is derived from both; DOWN is due exactly when the probe fails, the site was online (default true) and no alert is outstanding (default false), and it sets the flag; BACK UP is due exactly when the probe succeeds, the site was down and an alert is outstanding, and it clears the flag; otherwise the flag carries over |
| Transition.UpdateAlertsOnChange | checker.py:128-169 | from a consistent record or none, the new record is consistent (1 <= total, successful <= total, derived uptime within 0..100 %, flag set exactly when offline) and an alert is due exactly when the online state changes, DOWN when it is lost |
| Transition.FirstFailureAlerts | checker.py:128-158 | a site never seen before whose first check fails gets a DOWN alert with "Never" as its last check, and the flag is set |
| Transition.DownAlertFollowsOnlineCheck | checker.py:148-157 | a DOWN alert is due only when the previous record (if any) was online, and its "Last Online" value is that record's `last_check`, or absent (shown as "Never") with no record |
| Transition.RepeatedFailureIsSilent | checker.py:131-158 | after a DOWN alert, another failure raises no alert and keeps the flag set |
| Transition.RecoveryAlertsUp | checker.py:160-169 | a site that is down with an alert outstanding and answers again gets one BACK UP alert, and the flag is cleared |
| Transition.Replay | checker.py:128-171 | replaying checks of one site ends with a record once there was a check, and raises at most one alert per check |
| Transition.ReplayAlternates | checker.py:128-171 | over any run of checks, alerts alternate DOWN / BACK UP, the first reverses the starting state and the last matches the final state, and records stay consistent: one DOWN per outage, one BACK UP per recovery |
| Monitor.CycleFrame | checker.py:122-173 | a run's map has exactly the old keys plus the processed names, and every other entry (orphaned sites included) is unchanged |
| Monitor.CycleKeepsConsistent | checker.py:122-173 | a run that starts from consistent records (the empty map of a missing store, say) leaves only consistent records |
| Monitor.CycleUpdatesEachSite | checker.py:124-171 | with unique names, each processed site's new record is the update of its own prior record by its own probe |
| Monitor.RunCycle | checker.py:121-173 | the loop's final map and alert sequence are exactly those of `Cycle`; it adds exactly the processed names and leaves all other entries unchanged |

## Left out

- `load_status` and `save_status` (checker.py:38-47): file and JSON I/O. A missing or corrupt store is the empty map, and `CycleKeepsConsistent` covers runs that start from it. The store round trip is not modelled.
- `send_alert` and `create_keyboard` (checker.py:104-119): delivery through the chat bot. The model decides that an alert is due and which one (`Alert`), not the message text.
- `validate_config`, `load_websites` and `WEBSITES` (checker.py:14-35): environment and JSON plumbing. The configured sites are the `sites` parameter of `RunCycle`.
- The network, TLS and date parsing (`requests.get`, `ssl.get_server_certificate`, OpenSSL, `strptime`): their outcomes are inputs (`NetOutcome`, and `CertProbe` per hostname).
- Wall-clock time: latency, the current instant and the `last_check` text are inputs.
- CalculateUptime: rounds halves up in exact arithmetic. Python's `round` on a float can differ from that when the exact value lies half a hundredth from two neighbours.
- CheckSslExpiry: works in whole seconds, so sub-second parts of the current time are ignored when the days are rounded down.
- Stored records that lack some keys (written by another program) are not modelled. A prior record is either whole or absent.
- An exception while reading the response body in `check_content` is not modelled.
- `docs/script.js`: browser page with no logic of its own.

## Findings

| source | as written | input that shows it | evidently intended | confidence | as-written member | corrected member |
|---|---|---|---|---|---|---|
| checker.py:51 | the hostname is the piece after the last `//` in the URL, cut at the next `/` | `https://example.com//status` gives `status`, so the certificate of the wrong host is checked | the host after the scheme's `//`: `example.com` | medium, not executed | Probe.HostnameAsWrittenMisreadsPath | Probe.HostnameOfUrl |
