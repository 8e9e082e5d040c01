/**
 * One run of the checker (`main` in checker.py): for each configured site in
 * order, probe it, merge the result with the site's stored record, collect
 * the alert that is due, and write the new record back into the name-keyed
 * status map. Loading and saving the map, and sending alerts, are I/O.
 */
module Monitor {
  import opened Wrappers
  import opened Probe
  import opened Transition

  /** What the outside world gives one site's check: network answer, TLS endpoint and clock. */
  datatype Observation = Observation(
    net: NetOutcome,
    tls: string -> CertProbe,   // certificate fetch by hostname
    nowSeconds: int,            // clock read for the certificate's days left, seconds since the epoch
    stamp: string)              // the time of the check, formatted for `last_check`

  /** The status map after a run, and the alerts sent during it, in order. */
  datatype CycleResult = CycleResult(status: map<string, Record>, alerts: seq<Alert>)

  /** `status.get(name)`, with a missing entry as `None` (Python's `{}` default). */
  function Lookup(status: map<string, Record>, name: string): Option<Record> {
    if name in status then Some(status[name]) else None
  }

  function Names(sites: seq<Site>): set<string> {
    set i | 0 <= i < |sites| :: sites[i].name
  }

  lemma NamesCons(sites: seq<Site>)
    requires sites != []
    ensures Names(sites) == {sites[0].name} + Names(sites[1..])
  {
    forall i | 0 <= i < |sites| ensures sites[i].name in {sites[0].name} + Names(sites[1..]) {
      if i > 0 { assert sites[i].name == sites[1..][i - 1].name; }
    }
    forall i | 0 <= i < |sites[1..]| ensures sites[1..][i].name in Names(sites) {
      assert sites[1..][i] == sites[i + 1];
    }
  }

  /** Configured site names are unique. */
  predicate UniqueNames(sites: seq<Site>) {
    forall i, j :: 0 <= i < j < |sites| ==> sites[i].name != sites[j].name
  }

  /** Every stored record satisfies the record invariant. */
  predicate AllConsistent(status: map<string, Record>) {
    forall name :: name in status ==> Consistent(status[name])
  }

  /** The transition of one site against the current map. */
  function StepOf(status: map<string, Record>, site: Site, obs: Observation): Transition {
    Update(site, Lookup(status, site.name), ProbeOf(site, obs.net, obs.tls, obs.nowSeconds), obs.stamp)
  }

  /** The whole run, site after site, as a function of the map it starts from. */
  function Cycle(status: map<string, Record>, sites: seq<Site>, obs: seq<Observation>): (c: CycleResult)
    requires |sites| == |obs|
    decreases |sites|
  {
    if sites == [] then CycleResult(status, [])
    else
      var t := StepOf(status, sites[0], obs[0]);
      var rest := Cycle(status[sites[0].name := t.record], sites[1..], obs[1..]);
      CycleResult(rest.status, AlertList(t.alert) + rest.alerts)
  }

  /** A run writes exactly the processed names and leaves every other entry, orphans included, as it was. */
  lemma {:induction false} CycleFrame(status: map<string, Record>, sites: seq<Site>, obs: seq<Observation>)
    requires |sites| == |obs|
    ensures Cycle(status, sites, obs).status.Keys == status.Keys + Names(sites)
    ensures forall name :: name in status && name !in Names(sites) ==>
              Cycle(status, sites, obs).status[name] == status[name]
    decreases |sites|
  {
    if sites != [] {
      var t := StepOf(status, sites[0], obs[0]);
      CycleFrame(status[sites[0].name := t.record], sites[1..], obs[1..]);
      NamesCons(sites);
    }
  }

  /** A run that starts from consistent records (an empty map, say) leaves only consistent records. */
  lemma {:induction false} CycleKeepsConsistent(status: map<string, Record>, sites: seq<Site>, obs: seq<Observation>)
    requires |sites| == |obs| && AllConsistent(status)
    ensures AllConsistent(Cycle(status, sites, obs).status)
    decreases |sites|
  {
    if sites != [] {
      var probe := ProbeOf(sites[0], obs[0].net, obs[0].tls, obs[0].nowSeconds);
      UpdateAlertsOnChange(sites[0], Lookup(status, sites[0].name), probe, obs[0].stamp);
      var t := StepOf(status, sites[0], obs[0]);
      CycleKeepsConsistent(status[sites[0].name := t.record], sites[1..], obs[1..]);
    }
  }

  /** With unique names, each site's new record is its own update of its own prior record. */
  lemma {:induction false} CycleUpdatesEachSite(status: map<string, Record>, sites: seq<Site>, obs: seq<Observation>)
    requires |sites| == |obs| && UniqueNames(sites)
    ensures forall i :: 0 <= i < |sites| ==>
              && sites[i].name in Cycle(status, sites, obs).status
              && Cycle(status, sites, obs).status[sites[i].name] == StepOf(status, sites[i], obs[i]).record
    decreases |sites|
  {
    if sites != [] {
      var n0 := sites[0].name;
      var t := StepOf(status, sites[0], obs[0]);
      var next := status[n0 := t.record];
      var result := Cycle(status, sites, obs).status;
      CycleFrame(next, sites[1..], obs[1..]);
      CycleUpdatesEachSite(next, sites[1..], obs[1..]);
      assert n0 !in Names(sites[1..]) by {
        forall i | 0 <= i < |sites[1..]| ensures sites[1..][i].name != n0 {
          assert sites[1..][i] == sites[i + 1];
        }
      }
      forall i | 0 <= i < |sites|
        ensures sites[i].name in result && result[sites[i].name] == StepOf(status, sites[i], obs[i]).record
      {
        if i > 0 {
          assert sites[1..][i - 1] == sites[i] && obs[1..][i - 1] == obs[i];
          assert Lookup(next, sites[i].name) == Lookup(status, sites[i].name);
        }
      }
    }
  }

  /** A run over at least one site is that site's step followed by the run over the others. */
  lemma CycleUnfold(status: map<string, Record>, sites: seq<Site>, obs: seq<Observation>)
    requires |sites| == |obs| && sites != []
    ensures var t := StepOf(status, sites[0], obs[0]);
            var rest := Cycle(status[sites[0].name := t.record], sites[1..], obs[1..]);
            Cycle(status, sites, obs) == CycleResult(rest.status, AlertList(t.alert) + rest.alerts)
  {
  }

  lemma AppendAssociates<T>(a: seq<T>, b: seq<T>, c: seq<T>)
    ensures a + b + c == a + (b + c)
  {
  }

  /** What the loop of `RunCycle` keeps: the map and alerts so far, followed by the rest of the run, make the whole run. */
  ghost predicate RunSoFar(status0: map<string, Record>, sites: seq<Site>, obs: seq<Observation>,
                           i: nat, status: map<string, Record>, alerts: seq<Alert>)
    requires |sites| == |obs| && i <= |sites|
  {
    var rest := Cycle(status, sites[i..], obs[i..]);
    CycleResult(rest.status, alerts + rest.alerts) == Cycle(status0, sites, obs)
  }

  /** Processing site `i` with its step moves the loop of `RunCycle` one site on. */
  lemma RunSoFarStep(status0: map<string, Record>, sites: seq<Site>, obs: seq<Observation>,
                     i: nat, status: map<string, Record>, alerts: seq<Alert>)
    requires |sites| == |obs| && i < |sites|
    requires RunSoFar(status0, sites, obs, i, status, alerts)
    ensures var t := StepOf(status, sites[i], obs[i]);
            RunSoFar(status0, sites, obs, i + 1, status[sites[i].name := t.record], alerts + AlertList(t.alert))
  {
    var t := StepOf(status, sites[i], obs[i]);
    var rest := Cycle(status[sites[i].name := t.record], sites[i + 1..], obs[i + 1..]);
    assert sites[i..][0] == sites[i] && obs[i..][0] == obs[i];
    assert sites[i..][1..] == sites[i + 1..] && obs[i..][1..] == obs[i + 1..];
    CycleUnfold(status, sites[i..], obs[i..]);
    AppendAssociates(alerts, AlertList(t.alert), rest.alerts);
  }

  /**
   * `main` between `load_status()` and `save_status(status)`: the loop over
   * the configured sites, updating the status map in place and sending each
   * alert as it is decided.
   */
  method RunCycle(status0: map<string, Record>, sites: seq<Site>, obs: seq<Observation>)
    returns (status: map<string, Record>, alerts: seq<Alert>)
    requires |sites| == |obs|
    ensures CycleResult(status, alerts) == Cycle(status0, sites, obs)
    ensures status.Keys == status0.Keys + Names(sites)
    ensures forall name :: name in status0 && name !in Names(sites) ==> status[name] == status0[name]
  {
    status, alerts := status0, [];
    var i := 0;
    assert sites[0..] == sites && obs[0..] == obs;
    while i < |sites|
      invariant 0 <= i <= |sites|
      invariant RunSoFar(status0, sites, obs, i, status, alerts)
    {
      var site := sites[i];
      var probe := CheckWebsite(site, obs[i].net, obs[i].tls, obs[i].nowSeconds);
      var t := Update(site, Lookup(status, site.name), probe, obs[i].stamp);
      assert t == StepOf(status, sites[i], obs[i]);
      RunSoFarStep(status0, sites, obs, i, status, alerts);
      ghost var sent := alerts;
      if t.alert.Some? {
        alerts := alerts + [t.alert.value];
      }
      assert alerts == sent + AlertList(t.alert);
      status := status[site.name := t.record];
      i := i + 1;
    }
    assert sites[i..] == [] && obs[i..] == [];
    CycleFrame(status0, sites, obs);
  }
}
