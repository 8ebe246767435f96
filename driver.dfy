/**
 * One cycle of each run mode, from the results of the concurrent checks to
 * the delivery decision. The checks themselves are not modelled: a cycle's
 * results are any sequence holding one result per unit, in any order.
 */
module Driver {
  import opened Types
  import opened Seqs
  import opened Alerts
  import opened Notify
  import Services
  import OneShot
  import Tracker

  function ServiceOf(r: CheckResult): Service {
    r.service
  }

  /** The fan-out's barrier: every unit's check reported exactly once, in some order. */
  predicate OneResultPerService(services: seq<Service>, results: seq<CheckResult>) {
    multiset(MapSeq(ServiceOf, results)) == multiset(services)
  }

  /** The single run (`runOnce`): alert on every DOWN result, then the mail gate. */
  method RunOnce(cfg: Config, results: seq<CheckResult>, timestamp: string) returns (d: Delivery)
    ensures d == Dispatch(cfg, FormatAll(OneShot.DownResults(results), timestamp))
  {
    var alerts := OneShot.SelectAlerts(results, timestamp);
    d := NoAlerts;
    if |alerts| > 0 {
      if cfg.smtp.host != "" {
        d := SendAlertEmail(cfg, alerts);
      } else {
        d := SmtpDisabled;
      }
    }
  }

  /** One tick of the monitoring loop: update the status map, then the mail gate. */
  method MonitorTick(tracker: Tracker.StatusTracker, cfg: Config, results: seq<CheckResult>, timestamp: string)
    returns (d: Delivery)
    modifies tracker
    ensures tracker.statusMap == Tracker.Apply(old(tracker.statusMap), results)
    ensures d == Dispatch(cfg, FormatAll(Tracker.Transitions(old(tracker.statusMap), results), timestamp))
  {
    var alerts := tracker.ProcessCycle(results, timestamp);
    d := NoAlerts;
    if |alerts| > 0 {
      if cfg.smtp.host != "" {
        d := SendAlertEmail(cfg, alerts);
      } else {
        d := SmtpDisabled;
      }
    }
  }

  /** What tick `c` of the monitoring loop delivers, starting from the map `m`. */
  ghost function TickDelivery(cfg: Config, m: Tracker.StatusMap, cycles: seq<seq<CheckResult>>, timestamps: seq<string>, c: nat): Delivery
    requires c < |cycles| && |timestamps| == |cycles|
  {
    Dispatch(cfg, FormatAll(Tracker.AlertsInCycle(m, cycles, c), timestamps[c]))
  }

  /**
   * The monitoring loop over a run of ticks: one tick per cycle of results,
   * each with the timestamp its alerts carry. The map threads through the
   * ticks; each tick's delivery reflects only that tick's transitions.
   */
  method MonitorLoop(tracker: Tracker.StatusTracker, cfg: Config, cycles: seq<seq<CheckResult>>, timestamps: seq<string>)
    returns (deliveries: seq<Delivery>)
    requires |timestamps| == |cycles|
    modifies tracker
    ensures tracker.statusMap == Tracker.Run(old(tracker.statusMap), cycles)
    ensures |deliveries| == |cycles|
    ensures forall c :: 0 <= c < |cycles| ==>
              deliveries[c] == Dispatch(cfg, FormatAll(Tracker.AlertsInCycle(old(tracker.statusMap), cycles, c), timestamps[c]))
  {
    ghost var m0 := tracker.statusMap;
    deliveries := [];
    for i := 0 to |cycles|
      invariant tracker.statusMap == Tracker.Run(m0, cycles[..i])
      invariant |deliveries| == i
      invariant forall c :: 0 <= c < i ==> deliveries[c] == TickDelivery(cfg, m0, cycles, timestamps, c)
    {
      ghost var prev := deliveries;
      Tracker.RunSnoc(m0, cycles, i);
      var d := MonitorTick(tracker, cfg, cycles[i], timestamps[i]);
      assert d == TickDelivery(cfg, m0, cycles, timestamps, i);
      deliveries := deliveries + [d];
      forall c | 0 <= c < i + 1
        ensures deliveries[c] == TickDelivery(cfg, m0, cycles, timestamps, c)
      {
        if c < i {
          assert deliveries[c] == prev[c];
        }
      }
    }
    assert cycles[..|cycles|] == cycles;
  }

  /** The barrier delivers as many results as there are units. */
  lemma OneResultPerServiceCount(services: seq<Service>, results: seq<CheckResult>)
    requires OneResultPerService(services, results)
    ensures |results| == |services|
  {
    assert |multiset(MapSeq(ServiceOf, results))| == |MapSeq(ServiceOf, results)|;
  }

  /**
   * When no two units share a host and port, the results of a cycle carry
   * distinct keys, whatever order they arrive in; the tracker's outcome then
   * does not depend on that order.
   */
  lemma DistinctUnitsGiveDistinctKeys(services: seq<Service>, results: seq<CheckResult>)
    requires NoDuplicates(MapSeq(ServiceId, services))
    requires OneResultPerService(services, results)
    ensures Tracker.DistinctKeys(results)
  {
    var units := MapSeq(ServiceOf, results);
    MapPermutation(ServiceId, units, services);
    assert MapSeq(ServiceId, units) == Tracker.Ids(results);
    NoDuplicatesPermutation(MapSeq(ServiceId, services), Tracker.Ids(results));
  }

  /**
   * Two units with different keys, both UP in one cycle and only the second
   * DOWN in the next: no alert in the first cycle, one for the second unit
   * in the next.
   */
  lemma OneUnitGoesDown(a: Service, b: Service, err: Option<string>)
    requires ServiceId(a) != ServiceId(b)
    ensures var first := [CheckResult(a, Up, None), CheckResult(b, Up, None)];
            var second := [CheckResult(a, Up, None), CheckResult(b, Down, err)];
            Tracker.Transitions(map[], first) == []
            && Tracker.Transitions(Tracker.Apply(map[], first), second) == [second[1]]
  {
    var first := [CheckResult(a, Up, None), CheckResult(b, Up, None)];
    var second := [CheckResult(a, Up, None), CheckResult(b, Down, err)];
    assert first[..1] == [first[0]] && [first[0]][..0] == [];
    assert second[..1] == [second[0]] && [second[0]][..0] == [];
    var m1 := Tracker.Apply(map[], first);
    assert m1 == Tracker.Step(Tracker.Apply(map[], first[..1]), first[1]);
    assert m1[ServiceId(b)] == Up;
    assert Tracker.Transitions(map[], first) == [];
    var m2 := Tracker.Apply(m1, second[..1]);
    assert Tracker.Apply(m1, []) == m1;
    assert m2 == Tracker.Step(m1, second[0]);
    assert m2[ServiceId(b)] == Up;
  }

  /**
   * Server "Web" on example.com with ports 80 and 443: a cycle with both up
   * raises no alert; a next cycle with 443 unreachable raises exactly one,
   * a port alert for 443, and one mail carrying only that alert is sent.
   */
  lemma WebScenario(cfg: Config, timestamp: string)
    requires cfg.smtp.host != "" && cfg.alertRecipient != ""
    ensures var units := Services.Expand([Server("Web", "example.com", [80, 443])]);
            |units| == 2 && units[0].port == 80 && units[1].port == 443
            && var first := [CheckResult(units[0], Up, None), CheckResult(units[1], Up, None)];
               var second := [CheckResult(units[0], Up, None), CheckResult(units[1], Down, Some("connection refused"))];
               var m1 := Tracker.Apply(map[], first);
               Tracker.Transitions(map[], first) == []
               && Tracker.Transitions(m1, second) == [second[1]]
               && Dispatch(cfg, FormatAll(Tracker.Transitions(m1, second), timestamp))
                  == EmailFor(cfg, [FormatAlert(second[1], timestamp)])
  {
    var server := Server("Web", "example.com", [80, 443]);
    var units := Services.Expand([server]);
    Services.ExpandOne(server);
    ServiceIdSameHostPort(units[0], units[1]);
    OneUnitGoesDown(units[0], units[1], Some("connection refused"));
  }
}
