/**
 * The edge-triggered status tracker of the monitoring loop: a map from each
 * unit's `"host:port"` key to the status last observed for it. A result
 * raises an alert when it is DOWN and the stored status is not DOWN (an
 * absent entry is not DOWN); the entry is then overwritten either way.
 */
module Tracker {
  import opened Types
  import opened Alerts
  import opened Seqs

  type StatusMap = map<string, Status>

  /** The status-map key of a result: its unit's `"%s:%d"` key. */
  function KeyOf(r: CheckResult): string {
    ServiceId(r.service)
  }

  function Ids(rs: seq<CheckResult>): seq<string> {
    MapSeq(KeyOf, rs)
  }

  /** No two results of the cycle share a status-map key. */
  predicate DistinctKeys(rs: seq<CheckResult>) {
    NoDuplicates(Ids(rs))
  }

  /** The stored status reads as DOWN; a missing entry (Go's "") does not. */
  predicate WasDown(m: StatusMap, id: string) {
    id in m && m[id] == Down
  }

  /** The alert condition for one result against the stored statuses. */
  predicate Fires(m: StatusMap, r: CheckResult) {
    r.status == Down && !WasDown(m, KeyOf(r))
  }

  /** The unconditional overwrite that follows the alert decision. */
  function Step(m: StatusMap, r: CheckResult): StatusMap {
    m[KeyOf(r) := r.status]
  }

  /** The status map after consuming a cycle's results in arrival order. */
  function Apply(m: StatusMap, rs: seq<CheckResult>): StatusMap {
    if |rs| == 0 then m else Step(Apply(m, rs[..|rs| - 1]), rs[|rs| - 1])
  }

  /** The results of a cycle that raise an alert, in arrival order. */
  function Transitions(m: StatusMap, rs: seq<CheckResult>): (ts: seq<CheckResult>)
    ensures |ts| <= |rs|
    ensures forall t :: t in ts ==> t in rs && t.status == Down
  {
    if |rs| == 0 then []
    else
      var init, last := rs[..|rs| - 1], rs[|rs| - 1];
      Transitions(m, init) + (if Fires(Apply(m, init), last) then [last] else [])
  }

  /** The results that would alert against the map as it was before the cycle. */
  function FiringIn(m: StatusMap, rs: seq<CheckResult>): seq<CheckResult> {
    if |rs| == 0 then []
    else FiringIn(m, rs[..|rs| - 1]) + (if Fires(m, rs[|rs| - 1]) then [rs[|rs| - 1]] else [])
  }

  class StatusTracker {
    var statusMap: StatusMap

    /** The map starts empty when the monitoring loop starts. */
    constructor ()
      ensures statusMap == map[]
    {
      statusMap := map[];
    }

    /** One pass of the result loop: decide the alert, then record the new status. */
    method Record(r: CheckResult) returns (alert: bool)
      modifies this
      ensures alert <==> r.status == Down && !WasDown(old(statusMap), KeyOf(r))
      ensures KeyOf(r) in statusMap && statusMap[KeyOf(r)] == r.status
      ensures forall k :: k != KeyOf(r) ==>
                (k in statusMap <==> k in old(statusMap)) && (k in statusMap ==> statusMap[k] == old(statusMap)[k])
      ensures statusMap == Step(old(statusMap), r)
    {
      var id := KeyOf(r);
      var previousDown := id in statusMap && statusMap[id] == Down;
      alert := r.status == Down && !previousDown;
      statusMap := statusMap[id := r.status];
    }

    /** Consumes one cycle's results, in the order they arrive, and returns the alert blocks. */
    method ProcessCycle(results: seq<CheckResult>, timestamp: string) returns (alerts: seq<string>)
      modifies this
      ensures statusMap == Apply(old(statusMap), results)
      ensures alerts == FormatAll(Transitions(old(statusMap), results), timestamp)
    {
      ghost var m0 := statusMap;
      alerts := [];
      for i := 0 to |results|
        invariant statusMap == Apply(m0, results[..i])
        invariant alerts == FormatAll(Transitions(m0, results[..i]), timestamp)
      {
        CycleStep(m0, results, i, timestamp);
        var alert := Record(results[i]);
        if alert {
          alerts := alerts + [FormatAlert(results[i], timestamp)];
        }
      }
      assert results[..|results|] == results;
    }
  }

  /** One more result of the cycle is one more `Step`. */
  lemma ApplySnoc(m: StatusMap, rs: seq<CheckResult>, i: nat)
    requires i < |rs|
    ensures Apply(m, rs[..i + 1]) == Step(Apply(m, rs[..i]), rs[i])
  {
    assert rs[..i + 1][..i] == rs[..i];
  }

  /** One more result of the cycle adds itself to the transitions exactly when it fires. */
  lemma TransitionsSnoc(m: StatusMap, rs: seq<CheckResult>, i: nat)
    requires i < |rs|
    ensures Transitions(m, rs[..i + 1])
         == Transitions(m, rs[..i]) + (if Fires(Apply(m, rs[..i]), rs[i]) then [rs[i]] else [])
  {
    assert rs[..i + 1][..i] == rs[..i];
  }

  /**
   * What one more result of the cycle does to the map and to the formatted
   * alerts, given the map the earlier results left behind.
   */
  lemma CycleStep(m0: StatusMap, rs: seq<CheckResult>, i: nat, timestamp: string)
    requires i < |rs|
    ensures Apply(m0, rs[..i + 1]) == Step(Apply(m0, rs[..i]), rs[i])
    ensures Fires(Apply(m0, rs[..i]), rs[i]) ==>
              FormatAll(Transitions(m0, rs[..i + 1]), timestamp)
              == FormatAll(Transitions(m0, rs[..i]), timestamp) + [FormatAlert(rs[i], timestamp)]
    ensures !Fires(Apply(m0, rs[..i]), rs[i]) ==>
              FormatAll(Transitions(m0, rs[..i + 1]), timestamp) == FormatAll(Transitions(m0, rs[..i]), timestamp)
  {
    ApplySnoc(m0, rs, i);
    TransitionsSnoc(m0, rs, i);
    var before := Transitions(m0, rs[..i]);
    if Fires(Apply(m0, rs[..i]), rs[i]) {
      FormatAllAppend(before, [rs[i]], timestamp);
      assert FormatAll([rs[i]], timestamp) == [FormatAlert(rs[i], timestamp)];
    } else {
      assert before + [] == before;
    }
  }

  /** Entries whose key no result of the cycle carries are left as they were. */
  lemma {:induction false} ApplyUntouched(m: StatusMap, rs: seq<CheckResult>, k: string)
    requires forall i :: 0 <= i < |rs| ==> KeyOf(rs[i]) != k
    ensures k in Apply(m, rs) <==> k in m
    ensures k in m ==> Apply(m, rs)[k] == m[k]
  {
    if |rs| > 0 {
      ApplyUntouched(m, rs[..|rs| - 1], k);
    }
  }

  /** A key ends up holding the status of the last result that carries it. */
  lemma {:induction false} ApplyLastWins(m: StatusMap, rs: seq<CheckResult>, i: nat)
    requires i < |rs|
    requires forall j :: i < j < |rs| ==> KeyOf(rs[j]) != KeyOf(rs[i])
    ensures KeyOf(rs[i]) in Apply(m, rs) && Apply(m, rs)[KeyOf(rs[i])] == rs[i].status
  {
    if i < |rs| - 1 {
      ApplyLastWins(m, rs[..|rs| - 1], i);
    }
  }

  lemma DistinctKeysAt(rs: seq<CheckResult>, i: nat, j: nat)
    requires DistinctKeys(rs) && i < |rs| && j < |rs| && i != j
    ensures KeyOf(rs[i]) != KeyOf(rs[j])
  {
    var ids := Ids(rs);
    if i < j {
      assert ids[i] != ids[j];
    } else {
      assert ids[j] != ids[i];
    }
  }

  lemma DistinctKeysInit(rs: seq<CheckResult>)
    requires DistinctKeys(rs) && |rs| > 0
    ensures DistinctKeys(rs[..|rs| - 1])
  {
    var init := rs[..|rs| - 1];
    forall i, j | 0 <= i < j < |init| ensures Ids(init)[i] != Ids(init)[j] {
      DistinctKeysAt(rs, i, j);
    }
  }

  /** With distinct keys, whether a result alerts depends only on the map before the cycle. */
  lemma {:induction false} TransitionsOfDistinct(m: StatusMap, rs: seq<CheckResult>)
    requires DistinctKeys(rs)
    ensures Transitions(m, rs) == FiringIn(m, rs)
  {
    if |rs| > 0 {
      var n := |rs|;
      var init, last := rs[..n - 1], rs[n - 1];
      DistinctKeysInit(rs);
      TransitionsOfDistinct(m, init);
      forall i | 0 <= i < |init| ensures KeyOf(init[i]) != KeyOf(last) {
        DistinctKeysAt(rs, i, n - 1);
      }
      ApplyUntouched(m, init, KeyOf(last));
      assert Fires(Apply(m, init), last) == Fires(m, last);
    }
  }

  /** `FiringIn` keeps each result that fires as often as it occurs, and no other. */
  lemma {:induction false} FiringInCounts(m: StatusMap, rs: seq<CheckResult>, x: CheckResult)
    ensures multiset(FiringIn(m, rs))[x] == if Fires(m, x) then multiset(rs)[x] else 0
  {
    if |rs| > 0 {
      var init := rs[..|rs| - 1];
      FiringInCounts(m, init, x);
      assert rs == init + [rs[|rs| - 1]];
    }
  }

  /** Under distinct keys, the status a key holds after the cycle is the status of the result that carries it. */
  lemma ApplyDistinctAt(m: StatusMap, rs: seq<CheckResult>, i: nat)
    requires DistinctKeys(rs) && i < |rs|
    ensures KeyOf(rs[i]) in Apply(m, rs) && Apply(m, rs)[KeyOf(rs[i])] == rs[i].status
  {
    forall j | i < j < |rs| ensures KeyOf(rs[j]) != KeyOf(rs[i]) {
      DistinctKeysAt(rs, j, i);
    }
    ApplyLastWins(m, rs, i);
  }

  /** Reordering a cycle's results whose keys are distinct keeps them distinct. */
  lemma DistinctKeysPermutation(rs: seq<CheckResult>, rs2: seq<CheckResult>)
    requires DistinctKeys(rs) && multiset(rs) == multiset(rs2)
    ensures DistinctKeys(rs2)
  {
    MapPermutation(KeyOf, rs, rs2);
    NoDuplicatesPermutation(Ids(rs), Ids(rs2));
  }

  /** The status a key holds after a distinct-key cycle does not depend on the arrival order. */
  lemma ApplyPermutationAt(m: StatusMap, rs: seq<CheckResult>, rs2: seq<CheckResult>, k: string)
    requires DistinctKeys(rs) && DistinctKeys(rs2) && multiset(rs) == multiset(rs2)
    ensures k in Apply(m, rs) <==> k in Apply(m, rs2)
    ensures k in Apply(m, rs) ==> Apply(m, rs)[k] == Apply(m, rs2)[k]
  {
    if i :| 0 <= i < |rs| && KeyOf(rs[i]) == k {
      assert rs[i] in multiset(rs2);
      var i2 :| 0 <= i2 < |rs2| && rs2[i2] == rs[i];
      ApplyDistinctAt(m, rs, i);
      ApplyDistinctAt(m, rs2, i2);
    } else {
      forall j | 0 <= j < |rs2| ensures KeyOf(rs2[j]) != k {
        assert rs2[j] in multiset(rs);
      }
      ApplyUntouched(m, rs, k);
      ApplyUntouched(m, rs2, k);
    }
  }

  /**
   * The concurrent checks report in no fixed order. When no two results of a
   * cycle share a key, any other arrival order of the same results leaves the
   * same status map and raises the same alerts (as a multiset).
   */
  lemma CycleOrderIndependent(m: StatusMap, rs: seq<CheckResult>, rs2: seq<CheckResult>)
    requires DistinctKeys(rs) && multiset(rs) == multiset(rs2)
    ensures DistinctKeys(rs2)
    ensures Apply(m, rs) == Apply(m, rs2)
    ensures multiset(Transitions(m, rs)) == multiset(Transitions(m, rs2))
  {
    DistinctKeysPermutation(rs, rs2);
    ApplyOrderIndependent(m, rs, rs2);
    TransitionsOrderIndependent(m, rs, rs2);
  }

  /** With distinct keys, the status map after a cycle is the same for every arrival order. */
  lemma ApplyOrderIndependent(m: StatusMap, rs: seq<CheckResult>, rs2: seq<CheckResult>)
    requires DistinctKeys(rs) && DistinctKeys(rs2) && multiset(rs) == multiset(rs2)
    ensures Apply(m, rs) == Apply(m, rs2)
  {
    var a, b := Apply(m, rs), Apply(m, rs2);
    forall k ensures (k in a <==> k in b) && (k in a ==> a[k] == b[k]) {
      ApplyPermutationAt(m, rs, rs2, k);
    }
    assert a.Keys == b.Keys;
  }

  /** With distinct keys, the alerting results of a cycle are the same, as a multiset, for every arrival order. */
  lemma TransitionsOrderIndependent(m: StatusMap, rs: seq<CheckResult>, rs2: seq<CheckResult>)
    requires DistinctKeys(rs) && DistinctKeys(rs2) && multiset(rs) == multiset(rs2)
    ensures multiset(Transitions(m, rs)) == multiset(Transitions(m, rs2))
  {
    TransitionsOfDistinct(m, rs);
    TransitionsOfDistinct(m, rs2);
    forall x ensures multiset(FiringIn(m, rs))[x] == multiset(FiringIn(m, rs2))[x] {
      FiringInCounts(m, rs, x);
      FiringInCounts(m, rs2, x);
    }
  }

  /**
   * The alert texts `ProcessCycle` returns for a distinct-key cycle are the
   * same, as a multiset, for every arrival order of its results.
   */
  lemma CycleAlertTextsOrderIndependent(m: StatusMap, rs: seq<CheckResult>, rs2: seq<CheckResult>, timestamp: string)
    requires DistinctKeys(rs) && multiset(rs) == multiset(rs2)
    ensures multiset(FormatAll(Transitions(m, rs), timestamp)) == multiset(FormatAll(Transitions(m, rs2), timestamp))
  {
    CycleOrderIndependent(m, rs, rs2);
    MapPermutation((r: CheckResult) => FormatAlert(r, timestamp), Transitions(m, rs), Transitions(m, rs2));
  }

  /**
   * Two units with the same host and port (two port-less servers naming one
   * host, say) share a key, and then arrival order decides which of them
   * alerts: only the first DOWN result seen raises one.
   */
  lemma DuplicateKeysMakeOrderMatter()
    ensures var web := CheckResult(Service("web", "h", 0), Down, None);
            var db := CheckResult(Service("db", "h", 0), Down, None);
            Transitions(map[], [web, db]) == [web] && Transitions(map[], [db, web]) == [db]
  {
    var web := CheckResult(Service("web", "h", 0), Down, None);
    var db := CheckResult(Service("db", "h", 0), Down, None);
    assert KeyOf(web) == KeyOf(db);
    assert [web, db][..1] == [web] && [db, web][..1] == [db];
    assert [web][..0] == [] && [db][..0] == [];
  }

  // ---- The monitoring loop as a sequence of cycles ----

  /** The status map after a run of cycles. */
  function Run(m: StatusMap, cycles: seq<seq<CheckResult>>): StatusMap {
    if |cycles| == 0 then m else Apply(Run(m, cycles[..|cycles| - 1]), cycles[|cycles| - 1])
  }

  /** One more cycle is one more `Apply`. */
  lemma RunSnoc(m: StatusMap, cycles: seq<seq<CheckResult>>, i: nat)
    requires i < |cycles|
    ensures Run(m, cycles[..i + 1]) == Apply(Run(m, cycles[..i]), cycles[i])
  {
    assert cycles[..i + 1][..i] == cycles[..i];
  }

  /** The results that alert in cycle `c` of a run that starts from `m`. */
  function AlertsInCycle(m: StatusMap, cycles: seq<seq<CheckResult>>, c: nat): seq<CheckResult>
    requires c < |cycles|
  {
    Transitions(Run(m, cycles[..c]), cycles[c])
  }

  /**
   * A result whose key no other result of its cycle carries alerts exactly
   * when it is DOWN and the map held no DOWN for that key before the cycle:
   * the other results of the cycle do not interfere with it.
   */
  lemma {:induction false} TransitionsOfUnique(m: StatusMap, rs: seq<CheckResult>, p: nat)
    requires p < |rs|
    requires forall j :: 0 <= j < |rs| && j != p ==> KeyOf(rs[j]) != KeyOf(rs[p])
    ensures rs[p] in Transitions(m, rs) <==> rs[p].status == Down && !WasDown(m, KeyOf(rs[p]))
  {
    if p == |rs| - 1 {
      LastUniqueAlerts(m, rs);
    } else {
      OtherKeysInInit(rs, p);
      TransitionsOfUnique(m, rs[..|rs| - 1], p);
      EarlierAlertsKept(m, rs, p);
    }
  }

  /** The last result of a cycle, if no earlier one carries its key, alerts iff it fires against the starting map. */
  lemma LastUniqueAlerts(m: StatusMap, rs: seq<CheckResult>)
    requires |rs| > 0
    requires forall j :: 0 <= j < |rs| - 1 ==> KeyOf(rs[j]) != KeyOf(rs[|rs| - 1])
    ensures rs[|rs| - 1] in Transitions(m, rs) <==> rs[|rs| - 1].status == Down && !WasDown(m, KeyOf(rs[|rs| - 1]))
  {
    var p := |rs| - 1;
    var init, r := rs[..p], rs[p];
    assert Transitions(m, rs) == Transitions(m, init) + (if Fires(Apply(m, init), r) then [r] else []);
    assert forall j :: 0 <= j < |init| ==> KeyOf(init[j]) != KeyOf(r) by {
      OtherKeys(rs, p);
    }
    assert r !in Transitions(m, init) by {
      KeyAbsentNotAlerted(m, init, r);
    }
    assert WasDown(Apply(m, init), KeyOf(r)) == WasDown(m, KeyOf(r)) by {
      ApplyUntouched(m, init, KeyOf(r));
    }
  }

  /** A last result with another key neither adds nor removes an earlier result's alert. */
  lemma EarlierAlertsKept(m: StatusMap, rs: seq<CheckResult>, p: nat)
    requires p < |rs| - 1 && KeyOf(rs[|rs| - 1]) != KeyOf(rs[p])
    ensures rs[p] in Transitions(m, rs) <==> rs[..|rs| - 1][p] in Transitions(m, rs[..|rs| - 1])
  {
    var init, last := rs[..|rs| - 1], rs[|rs| - 1];
    assert Transitions(m, rs) == Transitions(m, init) + (if Fires(Apply(m, init), last) then [last] else []);
    assert init[p] == rs[p] && last != rs[p];
  }

  /** The results before the last one of a cycle do not carry the last one's key, when none else does. */
  lemma OtherKeys(rs: seq<CheckResult>, p: nat)
    requires p == |rs| - 1
    requires forall j :: 0 <= j < p ==> KeyOf(rs[j]) != KeyOf(rs[p])
    ensures forall j :: 0 <= j < |rs[..p]| ==> KeyOf(rs[..p][j]) != KeyOf(rs[p])
  {
    forall j | 0 <= j < p ensures KeyOf(rs[..p][j]) != KeyOf(rs[p]) {
      assert rs[..p][j] == rs[j];
    }
  }

  /** Dropping the last result keeps a key carried once carried once, at the same position. */
  lemma OtherKeysInInit(rs: seq<CheckResult>, p: nat)
    requires p < |rs| - 1
    requires forall j :: 0 <= j < |rs| && j != p ==> KeyOf(rs[j]) != KeyOf(rs[p])
    ensures var init := rs[..|rs| - 1];
            p < |init| && init[p] == rs[p]
            && forall j :: 0 <= j < |init| && j != p ==> KeyOf(init[j]) != KeyOf(init[p])
  {
    var init := rs[..|rs| - 1];
    forall j | 0 <= j < |init| && j != p ensures KeyOf(init[j]) != KeyOf(init[p]) {
      assert init[j] == rs[j] && init[p] == rs[p];
    }
  }

  /** A result whose key no result of the cycle carries is not among the cycle's alerts. */
  lemma KeyAbsentNotAlerted(m: StatusMap, rs: seq<CheckResult>, r: CheckResult)
    requires forall j :: 0 <= j < |rs| ==> KeyOf(rs[j]) != KeyOf(r)
    ensures r !in Transitions(m, rs)
  {
    assert r !in rs;
  }

  /** In every cycle, the result at `pos[c]` carries key `k` and no other result of that cycle does. */
  predicate CarriedOnceBy(cycles: seq<seq<CheckResult>>, k: string, pos: seq<nat>) {
    |pos| == |cycles|
    && (forall c :: 0 <= c < |cycles| ==> pos[c] < |cycles[c]| && KeyOf(cycles[c][pos[c]]) == k)
    && (forall c, j :: 0 <= c < |cycles| && 0 <= j < |cycles[c]| && j != pos[c] ==> KeyOf(cycles[c][j]) != k)
  }

  /**
   * Edge triggering, for a unit among any others: if one result per cycle
   * carries the unit's key, that result alerts in cycle `c` exactly when it
   * is DOWN and the unit's result in the cycle before was not DOWN (for the
   * first cycle: the starting map held no DOWN for the key).
   */
  lemma EdgeTriggered(m: StatusMap, cycles: seq<seq<CheckResult>>, k: string, pos: seq<nat>, c: nat)
    requires CarriedOnceBy(cycles, k, pos) && c < |cycles|
    ensures var r := cycles[c][pos[c]];
            r in AlertsInCycle(m, cycles, c) <==>
              r.status == Down && (if c == 0 then !WasDown(m, k) else cycles[c - 1][pos[c - 1]].status != Down)
  {
    var before := Run(m, cycles[..c]);
    assert WasDown(before, k) <==> if c == 0 then WasDown(m, k) else cycles[c - 1][pos[c - 1]].status == Down by {
      if c == 0 {
        assert cycles[..0] == [];
      } else {
        PreviousCycleLeaves(m, cycles, k, pos, c - 1);
      }
    }
    assert cycles[c][pos[c]] in AlertsInCycle(m, cycles, c)
       <==> cycles[c][pos[c]].status == Down && !WasDown(before, k) by {
      CarriedAt(cycles, k, pos, c);
      TransitionsOfUnique(before, cycles[c], pos[c]);
    }
  }

  /** The facts `CarriedOnceBy` gives about one cycle. */
  lemma CarriedAt(cycles: seq<seq<CheckResult>>, k: string, pos: seq<nat>, c: nat)
    requires CarriedOnceBy(cycles, k, pos) && c < |cycles|
    ensures pos[c] < |cycles[c]| && KeyOf(cycles[c][pos[c]]) == k
    ensures forall j :: 0 <= j < |cycles[c]| && j != pos[c] ==> KeyOf(cycles[c][j]) != KeyOf(cycles[c][pos[c]])
  {
  }

  /** After cycle `c`, key `k` holds the status of the result that carried it in that cycle. */
  lemma PreviousCycleLeaves(m: StatusMap, cycles: seq<seq<CheckResult>>, k: string, pos: seq<nat>, c: nat)
    requires CarriedOnceBy(cycles, k, pos) && c < |cycles|
    ensures k in Run(m, cycles[..c + 1]) && Run(m, cycles[..c + 1])[k] == cycles[c][pos[c]].status
  {
    CarriedAt(cycles, k, pos, c);
    RunSnoc(m, cycles, c);
    ApplyLastWins(Run(m, cycles[..c]), cycles[c], pos[c]);
  }

  /**
   * Edge triggering for a monitor with a single unit: cycle `c` raises one
   * alert exactly when the unit is DOWN in it and was not DOWN in the cycle
   * before (for the first cycle: in the starting map), and none otherwise.
   */
  lemma SingleUnitEdgeTriggered(m: StatusMap, u: Service, cycles: seq<seq<CheckResult>>, c: nat)
    requires forall i :: 0 <= i < |cycles| ==> |cycles[i]| == 1 && cycles[i][0].service == u
    requires c < |cycles|
    ensures |AlertsInCycle(m, cycles, c)| ==
              if cycles[c][0].status == Down
                 && (if c == 0 then !WasDown(m, ServiceId(u)) else cycles[c - 1][0].status != Down)
              then 1 else 0
  {
    var r := cycles[c][0];
    assert cycles[c] == [r] && [r][..0] == [];
    if c > 0 {
      assert cycles[..c][..c - 1] == cycles[..c - 1];
      var p := cycles[c - 1][0];
      assert cycles[c - 1] == [p] && [p][..0] == [];
    } else {
      assert cycles[..0] == [];
    }
  }

  /** A unit seen UP, DOWN, DOWN, UP, DOWN from an empty map alerts in cycles 2 and 5 only (counting from 1). */
  lemma EdgeTriggeredExample(u: Service)
    ensures var cycles := [[CheckResult(u, Up, None)], [CheckResult(u, Down, None)], [CheckResult(u, Down, None)],
                           [CheckResult(u, Up, None)], [CheckResult(u, Down, None)]];
            forall c :: 0 <= c < 5 ==> |AlertsInCycle(map[], cycles, c)| == if c == 1 || c == 4 then 1 else 0
  {
    var cycles := [[CheckResult(u, Up, None)], [CheckResult(u, Down, None)], [CheckResult(u, Down, None)],
                   [CheckResult(u, Up, None)], [CheckResult(u, Down, None)]];
    forall c | 0 <= c < 5 ensures |AlertsInCycle(map[], cycles, c)| == if c == 1 || c == 4 then 1 else 0 {
      SingleUnitEdgeTriggered(map[], u, cycles, c);
    }
  }
}
