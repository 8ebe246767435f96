/**
 * The alert loop of a single run: every DOWN result yields one alert block,
 * since there is no earlier cycle to compare against.
 */
module OneShot {
  import opened Types
  import opened Alerts
  import opened Seqs
  import Tracker

  /** The DOWN results, in arrival order. */
  function DownResults(rs: seq<CheckResult>): seq<CheckResult> {
    if |rs| == 0 then []
    else DownResults(rs[..|rs| - 1]) + (if rs[|rs| - 1].status == Down then [rs[|rs| - 1]] else [])
  }

  function StatusOf(r: CheckResult): Status {
    r.status
  }

  /** The alert loop of `runOnce`. */
  method SelectAlerts(results: seq<CheckResult>, timestamp: string) returns (alerts: seq<string>)
    ensures alerts == FormatAll(DownResults(results), timestamp)
  {
    alerts := [];
    for i := 0 to |results|
      invariant alerts == FormatAll(DownResults(results[..i]), timestamp)
    {
      assert results[..i + 1][..i] == results[..i];
      if results[i].status == Down {
        FormatAllAppend(DownResults(results[..i]), [results[i]], timestamp);
        alerts := alerts + [FormatAlert(results[i], timestamp)];
      }
    }
    assert results[..|results|] == results;
  }

  /** No suppression: each DOWN result is kept as often as it occurs, and nothing else is. */
  lemma {:induction false} DownResultsCounts(rs: seq<CheckResult>, x: CheckResult)
    ensures multiset(DownResults(rs))[x] == if x.status == Down then multiset(rs)[x] else 0
  {
    if |rs| > 0 {
      DownResultsCounts(rs[..|rs| - 1], x);
      assert rs == rs[..|rs| - 1] + [rs[|rs| - 1]];
    }
  }

  /** The number of alerts of a single run is the number of DOWN results. */
  lemma {:induction false} AlertCountIsDownCount(rs: seq<CheckResult>, timestamp: string)
    ensures |FormatAll(DownResults(rs), timestamp)| == multiset(MapSeq(StatusOf, rs))[Down]
  {
    if |rs| > 0 {
      var init := rs[..|rs| - 1];
      AlertCountIsDownCount(init, timestamp);
      assert MapSeq(StatusOf, rs) == MapSeq(StatusOf, init) + [rs[|rs| - 1].status];
    }
  }

  /** Against an empty map every DOWN result alerts: the tracker's filter and the single-run filter agree. */
  lemma {:induction false} FiringInEmptyIsDown(rs: seq<CheckResult>)
    ensures Tracker.FiringIn(map[], rs) == DownResults(rs)
  {
    if |rs| > 0 {
      FiringInEmptyIsDown(rs[..|rs| - 1]);
    }
  }

  /**
   * A single run alerts exactly as the loop's first cycle does, provided no
   * two results share a key.
   */
  lemma SingleRunIsFirstCycle(rs: seq<CheckResult>)
    requires Tracker.DistinctKeys(rs)
    ensures Tracker.Transitions(map[], rs) == DownResults(rs)
  {
    Tracker.TransitionsOfDistinct(map[], rs);
    FiringInEmptyIsDown(rs);
  }

  /** With a shared key the two modes part ways: both results alert in a single run, one in the loop. */
  lemma SharedKeySuppressedOnlyInLoop()
    ensures var web := CheckResult(Service("web", "h", 0), Down, None);
            var db := CheckResult(Service("db", "h", 0), Down, None);
            DownResults([web, db]) == [web, db] && |Tracker.Transitions(map[], [web, db])| == 1
  {
    var web := CheckResult(Service("web", "h", 0), Down, None);
    var db := CheckResult(Service("db", "h", 0), Down, None);
    assert [web, db][..1] == [web] && [web][..0] == [];
    assert DownResults([web]) == [web];
    Tracker.DuplicateKeysMakeOrderMatter();
  }
}
