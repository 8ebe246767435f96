/**
 * `formatAlert`: the text block of one alert. The wall-clock timestamp the
 * program formats (RFC 1123) is passed in as an opaque string.
 */
module Alerts {
  import Text
  import opened Types
  import opened Seqs

  const NoErrorText: string := "No specific error message."

  /** The error line's text: the probe's error, or a placeholder when there is none. */
  function ErrorText(e: Option<string>): (r: string)
    ensures e.Some? ==> r == e.value
    ensures e.None? ==> r == NoErrorText
  {
    match e
    case Some(msg) => msg
    case None => NoErrorText
  }

  /**
   * A ping unit (port 0) gets a "Host Down Alert", any other unit a
   * "Service Down Alert" naming its port; both end with the error line.
   */
  function FormatAlert(r: CheckResult, timestamp: string): (text: string)
    ensures r.service.port == 0 ==> "Host Down Alert\n\n" <= text
    ensures r.service.port != 0 ==> "Service Down Alert\n\n" <= text
    ensures |text| >= 8 + |ErrorText(r.error)|
    ensures text[|text| - 8 - |ErrorText(r.error)|..] == "Error: " + ErrorText(r.error) + "\n"
  {
    var s := r.service;
    var tail := "Error: " + ErrorText(r.error) + "\n";
    if s.port == 0 then
      "Host Down Alert\n\nHost: " + s.name + " (" + s.host + ")\nTime: " + timestamp
        + "\nDetails: Ping failed.\n" + tail
    else
      "Service Down Alert\n\nService: " + s.name + "\nHost: " + s.host + "\nPort: "
        + Text.IntToDecimal(s.port) + "\nTime: " + timestamp + "\n" + tail
  }

  /** The alert blocks of a list of results, in the same order. */
  function FormatAll(rs: seq<CheckResult>, timestamp: string): (alerts: seq<string>)
    ensures |alerts| == |rs|
    ensures forall i :: 0 <= i < |rs| ==> alerts[i] == FormatAlert(rs[i], timestamp)
  {
    MapSeq((r: CheckResult) => FormatAlert(r, timestamp), rs)
  }

  lemma FormatAllAppend(a: seq<CheckResult>, b: seq<CheckResult>, timestamp: string)
    ensures FormatAll(a + b, timestamp) == FormatAll(a, timestamp) + FormatAll(b, timestamp)
  {
  }

  /** A ping alert and a port alert are never the same text. */
  lemma PingAndPortAlertsDiffer(p: CheckResult, q: CheckResult, timestamp: string)
    requires p.service.port == 0 && q.service.port != 0
    ensures FormatAlert(p, timestamp) != FormatAlert(q, timestamp)
  {
    var a := FormatAlert(p, timestamp);
    var b := FormatAlert(q, timestamp);
    assert a[4] == "Host Down Alert\n\n"[4] == ' ';
    assert b[4] == "Service Down Alert\n\n"[4] == 'i';
  }
}
