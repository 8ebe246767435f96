# InfraPulse core in Dafny

InfraPulse checks a configured list of servers. It pings a server that has no
ports and dials each listed TCP port. It then emails an alert when a check unit
goes DOWN. This project models the sequential rules at the centre of `main.go`
and proves properties of them:

- **Service expansion** (`createServices`): servers become check units, one per
  port, or a single ping unit with port 0 for a server without ports.
- **Edge-triggered status tracker** (the result loop of `runMonitoringLoop`):
  - The status map is keyed by `"%s:%d"` of host and port.
  - A result alerts when it is DOWN and the stored status is not DOWN. An
    absent entry counts as not DOWN.
  - The entry is then overwritten whatever the decision was.
  - It is modelled as a class `Tracker.StatusTracker` with a `map` field. Its
    methods are proved against the functions `Tracker.Apply` and
    `Tracker.Transitions`.
- **Single-run alert selection** (the result loop of `runOnce`): every DOWN
  result alerts.
- **Notification**:
  - interval precedence (flag, then configuration, then `60s`);
  - the mail gate (alerts present, SMTP host set, recipient set);
  - `sendAlertEmail`'s recipient split and in-place trim, and its message
    assembly;
  - `formatAlert`, with the timestamp passed in as a string.

The concurrent fan-out is replaced by its outcome. A cycle's results are any
sequence that holds one result per unit (`Driver.OneResultPerService`). The
model therefore states what does and does not depend on arrival order:

- If no two units share a host and port, then every arrival order gives the
  same status map after a cycle, the same multiset of alerting results and the
  same multiset of alert texts (`Tracker.CycleOrderIndependent`,
  `Tracker.CycleAlertTextsOrderIndependent`,
  `Driver.DistinctUnitsGiveDistinctKeys`).
- The code does not prevent two units from sharing a key. `createServices`
  keeps duplicates, and two port-less servers on one host both become
  `host:0`. With a shared key, only the first DOWN result that arrives raises
  an alert in loop mode, so arrival order decides which unit is reported
  (`Tracker.DuplicateKeysMakeOrderMatter`). A single run reports both
  (`OneShot.SharedKeySuppressedOnlyInLoop`).
- Unit keys therefore need not be unique within one expansion.

Two further details of the code that the model keeps:

- The error placeholder is `No specific error message.`
- A ping unit is the unit with port 0, so a configured port 0 is treated as a
  ping unit.

Modules and files:

| file | module | contents |
|---|---|---|
| text.dfy | Text | Go's `strings.Split`, `strings.Join`, `strings.TrimSpace`, `%d`, `"%s:%d"` |
| types.dfy | Types | configuration, units, statuses, results, the status-map key |
| seqs.dfy | Seqs | multisets and reordering |
| services.dfy | Services | `createServices` |
| alerts.dfy | Alerts | `formatAlert` |
| tracker.dfy | Tracker | the status tracker and the multi-cycle run |
| oneshot.dfy | OneShot | the single-run alert loop |
| notify.dfy | Notify | interval, mail gate, `sendAlertEmail` |
| driver.dfy | Driver | one cycle of each mode, the loop over ticks, scenarios |

## Model

| member | source | states |
|---|---|---|
| Services.CreateServices | main.go:173-185 | the nested append loops build exactly `Expand(servers)` |
| Services.UnitsOf | main.go:176-182 | a server yields max(1, len(ports)) units, all with its name and host; one port-0 unit when it has no ports, else one unit per port in port order |
| Services.ExpandLength | main.go:173-185 | the number of units is the sum over servers of max(1, len(ports)) |
| Services.ExpandAt | main.go:175-182 | server i's units sit in port order right after the units of the servers before it: order is preserved and duplicates stay at their own positions |
| Services.ExpandAppend | main.go:175-183 | expanding two server lists one after the other is expanding their concatenation |
| Services.ExpandProvenance | main.go:177-180 | every unit carries the name and host of some configured server |
| Services.PortlessServerIsOnePing | main.go:176-177 | a server with no ports yields exactly one unit, with port 0 |
| Types.ServiceIdSameHostPort | main.go:149 | two units share a status-map key if and only if they share host and port |
| Text.HostPortInjective | main.go:149 | the `"%s:%d"` key determines its host and its port |
| Text.HostPort | main.go:149 | the key is the host, a colon, then a colon-free port text |
| Text.IntDecimalRoundTrip | main.go:149 | reading back the `%d` text of any integer gives that integer |
| Text.NatDecimalRoundTrip | main.go:149 | the digits of a natural number read back as that number |
| Text.IntToDecimal | main.go:149 | the `%d` text is non-empty and made only of digits and a minus sign |
| Tracker.StatusTracker.constructor | main.go:107 | the status map starts empty |
| Tracker.StatusTracker.Record | main.go:149-154 | alert iff the result is DOWN and the stored entry is not DOWN (absent is not DOWN); afterwards the key holds the new status and every other entry is unchanged |
| Tracker.StatusTracker.ProcessCycle | main.go:146-155 | the new map is `Apply(old map, results)` and the alerts are the formatted `Transitions(old map, results)` |
| Tracker.Transitions | main.go:146-155 | a cycle raises at most one alert per result, and only for DOWN results of that cycle |
| Tracker.ApplyUntouched | main.go:147-155 | an entry whose key no result of the cycle carries keeps its presence and value |
| Tracker.ApplyLastWins | main.go:154 | a key ends the cycle holding the status of the last result that carries it |
| Tracker.ApplyDistinctAt | main.go:154 | with distinct keys, every result's key holds that result's status after the cycle |
| Tracker.TransitionsOfDistinct | main.go:150-153 | with distinct keys, a result alerts iff it fires against the map as it was before the cycle |
| Tracker.FiringInCounts | main.go:151-152 | those alerts keep each firing result exactly as often as it occurs, and nothing else |
| Tracker.DistinctKeysPermutation | main.go:133-147 | another arrival order of distinct-key results still has distinct keys |
| Tracker.ApplyPermutationAt | main.go:147-155 | with distinct keys, the entry for any key after a cycle does not depend on the arrival order |
| Tracker.CycleOrderIndependent | main.go:133-155 | with distinct keys, every arrival order gives the same map and the same multiset of alerting results |
| Tracker.ApplyOrderIndependent | main.go:147-155 | with distinct keys, every arrival order leaves the same status map |
| Tracker.TransitionsOrderIndependent | main.go:150-153 | with distinct keys, every arrival order gives the same multiset of alerting results |
| Tracker.CycleAlertTextsOrderIndependent | main.go:133-155 | with distinct keys, every arrival order gives the same multiset of alert texts |
| Tracker.DuplicateKeysMakeOrderMatter | main.go:149-154 | two DOWN units with the same host and port: only the first to arrive alerts, so order decides which |
| Tracker.TransitionsOfUnique | main.go:146-155 | a result whose key no other result of its cycle carries alerts iff it is DOWN and the map held no DOWN for its key before the cycle, whatever the other results are |
| Tracker.EdgeTriggered | main.go:146-155 | a unit whose key one result carries in every cycle, among any other units, alerts in cycle c iff its result is DOWN there and its result in cycle c-1 was not DOWN (for the first cycle: the starting map held no DOWN for the key) |
| Tracker.SingleUnitEdgeTriggered | main.go:150-154 | for a monitor with a single unit, cycle c raises one alert if the unit is DOWN there and was not DOWN in cycle c-1 (or in the starting map), and none otherwise |
| Tracker.EdgeTriggeredExample | main.go:150-154 | UP, DOWN, DOWN, UP, DOWN from an empty map alerts in cycles 2 and 5 only |
| OneShot.SelectAlerts | main.go:203-209 | the single-run loop returns one alert per DOWN result, in arrival order |
| OneShot.DownResultsCounts | main.go:206-207 | each DOWN result is kept as often as it occurs; nothing else is kept |
| OneShot.AlertCountIsDownCount | main.go:203-209 | the number of alerts equals the number of DOWN results |
| OneShot.FiringInEmptyIsDown | main.go:150-152 | against an empty map, a result fires iff it is DOWN |
| OneShot.SingleRunIsFirstCycle | main.go:146-155 | with distinct keys, a single run alerts exactly as the loop's first cycle does |
| OneShot.SharedKeySuppressedOnlyInLoop | main.go:203-209 | with a shared key, a single run alerts for both units and the loop for one |
| Alerts.FormatAlert | main.go:279-282 | a port-0 unit gets a "Host Down Alert" block and any other a "Service Down Alert" block; both end with the error line |
| Alerts.ErrorText | main.go:272-277 | the error line shows the probe's error, or "No specific error message." when there is none |
| Alerts.PingAndPortAlertsDiffer | main.go:279-282 | a ping alert never has the same text as a port alert |
| Notify.ResolveInterval | main.go:110-116 | a non-empty flag wins, then a non-empty configured value, then "60s"; the result is never empty |
| Notify.Dispatch | main.go:157-164 | a mail is produced iff there are alerts, the SMTP host is set and the recipient is set; the other cases are reported as skipped; the mail carries the parsed recipients and the assembled message |
| Notify.SendAlertEmail | main.go:333-358 | `sendAlertEmail` up to the transport equals `EmailFor`: no recipient means skipped, otherwise one mail to the trimmed comma-split recipients |
| Notify.TrimEach | main.go:342-344 | each address of the slice is replaced in place by its trimmed form |
| Notify.RecipientsShape | main.go:341-344 | there are (commas + 1) recipients, none holding a comma or surrounding white space, and the untrimmed pieces rejoined with commas give the field |
| Notify.RecipientsOfPieces | main.go:341-344 | a field that splits into two pieces names exactly their two trimmed forms |
| Notify.RecipientsOfTwo | main.go:341-344 | "x, y" gives exactly the recipients x and y |
| Notify.RecipientsExample | main.go:341-344 | "a@x.com, b@x.com" gives exactly ["a@x.com", "b@x.com"] |
| Notify.MessageHoldsAlerts | main.go:348-352 | after the subject and the fixed opening, every alert appears whole and in order, each but the last followed by the separator line |
| Text.Split | main.go:341 | the split has one piece more than there are separators, and no piece holds the separator |
| Text.JoinSplit | main.go:341 | joining the pieces of a split with the separator gives back the string |
| Text.SplitJoin | main.go:341 | splitting a join of separator-free pieces gives back the pieces |
| Text.TrimSpace | main.go:343 | the result neither starts nor ends with white space |
| Text.TrimSpaceInfix | main.go:343 | the trimmed text is the infix of the input that starts after its leading white space, with only white space before and after it |
| Text.TrimAllSpace | main.go:343 | a string made only of white space trims to the empty string |
| Text.TrimSpaceKeepsOut | main.go:343 | trimming never introduces a character the input did not hold |
| Text.TrimSpacePadded | main.go:343 | trimming removes exactly the white space around a string that has none at its ends |
| Text.TrimSpaceIdempotent | main.go:343 | trimming twice is trimming once |
| Text.JoinAt | main.go:350 | the joined text holds each part at its offset, with the separator after every part but the last |
| Driver.RunOnce | main.go:203-218 | a single run's delivery is the mail gate applied to one alert per DOWN result |
| Driver.MonitorTick | main.go:146-164 | a loop tick updates the map as `Apply` does and delivers the mail gate applied to that tick's transitions |
| Driver.MonitorLoop | main.go:130-169 | over a run of ticks, the map ends as `Run` of the cycles and tick c delivers the mail gate applied to cycle c's transitions |
| Driver.OneResultPerServiceCount | main.go:136-147 | the barrier delivers exactly as many results as there are units |
| Driver.DistinctUnitsGiveDistinctKeys | main.go:136-149 | if no two units share host and port, the results of a cycle carry distinct keys in any arrival order |
| Driver.OneUnitGoesDown | main.go:149-154 | two units up, then only the second down: no alert in the first cycle, exactly one (for the second unit) in the next |
| Driver.WebScenario | main.go:149-164 | "Web" on example.com with ports 80 and 443: no alert while both are up, then one mail with exactly one alert, for port 443 |

## Left out

- `checkService` (ICMP probing and TCP dial with a timeout) is a foreign network call. Its outcome is an arbitrary `CheckResult` with status UP or DOWN and an optional error text.
- Goroutines, the `sync.WaitGroup`, the results channel and its closer are concurrency. A cycle's results are any sequence with one result per unit (`Driver.OneResultPerService`).
- The ticker and SIGINT/SIGTERM handling are timing and OS signals. The loop is modelled as a sequence of ticks (`Driver.MonitorLoop`).
- `time.ParseDuration` and the fatal exit on an invalid interval are library parsing and process exit.
- `loadConfig` (file reads and YAML) is I/O. `Types.Config` is the already-merged configuration.
- `smtp.PlainAuth` and `smtp.SendMail` are the external mail transport. A `Notify.Delivery.Mail` value is the request handed to it. Transport failures are not modelled.
- `printResult` and the coloured or logged messages are terminal output. The "skipping" and "not set" reports become the `SmtpDisabled` and `RecipientMissing` values.
- `main`'s flag handling is CLI glue.
- The message is modelled as a string, not as the UTF-8 bytes Go sends.
- Ports are unbounded integers rather than Go's 64-bit `int`.
- Alerts.FormatAlert: the RFC 1123 timestamp is an opaque string parameter, not the clock's reading.
- Tracker.StatusTracker.ProcessCycle, OneShot.SelectAlerts, Driver.RunOnce, Driver.MonitorTick, Driver.MonitorLoop: all alerts of one cycle or one run share one timestamp (one per tick in the loop). The source reads the clock once per alert, in `formatAlert` (main.go:152, main.go:207).
