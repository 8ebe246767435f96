/**
 * The monitor's records: the configuration it is given and the check units
 * and results it works with.
 */
module Types {
  import Text

  /** One configured server: a display name, a host and the TCP ports to probe. */
  datatype Server = Server(name: string, host: string, ports: seq<int>)

  datatype SmtpConfig = SmtpConfig(host: string, port: int, username: string, password: string)

  /** The merged configuration of both configuration files. */
  datatype Config = Config(
    servers: seq<Server>,
    smtp: SmtpConfig,
    alertRecipient: string,
    checkInterval: string)

  /** One check unit; port 0 stands for a ping (reachability) check. */
  datatype Service = Service(name: string, host: string, port: int)

  /** The two statuses a check reports, "UP" and "DOWN". */
  datatype Status = Up | Down

  /** Outcome of one check; `error` is the probe's error text, if it reported one. */
  datatype CheckResult = CheckResult(service: Service, status: Status, error: Option<string>)

  datatype Option<T> = None | Some(value: T)

  /** The status-map key of a unit, `"%s:%d"` of its host and port. */
  function ServiceId(s: Service): string {
    Text.HostPort(s.host, s.port)
  }

  /** Two units share a status-map key exactly when they share host and port. */
  lemma ServiceIdSameHostPort(a: Service, b: Service)
    ensures ServiceId(a) == ServiceId(b) <==> a.host == b.host && a.port == b.port
  {
    if ServiceId(a) == ServiceId(b) {
      Text.HostPortInjective(a.host, a.port, b.host, b.port);
    }
  }
}
