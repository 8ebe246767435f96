/**
 * Notification: the check interval's resolution, the gate in front of the
 * mailer, and `sendAlertEmail`'s recipient parsing and message assembly.
 * The SMTP exchange itself is not modelled: a `Mail` value is the request
 * that would be handed to the mail transport.
 */
module Notify {
  import opened Text
  import opened Types

  const DefaultInterval: string := "60s"

  /** The interval: a non-empty flag wins, then a non-empty configured value, then 60s. */
  method ResolveInterval(configured: string, flag: string) returns (interval: string)
    ensures flag != "" ==> interval == flag
    ensures flag == "" && configured != "" ==> interval == configured
    ensures flag == "" && configured == "" ==> interval == DefaultInterval
    ensures interval != ""
  {
    interval := configured;
    if flag != "" {
      interval := flag;
    }
    if interval == "" {
      interval := DefaultInterval;
    }
  }

  const Subject: string := "Subject: InfraPulse Alert: Service Degradation Detected\n"
  const BodyPrefix: string := "One or more services are down:\n\n"
  const Separator: string := "\n---------------------------------\n\n"

  /** What a cycle does about its alerts. */
  datatype Delivery =
    | NoAlerts          // nothing went down: nothing is sent
    | SmtpDisabled      // no SMTP host configured: alerting is skipped
    | RecipientMissing  // SMTP host set but no recipient: reported, nothing sent
    | Mail(addr: string, authHost: string, from: string, password: string, to: seq<string>, message: string)

  /** The recipient field split at each comma, each piece trimmed of white space. */
  function Recipients(field: string): seq<string> {
    var pieces := Split(field, ',');
    seq(|pieces|, i requires 0 <= i < |pieces| => TrimSpace(pieces[i]))
  }

  /** The message handed to the mailer: subject line, fixed opening, alerts joined by the separator line. */
  function MessageOf(alerts: seq<string>): string {
    Subject + BodyPrefix + Join(alerts, Separator)
  }

  /** `sendAlertEmail` as a value: skip without a recipient, else one mail to all recipients. */
  function EmailFor(cfg: Config, alerts: seq<string>): Delivery {
    if cfg.alertRecipient == "" then RecipientMissing
    else Mail(HostPort(cfg.smtp.host, cfg.smtp.port), cfg.smtp.host, cfg.smtp.username, cfg.smtp.password,
              Recipients(cfg.alertRecipient), MessageOf(alerts))
  }

  /**
   * The gate both run modes put in front of `sendAlertEmail`, together with
   * that function's own recipient check.
   */
  function Dispatch(cfg: Config, alerts: seq<string>): (d: Delivery)
    ensures d.Mail? <==> |alerts| > 0 && cfg.smtp.host != "" && cfg.alertRecipient != ""
    ensures |alerts| == 0 ==> d == NoAlerts
    ensures |alerts| > 0 && cfg.smtp.host == "" ==> d == SmtpDisabled
    ensures |alerts| > 0 && cfg.smtp.host != "" && cfg.alertRecipient == "" ==> d == RecipientMissing
    ensures d.Mail? ==> d.to == Recipients(cfg.alertRecipient) && d.message == MessageOf(alerts)
                        && d.addr == HostPort(cfg.smtp.host, cfg.smtp.port) && d.from == cfg.smtp.username
  {
    if |alerts| == 0 then NoAlerts
    else if cfg.smtp.host == "" then SmtpDisabled
    else EmailFor(cfg, alerts)
  }

  /** Trims every address of the recipient slice in place. */
  method TrimEach(to: array<string>)
    modifies to
    ensures forall k :: 0 <= k < to.Length ==> to[k] == TrimSpace(old(to[k]))
  {
    for i := 0 to to.Length
      invariant forall k :: 0 <= k < i ==> to[k] == TrimSpace(old(to[k]))
      invariant forall k :: i <= k < to.Length ==> to[k] == old(to[k])
    {
      to[i] := TrimSpace(to[i]);
    }
  }

  /** `sendAlertEmail` up to the hand-over to the mail transport. */
  method SendAlertEmail(cfg: Config, alerts: seq<string>) returns (d: Delivery)
    ensures d == EmailFor(cfg, alerts)
  {
    if cfg.alertRecipient == "" {
      return RecipientMissing;
    }
    var from := cfg.smtp.username;
    var password := cfg.smtp.password;
    var pieces := Split(cfg.alertRecipient, ',');
    var to := new string[|pieces|](i requires 0 <= i < |pieces| => pieces[i]);
    assert to[..] == pieces;
    TrimEach(to);
    var smtpHost := cfg.smtp.host;
    var smtpPort := cfg.smtp.port;
    var body := BodyPrefix;
    body := body + Join(alerts, Separator);
    var message := Subject + body;
    d := Mail(HostPort(smtpHost, smtpPort), smtpHost, from, password, to[..], message);
  }

  /**
   * The recipients are the comma-separated pieces of the field, one more
   * than there are commas, none holding a comma or surrounding white space;
   * the untrimmed pieces put back together with commas give the field again.
   */
  lemma RecipientsShape(field: string)
    ensures |Recipients(field)| == Count(field, ',') + 1
    ensures Join(Split(field, ','), ",") == field
    ensures forall i :: 0 <= i < |Recipients(field)| ==>
              var r := Recipients(field)[i];
              ',' !in r && (r == [] || (!IsSpace(r[0]) && !IsSpace(r[|r| - 1])))
  {
    var pieces := Split(field, ',');
    var rs := Recipients(field);
    assert |rs| == |pieces|;
    JoinSplit(field, ',');
    forall i | 0 <= i < |rs|
      ensures ',' !in rs[i] && (rs[i] == [] || (!IsSpace(rs[i][0]) && !IsSpace(rs[i][|rs[i]| - 1])))
    {
      RecipientTrimmed(pieces[i], rs[i]);
    }
  }

  lemma RecipientTrimmed(piece: string, r: string)
    requires ',' !in piece && r == TrimSpace(piece)
    ensures ',' !in r && (r == [] || (!IsSpace(r[0]) && !IsSpace(r[|r| - 1])))
  {
    TrimSpaceKeepsOut(piece, ',');
  }

  /** Two addresses written with a comma and a blank between them come back as the two addresses. */
  lemma RecipientsOfTwo(x: string, y: string)
    requires ',' !in x && ',' !in y
    requires |x| > 0 && !IsSpace(x[0]) && !IsSpace(x[|x| - 1])
    requires |y| > 0 && !IsSpace(y[0]) && !IsSpace(y[|y| - 1])
    ensures Recipients(x + ", " + y) == [x, y]
  {
    var y' := [' '] + y;
    var field := x + ", " + y;
    assert Split(field, ',') == [x, y'] by {
      SplitNoSeparator(y', ',');
      SplitAfter(x, ',', y');
      assert x + [','] + y' == field;
    }
    assert TrimSpace(x) == x by {
      TrimSpacePadded([], x, []);
      assert [] + x + [] == x;
    }
    assert TrimSpace(y') == y by {
      TrimSpacePadded([' '], y, []);
      assert [' '] + y + [] == y';
    }
    RecipientsOfPieces(field, x, y');
  }

  /** A field that splits into two pieces names their two trimmed forms. */
  lemma RecipientsOfPieces(field: string, a: string, b: string)
    requires Split(field, ',') == [a, b]
    ensures Recipients(field) == [TrimSpace(a), TrimSpace(b)]
  {
    var rs := Recipients(field);
    assert |rs| == 2 && rs[0] == TrimSpace(a) && rs[1] == TrimSpace(b);
  }

  /** `"a@x.com, b@x.com"` names exactly the two addresses, trimmed. */
  lemma RecipientsExample()
    ensures Recipients("a@x.com, b@x.com") == ["a@x.com", "b@x.com"]
  {
    RecipientsOfTwo("a@x.com", "b@x.com");
    assert "a@x.com" + ", " + "b@x.com" == "a@x.com, b@x.com";
  }

  /** Every alert appears whole in the message, in order, each one but the last followed by the separator line. */
  lemma MessageHoldsAlerts(alerts: seq<string>, i: nat)
    requires i < |alerts|
    ensures var o := |Subject + BodyPrefix| + JoinOffset(alerts, Separator, i);
            o + |alerts[i]| <= |MessageOf(alerts)|
            && MessageOf(alerts)[o..o + |alerts[i]|] == alerts[i]
            && (i < |alerts| - 1 ==>
                  o + |alerts[i]| + |Separator| <= |MessageOf(alerts)|
                  && MessageOf(alerts)[o + |alerts[i]|..o + |alerts[i]| + |Separator|] == Separator)
  {
    JoinPartAfterPrefix(Subject + BodyPrefix, alerts, Separator, i);
    if i < |alerts| - 1 {
      JoinSepAfterPrefix(Subject + BodyPrefix, alerts, Separator, i);
    }
  }
}
