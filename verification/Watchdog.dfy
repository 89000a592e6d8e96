/** The domain watchdog (crates/open-web-server-gateway/src/domain_watchdog.rs): health records,
    content expectations and the one automatic recovery, a TLS certificate reissue. */
module Watchdog {
  import opened Common

  const U32_MAX: nat := 0xFFFF_FFFF

  datatype HostHealth = HostHealth(
    consecutiveFailures: nat, lastChecked: nat, lastOk: bool, lastDetail: string,
    lastRecoveryAction: Option<string>, lastAiDiagnosis: Option<string>)

  datatype CheckOutcome = CheckOutcome(ok: bool, detail: string, tlsBroken: bool, body: string)

  /** A healthy outcome is never one of broken TLS. */
  type Probe = o: CheckOutcome | o.ok ==> !o.tlsBroken witness CheckOutcome(true, "", false, "")

  /** An operation under a five-second timeout. */
  datatype Attempt = Done | Refused(error: string) | TimedOut

  /** What the network answers at each stage of a check that gets that far: connecting, naming
      the server, the two handshakes, the request, and the reading of the body. */
  datatype Net = Net(
    tcp: Attempt,
    serverName: Result<(), string>,
    tls: Attempt,
    http: Result<(), string>,
    request: Attempt,
    status: nat,
    statusText: string,
    body: Option<seq<bv8>>,
    lossyText: seq<bv8> -> string)

  datatype Config = Config(failureThreshold: nat, hasReissuer: bool, hasAdvisor: bool)

  /** A check of one host with what the outside world answers: the network, the advisor's
      diagnosis and the reissuer's result, the last two used only if they are asked for. */
  datatype Event =
    | Checked(host: string, now: nat, net: Net, diagnosis: Option<string>, reissue: Result<(), string>)
    | SetExpectations(host: string, expected: seq<string>)

  datatype State = State(hosts: map<string, HostHealth>, expectations: map<string, seq<string>>)

  const NEW_HEALTH: HostHealth := HostHealth(0, 0, false, "", None, None)
  const START: State := State(map[], map[])

  // ---------------------------------------------------------------- the request to the own TLS port

  const MAX_BODY_BYTES: nat := 256 * 1024

  function Failure(detail: string, tlsBroken: bool): Probe {
    CheckOutcome(false, detail, tlsBroken, "")
  }

  predicate IsServerError(status: nat) {
    500 <= status < 600
  }

  /** The text of the first 256 KiB of a body that could be read to its end. */
  function BodyText(net: Net): string {
    if net.body.None? then "" else net.lossyText(net.body.value[..Min(|net.body.value|, MAX_BODY_BYTES)])
  }

  /** `check_host_https_path`: each stage has its own exit. */
  function CheckHostHttps(net: Net): Probe {
    if net.tcp.Refused? then Failure("tcp connect failed: " + net.tcp.error, true)
    else if net.tcp.TimedOut? then Failure("tcp connect timed out", true)
    else if net.serverName.Err? then Failure("invalid SNI host name: " + net.serverName.error, true)
    else if net.tls.Refused? then Failure("tls handshake failed: " + net.tls.error, true)
    else if net.tls.TimedOut? then Failure("tls handshake timed out", true)
    else if net.http.Err? then Failure("http handshake failed: " + net.http.error, false)
    else if net.request.Refused? then Failure("http request failed: " + net.request.error, false)
    else if net.request.TimedOut? then Failure("http request timed out", false)
    else CheckOutcome(!IsServerError(net.status), "http status " + net.statusText, false, BodyText(net))
  }

  /** The TLS handshake was begun. */
  predicate HandshakeTried(net: Net) {
    net.tcp.Done? && net.serverName.Ok?
  }

  predicate HandshakeFailed(net: Net) {
    HandshakeTried(net) && !net.tls.Done?
  }

  predicate Answered(net: Net) {
    HandshakeTried(net) && net.tls.Done? && net.http.Ok? && net.request.Done?
  }

  /** `tls_broken` is documented as "the TLS handshake itself failed". It says so exactly of the
      checks in which the handshake was begun: a refused connection, a connection that times out
      and a host name unfit for SNI set it too. */
  lemma TlsBrokenMeansHandshakeFailedIff(net: Net)
    ensures CheckHostHttps(net).tlsBroken <==> !HandshakeTried(net) || HandshakeFailed(net)
    ensures (CheckHostHttps(net).tlsBroken <==> HandshakeFailed(net)) <==> HandshakeTried(net)
  {
    if net.tcp.Done? && net.serverName.Ok? && net.tls.Done? {}
  }

  // ---------------------------------------------------------------- one check

  predicate OccursAt(body: string, text: string, i: nat) {
    i + |text| <= |body| && body[i..i + |text|] == text
  }

  predicate Contains(body: string, text: string) {
    exists i: nat :: i <= |body| && OccursAt(body, text, i)
  }

  function Missing(expected: seq<string>, body: string): seq<string> {
    if expected == [] then []
    else (if Contains(body, expected[0]) then [] else [expected[0]]) + Missing(expected[1..], body)
  }

  function Join(texts: seq<string>): string {
    if texts == [] then "" else if |texts| == 1 then texts[0] else texts[0] + ", " + Join(texts[1..])
  }

  function ExpectationsFor(s: State, host: string): seq<string> {
    if host in s.expectations then s.expectations[host] else []
  }

  /** A reachable page that lacks an expected text is a failure, but not one of TLS. */
  function Judge(expected: seq<string>, probe: Probe): Probe {
    var missing := Missing(expected, probe.body);
    if probe.ok && missing != []
    then probe.(ok := false, detail := "content check failed: missing expected text(s): " + Join(missing))
    else probe
  }

  lemma {:induction false} MissingNothingIff(expected: seq<string>, body: string)
    ensures Missing(expected, body) == [] <==> forall text :: text in expected ==> Contains(body, text)
  {
    if expected != [] {
      assert expected[0] in expected;
      assert forall text :: text in expected <==> text == expected[0] || text in expected[1..];
      MissingNothingIff(expected[1..], body);
    }
  }

  lemma ContainsIff(body: string, text: string)
    ensures Contains(body, text) <==> exists a: string, b: string :: body == a + text + b
  {
    if Contains(body, text) {
      var i: nat :| i <= |body| && OccursAt(body, text, i);
      assert body == body[..i] + text + body[i + |text|..];
    }
    forall a: string, b: string | body == a + text + b ensures Contains(body, text) {
      assert OccursAt(body, text, |a|);
    }
  }

  /** What is left of a body: 262,144 bytes at most, and nothing if it could not be read. */
  function ReadText(net: Net): string {
    match net.body
    case None => ""
    case Some(bytes) => net.lossyText(if |bytes| > 262_144 then bytes[..262_144] else bytes)
  }

  lemma ReadTextIsBodyText(net: Net)
    ensures ReadText(net) == BodyText(net)
  {
    if net.body.Some? && |net.body.value| <= 262_144 { assert net.body.value[..|net.body.value|] == net.body.value; }
  }

  /** Each exit has its own message. */
  lemma DetailTellsTheExit(net: Net)
    ensures var detail := CheckHostHttps(net).detail;
      && (net.tcp.Refused? ==> detail == "tcp connect failed: " + net.tcp.error)
      && (net.tcp.TimedOut? ==> detail == "tcp connect timed out")
      && (net.tcp.Done? && net.serverName.Err? ==> detail == "invalid SNI host name: " + net.serverName.error)
      && (HandshakeTried(net) && net.tls.Refused? ==> detail == "tls handshake failed: " + net.tls.error)
      && (HandshakeTried(net) && net.tls.TimedOut? ==> detail == "tls handshake timed out")
      && (Answered(net) ==> detail == "http status " + net.statusText)
  {
  }

  /** The expected texts that do not occur, in their order. */
  lemma {:induction false} MissingTells(expected: seq<string>, text: string, body: string)
    ensures Missing([], body) == []
    ensures Missing(expected + [text], body) ==
            Missing(expected, body) + if exists a: string, b: string :: body == a + text + b then [] else [text]
    decreases |expected|
  {
    ContainsIff(body, text);
    var all := expected + [text];
    if expected == [] {
      assert all[1..] == [] && all[0] == text;
    } else {
      assert all[0] == expected[0] && all[1..] == expected[1..] + [text];
      MissingTells(expected[1..], text, body);
    }
  }

  /** The missing texts are listed in the message with ", " between them. */
  lemma {:induction false} ListedWithCommas(texts: seq<string>, text: string)
    requires texts != []
    ensures Join([text]) == text
    ensures Join(texts + [text]) == Join(texts) + ", " + text
    decreases |texts|
  {
    var all := texts + [text];
    if |texts| == 1 {
      assert all[1..] == [text];
    } else {
      assert all[0] == texts[0] && all[1..] == texts[1..] + [text];
      ListedWithCommas(texts[1..], text);
    }
  }

  lemma MissingIsReported(expected: seq<string>, probe: Probe)
    requires probe.ok && Missing(expected, probe.body) != []
    ensures Judge(expected, probe).detail ==
            "content check failed: missing expected text(s): " + Join(Missing(expected, probe.body))
  {
  }

  /** A check succeeds exactly when an answer came, its status is no 5xx, and each expected text
      is in the first 256 KiB of the body (a 404 passes; a text further down does not). */
  lemma HealthyIff(expected: seq<string>, net: Net)
    ensures Judge(expected, CheckHostHttps(net)).ok <==>
      && Answered(net)
      && !(500 <= net.status <= 599)
      && forall text :: text in expected ==> exists a: string, b: string :: ReadText(net) == a + text + b
  {
    MissingNothingIff(expected, BodyText(net));
    ReadTextIsBodyText(net);
    forall text
      ensures Contains(BodyText(net), text) <==> exists a: string, b: string :: ReadText(net) == a + text + b
    {
      ContainsIff(BodyText(net), text);
    }
    if Answered(net) {
      assert CheckHostHttps(net).body == BodyText(net);
    } else {
      assert !CheckHostHttps(net).ok;
    }
  }

  function HealthOf(s: State, host: string): HostHealth {
    if host in s.hosts then s.hosts[host] else NEW_HEALTH
  }

  function Recorded(h: HostHealth, o: CheckOutcome, now: nat): HostHealth {
    if o.ok then HostHealth(0, now, true, o.detail, None, None)
    else
      h.(consecutiveFailures := Min(h.consecutiveFailures + 1, U32_MAX),
         lastChecked := now, lastOk := false, lastDetail := o.detail)
  }

  function OutcomeOf(s: State, e: Event): CheckOutcome
    requires e.Checked?
  {
    Judge(ExpectationsFor(s, e.host), CheckHostHttps(e.net))
  }

  /** The check reaches the stage of diagnosis and recovery. */
  predicate Alarming(cfg: Config, s: State, e: Event) {
    && e.Checked?
    && !OutcomeOf(s, e).ok
    && Recorded(HealthOf(s, e.host), OutcomeOf(s, e), e.now).consecutiveFailures >= cfg.failureThreshold
  }

  predicate Reissues(cfg: Config, s: State, e: Event) {
    Alarming(cfg, s, e) && OutcomeOf(s, e).tlsBroken && cfg.hasReissuer
  }

  function ActionText(r: Result<(), string>): string {
    if r.Ok? then "tls_reissued" else "tls_reissue_failed: " + r.error
  }

  function HealthAfter(cfg: Config, s: State, e: Event): HostHealth
    requires e.Checked?
  {
    var recorded := Recorded(HealthOf(s, e.host), OutcomeOf(s, e), e.now);
    var advised :=
      if Alarming(cfg, s, e) && cfg.hasAdvisor && e.diagnosis.Some? then recorded.(lastAiDiagnosis := e.diagnosis)
      else recorded;
    if Reissues(cfg, s, e) then advised.(lastRecoveryAction := Some(ActionText(e.reissue))) else advised
  }

  /** An empty list switches the content check off. */
  function Expect(s: State, host: string, expected: seq<string>): State {
    if expected == [] then s.(expectations := s.expectations - {host})
    else s.(expectations := s.expectations[host := expected])
  }

  function Next(cfg: Config, s: State, e: Event): State {
    if e.Checked? then s.(hosts := s.hosts[e.host := HealthAfter(cfg, s, e)]) else Expect(s, e.host, e.expected)
  }

  function Run(cfg: Config, s: State, es: seq<Event>): State
    decreases |es|
  {
    if es == [] then s else Next(cfg, Run(cfg, s, es[..|es| - 1]), es[|es| - 1])
  }

  /** For every event, whether it reissues a certificate. */
  function Trace(cfg: Config, s: State, es: seq<Event>): (r: seq<bool>)
    ensures |r| == |es|
    decreases |es|
  {
    if es == [] then []
    else
      var front := es[..|es| - 1];
      Trace(cfg, s, front) + [Reissues(cfg, Run(cfg, s, front), es[|es| - 1])]
  }

  // ---------------------------------------------------------------- the classes

  class WatchdogState {
    var hosts: map<string, HostHealth>
    var expectations: map<string, seq<string>>

    constructor ()
      ensures Abs() == START
    {
      hosts, expectations := map[], map[];
    }

    ghost function Abs(): State
      reads this
    {
      State(hosts, expectations)
    }

    method SetExpectations(host: string, expected: seq<string>)
      modifies this`expectations
      ensures Abs() == Expect(old(Abs()), host, expected)
    {
      expectations := if expected == [] then expectations - {host} else expectations[host := expected];
    }

    method FailuresFor(host: string) returns (n: nat)
      ensures n == HealthOf(Abs(), host).consecutiveFailures
    {
      n := if host in hosts then hosts[host].consecutiveFailures else 0;
    }

    method Record(host: string, outcome: CheckOutcome, now: nat)
      modifies this`hosts
      ensures hosts == old(hosts)[host := Recorded(HealthOf(old(Abs()), host), outcome, now)]
    {
      var entry := if host in hosts then hosts[host] else NEW_HEALTH;
      entry := entry.(lastChecked := now, lastOk := outcome.ok, lastDetail := outcome.detail);
      if outcome.ok {
        entry := entry.(consecutiveFailures := 0, lastRecoveryAction := None, lastAiDiagnosis := None);
      } else {
        entry := entry.(consecutiveFailures := Min(entry.consecutiveFailures + 1, U32_MAX));
      }
      hosts := hosts[host := entry];
    }

    method SetRecoveryAction(host: string, action: string)
      modifies this`hosts
      ensures host !in old(hosts) ==> hosts == old(hosts)
      ensures host in old(hosts) ==>
        hosts == old(hosts)[host := old(hosts)[host].(lastRecoveryAction := Some(action))]
    {
      if host in hosts { hosts := hosts[host := hosts[host].(lastRecoveryAction := Some(action))]; }
    }

    method SetAiDiagnosis(host: string, diagnosis: string)
      modifies this`hosts
      ensures host !in old(hosts) ==> hosts == old(hosts)
      ensures host in old(hosts) ==>
        hosts == old(hosts)[host := old(hosts)[host].(lastAiDiagnosis := Some(diagnosis))]
    {
      if host in hosts { hosts := hosts[host := hosts[host].(lastAiDiagnosis := Some(diagnosis))]; }
    }
  }

  class DomainWatchdog {
    const state: WatchdogState
    const cfg: Config

    constructor (state: WatchdogState, cfg: Config)
      ensures this.state == state && this.cfg == cfg
    {
      this.state, this.cfg := state, cfg;
    }

    /** The body of the loop in `run_once`; `reissued` tells whether the reissuer was called. */
    method CheckHost(e: Event) returns (reissued: bool)
      requires e.Checked?
      modifies state`hosts
      ensures state.Abs() == Next(cfg, old(state.Abs()), e)
      ensures reissued == Reissues(cfg, old(state.Abs()), e)
    {
      var outcome: CheckOutcome := CheckHostHttps(e.net);
      if outcome.ok {
        var expected := if e.host in state.expectations then state.expectations[e.host] else [];
        var missing := Missing(expected, outcome.body);
        if missing != [] {
          var detail := "content check failed: missing expected text(s): " + Join(missing);
          outcome := outcome.(ok := false, detail := detail);
        }
      }
      state.Record(e.host, outcome, e.now);
      if outcome.ok { return false; }
      var failures := state.FailuresFor(e.host);
      if failures < cfg.failureThreshold { return false; }
      if cfg.hasAdvisor && e.diagnosis.Some? {
        state.SetAiDiagnosis(e.host, e.diagnosis.value);
      }
      if outcome.tlsBroken && cfg.hasReissuer {
        state.SetRecoveryAction(e.host, ActionText(e.reissue));
        return true;
      }
      return false;
    }

    /** `run_once` over the hosts of `checks`. */
    method RunOnce(checks: seq<Event>) returns (reissued: seq<bool>)
      requires forall e :: e in checks ==> e.Checked?
      modifies state`hosts
      ensures state.Abs() == Run(cfg, old(state.Abs()), checks)
      ensures reissued == Trace(cfg, old(state.Abs()), checks)
    {
      reissued := [];
      var i := 0;
      while i < |checks|
        invariant 0 <= i <= |checks|
        invariant state.Abs() == Run(cfg, old(state.Abs()), checks[..i])
        invariant reissued == Trace(cfg, old(state.Abs()), checks[..i])
      {
        assert checks[..i + 1][..i] == checks[..i];
        var r := CheckHost(checks[i]);
        reissued := reissued + [r];
        i := i + 1;
      }
      assert checks[..i] == checks;
    }
  }

  // ---------------------------------------------------------------- failures are a trailing run

  /** For every check of `host`, in order, whether it failed. */
  function Failures(cfg: Config, es: seq<Event>, host: string): seq<bool>
    decreases |es|
  {
    if es == [] then []
    else
      var front, last := es[..|es| - 1], es[|es| - 1];
      Failures(cfg, front, host) +
      (if last.Checked? && last.host == host then [!OutcomeOf(Run(cfg, START, front), last).ok] else [])
  }

  /** The length of the trailing run of `true`. */
  function TrailingRun(rs: seq<bool>): nat
    decreases |rs|
  {
    if rs == [] || !rs[|rs| - 1] then 0 else TrailingRun(rs[..|rs| - 1]) + 1
  }

  /** The last `k` entries exist and are all `true`. */
  predicate LastAll(rs: seq<bool>, k: nat) {
    k <= |rs| && forall i :: |rs| - k <= i < |rs| ==> rs[i]
  }

  lemma {:induction false} TrailingRunIff(rs: seq<bool>, k: nat)
    ensures TrailingRun(rs) >= k <==> LastAll(rs, k)
    decreases |rs|
  {
    if rs != [] && k > 0 {
      var front := rs[..|rs| - 1];
      TrailingRunIff(front, k - 1);
      if LastAll(rs, k) { assert rs[|rs| - 1] && LastAll(front, k - 1); }
      if rs[|rs| - 1] && LastAll(front, k - 1) {
        forall i | |rs| - k <= i < |rs| ensures rs[i] {
          if i < |rs| - 1 { assert front[i]; }
        }
      }
    }
  }

  lemma TrailingRunSnoc(rs: seq<bool>, r: bool)
    ensures TrailingRun(rs + [r]) == if r then TrailingRun(rs) + 1 else 0
  {
    assert (rs + [r])[..|rs|] == rs;
  }

  /** `consecutive_failures` is the length of the trailing run of failed checks of that host, in
      32 bits with saturation, whatever happens to other hosts and to the expectations. */
  lemma {:induction false} ConsecutiveFailuresIsTheTrailingRun(cfg: Config, es: seq<Event>, host: string)
    ensures HealthOf(Run(cfg, START, es), host).consecutiveFailures ==
            Min(TrailingRun(Failures(cfg, es, host)), 4_294_967_295)
    decreases |es|
  {
    if es != [] {
      var front, last := es[..|es| - 1], es[|es| - 1];
      ConsecutiveFailuresIsTheTrailingRun(cfg, front, host);
      if last.Checked? && last.host == host {
        TrailingRunSnoc(Failures(cfg, front, host), !OutcomeOf(Run(cfg, START, front), last).ok);
      } else {
        assert Failures(cfg, es, host) == Failures(cfg, front, host);
      }
    }
  }

  lemma FailuresSnoc(cfg: Config, es: seq<Event>, e: Event)
    requires e.Checked?
    ensures Failures(cfg, es + [e], e.host) == Failures(cfg, es, e.host) + [!OutcomeOf(Run(cfg, START, es), e).ok]
  {
    assert (es + [e])[..|es|] == es;
  }

  /** A check reissues the certificate exactly when there is a reissuer, the check did not get
      past the TLS handshake (or not even to it), and the last max(1, threshold) checks of the
      host, this one included, all failed. */
  lemma ReissuesIff(cfg: Config, es: seq<Event>, e: Event)
    requires e.Checked? && cfg.failureThreshold <= 4_294_967_295
    ensures Reissues(cfg, Run(cfg, START, es), e) <==>
      && cfg.hasReissuer
      && !(HandshakeTried(e.net) && e.net.tls.Done?)
      && LastAll(Failures(cfg, es + [e], e.host), Max(1, cfg.failureThreshold))
  {
    var s, rs := Run(cfg, START, es), Failures(cfg, es, e.host);
    ConsecutiveFailuresIsTheTrailingRun(cfg, es, e.host);
    ReissuesAfter(cfg, s, e, TrailingRun(rs));
    FailuresSnoc(cfg, es, e);
    TrailingRunSnoc(rs, !OutcomeOf(s, e).ok);
    TrailingRunIff(Failures(cfg, es + [e], e.host), Max(1, cfg.failureThreshold));
  }

  lemma ReissuesAfter(cfg: Config, s: State, e: Event, failuresBefore: nat)
    requires e.Checked? && cfg.failureThreshold <= U32_MAX
    requires HealthOf(s, e.host).consecutiveFailures == Min(failuresBefore, U32_MAX)
    ensures Reissues(cfg, s, e) <==>
      && cfg.hasReissuer
      && !(HandshakeTried(e.net) && e.net.tls.Done?)
      && !OutcomeOf(s, e).ok && failuresBefore + 1 >= cfg.failureThreshold
  {
    TlsBrokenMeansHandshakeFailedIff(e.net);
  }

  /** A page that is reachable but lacks an expected text never reissues anything, however
      often that happens. */
  lemma MissingContentNeverReissues(cfg: Config, s: State, e: Event)
    requires e.Checked? && Answered(e.net) && !IsServerError(e.net.status)
    ensures !Reissues(cfg, s, e)
    ensures var action := HealthAfter(cfg, s, e).lastRecoveryAction;
      action.Some? ==> action == HealthOf(s, e.host).lastRecoveryAction
  {
  }

  /** Checks of `host` none of which could even connect. */
  predicate Outage(es: seq<Event>, host: string) {
    forall i :: 0 <= i < |es| ==> es[i].Checked? && es[i].host == host && !es[i].net.tcp.Done?
  }

  lemma {:induction false} OutageFails(cfg: Config, before: seq<Event>, outage: seq<Event>, host: string)
    requires Outage(outage, host)
    ensures LastAll(Failures(cfg, before + outage, host), |outage|)
    decreases |outage|
  {
    if outage != [] {
      var front, last := outage[..|outage| - 1], outage[|outage| - 1];
      OutageFails(cfg, before, front, host);
      assert before + outage == (before + front) + [last];
      FailuresSnoc(cfg, before + front, last);
    }
  }

  /** A server that merely refuses connections gets a new certificate: whatever happened before,
      the check that completes max(1, threshold) refused connections reissues it, and so does
      each further one. */
  lemma OutageReissues(cfg: Config, before: seq<Event>, outage: seq<Event>, e: Event)
    requires cfg.hasReissuer && cfg.failureThreshold <= U32_MAX
    requires e.Checked? && Outage(outage + [e], e.host) && |outage| + 1 >= Max(1, cfg.failureThreshold)
    ensures Reissues(cfg, Run(cfg, START, before + outage), e)
    ensures !HandshakeFailed(e.net)
  {
    var es := before + outage;
    assert (outage + [e])[|outage|] == e;
    assert es + [e] == before + (outage + [e]);
    OutageFails(cfg, before, outage + [e], e.host);
    ReissuesIff(cfg, es, e);
  }

  // ---------------------------------------------------------------- what is stored

  /** The list registered for the host last; there is none to begin with. */
  function LastRegistered(es: seq<Event>, host: string): seq<string>
    decreases |es|
  {
    if es == [] then []
    else
      var last := es[|es| - 1];
      if last.SetExpectations? && last.host == host then last.expected else LastRegistered(es[..|es| - 1], host)
  }

  /** The texts looked for are those registered last for the host. */
  lemma {:induction false} JudgedByTheLastList(cfg: Config, es: seq<Event>, host: string)
    ensures ExpectationsFor(Run(cfg, START, es), host) == LastRegistered(es, host)
    decreases |es|
  {
    if es != [] { JudgedByTheLastList(cfg, es[..|es| - 1], host); }
  }

  /** The recovery noted for the host: of the last reissue, unless a check succeeded since. */
  function LastAction(cfg: Config, es: seq<Event>, host: string): Option<string>
    decreases |es|
  {
    if es == [] then None
    else
      var front, last := es[..|es| - 1], es[|es| - 1];
      var s := Run(cfg, START, front);
      if !(last.Checked? && last.host == host) then LastAction(cfg, front, host)
      else if OutcomeOf(s, last).ok then None
      else if !Reissues(cfg, s, last) then LastAction(cfg, front, host)
      else match last.reissue
        case Ok(_) => Some("tls_reissued")
        case Err(error) => Some("tls_reissue_failed: " + error)
  }

  lemma {:induction false} ActionIsTheLast(cfg: Config, es: seq<Event>, host: string)
    ensures HealthOf(Run(cfg, START, es), host).lastRecoveryAction == LastAction(cfg, es, host)
    decreases |es|
  {
    if es != [] {
      var front, last := es[..|es| - 1], es[|es| - 1];
      ActionIsTheLast(cfg, front, host);
      if last.Checked? && last.host == host { ActionAfter(cfg, Run(cfg, START, front), last); }
    }
  }

  lemma ActionAfter(cfg: Config, s: State, e: Event)
    requires e.Checked?
    ensures var action := HealthAfter(cfg, s, e).lastRecoveryAction;
      if OutcomeOf(s, e).ok then action == None
      else if !Reissues(cfg, s, e) then action == HealthOf(s, e.host).lastRecoveryAction
      else if e.reissue.Ok? then action == Some("tls_reissued")
      else action == Some("tls_reissue_failed: " + e.reissue.error)
  {
  }

  /** The diagnosis kept for the host: the last one given, unless a check succeeded since. */
  function LastDiagnosis(cfg: Config, es: seq<Event>, host: string): Option<string>
    decreases |es|
  {
    if es == [] then None
    else
      var front, last := es[..|es| - 1], es[|es| - 1];
      var s := Run(cfg, START, front);
      if !(last.Checked? && last.host == host) then LastDiagnosis(cfg, front, host)
      else if OutcomeOf(s, last).ok then None
      else if Alarming(cfg, s, last) && cfg.hasAdvisor && last.diagnosis.Some? then last.diagnosis
      else LastDiagnosis(cfg, front, host)
  }

  lemma {:induction false} DiagnosisIsTheLast(cfg: Config, es: seq<Event>, host: string)
    ensures HealthOf(Run(cfg, START, es), host).lastAiDiagnosis == LastDiagnosis(cfg, es, host)
    decreases |es|
  {
    if es != [] {
      var front, last := es[..|es| - 1], es[|es| - 1];
      DiagnosisIsTheLast(cfg, front, host);
      if last.Checked? && last.host == host { DiagnosisAfter(cfg, Run(cfg, START, front), last); }
    }
  }

  lemma DiagnosisAfter(cfg: Config, s: State, e: Event)
    requires e.Checked?
    ensures var diagnosis := HealthAfter(cfg, s, e).lastAiDiagnosis;
      if OutcomeOf(s, e).ok then diagnosis == None
      else if Alarming(cfg, s, e) && cfg.hasAdvisor && e.diagnosis.Some? then diagnosis == e.diagnosis
      else diagnosis == HealthOf(s, e.host).lastAiDiagnosis
  {
  }

  /** After a check the record of its host shows this check, and a good one clears the rest. */
  lemma CheckIsShown(cfg: Config, s: State, e: Event)
    requires e.Checked?
    ensures var h := HealthOf(Next(cfg, s, e), e.host);
      && h.lastChecked == e.now
      && h.lastOk == OutcomeOf(s, e).ok
      && h.lastDetail == OutcomeOf(s, e).detail
      && (h.lastOk ==> h == HostHealth(0, e.now, true, h.lastDetail, None, None))
  {
  }

  // ---------------------------------------------------------------- hosts do not influence each other

  function Only(es: seq<Event>, host: string): seq<Event>
    decreases |es|
  {
    if es == [] then [] else Only(es[..|es| - 1], host) + (if es[|es| - 1].host == host then [es[|es| - 1]] else [])
  }

  predicate SameFor(s: State, t: State, host: string) {
    HealthOf(s, host) == HealthOf(t, host) && ExpectationsFor(s, host) == ExpectationsFor(t, host)
  }

  lemma NextElsewhere(cfg: Config, s: State, e: Event, host: string)
    requires e.host != host
    ensures SameFor(s, Next(cfg, s, e), host)
  {
  }

  lemma NextAlike(cfg: Config, s: State, t: State, e: Event)
    requires SameFor(s, t, e.host)
    ensures SameFor(Next(cfg, s, e), Next(cfg, t, e), e.host)
  {
  }

  /** The health of a host is a function of its own events alone. */
  lemma {:induction false} HostsAreIndependent(cfg: Config, es: seq<Event>, host: string)
    ensures SameFor(Run(cfg, START, es), Run(cfg, START, Only(es, host)), host)
    decreases |es|
  {
    if es != [] {
      var front, last := es[..|es| - 1], es[|es| - 1];
      HostsAreIndependent(cfg, front, host);
      if last.host == host {
        assert (Only(front, host) + [last])[..|Only(front, host)|] == Only(front, host);
        NextAlike(cfg, Run(cfg, START, front), Run(cfg, START, Only(front, host)), last);
      } else {
        assert Only(es, host) == Only(front, host);
        NextElsewhere(cfg, Run(cfg, START, front), last, host);
      }
    }
  }

  // ---------------------------------------------------------------- advice is only advice

  function WithoutAdvice(h: HostHealth): HostHealth {
    h.(lastAiDiagnosis := None)
  }

  predicate SameButAdvice(s: State, t: State) {
    && s.expectations == t.expectations
    && s.hosts.Keys == t.hosts.Keys
    && forall h :: h in s.hosts ==> WithoutAdvice(s.hosts[h]) == WithoutAdvice(t.hosts[h])
  }

  ghost predicate SameEventButAdvice(e: Event, f: Event) {
    if e.Checked? then f.Checked? && f == e.(diagnosis := f.diagnosis) else f == e
  }

  lemma AdviceChangesNothingElse(cfg: Config, with: Config, s: State, t: State, e: Event, f: Event)
    requires with == cfg.(hasAdvisor := with.hasAdvisor)
    requires SameButAdvice(s, t) && SameEventButAdvice(e, f)
    ensures SameButAdvice(Next(cfg, s, e), Next(with, t, f))
    ensures Reissues(cfg, s, e) <==> Reissues(with, t, f)
  {
    if e.Checked? {
      assert HealthOf(s, e.host).consecutiveFailures == HealthOf(t, e.host).consecutiveFailures;
      assert OutcomeOf(s, e) == OutcomeOf(t, f);
      assert Alarming(cfg, s, e) <==> Alarming(with, t, f);
      SameHealthButAdvice(cfg, with, s, t, e, f);
    }
  }

  lemma SameHealthButAdvice(cfg: Config, with: Config, s: State, t: State, e: Event, f: Event)
    requires e.Checked? && SameEventButAdvice(e, f) && cfg.hasReissuer == with.hasReissuer
    requires WithoutAdvice(HealthOf(s, e.host)) == WithoutAdvice(HealthOf(t, e.host))
    requires OutcomeOf(s, e) == OutcomeOf(t, f) && (Alarming(cfg, s, e) <==> Alarming(with, t, f))
    ensures WithoutAdvice(HealthAfter(cfg, s, e)) == WithoutAdvice(HealthAfter(with, t, f))
  {
    if Reissues(cfg, s, e) {} else {}
  }

  /** The advisor never influences a recovery: with any other advisor, or none, the same checks
      reissue the same certificates and leave the same health but for the stored diagnosis. */
  lemma {:induction false} AdviceNeverDecides(cfg: Config, with: Config, es: seq<Event>, fs: seq<Event>)
    requires with == cfg.(hasAdvisor := with.hasAdvisor)
    requires |es| == |fs| && forall i :: 0 <= i < |es| ==> SameEventButAdvice(es[i], fs[i])
    ensures SameButAdvice(Run(cfg, START, es), Run(with, START, fs))
    ensures Trace(cfg, START, es) == Trace(with, START, fs)
    decreases |es|
  {
    if es != [] {
      var n := |es| - 1;
      AdviceNeverDecides(cfg, with, es[..n], fs[..n]);
      AdviceChangesNothingElse(cfg, with, Run(cfg, START, es[..n]), Run(with, START, fs[..n]), es[n], fs[n]);
    }
  }
}
