/** The self-operating API key registry (crates/open-web-server-gateway/src/keyring.rs).
    Times are integers in nanoseconds, learned intervals are reals in seconds. */
module KeyGuardian {
  import opened Common

  datatype Config = Config(anomalyFactor: real, warmup: nat, cooldown: int, fileBacked: bool)

  datatype KeyRecord = KeyRecord(
    owner: string, roles: seq<string>, createdAt: int, expiresAt: Option<int>, revoked: bool)

  datatype Usage = Usage(requests: nat, interval: Option<real>, lastSeen: Option<int>, suspendedUntil: Option<int>)

  datatype Decision = RegistryEmpty | Ok(owner: string, roles: seq<string>) | Rejected | Suspended(owner: string)

  datatype State = State(records: map<string, KeyRecord>, usage: map<string, Usage>, file: map<string, KeyRecord>)

  type Hash = string -> string

  const ALPHA: real := 0.3
  const MILLISECOND: int := 1_000_000
  const MAX_REQUESTS: nat := 0xFFFF_FFFF_FFFF_FFFF
  const NEW_USAGE: Usage := Usage(0, None, None, None)

  /** Seconds between two requests, in whole milliseconds and never negative. */
  function Gap(now: int, last: int): (g: real)
    ensures g >= 0.0
  {
    if now < last then 0.0 else ((now - last) / MILLISECOND) as real / 1000.0
  }

  function Smooth(learned: real, gap: real): real {
    learned * (1.0 - ALPHA) + gap * ALPHA
  }

  /** `learned / gap >= factor` for a positive learned interval and a positive gap. */
  predicate Anomalous(cfg: Config, u: Usage, gap: real) {
    var learned := if u.interval.Some? then u.interval.value else gap;
    u.requests >= cfg.warmup && learned > 0.0 && gap > 0.0 && learned / gap >= cfg.anomalyFactor
  }

  function UsageOf(s: State, h: string): Usage {
    if h in s.usage then s.usage[h] else NEW_USAGE
  }

  function Persist(cfg: Config, s: State, written: bool): State {
    if cfg.fileBacked && written then s.(file := s.records) else s
  }

  predicate Expired(r: KeyRecord, now: int) {
    r.expiresAt.Some? && now >= r.expiresAt.value
  }

  predicate InQuarantine(u: Usage, now: int) {
    u.suspendedUntil.Some? && now < u.suspendedUntil.value
  }

  /** Usage after an accepted request. */
  function Learn(u: Usage, now: int): Usage {
    var interval :=
      if u.lastSeen.None? then u.interval
      else
        var gap := Gap(now, u.lastSeen.value);
        Some(Smooth(if u.interval.Some? then u.interval.value else gap, gap));
    Usage(Min(u.requests + 1, MAX_REQUESTS), interval, Some(now), None)
  }

  /** The judgement on a live key: the new usage and whether it may pass. */
  function Judge(cfg: Config, u: Usage, now: int): (Usage, bool) {
    if InQuarantine(u, now) then (u, false)
    else if u.lastSeen.Some? && Anomalous(cfg, u, Gap(now, u.lastSeen.value)) then
      (u.(suspendedUntil := Some(now + cfg.cooldown)), false)
    else (Learn(u, now), true)
  }

  function VerifySpec(hash: Hash, cfg: Config, s: State, key: string, now: int, written: bool): (State, Decision) {
    var h := hash(key);
    if s.records == map[] then (s, RegistryEmpty)
    else if h !in s.records then (s, Rejected)
    else if Expired(s.records[h], now) then (Persist(cfg, s.(records := s.records - {h}), written), Rejected)
    else if s.records[h].revoked then (s, Rejected)
    else
      var (u, pass) := Judge(cfg, UsageOf(s, h), now);
      (s.(usage := s.usage[h := u]),
       if pass then Decision.Ok(s.records[h].owner, s.records[h].roles) else Suspended(s.records[h].owner))
  }

  function IssueSpec(hash: Hash, cfg: Config, s: State, key: string, r: KeyRecord, written: bool): State {
    Persist(cfg, s.(records := s.records[hash(key) := r]), written)
  }

  /** The keys that revoking `owner` would hit. */
  function Victims(records: map<string, KeyRecord>, owner: string): set<string> {
    set h | h in records && records[h].owner == owner && !records[h].revoked
  }

  function Revoke(records: map<string, KeyRecord>, victims: set<string>): map<string, KeyRecord> {
    map h | h in records :: if h in victims then records[h].(revoked := true) else records[h]
  }

  function RevokeSpec(cfg: Config, s: State, owner: string, written: bool): (State, nat) {
    var victims := Victims(s.records, owner);
    (if victims == {} then s else Persist(cfg, s.(records := Revoke(s.records, victims)), written), |victims|)
  }

  /** Revoking marks exactly the live keys of the owner, and reports how many there were. */
  lemma RevokeAnswers(cfg: Config, s: State, owner: string, written: bool)
    ensures var (t, revoked) := RevokeSpec(cfg, s, owner, written);
      && revoked == |set h | h in s.records && s.records[h].owner == owner && !s.records[h].revoked|
      && t.records.Keys == s.records.Keys
      && (forall h :: h in s.records ==>
            t.records[h] == s.records[h].(revoked := s.records[h].revoked || s.records[h].owner == owner))
  {
    var victims := set h | h in s.records && s.records[h].owner == owner && !s.records[h].revoked;
    assert Victims(s.records, owner) == victims;
    forall h | h in s.records
      ensures h in victims <==> s.records[h].owner == owner && !s.records[h].revoked
    {
    }
  }

  /** The next process: keys from the file if it can be read and parsed, nothing learned yet.
      What cannot be read stays in the file until the next write. */
  function RestartSpec(cfg: Config, s: State, readable: bool): State {
    State(if cfg.fileBacked && readable then s.file else map[], map[], s.file)
  }

  /** One iteration of the revocation loop: `h` leaves the keys still to be visited. */
  lemma RevokeOne(all: map<string, KeyRecord>, owner: string, todo: set<string>, h: string)
    requires h in todo && todo <= all.Keys
    ensures var victims := Victims(all, owner);
      var before := Revoke(all, victims - todo);
      var after := Revoke(all, victims - (todo - {h}));
      && before[h] == all[h]
      && (h in victims <==> all[h].owner == owner && !all[h].revoked)
      && after == (if h in victims then before[h := all[h].(revoked := true)] else before)
      && |victims - (todo - {h})| == |victims - todo| + (if h in victims then 1 else 0)
  {
    var victims := Victims(all, owner);
    if h in victims {
      assert victims - (todo - {h}) == victims - todo + {h};
    } else {
      assert victims - (todo - {h}) == victims - todo;
    }
  }

  class Guardian {
    const hash: Hash
    const cfg: Config
    var records: map<string, KeyRecord>
    var usage: map<string, Usage>
    var file: map<string, KeyRecord>

    ghost function Abs(): State
      reads this
    {
      State(records, usage, file)
    }

    /** `load_from_disk`: a missing or unreadable file counts as empty. */
    constructor (hash: Hash, cfg: Config, file: map<string, KeyRecord>, readable: bool, ghost before: State)
      requires before.file == file
      ensures this.hash == hash && this.cfg == cfg && Abs() == RestartSpec(cfg, before, readable)
    {
      this.hash, this.cfg := hash, cfg;
      records := if cfg.fileBacked && readable then file else map[];
      usage := map[];
      this.file := file;
    }

    method WriteFile(written: bool)
      modifies this`file
      ensures Abs() == Persist(cfg, old(Abs()), written)
    {
      if cfg.fileBacked && written { file := records; }
    }

    method Issue(key: string, r: KeyRecord, written: bool)
      modifies this
      ensures Abs() == IssueSpec(hash, cfg, old(Abs()), key, r, written)
    {
      records := records[hash(key) := r];
      WriteFile(written);
    }

    /** The loop of `revoke_owner` over all records, in any order. */
    method RevokeEach(owner: string) returns (revoked: nat)
      modifies this`records
      ensures records == Revoke(old(records), Victims(old(records), owner))
      ensures revoked == |Victims(old(records), owner)|
    {
      ghost var all, victims := records, Victims(records, owner);
      var todo := records.Keys;
      revoked := 0;
      assert victims - todo == {} && Revoke(all, {}) == all;
      while todo != {}
        invariant todo <= all.Keys
        invariant records == Revoke(all, victims - todo)
        invariant revoked == |victims - todo|
        decreases |todo|
      {
        var h :| h in todo;
        RevokeOne(all, owner, todo, h);
        todo := todo - {h};
        if records[h].owner == owner && !records[h].revoked {
          records := records[h := records[h].(revoked := true)];
          revoked := revoked + 1;
        }
      }
      assert victims - {} == victims;
    }

    method RevokeOwner(owner: string, written: bool) returns (revoked: nat)
      modifies this
      ensures (Abs(), revoked) == RevokeSpec(cfg, old(Abs()), owner, written)
    {
      revoked := RevokeEach(owner);
      if revoked > 0 {
        WriteFile(written);
      } else {
        assert Victims(old(records), owner) == {};
        assert records == old(records);
      }
    }

    method Verify(key: string, now: int, written: bool) returns (d: Decision)
      modifies this
      ensures (Abs(), d) == VerifySpec(hash, cfg, old(Abs()), key, now, written)
    {
      var h := hash(key);
      if records == map[] { return RegistryEmpty; }
      if h !in records { return Rejected; }
      var r := records[h];
      if r.expiresAt.Some? && now >= r.expiresAt.value {
        records := records - {h};
        WriteFile(written);
        return Rejected;
      }
      if r.revoked { return Rejected; }
      var u := if h in usage then usage[h] else NEW_USAGE;
      ghost var before := u;
      usage := usage[h := u];
      if u.suspendedUntil.Some? {
        if now < u.suspendedUntil.value { return Suspended(r.owner); }
        u := u.(suspendedUntil := None);
      }
      if u.lastSeen.Some? {
        var gap := Gap(now, u.lastSeen.value);
        if Anomalous(cfg, u, gap) {
          u := u.(suspendedUntil := Some(now + cfg.cooldown));
          usage := usage[h := u];
          assert Judge(cfg, before, now) == (u, false);
          assert usage == old(usage)[h := u];
          return Suspended(r.owner);
        }
        u := u.(interval := Some(Smooth(if u.interval.Some? then u.interval.value else gap, gap)));
      }
      u := u.(requests := Min(u.requests + 1, MAX_REQUESTS), lastSeen := Some(now));
      usage := usage[h := u];
      assert u == Learn(before, now);
      assert Judge(cfg, before, now) == (u, true);
      assert usage == old(usage)[h := u];
      return Decision.Ok(r.owner, r.roles);
    }
  }

  // ---------------------------------------------------------------- runs

  datatype Event =
    | Verify(key: string, now: int, written: bool)
    | Issue(key: string, record: KeyRecord, written: bool)
    | RevokeOwner(owner: string, written: bool)
    | Restart(readable: bool)

  predicate NoRestart(es: seq<Event>) {
    forall i :: 0 <= i < |es| ==> !es[i].Restart?
  }

  function Next(hash: Hash, cfg: Config, s: State, e: Event): State {
    match e
    case Verify(key, now, written) => VerifySpec(hash, cfg, s, key, now, written).0
    case Issue(key, record, written) => IssueSpec(hash, cfg, s, key, record, written)
    case RevokeOwner(owner, written) => RevokeSpec(cfg, s, owner, written).0
    case Restart(readable) => RestartSpec(cfg, s, readable)
  }

  function Run(hash: Hash, cfg: Config, s: State, es: seq<Event>): State
    decreases |es|
  {
    if es == [] then s else Run(hash, cfg, Next(hash, cfg, s, es[0]), es[1..])
  }

  predicate Accepts(hash: Hash, cfg: Config, s: State, e: Event, key: string) {
    e.Verify? && e.key == key && VerifySpec(hash, cfg, s, key, e.now, e.written).1.Ok?
  }

  /** No request with `key` is accepted anywhere in the run. */
  predicate NeverAccepted(hash: Hash, cfg: Config, s: State, es: seq<Event>, key: string)
    decreases |es|
  {
    es == [] ||
    (!Accepts(hash, cfg, s, es[0], key) && NeverAccepted(hash, cfg, Next(hash, cfg, s, es[0]), es[1..], key))
  }

  ghost predicate Injective(hash: Hash) {
    forall a, b :: hash(a) == hash(b) ==> a == b
  }

  // ---------------------------------------------------------------- quarantine

  predicate QuarantinedUntil(s: State, h: string, until: int) {
    h in s.usage && s.usage[h].suspendedUntil == Some(until)
  }

  lemma AnomalyQuarantines(hash: Hash, cfg: Config, s: State, key: string, now: int, written: bool)
    requires VerifySpec(hash, cfg, s, key, now, written).1.Suspended?
    ensures var before, t := UsageOf(s, hash(key)).suspendedUntil, Next(hash, cfg, s, Verify(key, now, written));
      if before.Some? && now < before.value then QuarantinedUntil(t, hash(key), before.value)
      else QuarantinedUntil(t, hash(key), now + cfg.cooldown)
  {
  }

  /** A suspended key is not accepted before its suspension ends, whatever else happens (short
      of a restart, which forgets suspensions). */
  lemma {:induction false} NoAcceptanceInQuarantine(hash: Hash, cfg: Config, s: State, es: seq<Event>,
                                                    key: string, until: int)
    requires QuarantinedUntil(s, hash(key), until)
    requires NoRestart(es)
    requires forall i :: 0 <= i < |es| && es[i].Verify? && hash(es[i].key) == hash(key) ==> es[i].now < until
    ensures NeverAccepted(hash, cfg, s, es, key) && QuarantinedUntil(Run(hash, cfg, s, es), hash(key), until)
    decreases |es|
  {
    if es != [] {
      var next := Next(hash, cfg, s, es[0]);
      assert es[0] in es;
      assert QuarantinedUntil(next, hash(key), until);
      NoAcceptanceInQuarantine(hash, cfg, next, es[1..], key, until);
    }
  }

  lemma MulMono(a: real, b: real, c: real)
    requires a >= b && c > 0.0
    ensures a * c >= b * c
  {
  }

  lemma MulStrict(a: real, b: real, c: real)
    requires a < b && c > 0.0
    ensures a * c < b * c
  {
  }

  lemma DivAtLeast(n: real, d: real, q: real)
    requires d > 0.0
    ensures n / d >= q <==> n >= q * d
  {
    var x := n / d;
    assert x * d == n;
    if x >= q { MulMono(x, q, d); } else { MulStrict(x, q, d); }
  }

  /** Outside quarantine a live key is accepted exactly when it was never seen, or is still
      warming up, or the gap since the last accepted request is zero milliseconds, or the gap
      times the factor exceeds what was learned (the gap itself, if nothing was learned yet). */
  lemma AcceptedIff(hash: Hash, cfg: Config, s: State, key: string, now: int, written: bool)
    requires hash(key) in s.records && !s.records[hash(key)].revoked && !Expired(s.records[hash(key)], now)
    requires !InQuarantine(UsageOf(s, hash(key)), now)
    ensures var u := UsageOf(s, hash(key));
      VerifySpec(hash, cfg, s, key, now, written).1.Ok? <==>
        || u.lastSeen.None?
        || u.requests < cfg.warmup
        || (var gap := Gap(now, u.lastSeen.value);
            var learned := if u.interval.Some? then u.interval.value else gap;
            gap == 0.0 || learned <= 0.0 || cfg.anomalyFactor * gap > learned)
  {
    var u := UsageOf(s, hash(key));
    if u.lastSeen.Some? {
      var gap := Gap(now, u.lastSeen.value);
      if gap > 0.0 { DivAtLeast(if u.interval.Some? then u.interval.value else gap, gap, cfg.anomalyFactor); }
    }
  }

  // ---------------------------------------------------------------- the learned interval

  /** The gap that the acceptance of `e` contributes for `key`, if it is not the first. */
  function GapOf(hash: Hash, cfg: Config, s: State, e: Event, key: string): Option<real> {
    if Accepts(hash, cfg, s, e, key) && UsageOf(s, hash(key)).lastSeen.Some?
    then Some(Gap(e.now, UsageOf(s, hash(key)).lastSeen.value)) else None
  }

  /** Every gap between accepted requests lies in [lo, hi]. */
  predicate GapsWithin(hash: Hash, cfg: Config, s: State, es: seq<Event>, key: string, lo: real, hi: real)
    decreases |es|
  {
    es == [] ||
    (&& (GapOf(hash, cfg, s, es[0], key).Some? ==> lo <= GapOf(hash, cfg, s, es[0], key).value <= hi)
     && GapsWithin(hash, cfg, Next(hash, cfg, s, es[0]), es[1..], key, lo, hi))
  }

  predicate IntervalWithin(s: State, h: string, lo: real, hi: real) {
    UsageOf(s, h).interval.Some? ==> lo <= UsageOf(s, h).interval.value <= hi
  }

  lemma SmoothBetween(learned: real, gap: real, lo: real, hi: real)
    requires lo <= learned <= hi && lo <= gap <= hi
    ensures lo <= Smooth(learned, gap) <= hi
  {
  }

  lemma UsageAfter(hash: Hash, cfg: Config, s: State, e: Event, key: string)
    requires Injective(hash)
    ensures var h := hash(key); var t := Next(hash, cfg, s, e);
      if Accepts(hash, cfg, s, e, key) then UsageOf(t, h) == Learn(UsageOf(s, h), e.now)
      else e.Restart? || UsageOf(t, h).interval == UsageOf(s, h).interval
  {
  }

  /** The learned interval always lies between the least and the greatest gap of accepted requests. */
  lemma {:induction false} LearnedBetweenGaps(hash: Hash, cfg: Config, s: State, es: seq<Event>, key: string,
                                              lo: real, hi: real)
    requires Injective(hash) && IntervalWithin(s, hash(key), lo, hi)
    requires GapsWithin(hash, cfg, s, es, key, lo, hi)
    ensures IntervalWithin(Run(hash, cfg, s, es), hash(key), lo, hi)
    decreases |es|
  {
    if es != [] {
      var e, u := es[0], UsageOf(s, hash(key));
      UsageAfter(hash, cfg, s, e, key);
      if Accepts(hash, cfg, s, e, key) && u.lastSeen.Some? {
        var gap := Gap(e.now, u.lastSeen.value);
        SmoothBetween(if u.interval.Some? then u.interval.value else gap, gap, lo, hi);
      }
      LearnedBetweenGaps(hash, cfg, Next(hash, cfg, s, e), es[1..], key, lo, hi);
    }
  }
}
