/** The token bucket per client address (crates/open-web-server-gateway/src/rate_limit.rs).
    Floating-point numbers are modelled as reals and times as seconds since start. */
module RateLimit {
  import opened Common

  datatype Config = Config(rps: real, burst: real)

  /** What the environment variables can produce. */
  predicate Valid(cfg: Config) {
    cfg.rps > 0.0 && cfg.burst >= 1.0
  }

  /** `from_env`: a missing or non-positive rate disables the limiter. */
  function FromEnv(rps: Option<real>, burst: Option<real>): (r: Option<Config>)
    ensures r.Some? <==> rps.Some? && rps.value > 0.0
    ensures r.Some? ==> Valid(r.value) && r.value.rps == rps.value
    ensures r.Some? ==> var wanted := if burst.Some? then burst.value else rps.value;
      r.value.burst >= wanted && (r.value.burst == wanted || r.value.burst == 1.0)
  {
    if rps.None? || rps.value <= 0.0 then None
    else
      var b := if burst.Some? then burst.value else rps.value;
      Some(Config(rps.value, if b < 1.0 then 1.0 else b))
  }

  /** How a bucket fills: `gain` of a duration, up to `burst`. */
  datatype Policy = Policy(gain: real -> real, burst: real)

  function PolicyOf(cfg: Config): Policy {
    Policy(elapsed => elapsed * cfg.rps, cfg.burst)
  }

  /** All that the proofs need of `elapsed * rps`; it keeps products out of them. */
  ghost predicate Regular(p: Policy) {
    && p.burst >= 1.0
    && p.gain(0.0) == 0.0
    && (forall x, y | 0.0 <= x && 0.0 <= y :: p.gain(x) + p.gain(y) == p.gain(x + y))
    && (forall x | 0.0 <= x :: 0.0 <= p.gain(x))
  }

  lemma ConfigIsRegular(cfg: Config)
    requires Valid(cfg)
    ensures Regular(PolicyOf(cfg))
  {
    var p := PolicyOf(cfg);
    forall x, y | 0.0 <= x && 0.0 <= y ensures p.gain(x) + p.gain(y) == p.gain(x + y) {}
    forall x | 0.0 <= x ensures 0.0 <= p.gain(x) {}
  }

  lemma GainOf(cfg: Config, elapsed: real)
    ensures PolicyOf(cfg).gain(elapsed) == elapsed * cfg.rps
    ensures PolicyOf(cfg).gain(0.0) == 0.0
  {
  }

  lemma UnderPolicy(cfg: Config, n: real, elapsed: real)
    requires n <= PolicyOf(cfg).burst + PolicyOf(cfg).gain(elapsed)
    ensures n <= cfg.burst + elapsed * cfg.rps
  {
  }

  /** Time passes in stretches. */
  lemma GainAdds(p: Policy, x: real, y: real, z: real)
    requires Regular(p) && x <= y <= z
    ensures p.gain(z - x) == p.gain(y - x) + p.gain(z - y)
    ensures 0.0 <= p.gain(y - x) && 0.0 <= p.gain(z - y)
  {
    assert (y - x) + (z - y) == z - x;
  }

  datatype Bucket = Bucket(tokens: real, last: real)

  type Buckets<!Ip> = map<Ip, Bucket>

  /** `duration_since` does not go below zero. */
  function Elapsed(now: real, last: real): real {
    if now < last then 0.0 else now - last
  }

  /** Tokens available at `now`; an address without a bucket has a full one. */
  function Available<Ip>(p: Policy, b: Buckets<Ip>, ip: Ip, now: real): real {
    if ip !in b then p.burst
    else
      var refilled := b[ip].tokens + p.gain(Elapsed(now, b[ip].last));
      if refilled < p.burst then refilled else p.burst
  }

  /** A request is admitted when a whole token is available, and takes it. */
  function Acquire<Ip>(p: Policy, b: Buckets<Ip>, ip: Ip, now: real): (Buckets<Ip>, bool) {
    var tokens := Available(p, b, ip, now);
    if tokens >= 1.0 then (b[ip := Bucket(tokens - 1.0, now)], true)
    else (b[ip := Bucket(tokens, now)], false)
  }

  function EvictIdle<Ip>(b: Buckets<Ip>, idleFor: real, now: real): Buckets<Ip> {
    map ip | ip in b && Elapsed(now, b[ip].last) < idleFor :: b[ip]
  }

  class RateLimiter<Ip(==)> {
    const cfg: Config
    var buckets: Buckets<Ip>

    constructor (cfg: Config)
      ensures this.cfg == cfg && buckets == map[]
    {
      this.cfg := cfg;
      buckets := map[];
    }

    method TryAcquire(ip: Ip, now: real) returns (ok: bool)
      modifies this
      ensures (buckets, ok) == Acquire(PolicyOf(cfg), old(buckets), ip, now)
    {
      var entry := if ip in buckets then buckets[ip] else Bucket(cfg.burst, now);
      var elapsed := Elapsed(now, entry.last);
      var tokens := entry.tokens + elapsed * cfg.rps;
      GainOf(cfg, elapsed);
      if tokens > cfg.burst { tokens := cfg.burst; }
      assert tokens == Available(PolicyOf(cfg), buckets, ip, now);
      ok := tokens >= 1.0;
      if ok { tokens := tokens - 1.0; }
      buckets := buckets[ip := Bucket(tokens, now)];
    }

    method Evict(idleFor: real, now: real)
      modifies this
      ensures buckets == EvictIdle(old(buckets), idleFor, now)
    {
      buckets := EvictIdle(buckets, idleFor, now);
    }
  }

  // ---------------------------------------------------------------- runs

  datatype Op<Ip> = Request(ip: Ip, now: real) | Sweep(idleFor: real, now: real)

  function Next<Ip>(p: Policy, b: Buckets<Ip>, op: Op<Ip>): Buckets<Ip> {
    match op
    case Request(ip, now) => Acquire(p, b, ip, now).0
    case Sweep(idleFor, now) => EvictIdle(b, idleFor, now)
  }

  function Decision<Ip>(p: Policy, b: Buckets<Ip>, op: Op<Ip>): Option<bool> {
    match op
    case Request(ip, now) => Some(Acquire(p, b, ip, now).1)
    case Sweep(_, _) => None
  }

  predicate TimeOrdered<Ip>(clock: real, ops: seq<Op<Ip>>)
    decreases |ops|
  {
    ops == [] || (clock <= ops[0].now && TimeOrdered(ops[0].now, ops[1..]))
  }

  function Decisions<Ip>(p: Policy, b: Buckets<Ip>, ops: seq<Op<Ip>>): (r: seq<Option<bool>>)
    ensures |r| == |ops|
    decreases |ops|
  {
    if ops == [] then [] else [Decision(p, b, ops[0])] + Decisions(p, Next(p, b, ops[0]), ops[1..])
  }

  /** Buckets hold between zero and `burst` tokens and are not from the future. */
  ghost predicate Sane<Ip>(p: Policy, b: Buckets<Ip>, clock: real) {
    forall ip :: ip in b ==> 0.0 <= b[ip].tokens <= p.burst && b[ip].last <= clock
  }

  lemma StepSane<Ip>(p: Policy, b: Buckets<Ip>, clock: real, op: Op<Ip>)
    requires Regular(p) && Sane(p, b, clock) && clock <= op.now
    ensures Sane(p, Next(p, b, op), op.now)
  {
    if op.Request? && op.ip in b { GainAdds(p, b[op.ip].last, b[op.ip].last, op.now); }
  }

  // ---------------------------------------------------------------- the admission bound

  /** Whether `op` is an admission of `ip` at a time in [from, to]. */
  predicate Counted<Ip(==)>(p: Policy, b: Buckets<Ip>, op: Op<Ip>, ip: Ip, from: real, to: real) {
    op.Request? && op.ip == ip && from <= op.now <= to && Acquire(p, b, ip, op.now).1
  }

  /** Admissions of `ip` at times in [from, to]. */
  function Admissions<Ip(==)>(p: Policy, b: Buckets<Ip>, ops: seq<Op<Ip>>, ip: Ip, from: real, to: real): real
    decreases |ops|
  {
    if ops == [] then 0.0
    else
      (if Counted(p, b, ops[0], ip, from, to) then 1.0 else 0.0)
      + Admissions(p, Next(p, b, ops[0]), ops[1..], ip, from, to)
  }

  /** An idle time after which any bucket is full again. */
  predicate Patient(p: Policy, idleFor: real) {
    0.0 <= idleFor && p.gain(idleFor) >= p.burst
  }

  /** Sweeps leave alone every bucket that is not certainly full again. */
  predicate PatientSweeps<Ip>(p: Policy, ops: seq<Op<Ip>>) {
    forall i :: 0 <= i < |ops| && ops[i].Sweep? ==> Patient(p, ops[i].idleFor)
  }

  /** Tokens available later are at most those available now plus the refill between. */
  lemma AvailableLater<Ip>(p: Policy, b: Buckets<Ip>, ip: Ip, clock: real, now: real)
    requires Regular(p) && Sane(p, b, clock) && clock <= now
    ensures 0.0 <= Available(p, b, ip, clock) <= Available(p, b, ip, now) <= p.burst
    ensures Available(p, b, ip, now) <= Available(p, b, ip, clock) + p.gain(now - clock)
  {
    GainAdds(p, clock, clock, now);
    if ip in b { GainAdds(p, b[ip].last, clock, now); }
  }

  lemma IdleIsFull(p: Policy, bucket: Bucket, idleFor: real, now: real)
    requires Regular(p) && Patient(p, idleFor) && 0.0 <= bucket.tokens && now - bucket.last >= idleFor
    ensures bucket.tokens + p.gain(now - bucket.last) >= p.burst
  {
    GainAdds(p, bucket.last, bucket.last + idleFor, now);
    assert bucket.last + idleFor - bucket.last == idleFor;
  }

  /** A swept bucket was full, so sweeping does not change what is available. */
  lemma SweepKeepsAvailable<Ip>(p: Policy, b: Buckets<Ip>, clock: real, idleFor: real, swept: real, ip: Ip, now: real)
    requires Regular(p) && Sane(p, b, clock) && clock <= swept <= now
    requires Patient(p, idleFor)
    ensures Available(p, EvictIdle(b, idleFor, swept), ip, now) == Available(p, b, ip, now)
  {
    if ip in b && Elapsed(swept, b[ip].last) >= idleFor {
      IdleIsFull(p, b[ip], idleFor, now);
    } else {
      OwnBucketOnly(p, EvictIdle(b, idleFor, swept), b, ip, now);
    }
  }

  lemma AvailableAfter<Ip>(p: Policy, b: Buckets<Ip>, clock: real, op: Op<Ip>, ip: Ip)
    requires Regular(p) && Sane(p, b, clock) && clock <= op.now
    requires op.Sweep? ==> Patient(p, op.idleFor)
    ensures Available(p, Next(p, b, op), ip, op.now) ==
      Available(p, b, ip, op.now) -
      if op.Request? && op.ip == ip && Acquire(p, b, ip, op.now).1 then 1.0 else 0.0
  {
    if op.Sweep? {
      SweepKeepsAvailable(p, b, clock, op.idleFor, op.now, ip, op.now);
    } else if op.ip == ip {
      AvailableLater(p, b, ip, clock, op.now);
    }
  }

  /** One operation spends at most what it admits. */
  lemma CostOfOp<Ip>(p: Policy, b: Buckets<Ip>, clock: real, op: Op<Ip>, ip: Ip, from: real, to: real)
    requires Regular(p) && Sane(p, b, clock) && clock <= op.now
    requires op.Sweep? ==> Patient(p, op.idleFor)
    ensures (if Counted(p, b, op, ip, from, to) then 1.0 else 0.0) + Available(p, Next(p, b, op), ip, op.now)
            <= Available(p, b, ip, clock) + p.gain(op.now - clock)
  {
    AvailableLater(p, b, ip, clock, op.now);
    AvailableAfter(p, b, clock, op, ip);
  }

  /** The potential argument: every admission costs a token that was there or was refilled. */
  lemma {:induction false} AdmissionsCostTokens<Ip>(p: Policy, b: Buckets<Ip>, clock: real, ops: seq<Op<Ip>>,
                                                    ip: Ip, from: real, to: real)
    requires Regular(p) && Sane(p, b, clock) && TimeOrdered(clock, ops) && PatientSweeps(p, ops)
    requires from <= clock
    ensures clock <= to ==>
      Admissions(p, b, ops, ip, from, to) <= Available(p, b, ip, clock) + p.gain(to - clock)
    ensures clock > to ==> Admissions(p, b, ops, ip, from, to) == 0.0
    decreases |ops|
  {
    if clock <= to { AvailableLater(p, b, ip, clock, to); GainAdds(p, clock, clock, to); }
    if ops != [] {
      var op, now, next := ops[0], ops[0].now, Next(p, b, ops[0]);
      StepSane(p, b, clock, op);
      assert PatientSweeps(p, ops[1..]);
      AdmissionsCostTokens(p, next, now, ops[1..], ip, from, to);
      if now <= to {
        CostOfOp(p, b, clock, op, ip, from, to);
        GainAdds(p, clock, now, to);
      }
    }
  }

  /** Before the interval begins nothing is counted; when it begins, at most `burst` is there. */
  lemma {:induction false} AdmissionsFrom<Ip>(p: Policy, b: Buckets<Ip>, clock: real, ops: seq<Op<Ip>>,
                                              ip: Ip, from: real, to: real)
    requires Regular(p) && Sane(p, b, clock) && TimeOrdered(clock, ops) && PatientSweeps(p, ops)
    requires from <= to
    ensures Admissions(p, b, ops, ip, from, to) <= p.burst + p.gain(to - from)
    decreases |ops|
  {
    GainAdds(p, from, from, to);
    if ops != [] {
      if ops[0].now < from {
        StepSane(p, b, clock, ops[0]);
        assert PatientSweeps(p, ops[1..]);
        AdmissionsFrom(p, Next(p, b, ops[0]), ops[0].now, ops[1..], ip, from, to);
      } else {
        var start := if clock < from then from else clock;
        AdmissionsCostTokens(p, b, start, ops, ip, from, to);
        AvailableLater(p, b, ip, start, start);
        if start <= to { GainAdds(p, from, start, to); }
      }
    }
  }

  lemma PolicyBound<Ip>(cfg: Config, clock: real, ops: seq<Op<Ip>>, ip: Ip, from: real, length: real)
    requires Regular(PolicyOf(cfg)) && TimeOrdered(clock, ops) && PatientSweeps(PolicyOf(cfg), ops) && length >= 0.0
    ensures Admissions(PolicyOf(cfg), map[], ops, ip, from, from + length) <=
            PolicyOf(cfg).burst + PolicyOf(cfg).gain(length)
  {
    AdmissionsFrom(PolicyOf(cfg), map[], clock, ops, ip, from, from + length);
    assert from + length - from == length;
  }

  /** Admissions of one address in any [from, from + length] number at most burst + rps * length. */
  lemma AdmissionBound<Ip>(cfg: Config, clock: real, ops: seq<Op<Ip>>, ip: Ip, from: real, length: real)
    requires Valid(cfg) && TimeOrdered(clock, ops) && PatientSweeps(PolicyOf(cfg), ops) && length >= 0.0
    ensures Admissions(PolicyOf(cfg), map[], ops, ip, from, from + length) <= cfg.burst + length * cfg.rps
  {
    assert Admissions(PolicyOf(cfg), map[], ops, ip, from, from + length)
           <= PolicyOf(cfg).burst + PolicyOf(cfg).gain(length) by {
      ConfigIsRegular(cfg);
      PolicyBound(cfg, clock, ops, ip, from, length);
    }
    UnderPolicy(cfg, Admissions(PolicyOf(cfg), map[], ops, ip, from, from + length), length);
  }

  // ---------------------------------------------------------------- eviction is invisible

  /** Two tables that give every address the same tokens from now on. */
  ghost predicate SameTokens<Ip(!new)>(p: Policy, b: Buckets<Ip>, c: Buckets<Ip>, clock: real) {
    forall ip, now :: clock <= now ==> Available(p, b, ip, now) == Available(p, c, ip, now)
  }

  lemma SweepSameTokens<Ip(!new)>(p: Policy, b: Buckets<Ip>, clock: real, idleFor: real, swept: real)
    requires Regular(p) && Sane(p, b, clock) && clock <= swept && Patient(p, idleFor)
    ensures SameTokens(p, EvictIdle(b, idleFor, swept), b, swept)
  {
    forall ip, now | swept <= now
      ensures Available(p, EvictIdle(b, idleFor, swept), ip, now) == Available(p, b, ip, now)
    {
      SweepKeepsAvailable(p, b, clock, idleFor, swept, ip, now);
    }
  }

  /** The requests of a run, without the sweeps. */
  function WithoutSweeps<Ip>(ops: seq<Op<Ip>>): seq<Op<Ip>> {
    if ops == [] then [] else (if ops[0].Request? then [ops[0]] else []) + WithoutSweeps(ops[1..])
  }

  function Answers(ds: seq<Option<bool>>): seq<bool> {
    if ds == [] then [] else (if ds[0].Some? then [ds[0].value] else []) + Answers(ds[1..])
  }

  /** Availability depends on the address's own bucket only. */
  lemma OwnBucketOnly<Ip>(p: Policy, b: Buckets<Ip>, c: Buckets<Ip>, ip: Ip, now: real)
    requires ip in b <==> ip in c
    requires ip in b ==> b[ip] == c[ip]
    ensures Available(p, b, ip, now) == Available(p, c, ip, now)
  {
  }

  lemma RequestSame<Ip(!new)>(p: Policy, b: Buckets<Ip>, c: Buckets<Ip>, clock: real, who: Ip, at: real,
                       ip: Ip, now: real)
    requires SameTokens(p, b, c, clock) && clock <= at <= now
    ensures Acquire(p, b, who, at).1 == Acquire(p, c, who, at).1
    ensures Available(p, Acquire(p, b, who, at).0, ip, now) == Available(p, Acquire(p, c, who, at).0, ip, now)
  {
    assert Available(p, b, who, at) == Available(p, c, who, at);
    var b', c' := Acquire(p, b, who, at).0, Acquire(p, c, who, at).0;
    if ip == who {
      OwnBucketOnly(p, b', c', ip, now);
    } else {
      OwnBucketOnly(p, b', b, ip, now);
      OwnBucketOnly(p, c', c, ip, now);
    }
  }

  lemma RequestSameTokens<Ip(!new)>(p: Policy, b: Buckets<Ip>, c: Buckets<Ip>, clock: real, op: Op<Ip>)
    requires SameTokens(p, b, c, clock) && op.Request? && clock <= op.now
    ensures SameTokens(p, Next(p, b, op), Next(p, c, op), op.now)
    ensures Decision(p, b, op) == Decision(p, c, op)
  {
    RequestSame(p, b, c, clock, op.ip, op.now, op.ip, op.now);
    forall ip, now | op.now <= now
      ensures Available(p, Next(p, b, op), ip, now) == Available(p, Next(p, c, op), ip, now)
    {
      RequestSame(p, b, c, clock, op.ip, op.now, ip, now);
    }
  }

  lemma {:induction false} SweepsInvisible<Ip(!new)>(p: Policy, b: Buckets<Ip>, c: Buckets<Ip>, clock: real,
                                              ops: seq<Op<Ip>>)
    requires Regular(p) && Sane(p, b, clock) && TimeOrdered(clock, ops) && PatientSweeps(p, ops)
    requires SameTokens(p, b, c, clock)
    ensures Answers(Decisions(p, b, ops)) == Answers(Decisions(p, c, WithoutSweeps(ops)))
    decreases |ops|
  {
    if ops != [] {
      var op, rest := ops[0], ops[1..];
      var b' := Next(p, b, op);
      assert PatientSweeps(p, rest);
      StepSane(p, b, clock, op);
      var ds := Decisions(p, b, ops);
      assert ds[1..] == Decisions(p, b', rest);
      if op.Sweep? {
        SweepSameTokens(p, b, clock, op.idleFor, op.now);
        assert SameTokens(p, b', c, op.now);
        SweepsInvisible(p, b', c, op.now, rest);
        assert WithoutSweeps(ops) == WithoutSweeps(rest);
        assert Answers(ds) == Answers(ds[1..]);
      } else {
        var c' := Next(p, c, op);
        RequestSameTokens(p, b, c, clock, op);
        SweepsInvisible(p, b', c', op.now, rest);
        assert WithoutSweeps(ops)[1..] == WithoutSweeps(rest);
        var es := Decisions(p, c, WithoutSweeps(ops));
        assert es[1..] == Decisions(p, c', WithoutSweeps(rest));
      }
    }
  }

  /** Evicting buckets idle for at least burst / rps never changes any later decision. */
  lemma EvictionNeverChangesADecision<Ip(!new)>(cfg: Config, clock: real, ops: seq<Op<Ip>>)
    requires Valid(cfg) && TimeOrdered(clock, ops)
    requires forall i :: 0 <= i < |ops| && ops[i].Sweep? ==> ops[i].idleFor >= cfg.burst / cfg.rps
    ensures Answers(Decisions(PolicyOf(cfg), map[], ops)) ==
            Answers(Decisions(PolicyOf(cfg), map[], WithoutSweeps(ops)))
  {
    ConfigIsRegular(cfg);
    forall i | 0 <= i < |ops| && ops[i].Sweep? ensures Patient(PolicyOf(cfg), ops[i].idleFor) {
      LongEnough(cfg, ops[i].idleFor);
    }
    SweepsInvisible(PolicyOf(cfg), map[], map[], clock, ops);
  }

  lemma LongEnough(cfg: Config, idleFor: real)
    requires Valid(cfg) && idleFor >= cfg.burst / cfg.rps
    ensures Patient(PolicyOf(cfg), idleFor)
  {
    assert cfg.burst / cfg.rps * cfg.rps == cfg.burst;
    assert (idleFor - cfg.burst / cfg.rps) * cfg.rps >= 0.0;
  }

  /** Sweeping once, in any sane table, never changes how later requests are answered. */
  ghost predicate SweepInvisible<Ip(!new)>(p: Policy, idleFor: real) {
    forall b: Buckets<Ip>, now: real, rs: seq<Op<Ip>> :: Sane(p, b, now) && TimeOrdered(now, rs) && NoSweeps(rs) ==>
      Decisions(p, EvictIdle(b, idleFor, now), rs) == Decisions(p, b, rs)
  }

  predicate NoSweeps<Ip>(rs: seq<Op<Ip>>) {
    forall i :: 0 <= i < |rs| ==> rs[i].Request?
  }

  lemma {:induction false} SameTokensSameDecisions<Ip(!new)>(p: Policy, b: Buckets<Ip>, c: Buckets<Ip>,
                                                             clock: real, rs: seq<Op<Ip>>)
    requires SameTokens(p, b, c, clock) && TimeOrdered(clock, rs) && NoSweeps(rs)
    ensures Decisions(p, b, rs) == Decisions(p, c, rs)
    decreases |rs|
  {
    if rs != [] {
      RequestSameTokens(p, b, c, clock, rs[0]);
      SameTokensSameDecisions(p, Next(p, b, rs[0]), Next(p, c, rs[0]), rs[0].now, rs[1..]);
    }
  }

  predicate AllServed(ds: seq<Option<bool>>) {
    forall i :: 0 <= i < |ds| ==> ds[i] == Some(true)
  }

  /** `k` requests of `ip` at `now` and one more at `later`. */
  function Drain<Ip>(ip: Ip, k: nat, now: real, later: real): (rs: seq<Op<Ip>>)
    ensures |rs| == k + 1 && NoSweeps(rs)
    ensures forall i :: 0 <= i < |rs| ==> rs[i].ip == ip && rs[i].now == if i < k then now else later
    ensures now <= later ==> TimeOrdered(now, rs)
    decreases k
  {
    if k == 0 then [Request(ip, later)] else [Request(ip, now)] + Drain(ip, k - 1, now, later)
  }

  lemma AvailableExactly<Ip>(p: Policy, b: Buckets<Ip>, ip: Ip, now: real, later: real)
    requires Regular(p) && Sane(p, b, now) && now <= later
    ensures Available(p, b, ip, later) ==
      if Available(p, b, ip, now) + p.gain(later - now) < p.burst then Available(p, b, ip, now) + p.gain(later - now)
      else p.burst
  {
    GainAdds(p, now, now, later);
    if ip in b { GainAdds(p, b[ip].last, now, later); }
  }

  lemma {:induction false} EnoughTokensServe<Ip>(p: Policy, b: Buckets<Ip>, ip: Ip, k: nat, now: real, later: real)
    requires Regular(p) && Sane(p, b, now) && now <= later
    requires Available(p, b, ip, now) >= k as real
    requires Available(p, b, ip, now) - k as real + p.gain(later - now) >= 1.0
    ensures AllServed(Decisions(p, b, Drain(ip, k, now, later)))
    decreases k
  {
    var rs := Drain(ip, k, now, later);
    if k == 0 {
      AvailableExactly(p, b, ip, now, later);
    } else {
      var next := Next(p, b, rs[0]);
      StepSane(p, b, now, rs[0]);
      AvailableAfter(p, b, now, rs[0], ip);
      assert rs[1..] == Drain(ip, k - 1, now, later);
      EnoughTokensServe(p, next, ip, k - 1, now, later);
    }
  }

  lemma {:induction false} AllServedCount<Ip>(p: Policy, b: Buckets<Ip>, rs: seq<Op<Ip>>, ip: Ip, from: real, to: real)
    requires forall i :: 0 <= i < |rs| ==> rs[i].Request? && rs[i].ip == ip && from <= rs[i].now <= to
    requires AllServed(Decisions(p, b, rs))
    ensures Admissions(p, b, rs, ip, from, to) == |rs| as real
    decreases |rs|
  {
    if rs != [] {
      var ds := Decisions(p, b, rs);
      assert ds[0] == Some(true) && ds[1..] == Decisions(p, Next(p, b, rs[0]), rs[1..]);
      AllServedCount(p, Next(p, b, rs[0]), rs[1..], ip, from, to);
    }
  }

  /** A bucket that was emptied at time zero. */
  function Emptied<Ip>(ip: Ip): Buckets<Ip> {
    map[ip := Bucket(0.0, 0.0)]
  }

  /** `wait` after `k` requests a full bucket has exactly one more token. */
  predicate OneMore(p: Policy, k: nat, wait: real) {
    k as real <= p.burst && 0.0 <= wait && p.gain(wait) == k as real + 1.0 - p.burst
  }

  /** Swept before it is full again, the bucket becomes full and serves all the requests. */
  lemma SweptServesAll<Ip>(p: Policy, ip: Ip, idleFor: real, k: nat, wait: real)
    requires Regular(p) && 0.0 <= idleFor && OneMore(p, k, wait)
    ensures AllServed(Decisions(p, EvictIdle(Emptied(ip), idleFor, idleFor), Drain(ip, k, idleFor, idleFor + wait)))
  {
    assert idleFor + wait - idleFor == wait;
    EnoughTokensServe(p, EvictIdle(Emptied(ip), idleFor, idleFor), ip, k, idleFor, idleFor + wait);
  }

  /** Left alone, it has not refilled enough for all of them. */
  lemma UnsweptCannotServeAll<Ip>(p: Policy, ip: Ip, idleFor: real, k: nat, wait: real)
    requires Regular(p) && 0.0 <= idleFor && p.gain(idleFor) < p.burst && OneMore(p, k, wait)
    ensures !AllServed(Decisions(p, Emptied(ip), Drain(ip, k, idleFor, idleFor + wait)))
  {
    var rs, end := Drain(ip, k, idleFor, idleFor + wait), idleFor + wait;
    assert end - idleFor == wait;
    assert Available(p, Emptied(ip), ip, idleFor) == p.gain(idleFor);
    AdmissionsCostTokens(p, Emptied(ip), idleFor, rs, ip, idleFor, end);
    if AllServed(Decisions(p, Emptied(ip), rs)) {
      AllServedCount(p, Emptied(ip), rs, ip, idleFor, end);
    }
  }

  lemma WaitFor(cfg: Config, missing: real) returns (wait: real)
    requires Valid(cfg) && missing >= 0.0
    ensures wait >= 0.0 && PolicyOf(cfg).gain(wait) == missing
  {
    wait := missing / cfg.rps;
    assert wait * cfg.rps == missing;
    GainOf(cfg, wait);
  }

  /** Evicting idle buckets is invisible exactly when they must have been idle for burst / rps. */
  lemma EvictionInvisibleIff<Ip(!new)>(cfg: Config, ip: Ip, idleFor: real)
    requires Valid(cfg) && idleFor >= 0.0
    ensures SweepInvisible<Ip>(PolicyOf(cfg), idleFor) <==> idleFor >= cfg.burst / cfg.rps
  {
    var p := PolicyOf(cfg);
    ConfigIsRegular(cfg);
    if idleFor >= cfg.burst / cfg.rps {
      LongEnough(cfg, idleFor);
      PatientSweepIsInvisible<Ip>(p, idleFor);
    } else {
      TooShort(cfg, idleFor);
      var k: nat := p.burst.Floor;
      var wait := WaitFor(cfg, k as real + 1.0 - p.burst);
      EarlySweepIsVisible(p, ip, idleFor, k, wait);
    }
  }

  lemma PatientSweepIsInvisible<Ip(!new)>(p: Policy, idleFor: real)
    requires Regular(p) && Patient(p, idleFor)
    ensures SweepInvisible<Ip>(p, idleFor)
  {
    forall b: Buckets<Ip>, now: real, rs: seq<Op<Ip>> | Sane(p, b, now) && TimeOrdered(now, rs) && NoSweeps(rs)
      ensures Decisions(p, EvictIdle(b, idleFor, now), rs) == Decisions(p, b, rs)
    {
      SweepSameTokens(p, b, now, idleFor, now);
      SameTokensSameDecisions(p, EvictIdle(b, idleFor, now), b, now, rs);
    }
  }

  lemma EarlySweepIsVisible<Ip(!new)>(p: Policy, ip: Ip, idleFor: real, k: nat, wait: real)
    requires Regular(p) && 0.0 <= idleFor && p.gain(idleFor) < p.burst && OneMore(p, k, wait)
    ensures !SweepInvisible<Ip>(p, idleFor)
  {
    SweptServesAll(p, ip, idleFor, k, wait);
    UnsweptCannotServeAll(p, ip, idleFor, k, wait);
    var rs := Drain(ip, k, idleFor, idleFor + wait);
    assert Sane(p, Emptied(ip), idleFor) && TimeOrdered(idleFor, rs) && NoSweeps(rs);
    assert Decisions(p, EvictIdle(Emptied(ip), idleFor, idleFor), rs) != Decisions(p, Emptied(ip), rs);
  }

  lemma TooShort(cfg: Config, idleFor: real)
    requires Valid(cfg) && idleFor < cfg.burst / cfg.rps
    ensures PolicyOf(cfg).gain(idleFor) < PolicyOf(cfg).burst
  {
    assert cfg.burst / cfg.rps * cfg.rps == cfg.burst;
    assert (cfg.burst / cfg.rps - idleFor) * cfg.rps > 0.0;
    GainOf(cfg, idleFor);
  }

  // ---------------------------------------------------------------- a slow client is never rejected

  /** Successive requests of `ip` are at least 1 / rps apart; `since` is its previous one. */
  predicate SlowClient<Ip(==)>(p: Policy, ip: Ip, since: Option<real>, ops: seq<Op<Ip>>)
    decreases |ops|
  {
    ops == [] ||
    if ops[0].Request? && ops[0].ip == ip then
      (since.Some? ==> p.gain(ops[0].now - since.value) >= 1.0) && SlowClient(p, ip, Some(ops[0].now), ops[1..])
    else SlowClient(p, ip, since, ops[1..])
  }

  lemma {:induction false} SlowRequestsAdmitted<Ip>(p: Policy, b: Buckets<Ip>, clock: real, ip: Ip,
                                                    since: Option<real>, ops: seq<Op<Ip>>)
    requires Regular(p) && Sane(p, b, clock) && TimeOrdered(clock, ops) && SlowClient(p, ip, since, ops)
    requires ip in b ==> since == Some(b[ip].last)
    ensures forall i :: 0 <= i < |ops| && ops[i].Request? && ops[i].ip == ip ==> Decisions(p, b, ops)[i] == Some(true)
    decreases |ops|
  {
    if ops != [] {
      var op := ops[0];
      StepSane(p, b, clock, op);
      var mine := op.Request? && op.ip == ip;
      SlowRequestsAdmitted(p, Next(p, b, op), op.now, ip, if mine then Some(op.now) else since, ops[1..]);
    }
  }

  /** A client that spaces its requests at least 1 / rps apart is never rejected. */
  lemma SlowClientNeverRejected<Ip>(cfg: Config, clock: real, ip: Ip, ops: seq<Op<Ip>>)
    requires Valid(cfg) && TimeOrdered(clock, ops) && SlowClient(PolicyOf(cfg), ip, None, ops)
    ensures forall i :: 0 <= i < |ops| && ops[i].Request? && ops[i].ip == ip ==>
      Decisions(PolicyOf(cfg), map[], ops)[i] == Some(true)
  {
    ConfigIsRegular(cfg);
    SlowRequestsAdmitted(PolicyOf(cfg), map[], clock, ip, None, ops);
  }
}
