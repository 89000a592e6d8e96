/** What an answer of the key registry says, from the list of events: the owner and the roles it
    names, and the interval it has learned. */
module KeyGrants {
  import opened Common
  import opened KeyGuardian
  import opened KeyLifetimes

  // ---------------------------------------------------------------- owner and roles

  datatype Grant = Grant(owner: string, roles: seq<string>)

  function GrantIn(m: map<string, KeyRecord>, h: string): Option<Grant> {
    if h in m then Some(Grant(m[h].owner, m[h].roles)) else None
  }

  /** What was granted last: by an issue of the key, or by the record that the last restart read. */
  function LastGrant(hash: Hash, cfg: Config, s: State, es: seq<Event>, h: string): Option<Grant>
    decreases |es|
  {
    if es == [] then GrantIn(s.records, h)
    else
      var front, e := es[..|es| - 1], es[|es| - 1];
      match e
      case Issue(key, record, _) =>
        if hash(key) == h then Some(Grant(record.owner, record.roles)) else LastGrant(hash, cfg, s, front, h)
      case Restart(readable) =>
        if cfg.fileBacked && readable then GrantIn(Run(hash, cfg, s, front).file, h) else None
      case _ => LastGrant(hash, cfg, s, front, h)
  }

  lemma {:induction false} RecordsGrant(hash: Hash, cfg: Config, s: State, es: seq<Event>, h: string)
    ensures var t := Run(hash, cfg, s, es);
      h in t.records ==> GrantIn(t.records, h) == LastGrant(hash, cfg, s, es, h)
    decreases |es|
  {
    if es != [] {
      var front, e := es[..|es| - 1], es[|es| - 1];
      assert es == front + [e];
      RecordsGrant(hash, cfg, s, front, h);
      RunSnoc(hash, cfg, s, front, e);
      var t := Run(hash, cfg, s, front);
      match e {
        case Verify(_, _, _) =>
        case Issue(_, _, _) =>
        case RevokeOwner(owner, _) => if Victims(t.records, owner) == {} {} else {}
        case Restart(_) =>
      }
    }
  }

  /** Over any run, an answer that accepts or suspends a key names the owner that was granted the
      key last, and an acceptance names exactly the roles granted with it. */
  lemma AnswersNameTheGrant(hash: Hash, cfg: Config, s: State, es: seq<Event>, key: string, now: int, written: bool)
    ensures var d := VerifySpec(hash, cfg, Run(hash, cfg, s, es), key, now, written).1;
      var g := LastGrant(hash, cfg, s, es, hash(key));
      && (d.Ok? ==> g == Some(Grant(d.owner, d.roles)))
      && (d.Suspended? ==> g.Some? && g.value.owner == d.owner)
  {
    RecordsGrant(hash, cfg, s, es, hash(key));
  }

  ghost predicate GrantIssued(hash: Hash, es: seq<Event>, h: string, g: Grant) {
    exists i :: 0 <= i < |es| && es[i].Issue? && hash(es[i].key) == h
             && es[i].record.owner == g.owner && es[i].record.roles == g.roles
  }

  ghost predicate OnlyIssued(hash: Hash, es: seq<Event>, m: map<string, KeyRecord>) {
    forall h :: h in m ==> GrantIssued(hash, es, h, Grant(m[h].owner, m[h].roles))
  }

  lemma IssuedEarlier(hash: Hash, front: seq<Event>, e: Event, m: map<string, KeyRecord>)
    requires OnlyIssued(hash, front, m)
    ensures OnlyIssued(hash, front + [e], m)
  {
    forall h | h in m ensures GrantIssued(hash, front + [e], h, Grant(m[h].owner, m[h].roles)) {
      var i :| 0 <= i < |front| && front[i].Issue? && hash(front[i].key) == h
            && front[i].record.owner == m[h].owner && front[i].record.roles == m[h].roles;
      assert (front + [e])[i] == front[i];
    }
  }

  lemma {:induction false} RecordsWereIssued(hash: Hash, cfg: Config, es: seq<Event>)
    ensures var t := Run(hash, cfg, EMPTY, es); OnlyIssued(hash, es, t.records) && OnlyIssued(hash, es, t.file)
    decreases |es|
  {
    if es != [] {
      var front, e := es[..|es| - 1], es[|es| - 1];
      assert es == front + [e];
      RecordsWereIssued(hash, cfg, front);
      RunSnoc(hash, cfg, EMPTY, front, e);
      var s := Run(hash, cfg, EMPTY, front);
      IssuedEarlier(hash, front, e, s.records);
      IssuedEarlier(hash, front, e, s.file);
      NextWasIssued(hash, cfg, s, front, e);
      SavesIff(hash, cfg, s, e);
    }
  }

  lemma NextWasIssued(hash: Hash, cfg: Config, s: State, front: seq<Event>, e: Event)
    requires OnlyIssued(hash, front + [e], s.records) && OnlyIssued(hash, front + [e], s.file)
    ensures OnlyIssued(hash, front + [e], Next(hash, cfg, s, e).records)
  {
    var es := front + [e];
    assert es[|front|] == e;
    match e {
      case Verify(_, _, _) =>
      case Issue(key, r, _) => assert GrantIssued(hash, es, hash(key), Grant(r.owner, r.roles));
      case RevokeOwner(owner, _) => if Victims(s.records, owner) == {} {} else {}
      case Restart(_) =>
    }
  }

  /** Nobody is accepted with rights that were never issued: over any run from an empty registry,
      restarts and lost writes included, owner and roles of an acceptance are those of an issue. */
  lemma AcceptedAsIssued(hash: Hash, cfg: Config, es: seq<Event>, key: string, now: int, written: bool)
    ensures var d := VerifySpec(hash, cfg, Run(hash, cfg, EMPTY, es), key, now, written).1;
      d.Ok? ==> GrantIssued(hash, es, hash(key), Grant(d.owner, d.roles))
  {
    RecordsWereIssued(hash, cfg, es);
  }

  /** A key that was just issued is accepted with its rights until it expires, and, if the write
      succeeded, by the next process as well. */
  lemma IssuedKeyIsAccepted(hash: Hash, cfg: Config, s: State, key: string, r: KeyRecord, written: bool, now: int)
    requires !r.revoked && (r.expiresAt.Some? ==> now < r.expiresAt.value)
    ensures var t := Next(hash, cfg, s, Issue(key, r, written));
      && (hash(key) !in s.usage ==> VerifySpec(hash, cfg, t, key, now, written).1 == Decision.Ok(r.owner, r.roles))
      && (cfg.fileBacked && written ==>
            var u := Next(hash, cfg, t, Restart(true));
            VerifySpec(hash, cfg, u, key, now, written).1 == Decision.Ok(r.owner, r.roles))
  {
    var t := Next(hash, cfg, s, Issue(key, r, written));
    var u := Next(hash, cfg, t, Restart(true));
    assert hash(key) in t.records && t.records[hash(key)] == r;
    if hash(key) !in s.usage {
      assert UsageOf(t, hash(key)) == NEW_USAGE;
    }
    if cfg.fileBacked && written {
      assert hash(key) in u.records && u.records[hash(key)] == r;
      assert UsageOf(u, hash(key)) == NEW_USAGE;
    }
  }

  /** How a suspension comes and goes: an acceptance ends it, an answer "suspended" to a key that is
      not suspended any more starts one, and nothing else but a restart changes it. */
  lemma SuspensionAfter(hash: Hash, cfg: Config, s: State, e: Event, key: string)
    requires Injective(hash) && !e.Restart?
    ensures var before := UsageOf(s, hash(key)).suspendedUntil;
      var after := UsageOf(Next(hash, cfg, s, e), hash(key)).suspendedUntil;
      if !e.Verify? || e.key != key then after == before
      else
        var d := VerifySpec(hash, cfg, s, key, e.now, e.written).1;
        if d.Ok? then after == None
        else if d.Suspended? && !(before.Some? && e.now < before.value) then after == Some(e.now + cfg.cooldown)
        else after == before
  {
    match e {
      case Verify(k, _, _) => if k != key { assert hash(k) != hash(key); }
      case Issue(_, _, _) =>
      case RevokeOwner(owner, _) => if Victims(s.records, owner) == {} {} else {}
    }
  }

  // ---------------------------------------------------------------- the learned interval

  /** The times at which `key` was accepted, put behind `times`. */
  function AcceptedTimes(hash: Hash, cfg: Config, s: State, es: seq<Event>, key: string, times: seq<int>): seq<int>
    decreases |es|
  {
    if es == [] then times
    else
      AcceptedTimes(hash, cfg, Next(hash, cfg, s, es[0]), es[1..], key,
                    if Accepts(hash, cfg, s, es[0], key) then times + [es[0].now] else times)
  }

  /** Seconds in whole milliseconds; a clock that went back counts as no gap. */
  function Seconds(earlier: int, later: int): real {
    if later < earlier then 0.0 else ((later - earlier) / 1_000_000) as real / 1000.0
  }

  /** The first gap, then always seven parts of the old value and three of the new gap. */
  function LearnedFrom(times: seq<int>): Option<real>
    decreases |times|
  {
    var n := |times|;
    if n < 2 then None
    else
      var gap := Seconds(times[n - 2], times[n - 1]);
      var before := LearnedFrom(times[..n - 1]);
      Some(if before.None? then gap else 0.7 * before.value + 0.3 * gap)
  }

  /** The usage record of a key that was accepted at these times. */
  predicate UsageTells(u: Usage, times: seq<int>) {
    && u.requests == Min(|times|, 0xFFFF_FFFF_FFFF_FFFF)
    && u.lastSeen == (if times == [] then None else Some(times[|times| - 1]))
    && u.interval == LearnedFrom(times)
  }

  lemma AcceptedUsage(u: Usage, times: seq<int>, now: int)
    requires UsageTells(u, times)
    ensures UsageTells(Learn(u, now), times + [now])
  {
    var after := times + [now];
    assert after[..|after| - 1] == times;
    if times != [] {
      var gap := Seconds(times[|times| - 1], now);
      assert gap * (1.0 - 0.3) + gap * 0.3 == gap;
    }
  }

  lemma OtherUsage(hash: Hash, cfg: Config, s: State, e: Event, key: string)
    requires Injective(hash) && !e.Restart? && !Accepts(hash, cfg, s, e, key)
    ensures var u, v := UsageOf(s, hash(key)), UsageOf(Next(hash, cfg, s, e), hash(key));
      v.requests == u.requests && v.lastSeen == u.lastSeen && v.interval == u.interval
  {
    match e {
      case Verify(k, _, _) => if k != key { assert hash(k) != hash(key); }
      case Issue(_, _, _) =>
      case RevokeOwner(owner, _) => if Victims(s.records, owner) == {} {} else {}
    }
  }

  /** Between restarts, what is known of a key is a function of the times it was accepted at. */
  lemma {:induction false} UsageIsTheHistory(hash: Hash, cfg: Config, s: State, es: seq<Event>, key: string,
                                             times: seq<int>)
    requires Injective(hash) && NoRestart(es) && UsageTells(UsageOf(s, hash(key)), times)
    ensures UsageTells(UsageOf(Run(hash, cfg, s, es), hash(key)), AcceptedTimes(hash, cfg, s, es, key, times))
    decreases |es|
  {
    if es != [] {
      var e, u := es[0], UsageOf(s, hash(key));
      if Accepts(hash, cfg, s, e, key) {
        UsageAfter(hash, cfg, s, e, key);
        AcceptedUsage(u, times, e.now);
        UsageIsTheHistory(hash, cfg, Next(hash, cfg, s, e), es[1..], key, times + [e.now]);
      } else {
        OtherUsage(hash, cfg, s, e, key);
        UsageIsTheHistory(hash, cfg, Next(hash, cfg, s, e), es[1..], key, times);
      }
    }
  }

  /** A request `now` of a key accepted at `times`: the first ones pass, and so does one within a
      millisecond, and then those whose gap, times the factor, exceeds what was learned. */
  predicate Passes(cfg: Config, times: seq<int>, now: int) {
    var n := |times|;
    || n == 0
    || Min(n, 0xFFFF_FFFF_FFFF_FFFF) < cfg.warmup
    || var gap := Seconds(times[n - 1], now);
       gap == 0.0 || Tolerated(cfg.anomalyFactor, if n == 1 then gap else LearnedFrom(times).value, gap)
  }

  predicate Tolerated(factor: real, learned: real, gap: real) {
    learned <= 0.0 || factor * gap > learned
  }

  lemma PassesIff(cfg: Config, u: Usage, times: seq<int>, now: int)
    requires UsageTells(u, times)
    ensures Passes(cfg, times, now) <==>
      || u.lastSeen.None?
      || u.requests < cfg.warmup
      || (var gap := Gap(now, u.lastSeen.value);
          gap == 0.0 || Tolerated(cfg.anomalyFactor, if u.interval.Some? then u.interval.value else gap, gap))
  {
    if times != [] {
      assert Gap(now, u.lastSeen.value) == Seconds(times[|times| - 1], now);
      assert LearnedFrom(times).Some? <==> |times| >= 2;
    }
  }

  /** A key that may be used `now`, were it not for its behaviour. */
  predicate Live(s: State, h: string, now: int) {
    && h in s.records && !s.records[h].revoked
    && (s.records[h].expiresAt.Some? ==> now < s.records[h].expiresAt.value)
  }

  predicate SuspendedStill(u: Usage, now: int) {
    u.suspendedUntil.Some? && now < u.suspendedUntil.value
  }

  lemma DecidedBy(hash: Hash, cfg: Config, t: State, key: string, now: int, written: bool, times: seq<int>)
    requires UsageTells(UsageOf(t, hash(key)), times)
    ensures var d, h := VerifySpec(hash, cfg, t, key, now, written).1, hash(key);
      var pass := !SuspendedStill(UsageOf(t, h), now) && Passes(cfg, times, now);
      && (d.RegistryEmpty? <==> t.records == map[])
      && (d.Rejected? <==> t.records != map[] && !Live(t, h, now))
      && (d.Ok? <==> Live(t, h, now) && pass)
      && (d.Suspended? <==> Live(t, h, now) && !pass)
  {
    PassesIff(cfg, UsageOf(t, hash(key)), times, now);
    if Live(t, hash(key), now) && !SuspendedStill(UsageOf(t, hash(key)), now) {
      AcceptedIff(hash, cfg, t, key, now, written);
    }
  }

  /** Over a run after a restart, the answer is decided by the record of the key, by a suspension
      that still lasts, and by the times at which the key was accepted so far. */
  lemma DecidedByHistory(hash: Hash, cfg: Config, s: State, es: seq<Event>, key: string, now: int, written: bool)
    requires Injective(hash) && NoRestart(es) && s.usage == map[]
    ensures var t := Run(hash, cfg, s, es); var h := hash(key);
      var d := VerifySpec(hash, cfg, t, key, now, written).1;
      var pass := !SuspendedStill(UsageOf(t, h), now) && Passes(cfg, AcceptedTimes(hash, cfg, s, es, key, []), now);
      && (d.RegistryEmpty? <==> t.records == map[])
      && (d.Rejected? <==> t.records != map[] && !Live(t, h, now))
      && (d.Ok? <==> Live(t, h, now) && pass)
      && (d.Suspended? <==> Live(t, h, now) && !pass)
  {
    UsageIsTheHistory(hash, cfg, s, es, key, []);
    DecidedBy(hash, cfg, Run(hash, cfg, s, es), key, now, written, AcceptedTimes(hash, cfg, s, es, key, []));
  }
}
