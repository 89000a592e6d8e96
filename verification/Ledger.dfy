/** `Ledger::commit` and the stores it writes, as imperative code over mutable objects.
    Every execution of `Commit`, under any pattern of faults, is shown to be a run of one
    process of the state machine in LedgerProtocol, so what holds of all its runs holds here. */
module Ledger {
  import opened Common
  import opened AuditLog
  import opened LedgerProtocol

  /** A database call can succeed, fail without effect, or take effect but report failure. */
  datatype Fault = Fine | NoEffect | LostReply

  predicate Landed(f: Fault) { f != NoEffect }

  /** What the world does during one commit call. */
  datatype Env = Env(
    check: bool,
    append: Fault,
    audit: bool,
    now: int,
    region: nat -> Fault,
    delivery: nat -> Delivery,
    mark: Fault)

  class PostgresWal {
    var rows: map<string, Row>

    constructor ()
      ensures rows == map[]
    {
      rows := map[];
    }

    method Append(req: Request, fault: Fault) returns (ok: bool)
      modifies this
      ensures ok <==> fault == Fine
      ensures rows == if Landed(fault) then InsertRow(old(rows), req) else old(rows)
    {
      if Landed(fault) && req.key !in rows {
        rows := rows[req.key := Row(req, false, None)];
      }
      ok := fault == Fine;
    }

    method MarkCommitted(key: string, id: string, fault: Fault) returns (ok: bool)
      modifies this
      ensures ok <==> fault == Fine
      ensures rows == if Landed(fault) then MarkRow(old(rows), key, id) else old(rows)
    {
      if Landed(fault) && key in rows {
        rows := rows[key := rows[key].(committed := true, commitId := Some(id))];
      }
      ok := fault == Fine;
    }

    /** An existing row is reported whether or not it is committed. */
    method IsAlreadyProcessed(key: string, works: bool) returns (r: Result<Option<Receipt>, CoreError>)
      ensures !works ==> r == Err(Validation)
      ensures works ==> r == Ok(if key in rows then Some(ReceiptOf(rows[key])) else None)
    {
      if !works { return Err(Validation); }
      if key !in rows { return Ok(None); }
      return Ok(Some(Receipt(rows[key].req.key, rows[key].committed, rows[key].commitId)));
    }
  }

  /** Regions after the first `n` were written. */
  function Replicated(regions: seq<map<string, Request>>, req: Request, faults: nat -> Fault, n: nat)
    : (r: seq<map<string, Request>>)
    requires n <= |regions|
    ensures |r| == |regions|
  {
    if n == 0 then regions
    else
      var before := Replicated(regions, req, faults, n - 1);
      if Landed(faults(n - 1)) then Land(before, n - 1, req) else before
  }

  function Outcomes(faults: nat -> Fault, n: nat): (o: map<nat, bool>)
    ensures o.Keys == Below(n)
  {
    if n == 0 then map[] else Outcomes(faults, n - 1)[n - 1 := faults(n - 1) == Fine]
  }

  /** How many of the first `n` regions acknowledged. */
  function Succeeded(faults: nat -> Fault, n: nat): nat {
    if n == 0 then 0 else Succeeded(faults, n - 1) + if faults(n - 1) == Fine then 1 else 0
  }

  lemma AcksUpdate(o: map<nat, bool>, r: nat, ok: bool)
    requires r !in o
    ensures |Acks(o[r := ok])| == |Acks(o)| + if ok then 1 else 0
  {
    if ok {
      assert Acks(o[r := ok]) == Acks(o) + {r};
    } else {
      assert Acks(o[r := ok]) == Acks(o);
    }
  }

  lemma NotYetHeard(faults: nat -> Fault, n: nat)
    ensures n !in Outcomes(faults, n)
  {
    assert n !in Outcomes(faults, n).Keys;
  }

  lemma {:induction false} SucceededAcks(faults: nat -> Fault, n: nat)
    ensures |Acks(Outcomes(faults, n))| == Succeeded(faults, n)
  {
    if n == 0 {
      assert Acks(map[]) == {};
    } else {
      SucceededAcks(faults, n - 1);
      NotYetHeard(faults, n - 1);
      AcksUpdate(Outcomes(faults, n - 1), n - 1, faults(n - 1) == Fine);
    }
  }

  class MultiRegionReplicator {
    var regions: seq<map<string, Request>>
    const minAcks: nat

    constructor (total: nat, n: Option<nat>)
      ensures regions == seq(total, i => map[])
      ensures minAcks == NewReplicator(total, n).minAcks
    {
      regions := seq(total, i => map[]);
      minAcks := if n.None? then total else Min(n.value, total);
    }

    method Write(r: nat, req: Request, fault: Fault) returns (ok: bool)
      requires r < |regions|
      modifies this
      ensures ok <==> fault == Fine
      ensures regions == if Landed(fault) then Land(old(regions), r, req) else old(regions)
    {
      if Landed(fault) && req.key !in regions[r] {
        regions := regions[r := regions[r][req.key := req]];
      }
      assert Land(old(regions), r, req) == old(regions)[r := InsertRegion(old(regions)[r], req)];
      ok := fault == Fine;
    }

    /** Writes every region, waits for all, and accepts from `minAcks` acknowledgements on. */
    method Replicate(req: Request, faults: nat -> Fault) returns (ok: bool)
      modifies this
      ensures regions == Replicated(old(regions), req, faults, |old(regions)|)
      ensures ok <==> Succeeded(faults, |regions|) >= minAcks
    {
      var total := |regions|;
      var succeeded := 0;
      for r := 0 to total
        invariant |regions| == total
        invariant regions == Replicated(old(regions), req, faults, r)
        invariant succeeded == Succeeded(faults, r)
      {
        var acked := Write(r, req, faults(r));
        if acked { succeeded := succeeded + 1; }
      }
      ok := succeeded >= minAcks;
    }
  }

  /** The POSTs made by attempts number `from` to `upto`. */
  function Posts(pid: nat, req: Request, delivery: nat -> Delivery, upto: nat): seq<PostRecord> {
    if upto == 0 then [] else Posts(pid, req, delivery, upto - 1) + [PostRecord(pid, req, delivery(upto - 1))]
  }

  // ---------------------------------------------------------------- what one call answers

  /** What a call leaves behind. */
  datatype Stores = Stores(
    wal: map<string, Row>, regions: seq<map<string, Request>>, audit: seq<AuditRecord>, posts: seq<PostRecord>)

  /** The reply to the POST arrives and carries this id. */
  predicate Heard(d: Delivery, id: string) {
    d == Delivered(Some(id), false)
  }

  /** None of the first `n` POSTs has a reply with an id that arrives. */
  ghost predicate Silent(delivery: nat -> Delivery, n: nat) {
    forall i: nat, id: string :: i < n ==> !Heard(delivery(i), id)
  }

  /** The first reply with an id that arrives, within `n` attempts. */
  ghost predicate FirstHeard(delivery: nat -> Delivery, n: nat, i: nat, id: string) {
    i < n && Heard(delivery(i), id) && Silent(delivery, i)
  }

  /** Forwarding has made its POSTs: up to the first reply heard, or all there may be. */
  ghost predicate Forwarded(before: seq<PostRecord>, after: seq<PostRecord>, req: Request, delivery: nat -> Delivery,
                            n: nat, r: Result<string, CoreError>)
  {
    if r.Ok? then exists i: nat :: FirstHeard(delivery, n, i, r.value) && Sent(before, after, req, delivery, i + 1)
    else Silent(delivery, n) && Sent(before, after, req, delivery, n)
  }

  /** The POSTs for `req` with the first `n` deliveries come on top. */
  predicate Sent(before: seq<PostRecord>, after: seq<PostRecord>, req: Request, delivery: nat -> Delivery, n: nat) {
    && |after| == |before| + n
    && before <= after
    && forall i :: |before| <= i < |after| ==> after[i].req == req && after[i].delivery == delivery(i - |before|)
  }

  /** Every region whose write had an effect holds the key, and the request if the key was new to it. */
  predicate Spread(before: seq<map<string, Request>>, after: seq<map<string, Request>>, req: Request,
                   faults: nat -> Fault)
  {
    && |after| == |before|
    && forall r: nat :: r < |before| ==>
         after[r] == if faults(r) == NoEffect || req.key in before[r] then before[r] else before[r][req.key := req]
  }

  function Acknowledging(faults: nat -> Fault, n: nat): set<nat> {
    set r: nat | r < n && faults(r) == Fine
  }

  /** Upstream and the mark: `row` is what the WAL then holds for the key. */
  ghost predicate Delivers(cfg: Config, req: Request, env: Env, s: Stores, r: Result<Receipt, CoreError>, t: Stores) {
    var n := Max(1, cfg.maxRetries);
    && t.regions == s.regions && t.audit == s.audit
    && (Silent(env.delivery, n) ==>
          r == Err(UpstreamCommitFailed) && t.wal == s.wal && Sent(s.posts, t.posts, req, env.delivery, n))
    && (forall i: nat, id: string :: FirstHeard(env.delivery, n, i, id) ==>
          && Sent(s.posts, t.posts, req, env.delivery, i + 1)
          && t.wal == (if env.mark == NoEffect then s.wal else s.wal[req.key := Row(req, true, Some(id))])
          && r == if env.mark == Fine then Ok(Receipt(req.key, true, Some(id))) else Err(Validation))
  }

  /** The regions, and on enough acknowledgements all that follows. */
  ghost predicate Replicates(cfg: Config, req: Request, env: Env, s: Stores, r: Result<Receipt, CoreError>, t: Stores) {
    if cfg.replicator.None? then Delivers(cfg, req, env, s, r, t)
    else
      && Spread(s.regions, t.regions, req, env.region)
      && if |Acknowledging(env.region, Total(cfg))| < MinAcks(cfg)
         then r == Err(MultiRegionReplicationFailed) && t == s.(regions := t.regions)
         else Delivers(cfg, req, env, s.(regions := t.regions), r, t)
  }

  /** The audit record, if it can be written, and all that follows. */
  ghost predicate Finishes(cfg: Config, req: Request, env: Env, s: Stores, r: Result<Receipt, CoreError>, t: Stores) {
    var record := AuditRecord(req.key, req.account, req.target, None, env.now);
    Replicates(cfg, req, env, if cfg.auditEnabled && env.audit then s.(audit := s.audit + [record]) else s, r, t)
  }

  /** What one call answers and stores, from what happens to its operations. */
  ghost predicate Answers(cfg: Config, req: Request, env: Env, s: Stores, r: Result<Receipt, CoreError>, t: Stores) {
    var inserted := s.(wal := s.wal[req.key := Row(req, false, None)]);
    if !env.check then r == Err(Validation) && t == s
    else if req.key in s.wal then
      r == Ok(Receipt(s.wal[req.key].req.key, s.wal[req.key].committed, s.wal[req.key].commitId)) && t == s
    else if env.append == NoEffect then r == Err(Validation) && t == s
    else if env.append == LostReply then r == Err(Validation) && t == inserted
    else
      Finishes(cfg, req, env, inserted, r, t)
  }

  class Ledger {
    const cfg: Config
    const wal: PostgresWal
    const replicator: MultiRegionReplicator?
    const log: FileAuditLog?
    ghost var posts: seq<PostRecord>
    ghost var procs: map<nat, Proc>
    ghost var writers: seq<Writer>

    ghost predicate Valid()
      reads this, replicator, log
    {
      && (cfg.auditEnabled <==> log != null)
      && (log != null ==> log.Intact())
      && (cfg.replicator.Some? <==> replicator != null)
      && (replicator != null ==>
            && |replicator.regions| == cfg.replicator.value.total
            && replicator.minAcks == cfg.replicator.value.minAcks)
    }

    ghost function Abs(): State
      reads this, wal, replicator, log
    {
      State(wal.rows, if replicator == null then [] else replicator.regions,
            if log == null then [] else log.records, posts, procs, writers)
    }

    ghost function Stored(): Stores
      reads this, wal, replicator, log
    {
      Stores(Abs().wal, Abs().regions, Abs().audit, posts)
    }

    constructor (wal: PostgresWal, replicator: MultiRegionReplicator?, log: FileAuditLog?, maxRetries: nat)
      requires wal.rows == map[]
      requires log != null ==> log.Intact() && log.records == []
      requires replicator != null ==> replicator.regions == seq(|replicator.regions|, i => map[])
      ensures Valid() && Abs() == InitialState(cfg)
      ensures this.wal == wal && this.replicator == replicator && this.log == log
    {
      this.cfg := Config(
        if replicator == null then None else Some(Replicator(|replicator.regions|, replicator.minAcks)),
        log != null, maxRetries);
      this.wal := wal;
      this.replicator := replicator;
      this.log := log;
      posts, procs, writers := [], map[], [];
    }

    /** Moves the ghost program counter of `pid`. */
    ghost method Move(pid: nat, pc: Pc)
      requires pid in procs
      modifies this`procs
      ensures procs == old(procs)[pid := old(procs)[pid].(pc := pc)]
    {
      procs := procs[pid := procs[pid].(pc := pc)];
    }

    /** Tries until an id is seen or the attempts are used up; at least one attempt is made. */
    method ForwardWithRetry(req: Request, delivery: nat -> Delivery, ghost pid: nat)
      returns (r: Result<string, CoreError>, ghost attempts: nat)
      modifies this`posts
      ensures 1 <= attempts
      ensures posts == old(posts) + Posts(pid, req, delivery, attempts)
      ensures forall i: nat :: i < attempts - 1 ==> ReplySeen(delivery(i)).None? && i + 1 < cfg.maxRetries
      ensures r.Ok? ==> ReplySeen(delivery(attempts - 1)) == Some(r.value)
      ensures r.Err? ==> ReplySeen(delivery(attempts - 1)).None? && attempts >= cfg.maxRetries
      ensures r.Err? ==> r.error == UpstreamCommitFailed
    {
      var attempt := 0;
      while true
        invariant posts == old(posts) + Posts(pid, req, delivery, attempt)
        invariant forall i: nat :: i < attempt ==> ReplySeen(delivery(i)).None? && i + 1 < cfg.maxRetries
        decreases cfg.maxRetries - attempt
      {
        attempt := attempt + 1;
        posts := posts + [PostRecord(pid, req, delivery(attempt - 1))];
        var reply := ReplySeen(delivery(attempt - 1));
        if reply.Some? {
          return Ok(reply.value), attempt;
        }
        if attempt >= cfg.maxRetries {
          return Err(UpstreamCommitFailed), attempt;
        }
      }
    }

    /** The steps `tr` of call `pid` lead from `start` to here, where the call is `p`. */
    ghost predicate Shown(start: State, tr: seq<Step>, pid: nat, p: Proc)
      reads this, wal, replicator, log
    {
      && Valid()
      && ValidRun(cfg, start, tr)
      && Run(cfg, start, tr) == Abs()
      && (forall i :: 0 <= i < |tr| ==> tr[i].pid == pid)
      && pid in procs
      && procs[pid] == p
    }

    /** One call of `commit`. The ghost trace shows it to be a run of process `pid` alone. */
    method Commit(req: Request, env: Env, ghost pid: nat)
      returns (r: Result<Receipt, CoreError>, ghost tr: seq<Step>)
      requires Valid() && pid !in procs
      modifies this, wal, replicator, log
      ensures Shown(old(Abs()), tr, pid, Proc(req, if r.Ok? then Returned(r.value) else Failed(r.error)))
      ensures Answers(cfg, req, env, old(Stored()), r, Stored())
    {
      ghost var start := Abs();
      var existing;
      existing, tr := LookUp(req, env, pid);
      if existing.Err? {
        return Err(Validation), tr;
      }
      if existing.value.Some? {
        return Ok(existing.value.value), tr;
      }
      var appended;
      appended, tr := AppendRow(req, env, pid, start, tr);
      if !appended {
        return Err(Validation), tr;
      }
      r, tr := Finish(req, env, pid, start, tr);
    }

    /** The call begins with `is_already_processed`; an existing row ends it. */
    method LookUp(req: Request, env: Env, ghost pid: nat)
      returns (existing: Result<Option<Receipt>, CoreError>, ghost tr: seq<Step>)
      requires Valid() && pid !in procs
      modifies this`procs
      ensures existing == if !env.check then Err(Validation)
                          else Ok(if req.key in wal.rows then Some(ReceiptOf(wal.rows[req.key])) else None)
      ensures existing.Err? ==> Shown(old(Abs()), tr, pid, Proc(req, Failed(Validation)))
      ensures existing.Ok? && existing.value.Some? ==>
                Shown(old(Abs()), tr, pid, Proc(req, Returned(existing.value.value)))
      ensures existing.Ok? && existing.value.None? ==> Shown(old(Abs()), tr, pid, Proc(req, Checked))
    {
      ghost var start := Abs();
      procs := procs[pid := Proc(req, Started)];
      tr := [Call(pid, req)];
      assert tr[1..] == [];
      assert Abs() == Apply(cfg, start, Call(pid, req));
      existing := wal.IsAlreadyProcessed(req.key, env.check);
      RunSnoc(cfg, start, tr, Check(pid, env.check));
      tr := tr + [Check(pid, env.check)];
      Move(pid, if existing.Err? then Failed(Validation)
                else if existing.value.Some? then Returned(existing.value.value) else Checked);
    }

    method AppendRow(req: Request, env: Env, ghost pid: nat, ghost start: State, ghost before: seq<Step>)
      returns (appended: bool, ghost tr: seq<Step>)
      requires Shown(start, before, pid, Proc(req, Checked))
      modifies this`procs, this`writers, wal
      ensures appended <==> env.append == Fine
      ensures wal.rows == if env.append == NoEffect then old(wal.rows) else InsertRow(old(wal.rows), req)
      ensures Shown(start, tr, pid, Proc(req, if appended then Appended else Failed(Validation)))
    {
      RunSnoc(cfg, start, before, Append(pid, Landed(env.append), env.append == Fine));
      tr := before + [Append(pid, Landed(env.append), env.append == Fine)];
      appended := wal.Append(req, env.append);
      if appended { writers := writers + [Writer(pid, req.key)]; }
      Move(pid, if appended then Appended else Failed(Validation));
    }

    /** The audit record; a failure to write it is only logged. */
    method Audit(req: Request, env: Env, ghost pid: nat, ghost start: State, ghost before: seq<Step>)
      returns (ghost tr: seq<Step>)
      requires Shown(start, before, pid, Proc(req, Appended))
      modifies this`procs, log
      ensures log != null && !env.audit ==> log.records == old(log.records)
      ensures log != null && env.audit ==>
                log.records == old(log.records) + [AuditRecord(req.key, req.account, req.target, None, env.now)]
      ensures Shown(start, tr, pid, Proc(req, if cfg.replicator.Some? then Replicating(map[]) else Forwarding(0)))
    {
      ghost var audited := cfg.auditEnabled && env.audit;
      RunSnoc(cfg, start, before, WriteAudit(pid, audited, env.now));
      tr := before + [WriteAudit(pid, audited, env.now)];
      if log != null && env.audit {
        log.Append(AuditRecord(req.key, req.account, req.target, None, env.now));
      }
      Move(pid, if cfg.replicator.Some? then Replicating(map[]) else Forwarding(0));
    }

    /** The part of `commit` after the WAL append: audit, regions, upstream, mark. */
    method Finish(req: Request, env: Env, ghost pid: nat, ghost start: State, ghost before: seq<Step>)
      returns (r: Result<Receipt, CoreError>, ghost tr: seq<Step>)
      requires Shown(start, before, pid, Proc(req, Appended))
      requires req.key in wal.rows && wal.rows[req.key].req == req
      modifies this, wal, replicator, log
      ensures Shown(start, tr, pid, Proc(req, if r.Ok? then Returned(r.value) else Failed(r.error)))
      ensures Finishes(cfg, req, env, old(Stored()), r, Stored())
    {
      tr := Audit(req, env, pid, start, before);
      if replicator != null {
        var enough;
        enough, tr := ReplicateAll(req, env, pid, start, tr);
        if !enough {
          return Err(MultiRegionReplicationFailed), tr;
        }
      }
      r, tr := Deliver(req, env, pid, start, tr);
    }

    method ReplicateAll(req: Request, env: Env, ghost pid: nat, ghost start: State, ghost before: seq<Step>)
      returns (enough: bool, ghost tr: seq<Step>)
      requires replicator != null && Shown(start, before, pid, Proc(req, Replicating(map[])))
      modifies this`procs, replicator
      ensures enough <==> |Acknowledging(env.region, Total(cfg))| >= MinAcks(cfg)
      ensures Spread(old(replicator.regions), replicator.regions, req, env.region)
      ensures Shown(start, tr, pid, Proc(req, if enough then Forwarding(0) else Failed(MultiRegionReplicationFailed)))
    {
      ghost var s := Abs();
      enough := replicator.Replicate(req, env.region);
      ReplicatedIsSpread(s.regions, req, env.region, |s.regions|);
      SucceededIsAcknowledging(env.region, |s.regions|);
      ReplicateIsARun(cfg, s, pid, req, env.region);
      RunConcat(cfg, start, before, ReplicationSteps(cfg, pid, env.region));
      tr := before + ReplicationSteps(cfg, pid, env.region);
      Move(pid, if enough then Forwarding(0) else Failed(MultiRegionReplicationFailed));
    }

    /** Forward upstream and mark the row. */
    method Deliver(req: Request, env: Env, ghost pid: nat, ghost start: State, ghost before: seq<Step>)
      returns (r: Result<Receipt, CoreError>, ghost tr: seq<Step>)
      requires Shown(start, before, pid, Proc(req, Forwarding(0)))
      requires req.key in wal.rows && wal.rows[req.key].req == req
      modifies this, wal
      ensures Shown(start, tr, pid, Proc(req, if r.Ok? then Returned(r.value) else Failed(r.error)))
      ensures Delivers(cfg, req, env, old(Stored()), r, Stored())
    {
      var forwarded;
      ghost var s, attempts := Stored(), 0;
      forwarded, attempts, tr := Forward(req, env, pid, start, before);
      AttemptsForward(cfg, s.posts, pid, req, env.delivery, attempts, forwarded);
      ghost var t := Stored();
      if forwarded.Err? {
        DeliverySettled(cfg, req, env, s, t, forwarded, false, t);
        return Err(UpstreamCommitFailed), tr;
      }
      var marked;
      marked, tr := MarkCommitted(req, forwarded.value, env, pid, start, tr);
      DeliverySettled(cfg, req, env, s, t, forwarded, marked, Stored());
      if !marked {
        return Err(Validation), tr;
      }
      return Ok(Receipt(req.key, true, Some(forwarded.value))), tr;
    }

    method MarkCommitted(req: Request, id: string, env: Env, ghost pid: nat, ghost start: State,
                         ghost before: seq<Step>)
      returns (marked: bool, ghost tr: seq<Step>)
      requires Shown(start, before, pid, Proc(req, Answered(id)))
      modifies this`procs, wal
      ensures marked <==> env.mark == Fine
      ensures wal.rows == if env.mark == NoEffect then old(wal.rows) else MarkRow(old(wal.rows), req.key, id)
      ensures Shown(start, tr, pid,
                    Proc(req, if marked then Returned(Receipt(req.key, true, Some(id))) else Failed(Validation)))
    {
      RunSnoc(cfg, start, before, Mark(pid, Landed(env.mark), env.mark == Fine));
      tr := before + [Mark(pid, Landed(env.mark), env.mark == Fine)];
      marked := wal.MarkCommitted(req.key, id, env.mark);
      Move(pid, if marked then Returned(Receipt(req.key, true, Some(id))) else Failed(Validation));
    }

    /** `ForwardWithRetry` with its ghost trace. */
    method Forward(req: Request, env: Env, ghost pid: nat, ghost start: State, ghost before: seq<Step>)
      returns (r: Result<string, CoreError>, ghost attempts: nat, ghost tr: seq<Step>)
      requires Shown(start, before, pid, Proc(req, Forwarding(0)))
      modifies this`posts, this`procs
      ensures 1 <= attempts && posts == old(posts) + Posts(pid, req, env.delivery, attempts)
      ensures forall i: nat :: i < attempts - 1 ==> ReplySeen(env.delivery(i)).None? && i + 1 < cfg.maxRetries
      ensures r.Ok? ==> ReplySeen(env.delivery(attempts - 1)) == Some(r.value)
      ensures r.Err? ==> ReplySeen(env.delivery(attempts - 1)).None? && attempts >= cfg.maxRetries
      ensures Shown(start, tr, pid, Proc(req, if r.Ok? then Answered(r.value) else Failed(UpstreamCommitFailed)))
    {
      ghost var s := Abs();
      r, attempts := ForwardWithRetry(req, env.delivery, pid);
      assert AfterAttempts(cfg, env.delivery, attempts) ==
             if r.Ok? then Answered(r.value) else Failed(UpstreamCommitFailed);
      ForwardingIsARun(cfg, s, pid, req, env.delivery, attempts);
      RunConcat(cfg, start, before, PostSteps(pid, env.delivery, attempts));
      tr := before + PostSteps(pid, env.delivery, attempts);
      Move(pid, AfterAttempts(cfg, env.delivery, attempts));
    }
  }

  lemma {:induction false} ReplicatedIsSpread(regions: seq<map<string, Request>>, req: Request, faults: nat -> Fault,
                                              n: nat)
    requires n <= |regions|
    ensures var after := Replicated(regions, req, faults, n);
      && (forall r: nat :: r < n ==>
            after[r] == if faults(r) == NoEffect || req.key in regions[r] then regions[r]
                        else regions[r][req.key := req])
      && (forall r: nat :: n <= r < |regions| ==> after[r] == regions[r])
  {
    if n > 0 { ReplicatedIsSpread(regions, req, faults, n - 1); }
  }

  lemma {:induction false} SucceededIsAcknowledging(faults: nat -> Fault, n: nat)
    ensures Succeeded(faults, n) == |Acknowledging(faults, n)|
  {
    if n > 0 {
      SucceededIsAcknowledging(faults, n - 1);
      AcknowledgingNext(faults, n - 1);
    } else {
      assert Acknowledging(faults, 0) == {};
    }
  }

  lemma AcknowledgingNext(faults: nat -> Fault, n: nat)
    ensures Acknowledging(faults, n + 1) == Acknowledging(faults, n) + if faults(n) == Fine then {n} else {}
    ensures n !in Acknowledging(faults, n)
  {
    forall r: nat
      ensures r in Acknowledging(faults, n + 1) <==> r in Acknowledging(faults, n) || (r == n && faults(n) == Fine)
    {
    }
  }

  /** What the loop of `ForwardWithRetry` reports, in terms of the replies alone. */
  lemma AttemptsForward(cfg: Config, before: seq<PostRecord>, pid: nat, req: Request, delivery: nat -> Delivery,
                        attempts: nat, r: Result<string, CoreError>)
    requires 1 <= attempts
    requires forall i: nat :: i < attempts - 1 ==> ReplySeen(delivery(i)).None? && i + 1 < cfg.maxRetries
    requires r.Ok? ==> ReplySeen(delivery(attempts - 1)) == Some(r.value)
    requires r.Err? ==> ReplySeen(delivery(attempts - 1)).None? && attempts >= cfg.maxRetries
    ensures Forwarded(before, before + Posts(pid, req, delivery, attempts), req, delivery, Max(1, cfg.maxRetries), r)
  {
    var n := Max(1, cfg.maxRetries);
    PostsAreSent(before, pid, req, delivery, attempts);
    if attempts > 1 { assert ReplySeen(delivery(attempts - 2)).None?; }
    if r.Ok? {
      assert FirstHeard(delivery, n, attempts - 1, r.value);
    } else {
      assert attempts == n;
    }
  }

  lemma FirstIsOnly(delivery: nat -> Delivery, n: nat, i: nat, id: string, k: nat, other: string)
    requires FirstHeard(delivery, n, i, id) && FirstHeard(delivery, n, k, other)
    ensures i == k && id == other
  {
    assert !(i < k) by { assert i < k ==> !Heard(delivery(i), id); }
    assert !(k < i) by { assert k < i ==> !Heard(delivery(k), other); }
  }

  /** The result of a delivery, from how forwarding and marking went. */
  lemma DeliverySettled(cfg: Config, req: Request, env: Env, s: Stores, mid: Stores,
                        forwarded: Result<string, CoreError>, marked: bool, t: Stores)
    requires req.key in s.wal && s.wal[req.key].req == req
    requires mid == s.(posts := mid.posts)
    requires Forwarded(s.posts, mid.posts, req, env.delivery, Max(1, cfg.maxRetries), forwarded)
    requires forwarded.Err? ==> t == mid
    requires forwarded.Ok? ==>
      && (marked <==> env.mark == Fine)
      && t == mid.(wal := if env.mark == NoEffect then s.wal else MarkRow(s.wal, req.key, forwarded.value))
    ensures var r := if forwarded.Err? then Err(UpstreamCommitFailed)
                     else if marked then Ok(Receipt(req.key, true, Some(forwarded.value))) else Err(Validation);
      Delivers(cfg, req, env, s, r, t)
  {
    var n := Max(1, cfg.maxRetries);
    if forwarded.Ok? {
      var answer := forwarded.value;
      var k: nat :| FirstHeard(env.delivery, n, k, answer) && Sent(s.posts, mid.posts, req, env.delivery, k + 1);
      forall i: nat, id: string | FirstHeard(env.delivery, n, i, id) ensures i == k && id == answer {
        FirstIsOnly(env.delivery, n, i, id, k, answer);
      }
    }
  }

  lemma SentSnoc(before: seq<PostRecord>, after: seq<PostRecord>, pid: nat, req: Request, delivery: nat -> Delivery,
                 n: nat)
    requires Sent(before, after, req, delivery, n)
    ensures Sent(before, after + [PostRecord(pid, req, delivery(n))], req, delivery, n + 1)
  {
  }

  lemma {:induction false} PostsAreSent(before: seq<PostRecord>, pid: nat, req: Request, delivery: nat -> Delivery,
                                        n: nat)
    ensures Sent(before, before + Posts(pid, req, delivery, n), req, delivery, n)
  {
    if n > 0 {
      PostsAreSent(before, pid, req, delivery, n - 1);
      SentSnoc(before, before + Posts(pid, req, delivery, n - 1), pid, req, delivery, n - 1);
      assert before + Posts(pid, req, delivery, n) ==
             before + Posts(pid, req, delivery, n - 1) + [PostRecord(pid, req, delivery(n - 1))];
    }
  }

  // ---------------------------------------------------------------- the loops as runs

  function RegionSteps(pid: nat, faults: nat -> Fault, n: nat): (tr: seq<Step>)
    ensures |tr| == n && forall i :: 0 <= i < n ==> tr[i].pid == pid
  {
    if n == 0 then []
    else RegionSteps(pid, faults, n - 1) + [WriteRegion(pid, n - 1, Landed(faults(n - 1)), faults(n - 1) == Fine)]
  }

  /** `Goto` forgets an earlier `Goto` of the same call. */
  lemma GotoTwice(s: State, t: State, pid: nat, a: Pc, b: Pc)
    requires pid in s.procs && t == s.(procs := t.procs) && t.procs == Goto(s, pid, a).procs
    ensures Goto(t, pid, b) == Goto(s, pid, b)
  {
    assert Goto(t, pid, b).procs == Goto(s, pid, b).procs;
  }

  lemma GotoHere(s: State, pid: nat)
    requires pid in s.procs
    ensures Goto(s, pid, s.procs[pid].pc) == s
  {
    assert s.procs[pid := s.procs[pid]] == s.procs;
  }

  lemma RegionStepEffect(cfg: Config, s: State, rs: seq<map<string, Request>>, o: map<nat, bool>,
                         pid: nat, req: Request, r: nat, fault: Fault)
    requires |s.regions| == |rs| == Total(cfg) && r < Total(cfg) && r !in o
    requires pid in s.procs && s.procs[pid].req == req
    ensures var t := Goto(s.(regions := rs), pid, Replicating(o));
      var step := WriteRegion(pid, r, Landed(fault), fault == Fine);
      && Enabled(cfg, t, step)
      && Apply(cfg, t, step) == Goto(s.(regions := if Landed(fault) then Land(rs, r, req) else rs), pid,
                                     Replicating(o[r := fault == Fine]))
  {
    var t := Goto(s.(regions := rs), pid, Replicating(o));
    var rs' := if Landed(fault) then Land(rs, r, req) else rs;
    GotoTwice(s.(regions := rs'), t.(regions := rs'), pid, Replicating(o), Replicating(o[r := fault == Fine]));
  }

  /** Writing the regions one after another is a run of `WriteRegion` steps. */
  lemma {:induction false} ReplicationIsARun(cfg: Config, s: State, pid: nat, req: Request,
                                             faults: nat -> Fault, n: nat)
    requires |s.regions| == Total(cfg) && n <= Total(cfg)
    requires pid in s.procs && s.procs[pid] == Proc(req, Replicating(map[]))
    ensures ValidRun(cfg, s, RegionSteps(pid, faults, n))
    ensures Run(cfg, s, RegionSteps(pid, faults, n)) ==
            Goto(s.(regions := Replicated(s.regions, req, faults, n)), pid, Replicating(Outcomes(faults, n)))
  {
    if n == 0 {
      GotoHere(s, pid);
    } else {
      var r, fault := n - 1, faults(n - 1);
      var before := RegionSteps(pid, faults, r);
      var rs, o := Replicated(s.regions, req, faults, r), Outcomes(faults, r);
      ReplicationIsARun(cfg, s, pid, req, faults, r);
      RegionStepEffect(cfg, s, rs, o, pid, req, r, fault);
      RunSnoc(cfg, s, before, WriteRegion(pid, r, Landed(fault), fault == Fine));
    }
  }

  function ReplicationSteps(cfg: Config, pid: nat, faults: nat -> Fault): seq<Step> {
    RegionSteps(pid, faults, Total(cfg)) + [Conclude(pid)]
  }

  function Verdict(cfg: Config, faults: nat -> Fault): Pc {
    if Succeeded(faults, Total(cfg)) >= MinAcks(cfg) then Forwarding(0) else Failed(MultiRegionReplicationFailed)
  }

  /** `replicate` as a whole: every region written, then the acks counted. */
  lemma ReplicateIsARun(cfg: Config, s: State, pid: nat, req: Request, faults: nat -> Fault)
    requires |s.regions| == Total(cfg)
    requires pid in s.procs && s.procs[pid] == Proc(req, Replicating(map[]))
    ensures ValidRun(cfg, s, ReplicationSteps(cfg, pid, faults))
    ensures Run(cfg, s, ReplicationSteps(cfg, pid, faults)) ==
            Goto(s.(regions := Replicated(s.regions, req, faults, Total(cfg))), pid, Verdict(cfg, faults))
  {
    var n := Total(cfg);
    var written := s.(regions := Replicated(s.regions, req, faults, n));
    var o := Outcomes(faults, n);
    ReplicationIsARun(cfg, s, pid, req, faults, n);
    SucceededAcks(faults, n);
    GotoTwice(written, Goto(written, pid, Replicating(o)), pid, Replicating(o), Verdict(cfg, faults));
    RunSnoc(cfg, s, RegionSteps(pid, faults, n), Conclude(pid));
  }

  function PostSteps(pid: nat, delivery: nat -> Delivery, n: nat): (tr: seq<Step>)
    ensures |tr| == n && forall i :: 0 <= i < n ==> tr[i].pid == pid
  {
    if n == 0 then [] else PostSteps(pid, delivery, n - 1) + [Post(pid, delivery(n - 1))]
  }

  /** The state of a call after `n` attempts, of which only the last can have been answered. */
  function AfterAttempts(cfg: Config, delivery: nat -> Delivery, n: nat): Pc {
    if n == 0 then Forwarding(0)
    else if ReplySeen(delivery(n - 1)).Some? then Answered(ReplySeen(delivery(n - 1)).value)
    else if n < cfg.maxRetries then Forwarding(n)
    else Failed(UpstreamCommitFailed)
  }

  lemma {:induction false} ForwardingIsARun(cfg: Config, s: State, pid: nat, req: Request,
                                            delivery: nat -> Delivery, n: nat)
    requires |s.regions| == Total(cfg)
    requires pid in s.procs && s.procs[pid] == Proc(req, Forwarding(0))
    requires forall i: nat :: i < n - 1 ==> ReplySeen(delivery(i)).None? && i + 1 < cfg.maxRetries
    ensures ValidRun(cfg, s, PostSteps(pid, delivery, n))
    ensures Run(cfg, s, PostSteps(pid, delivery, n)) ==
            Goto(s.(posts := s.posts + Posts(pid, req, delivery, n)), pid, AfterAttempts(cfg, delivery, n))
  {
    if n == 0 {
      assert s.procs[pid := s.procs[pid]] == s.procs;
      assert s.posts + [] == s.posts;
    } else {
      var before := PostSteps(pid, delivery, n - 1);
      ForwardingIsARun(cfg, s, pid, req, delivery, n - 1);
      RunSnoc(cfg, s, before, Post(pid, delivery(n - 1)));
      AttemptEffect(cfg, s, Posts(pid, req, delivery, n - 1), pid, req, delivery, n - 1);
    }
  }

  lemma AttemptEffect(cfg: Config, s: State, made: seq<PostRecord>, pid: nat, req: Request,
                      delivery: nat -> Delivery, n: nat)
    requires |s.regions| == Total(cfg)
    requires pid in s.procs && s.procs[pid].req == req
    ensures var t := Goto(s.(posts := s.posts + made), pid, Forwarding(n));
      && Enabled(cfg, t, Post(pid, delivery(n)))
      && Apply(cfg, t, Post(pid, delivery(n))) ==
           Goto(s.(posts := s.posts + (made + [PostRecord(pid, req, delivery(n))])), pid,
                AfterAttempts(cfg, delivery, n + 1))
  {
    var record := PostRecord(pid, req, delivery(n));
    var posts := s.posts + (made + [record]);
    assert s.posts + made + [record] == posts;
    var t := Goto(s.(posts := s.posts + made), pid, Forwarding(n));
    GotoTwice(s.(posts := posts), t.(posts := posts), pid, Forwarding(n), AfterAttempts(cfg, delivery, n + 1));
  }
}
