/** What a resend gets: rows that stay pending for ever are reachable, in every configuration by a
    dropped call, and with replication by a call that too few regions acknowledged. */
module LedgerResend {
  import opened Common
  import opened LedgerProtocol
  import opened LedgerPending
  import Ledger

  /** The row of `key` is pending and nothing that still runs can commit it. */
  ghost predicate Stuck(cfg: Config, s: State, key: string) {
    Pending(s, key) && !SomeHope(cfg, s, key)
  }

  function Begin(pid: nat, req: Request): seq<Step> {
    [Call(pid, req), Check(pid, true)]
  }

  /** A new key is let through by the check; a known one gets the receipt of its row. */
  lemma BeginRun(cfg: Config, s: State, pid: nat, req: Request)
    requires |s.regions| == Total(cfg) && pid !in s.procs
    ensures ValidRun(cfg, s, Begin(pid, req))
    ensures var pc := if req.key in s.wal then Returned(ReceiptOf(s.wal[req.key])) else Checked;
      Run(cfg, s, Begin(pid, req)) == s.(procs := s.procs[pid := Proc(req, pc)])
  {
    var called := Apply(cfg, s, Call(pid, req));
    RunOne(cfg, s, Call(pid, req));
    RunSnoc(cfg, s, [Call(pid, req)], Check(pid, true));
    assert [Call(pid, req)] + [Check(pid, true)] == Begin(pid, req);
    var t := Apply(cfg, called, Check(pid, true));
    assert t.procs == s.procs[pid := t.procs[pid]];
  }

  /** The first call for `req`, up to the WAL row. */
  function Insert(req: Request): seq<Step> {
    Begin(0, req) + [Append(0, true, true)]
  }

  function Inserted(cfg: Config, req: Request): State {
    State(map[req.key := Row(req, false, None)], InitialState(cfg).regions, [], [],
          map[0 := Proc(req, Appended)], [Writer(0, req.key)])
  }

  lemma InsertRun(cfg: Config, req: Request)
    ensures ValidRun(cfg, InitialState(cfg), Insert(req))
    ensures Run(cfg, InitialState(cfg), Insert(req)) == Inserted(cfg, req)
  {
    BeginRun(cfg, InitialState(cfg), 0, req);
    RunSnoc(cfg, InitialState(cfg), Begin(0, req), Append(0, true, true));
  }

  // ---------------------------------------------------------------- a dropped call

  function DroppedRun(req: Request): seq<Step> {
    Insert(req) + [Abandon(0)]
  }

  /** In every configuration a call that is dropped after its append leaves a stuck row. */
  lemma DroppedCallIsStuck(cfg: Config, req: Request)
    ensures ValidRun(cfg, InitialState(cfg), DroppedRun(req))
    ensures Stuck(cfg, Run(cfg, InitialState(cfg), DroppedRun(req)), req.key)
  {
    InsertRun(cfg, req);
    RunSnoc(cfg, InitialState(cfg), Insert(req), Abandon(0));
  }

  /** A call that is dropped while its region writes are under way may still write to any region
      afterwards. */
  lemma RegionWriteAfterDrop(cfg: Config, req: Request, r: nat)
    requires cfg.replicator.Some? && r < Total(cfg)
    ensures var tr := Insert(req) + [WriteAudit(0, false, 0)] + [Abandon(0)] + [OrphanWrite(0, r)];
      && ValidRun(cfg, InitialState(cfg), tr)
      && var t := Run(cfg, InitialState(cfg), tr);
         && |t.regions| == Total(cfg) && t.regions[r] == map[req.key := req]
         && t.posts == []
  {
    var audited := Insert(req) + [WriteAudit(0, false, 0)];
    InsertRun(cfg, req);
    RunSnoc(cfg, InitialState(cfg), Insert(req), WriteAudit(0, false, 0));
    RunSnoc(cfg, InitialState(cfg), audited, Abandon(0));
    RunSnoc(cfg, InitialState(cfg), audited + [Abandon(0)], OrphanWrite(0, r));
  }

  // ---------------------------------------------------------------- too few regions, then a resend

  /** The call goes on to the regions, which answer as `faults` says. */
  function RefusedRun(cfg: Config, req: Request, faults: nat -> Ledger.Fault): seq<Step>
    requires cfg.replicator.Some?
  {
    (Insert(req) + [WriteAudit(0, false, 0)]) + Ledger.ReplicationSteps(cfg, 0, faults)
  }

  /** After the last region was heard from: the call has failed, and nothing went upstream. */
  ghost predicate Refused(s: State, req: Request) {
    && s.wal == map[req.key := Row(req, false, None)]
    && s.posts == []
    && s.procs == map[0 := Proc(req, Failed(MultiRegionReplicationFailed))]
  }

  lemma RefusedRunFails(cfg: Config, req: Request, faults: nat -> Ledger.Fault)
    requires cfg.replicator.Some? && Ledger.Succeeded(faults, Total(cfg)) < MinAcks(cfg)
    ensures ValidRun(cfg, InitialState(cfg), RefusedRun(cfg, req, faults))
    ensures var t := Run(cfg, InitialState(cfg), RefusedRun(cfg, req, faults));
      Refused(t, req) && |t.regions| == Total(cfg)
  {
    var audited := Insert(req) + [WriteAudit(0, false, 0)];
    InsertRun(cfg, req);
    RunSnoc(cfg, InitialState(cfg), Insert(req), WriteAudit(0, false, 0));
    var s := Run(cfg, InitialState(cfg), audited);
    Ledger.ReplicateIsARun(cfg, s, 0, req, faults);
    RunConcat(cfg, InitialState(cfg), audited, Ledger.ReplicationSteps(cfg, 0, faults));
  }

  lemma ResendOfRefused(cfg: Config, s: State, req: Request, again: Request)
    requires Refused(s, req) && |s.regions| == Total(cfg) && again.key == req.key
    ensures ValidRun(cfg, s, Begin(1, again))
    ensures var t := Run(cfg, s, Begin(1, again));
      && 0 in t.procs && t.procs[0].pc == Failed(MultiRegionReplicationFailed)
      && 1 in t.procs && t.procs[1].pc == Returned(Receipt(req.key, false, None))
      && t.posts == []
      && Stuck(cfg, t, req.key)
  {
    BeginRun(cfg, s, 1, again);
  }

  /** The case the comments promise a retry for. Whenever too few regions acknowledge, the call
      fails, and sending the key again, with the same request or another, is answered with an
      uncommitted receipt. Nothing was forwarded, and by `PendingForever` nothing ever will be. */
  lemma ResendNeverForwards(cfg: Config, req: Request, again: Request, faults: nat -> Ledger.Fault)
    requires cfg.replicator.Some? && Ledger.Succeeded(faults, Total(cfg)) < MinAcks(cfg) && again.key == req.key
    ensures var tr := RefusedRun(cfg, req, faults) + Begin(1, again);
      && ValidRun(cfg, InitialState(cfg), tr)
      && var t := Run(cfg, InitialState(cfg), tr);
         && 0 in t.procs && t.procs[0].pc == Failed(MultiRegionReplicationFailed)
         && 1 in t.procs && t.procs[1].pc == Returned(Receipt(req.key, false, None))
         && t.posts == []
         && Stuck(cfg, t, req.key)
  {
    var refused := RefusedRun(cfg, req, faults);
    RefusedRunFails(cfg, req, faults);
    ResendOfRefused(cfg, Run(cfg, InitialState(cfg), refused), req, again);
    RunConcat(cfg, InitialState(cfg), refused, Begin(1, again));
  }

  function AllDown(): nat -> Ledger.Fault {
    r => Ledger.NoEffect
  }

  lemma {:induction false} NobodyAcknowledges(n: nat)
    ensures Ledger.Succeeded(AllDown(), n) == 0
  {
    if n > 0 { NobodyAcknowledges(n - 1); }
  }

  /** This happens with every replicator that asks for an acknowledgement at all. */
  lemma RefusalIsPossibleIff(cfg: Config)
    requires cfg.replicator.Some?
    ensures (exists faults :: Ledger.Succeeded(faults, Total(cfg)) < MinAcks(cfg)) <==> MinAcks(cfg) > 0
  {
    NobodyAcknowledges(Total(cfg));
  }
}
