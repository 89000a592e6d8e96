/** The no-loss write pipeline as a state machine.

    Each call of `Ledger::commit` is a process with a program counter; any number of calls
    interleave over the durable state (WAL rows, region rows, audit file, upstream). Every
    step may fail, a failed step may still have taken effect, and a call may be dropped or
    die between any two steps. */
module LedgerProtocol {
  import opened Common
  import opened AuditLog

  datatype Request = Request(key: string, account: string, target: string, payload: string)

  datatype Receipt = Receipt(key: string, committed: bool, commitId: Option<string>)

  datatype CoreError = Validation | MultiRegionReplicationFailed | UpstreamCommitFailed

  /** A row of `ledger_mutations`. */
  datatype Row = Row(req: Request, committed: bool, commitId: Option<string>)

  datatype Replicator = Replicator(total: nat, minAcks: nat)

  /** `total` regions and the threshold chosen by `new` (`None`) or `with_min_acks(n)`. */
  function NewReplicator(total: nat, n: Option<nat>): (r: Replicator)
    ensures r.minAcks <= r.total
    ensures r.total == total
    ensures n.None? ==> r.minAcks == total
    ensures n.Some? ==> r.minAcks <= n.value && (r.minAcks == n.value || r.minAcks == total)
  {
    Replicator(total, if n.None? then total else Min(n.value, total))
  }

  datatype Config = Config(replicator: Option<Replicator>, auditEnabled: bool, maxRetries: nat)

  predicate WellFormed(cfg: Config) {
    cfg.replicator.Some? ==> cfg.replicator.value.minAcks <= cfg.replicator.value.total
  }

  function Total(cfg: Config): nat {
    if cfg.replicator.Some? then cfg.replicator.value.total else 0
  }

  function MinAcks(cfg: Config): nat {
    if cfg.replicator.Some? then cfg.replicator.value.minAcks else 0
  }

  /** What happened to one POST. `id` is what upstream answered, even if the reply was lost. */
  datatype Delivery = NotDelivered | Delivered(id: Option<string>, replyLost: bool)

  function ReplySeen(d: Delivery): Option<string> {
    if d.Delivered? && !d.replyLost then d.id else None
  }

  datatype PostRecord = PostRecord(pid: nat, req: Request, delivery: Delivery)

  datatype Pc =
    | Started
    | Checked                                  // the WAL knew nothing of the key
    | Appended
    | Replicating(outcomes: map<nat, bool>)    // regions heard from, and whether they acked
    | Forwarding(attempts: nat)                // POSTs made so far
    | Answered(id: string)
    | Returned(receipt: Receipt)
    | Failed(error: CoreError)
    | Abandoned(writing: bool)                 // dropped; region tasks already spawned may go on

  datatype Proc = Proc(req: Request, pc: Pc)

  datatype Writer = Writer(pid: nat, key: string)

  datatype State = State(
    wal: map<string, Row>,
    regions: seq<map<string, Request>>,
    audit: seq<AuditRecord>,
    posts: seq<PostRecord>,
    procs: map<nat, Proc>,
    writers: seq<Writer>)    // history: calls whose append succeeded

  datatype Step =
    | Call(pid: nat, req: Request)
    | Check(pid: nat, ok: bool)
    | Append(pid: nat, landed: bool, ok: bool)
    | WriteAudit(pid: nat, landed: bool, now: int)
    | WriteRegion(pid: nat, region: nat, landed: bool, ok: bool)
    | Conclude(pid: nat)
    | Post(pid: nat, delivery: Delivery)
    | Mark(pid: nat, landed: bool, ok: bool)
    | Abandon(pid: nat)
    | OrphanWrite(pid: nat, region: nat)

  predicate Live(pc: Pc) {
    !pc.Returned? && !pc.Failed? && !pc.Abandoned?
  }

  function InitialState(cfg: Config): State {
    State(map[], seq(Total(cfg), i => map[]), [], [], map[], [])
  }

  /** INSERT ... ON CONFLICT DO NOTHING. */
  function InsertRow(wal: map<string, Row>, req: Request): map<string, Row> {
    if req.key in wal then wal else wal[req.key := Row(req, false, None)]
  }

  /** UPDATE ... SET committed = TRUE, db_commit_id = id WHERE idempotency_key = key. */
  function MarkRow(wal: map<string, Row>, key: string, id: string): map<string, Row> {
    if key in wal then wal[key := wal[key].(committed := true, commitId := Some(id))] else wal
  }

  function InsertRegion(region: map<string, Request>, req: Request): map<string, Request> {
    if req.key in region then region else region[req.key := req]
  }

  function Land(regions: seq<map<string, Request>>, r: nat, req: Request): seq<map<string, Request>>
    requires r < |regions|
  {
    regions[r := InsertRegion(regions[r], req)]
  }

  function ReceiptOf(row: Row): Receipt {
    Receipt(row.req.key, row.committed, row.commitId)
  }

  function Acks(outcomes: map<nat, bool>): set<nat> {
    set r | r in outcomes && outcomes[r]
  }

  function AllRegions(cfg: Config): set<nat> {
    Below(Total(cfg))
  }

  predicate Enabled(cfg: Config, s: State, step: Step) {
    && |s.regions| == Total(cfg)
    && (step.Call? <==> step.pid !in s.procs)
    && (step.Call? || EnabledAt(cfg, s.procs[step.pid].pc, step))
  }

  /** The step is one that a call standing at `pc` can take. */
  predicate EnabledAt(cfg: Config, pc: Pc, step: Step) {
    match step
    case Call(_, _) => false
    case Check(_, _) => pc.Started?
    case Append(_, landed, ok) => pc.Checked? && (ok ==> landed)
    case WriteAudit(_, landed, _) => pc.Appended? && (landed ==> cfg.auditEnabled)
    case WriteRegion(_, r, landed, ok) =>
      pc.Replicating? && r < Total(cfg) && r !in pc.outcomes && (ok ==> landed)
    case Conclude(_) => pc.Replicating? && pc.outcomes.Keys == AllRegions(cfg)
    case Post(_, _) => pc.Forwarding?
    case Mark(_, landed, ok) => pc.Answered? && (ok ==> landed)
    case Abandon(_) => Live(pc)
    case OrphanWrite(_, r) => pc.Abandoned? && pc.writing && r < Total(cfg)
  }

  function Goto(s: State, pid: nat, pc: Pc): State
    requires pid in s.procs
  {
    s.(procs := s.procs[pid := s.procs[pid].(pc := pc)])
  }

  function Apply(cfg: Config, s: State, step: Step): State
    requires Enabled(cfg, s, step)
  {
    if step.Call? then s.(procs := s.procs[step.pid := Proc(step.req, Started)])
    else
      var pid, req, pc := step.pid, s.procs[step.pid].req, s.procs[step.pid].pc;
      match step
      case Check(_, ok) =>
        Goto(s, pid,
             if !ok then Failed(Validation)
             else if req.key in s.wal then Returned(ReceiptOf(s.wal[req.key]))
             else Checked)
      case Append(_, landed, ok) =>
        var s' := if landed then s.(wal := InsertRow(s.wal, req)) else s;
        if ok then Goto(s'.(writers := s.writers + [Writer(pid, req.key)]), pid, Appended)
        else Goto(s', pid, Failed(Validation))
      case WriteAudit(_, landed, now) =>
        var record := AuditRecord(req.key, req.account, req.target, None, now);
        Goto(if landed then s.(audit := s.audit + [record]) else s, pid,
             if cfg.replicator.Some? then Replicating(map[]) else Forwarding(0))
      case WriteRegion(_, r, landed, ok) =>
        Goto(if landed then s.(regions := Land(s.regions, r, req)) else s, pid,
             Replicating(pc.outcomes[r := ok]))
      case Conclude(_) =>
        Goto(s, pid,
             if |Acks(pc.outcomes)| >= MinAcks(cfg) then Forwarding(0)
             else Failed(MultiRegionReplicationFailed))
      case Post(_, delivery) =>
        Goto(s.(posts := s.posts + [PostRecord(pid, req, delivery)]), pid,
             if ReplySeen(delivery).Some? then Answered(ReplySeen(delivery).value)
             else if pc.attempts + 1 < cfg.maxRetries then Forwarding(pc.attempts + 1)
             else Failed(UpstreamCommitFailed))
      case Mark(_, landed, ok) =>
        Goto(if landed then s.(wal := MarkRow(s.wal, req.key, pc.id)) else s, pid,
             if ok then Returned(Receipt(req.key, true, Some(pc.id))) else Failed(Validation))
      case Abandon(_) => Goto(s, pid, Abandoned(pc.Replicating?))
      case OrphanWrite(_, r) => s.(regions := Land(s.regions, r, req))
  }

  // ---------------------------------------------------------------- runs

  predicate ValidRun(cfg: Config, s: State, tr: seq<Step>)
    decreases |tr|
  {
    tr == [] || (Enabled(cfg, s, tr[0]) && ValidRun(cfg, Apply(cfg, s, tr[0]), tr[1..]))
  }

  function Run(cfg: Config, s: State, tr: seq<Step>): State
    requires ValidRun(cfg, s, tr)
    decreases |tr|
  {
    if tr == [] then s else Run(cfg, Apply(cfg, s, tr[0]), tr[1..])
  }

  ghost predicate Reachable(cfg: Config, s: State) {
    exists tr :: ValidRun(cfg, InitialState(cfg), tr) && Run(cfg, InitialState(cfg), tr) == s
  }

  lemma {:induction false} RunConcat(cfg: Config, s: State, a: seq<Step>, b: seq<Step>)
    requires ValidRun(cfg, s, a) && ValidRun(cfg, Run(cfg, s, a), b)
    ensures ValidRun(cfg, s, a + b) && Run(cfg, s, a + b) == Run(cfg, Run(cfg, s, a), b)
    decreases |a|
  {
    if a == [] {
      assert a + b == b;
    } else {
      assert (a + b)[1..] == a[1..] + b;
      RunConcat(cfg, Apply(cfg, s, a[0]), a[1..], b);
    }
  }

  lemma RunSnoc(cfg: Config, s: State, a: seq<Step>, step: Step)
    requires ValidRun(cfg, s, a) && Enabled(cfg, Run(cfg, s, a), step)
    ensures ValidRun(cfg, s, a + [step])
    ensures Run(cfg, s, a + [step]) == Apply(cfg, Run(cfg, s, a), step)
  {
    RunOne(cfg, Run(cfg, s, a), step);
    RunConcat(cfg, s, a, [step]);
  }

  lemma RunOne(cfg: Config, s: State, step: Step)
    requires Enabled(cfg, s, step)
    ensures ValidRun(cfg, s, [step]) && Run(cfg, s, [step]) == Apply(cfg, s, step)
  {
    var tr, next := [step], Apply(cfg, s, step);
    assert tr[1..] == [];
    assert Run(cfg, next, []) == next;
    assert Run(cfg, s, tr) == Run(cfg, next, tr[1..]);
  }

  // ---------------------------------------------------------------- what only ever grows

  /** From `s` to `t` nothing durable is lost or rewritten: a WAL row keeps its request and
      stays committed once it is, region rows stay, audit and upstream history extend. */
  ghost predicate Grows(s: State, t: State) {
    && (forall k :: k in s.wal ==> k in t.wal && t.wal[k].req == s.wal[k].req)
    && (forall k :: k in s.wal && s.wal[k].committed ==> t.wal[k].committed)
    && |s.regions| == |t.regions|
    && (forall r, k :: 0 <= r < |s.regions| && k in s.regions[r] ==>
          k in t.regions[r] && t.regions[r][k] == s.regions[r][k])
    && s.audit <= t.audit
    && s.posts <= t.posts
    && (forall pid :: pid in s.procs ==> pid in t.procs && t.procs[pid].req == s.procs[pid].req)
  }

  lemma StepGrows(cfg: Config, s: State, step: Step)
    requires Enabled(cfg, s, step)
    ensures Grows(s, Apply(cfg, s, step))
  {
    match step {
      case Append(_, landed, _) => if landed {} else {}
      case WriteAudit(_, landed, _) => if landed {} else {}
      case WriteRegion(_, _, landed, _) => if landed {} else {}
      case Mark(_, landed, _) => if landed {} else {}
      case _ =>
    }
  }

  lemma GrowsTransitive(s: State, t: State, u: State)
    requires Grows(s, t) && Grows(t, u)
    ensures Grows(s, u)
  {
  }

  lemma {:induction false} RunGrows(cfg: Config, s: State, tr: seq<Step>)
    requires ValidRun(cfg, s, tr)
    ensures Grows(s, Run(cfg, s, tr))
    decreases |tr|
  {
    if tr != [] {
      var next := Apply(cfg, s, tr[0]);
      StepGrows(cfg, s, tr[0]);
      RunGrows(cfg, next, tr[1..]);
      GrowsTransitive(s, next, Run(cfg, next, tr[1..]));
    }
  }

  // ---------------------------------------------------------------- the invariant

  function Holders(s: State, k: string): set<nat> {
    set r: nat | r < |s.regions| && k in s.regions[r]
  }

  /** Upstream answered a POST for `k` with `id`, and the caller saw the answer. */
  ghost predicate Replied(s: State, k: string, id: string) {
    exists i :: 0 <= i < |s.posts| && s.posts[i].req.key == k && ReplySeen(s.posts[i].delivery) == Some(id)
  }

  ghost predicate RowInv(cfg: Config, s: State, k: string)
    requires k in s.wal
  {
    var row := s.wal[k];
    && row.req.key == k
    && (row.committed ==>
          && row.commitId.Some?
          && Replied(s, k, row.commitId.value)
          && |Holders(s, k)| >= MinAcks(cfg))
    && (!row.committed ==> row.commitId.None?)
  }

  ghost predicate ReceiptInv(s: State, k: string, receipt: Receipt) {
    && receipt.key == k
    && k in s.wal
    && (receipt.committed ==>
          s.wal[k].committed && receipt.commitId.Some? && Replied(s, k, receipt.commitId.value))
    && (!receipt.committed ==> receipt.commitId.None?)
  }

  ghost predicate ProcInv(cfg: Config, s: State, p: Proc) {
    var k := p.req.key;
    match p.pc
    case Started => true
    case Checked => true
    case Appended => k in s.wal
    case Replicating(outcomes) =>
      k in s.wal && cfg.replicator.Some? &&
      forall r :: r in outcomes ==> r < |s.regions| && (outcomes[r] ==> k in s.regions[r])
    case Forwarding(_) => k in s.wal && |Holders(s, k)| >= MinAcks(cfg)
    case Answered(id) => k in s.wal && |Holders(s, k)| >= MinAcks(cfg) && Replied(s, k, id)
    case Returned(receipt) => ReceiptInv(s, k, receipt)
    case Failed(_) => true
    case Abandoned(writing) => writing ==> k in s.wal
  }

  /** Everything written anywhere was first written to the WAL. */
  ghost predicate WalFirst(s: State) {
    && (forall r, k :: 0 <= r < |s.regions| && k in s.regions[r] ==> k in s.wal)
    && (forall i :: 0 <= i < |s.audit| ==> s.audit[i].key in s.wal)
    && (forall i :: 0 <= i < |s.posts| ==> s.posts[i].req.key in s.wal)
  }

  ghost predicate Inv(cfg: Config, s: State) {
    && |s.regions| == Total(cfg)
    && WalFirst(s)
    && (forall k :: k in s.wal ==> RowInv(cfg, s, k))
    && (forall pid :: pid in s.procs ==> ProcInv(cfg, s, s.procs[pid]))
  }

  lemma RepliedGrows(s: State, t: State, k: string, id: string)
    requires s.posts <= t.posts && Replied(s, k, id)
    ensures Replied(t, k, id)
  {
    var i :| 0 <= i < |s.posts| && s.posts[i].req.key == k && ReplySeen(s.posts[i].delivery) == Some(id);
    assert t.posts[i] == s.posts[i];
  }

  lemma HoldersGrow(s: State, t: State, k: string)
    requires Grows(s, t)
    ensures |Holders(s, k)| <= |Holders(t, k)|
  {
    SubsetCardinality(Holders(s, k), Holders(t, k));
  }

  lemma ProcInvGrows(cfg: Config, s: State, t: State, p: Proc)
    requires Grows(s, t) && ProcInv(cfg, s, p)
    ensures ProcInv(cfg, t, p)
  {
    var k := p.req.key;
    HoldersGrow(s, t, k);
    match p.pc
    case Answered(id) => RepliedGrows(s, t, k, id);
    case Returned(receipt) => if receipt.committed { RepliedGrows(s, t, k, receipt.commitId.value); }
    case _ =>
  }

  lemma RowInvGrows(cfg: Config, s: State, t: State, k: string)
    requires Grows(s, t) && k in s.wal && RowInv(cfg, s, k) && t.wal[k] == s.wal[k]
    ensures RowInv(cfg, t, k)
  {
    HoldersGrow(s, t, k);
    if s.wal[k].committed { RepliedGrows(s, t, k, s.wal[k].commitId.value); }
  }

  /** The acknowledged regions hold the key, so enough acks mean enough holders. */
  lemma AcksHold(cfg: Config, s: State, p: Proc)
    requires p.pc.Replicating? && ProcInv(cfg, s, p)
    ensures |Acks(p.pc.outcomes)| <= |Holders(s, p.req.key)|
  {
    SubsetCardinality(Acks(p.pc.outcomes), Holders(s, p.req.key));
  }

  /** The process that moved satisfies its new obligation. */
  lemma MovedProcInv(cfg: Config, s: State, step: Step)
    requires Inv(cfg, s) && Enabled(cfg, s, step)
    ensures ProcInv(cfg, Apply(cfg, s, step), Apply(cfg, s, step).procs[step.pid])
  {
    var t := Apply(cfg, s, step);
    StepGrows(cfg, s, step);
    if !step.Call? {
      var p := s.procs[step.pid];
      var k := p.req.key;
      assert ProcInv(cfg, s, p);
      HoldersGrow(s, t, k);
      match step
      case Check(_, ok) =>
        if ok && k in s.wal {
          assert RowInv(cfg, s, k);
          if s.wal[k].committed { RepliedGrows(s, t, k, s.wal[k].commitId.value); }
        }
      case Conclude(_) => AcksHold(cfg, s, p);
      case Post(_, d) =>
        if ReplySeen(d).Some? { assert t.posts[|s.posts|] == PostRecord(step.pid, p.req, d); }
      case Mark(_, _, _) => RepliedGrows(s, t, k, p.pc.id);
      case OrphanWrite(_, _) => ProcInvGrows(cfg, s, t, p);
      case _ =>
    }
  }

  lemma ChangedRowInv(cfg: Config, s: State, step: Step, k: string)
    requires Inv(cfg, s) && Enabled(cfg, s, step) && k in Apply(cfg, s, step).wal
    ensures RowInv(cfg, Apply(cfg, s, step), k)
  {
    var t := Apply(cfg, s, step);
    StepGrows(cfg, s, step);
    if k in s.wal && t.wal[k] == s.wal[k] {
      RowInvGrows(cfg, s, t, k);
    } else if step.Mark? {
      MarkedRowInv(cfg, s, step, k);
    } else {
      assert step.Append?;
    }
  }

  lemma MarkedRowInv(cfg: Config, s: State, step: Step, k: string)
    requires Inv(cfg, s) && Enabled(cfg, s, step) && step.Mark? && k in s.wal
    requires Apply(cfg, s, step).wal[k] != s.wal[k]
    ensures RowInv(cfg, Apply(cfg, s, step), k)
  {
    var t, p := Apply(cfg, s, step), s.procs[step.pid];
    StepGrows(cfg, s, step);
    assert ProcInv(cfg, s, p) && RowInv(cfg, s, k);
    HoldersGrow(s, t, k);
    RepliedGrows(s, t, k, p.pc.id);
  }

  lemma StepWalFirst(cfg: Config, s: State, step: Step)
    requires Inv(cfg, s) && Enabled(cfg, s, step)
    ensures WalFirst(Apply(cfg, s, step))
  {
    var t := Apply(cfg, s, step);
    StepGrows(cfg, s, step);
    if !step.Call? { assert ProcInv(cfg, s, s.procs[step.pid]); }
    match step {
      case Append(_, landed, _) => if landed {} else {}
      case WriteAudit(_, landed, _) => if landed {} else {}
      case WriteRegion(_, _, landed, _) => if landed {} else {}
      case Mark(_, landed, _) => if landed {} else {}
      case _ =>
    }
  }

  lemma StepKeepsInv(cfg: Config, s: State, step: Step)
    requires Inv(cfg, s) && Enabled(cfg, s, step)
    ensures Inv(cfg, Apply(cfg, s, step))
  {
    var t := Apply(cfg, s, step);
    StepGrows(cfg, s, step);
    StepWalFirst(cfg, s, step);
    forall k | k in t.wal ensures RowInv(cfg, t, k) { ChangedRowInv(cfg, s, step, k); }
    forall pid | pid in t.procs ensures ProcInv(cfg, t, t.procs[pid]) {
      if pid == step.pid { MovedProcInv(cfg, s, step); }
      else { ProcInvGrows(cfg, s, t, s.procs[pid]); }
    }
  }

  lemma {:induction false} RunKeepsInv(cfg: Config, s: State, tr: seq<Step>)
    requires Inv(cfg, s) && ValidRun(cfg, s, tr)
    ensures Inv(cfg, Run(cfg, s, tr))
    decreases |tr|
  {
    if tr != [] {
      StepKeepsInv(cfg, s, tr[0]);
      RunKeepsInv(cfg, Apply(cfg, s, tr[0]), tr[1..]);
    }
  }

  lemma ReachableInv(cfg: Config, s: State)
    requires Reachable(cfg, s)
    ensures Inv(cfg, s)
  {
    var tr :| ValidRun(cfg, InitialState(cfg), tr) && Run(cfg, InitialState(cfg), tr) == s;
    RunKeepsInv(cfg, InitialState(cfg), tr);
  }
}
