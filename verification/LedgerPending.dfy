/** When can a pending row still become committed? `commit` returns a pending row to the
    caller as it is and never forwards it again, so only a call that is already past the
    WAL check can finish the row. */
module LedgerPending {
  import opened Common
  import opened LedgerProtocol

  function Refusals(outcomes: map<nat, bool>): set<nat> {
    set r | r in outcomes && !outcomes[r]
  }

  /** A call at `pc` can still get its row committed. */
  predicate Hopeful(cfg: Config, pc: Pc) {
    match pc
    case Checked => true
    case Appended => true
    case Replicating(outcomes) => |Refusals(outcomes)| + MinAcks(cfg) <= Total(cfg)
    case Forwarding(_) => true
    case Answered(_) => true
    case _ => false
  }

  ghost predicate Pending(s: State, k: string) {
    k in s.wal && !s.wal[k].committed
  }

  ghost predicate SomeHope(cfg: Config, s: State, k: string) {
    exists pid :: pid in s.procs && s.procs[pid].req.key == k && Hopeful(cfg, s.procs[pid].pc)
  }

  lemma OutcomesSplit(outcomes: map<nat, bool>)
    ensures |Acks(outcomes)| + |Refusals(outcomes)| == |outcomes.Keys|
  {
    assert Acks(outcomes) + Refusals(outcomes) == outcomes.Keys;
    assert Acks(outcomes) !! Refusals(outcomes);
  }

  lemma RefusalsGrow(outcomes: map<nat, bool>, r: nat, ok: bool)
    requires r !in outcomes
    ensures |Refusals(outcomes)| <= |Refusals(outcomes[r := ok])|
    ensures ok ==> Refusals(outcomes[r := ok]) == Refusals(outcomes)
  {
    SubsetCardinality(Refusals(outcomes), Refusals(outcomes[r := ok]));
  }

  // ---------------------------------------------------------------- no hope: pending for ever

  /** Without hope for `k`, a step of a call on `k` neither marks, forwards nor gives hope. */
  lemma HopelessMove(cfg: Config, s: State, step: Step, k: string)
    requires Pending(s, k) && !SomeHope(cfg, s, k) && Enabled(cfg, s, step)
    requires !step.Call? && s.procs[step.pid].req.key == k
    ensures var t := Apply(cfg, s, step);
      && !Hopeful(cfg, t.procs[step.pid].pc)
      && t.wal == s.wal && t.posts == s.posts
  {
    var pc := s.procs[step.pid].pc;
    assert !Hopeful(cfg, pc);
    match step
    case WriteRegion(_, r, _, ok) => RefusalsGrow(pc.outcomes, r, ok);
    case Conclude(_) => OutcomesSplit(pc.outcomes);
    case _ =>
  }

  lemma HopelessStep(cfg: Config, s: State, step: Step, k: string)
    requires Inv(cfg, s) && Pending(s, k) && !SomeHope(cfg, s, k) && Enabled(cfg, s, step)
    ensures var t := Apply(cfg, s, step);
      && Pending(t, k) && !SomeHope(cfg, t, k)
      && t.posts[..|s.posts|] == s.posts
      && (forall i :: |s.posts| <= i < |t.posts| ==> t.posts[i].req.key != k)
  {
    var t := Apply(cfg, s, step);
    if !step.Call? && s.procs[step.pid].req.key == k {
      HopelessMove(cfg, s, step, k);
    }
    forall pid | pid in t.procs && t.procs[pid].req.key == k ensures !Hopeful(cfg, t.procs[pid].pc) {
      if pid != step.pid { assert pid in s.procs && t.procs[pid] == s.procs[pid]; }
    }
  }

  /** Once every call that passed the check has returned, failed, died or lost too many
      regions, the row stays pending in every continuation, upstream never hears of the key
      again, and every later call is answered `committed = false`. */
  lemma {:induction false} PendingForever(cfg: Config, s: State, tr: seq<Step>, k: string)
    requires Inv(cfg, s) && Pending(s, k) && !SomeHope(cfg, s, k) && ValidRun(cfg, s, tr)
    ensures var t := Run(cfg, s, tr);
      && Pending(t, k)
      && |s.posts| <= |t.posts|
      && (forall i :: |s.posts| <= i < |t.posts| ==> t.posts[i].req.key != k)
      && (forall pid :: pid in t.procs && t.procs[pid].req.key == k && t.procs[pid].pc.Returned? ==>
            !t.procs[pid].pc.receipt.committed)
    decreases |tr|
  {
    if tr == [] {
      assert forall pid :: pid in s.procs && s.procs[pid].pc.Returned? ==> ProcInv(cfg, s, s.procs[pid]);
    } else {
      var next := Apply(cfg, s, tr[0]);
      StepKeepsInv(cfg, s, tr[0]);
      HopelessStep(cfg, s, tr[0], k);
      PendingForever(cfg, next, tr[1..], k);
      RunGrows(cfg, next, tr[1..]);
    }
  }

  // ---------------------------------------------------------------- hope: it can commit

  function Stage(pc: Pc): nat {
    match pc
    case Checked => 5
    case Appended => 4
    case Replicating(_) => 3
    case Forwarding(_) => 2
    case _ => 1
  }

  function Unheard(cfg: Config, pc: Pc): set<nat> {
    if pc.Replicating? then AllRegions(cfg) - pc.outcomes.Keys else {}
  }

  /** The next step of a call that everything goes well for. */
  ghost function LuckyStep(cfg: Config, s: State, pid: nat): Step
    requires pid in s.procs && Hopeful(cfg, s.procs[pid].pc)
  {
    var pc := s.procs[pid].pc;
    match pc
    case Checked => Append(pid, true, true)
    case Appended => WriteAudit(pid, false, 0)
    case Replicating(_) =>
      if Unheard(cfg, pc) == {} then Conclude(pid)
      else (var r :| r in Unheard(cfg, pc); WriteRegion(pid, r, true, true))
    case Forwarding(_) => Post(pid, Delivered(Some("id"), false))
    case Answered(_) => Mark(pid, true, true)
  }

  ghost predicate Advances(cfg: Config, before: Pc, after: Pc) {
    && Hopeful(cfg, after)
    && (Stage(after) < Stage(before) || (Stage(after) == Stage(before) && Unheard(cfg, after) < Unheard(cfg, before)))
  }

  /** The region that is heard from next, or the verdict once all are. */
  lemma LuckyRegion(cfg: Config, s: State, pid: nat)
    requires Inv(cfg, s) && pid in s.procs && s.procs[pid].pc.Replicating? && Hopeful(cfg, s.procs[pid].pc)
    ensures Enabled(cfg, s, LuckyStep(cfg, s, pid))
    ensures Advances(cfg, s.procs[pid].pc, Apply(cfg, s, LuckyStep(cfg, s, pid)).procs[pid].pc)
  {
    var pc := s.procs[pid].pc;
    assert ProcInv(cfg, s, s.procs[pid]);
    assert pc.outcomes.Keys <= AllRegions(cfg);
    if Unheard(cfg, pc) == {} {
      assert pc.outcomes.Keys == AllRegions(cfg);
      OutcomesSplit(pc.outcomes);
      assert Apply(cfg, s, Conclude(pid)).procs[pid].pc == Forwarding(0);
    } else {
      var r := LuckyStep(cfg, s, pid).region;
      var after := Replicating(pc.outcomes[r := true]);
      RefusalsGrow(pc.outcomes, r, true);
      assert Unheard(cfg, after) == Unheard(cfg, pc) - {r};
      assert Apply(cfg, s, LuckyStep(cfg, s, pid)).procs[pid].pc == after;
    }
  }

  lemma LuckyStepAdvances(cfg: Config, s: State, pid: nat)
    requires WellFormed(cfg) && Inv(cfg, s) && pid in s.procs && Hopeful(cfg, s.procs[pid].pc)
    requires !s.procs[pid].pc.Answered?
    ensures Enabled(cfg, s, LuckyStep(cfg, s, pid))
    ensures Advances(cfg, s.procs[pid].pc, Apply(cfg, s, LuckyStep(cfg, s, pid)).procs[pid].pc)
  {
    if s.procs[pid].pc.Replicating? {
      LuckyRegion(cfg, s, pid);
    } else {
      assert Refusals(map[]) == {};
    }
  }

  lemma {:induction false} HopeCommits(cfg: Config, s: State, pid: nat) returns (tr: seq<Step>)
    requires WellFormed(cfg) && Inv(cfg, s) && pid in s.procs && Hopeful(cfg, s.procs[pid].pc)
    ensures ValidRun(cfg, s, tr)
    ensures s.procs[pid].req.key in Run(cfg, s, tr).wal && Run(cfg, s, tr).wal[s.procs[pid].req.key].committed
    decreases Stage(s.procs[pid].pc), Unheard(cfg, s.procs[pid].pc)
  {
    var step := LuckyStep(cfg, s, pid);
    if s.procs[pid].pc.Answered? {
      assert ProcInv(cfg, s, s.procs[pid]);
      tr := [step];
      assert tr[1..] == [];
      assert Run(cfg, Apply(cfg, s, step), []) == Apply(cfg, s, step);
    } else {
      LuckyStepAdvances(cfg, s, pid);
      StepKeepsInv(cfg, s, step);
      var rest := HopeCommits(cfg, Apply(cfg, s, step), pid);
      tr := [step] + rest;
      assert tr[1..] == rest;
    }
  }

  /** A pending row can still be committed by some continuation exactly when some call for its
      key is past the check, alive, and has not been refused by too many regions. */
  lemma CanCommitIff(cfg: Config, s: State, k: string)
    requires WellFormed(cfg) && Reachable(cfg, s) && Pending(s, k)
    ensures (exists tr :: ValidRun(cfg, s, tr) && k in Run(cfg, s, tr).wal && Run(cfg, s, tr).wal[k].committed)
            <==> SomeHope(cfg, s, k)
  {
    ReachableInv(cfg, s);
    if SomeHope(cfg, s, k) {
      var pid :| pid in s.procs && s.procs[pid].req.key == k && Hopeful(cfg, s.procs[pid].pc);
      var tr := HopeCommits(cfg, s, pid);
    } else {
      forall tr | ValidRun(cfg, s, tr) ensures Pending(Run(cfg, s, tr), k) {
        PendingForever(cfg, s, tr, k);
      }
    }
  }
}
