/** What every run of the write pipeline guarantees, however calls interleave and fail. */
module LedgerTheorems {
  import opened Common
  import opened LedgerProtocol

  predicate CommittedReceipt(s: State, pid: nat) {
    pid in s.procs && s.procs[pid].pc.Returned? && s.procs[pid].pc.receipt.committed
  }

  /** From any reachable state, after any further run:
      nothing written is lost or rewritten, whatever is in a region, the audit log or upstream
      is in the WAL, and a row marked committed was answered by upstream and is held by at
      least `min_acks` distinct regions. */
  lemma NoLoss(cfg: Config, s: State, tr: seq<Step>)
    requires Reachable(cfg, s) && ValidRun(cfg, s, tr)
    ensures Grows(s, Run(cfg, s, tr))
    ensures WalFirst(Run(cfg, s, tr))
    ensures forall k :: k in s.wal && s.wal[k].committed ==>
      var row := Run(cfg, s, tr).wal[k];
      row.committed && row.req == s.wal[k].req && row.commitId.Some?
      && Replied(Run(cfg, s, tr), k, row.commitId.value)
      && |Holders(Run(cfg, s, tr), k)| >= MinAcks(cfg)
  {
    ReachableInv(cfg, s);
    RunKeepsInv(cfg, s, tr);
    RunGrows(cfg, s, tr);
    forall k | k in s.wal ensures RowInv(cfg, Run(cfg, s, tr), k) {}
  }

  /** A receipt with `committed = true` stays true for ever: in every continuation the row is
      committed, upstream had answered the receipt's id, and enough regions hold the key. */
  lemma CommittedReceiptIsDurable(cfg: Config, s: State, tr: seq<Step>, pid: nat)
    requires Reachable(cfg, s) && ValidRun(cfg, s, tr) && CommittedReceipt(s, pid)
    ensures var t := Run(cfg, s, tr);
      var k := s.procs[pid].req.key;
      && k in t.wal && t.wal[k].committed
      && s.procs[pid].pc.receipt.commitId.Some?
      && Replied(t, k, s.procs[pid].pc.receipt.commitId.value)
      && |Holders(t, k)| >= MinAcks(cfg)
  {
    var k := s.procs[pid].req.key;
    ReachableInv(cfg, s);
    RunKeepsInv(cfg, s, tr);
    RunGrows(cfg, s, tr);
    assert ProcInv(cfg, s, s.procs[pid]);
    RepliedGrows(s, Run(cfg, s, tr), k, s.procs[pid].pc.receipt.commitId.value);
    assert RowInv(cfg, Run(cfg, s, tr), k);
  }

  // ---------------------------------------------------------------- receipt agreement

  /** Upstream is idempotent: all its answers for one key carry one id, lost replies included. */
  ghost predicate FixedIds(s: State) {
    forall i, j :: 0 <= i < |s.posts| && 0 <= j < |s.posts|
      && s.posts[i].req.key == s.posts[j].req.key
      && s.posts[i].delivery.Delivered? && s.posts[j].delivery.Delivered?
      && s.posts[i].delivery.id.Some? && s.posts[j].delivery.id.Some?
      ==> s.posts[i].delivery.id == s.posts[j].delivery.id
  }

  lemma RepliedUnique(s: State, k: string, a: string, b: string)
    requires FixedIds(s) && Replied(s, k, a) && Replied(s, k, b)
    ensures a == b
  {
    var i :| 0 <= i < |s.posts| && s.posts[i].req.key == k && ReplySeen(s.posts[i].delivery) == Some(a);
    var j :| 0 <= j < |s.posts| && s.posts[j].req.key == k && ReplySeen(s.posts[j].delivery) == Some(b);
  }

  /** All committed receipts for a key carry the same id, from the forward path or the WAL
      short-circuit alike, although `mark_committed` may overwrite the stored one. */
  lemma ReceiptAgreement(cfg: Config, s: State, p: nat, q: nat)
    requires Reachable(cfg, s) && FixedIds(s)
    requires CommittedReceipt(s, p) && CommittedReceipt(s, q)
    requires s.procs[p].req.key == s.procs[q].req.key
    ensures s.procs[p].pc.receipt == s.procs[q].pc.receipt
    ensures s.procs[p].req.key in s.wal
    ensures s.procs[p].pc.receipt == ReceiptOf(s.wal[s.procs[p].req.key])
  {
    ReachableInv(cfg, s);
    var k := s.procs[p].req.key;
    assert ProcInv(cfg, s, s.procs[p]) && ProcInv(cfg, s, s.procs[q]) && RowInv(cfg, s, k);
    RepliedUnique(s, k, s.procs[p].pc.receipt.commitId.value, s.wal[k].commitId.value);
    RepliedUnique(s, k, s.procs[q].pc.receipt.commitId.value, s.wal[k].commitId.value);
  }
}
