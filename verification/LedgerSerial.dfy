/** Runs in which calls for one key do not overlap (crashes allowed): one writer per key,
    a bounded number of POSTs per key, and an audit log that reconciles exactly. */
module LedgerSerial {
  import opened Common
  import opened AuditLog
  import opened LedgerProtocol

  /** A call for a key starts only when no other call for that key is still live. */
  ghost predicate NoOverlap(s: State, step: Step) {
    step.Call? ==>
      forall p :: p in s.procs && s.procs[p].req.key == step.req.key ==> !Live(s.procs[p].pc)
  }

  ghost predicate SerialRun(cfg: Config, s: State, tr: seq<Step>)
    decreases |tr|
  {
    tr == [] || (Enabled(cfg, s, tr[0]) && NoOverlap(s, tr[0]) && SerialRun(cfg, Apply(cfg, s, tr[0]), tr[1..]))
  }

  lemma {:induction false} SerialIsValid(cfg: Config, s: State, tr: seq<Step>)
    requires SerialRun(cfg, s, tr)
    ensures ValidRun(cfg, s, tr)
    decreases |tr|
  {
    if tr != [] { SerialIsValid(cfg, Apply(cfg, s, tr[0]), tr[1..]); }
  }

  function CountPosts(posts: seq<PostRecord>, k: string): nat {
    if posts == [] then 0
    else CountPosts(posts[..|posts| - 1], k) + if posts[|posts| - 1].req.key == k then 1 else 0
  }

  lemma CountPostsSnoc(posts: seq<PostRecord>, p: PostRecord, k: string)
    ensures CountPosts(posts + [p], k) == CountPosts(posts, k) + if p.req.key == k then 1 else 0
  {
    assert (posts + [p])[..|posts|] == posts;
  }

  lemma CountAuditSnoc(rs: seq<AuditRecord>, r: AuditRecord, k: string)
    ensures Count(rs + [r], k) == Count(rs, k) + if r.key == k then 1 else 0
  {
    assert (rs + [r])[..|rs|] == rs;
  }

  lemma {:induction false} NoPosts(posts: seq<PostRecord>, k: string)
    requires forall i :: 0 <= i < |posts| ==> posts[i].req.key != k
    ensures CountPosts(posts, k) == 0
  {
    if posts != [] { NoPosts(posts[..|posts| - 1], k); }
  }

  /** `forward_with_retry` tries at least once, even with `max_retries = 0`. */
  function MaxAttempts(cfg: Config): nat {
    if cfg.maxRetries == 0 then 1 else cfg.maxRetries
  }

  /** What a call standing at `pc` knows about its own key. */
  ghost predicate WriterInv(cfg: Config, s: State, pid: nat)
    requires pid in s.procs
  {
    var k := s.procs[pid].req.key;
    match s.procs[pid].pc
    case Checked => k !in s.wal
    case Appended =>
      Writer(pid, k) in s.writers && CountPosts(s.posts, k) == 0 && Count(s.audit, k) == 0
    case Replicating(_) => Writer(pid, k) in s.writers && CountPosts(s.posts, k) == 0
    case Forwarding(n) => Writer(pid, k) in s.writers && CountPosts(s.posts, k) == n < MaxAttempts(cfg)
    case Answered(_) => Writer(pid, k) in s.writers
    case _ => true
  }

  ghost predicate OneLiveCall(s: State) {
    forall p, q | p in s.procs && q in s.procs && s.procs[p].req.key == s.procs[q].req.key ::
      Live(s.procs[p].pc) && Live(s.procs[q].pc) ==> p == q
  }

  ghost predicate OneWriter(s: State) {
    forall i, j | 0 <= i < |s.writers| && 0 <= j < |s.writers| ::
      s.writers[i].key == s.writers[j].key ==> i == j
  }

  ghost predicate PostsByWriters(s: State) {
    && (forall w :: w in s.writers ==> w.key in s.wal)
    && (forall i :: 0 <= i < |s.posts| ==> Writer(s.posts[i].pid, s.posts[i].req.key) in s.writers)
  }

  ghost predicate Counts(cfg: Config, s: State) {
    forall k :: CountPosts(s.posts, k) <= MaxAttempts(cfg) && Count(s.audit, k) <= 1
  }

  ghost predicate SerialInv(cfg: Config, s: State) {
    && Inv(cfg, s)
    && OneLiveCall(s)
    && OneWriter(s)
    && PostsByWriters(s)
    && Counts(cfg, s)
    && (forall p :: p in s.procs ==> WriterInv(cfg, s, p))
  }

  lemma FreshKeyUncounted(cfg: Config, s: State, k: string)
    requires Inv(cfg, s) && k !in s.wal
    ensures CountPosts(s.posts, k) == 0 && Count(s.audit, k) == 0
  {
    NoPosts(s.posts, k);
    CountPositive(s.audit, k);
  }

  /** Counting after a step, for every key. */
  lemma CountsAfter(cfg: Config, s: State, step: Step, k: string)
    requires Enabled(cfg, s, step)
    ensures var t := Apply(cfg, s, step);
      && CountPosts(t.posts, k) == CountPosts(s.posts, k) +
           (if step.Post? && s.procs[step.pid].req.key == k then 1 else 0)
      && Count(t.audit, k) == Count(s.audit, k) +
           (if step.WriteAudit? && step.landed && s.procs[step.pid].req.key == k then 1 else 0)
  {
    if step.Post? {
      CountPostsSnoc(s.posts, PostRecord(step.pid, s.procs[step.pid].req, step.delivery), k);
    } else if step.WriteAudit? && step.landed {
      var req := s.procs[step.pid].req;
      CountAuditSnoc(s.audit, AuditRecord(req.key, req.account, req.target, None, step.now), k);
    }
  }

  /** What a step of call `pid` leaves alone. */
  ghost predicate Frame(s: State, t: State, pid: nat) {
    && pid in t.procs
    && (forall p :: p in t.procs <==> p in s.procs || p == pid)
    && (forall p :: p in s.procs && p != pid ==> t.procs[p] == s.procs[p])
    && (pid in s.procs ==> t.procs[pid].req == s.procs[pid].req)
    && (pid in s.procs && Live(t.procs[pid].pc) ==> Live(s.procs[pid].pc))
    && (forall w :: w in s.writers ==> w in t.writers)
    && (forall k :: k in t.wal && k !in s.wal ==>
          k == t.procs[pid].req.key && pid in s.procs && Live(s.procs[pid].pc))
  }

  lemma StepFrame(cfg: Config, s: State, step: Step)
    requires Enabled(cfg, s, step)
    ensures Frame(s, Apply(cfg, s, step), step.pid)
  {
  }

  /** Calls on other keys are not disturbed by a step, and no other call on the same key is live. */
  lemma OtherWriterInv(cfg: Config, s: State, t: State, pid: nat, p: nat)
    requires OneLiveCall(s) && Frame(s, t, pid) && p in s.procs && p != pid
    requires WriterInv(cfg, s, p)
    requires var k := s.procs[p].req.key;
      pid !in s.procs || s.procs[pid].req.key != k || !Live(s.procs[pid].pc)
      ==> CountPosts(t.posts, k) == CountPosts(s.posts, k) && Count(t.audit, k) == Count(s.audit, k)
    ensures WriterInv(cfg, t, p)
  {
  }

  lemma MovedWriterInv(cfg: Config, s: State, step: Step)
    requires Enabled(cfg, s, step)
    requires step.pid in s.procs ==> WriterInv(cfg, s, step.pid)
    requires step.Append? ==>
      var k := s.procs[step.pid].req.key; CountPosts(s.posts, k) == 0 && Count(s.audit, k) == 0
    ensures WriterInv(cfg, Apply(cfg, s, step), step.pid)
  {
    if !step.Call? {
      var t, k := Apply(cfg, s, step), s.procs[step.pid].req.key;
      CountsAfter(cfg, s, step, k);
      if step.Append? && step.ok { assert t.writers[|s.writers|] == Writer(step.pid, k); }
    }
  }

  lemma KeepsOneLiveCall(s: State, t: State, pid: nat)
    requires OneLiveCall(s) && Frame(s, t, pid)
    requires pid !in s.procs ==>
      forall p :: p in s.procs && s.procs[p].req.key == t.procs[pid].req.key ==> !Live(s.procs[p].pc)
    ensures OneLiveCall(t)
  {
  }

  lemma StepKeepsOneWriter(cfg: Config, s: State, step: Step)
    requires SerialInv(cfg, s) && Enabled(cfg, s, step)
    ensures OneWriter(Apply(cfg, s, step))
  {
    if step.Append? && step.ok {
      assert WriterInv(cfg, s, step.pid);
      assert forall i :: 0 <= i < |s.writers| ==> s.writers[i] in s.writers;
    }
  }

  lemma StepKeepsPostsByWriters(cfg: Config, s: State, step: Step)
    requires SerialInv(cfg, s) && Enabled(cfg, s, step)
    ensures PostsByWriters(Apply(cfg, s, step))
  {
    if step.Post? {
      assert WriterInv(cfg, s, step.pid);
    } else {
      PostsUntouched(cfg, s, step);
    }
  }

  lemma PostsUntouched(cfg: Config, s: State, step: Step)
    requires Enabled(cfg, s, step) && !step.Post?
    ensures var t := Apply(cfg, s, step); t.posts == s.posts && s.writers <= t.writers
  {
  }

  lemma StepKeepsCounts(cfg: Config, s: State, step: Step)
    requires SerialInv(cfg, s) && Enabled(cfg, s, step)
    ensures Counts(cfg, Apply(cfg, s, step))
  {
    var t := Apply(cfg, s, step);
    forall k ensures CountPosts(t.posts, k) <= MaxAttempts(cfg) && Count(t.audit, k) <= 1 {
      CountsAfter(cfg, s, step, k);
      if step.pid in s.procs { assert WriterInv(cfg, s, step.pid); }
    }
  }

  lemma CountsUnmoved(cfg: Config, s: State, step: Step, k: string)
    requires Enabled(cfg, s, step)
    requires step.pid !in s.procs || s.procs[step.pid].req.key != k || !Live(s.procs[step.pid].pc)
    ensures var t := Apply(cfg, s, step);
      CountPosts(t.posts, k) == CountPosts(s.posts, k) && Count(t.audit, k) == Count(s.audit, k)
  {
    CountsAfter(cfg, s, step, k);
  }

  lemma StepKeepsOtherWriterInv(cfg: Config, s: State, step: Step, p: nat)
    requires OneLiveCall(s) && Enabled(cfg, s, step) && p in s.procs && p != step.pid
    requires WriterInv(cfg, s, p)
    ensures WriterInv(cfg, Apply(cfg, s, step), p)
  {
    var t, pid, k := Apply(cfg, s, step), step.pid, s.procs[p].req.key;
    StepFrame(cfg, s, step);
    if pid !in s.procs || s.procs[pid].req.key != k || !Live(s.procs[pid].pc) {
      CountsUnmoved(cfg, s, step, k);
    }
    OtherWriterInv(cfg, s, t, pid, p);
  }

  lemma StepKeepsWriterInv(cfg: Config, s: State, step: Step, p: nat)
    requires SerialInv(cfg, s) && Enabled(cfg, s, step) && p in Apply(cfg, s, step).procs
    ensures WriterInv(cfg, Apply(cfg, s, step), p)
  {
    if p in s.procs {
      assert WriterInv(cfg, s, p);
      if p != step.pid {
        StepKeepsOtherWriterInv(cfg, s, step, p);
      } else {
        if step.Append? { FreshKeyUncounted(cfg, s, s.procs[p].req.key); }
        MovedWriterInv(cfg, s, step);
      }
    }
  }

  lemma StepKeepsSerialInv(cfg: Config, s: State, step: Step)
    requires SerialInv(cfg, s) && Enabled(cfg, s, step) && NoOverlap(s, step)
    ensures SerialInv(cfg, Apply(cfg, s, step))
  {
    var t := Apply(cfg, s, step);
    StepKeepsInv(cfg, s, step);
    StepFrame(cfg, s, step);
    KeepsOneLiveCall(s, t, step.pid);
    StepKeepsOneWriter(cfg, s, step);
    StepKeepsPostsByWriters(cfg, s, step);
    StepKeepsCounts(cfg, s, step);
    forall p | p in t.procs ensures WriterInv(cfg, t, p) { StepKeepsWriterInv(cfg, s, step, p); }
  }

  lemma {:induction false} SerialRunKeepsInv(cfg: Config, s: State, tr: seq<Step>)
    requires SerialInv(cfg, s) && SerialRun(cfg, s, tr)
    ensures ValidRun(cfg, s, tr) && SerialInv(cfg, Run(cfg, s, tr))
    decreases |tr|
  {
    SerialIsValid(cfg, s, tr);
    if tr != [] {
      StepKeepsSerialInv(cfg, s, tr[0]);
      SerialRunKeepsInv(cfg, Apply(cfg, s, tr[0]), tr[1..]);
    }
  }

  // ---------------------------------------------------------------- theorems

  /** At most one call per key ever passes the append, only that call forwards, and upstream
      gets at most max(1, max_retries) POSTs for the key over the whole run. */
  lemma OneWriterPerKey(cfg: Config, tr: seq<Step>, k: string)
    requires SerialRun(cfg, InitialState(cfg), tr)
    ensures ValidRun(cfg, InitialState(cfg), tr)
    ensures var t := Run(cfg, InitialState(cfg), tr);
      && OneWriter(t)
      && (forall i, j | 0 <= i < |t.posts| && 0 <= j < |t.posts| ::
            t.posts[i].req.key == t.posts[j].req.key ==> t.posts[i].pid == t.posts[j].pid)
      && CountPosts(t.posts, k) <= MaxAttempts(cfg)
  {
    SerialRunKeepsInv(cfg, InitialState(cfg), tr);
  }

  /** Reconciling the file against the committed keys reports no duplicate, and reports as
      missing exactly the audited keys whose row is still pending. */
  lemma ReconcileIsExact(cfg: Config, c: Codec, tr: seq<Step>, committedKeys: seq<string>)
    requires SerialRun(cfg, InitialState(cfg), tr) && ValidRun(cfg, InitialState(cfg), tr)
    requires Faithful(c)
    requires var t := Run(cfg, InitialState(cfg), tr);
      forall k :: k in committedKeys <==> k in t.wal && t.wal[k].committed
    ensures var t := Run(cfg, InitialState(cfg), tr);
      var records := RecordsOf(c, Lines(EncodeAll(c, t.audit)));
      && Clean(c, Lines(EncodeAll(c, t.audit)))
      && ReportOf(records, committedKeys).duplicateInAuditLog == {}
      && KeysOf(t.audit) <= t.wal.Keys
      && ReportOf(records, committedKeys).missingFromWal == (set k | k in KeysOf(t.audit) && !t.wal[k].committed)
  {
    var t := Run(cfg, InitialState(cfg), tr);
    SerialRunKeepsInv(cfg, InitialState(cfg), tr);
    ScanOfEncoded(c, t.audit);
    forall k | k in KeysOf(t.audit) ensures k in t.wal {
      var r :| r in t.audit && r.key == k;
    }
  }

  // ---------------------------------------------------------------- the audit log misses nothing

  /** Every audit append reached the file. */
  predicate AuditAlwaysLands(tr: seq<Step>) {
    forall i :: 0 <= i < |tr| && tr[i].WriteAudit? ==> tr[i].landed
  }

  ghost predicate AuditCovers(s: State) {
    && (forall i :: 0 <= i < |s.posts| ==> s.posts[i].req.key in KeysOf(s.audit))
    && (forall p :: p in s.procs && (s.procs[p].pc.Replicating? || s.procs[p].pc.Forwarding?) ==>
          s.procs[p].req.key in KeysOf(s.audit))
  }

  lemma StepKeepsAuditCovers(cfg: Config, s: State, step: Step)
    requires Enabled(cfg, s, step) && AuditCovers(s) && (step.WriteAudit? ==> step.landed)
    ensures AuditCovers(Apply(cfg, s, step))
  {
    var t := Apply(cfg, s, step);
    if step.WriteAudit? {
      var added := t.audit[|s.audit|];
      assert added in t.audit;
    }
    assert KeysOf(s.audit) <= KeysOf(t.audit);
  }

  lemma {:induction false} RunKeepsAuditCovers(cfg: Config, s: State, tr: seq<Step>)
    requires ValidRun(cfg, s, tr) && AuditCovers(s) && AuditAlwaysLands(tr)
    ensures AuditCovers(Run(cfg, s, tr))
    decreases |tr|
  {
    if tr != [] {
      StepKeepsAuditCovers(cfg, s, tr[0]);
      RunKeepsAuditCovers(cfg, Apply(cfg, s, tr[0]), tr[1..]);
    }
  }

  /** With audit writes succeeding, overlapping or not: whatever was POSTed upstream and
      whatever the WAL holds as committed has an audit record. */
  lemma AuditMissesNothing(cfg: Config, tr: seq<Step>, k: string)
    requires ValidRun(cfg, InitialState(cfg), tr) && AuditAlwaysLands(tr)
    ensures var t := Run(cfg, InitialState(cfg), tr);
      && (forall i :: 0 <= i < |t.posts| ==> t.posts[i].req.key in KeysOf(t.audit))
      && (k in t.wal && t.wal[k].committed ==> k in KeysOf(t.audit))
  {
    var t := Run(cfg, InitialState(cfg), tr);
    RunKeepsAuditCovers(cfg, InitialState(cfg), tr);
    RunKeepsInv(cfg, InitialState(cfg), tr);
    if k in t.wal && t.wal[k].committed {
      assert RowInv(cfg, t, k);
      var i :| 0 <= i < |t.posts| && t.posts[i].req.key == k;
    }
  }
}
