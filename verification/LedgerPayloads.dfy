/** Whether all stores agree on what was requested: with reused keys, without, and when calls for
    one key do not overlap. */
module LedgerPayloads {
  import opened Common
  import opened LedgerProtocol
  import opened LedgerSerial

  /** No two calls use one key for different requests. */
  ghost predicate HonestKeys(s: State) {
    forall p, q :: p in s.procs && q in s.procs && s.procs[p].req.key == s.procs[q].req.key ==>
      s.procs[p].req == s.procs[q].req
  }

  /** Regions and upstream hold, for each key, the very request the WAL holds. */
  ghost predicate PayloadsAgree(s: State) {
    && (forall r, k :: 0 <= r < |s.regions| && k in s.regions[r] && k in s.wal ==> s.regions[r][k] == s.wal[k].req)
    && (forall i :: 0 <= i < |s.posts| && s.posts[i].req.key in s.wal ==>
          s.posts[i].req == s.wal[s.posts[i].req.key].req)
  }

  ghost predicate Called(s: State, req: Request) {
    exists p :: p in s.procs && s.procs[p].req == req
  }

  ghost predicate WalFromCalls(s: State) {
    forall k :: k in s.wal ==> s.wal[k].req.key == k && Called(s, s.wal[k].req)
  }

  ghost predicate RegionsFromCalls(s: State) {
    forall r, k :: 0 <= r < |s.regions| && k in s.regions[r] ==> s.regions[r][k].key == k && Called(s, s.regions[r][k])
  }

  ghost predicate PostsFromCalls(s: State) {
    forall i :: 0 <= i < |s.posts| ==> Called(s, s.posts[i].req)
  }

  /** Every request stored anywhere is the request of some call. */
  ghost predicate RowsFromCalls(s: State) {
    WalFromCalls(s) && RegionsFromCalls(s) && PostsFromCalls(s)
  }

  lemma CalledGrows(s: State, t: State, req: Request)
    requires Grows(s, t) && Called(s, req)
    ensures Called(t, req)
  {
    var p :| p in s.procs && s.procs[p].req == req;
    assert p in t.procs && t.procs[p].req == req;
  }

  /** From `s` to `t` nothing was stored but `req`. */
  ghost predicate StoresOnly(s: State, t: State, req: Request) {
    && (forall k :: k in t.wal ==>
          (k in s.wal && t.wal[k].req == s.wal[k].req) || (k == req.key && t.wal[k].req == req))
    && |t.regions| == |s.regions|
    && (forall r, k :: 0 <= r < |t.regions| && k in t.regions[r] ==>
          (k in s.regions[r] && t.regions[r][k] == s.regions[r][k]) || (k == req.key && t.regions[r][k] == req))
    && (forall i :: 0 <= i < |t.posts| ==> (i < |s.posts| && t.posts[i] == s.posts[i]) || t.posts[i].req == req)
  }

  /** A step stores nothing but the request of the call that takes it. */
  lemma StepStoresOwnRequest(cfg: Config, s: State, step: Step)
    requires Enabled(cfg, s, step)
    ensures var t := Apply(cfg, s, step); StoresOnly(s, t, t.procs[step.pid].req)
  {
    match step {
      case Append(_, landed, _) => if landed {} else {}
      case WriteRegion(_, _, landed, _) => if landed {} else {}
      case Mark(_, landed, _) => if landed {} else {}
      case _ =>
    }
  }

  lemma StepRowsFromCalls(cfg: Config, s: State, step: Step)
    requires Enabled(cfg, s, step) && RowsFromCalls(s)
    ensures RowsFromCalls(Apply(cfg, s, step))
  {
    var t := Apply(cfg, s, step);
    StepGrows(cfg, s, step);
    StepStoresOwnRequest(cfg, s, step);
    forall req | Called(s, req) ensures Called(t, req) { CalledGrows(s, t, req); }
    StoredByCallsStays(s, t, t.procs[step.pid].req);
  }

  lemma StoredByCallsStays(s: State, t: State, req: Request)
    requires RowsFromCalls(s) && StoresOnly(s, t, req)
    requires Called(t, req) && forall q :: Called(s, q) ==> Called(t, q)
    ensures RowsFromCalls(t)
  {
  }

  lemma {:induction false} RunRowsFromCalls(cfg: Config, s: State, tr: seq<Step>)
    requires ValidRun(cfg, s, tr) && RowsFromCalls(s)
    ensures RowsFromCalls(Run(cfg, s, tr))
    decreases |tr|
  {
    if tr != [] {
      StepRowsFromCalls(cfg, s, tr[0]);
      RunRowsFromCalls(cfg, Apply(cfg, s, tr[0]), tr[1..]);
    }
  }

  /** If no key was reused for another request, every store agrees on every payload. */
  lemma HonestKeysAgree(cfg: Config, s: State)
    requires Reachable(cfg, s) && HonestKeys(s)
    ensures PayloadsAgree(s)
  {
    var init := InitialState(cfg);
    var tr :| ValidRun(cfg, init, tr) && Run(cfg, init, tr) == s;
    RunRowsFromCalls(cfg, init, tr);
  }

  /** Two overlapping calls that use a key for different requests: both pass the check and the
      append, where the second inserts nothing, and then the second goes on to the first store
      behind the WAL, a region if there is one and upstream otherwise. */
  function DivergingRun(cfg: Config, first: Request, second: Request): seq<Step> {
    BothCheck(first, second) + (BothAppend() + SecondGoesOn(cfg))
  }

  function BothCheck(first: Request, second: Request): seq<Step> {
    [Call(0, first), Call(1, second), Check(0, true), Check(1, true)]
  }

  function BothAppend(): seq<Step> {
    [Append(0, true, true), Append(1, true, true), WriteAudit(1, false, 0)]
  }

  function SecondGoesOn(cfg: Config): seq<Step> {
    if Total(cfg) > 0 then [WriteRegion(1, 0, true, true)]
    else if cfg.replicator.Some? then [Conclude(1), Post(1, NotDelivered)]
    else [Post(1, NotDelivered)]
  }

  function BothChecked(cfg: Config, first: Request, second: Request): State {
    InitialState(cfg).(procs := map[0 := Proc(first, Checked), 1 := Proc(second, Checked)])
  }

  function BothAppended(cfg: Config, first: Request, second: Request): State {
    InitialState(cfg).(
      wal := map[first.key := Row(first, false, None)],
      procs := map[0 := Proc(first, Appended),
                   1 := Proc(second, if cfg.replicator.Some? then Replicating(map[]) else Forwarding(0))],
      writers := [Writer(0, first.key), Writer(1, second.key)])
  }

  lemma BothCheckRun(cfg: Config, first: Request, second: Request)
    ensures ValidRun(cfg, InitialState(cfg), BothCheck(first, second))
    ensures Run(cfg, InitialState(cfg), BothCheck(first, second)) == BothChecked(cfg, first, second)
  {
    var tr := BothCheck(first, second);
    var s0 := InitialState(cfg);
    var s1 := Apply(cfg, s0, tr[0]);
    var s2 := Apply(cfg, s1, tr[1]);
    var s3 := Apply(cfg, s2, tr[2]);
    var s4 := Apply(cfg, s3, tr[3]);
    assert s4.procs == map[0 := Proc(first, Checked), 1 := Proc(second, Checked)];
    RunStep(cfg, s3, tr, 3);
    RunStep(cfg, s2, tr, 2);
    RunStep(cfg, s1, tr, 1);
    RunStep(cfg, s0, tr, 0);
    assert tr[0..] == tr;
  }

  lemma BothAppendRun(cfg: Config, first: Request, second: Request)
    requires first.key == second.key
    ensures ValidRun(cfg, BothChecked(cfg, first, second), BothAppend())
    ensures Run(cfg, BothChecked(cfg, first, second), BothAppend()) == BothAppended(cfg, first, second)
  {
    var tr := BothAppend();
    var s0 := BothChecked(cfg, first, second);
    var s1 := Apply(cfg, s0, tr[0]);
    var s2 := Apply(cfg, s1, tr[1]);
    var s3 := Apply(cfg, s2, tr[2]);
    assert s1.wal == map[first.key := Row(first, false, None)];
    assert s3.procs == BothAppended(cfg, first, second).procs;
    assert s3 == BothAppended(cfg, first, second);
    RunStep(cfg, s2, tr, 2);
    RunStep(cfg, s1, tr, 1);
    RunStep(cfg, s0, tr, 0);
    assert tr[0..] == tr;
  }

  lemma SecondGoesOnRun(cfg: Config, first: Request, second: Request)
    requires WellFormed(cfg) && first.key == second.key && first != second
    ensures ValidRun(cfg, BothAppended(cfg, first, second), SecondGoesOn(cfg))
    ensures !PayloadsAgree(Run(cfg, BothAppended(cfg, first, second), SecondGoesOn(cfg)))
  {
    var tr, s0 := SecondGoesOn(cfg), BothAppended(cfg, first, second);
    if Total(cfg) > 0 {
      var s1 := Apply(cfg, s0, tr[0]);
      RunOne(cfg, s0, tr[0]);
      assert s1.regions[0][first.key] != s1.wal[first.key].req;
    } else if cfg.replicator.Some? {
      assert AllRegions(cfg) == {} && Acks(map[]) == {};
      var s1 := Apply(cfg, s0, tr[0]);
      var s2 := Apply(cfg, s1, tr[1]);
      RunStep(cfg, s1, tr, 1);
      RunStep(cfg, s0, tr, 0);
      assert tr[0..] == tr;
      assert s2.posts[0].req != s2.wal[first.key].req;
    } else {
      var s1 := Apply(cfg, s0, tr[0]);
      RunOne(cfg, s0, tr[0]);
      assert s1.posts[0].req != s1.wal[first.key].req;
    }
  }

  /** Reusing a key for a different request can make the stores disagree, in every configuration. */
  lemma ReusedKeyDiverges(cfg: Config, first: Request, second: Request)
    requires WellFormed(cfg) && first.key == second.key && first != second
    ensures ValidRun(cfg, InitialState(cfg), DivergingRun(cfg, first, second))
    ensures !PayloadsAgree(Run(cfg, InitialState(cfg), DivergingRun(cfg, first, second)))
    ensures MadeBy(Run(cfg, InitialState(cfg), DivergingRun(cfg, first, second)), {first, second})
  {
    BothCheckRun(cfg, first, second);
    BothAppendRun(cfg, first, second);
    SecondGoesOnRun(cfg, first, second);
    RunConcat(cfg, BothChecked(cfg, first, second), BothAppend(), SecondGoesOn(cfg));
    RunConcat(cfg, InitialState(cfg), BothCheck(first, second), BothAppend() + SecondGoesOn(cfg));
    NoNewCalls(cfg, BothAppended(cfg, first, second), SecondGoesOn(cfg));
  }

  lemma {:induction false} NoNewCalls(cfg: Config, s: State, tr: seq<Step>)
    requires ValidRun(cfg, s, tr) && forall i :: 0 <= i < |tr| ==> !tr[i].Call?
    ensures Run(cfg, s, tr).procs.Keys == s.procs.Keys
    ensures forall p :: p in s.procs ==> Run(cfg, s, tr).procs[p].req == s.procs[p].req
    decreases |tr|
  {
    if tr != [] {
      var t := Apply(cfg, s, tr[0]);
      StepFrame(cfg, s, tr[0]);
      assert t.procs.Keys == s.procs.Keys;
      NoNewCalls(cfg, t, tr[1..]);
    }
  }

  // ---------------------------------------------------------------- exactly when payloads agree

  /** All calls made so far are for requests in `calls`. */
  predicate MadeBy(s: State, calls: set<Request>) {
    forall p :: p in s.procs ==> s.procs[p].req in calls
  }

  predicate OneRequestPerKey(calls: set<Request>) {
    forall a, b :: a in calls && b in calls && a.key == b.key ==> a == b
  }

  /** The stores agree in every state that calls for these requests can lead to, however they
      interleave and fail, exactly when no two of the requests share a key. */
  lemma PayloadsAgreeIff(cfg: Config, calls: set<Request>)
    requires WellFormed(cfg)
    ensures (forall s :: Reachable(cfg, s) && MadeBy(s, calls) ==> PayloadsAgree(s)) <==> OneRequestPerKey(calls)
  {
    if OneRequestPerKey(calls) {
      forall s | Reachable(cfg, s) && MadeBy(s, calls) ensures PayloadsAgree(s) { HonestKeysAgree(cfg, s); }
    } else {
      var first, second :| first in calls && second in calls && first.key == second.key && first != second;
      ReusedKeyDiverges(cfg, first, second);
      var tr := DivergingRun(cfg, first, second);
      assert Reachable(cfg, Run(cfg, InitialState(cfg), tr)) && MadeBy(Run(cfg, InitialState(cfg), tr), calls);
    }
  }

  // ---------------------------------------------------------------- without overlapping calls

  /** The call may still write its request to a region or upstream. */
  predicate MayWrite(pc: Pc) {
    pc.Appended? || pc.Replicating? || pc.Forwarding? || pc.Answered? || (pc.Abandoned? && pc.writing)
  }

  /** A call past the append owns the row: it holds the call's own request. */
  ghost predicate OwnsRow(s: State, p: nat)
    requires p in s.procs
  {
    MayWrite(s.procs[p].pc) ==> s.procs[p].req.key in s.wal && s.wal[s.procs[p].req.key].req == s.procs[p].req
  }

  ghost predicate RowsOwned(s: State) {
    forall p :: p in s.procs ==> OwnsRow(s, p)
  }

  lemma StepKeepsRowsOwned(cfg: Config, s: State, step: Step)
    requires SerialInv(cfg, s) && Enabled(cfg, s, step) && RowsOwned(s)
    ensures RowsOwned(Apply(cfg, s, step))
  {
    var t := Apply(cfg, s, step);
    StepGrows(cfg, s, step);
    StepFrame(cfg, s, step);
    if step.pid in s.procs { assert WriterInv(cfg, s, step.pid) && OwnsRow(s, step.pid); }
    forall p | p in t.procs ensures OwnsRow(t, p) {
      if p != step.pid {
        assert OwnsRow(s, p);
      } else {
        MovedOwnsRow(cfg, s, step);
      }
    }
  }

  lemma MovedOwnsRow(cfg: Config, s: State, step: Step)
    requires Enabled(cfg, s, step) && Grows(s, Apply(cfg, s, step))
    requires step.pid in s.procs ==> WriterInv(cfg, s, step.pid) && OwnsRow(s, step.pid)
    ensures OwnsRow(Apply(cfg, s, step), step.pid)
  {
    match step {
      case Append(_, landed, ok) => if landed {} else {}
      case Post(_, d) => if ReplySeen(d).Some? {} else {}
      case _ =>
    }
  }

  /** `t` stores in a region or upstream nothing that `s` does not, unless `req` is the row of its key. */
  lemma PayloadsCarryOver(s: State, t: State, req: Request)
    requires PayloadsAgree(s) && WalFirst(s) && Grows(s, t) && StoresOnly(s, t, req)
    requires (t.regions == s.regions && t.posts == s.posts) || (req.key in s.wal && s.wal[req.key].req == req)
    ensures PayloadsAgree(t)
  {
    if t.regions == s.regions && t.posts == s.posts {
    } else {
      assert t.wal[req.key].req == req;
    }
  }

  lemma WritersOwnTheirRow(cfg: Config, s: State, step: Step)
    requires Enabled(cfg, s, step) && RowsOwned(s)
    ensures var t := Apply(cfg, s, step); var req := t.procs[step.pid].req;
      (t.regions == s.regions && t.posts == s.posts) || (req.key in s.wal && s.wal[req.key].req == req)
  {
    if step.pid in s.procs { assert OwnsRow(s, step.pid); }
    match step {
      case WriteRegion(_, _, landed, _) => if landed {} else {}
      case OrphanWrite(_, _) =>
      case Post(_, _) =>
      case _ =>
    }
  }

  lemma StepKeepsPayloads(cfg: Config, s: State, step: Step)
    requires Inv(cfg, s) && Enabled(cfg, s, step) && RowsOwned(s) && PayloadsAgree(s)
    ensures PayloadsAgree(Apply(cfg, s, step))
  {
    StepGrows(cfg, s, step);
    StepStoresOwnRequest(cfg, s, step);
    WritersOwnTheirRow(cfg, s, step);
    PayloadsCarryOver(s, Apply(cfg, s, step), Apply(cfg, s, step).procs[step.pid].req);
  }

  lemma {:induction false} SerialRunKeepsPayloads(cfg: Config, s: State, tr: seq<Step>)
    requires SerialInv(cfg, s) && SerialRun(cfg, s, tr) && RowsOwned(s) && PayloadsAgree(s)
    ensures ValidRun(cfg, s, tr) && PayloadsAgree(Run(cfg, s, tr))
    decreases |tr|
  {
    SerialIsValid(cfg, s, tr);
    if tr != [] {
      StepKeepsSerialInv(cfg, s, tr[0]);
      StepKeepsRowsOwned(cfg, s, tr[0]);
      StepKeepsPayloads(cfg, s, tr[0]);
      SerialRunKeepsPayloads(cfg, Apply(cfg, s, tr[0]), tr[1..]);
    }
  }

  /** When calls for one key do not overlap, the stores always agree, whatever keys are reused:
      a later call for a known key is turned away by the check. */
  lemma SerialPayloadsAgree(cfg: Config, tr: seq<Step>)
    requires SerialRun(cfg, InitialState(cfg), tr)
    ensures ValidRun(cfg, InitialState(cfg), tr) && PayloadsAgree(Run(cfg, InitialState(cfg), tr))
  {
    SerialRunKeepsPayloads(cfg, InitialState(cfg), tr);
  }

  /** One step in front of a run that continues with the rest of `tr`. */
  lemma RunStep(cfg: Config, s: State, tr: seq<Step>, i: nat)
    requires i < |tr| && Enabled(cfg, s, tr[i]) && ValidRun(cfg, Apply(cfg, s, tr[i]), tr[i + 1..])
    ensures ValidRun(cfg, s, tr[i..])
    ensures Run(cfg, s, tr[i..]) == Run(cfg, Apply(cfg, s, tr[i]), tr[i + 1..])
  {
    assert tr[i..][0] == tr[i] && tr[i..][1..] == tr[i + 1..];
  }
}
