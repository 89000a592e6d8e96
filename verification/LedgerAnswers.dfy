/** What one call of `commit` answers, read off what happens to its operations. */
module LedgerAnswers {
  import opened Common
  import opened LedgerProtocol
  import opened AuditLog
  import opened Ledger

  /** The reply to the POST is lost, or carries no id. */
  predicate Unanswered(d: Delivery) {
    d.NotDelivered? || d.id.None? || d.replyLost
  }

  /** One of the POSTs that the call may make is answered, the first one so with `id`. */
  ghost predicate AnsweredWith(cfg: Config, env: Env, id: string) {
    exists i: nat ::
      && (i == 0 || i < cfg.maxRetries)
      && env.delivery(i) == Delivered(Some(id), false)
      && forall j: nat :: j < i ==> Unanswered(env.delivery(j))
  }

  /** Replication is off, or enough regions acknowledge. */
  predicate EnoughAcks(cfg: Config, env: Env) {
    cfg.replicator.Some? ==>
      |set r: nat | r < cfg.replicator.value.total && env.region(r) == Fine| >= cfg.replicator.value.minAcks
  }

  lemma SilentIff(delivery: nat -> Delivery, n: nat)
    ensures Silent(delivery, n) <==> forall j: nat :: j < n ==> Unanswered(delivery(j))
  {
    if Silent(delivery, n) {
      forall j: nat | j < n ensures Unanswered(delivery(j)) {
        var d := delivery(j);
        assert d.Delivered? && d.id.Some? && !d.replyLost ==> Heard(d, d.id.value);
      }
    }
  }

  lemma {:induction false} SomeoneIsFirst(delivery: nat -> Delivery, n: nat) returns (i: nat, id: string)
    requires !Silent(delivery, n)
    ensures FirstHeard(delivery, n, i, id)
  {
    if Silent(delivery, n - 1) {
      i := n - 1;
      id :| Heard(delivery(i), id);
    } else {
      i, id := SomeoneIsFirst(delivery, n - 1);
    }
  }

  lemma FirstHeardIff(cfg: Config, env: Env, id: string)
    ensures AnsweredWith(cfg, env, id) <==> exists i: nat :: FirstHeard(env.delivery, Max(1, cfg.maxRetries), i, id)
  {
    var n := Max(1, cfg.maxRetries);
    if AnsweredWith(cfg, env, id) {
      var i: nat :|
        && (i == 0 || i < cfg.maxRetries)
        && env.delivery(i) == Delivered(Some(id), false)
        && forall j: nat :: j < i ==> Unanswered(env.delivery(j));
      SilentIff(env.delivery, i);
      assert FirstHeard(env.delivery, n, i, id);
    }
    forall i: nat | FirstHeard(env.delivery, n, i, id) ensures AnsweredWith(cfg, env, id) {
      SilentIff(env.delivery, i);
    }
  }

  /** The last part: upstream and the mark. */
  lemma DeliversIff(cfg: Config, req: Request, env: Env, s: Stores, r: Result<Receipt, CoreError>, t: Stores,
                    id: string)
    requires Delivers(cfg, req, env, s, r, t)
    ensures r == Ok(Receipt(req.key, true, Some(id))) <==> AnsweredWith(cfg, env, id) && env.mark == Fine
    ensures r.Ok? ==> exists other :: r == Ok(Receipt(req.key, true, Some(other)))
    ensures r == Err(UpstreamCommitFailed) <==> forall other :: !AnsweredWith(cfg, env, other)
    ensures r == Err(Validation) <==> env.mark != Fine && exists other :: AnsweredWith(cfg, env, other)
    ensures r != Err(MultiRegionReplicationFailed)
  {
    var n := Max(1, cfg.maxRetries);
    if Silent(env.delivery, n) {
      forall other ensures !AnsweredWith(cfg, env, other) {
        FirstHeardIff(cfg, env, other);
        forall i: nat ensures !FirstHeard(env.delivery, n, i, other) {
          assert i < n ==> !Heard(env.delivery(i), other);
        }
      }
    } else {
      var k, answer := SomeoneIsFirst(env.delivery, n);
      FirstHeardIff(cfg, env, answer);
      FirstHeardIff(cfg, env, id);
      if AnsweredWith(cfg, env, id) {
        var i: nat :| FirstHeard(env.delivery, n, i, id);
        FirstIsOnly(env.delivery, n, i, id, k, answer);
      }
    }
  }

  /** All goes well up to the regions. */
  predicate ReachesUpstream(cfg: Config, env: Env) {
    env.check && env.append == Fine && EnoughAcks(cfg, env)
  }

  lemma AcknowledgingIff(cfg: Config, env: Env)
    ensures cfg.replicator.Some? ==> (|Acknowledging(env.region, Total(cfg))| >= MinAcks(cfg) <==> EnoughAcks(cfg, env))
  {
    if cfg.replicator.Some? {
      assert Acknowledging(env.region, Total(cfg)) ==
             set r: nat | r < cfg.replicator.value.total && env.region(r) == Fine;
    }
  }

  /** The first call for a key: it gets a committed receipt exactly when all goes well, and
      otherwise the error of the first thing that does not. */
  lemma FirstCallAnswers(cfg: Config, req: Request, env: Env, s: Stores, r: Result<Receipt, CoreError>, t: Stores,
                         id: string)
    requires Answers(cfg, req, env, s, r, t) && req.key !in s.wal
    ensures r == Ok(Receipt(req.key, true, Some(id))) <==>
      ReachesUpstream(cfg, env) && AnsweredWith(cfg, env, id) && env.mark == Fine
    ensures r.Ok? ==> exists other :: r == Ok(Receipt(req.key, true, Some(other)))
    ensures r == Err(MultiRegionReplicationFailed) <==> env.check && env.append == Fine && !EnoughAcks(cfg, env)
    ensures r == Err(UpstreamCommitFailed) <==>
      ReachesUpstream(cfg, env) && forall other :: !AnsweredWith(cfg, env, other)
    ensures r == Err(Validation) <==>
      || !env.check
      || env.append != Fine
      || (EnoughAcks(cfg, env) && env.mark != Fine && exists other :: AnsweredWith(cfg, env, other))
  {
    if env.check && env.append == Fine {
      AcknowledgingIff(cfg, env);
      if EnoughAcks(cfg, env) {
        FinishesIff(cfg, req, env, s.(wal := s.wal[req.key := Row(req, false, None)]), r, t, id);
      }
    }
  }

  lemma FinishesIff(cfg: Config, req: Request, env: Env, s: Stores, r: Result<Receipt, CoreError>, t: Stores,
                    id: string)
    requires Finishes(cfg, req, env, s, r, t) && EnoughAcks(cfg, env)
    ensures r == Ok(Receipt(req.key, true, Some(id))) <==> AnsweredWith(cfg, env, id) && env.mark == Fine
    ensures r.Ok? ==> exists other :: r == Ok(Receipt(req.key, true, Some(other)))
    ensures r == Err(UpstreamCommitFailed) <==> forall other :: !AnsweredWith(cfg, env, other)
    ensures r == Err(Validation) <==> env.mark != Fine && exists other :: AnsweredWith(cfg, env, other)
    ensures r != Err(MultiRegionReplicationFailed)
  {
    AcknowledgingIff(cfg, env);
    var record := AuditRecord(req.key, req.account, req.target, None, env.now);
    var audited := if cfg.auditEnabled && env.audit then s.(audit := s.audit + [record]) else s;
    DeliversIff(cfg, req, env, if cfg.replicator.None? then audited else audited.(regions := t.regions), r, t, id);
  }

  lemma SentIsOwn(before: seq<PostRecord>, after: seq<PostRecord>, req: Request, delivery: nat -> Delivery, n: nat)
    requires Sent(before, after, req, delivery, n)
    ensures before <= after && forall i :: |before| <= i < |after| ==> after[i].req == req
  {
  }

  /** And what it leaves behind when it is answered with a committed receipt: the row is
      committed with that id, every region whose write had an effect holds the key, and the audit
      file has one record more exactly if it is on and could be written. */
  lemma FirstCallStores(cfg: Config, req: Request, env: Env, s: Stores, r: Result<Receipt, CoreError>, t: Stores,
                        id: string)
    requires Answers(cfg, req, env, s, r, t) && req.key !in s.wal
    requires r == Ok(Receipt(req.key, true, Some(id)))
    ensures t.wal == s.wal[req.key := Row(req, true, Some(id))]
    ensures t.audit == s.audit +
      if cfg.auditEnabled && env.audit then [AuditRecord(req.key, req.account, req.target, None, env.now)] else []
    ensures cfg.replicator.None? ==> t.regions == s.regions
    ensures cfg.replicator.Some? ==> |t.regions| == |s.regions| && forall n: nat :: n < |s.regions| ==>
      t.regions[n] == if env.region(n).NoEffect? || req.key in s.regions[n] then s.regions[n]
                      else s.regions[n][req.key := req]
    ensures s.posts <= t.posts && forall i :: |s.posts| <= i < |t.posts| ==> t.posts[i].req == req
  {
    FirstCallAnswers(cfg, req, env, s, r, t, id);
    FirstHeardIff(cfg, env, id);
    assert s.audit + [] == s.audit;
    var i: nat :| FirstHeard(env.delivery, Max(1, cfg.maxRetries), i, id);
    assert Sent(s.posts, t.posts, req, env.delivery, i + 1);
    SentIsOwn(s.posts, t.posts, req, env.delivery, i + 1);
  }

  /** A call for a key the WAL knows only reads: it is answered with the row as it stands. */
  lemma LaterCallAnswers(cfg: Config, req: Request, env: Env, s: Stores, r: Result<Receipt, CoreError>, t: Stores)
    requires Answers(cfg, req, env, s, r, t) && req.key in s.wal && s.wal[req.key].req.key == req.key
    ensures t == s
    ensures r == if env.check then Ok(Receipt(req.key, s.wal[req.key].committed, s.wal[req.key].commitId))
                 else Err(Validation)
  {
  }
}
