/** What becomes of API keys over whole runs of the registry, restarts and lost writes included
    (crates/open-web-server-gateway/src/keyring.rs). */
module KeyLifetimes {
  import opened Common
  import opened KeyGuardian

  /** `key` is not issued again in the run. */
  predicate NotReissued(es: seq<Event>, key: string) {
    forall i :: 0 <= i < |es| && es[i].Issue? ==> es[i].key != key
  }

  // ---------------------------------------------------------------- dead keys stay dead

  predicate Dead(s: State, h: string) {
    h in s.records ==> s.records[h].revoked
  }

  lemma RevokedIsDead(hash: Hash, cfg: Config, s: State, owner: string, written: bool, h: string)
    requires h in s.records && s.records[h].owner == owner
    ensures Dead(Next(hash, cfg, s, RevokeOwner(owner, written)), h)
  {
    assert h in Victims(s.records, owner) || s.records[h].revoked;
  }

  lemma SeenExpiredIsDead(hash: Hash, cfg: Config, s: State, key: string, now: int, written: bool)
    requires hash(key) in s.records && Expired(s.records[hash(key)], now)
    ensures VerifySpec(hash, cfg, s, key, now, written).1 == Rejected
    ensures Dead(Next(hash, cfg, s, Verify(key, now, written)), hash(key))
  {
  }

  /** The file holds a record of the key that is not revoked. */
  predicate LiveInFile(cfg: Config, s: State, h: string) {
    cfg.fileBacked && h in s.file && !s.file[h].revoked
  }

  /** The event rewrites the file: something was issued, found expired or revoked, and the write
      succeeds. */
  predicate Saves(hash: Hash, cfg: Config, s: State, e: Event) {
    && cfg.fileBacked
    && match e
       case Issue(_, _, written) => written
       case Verify(key, now, written) => written && hash(key) in s.records && Expired(s.records[hash(key)], now)
       case RevokeOwner(owner, written) => written && Victims(s.records, owner) != {}
       case Restart(_) => false
  }

  lemma SavesIff(hash: Hash, cfg: Config, s: State, e: Event)
    ensures var t := Next(hash, cfg, s, e); t.file == if Saves(hash, cfg, s, e) then t.records else s.file
  {
    match e {
      case Verify(_, _, _) =>
      case Issue(_, _, _) =>
      case RevokeOwner(owner, _) => if Victims(s.records, owner) == {} {} else {}
      case Restart(_) =>
    }
  }

  /** No restart reads the file before an event of the run has rewritten it. */
  predicate SavedBeforeRestart(hash: Hash, cfg: Config, s: State, es: seq<Event>)
    decreases |es|
  {
    || es == []
    || Saves(hash, cfg, s, es[0])
    || (!(es[0].Restart? && es[0].readable) && SavedBeforeRestart(hash, cfg, Next(hash, cfg, s, es[0]), es[1..]))
  }

  /** The key is dead in every state of the run. */
  predicate AlwaysDead(hash: Hash, cfg: Config, s: State, es: seq<Event>, h: string)
    decreases |es|
  {
    Dead(s, h) && (es == [] || AlwaysDead(hash, cfg, Next(hash, cfg, s, es[0]), es[1..], h))
  }

  lemma DeadAfter(hash: Hash, cfg: Config, s: State, e: Event, key: string)
    requires Injective(hash) && Dead(s, hash(key)) && (e.Issue? ==> e.key != key)
    ensures var t := Next(hash, cfg, s, e);
      && (Dead(t, hash(key)) <==> !(e.Restart? && e.readable && LiveInFile(cfg, s, hash(key))))
      && (Dead(t, hash(key)) ==>
            (LiveInFile(cfg, t, hash(key)) <==> LiveInFile(cfg, s, hash(key)) && !Saves(hash, cfg, s, e)))
  {
    SavesIff(hash, cfg, s, e);
    match e {
      case Verify(_, _, _) =>
      case Issue(k, _, _) => assert hash(k) != hash(key);
      case RevokeOwner(owner, _) => if Victims(s.records, owner) == {} {} else {}
      case Restart(_) =>
    }
  }

  /** A key that is dead in memory stays dead over a run exactly when the file holds no live
      record of it, or is rewritten before the first restart that reads it. */
  lemma {:induction false} DeadKeysStayDeadIff(hash: Hash, cfg: Config, s: State, es: seq<Event>, key: string)
    requires Injective(hash) && Dead(s, hash(key)) && NotReissued(es, key)
    ensures AlwaysDead(hash, cfg, s, es, hash(key)) <==>
      !LiveInFile(cfg, s, hash(key)) || SavedBeforeRestart(hash, cfg, s, es)
    decreases |es|
  {
    if es != [] {
      var next := Next(hash, cfg, s, es[0]);
      DeadAfter(hash, cfg, s, es[0], key);
      if Dead(next, hash(key)) { DeadKeysStayDeadIff(hash, cfg, next, es[1..], key); }
    }
  }

  /** While a key is dead no request with it is accepted. */
  lemma {:induction false} DeadKeysAreNeverAccepted(hash: Hash, cfg: Config, s: State, es: seq<Event>, key: string)
    requires AlwaysDead(hash, cfg, s, es, hash(key))
    ensures NeverAccepted(hash, cfg, s, es, key)
    decreases |es|
  {
    if es != [] { DeadKeysAreNeverAccepted(hash, cfg, Next(hash, cfg, s, es[0]), es[1..], key); }
  }

  lemma RevocationWritten(hash: Hash, cfg: Config, s: State, owner: string, written: bool, h: string)
    requires h in s.records && s.records[h].owner == owner && !s.records[h].revoked
    ensures var t := Next(hash, cfg, s, RevokeOwner(owner, written));
      Dead(t, h) && (LiveInFile(cfg, t, h) <==> LiveInFile(cfg, s, h) && !written)
  {
    RevokedIsDead(hash, cfg, s, owner, written, h);
    assert h in Victims(s.records, owner);
  }

  /** A revocation that was written is final: the key is never accepted again, whatever writes
      are lost afterwards and however often the process restarts. */
  lemma WrittenRevocationIsFinal(hash: Hash, cfg: Config, s: State, owner: string, es: seq<Event>, key: string)
    requires hash(key) in s.records && s.records[hash(key)].owner == owner && !s.records[hash(key)].revoked
    requires Injective(hash) && NotReissued(es, key)
    ensures NeverAccepted(hash, cfg, Next(hash, cfg, s, RevokeOwner(owner, true)), es, key)
  {
    var t := Next(hash, cfg, s, RevokeOwner(owner, true));
    RevocationWritten(hash, cfg, s, owner, true, hash(key));
    DeadKeysStayDeadIff(hash, cfg, t, es, key);
    DeadKeysAreNeverAccepted(hash, cfg, t, es, key);
  }

  /** In general a revocation holds over a run exactly when it was written, or the file held no
      live record of the key, or is rewritten before the first restart that reads it. */
  lemma RevocationHoldsIff(hash: Hash, cfg: Config, s: State, owner: string, written: bool, es: seq<Event>, key: string)
    requires hash(key) in s.records && s.records[hash(key)].owner == owner && !s.records[hash(key)].revoked
    requires Injective(hash) && NotReissued(es, key)
    ensures var t := Next(hash, cfg, s, RevokeOwner(owner, written));
      AlwaysDead(hash, cfg, t, es, hash(key)) <==>
      written || !LiveInFile(cfg, s, hash(key)) || SavedBeforeRestart(hash, cfg, t, es)
  {
    RevocationWritten(hash, cfg, s, owner, written, hash(key));
    DeadKeysStayDeadIff(hash, cfg, Next(hash, cfg, s, RevokeOwner(owner, written)), es, key);
  }

  /** The next process accepts some request with the key. */
  ghost predicate Resurrected(hash: Hash, cfg: Config, s: State, key: string, readable: bool) {
    exists now: int, written: bool ::
      Accepts(hash, cfg, Next(hash, cfg, s, Restart(readable)), Verify(key, now, written), key)
  }

  /** A restart that reads a live record brings the key back, and no other restart does. */
  lemma RestartResurrectsIff(hash: Hash, cfg: Config, s: State, key: string, readable: bool)
    ensures Resurrected(hash, cfg, s, key, readable) <==> readable && LiveInFile(cfg, s, hash(key))
  {
    var t := Next(hash, cfg, s, Restart(readable));
    if readable && LiveInFile(cfg, s, hash(key)) {
      var r := s.file[hash(key)];
      var now := if r.expiresAt.Some? then r.expiresAt.value - 1 else 0;
      assert UsageOf(t, hash(key)) == NEW_USAGE;
      assert Accepts(hash, cfg, t, Verify(key, now, true), key);
    }
  }

  /** So a restart right after a revocation undoes it exactly when the write was lost. */
  lemma LostWriteResurrects(hash: Hash, cfg: Config, s: State, key: string, written: bool)
    requires hash(key) in s.records && !s.records[hash(key)].revoked && LiveInFile(cfg, s, hash(key))
    ensures var revoked := Next(hash, cfg, s, RevokeOwner(s.records[hash(key)].owner, written));
      Dead(revoked, hash(key)) && (Resurrected(hash, cfg, revoked, key, true) <==> !written)
  {
    var owner := s.records[hash(key)].owner;
    RevocationWritten(hash, cfg, s, owner, written, hash(key));
    RestartResurrectsIff(hash, cfg, Next(hash, cfg, s, RevokeOwner(owner, written)), key, true);
  }

  // ---------------------------------------------------------------- expiry is final

  /** Wherever the record of `h` is kept, it expires at `expiry` or before. */
  predicate ExpiresBy(s: State, h: string, expiry: int) {
    && (h in s.records ==> Expired(s.records[h], expiry))
    && (h in s.file ==> Expired(s.file[h], expiry))
  }

  /** No request with `key` is accepted at or after `expiry`. */
  predicate NeverAcceptedFrom(hash: Hash, cfg: Config, s: State, es: seq<Event>, key: string, expiry: int)
    decreases |es|
  {
    es == [] ||
    (&& (Accepts(hash, cfg, s, es[0], key) ==> es[0].now < expiry)
     && NeverAcceptedFrom(hash, cfg, Next(hash, cfg, s, es[0]), es[1..], key, expiry))
  }

  lemma ExpiryKept(hash: Hash, cfg: Config, s: State, e: Event, key: string, expiry: int)
    requires Injective(hash) && ExpiresBy(s, hash(key), expiry) && (e.Issue? ==> e.key != key)
    ensures ExpiresBy(Next(hash, cfg, s, e), hash(key), expiry)
    ensures Accepts(hash, cfg, s, e, key) ==> e.now < expiry
  {
    match e {
      case Verify(_, _, _) =>
      case Issue(k, _, _) => assert hash(k) != hash(key);
      case RevokeOwner(owner, _) => if Victims(s.records, owner) == {} {} else {}
      case Restart(_) =>
    }
  }

  /** An expired key is never accepted again, seen expired or not, whatever writes were lost and
      however often the process restarts, and even if the clock goes back in between. */
  lemma {:induction false} ExpiryIsFinal(hash: Hash, cfg: Config, s: State, es: seq<Event>, key: string, expiry: int)
    requires Injective(hash) && ExpiresBy(s, hash(key), expiry) && NotReissued(es, key)
    ensures NeverAcceptedFrom(hash, cfg, s, es, key, expiry)
    decreases |es|
  {
    if es != [] {
      ExpiryKept(hash, cfg, s, es[0], key, expiry);
      ExpiryIsFinal(hash, cfg, Next(hash, cfg, s, es[0]), es[1..], key, expiry);
    }
  }

  /** For a key that is new to the registry and the file, issuing it is all that is needed. */
  lemma IssuedKeysExpire(hash: Hash, cfg: Config, s: State, key: string, r: KeyRecord, written: bool, es: seq<Event>)
    requires Injective(hash) && hash(key) !in s.records && hash(key) !in s.file
    requires r.expiresAt.Some? && NotReissued(es, key)
    ensures NeverAcceptedFrom(hash, cfg, Next(hash, cfg, s, Issue(key, r, written)), es, key, r.expiresAt.value)
  {
    ExpiryIsFinal(hash, cfg, Next(hash, cfg, s, Issue(key, r, written)), es, key, r.expiresAt.value);
  }

  predicate TimesFrom(clock: int, es: seq<Event>)
    decreases |es|
  {
    es == [] ||
    if es[0].Verify? then clock <= es[0].now && TimesFrom(es[0].now, es[1..]) else TimesFrom(clock, es[1..])
  }

  /** With a clock that does not go back: once expired, never accepted again. */
  lemma {:induction false} ExpiredKeysStayDead(hash: Hash, cfg: Config, s: State, es: seq<Event>, key: string,
                                               expiry: int, clock: int)
    requires NeverAcceptedFrom(hash, cfg, s, es, key, expiry) && TimesFrom(clock, es) && expiry <= clock
    ensures NeverAccepted(hash, cfg, s, es, key)
    decreases |es|
  {
    if es != [] {
      ExpiredKeysStayDead(hash, cfg, Next(hash, cfg, s, es[0]), es[1..], key, expiry,
                          if es[0].Verify? then es[0].now else clock);
    }
  }

  // ---------------------------------------------------------------- when the registry is empty

  const EMPTY: State := State(map[], map[], map[])

  /** What the events alone say is registered: issuing adds, seeing the expiry removes. */
  function Held(hash: Hash, start: map<string, KeyRecord>, es: seq<Event>): map<string, KeyRecord>
    decreases |es|
  {
    if es == [] then start
    else
      var before, e := Held(hash, start, es[..|es| - 1]), es[|es| - 1];
      if e.Issue? then before[hash(e.key) := e.record]
      else if e.Verify? && hash(e.key) in before && Expired(before[hash(e.key)], e.now) then before - {hash(e.key)}
      else before
  }

  predicate SameExpiries(a: map<string, KeyRecord>, b: map<string, KeyRecord>) {
    a.Keys == b.Keys && forall h :: h in a ==> a[h].expiresAt == b[h].expiresAt
  }

  lemma {:induction false} RunSnoc(hash: Hash, cfg: Config, s: State, es: seq<Event>, e: Event)
    ensures Run(hash, cfg, s, es + [e]) == Next(hash, cfg, Run(hash, cfg, s, es), e)
    decreases |es|
  {
    if es == [] {
      assert [e][1..] == [];
      assert Run(hash, cfg, Next(hash, cfg, s, e), []) == Next(hash, cfg, s, e);
      assert es + [e] == [e];
    } else {
      assert (es + [e])[1..] == es[1..] + [e];
      RunSnoc(hash, cfg, Next(hash, cfg, s, es[0]), es[1..], e);
    }
  }

  lemma NextHeld(hash: Hash, cfg: Config, s: State, held: map<string, KeyRecord>, e: Event)
    requires SameExpiries(s.records, held) && !e.Restart?
    ensures SameExpiries(Next(hash, cfg, s, e).records,
      if e.Issue? then held[hash(e.key) := e.record]
      else if e.Verify? && hash(e.key) in held && Expired(held[hash(e.key)], e.now) then held - {hash(e.key)}
      else held)
  {
    match e {
      case Verify(key, now, written) => if hash(key) in held && Expired(held[hash(key)], now) {} else {}
      case Issue(_, _, _) =>
      case RevokeOwner(owner, _) => if Victims(s.records, owner) == {} {} else {}
    }
  }

  /** Between restarts the registered keys are those that the events say, from any start. */
  lemma {:induction false} RegisteredIsHeld(hash: Hash, cfg: Config, s: State, es: seq<Event>)
    requires NoRestart(es)
    ensures SameExpiries(Run(hash, cfg, s, es).records, Held(hash, s.records, es))
    decreases |es|
  {
    if es != [] {
      var front, e := es[..|es| - 1], es[|es| - 1];
      assert es == front + [e];
      RegisteredIsHeld(hash, cfg, s, front);
      RunSnoc(hash, cfg, s, front, e);
      NextHeld(hash, cfg, Run(hash, cfg, s, front), Held(hash, s.records, front), e);
    }
  }

  predicate IssuedAt(hash: Hash, es: seq<Event>, h: string, i: nat) {
    i < |es| && es[i].Issue? && hash(es[i].key) == h
  }

  /** Event `j` is a request that finds the record `r` of `h` expired. */
  predicate SeesExpired(hash: Hash, es: seq<Event>, h: string, r: KeyRecord, j: nat) {
    j < |es| && FindsExpired(hash, es[j], h, r)
  }

  /** `h` was last issued at `i`, and was not seen expired since. */
  ghost predicate HeldSince(hash: Hash, es: seq<Event>, h: string, i: nat) {
    && IssuedAt(hash, es, h, i)
    && (forall j: nat :: i < j ==> !IssuedAt(hash, es, h, j))
    && (forall j: nat :: i < j ==> !SeesExpired(hash, es, h, es[i].record, j))
  }

  lemma HeldSinceSnoc(hash: Hash, es: seq<Event>, e: Event, h: string, i: nat)
    requires i < |es|
    ensures HeldSince(hash, es + [e], h, i) <==>
      HeldSince(hash, es, h, i) && !(e.Issue? && hash(e.key) == h) && !FindsExpired(hash, e, h, es[i].record)
  {
    var all := es + [e];
    assert forall j: nat :: j < |es| ==> all[j] == es[j];
    if HeldSince(hash, all, h, i) {
      assert !IssuedAt(hash, all, h, |es|) && !SeesExpired(hash, all, h, all[i].record, |es|);
      forall j: nat | i < j ensures !IssuedAt(hash, es, h, j) && !SeesExpired(hash, es, h, es[i].record, j) {
        assert !IssuedAt(hash, all, h, j) && !SeesExpired(hash, all, h, all[i].record, j);
      }
    } else if HeldSince(hash, es, h, i) {
      assert all[|es|] == e && IssuedAt(hash, all, h, i);
      if !(e.Issue? && hash(e.key) == h) && !FindsExpired(hash, e, h, es[i].record) {
        forall j: nat | i < j ensures !IssuedAt(hash, all, h, j) && !SeesExpired(hash, all, h, all[i].record, j) {
          if j < |es| { assert !IssuedAt(hash, es, h, j) && !SeesExpired(hash, es, h, es[i].record, j); }
        }
      }
    }
  }

  /** `e` finds the record `r` of `h` expired. */
  predicate FindsExpired(hash: Hash, e: Event, h: string, r: KeyRecord) {
    e.Verify? && hash(e.key) == h && Expired(r, e.now)
  }

  lemma IssuedLast(hash: Hash, es: seq<Event>, e: Event)
    requires e.Issue?
    ensures HeldSince(hash, es + [e], hash(e.key), |es|)
    ensures forall i: nat :: HeldSince(hash, es + [e], hash(e.key), i) ==> i == |es|
  {
    assert (es + [e])[|es|] == e && IssuedAt(hash, es + [e], hash(e.key), |es|);
  }

  /** The fold, in terms of positions in the event list. */
  lemma {:induction false} HeldIff(hash: Hash, es: seq<Event>, h: string)
    ensures h in Held(hash, map[], es) <==> exists i: nat :: HeldSince(hash, es, h, i)
    ensures forall i: nat :: HeldSince(hash, es, h, i) ==>
      h in Held(hash, map[], es) && Held(hash, map[], es)[h].expiresAt == es[i].record.expiresAt
    decreases |es|
  {
    if es != [] {
      var front, e := es[..|es| - 1], es[|es| - 1];
      assert es == front + [e];
      HeldIff(hash, front, h);
      if e.Issue? && hash(e.key) == h {
        IssuedLast(hash, front, e);
      } else {
        forall i: nat | i < |front|
          ensures HeldSince(hash, es, h, i) <==>
                  HeldSince(hash, front, h, i) && !FindsExpired(hash, e, h, front[i].record)
        {
          HeldSinceSnoc(hash, front, e, h, i);
        }
        assert !IssuedAt(hash, es, h, |front|);
        HeldAfterOther(hash, front, e, h);
      }
    }
  }

  lemma HeldAfterOther(hash: Hash, front: seq<Event>, e: Event, h: string)
    requires !(e.Issue? && hash(e.key) == h)
    requires h in Held(hash, map[], front) <==> exists i: nat :: HeldSince(hash, front, h, i)
    requires forall i: nat :: HeldSince(hash, front, h, i) ==>
      h in Held(hash, map[], front) && Held(hash, map[], front)[h].expiresAt == front[i].record.expiresAt
    ensures var before, after := Held(hash, map[], front), Held(hash, map[], front + [e]);
      && (h in after <==> exists i: nat :: HeldSince(hash, front, h, i) && !FindsExpired(hash, e, h, front[i].record))
      && (h in after ==> h in before && after[h] == before[h])
  {
    assert (front + [e])[..|front|] == front;
  }

  /** The key with hash `h` was seen expired since it was last issued. */
  ghost predicate SeenExpiredSinceIssued(hash: Hash, es: seq<Event>, h: string) {
    exists i: nat, j: nat :: i < j && IssuedAt(hash, es, h, i) && SeesExpired(hash, es, h, es[i].record, j)
      && forall k: nat :: i < k ==> !IssuedAt(hash, es, h, k)
  }

  lemma {:induction false} LastIssue(hash: Hash, es: seq<Event>, h: string, i: nat) returns (k: nat)
    requires IssuedAt(hash, es, h, i)
    ensures IssuedAt(hash, es, h, k) && forall j: nat :: k < j ==> !IssuedAt(hash, es, h, j)
    decreases |es| - i
  {
    if j: nat :| i < j && IssuedAt(hash, es, h, j) { k := LastIssue(hash, es, h, j); } else { k := i; }
  }

  lemma NotHeldIff(hash: Hash, es: seq<Event>, h: string, i: nat)
    requires IssuedAt(hash, es, h, i)
    ensures h !in Held(hash, map[], es) <==> SeenExpiredSinceIssued(hash, es, h)
  {
    var k := LastIssue(hash, es, h, i);
    HeldIff(hash, es, h);
    if h in Held(hash, map[], es) {
      var held: nat :| HeldSince(hash, es, h, held);
      HeldIsNotExpired(hash, es, h, held);
    } else {
      NotHeldIsExpired(hash, es, h, k);
    }
  }

  lemma HeldIsNotExpired(hash: Hash, es: seq<Event>, h: string, k: nat)
    requires HeldSince(hash, es, h, k)
    ensures !SeenExpiredSinceIssued(hash, es, h)
  {
    forall i: nat, j: nat | IssuedAt(hash, es, h, i) && forall l: nat :: i < l ==> !IssuedAt(hash, es, h, l)
      ensures !(i < j && SeesExpired(hash, es, h, es[i].record, j))
    {
      assert i < k ==> !IssuedAt(hash, es, h, k);
      assert k < i ==> !IssuedAt(hash, es, h, i);
    }
  }

  lemma NotHeldIsExpired(hash: Hash, es: seq<Event>, h: string, k: nat)
    requires IssuedAt(hash, es, h, k) && !HeldSince(hash, es, h, k)
    requires forall j: nat :: k < j ==> !IssuedAt(hash, es, h, j)
    ensures SeenExpiredSinceIssued(hash, es, h)
  {
    var j: nat :| k < j && SeesExpired(hash, es, h, es[k].record, j);
  }

  /** Over any run from an empty registry, `RegistryEmpty` is answered exactly when every key
      ever issued was seen expired since it was last issued. */
  lemma RegistryEmptyIff(hash: Hash, cfg: Config, es: seq<Event>, key: string, now: int, written: bool)
    requires NoRestart(es)
    ensures VerifySpec(hash, cfg, Run(hash, cfg, EMPTY, es), key, now, written).1 == RegistryEmpty <==>
      forall i: nat :: i < |es| && es[i].Issue? ==> SeenExpiredSinceIssued(hash, es, hash(es[i].key))
  {
    var held := Held(hash, map[], es);
    RegisteredIsHeld(hash, cfg, EMPTY, es);
    forall i: nat | i < |es| && es[i].Issue?
      ensures hash(es[i].key) !in held <==> SeenExpiredSinceIssued(hash, es, hash(es[i].key))
    {
      NotHeldIff(hash, es, hash(es[i].key), i);
    }
    forall h | h in held ensures exists i: nat :: i < |es| && es[i].Issue? && hash(es[i].key) == h {
      HeldIff(hash, es, h);
      var i: nat :| HeldSince(hash, es, h, i);
      assert IssuedAt(hash, es, h, i);
    }
    assert Run(hash, cfg, EMPTY, es).records == map[] <==> held.Keys == {};
    if held.Keys != {} { var h :| h in held.Keys; }
  }

  /** So it does not mean that no key was issued: one issued and then seen expired is enough. */
  lemma IssuedButEmpty(hash: Hash, cfg: Config, key: string, r: KeyRecord, written: bool, other: string, now: int)
    requires r.expiresAt.Some?
    ensures var es := [Issue(key, r, written), Verify(key, r.expiresAt.value, written)];
      VerifySpec(hash, cfg, Run(hash, cfg, EMPTY, es), other, now, written).1 == RegistryEmpty
  {
    var es := [Issue(key, r, written), Verify(key, r.expiresAt.value, written)];
    assert IssuedAt(hash, es, hash(key), 0) && SeesExpired(hash, es, hash(key), es[0].record, 1);
    assert forall k: nat :: 0 < k ==> !IssuedAt(hash, es, hash(key), k);
    RegistryEmptyIff(hash, cfg, es, other, now, written);
  }

  /** The first answer after a restart: empty exactly when there is no file, it cannot be read, or
      there is nothing in it. */
  lemma RegistryEmptyAfterRestartIff(hash: Hash, cfg: Config, s: State, readable: bool, key: string, now: int,
                                     written: bool)
    ensures VerifySpec(hash, cfg, Next(hash, cfg, s, Restart(readable)), key, now, written).1 == RegistryEmpty <==>
      !cfg.fileBacked || !readable || s.file == map[]
  {
  }
}
