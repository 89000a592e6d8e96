/** The bounded tables of the two-factor store cannot be told from tables that never evict: over
    whole runs every answer of the store is the same. */
module TwoFactorTables {
  import opened Common
  import opened Totp
  import opened TwoFactor
  import opened TwoFactorTheorems
  import Lockout
  import OtpWindow

  /** The step of a store whose failure table never evicts and whose request table keeps all. */
  function NextFull(totp: Matcher, u: Store, e: Event): Store {
    if Answer(totp, u, e) == Some(Invalid) then
      Next(totp, u, e).(failures := Lockout.CountIn(u.failures, e.owner, e.now))
    else if e.RequestOtp? then
      u.(otpRequests := OtpWindow.AllowKeepingAll(u.otpRequests, OtpWindow.Key(e.owner, e.ip), e.now).0)
    else Next(totp, u, e)
  }

  datatype Response = Nothing | Checked(check: LoginCheck) | Flag(ok: bool)

  /** What the caller of each operation is told. */
  function ResponseTo(totp: Matcher, s: Store, e: Event): Response {
    match e
    case Login(_, _, _, _, _) => Checked(Answer(totp, s, e).value)
    case Override(_, _, _, _) => Checked(Answer(totp, s, e).value)
    case Confirm(owner, code, now, written) => Flag(ConfirmSpec(totp, s, owner, code, now, written).1)
    case Enroll(owner, enrollment, written) => Flag(EnrollSpec(s, owner, enrollment, written).1)
    case ResetOwner(owner, written) => Flag(ResetSpec(s, owner, written).1)
    case RequestOtp(owner, ip, now) => Flag(AllowSpec(s, owner, ip, now).1)
    case _ => Nothing
  }

  function ResponseFull(totp: Matcher, u: Store, e: Event): Response {
    if e.RequestOtp? then Flag(OtpWindow.AllowKeepingAll(u.otpRequests, OtpWindow.Key(e.owner, e.ip), e.now).1)
    else ResponseTo(totp, u, e)
  }

  function Responses(totp: Matcher, s: Store, es: seq<Event>): seq<Response>
    decreases |es|
  {
    if es == [] then [] else [ResponseTo(totp, s, es[0])] + Responses(totp, Next(totp, s, es[0]), es[1..])
  }

  function ResponsesFull(totp: Matcher, u: Store, es: seq<Event>): seq<Response>
    decreases |es|
  {
    if es == [] then [] else [ResponseFull(totp, u, es[0])] + ResponsesFull(totp, NextFull(totp, u, es[0]), es[1..])
  }

  function ClockAfter(clock: int, e: Event): int {
    if Attempt(e) || e.RequestOtp? then e.now else clock
  }

  /** The time of attempts and requests does not go back, and no full table is cleared. */
  predicate Orderly(totp: Matcher, s: Store, clock: int, es: seq<Event>)
    decreases |es|
  {
    es == [] ||
    (&& clock <= ClockAfter(clock, es[0])
     && (Answer(totp, s, es[0]) == Some(Invalid) ==> !Lockout.ClearFires(s.failures, es[0].now))
     && (es[0].RequestOtp? ==> !OtpWindow.ClearFires(s.otpRequests, es[0].now))
     && Orderly(totp, Next(totp, s, es[0]), ClockAfter(clock, es[0]), es[1..]))
  }

  predicate SameButTables(s: Store, u: Store) {
    u == s.(failures := u.failures, otpRequests := u.otpRequests)
  }

  ghost predicate Related(s: Store, u: Store, clock: int) {
    && SameButTables(s, u)
    && Lockout.Refines(s.failures, u.failures, clock)
    && OtpWindow.RemembersAll(s.otpRequests, u.otpRequests, clock)
  }

  /** A dropped entry is not locked. */
  lemma SameLocks(s: Store, u: Store, clock: int, owner: string, now: int)
    requires Related(s, u, clock) && clock <= now
    ensures Lockout.IsLocked(s.failures, owner, now) == Lockout.IsLocked(u.failures, owner, now)
  {
  }

  lemma LoginAlike(totp: Matcher, s: Store, u: Store, owner: string, emailCode: ByteString, code: Option<nat>,
                   now: int, written: bool)
    requires SameButTables(s, u)
    requires Lockout.IsLocked(s.failures, owner, now) == Lockout.IsLocked(u.failures, owner, now)
    ensures var (t, check), (v, checkU) := LoginSpec(totp, s, owner, emailCode, code, now, written),
                                           LoginSpec(totp, u, owner, emailCode, code, now, written);
      check == checkU && SameButTables(t, v)
  {
    var step := ConsumableStep(totp, s, owner, code, now);
    assert step == ConsumableStep(totp, u, owner, code, now);
    assert EmailOtpMatches(s, owner, emailCode, now) == EmailOtpMatches(u, owner, emailCode, now);
    if Lockout.IsLocked(s.failures, owner, now) {
    } else if EmailOtpMatches(s, owner, emailCode, now) && step.Some? {
      AcceptAlike(s.(challenges := s.challenges - {owner}), u.(challenges := u.challenges - {owner}),
                  owner, step.value, written);
    } else {
    }
  }

  lemma OverrideAlike(totp: Matcher, s: Store, u: Store, owner: string, code: Option<nat>, now: int, written: bool)
    requires SameButTables(s, u)
    requires Lockout.IsLocked(s.failures, owner, now) == Lockout.IsLocked(u.failures, owner, now)
    ensures var (t, check), (v, checkU) := OverrideSpec(totp, s, owner, code, now, written),
                                           OverrideSpec(totp, u, owner, code, now, written);
      check == checkU && SameButTables(t, v)
  {
    var step := ConsumableStep(totp, s, owner, code, now);
    assert step == ConsumableStep(totp, u, owner, code, now);
    if Lockout.IsLocked(s.failures, owner, now) {
    } else if step.Some? {
      AcceptAlike(s, u, owner, step.value, written);
    } else {
    }
  }

  lemma TablesLater(s: Store, u: Store, clock: int, now: int)
    requires Related(s, u, clock) && clock <= now
    ensures Related(s, u, now)
  {
    forall key ensures OtpWindow.Remembers(s.otpRequests, now, key, OtpWindow.Lookup(u.otpRequests, key)) {
      OtpWindow.RemembersLater(s.otpRequests, clock, now, key, OtpWindow.Lookup(u.otpRequests, key));
    }
  }

  /** What an attempt does to the two tables, given its answer. */
  ghost predicate AttemptTables(s: Store, t: Store, check: LoginCheck, owner: string, failures: Lockout.Table) {
    && t.otpRequests == s.otpRequests
    && t.failures == (if check == Locked then s.failures
                      else if check == Success then s.failures - {owner} else failures)
  }

  lemma AttemptTablesRelated(s: Store, u: Store, t: Store, v: Store, clock: int, check: LoginCheck, owner: string,
                             now: int)
    requires Related(s, u, clock) && clock <= now && SameButTables(t, v)
    requires check == Invalid ==> !Lockout.ClearFires(s.failures, now)
    requires AttemptTables(s, t, check, owner, Lockout.RecordFailure(s.failures, owner, now))
    requires AttemptTables(u, v, check, owner, Lockout.CountIn(u.failures, owner, now))
    ensures Related(t, v, now)
  {
    TablesLater(s, u, clock, now);
    if check == Invalid {
      Lockout.StepRefines(s.failures, u.failures, now, Lockout.Fail(owner, now));
    } else if check == Success {
      Lockout.StepRefines(s.failures, u.failures, now, Lockout.Forget(owner));
    }
  }

  lemma TablesOfAttempt(s: Store, t: Store, check: LoginCheck, owner: string, now: int)
    requires AttemptTables(s, t, check, owner, Lockout.RecordFailure(s.failures, owner, now))
    ensures var full := Lockout.CountIn(s.failures, owner, now);
      AttemptTables(s, if check == Invalid then t.(failures := full) else t, check, owner, full)
  {
  }

  lemma LoginTables(totp: Matcher, s: Store, e: Event)
    requires e.Login?
    ensures var check := Answer(totp, s, e).value;
      && AttemptTables(s, Next(totp, s, e), check, e.owner, Lockout.RecordFailure(s.failures, e.owner, e.now))
      && AttemptTables(s, NextFull(totp, s, e), check, e.owner, Lockout.CountIn(s.failures, e.owner, e.now))
  {
    var (t, check) := LoginSpec(totp, s, e.owner, e.emailCode, e.code, e.now, e.written);
    LoginCases(totp, s, e.owner, e.emailCode, e.code, e.now, e.written);
    assert Next(totp, s, e) == t && Answer(totp, s, e) == Some(check);
    TablesOfAttempt(s, t, check, e.owner, e.now);
  }

  lemma LoginNextAlike(totp: Matcher, s: Store, u: Store, e: Event)
    requires e.Login? && SameButTables(s, u)
    requires Lockout.IsLocked(s.failures, e.owner, e.now) == Lockout.IsLocked(u.failures, e.owner, e.now)
    ensures Answer(totp, s, e) == Answer(totp, u, e) && SameButTables(Next(totp, s, e), NextFull(totp, u, e))
  {
    LoginAlike(totp, s, u, e.owner, e.emailCode, e.code, e.now, e.written);
    assert Next(totp, s, e) == LoginSpec(totp, s, e.owner, e.emailCode, e.code, e.now, e.written).0;
    assert Next(totp, u, e) == LoginSpec(totp, u, e.owner, e.emailCode, e.code, e.now, e.written).0;
  }

  lemma LoginRelated(totp: Matcher, s: Store, u: Store, clock: int, e: Event)
    requires e.Login? && Related(s, u, clock) && clock <= e.now
    requires Answer(totp, s, e) == Some(Invalid) ==> !Lockout.ClearFires(s.failures, e.now)
    ensures ResponseTo(totp, s, e) == ResponseFull(totp, u, e)
    ensures Related(Next(totp, s, e), NextFull(totp, u, e), e.now)
  {
    SameLocks(s, u, clock, e.owner, e.now);
    LoginNextAlike(totp, s, u, e);
    LoginTables(totp, s, e);
    LoginTables(totp, u, e);
    AttemptTablesRelated(s, u, Next(totp, s, e), NextFull(totp, u, e), clock, Answer(totp, s, e).value, e.owner, e.now);
  }

  lemma OverrideTables(totp: Matcher, s: Store, e: Event)
    requires e.Override?
    ensures var check := Answer(totp, s, e).value;
      && AttemptTables(s, Next(totp, s, e), check, e.owner, Lockout.RecordFailure(s.failures, e.owner, e.now))
      && AttemptTables(s, NextFull(totp, s, e), check, e.owner, Lockout.CountIn(s.failures, e.owner, e.now))
  {
    var (t, check) := OverrideSpec(totp, s, e.owner, e.code, e.now, e.written);
    OverrideCases(totp, s, e.owner, e.code, e.now, e.written);
    assert Next(totp, s, e) == t && Answer(totp, s, e) == Some(check);
    TablesOfAttempt(s, t, check, e.owner, e.now);
  }

  lemma OverrideNextAlike(totp: Matcher, s: Store, u: Store, e: Event)
    requires e.Override? && SameButTables(s, u)
    requires Lockout.IsLocked(s.failures, e.owner, e.now) == Lockout.IsLocked(u.failures, e.owner, e.now)
    ensures Answer(totp, s, e) == Answer(totp, u, e) && SameButTables(Next(totp, s, e), NextFull(totp, u, e))
  {
    OverrideAlike(totp, s, u, e.owner, e.code, e.now, e.written);
    assert Next(totp, s, e) == OverrideSpec(totp, s, e.owner, e.code, e.now, e.written).0;
    assert Next(totp, u, e) == OverrideSpec(totp, u, e.owner, e.code, e.now, e.written).0;
  }

  lemma OverrideRelated(totp: Matcher, s: Store, u: Store, clock: int, e: Event)
    requires e.Override? && Related(s, u, clock) && clock <= e.now
    requires Answer(totp, s, e) == Some(Invalid) ==> !Lockout.ClearFires(s.failures, e.now)
    ensures ResponseTo(totp, s, e) == ResponseFull(totp, u, e)
    ensures Related(Next(totp, s, e), NextFull(totp, u, e), e.now)
  {
    SameLocks(s, u, clock, e.owner, e.now);
    OverrideNextAlike(totp, s, u, e);
    OverrideTables(totp, s, e);
    OverrideTables(totp, u, e);
    AttemptTablesRelated(s, u, Next(totp, s, e), NextFull(totp, u, e), clock, Answer(totp, s, e).value, e.owner, e.now);
  }

  lemma ConfirmRelated(totp: Matcher, s: Store, u: Store, clock: int, e: Event)
    requires e.Confirm? && Related(s, u, clock)
    ensures ResponseTo(totp, s, e) == ResponseFull(totp, u, e)
    ensures Related(Next(totp, s, e), NextFull(totp, u, e), clock)
  {
    var step := ConfirmStep(totp, s, e.owner, e.code, e.now);
    assert step == ConfirmStep(totp, u, e.owner, e.code, e.now);
    if step.Some? { AcceptAlike(s, u, e.owner, step.value, e.written); }
    ConfirmCases(totp, s, e.owner, e.code, e.now, e.written);
    ConfirmCases(totp, u, e.owner, e.code, e.now, e.written);
    UnmovedTablesRelated(s, u, Next(totp, s, e), NextFull(totp, u, e), clock);
  }

  lemma AcceptAlike(s: Store, u: Store, owner: string, step: int, written: bool)
    requires SameButTables(s, u) && owner in s.enrollments
    ensures SameButTables(AcceptStep(s, owner, step, written), AcceptStep(u, owner, step, written))
  {
    var m := s.enrollments[owner := s.enrollments[owner].(confirmed := true, lastUsedStep := Some(step))];
    PersistAlike(s.(enrollments := m), u.(enrollments := m), written);
  }

  lemma EnrollRelated(totp: Matcher, s: Store, u: Store, clock: int, e: Event)
    requires e.Enroll? && Related(s, u, clock)
    ensures ResponseTo(totp, s, e) == ResponseFull(totp, u, e)
    ensures Related(Next(totp, s, e), NextFull(totp, u, e), clock)
  {
    var enrolled := e.enrollment.(confirmed := false, lastUsedStep := None);
    EnrollAlike(s, u, e.owner, enrolled, e.written);
    EnrollCases(s, e.owner, enrolled, e.written);
    EnrollCases(u, e.owner, enrolled, e.written);
    UnmovedTablesRelated(s, u, Next(totp, s, e), NextFull(totp, u, e), clock);
  }

  lemma PersistAlike(s: Store, u: Store, written: bool)
    requires SameButTables(s, u)
    ensures SameButTables(Persist(s, written), Persist(u, written))
  {
  }

  lemma EnrollAlike(s: Store, u: Store, owner: string, enrollment: Enrollment, written: bool)
    requires SameButTables(s, u)
    ensures SameButTables(EnrollSpec(s, owner, enrollment, written).0, EnrollSpec(u, owner, enrollment, written).0)
    ensures EnrollSpec(s, owner, enrollment, written).1 == EnrollSpec(u, owner, enrollment, written).1
  {
    var m := s.enrollments[owner := enrollment];
    PersistAlike(s.(enrollments := m), u.(enrollments := m), written);
  }

  lemma ResetAlike(s: Store, u: Store, owner: string, written: bool)
    requires SameButTables(s, u)
    ensures var t, v := ResetSpec(s, owner, written).0, ResetSpec(u, owner, written).0;
      v == t.(failures := v.failures, otpRequests := v.otpRequests)
    ensures ResetSpec(s, owner, written).1 == ResetSpec(u, owner, written).1
  {
    var m := s.enrollments - {owner};
    PersistAlike(s.(enrollments := m), u.(enrollments := m), written);
  }

  lemma UnmovedTablesRelated(s: Store, u: Store, t: Store, v: Store, clock: int)
    requires Related(s, u, clock) && SameButTables(t, v)
    requires t.failures == s.failures && t.otpRequests == s.otpRequests
    requires v.failures == u.failures && v.otpRequests == u.otpRequests
    ensures Related(t, v, clock)
  {
  }

  lemma ResetRelated(totp: Matcher, s: Store, u: Store, clock: int, e: Event)
    requires e.ResetOwner? && Related(s, u, clock)
    ensures ResponseTo(totp, s, e) == ResponseFull(totp, u, e)
    ensures Related(Next(totp, s, e), NextFull(totp, u, e), clock)
  {
    ResetCases(s, e.owner, e.written);
    ResetCases(u, e.owner, e.written);
    ResetAlike(s, u, e.owner, e.written);
    ForgottenRelated(s, u, Next(totp, s, e), NextFull(totp, u, e), clock, e.owner);
  }

  lemma ForgottenRelated(s: Store, u: Store, t: Store, v: Store, clock: int, owner: string)
    requires Related(s, u, clock) && SameButTables(t, v)
    requires t.failures == s.failures - {owner} && t.otpRequests == s.otpRequests
    requires v.failures == u.failures - {owner} && v.otpRequests == u.otpRequests
    ensures Related(t, v, clock)
  {
    Lockout.StepRefines(s.failures, u.failures, clock, Lockout.Forget(owner));
  }

  lemma StepRelated(totp: Matcher, s: Store, u: Store, clock: int, e: Event)
    requires Related(s, u, clock) && clock <= ClockAfter(clock, e)
    requires Answer(totp, s, e) == Some(Invalid) ==> !Lockout.ClearFires(s.failures, e.now)
    requires e.RequestOtp? ==> !OtpWindow.ClearFires(s.otpRequests, e.now)
    ensures ResponseTo(totp, s, e) == ResponseFull(totp, u, e)
    ensures Related(Next(totp, s, e), NextFull(totp, u, e), ClockAfter(clock, e))
  {
    match e {
      case Login(_, _, _, _, _) => LoginRelated(totp, s, u, clock, e);
      case Override(_, _, _, _) => OverrideRelated(totp, s, u, clock, e);
      case Confirm(_, _, _, _) => ConfirmRelated(totp, s, u, clock, e);
      case Enroll(_, _, _) => EnrollRelated(totp, s, u, clock, e);
      case ResetOwner(_, _) => ResetRelated(totp, s, u, clock, e);
      case IssueOtp(_, _, _) =>
      case RequestOtp(owner, ip, now) =>
        TablesLater(s, u, clock, now);
        OtpWindow.RequestRemembersAll(s.otpRequests, u.otpRequests, clock, OtpWindow.Key(owner, ip), now);
      case Restart(_) =>
    }
  }

  lemma {:induction false} RunRelated(totp: Matcher, s: Store, u: Store, clock: int, es: seq<Event>)
    requires Related(s, u, clock) && Orderly(totp, s, clock, es)
    ensures Responses(totp, s, es) == ResponsesFull(totp, u, es)
    decreases |es|
  {
    if es != [] {
      StepRelated(totp, s, u, clock, es[0]);
      RunRelated(totp, Next(totp, s, es[0]), NextFull(totp, u, es[0]), ClockAfter(clock, es[0]), es[1..]);
    }
  }

  /** Starting from the same store, every orderly list of events gets the same responses whether
      or not the tables are bounded. */
  lemma BoundedTablesAreInvisible(totp: Matcher, s: Store, clock: int, es: seq<Event>)
    requires Orderly(totp, s, clock, es)
    ensures Responses(totp, s, es) == ResponsesFull(totp, s, es)
  {
    RunRelated(totp, s, s, clock, es);
  }
}
