/** What whole histories of the two-factor store guarantee. */
module TwoFactorTheorems {
  import opened Common
  import opened Windows
  import opened Lockout
  import opened Totp
  import opened TwoFactor
  import OtpWindow

  datatype Event =
    | Login(owner: string, emailCode: ByteString, code: Option<nat>, now: int, written: bool)
    | Override(owner: string, code: Option<nat>, now: int, written: bool)
    | Confirm(owner: string, code: Option<nat>, now: int, written: bool)
    | Enroll(owner: string, enrollment: Enrollment, written: bool)
    | ResetOwner(owner: string, written: bool)
    | IssueOtp(owner: string, otp: ByteString, now: int)
    | RequestOtp(owner: string, ip: string, now: int)
    | Restart(readable: bool)

  predicate NoRestart(es: seq<Event>) {
    forall i :: 0 <= i < |es| ==> !es[i].Restart?
  }

  function Next(totp: Matcher, s: Store, e: Event): Store {
    match e
    case Login(owner, emailCode, code, now, written) => LoginSpec(totp, s, owner, emailCode, code, now, written).0
    case Override(owner, code, now, written) => OverrideSpec(totp, s, owner, code, now, written).0
    case Confirm(owner, code, now, written) => ConfirmSpec(totp, s, owner, code, now, written).0
    case Enroll(owner, enrollment, written) =>
      EnrollSpec(s, owner, enrollment.(confirmed := false, lastUsedStep := None), written).0
    case ResetOwner(owner, written) => ResetSpec(s, owner, written).0
    case IssueOtp(owner, otp, now) => IssueSpec(s, owner, otp, now)
    case RequestOtp(owner, ip, now) => AllowSpec(s, owner, ip, now).0
    case Restart(readable) => RestartSpec(s, readable)
  }

  function Run(totp: Matcher, s: Store, es: seq<Event>): Store
    decreases |es|
  {
    if es == [] then s else Run(totp, Next(totp, s, es[0]), es[1..])
  }

  /** The answer to a login or override attempt. */
  function Answer(totp: Matcher, s: Store, e: Event): Option<LoginCheck> {
    match e
    case Login(owner, emailCode, code, now, written) => Some(LoginSpec(totp, s, owner, emailCode, code, now, written).1)
    case Override(owner, code, now, written) => Some(OverrideSpec(totp, s, owner, code, now, written).1)
    case _ => None
  }

  /** The three outcomes of a login, with all they change. */
  lemma LoginCases(totp: Matcher, s: Store, owner: string, emailCode: ByteString, code: Option<nat>, now: int,
                   written: bool)
    ensures var (t, check) := LoginSpec(totp, s, owner, emailCode, code, now, written);
      && t.otpRequests == s.otpRequests && t.overrides == s.overrides
      && (check == Locked <==> IsLocked(s.failures, owner, now))
      && (check == Locked ==> t == s)
      && (check != Locked ==> t.challenges == s.challenges - {owner})
      && (check == Success ==> EmailOtpMatches(s, owner, emailCode, now) && t.failures == s.failures - {owner})
      && (check == Success ==> Consumed(totp, s, t, owner, code, now))
      && (check == Invalid ==> t.failures == RecordFailure(s.failures, owner, now) && t.enrollments == s.enrollments)
  {
    var step := ConsumableStep(totp, s, owner, code, now);
    if IsLocked(s.failures, owner, now) {
    } else if EmailOtpMatches(s, owner, emailCode, now) && step.Some? {
      AcceptStepEffect(s.(challenges := s.challenges - {owner}), owner, step.value, written);
    } else {
    }
  }

  /** The three outcomes of an override attempt. */
  lemma OverrideCases(totp: Matcher, s: Store, owner: string, code: Option<nat>, now: int, written: bool)
    ensures var (t, check) := OverrideSpec(totp, s, owner, code, now, written);
      && t.otpRequests == s.otpRequests && t.challenges == s.challenges
      && (check == Locked <==> IsLocked(s.failures, owner, now))
      && (check == Locked ==> t == s)
      && (check == Success ==> t.failures == s.failures - {owner} && Consumed(totp, s, t, owner, code, now))
      && t.overrides == (if check == Success then s.overrides[owner := now + OVERRIDE_VALIDITY] else s.overrides)
      && (check == Invalid ==> t.failures == RecordFailure(s.failures, owner, now) && t.enrollments == s.enrollments)
  {
    var step := ConsumableStep(totp, s, owner, code, now);
    if IsLocked(s.failures, owner, now) {
    } else if step.Some? {
      AcceptStepEffect(s, owner, step.value, written);
    } else {
    }
  }

  function Marked(m: map<string, Enrollment>, owner: string, step: Option<int>): map<string, Enrollment>
    requires owner in m
  {
    m[owner := m[owner].(confirmed := true, lastUsedStep := step)]
  }

  /** A fresh step of a confirmed enrollment was used up. */
  predicate Consumed(totp: Matcher, s: Store, t: Store, owner: string, code: Option<nat>, now: int) {
    var step := ConsumableStep(totp, s, owner, code, now);
    step.Some? && t.enrollments == Marked(s.enrollments, owner, step)
  }

  lemma AcceptStepEffect(s: Store, owner: string, step: int, written: bool)
    requires owner in s.enrollments
    ensures var t := AcceptStep(s, owner, step, written);
      && t.enrollments == Marked(s.enrollments, owner, Some(step))
      && t.otpRequests == s.otpRequests && t.challenges == s.challenges && t.failures == s.failures
      && t.overrides == s.overrides
  {
  }

  predicate SameButEnrollments(s: Store, t: Store) {
    && t.otpRequests == s.otpRequests && t.overrides == s.overrides
    && t.challenges == s.challenges && t.failures == s.failures
  }

  lemma ConfirmCases(totp: Matcher, s: Store, owner: string, code: Option<nat>, now: int, written: bool)
    ensures var (t, ok) := ConfirmSpec(totp, s, owner, code, now, written);
      var step := ConfirmStep(totp, s, owner, code, now);
      && ok == step.Some?
      && SameButEnrollments(s, t)
      && (!ok ==> t == s)
      && (ok ==> t.enrollments == Marked(s.enrollments, owner, step))
  {
    var step := ConfirmStep(totp, s, owner, code, now);
    if step.Some? { AcceptStepEffect(s, owner, step.value, written); }
  }

  lemma EnrollCases(s: Store, owner: string, e: Enrollment, written: bool)
    ensures SameButEnrollments(s, EnrollSpec(s, owner, e, written).0)
  {
    if owner in s.enrollments && s.enrollments[owner].confirmed {} else {}
  }

  lemma ResetCases(s: Store, owner: string, written: bool)
    ensures var t := ResetSpec(s, owner, written).0;
      && t.otpRequests == s.otpRequests
      && t.overrides == s.overrides - {owner}
      && t.challenges == s.challenges - {owner}
      && t.failures == s.failures - {owner}
  {
    if owner in s.enrollments {} else {}
  }

  /** An enrollment is refused exactly for a confirmed owner; a reset reports what it removes. */
  lemma EnrollAndResetAnswers(s: Store, owner: string, e: Enrollment, written: bool)
    ensures var (t, ok) := EnrollSpec(s, owner, e, written);
      && (ok <==> !(owner in s.enrollments && s.enrollments[owner].confirmed))
      && t.enrollments == if ok then s.enrollments[owner := e] else s.enrollments
    ensures var (t, removed) := ResetSpec(s, owner, written);
      && (removed <==> owner in s.enrollments)
      && t.enrollments == s.enrollments - {owner}
  {
    assert owner !in s.enrollments ==> s.enrollments - {owner} == s.enrollments;
  }

  /** An enrollment starts unconfirmed and without a used step, whatever was there before. */
  lemma EnrolledIsUnconfirmed(totp: Matcher, s: Store, owner: string, e: Enrollment, written: bool)
    requires !(owner in s.enrollments && s.enrollments[owner].confirmed)
    ensures var t := Next(totp, s, Enroll(owner, e, written)).enrollments;
      owner in t && t[owner].secret == e.secret && !t[owner].confirmed && t[owner].lastUsedStep == None
  {
  }

  /** Which event touches which table. */
  lemma TablesAfter(totp: Matcher, s: Store, e: Event)
    requires !e.Restart?
    ensures var t := Next(totp, s, e);
      && t.otpRequests ==
           (if e.RequestOtp? then OtpWindow.Allow(s.otpRequests, OtpWindow.Key(e.owner, e.ip), e.now).0
            else s.otpRequests)
      && t.overrides ==
           (if e.Override? && Answer(totp, s, e) == Some(Success) then s.overrides[e.owner := e.now + OVERRIDE_VALIDITY]
            else if e.ResetOwner? then s.overrides - {e.owner}
            else s.overrides)
  {
    match e {
      case Login(o, emailCode, code, now, written) => LoginCases(totp, s, o, emailCode, code, now, written);
      case Override(o, code, now, written) => OverrideCases(totp, s, o, code, now, written);
      case Confirm(o, code, now, written) => ConfirmCases(totp, s, o, code, now, written);
      case Enroll(o, enrollment, written) =>
        EnrollCases(s, o, enrollment.(confirmed := false, lastUsedStep := None), written);
      case ResetOwner(o, written) => ResetCases(s, o, written);
      case IssueOtp(_, _, _) =>
      case RequestOtp(_, _, _) =>
    }
  }

  predicate Attempt(e: Event) { e.Login? || e.Override? }

  lemma LockedLeavesTheStoreUnchanged(totp: Matcher, s: Store, e: Event)
    requires Answer(totp, s, e) == Some(Locked)
    ensures Next(totp, s, e) == s
  {
  }

  // ---------------------------------------------------------------- the lockout bound

  /** Nothing happens that forgives the owner: no success, no reset, no restart, no clearing of
      a full table. Time does not go back. */
  predicate Unforgiving(totp: Matcher, s: Store, clock: int, es: seq<Event>, owner: string)
    decreases |es|
  {
    es == [] ||
    (&& !es[0].Restart?
     && (es[0].ResetOwner? ==> es[0].owner != owner)
     && (Attempt(es[0]) ==>
           && clock <= es[0].now
           && (es[0].owner == owner ==> Answer(totp, s, es[0]) != Some(Success))
           && (Answer(totp, s, es[0]) == Some(Invalid) ==> !ClearFires(s.failures, es[0].now)))
     && Unforgiving(totp, Next(totp, s, es[0]), if Attempt(es[0]) then es[0].now else clock, es[1..], owner))
  }

  predicate Fails(totp: Matcher, s: Store, e: Event, owner: string) {
    Attempt(e) && e.owner == owner && Answer(totp, s, e) == Some(Invalid)
  }

  /** `h` followed by the times of all `Invalid` answers for `owner`. */
  function FailureTimes(totp: Matcher, s: Store, es: seq<Event>, owner: string, h: seq<int>): seq<int>
    decreases |es|
  {
    if es == [] then h
    else FailureTimes(totp, Next(totp, s, es[0]), es[1..], owner,
                      if Fails(totp, s, es[0], owner) then h + [es[0].now] else h)
  }

  /** Recording a failure of anybody changes an owner's entry by counting or by evicting it. */
  lemma RecordExplains(table: Table, clock: int, who: string, now: int, owner: string, h: seq<int>)
    requires Explains(Lookup(table, owner), clock, h) && clock <= now
    requires !ClearFires(table, now) && !IsLocked(table, who, now)
    ensures Explains(Lookup(RecordFailure(table, who, now), owner), now, if who == owner then h + [now] else h)
  {
    ExplainsLater(Lookup(table, owner), clock, now, h);
    var trimmed := Trim(table, now);
    assert Lookup(trimmed, owner) == Lookup(table, owner) ||
           (Lookup(trimmed, owner) == None && Stale(table[owner], now));
    assert Explains(Lookup(trimmed, owner), now, h);
    if who == owner {
      CountExplains(Lookup(trimmed, owner), now, now, h);
    }
  }

  lemma FailuresAfter(totp: Matcher, s: Store, e: Event, owner: string)
    requires !e.Restart? && (e.ResetOwner? ==> e.owner != owner)
    requires Attempt(e) && e.owner == owner ==> Answer(totp, s, e) != Some(Success)
    ensures var t := Next(totp, s, e);
      if Answer(totp, s, e) == Some(Invalid)
      then !IsLocked(s.failures, e.owner, e.now) && t.failures == RecordFailure(s.failures, e.owner, e.now)
      else Lookup(t.failures, owner) == Lookup(s.failures, owner)
  {
    match e {
      case Login(o, emailCode, code, now, written) => LoginCases(totp, s, o, emailCode, code, now, written);
      case Override(o, code, now, written) => OverrideCases(totp, s, o, code, now, written);
      case _ =>
    }
  }

  lemma StepExplains(totp: Matcher, s: Store, clock: int, e: Event, owner: string, h: seq<int>)
    requires !e.Restart? && (e.ResetOwner? ==> e.owner != owner)
    requires Attempt(e) ==> clock <= e.now
    requires Attempt(e) && e.owner == owner ==> Answer(totp, s, e) != Some(Success)
    requires Answer(totp, s, e) == Some(Invalid) ==> !ClearFires(s.failures, e.now)
    requires Explains(Lookup(s.failures, owner), clock, h)
    ensures Explains(Lookup(Next(totp, s, e).failures, owner), if Attempt(e) then e.now else clock,
                     if Fails(totp, s, e, owner) then h + [e.now] else h)
  {
    FailuresAfter(totp, s, e, owner);
    if Answer(totp, s, e) == Some(Invalid) {
      RecordExplains(s.failures, clock, e.owner, e.now, owner, h);
    } else if Attempt(e) {
      ExplainsLater(Lookup(s.failures, owner), clock, e.now, h);
    }
  }

  lemma {:induction false} RunExplains(totp: Matcher, s: Store, clock: int, es: seq<Event>, owner: string, h: seq<int>)
    requires Unforgiving(totp, s, clock, es, owner)
    requires Explains(Lookup(s.failures, owner), clock, h)
    ensures var t := FailureTimes(totp, s, es, owner, h);
      NonDecreasing(t) && Spread(t, MOST_PER_PERIOD, LOCKOUT)
    decreases |es|
  {
    if es != [] {
      StepExplains(totp, s, clock, es[0], owner, h);
      RunExplains(totp, Next(totp, s, es[0]), if Attempt(es[0]) then es[0].now else clock, es[1..], owner,
                  if Fails(totp, s, es[0], owner) then h + [es[0].now] else h);
    }
  }

  /** From an unlocked fresh start, any half-open fifteen minutes hold at most eight `Invalid`
      answers for one owner, logins and overrides together, whatever other owners do. */
  lemma AtMostEightFailures(totp: Matcher, s: Store, clock: int, es: seq<Event>, owner: string, from: int)
    requires owner !in s.failures && Unforgiving(totp, s, clock, es, owner)
    ensures CountWithin(FailureTimes(totp, s, es, owner, []), from, 900_000_000_000) <= 8
  {
    RunExplains(totp, s, clock, es, owner, []);
    SpreadBoundsCount(FailureTimes(totp, s, es, owner, []), from, MOST_PER_PERIOD, LOCKOUT);
  }

  // ---------------------------------------------------------------- TOTP steps are used once

  /** The step that event `e` consumes for `owner`, through confirmation, override or login. */
  function AcceptedStep(totp: Matcher, s: Store, e: Event, owner: string): Option<int> {
    match e
    case Confirm(o, code, now, _) => if o == owner then ConfirmStep(totp, s, o, code, now) else None
    case Override(o, code, now, _) =>
      if o == owner && Answer(totp, s, e) == Some(Success) then ConsumableStep(totp, s, o, code, now) else None
    case Login(o, _, code, now, _) =>
      if o == owner && Answer(totp, s, e) == Some(Success) then ConsumableStep(totp, s, o, code, now) else None
    case _ => None
  }

  /** `acc` followed by the accepted steps of `owner`, each with the time of its acceptance. */
  function Accepted(totp: Matcher, s: Store, es: seq<Event>, owner: string, acc: seq<(int, int)>): seq<(int, int)>
    decreases |es|
  {
    if es == [] then acc
    else
      var step := AcceptedStep(totp, s, es[0], owner);
      Accepted(totp, Next(totp, s, es[0]), es[1..], owner,
               if step.Some? then acc + [(step.value, es[0].now)] else acc)
  }

  function EnrollmentOf(m: map<string, Enrollment>, owner: string): Option<Enrollment> {
    if owner in m then Some(m[owner]) else None
  }

  predicate FoundAsItWas(s: Store, owner: string, readable: bool) {
    EnrollmentOf(RestartSpec(s, readable).enrollments, owner) == EnrollmentOf(s.enrollments, owner)
  }

  /** The owner is not reset, and a restart finds the owner's enrollment as it was in memory. */
  predicate Undisturbed(totp: Matcher, s: Store, es: seq<Event>, owner: string)
    decreases |es|
  {
    es == [] ||
    (&& (es[0].ResetOwner? ==> es[0].owner != owner)
     && (es[0].Restart? ==> FoundAsItWas(s, owner, es[0].readable))
     && Undisturbed(totp, Next(totp, s, es[0]), es[1..], owner))
  }

  function Steps(acc: seq<(int, int)>): (r: seq<int>)
    ensures |r| == |acc|
    ensures forall i :: 0 <= i < |acc| ==> r[i] == acc[i].0
  {
    seq(|acc|, i requires 0 <= i < |acc| => acc[i].0)
  }

  /** The enrollment remembers the newest accepted step. */
  ghost predicate UsedUp(s: Store, owner: string, acc: seq<(int, int)>) {
    && Increasing(Steps(acc))
    && (acc != [] ==>
          && owner in s.enrollments && s.enrollments[owner].confirmed
          && s.enrollments[owner].lastUsedStep == Some(acc[|acc| - 1].0))
  }

  /** Either a newer step was accepted and is remembered, with the same secret, or a confirmed
      enrollment stays as it is. */
  predicate Remembered(before: Option<Enrollment>, after: Option<Enrollment>, step: Option<int>) {
    if step.Some? then
      && before.Some? && (before.value.lastUsedStep.Some? ==> before.value.lastUsedStep.value < step.value)
      && after == Some(before.value.(confirmed := true, lastUsedStep := step))
    else before.Some? && before.value.confirmed ==> after == before
  }

  predicate Keeps(totp: Matcher, s: Store, e: Event, owner: string) {
    Remembered(EnrollmentOf(s.enrollments, owner), EnrollmentOf(Next(totp, s, e).enrollments, owner),
               AcceptedStep(totp, s, e, owner))
  }

  lemma EnrollmentAfterLogin(totp: Matcher, s: Store, e: Event, owner: string)
    requires e.Login?
    ensures Keeps(totp, s, e, owner)
  {
    LoginCases(totp, s, e.owner, e.emailCode, e.code, e.now, e.written);
    var (t, check) := LoginSpec(totp, s, e.owner, e.emailCode, e.code, e.now, e.written);
    if check == Success {
      ConsumedIsRemembered(totp, s, t, e.owner, e.code, e.now, owner);
    } else {
      assert t.enrollments == s.enrollments;
    }
  }

  lemma ConsumedIsRemembered(totp: Matcher, s: Store, t: Store, who: string, code: Option<nat>, now: int, owner: string)
    requires Consumed(totp, s, t, who, code, now)
    ensures Remembered(EnrollmentOf(s.enrollments, owner), EnrollmentOf(t.enrollments, owner),
                       if who == owner then ConsumableStep(totp, s, who, code, now) else None)
  {
    if who == owner {} else {}
  }

  lemma EnrollmentAfterOverride(totp: Matcher, s: Store, e: Event, owner: string)
    requires e.Override?
    ensures Keeps(totp, s, e, owner)
  {
    OverrideCases(totp, s, e.owner, e.code, e.now, e.written);
    var (t, check) := OverrideSpec(totp, s, e.owner, e.code, e.now, e.written);
    if check == Success {
      ConsumedIsRemembered(totp, s, t, e.owner, e.code, e.now, owner);
    } else {
      assert t.enrollments == s.enrollments;
    }
  }

  lemma EnrollmentAfterConfirm(totp: Matcher, s: Store, e: Event, owner: string)
    requires e.Confirm?
    ensures Keeps(totp, s, e, owner)
  {
    ConfirmCases(totp, s, e.owner, e.code, e.now, e.written);
  }

  lemma EnrollmentAfterOther(totp: Matcher, s: Store, e: Event, owner: string)
    requires !e.Login? && !e.Override? && !e.Confirm? && Undisturbed(totp, s, [e], owner)
    ensures Keeps(totp, s, e, owner)
  {
    if e.ResetOwner? {
      assert e.owner != owner;
      if e.owner in s.enrollments { assert owner in s.enrollments ==> owner in s.enrollments - {e.owner}; }
    } else if e.Enroll? {
      if e.owner == owner {} else {}
    } else if e.Restart? {
    } else {
      assert Next(totp, s, e).enrollments == s.enrollments;
    }
  }

  lemma EnrollmentAfter(totp: Matcher, s: Store, e: Event, owner: string)
    requires Undisturbed(totp, s, [e], owner)
    ensures Keeps(totp, s, e, owner)
  {
    if e.Login? { EnrollmentAfterLogin(totp, s, e, owner); }
    else if e.Override? { EnrollmentAfterOverride(totp, s, e, owner); }
    else if e.Confirm? { EnrollmentAfterConfirm(totp, s, e, owner); }
    else { EnrollmentAfterOther(totp, s, e, owner); }
  }

  lemma StepUsedUp(totp: Matcher, s: Store, e: Event, owner: string, acc: seq<(int, int)>)
    requires UsedUp(s, owner, acc) && Undisturbed(totp, s, [e], owner)
    ensures var step := AcceptedStep(totp, s, e, owner);
      UsedUp(Next(totp, s, e), owner, if step.Some? then acc + [(step.value, e.now)] else acc)
  {
    EnrollmentAfter(totp, s, e, owner);
    var step := AcceptedStep(totp, s, e, owner);
    if step.Some? { IncreasingSnoc(acc, (step.value, e.now)); }
  }

  lemma IncreasingSnoc(acc: seq<(int, int)>, last: (int, int))
    requires Increasing(Steps(acc)) && (acc != [] ==> acc[|acc| - 1].0 < last.0)
    ensures Increasing(Steps(acc + [last]))
  {
    assert Steps(acc + [last]) == Steps(acc) + [last.0];
    assert acc != [] ==> Steps(acc)[|acc| - 1] == acc[|acc| - 1].0;
  }

  /** Between resets the accepted steps strictly increase, across restarts too, so no one-time
      password is ever accepted twice. */
  lemma {:induction false} StepsNeverRepeat(totp: Matcher, s: Store, es: seq<Event>, owner: string,
                                            acc: seq<(int, int)>)
    requires UsedUp(s, owner, acc) && Undisturbed(totp, s, es, owner)
    ensures Increasing(Steps(Accepted(totp, s, es, owner, acc)))
    decreases |es|
  {
    if es != [] {
      assert Undisturbed(totp, s, [es[0]], owner) by { assert [es[0]][1..] == []; }
      StepUsedUp(totp, s, es[0], owner, acc);
      var step := AcceptedStep(totp, s, es[0], owner);
      StepsNeverRepeat(totp, Next(totp, s, es[0]), es[1..], owner,
                       if step.Some? then acc + [(step.value, es[0].now)] else acc);
    }
  }

  /** The condition on restarts is needed: when the write of an accepted step is lost, the next
      process accepts the same code for the same step again. */
  lemma LostWriteAllowsReplay(totp: Matcher, s: Store, owner: string, code: Option<nat>, now: int)
    requires s.fileBacked && owner in s.enrollments && s.enrollments[owner].confirmed
    requires EnrollmentOf(s.file, owner) == EnrollmentOf(s.enrollments, owner)
    requires !IsLocked(s.failures, owner, now) && ConsumableStep(totp, s, owner, code, now).Some?
    ensures var first := Override(owner, code, now, false);
      var later := Next(totp, Next(totp, s, first), Restart(true));
      && AcceptedStep(totp, s, first, owner).Some?
      && AcceptedStep(totp, later, first, owner) == AcceptedStep(totp, s, first, owner)
  {
  }

  /** The exact condition: after a step was accepted, from a file that agreed with memory, the
      next process would accept the same code for the same step again if and only if it reads a
      file and the write was lost. */
  lemma ReplayAfterRestartIff(totp: Matcher, s: Store, e: Event, owner: string, readable: bool)
    requires e.Login? || e.Override? || e.Confirm?
    requires e.owner == owner && AcceptedStep(totp, s, e, owner).Some?
    requires EnrollmentOf(s.file, owner) == EnrollmentOf(s.enrollments, owner)
    ensures var later := Next(totp, Next(totp, s, e), Restart(readable));
      ConfirmStep(totp, later, owner, e.code, e.now) == AcceptedStep(totp, s, e, owner) <==>
      s.fileBacked && readable && !e.written
  {
    var step, t := AcceptedStep(totp, s, e, owner), Next(totp, s, e);
    EnrollmentAfter(totp, s, e, owner);
    AcceptedWasMatched(totp, s, e, owner);
    FileAfter(totp, s, e, owner);
  }

  lemma FileAfter(totp: Matcher, s: Store, e: Event, owner: string)
    requires e.Login? || e.Override? || e.Confirm?
    requires e.owner == owner && AcceptedStep(totp, s, e, owner).Some?
    ensures var t := Next(totp, s, e);
      t.fileBacked == s.fileBacked && t.file == if s.fileBacked && e.written then t.enrollments else s.file
  {
  }

  /** A reset is undone by the next restart exactly when that reads a file and the write was lost. */
  lemma ResetUndoneIff(totp: Matcher, s: Store, owner: string, written: bool, readable: bool)
    requires owner in s.enrollments && EnrollmentOf(s.file, owner) == EnrollmentOf(s.enrollments, owner)
    ensures var later := Next(totp, Next(totp, s, ResetOwner(owner, written)), Restart(readable));
      EnrollmentOf(later.enrollments, owner) == EnrollmentOf(s.enrollments, owner) <==>
      s.fileBacked && readable && !written
  {
    assert owner !in s.enrollments - {owner};
  }

  /** Every write of the run succeeds, every restart can read the file, the owner is not reset. */
  predicate AllWritten(es: seq<Event>, owner: string) {
    forall i :: 0 <= i < |es| ==>
      match es[i]
      case Login(_, _, _, _, written) => written
      case Override(_, _, _, written) => written
      case Confirm(_, _, _, written) => written
      case Enroll(_, _, written) => written
      case ResetOwner(who, written) => written && who != owner
      case Restart(readable) => readable
      case _ => true
  }

  lemma FileFollows(totp: Matcher, s: Store, e: Event, owner: string)
    requires s.fileBacked && s.file == s.enrollments && AllWritten([e], owner)
    ensures var t := Next(totp, s, e); t.fileBacked && t.file == t.enrollments
  {
    assert [e][0] == e;
    match e {
      case Login(_, _, _, _, _) =>
      case Override(_, _, _, _) =>
      case Confirm(_, _, _, _) =>
      case Enroll(_, _, _) =>
      case ResetOwner(_, _) =>
      case _ =>
    }
  }

  /** From a file that agrees with memory, successful writes are all it takes. */
  lemma {:induction false} WrittenIsUndisturbed(totp: Matcher, s: Store, es: seq<Event>, owner: string)
    requires s.fileBacked && s.file == s.enrollments && AllWritten(es, owner)
    ensures Undisturbed(totp, s, es, owner)
    decreases |es|
  {
    if es != [] {
      assert [es[0]][0] == es[0];
      FileFollows(totp, s, es[0], owner);
      WrittenIsUndisturbed(totp, Next(totp, s, es[0]), es[1..], owner);
    }
  }

  /** As long as writes and reads of the file succeed and the owner is not reset, the accepted
      steps strictly increase over any run, restarts included. */
  lemma WrittenStepsNeverRepeat(totp: Matcher, s: Store, es: seq<Event>, owner: string)
    requires s.fileBacked && s.file == s.enrollments && AllWritten(es, owner)
    ensures Increasing(Steps(Accepted(totp, s, es, owner, [])))
  {
    WrittenIsUndisturbed(totp, s, es, owner);
    StepsNeverRepeat(totp, s, es, owner, []);
  }

  /** A confirmed secret stays as it is until the owner is reset. */
  lemma {:induction false} ConfirmedSecretStays(totp: Matcher, s: Store, es: seq<Event>, owner: string)
    requires owner in s.enrollments && s.enrollments[owner].confirmed && Undisturbed(totp, s, es, owner)
    ensures var t := Run(totp, s, es).enrollments;
      owner in t && t[owner].confirmed && t[owner].secret == s.enrollments[owner].secret
    decreases |es|
  {
    if es != [] {
      assert Undisturbed(totp, s, [es[0]], owner) by { assert [es[0]][1..] == []; }
      EnrollmentAfter(totp, s, es[0], owner);
      ConfirmedSecretStays(totp, Next(totp, s, es[0]), es[1..], owner);
    }
  }

  // ---------------------------------------------------------------- how many acceptances in a time span

  predicate AfterFirstStep(es: seq<Event>) {
    forall i :: 0 <= i < |es| && (es[i].Login? || es[i].Override? || es[i].Confirm?) ==>
      Timestamp(es[i].now) >= STEP_SECS
  }

  ghost predicate Close(acc: seq<(int, int)>) {
    forall i | 0 <= i < |acc| ::
      Timestamp(acc[i].1) >= STEP_SECS && StepOf(acc[i].1) - 1 <= acc[i].0 <= StepOf(acc[i].1) + 1
  }

  lemma {:induction false} AcceptedAreClose(mac: Mac, s: Store, es: seq<Event>, owner: string, acc: seq<(int, int)>)
    requires AfterFirstStep(es) && Close(acc)
    ensures Close(Accepted(MatcherOf(mac), s, es, owner, acc))
    decreases |es|
  {
    if es != [] {
      var step := AcceptedStep(MatcherOf(mac), s, es[0], owner);
      if step.Some? {
        AcceptedWasMatched(MatcherOf(mac), s, es[0], owner);
        MatchingStepIsClose(mac, s.enrollments[owner].secret, es[0].code, es[0].now);
      }
      AcceptedAreClose(mac, Next(MatcherOf(mac), s, es[0]), es[1..], owner,
                       if step.Some? then acc + [(step.value, es[0].now)] else acc);
    }
  }

  lemma AcceptedWasMatched(totp: Matcher, s: Store, e: Event, owner: string)
    requires AcceptedStep(totp, s, e, owner).Some?
    ensures owner in s.enrollments && (e.Login? || e.Override? || e.Confirm?)
    ensures AcceptedStep(totp, s, e, owner) == totp(s.enrollments[owner].secret, e.code, e.now)
  {
  }

  /** The steps accepted at times whose second lies in [a, b]. */
  function During(acc: seq<(int, int)>, a: int, b: int): seq<int> {
    if acc == [] then []
    else
      var last := acc[|acc| - 1];
      During(acc[..|acc| - 1], a, b) + if a <= Timestamp(last.1) <= b then [last.0] else []
  }

  lemma IncreasingAppend(steps: seq<int>, last: int)
    requires Increasing(steps) && forall x :: x in steps ==> x < last
    ensures Increasing(steps + [last])
  {
    forall i | 0 <= i < |steps| ensures steps[i] < last { assert steps[i] in steps; }
  }

  lemma {:induction false} DuringIsIncreasing(acc: seq<(int, int)>, a: int, b: int)
    requires Increasing(Steps(acc)) && Close(acc) && 30 <= a <= b
    ensures Increasing(During(acc, a, b))
    ensures forall x :: x in During(acc, a, b) ==> a / 30 - 1 <= x <= b / 30 + 1
    ensures acc != [] ==> forall x :: x in During(acc, a, b) ==> x <= acc[|acc| - 1].0
  {
    if acc != [] {
      var init, last := acc[..|acc| - 1], acc[|acc| - 1];
      assert forall i :: 0 <= i < |init| ==> Steps(init)[i] == Steps(acc)[i];
      DuringIsIncreasing(init, a, b);
      if init != [] { assert Steps(acc)[|init| - 1] < Steps(acc)[|init|]; }
      ShiftedSteps(last.1);
      if init != [] { IncreasingAppend(During(init, a, b), last.0); } else { assert During(init, a, b) == []; }
    }
  }

  /** At most b/30 - a/30 + 3 codes are accepted at times in [a, b] seconds. */
  lemma AcceptancesBounded(mac: Mac, s: Store, es: seq<Event>, owner: string, a: int, b: int)
    requires Undisturbed(MatcherOf(mac), s, es, owner) && AfterFirstStep(es) && 30 <= a <= b
    ensures |During(Accepted(MatcherOf(mac), s, es, owner, []), a, b)| <= b / 30 - a / 30 + 3
  {
    StepsNeverRepeat(MatcherOf(mac), s, es, owner, []);
    AcceptedAreClose(mac, s, es, owner, []);
    var d := During(Accepted(MatcherOf(mac), s, es, owner, []), a, b);
    DuringIsIncreasing(Accepted(MatcherOf(mac), s, es, owner, []), a, b);
    assert forall i :: 0 <= i < |d| ==> d[i] in d;
    IncreasingFit(d, a / 30 - 1, b / 30 + 1);
  }

  // ---------------------------------------------------------------- overrides

  /** The time of the last successful override attempt since the last reset or restart. */
  function LastAfter(totp: Matcher, s: Store, e: Event, owner: string, last: Option<int>): Option<int> {
    if e.Override? && e.owner == owner && Answer(totp, s, e) == Some(Success) then Some(e.now)
    else if e.Restart? || (e.ResetOwner? && e.owner == owner) then None
    else last
  }

  function LastOverride(totp: Matcher, s: Store, es: seq<Event>, owner: string, last: Option<int>): Option<int>
    decreases |es|
  {
    if es == [] then last
    else LastOverride(totp, Next(totp, s, es[0]), es[1..], owner, LastAfter(totp, s, es[0], owner, last))
  }

  predicate OverrideSince(s: Store, owner: string, last: Option<int>) {
    if last.Some? then owner in s.overrides && s.overrides[owner] == last.value + OVERRIDE_VALIDITY
    else owner !in s.overrides
  }

  lemma OverrideAfter(totp: Matcher, s: Store, e: Event, owner: string, last: Option<int>)
    requires OverrideSince(s, owner, last)
    ensures OverrideSince(Next(totp, s, e), owner, LastAfter(totp, s, e, owner, last))
  {
    if !e.Restart? { TablesAfter(totp, s, e); }
  }

  /** An override is valid exactly for the fifteen minutes after the last successful attempt,
      and not beyond a reset or a restart. */
  lemma {:induction false} OverrideLastsFifteenMinutes(totp: Matcher, s: Store, es: seq<Event>, owner: string,
                                                       last: Option<int>, now: int)
    requires OverrideSince(s, owner, last)
    ensures var latest := LastOverride(totp, s, es, owner, last);
      HasValidOverride(Run(totp, s, es), owner, now) <==> latest.Some? && now < latest.value + OVERRIDE_VALIDITY
    decreases |es|
  {
    if es != [] {
      OverrideAfter(totp, s, es[0], owner, last);
      OverrideLastsFifteenMinutes(totp, Next(totp, s, es[0]), es[1..], owner,
                                  LastAfter(totp, s, es[0], owner, last), now);
    }
  }

  // ---------------------------------------------------------------- e-mail codes are one-shot

  /** A login attempt in which a stored, unexpired code is compared with the given one. */
  predicate Compares(totp: Matcher, s: Store, e: Event, owner: string) {
    && e.Login? && e.owner == owner
    && Answer(totp, s, e) != Some(Locked)
    && owner in s.challenges && s.challenges[owner].expiresAt > e.now
  }

  function Comparisons(totp: Matcher, s: Store, es: seq<Event>, owner: string): nat
    decreases |es|
  {
    if es == [] then 0
    else (if Compares(totp, s, es[0], owner) then 1 else 0) + Comparisons(totp, Next(totp, s, es[0]), es[1..], owner)
  }

  function Issued(es: seq<Event>, owner: string): nat {
    if es == [] then 0 else (if es[0].IssueOtp? && es[0].owner == owner then 1 else 0) + Issued(es[1..], owner)
  }

  lemma ChallengeAfter(totp: Matcher, s: Store, e: Event, owner: string)
    ensures owner in Next(totp, s, e).challenges ==>
      !Compares(totp, s, e, owner) && (owner in s.challenges || (e.IssueOtp? && e.owner == owner))
  {
    match e {
      case Login(o, emailCode, code, now, written) => LoginCases(totp, s, o, emailCode, code, now, written);
      case Override(o, code, now, written) => OverrideCases(totp, s, o, code, now, written);
      case _ =>
    }
  }

  /** Every e-mail code is compared with at most one guess, right or wrong. */
  lemma {:induction false} CodesAreOneShot(totp: Matcher, s: Store, es: seq<Event>, owner: string)
    ensures Comparisons(totp, s, es, owner) <= Issued(es, owner) + if owner in s.challenges then 1 else 0
    decreases |es|
  {
    if es != [] {
      ChallengeAfter(totp, s, es[0], owner);
      CodesAreOneShot(totp, Next(totp, s, es[0]), es[1..], owner);
    }
  }

  /** A login succeeds only by comparing a live code, and only with a fresh step of a confirmed
      secret: both factors are needed. */
  lemma SuccessNeedsBothFactors(totp: Matcher, s: Store, e: Event, owner: string)
    requires e.Login? && e.owner == owner && Answer(totp, s, e) == Some(Success)
    ensures Compares(totp, s, e, owner) && ConstantTimeEq(s.challenges[owner].code, e.emailCode)
    ensures owner in s.enrollments && s.enrollments[owner].confirmed
    ensures AcceptedStep(totp, s, e, owner).Some?
    ensures owner !in Next(totp, s, e).challenges && owner !in Next(totp, s, e).failures
  {
  }

  // ---------------------------------------------------------------- code requests

  function Requests(es: seq<Event>): seq<OtpWindow.Request> {
    if es == [] then []
    else (if es[0].RequestOtp? then [OtpWindow.Request(OtpWindow.Key(es[0].owner, es[0].ip), es[0].now)] else [])
         + Requests(es[1..])
  }

  /** Only code requests touch the request table, so its bounds hold in every run of the store. */
  lemma {:induction false} RequestTableRuns(totp: Matcher, s: Store, es: seq<Event>)
    requires NoRestart(es)
    ensures Run(totp, s, es).otpRequests == OtpWindow.RunTable(s.otpRequests, Requests(es))
    decreases |es|
  {
    if es != [] {
      TablesAfter(totp, s, es[0]);
      RequestTableRuns(totp, Next(totp, s, es[0]), es[1..]);
      if es[0].RequestOtp? {
        assert Requests(es)[1..] == Requests(es[1..]);
      } else {
        assert Requests(es) == Requests(es[1..]);
      }
    }
  }
}
