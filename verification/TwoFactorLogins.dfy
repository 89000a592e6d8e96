/** What a login or an override attempt is answered, from the history of the owner alone: the code
    that was mailed, the step that was accepted last, and the lock. */
module TwoFactorLogins {
  import opened Common
  import opened Totp
  import opened TwoFactor
  import opened TwoFactorTheorems

  /** Attempts are refused until some later time. */
  predicate LockedOut(s: Store, owner: string, now: int) {
    owner in s.failures && s.failures[owner].lockedUntil.Some? && now < s.failures[owner].lockedUntil.value
  }

  // ---------------------------------------------------------------- which step a code stands for

  /** The number of whole 30-second steps since 1970. */
  function CurrentStep(now: int): int {
    now / 1_000_000_000 / 30
  }

  function CodeOf(mac: Mac, secret: seq<Byte>, step: int): nat {
    Hotp(mac, secret, step % 0x1_0000_0000_0000_0000)
  }

  /** Of the current step and its neighbours, `step` is the earliest with this code. */
  predicate EarliestStep(mac: Mac, secret: seq<Byte>, code: Option<nat>, now: int, step: int) {
    && CurrentStep(now) - 1 <= step <= CurrentStep(now) + 1
    && code == Some(CodeOf(mac, secret, step))
    && forall i :: CurrentStep(now) - 1 <= i < step ==> code != Some(CodeOf(mac, secret, i))
  }

  lemma MatchedIffEarliest(mac: Mac, secret: seq<Byte>, code: Option<nat>, now: int, step: int)
    requires CurrentStep(now) >= 1
    ensures MatchingStep(mac, secret, code, now) == Some(step) <==> EarliestStep(mac, secret, code, now, step)
  {
    ShiftedSteps(now);
    var s := CurrentStep(now);
    assert StepOf(now) == s;
    forall i | i == s - 1 || i == s || i == s + 1 ensures CodeOf(mac, secret, i) == Hotp(mac, secret, Counter(i)) {}
    if EarliestStep(mac, secret, code, now, step) {
      assert step == s - 1 || step == s || step == s + 1;
      assert step > s - 1 ==> code != Some(CodeOf(mac, secret, s - 1));
      assert step > s ==> code != Some(CodeOf(mac, secret, s));
    }
  }

  /** The code stands for a step that is newer than the last one accepted. */
  ghost predicate FreshCode(mac: Mac, e: Enrollment, code: Option<nat>, now: int) {
    exists step ::
      EarliestStep(mac, e.secret, code, now, step) && (e.lastUsedStep.Some? ==> step > e.lastUsedStep.value)
  }

  lemma NewStepIff(mac: Mac, e: Enrollment, code: Option<nat>, now: int)
    requires CurrentStep(now) >= 1
    ensures NewStep(MatcherOf(mac), e, code, now).Some? <==> FreshCode(mac, e, code, now)
  {
    var m := MatchingStep(mac, e.secret, code, now);
    if m.Some? { MatchedIffEarliest(mac, e.secret, code, now, m.value); }
    forall step | EarliestStep(mac, e.secret, code, now, step) ensures m == Some(step) {
      MatchedIffEarliest(mac, e.secret, code, now, step);
    }
  }

  // ---------------------------------------------------------------- the mailed code

  /** The event leaves the mailed code of the owner alone: a login does so only while locked out. */
  predicate LeavesChallenge(totp: Matcher, s: Store, e: Event, owner: string) {
    match e
    case IssueOtp(who, _, _) => who != owner
    case ResetOwner(who, _) => who != owner
    case Login(who, _, _, now, _) => who == owner ==> LockedOut(s, owner, now)
    case Restart(_) => false
    case _ => true
  }

  predicate ChallengeUntouched(totp: Matcher, s: Store, es: seq<Event>, owner: string)
    decreases |es|
  {
    es == [] ||
    (LeavesChallenge(totp, s, es[0], owner) && ChallengeUntouched(totp, Next(totp, s, es[0]), es[1..], owner))
  }

  function ChallengeOf(s: Store, owner: string): Option<Challenge> {
    if owner in s.challenges then Some(s.challenges[owner]) else None
  }

  lemma ChallengeKept(totp: Matcher, s: Store, e: Event, owner: string)
    requires LeavesChallenge(totp, s, e, owner)
    ensures ChallengeOf(Next(totp, s, e), owner) == ChallengeOf(s, owner)
  {
    match e {
      case Login(o, emailCode, code, now, written) => LoginCases(totp, s, o, emailCode, code, now, written);
      case Override(o, code, now, written) => OverrideCases(totp, s, o, code, now, written);
      case Confirm(o, code, now, written) => ConfirmCases(totp, s, o, code, now, written);
      case Enroll(o, _, _) => if o == owner {} else {}
      case ResetOwner(o, _) => if o in s.enrollments {} else {}
      case _ =>
    }
  }

  lemma {:induction false} ChallengeStays(totp: Matcher, s: Store, es: seq<Event>, owner: string)
    requires ChallengeUntouched(totp, s, es, owner)
    ensures ChallengeOf(Run(totp, s, es), owner) == ChallengeOf(s, owner)
    decreases |es|
  {
    if es != [] {
      ChallengeKept(totp, s, es[0], owner);
      ChallengeStays(totp, Next(totp, s, es[0]), es[1..], owner);
    }
  }

  /** Trimmed input that the comparison takes for the code: the code itself, or the code with a
      multiple of 256 NUL bytes behind it. */
  ghost predicate TakenFor(text: string, code: string) {
    exists k: nat :: text == code + Nuls(256 * k)
  }

  lemma ComparedIff(code: string, text: string)
    requires |code| < 256
    ensures ConstantTimeEq(code, text) <==> TakenFor(text, code)
    ensures |text| < 256 ==> (TakenFor(text, code) <==> text == code)
  {
    assert code + Nuls(256 * 0) == code;
    if |code| <= |text| {
      ConstantTimeEqExactly(code, text);
    } else {
      ConstantTimeEqIsEquality(code, text);
    }
  }

  // ---------------------------------------------------------------- the answers

  /** The whole condition for a login `now`, when `code` was mailed at `issued`. */
  ghost predicate RightLogin(mac: Mac, s: Store, owner: string, code: ByteString, issued: int, text: ByteString,
                             totpCode: Option<nat>, now: int)
  {
    && !LockedOut(s, owner, now)
    && now < issued + 300_000_000_000
    && TakenFor(text, code)
    && owner in s.enrollments && s.enrollments[owner].confirmed
    && FreshCode(mac, s.enrollments[owner], totpCode, now)
  }

  lemma LoginWithCode(mac: Mac, t: Store, owner: string, code: ByteString, issued: int, text: ByteString,
                      totpCode: Option<nat>, now: int, written: bool)
    requires |code| < 256 && CurrentStep(now) >= 1
    requires ChallengeOf(t, owner) == Some(Challenge(code, issued + EMAIL_OTP_VALIDITY))
    ensures var answer := Answer(MatcherOf(mac), t, Login(owner, text, totpCode, now, written));
      && (answer == Some(Success) <==> RightLogin(mac, t, owner, code, issued, text, totpCode, now))
      && (answer == Some(Locked) <==> LockedOut(t, owner, now))
  {
    ComparedIff(code, text);
    if owner in t.enrollments { NewStepIff(mac, t.enrollments[owner], totpCode, now); }
  }

  /** After a code was mailed to the owner, and until the next event that replaces or spends it, a
      login succeeds exactly within five minutes, with that code and with a fresh TOTP code of a
      confirmed secret, while the owner is not locked out. */
  lemma LoginSucceedsIff(mac: Mac, s: Store, owner: string, code: ByteString, issued: int, es: seq<Event>,
                         text: ByteString, totpCode: Option<nat>, now: int, written: bool)
    requires |code| < 256 && CurrentStep(now) >= 1
    requires ChallengeUntouched(MatcherOf(mac), Next(MatcherOf(mac), s, IssueOtp(owner, code, issued)), es, owner)
    ensures var t := Run(MatcherOf(mac), s, [IssueOtp(owner, code, issued)] + es);
      var answer := Answer(MatcherOf(mac), t, Login(owner, text, totpCode, now, written));
      && (answer == Some(Success) <==> RightLogin(mac, t, owner, code, issued, text, totpCode, now))
      && (answer == Some(Locked) <==> LockedOut(t, owner, now))
  {
    var totp, e := MatcherOf(mac), IssueOtp(owner, code, issued);
    assert ([e] + es)[1..] == es;
    var t := Run(totp, s, [e] + es);
    ChallengeStays(totp, Next(totp, s, e), es, owner);
    assert ChallengeOf(t, owner) == Some(Challenge(code, issued + EMAIL_OTP_VALIDITY));
    LoginWithCode(mac, t, owner, code, issued, text, totpCode, now, written);
  }

  /** Without a mailed code no login succeeds. */
  lemma NoCodeNoLogin(totp: Matcher, s: Store, owner: string, text: ByteString, totpCode: Option<nat>, now: int,
                      written: bool)
    requires owner !in s.challenges
    ensures Answer(totp, s, Login(owner, text, totpCode, now, written)) ==
            Some(if LockedOut(s, owner, now) then Locked else Invalid)
  {
  }

  /** An override attempt succeeds exactly with a fresh code of a confirmed secret, while the owner
      is not locked out, and the override then lasts fifteen minutes. */
  lemma OverrideSucceedsIff(mac: Mac, s: Store, owner: string, code: Option<nat>, now: int, written: bool, later: int)
    requires CurrentStep(now) >= 1
    ensures var e := Override(owner, code, now, written); var answer := Answer(MatcherOf(mac), s, e);
      && (answer == Some(Success) <==>
            && !LockedOut(s, owner, now)
            && owner in s.enrollments && s.enrollments[owner].confirmed
            && FreshCode(mac, s.enrollments[owner], code, now))
      && (answer == Some(Locked) <==> LockedOut(s, owner, now))
      && (answer == Some(Success) ==>
            (HasValidOverride(Next(MatcherOf(mac), s, e), owner, later) <==> later < now + 900_000_000_000))
  {
    if owner in s.enrollments { NewStepIff(mac, s.enrollments[owner], code, now); }
  }

  /** A confirmation succeeds exactly with a fresh code, and confirms the secret. */
  lemma ConfirmSucceedsIff(mac: Mac, s: Store, owner: string, code: Option<nat>, now: int, written: bool)
    requires CurrentStep(now) >= 1
    ensures var (t, ok) := ConfirmSpec(MatcherOf(mac), s, owner, code, now, written);
      && (ok <==> owner in s.enrollments && FreshCode(mac, s.enrollments[owner], code, now))
      && (ok ==> owner in t.enrollments && t.enrollments[owner].confirmed
                 && t.enrollments[owner].secret == s.enrollments[owner].secret)
  {
    if owner in s.enrollments { NewStepIff(mac, s.enrollments[owner], code, now); }
  }
}
