/** The two-factor store (crates/open-web-server-gateway/src/two_factor.rs): TOTP enrollments,
    one-shot e-mail codes, overrides, lockout and request limits, with an optional file. */
module TwoFactor {
  import opened Common
  import opened Lockout
  import opened Totp
  import opened Arithmetic
  import opened Words
  import OtpWindow

  const OVERRIDE_VALIDITY: int := 15 * MINUTE
  const EMAIL_OTP_VALIDITY: int := 5 * MINUTE

  datatype LoginCheck = Success | Invalid | Locked

  datatype Enrollment = Enrollment(
    secret: seq<Byte>,
    confirmed: bool,
    email: Option<string>,
    phone: Option<string>,
    lastUsedStep: Option<int>)

  /** Texts are compared byte by byte, so codes are strings of byte-sized characters. */
  type ByteString = s: string | forall c :: c in s ==> c as int < 256

  datatype Challenge = Challenge(code: ByteString, expiresAt: int)

  /** `fileBacked` tells whether a persistence path is configured, `file` is its content. */
  datatype Store = Store(
    enrollments: map<string, Enrollment>,
    overrides: map<string, int>,
    challenges: map<string, Challenge>,
    otpRequests: OtpWindow.Table,
    failures: Lockout.Table,
    fileBacked: bool,
    file: map<string, Enrollment>)

  /** A step that matches and is newer than the last accepted one. */
  function NewStep(totp: Matcher, e: Enrollment, code: Option<nat>, now: int): Option<int> {
    var m := totp(e.secret, code, now);
    if m.Some? && (e.lastUsedStep.None? || m.value > e.lastUsedStep.value) then m else None
  }

  /** Writing the file may fail; the store then goes on with its memory. */
  function Persist(s: Store, written: bool): Store {
    if s.fileBacked && written then s.(file := s.enrollments) else s
  }

  function EnrollSpec(s: Store, owner: string, e: Enrollment, written: bool): (Store, bool) {
    if owner in s.enrollments && s.enrollments[owner].confirmed then (s, false)
    else (Persist(s.(enrollments := s.enrollments[owner := e]), written), true)
  }

  function ResetSpec(s: Store, owner: string, written: bool): (Store, bool) {
    var removed := owner in s.enrollments;
    var s1 := if removed then Persist(s.(enrollments := s.enrollments - {owner}), written) else s;
    (s1.(overrides := s1.overrides - {owner}, challenges := s1.challenges - {owner}, failures := s1.failures - {owner}),
     removed)
  }

  function AcceptStep(s: Store, owner: string, step: int, written: bool): Store
    requires owner in s.enrollments
  {
    var e := s.enrollments[owner].(confirmed := true, lastUsedStep := Some(step));
    Persist(s.(enrollments := s.enrollments[owner := e]), written)
  }

  /** The step a confirmation would accept. */
  function ConfirmStep(totp: Matcher, s: Store, owner: string, code: Option<nat>, now: int): Option<int> {
    if owner in s.enrollments then NewStep(totp, s.enrollments[owner], code, now) else None
  }

  function ConfirmSpec(totp: Matcher, s: Store, owner: string, code: Option<nat>, now: int,
                       written: bool): (Store, bool) {
    var step := ConfirmStep(totp, s, owner, code, now);
    if step.Some? then (AcceptStep(s, owner, step.value, written), true) else (s, false)
  }

  /** The step `consume_totp` would accept: only for a confirmed enrollment. */
  function ConsumableStep(totp: Matcher, s: Store, owner: string, code: Option<nat>, now: int): Option<int> {
    if owner in s.enrollments && s.enrollments[owner].confirmed
    then NewStep(totp, s.enrollments[owner], code, now) else None
  }

  function OverrideSpec(totp: Matcher, s: Store, owner: string, code: Option<nat>, now: int, written: bool)
    : (Store, LoginCheck)
  {
    var step := ConsumableStep(totp, s, owner, code, now);
    if IsLocked(s.failures, owner, now) then (s, Locked)
    else if step.Some? then
      var s1 := AcceptStep(s, owner, step.value, written);
      (s1.(failures := s1.failures - {owner}, overrides := s1.overrides[owner := now + OVERRIDE_VALIDITY]), Success)
    else (s.(failures := RecordFailure(s.failures, owner, now)), Invalid)
  }

  predicate HasValidOverride(s: Store, owner: string, now: int) {
    owner in s.overrides && s.overrides[owner] > now
  }

  predicate EmailOtpMatches(s: Store, owner: string, code: ByteString, now: int) {
    owner in s.challenges && s.challenges[owner].expiresAt > now && ConstantTimeEq(s.challenges[owner].code, code)
  }

  function LoginSpec(totp: Matcher, s: Store, owner: string, emailCode: ByteString, code: Option<nat>,
                     now: int, written: bool)
    : (Store, LoginCheck)
  {
    var step := ConsumableStep(totp, s, owner, code, now);
    var spent := s.(challenges := s.challenges - {owner});
    if IsLocked(s.failures, owner, now) then (s, Locked)
    else if EmailOtpMatches(s, owner, emailCode, now) && step.Some? then
      var s1 := AcceptStep(spent, owner, step.value, written);
      (s1.(failures := s1.failures - {owner}), Success)
    else (spent.(failures := RecordFailure(s.failures, owner, now)), Invalid)
  }

  function IssueSpec(s: Store, owner: string, code: ByteString, now: int): Store {
    s.(challenges := s.challenges[owner := Challenge(code, now + EMAIL_OTP_VALIDITY)])
  }

  function AllowSpec(s: Store, owner: string, ip: string, now: int): (Store, bool) {
    var a := OtpWindow.Allow(s.otpRequests, OtpWindow.Key(owner, ip), now);
    (s.(otpRequests := a.0), a.1)
  }

  /** The store of the next process: only what the file holds survives, if it can be read and
      parsed. What cannot be read stays in the file until the next write. */
  function RestartSpec(s: Store, readable: bool): Store {
    Store(if s.fileBacked && readable then s.file else map[], map[], map[], map[], map[], s.fileBacked, s.file)
  }

  // ---------------------------------------------------------------- constant-time comparison

  /** Beyond the end of a text the loop reads zero. */
  function ByteAt(s: string, i: nat): nat {
    if i < |s| then s[i] as int else 0
  }

  /** What the comparison decides: the lengths are only compared modulo 256. */
  predicate ConstantTimeEq(a: string, b: string) {
    |a| % 256 == |b| % 256 && SameBytes(a, b, Max(|a|, |b|))
  }

  predicate SameBytes(a: string, b: string, n: nat) {
    forall i: nat :: i < n ==> ByteAt(a, i) == ByteAt(b, i)
  }

  /** `as u8`. */
  function ToByte(n: nat): (w: Word)
    ensures |w| == 8
  {
    WordOf(n % 256, 8)
  }

  lemma BytesDiffer(m: nat, n: nat)
    ensures Xor(ToByte(m), ToByte(n)) == Fill(false, 8) <==> m % 256 == n % 256
  {
    XorIsZero(ToByte(m), ToByte(n));
    assert Pow2(8) == 256 by { assert Pow2(4) == 16; }
    WordOfIsInjective(m % 256, n % 256, 8);
  }

  lemma ByteAtIsAByte(s: ByteString, i: nat)
    ensures ByteAt(s, i) < 256
  {
    if i < |s| { assert s[i] in s; }
  }

  /** `diff |= x ^ y`. */
  lemma Accumulate(diff: Word, x: nat, y: nat)
    requires |diff| == 8 && x < 256 && y < 256
    ensures Or(diff, Xor(ToByte(x), ToByte(y))) == Fill(false, 8) <==> diff == Fill(false, 8) && x == y
  {
    BytesDiffer(x, y);
    OrIsZero(diff, Xor(ToByte(x), ToByte(y)));
  }

  lemma SameBytesNext(a: string, b: string, n: nat)
    ensures SameBytes(a, b, n + 1) <==> SameBytes(a, b, n) && ByteAt(a, n) == ByteAt(b, n)
  {
  }

  method CompareConstantTime(a: ByteString, b: ByteString) returns (same: bool)
    ensures same <==> ConstantTimeEq(a, b)
  {
    var diff := Xor(ToByte(|a|), ToByte(|b|));
    BytesDiffer(|a|, |b|);
    var n := Max(|a|, |b|);
    for i := 0 to n
      invariant |diff| == 8
      invariant diff == Fill(false, 8) <==> |a| % 256 == |b| % 256 && SameBytes(a, b, i)
    {
      ByteAtIsAByte(a, i);
      ByteAtIsAByte(b, i);
      Accumulate(diff, ByteAt(a, i), ByteAt(b, i));
      SameBytesNext(a, b, i);
      diff := Or(diff, Xor(ToByte(ByteAt(a, i)), ToByte(ByteAt(b, i))));
    }
    same := diff == Fill(false, 8);
  }

  /** For texts shorter than 256 bytes the comparison is equality. */
  lemma ConstantTimeEqIsEquality(a: string, b: string)
    requires |a| < 256 && |b| < 256
    ensures ConstantTimeEq(a, b) <==> a == b
  {
    if ConstantTimeEq(a, b) {
      forall i | 0 <= i < |a| ensures a[i] == b[i] { assert ByteAt(a, i) == ByteAt(b, i); }
    }
  }

  function Nuls(n: nat): (r: string)
    ensures |r| == n && forall i :: 0 <= i < n ==> r[i] == '\0'
  {
    seq(n, i => '\0')
  }

  /** In general a longer text is accepted exactly when it is the shorter one followed by a
      multiple of 256 NUL bytes. */
  lemma ConstantTimeEqExactly(a: string, b: string)
    requires |a| <= |b|
    ensures ConstantTimeEq(a, b) <==> exists k: nat :: b == a + Nuls(256 * k)
  {
    if ConstantTimeEq(a, b) {
      var k := (|b| - |a|) / 256;
      var c := a + Nuls(256 * k);
      forall i | 0 <= i < |b| ensures b[i] == c[i] { assert ByteAt(a, i) == ByteAt(b, i); }
      assert b == c;
    }
  }

  // ---------------------------------------------------------------- the store itself

  class TwoFactorStore {
    const mac: Mac
    const fileBacked: bool
    var enrollments: map<string, Enrollment>
    var overrides: map<string, int>
    var challenges: map<string, Challenge>
    var otpRequests: OtpWindow.Table
    var failures: Lockout.Table
    var file: map<string, Enrollment>

    ghost function State(): Store
      reads this
    {
      Store(enrollments, overrides, challenges, otpRequests, failures, fileBacked, file)
    }

    /** `load_from_path`: a missing or unreadable file counts as empty. */
    constructor (mac: Mac, fileBacked: bool, file: map<string, Enrollment>, readable: bool, ghost before: Store)
      requires before.fileBacked == fileBacked && before.file == file
      ensures State() == RestartSpec(before, readable)
    {
      this.mac := mac;
      this.fileBacked := fileBacked;
      enrollments := if fileBacked && readable then file else map[];
      overrides, challenges, otpRequests, failures := map[], map[], map[], map[];
      this.file := file;
    }

    method WriteFile(written: bool)
      modifies this`file
      ensures State() == Persist(old(State()), written)
    {
      if fileBacked && written { file := enrollments; }
    }

    method Enroll(owner: string, secret: seq<Byte>, email: Option<string>, phone: Option<string>, written: bool)
      returns (ok: bool)
      modifies this
      ensures (State(), ok) == EnrollSpec(old(State()), owner, Enrollment(secret, false, email, phone, None), written)
    {
      if owner in enrollments && enrollments[owner].confirmed { return false; }
      enrollments := enrollments[owner := Enrollment(secret, false, email, phone, None)];
      WriteFile(written);
      return true;
    }

    method Reset(owner: string, written: bool) returns (removed: bool)
      modifies this
      ensures (State(), removed) == ResetSpec(old(State()), owner, written)
    {
      removed := owner in enrollments;
      if removed {
        enrollments := enrollments - {owner};
        WriteFile(written);
      }
      overrides := overrides - {owner};
      challenges := challenges - {owner};
      failures := failures - {owner};
    }

    method Confirm(owner: string, code: Option<nat>, now: int, written: bool) returns (ok: bool)
      modifies this
      ensures (State(), ok) == ConfirmSpec(MatcherOf(mac), old(State()), owner, code, now, written)
    {
      if owner !in enrollments { return false; }
      var step := NewStep(MatcherOf(mac), enrollments[owner], code, now);
      if step.None? { return false; }
      enrollments := enrollments[owner := enrollments[owner].(confirmed := true, lastUsedStep := step)];
      WriteFile(written);
      return true;
    }

    method ConsumeTotp(owner: string, code: Option<nat>, now: int, written: bool) returns (ok: bool)
      modifies this
      ensures var step := ConsumableStep(MatcherOf(mac), old(State()), owner, code, now);
        && ok == step.Some?
        && State() == if ok then AcceptStep(old(State()), owner, step.value, written) else old(State())
    {
      if owner !in enrollments || !enrollments[owner].confirmed { return false; }
      var step := NewStep(MatcherOf(mac), enrollments[owner], code, now);
      if step.None? { return false; }
      enrollments := enrollments[owner := enrollments[owner].(lastUsedStep := step)];
      WriteFile(written);
      return true;
    }

    method RecordOneFailure(owner: string, now: int)
      modifies this`failures
      ensures failures == RecordFailure(old(failures), owner, now)
    {
      if |failures| >= MAX_TRACKED_KEYS {
        var kept := Evict(failures, now);
        failures := if |kept| >= MAX_TRACKED_KEYS then map[] else kept;
      }
      assert failures == Trim(old(failures), now);
      var entry := if owner in failures then failures[owner] else FailureState(0, now, None);
      if now - entry.windowStart >= LOCKOUT && (entry.lockedUntil.None? || entry.lockedUntil.value <= now) {
        entry := FailureState(0, now, None);
      }
      entry := entry.(failures := entry.failures + 1);
      if entry.failures >= MAX_FAILED_ATTEMPTS {
        entry := FailureState(0, now, Some(now + LOCKOUT));
      }
      failures := failures[owner := entry];
    }

    method VerifyForOverride(owner: string, code: Option<nat>, now: int, written: bool) returns (check: LoginCheck)
      modifies this
      ensures (State(), check) == OverrideSpec(MatcherOf(mac), old(State()), owner, code, now, written)
    {
      if IsLocked(failures, owner, now) { return Locked; }
      var ok := ConsumeTotp(owner, code, now, written);
      if ok {
        failures := failures - {owner};
        overrides := overrides[owner := now + OVERRIDE_VALIDITY];
        return Success;
      }
      RecordOneFailure(owner, now);
      return Invalid;
    }

    method AllowOtpRequest(owner: string, ip: string, now: int) returns (ok: bool)
      modifies this`otpRequests
      ensures (State(), ok) == AllowSpec(old(State()), owner, ip, now)
    {
      if |otpRequests| >= OtpWindow.MAX_TRACKED_KEYS {
        var kept := OtpWindow.Evict(otpRequests, now);
        otpRequests := if |kept| >= OtpWindow.MAX_TRACKED_KEYS then map[] else kept;
      }
      assert otpRequests == OtpWindow.Trim(old(otpRequests), now);
      var key := OtpWindow.Key(owner, ip);
      var times := OtpWindow.Recent(OtpWindow.Lookup(otpRequests, key), now);
      ok := |times| < OtpWindow.OTP_REQUEST_LIMIT;
      if ok { times := times + [now]; }
      otpRequests := otpRequests[key := times];
    }

    method IssueEmailOtp(owner: string, code: ByteString, now: int)
      modifies this`challenges
      ensures State() == IssueSpec(old(State()), owner, code, now)
    {
      challenges := challenges[owner := Challenge(code, now + EMAIL_OTP_VALIDITY)];
    }

    method EmailMatches(owner: string, code: ByteString, now: int) returns (matches: bool)
      ensures matches <==> EmailOtpMatches(State(), owner, code, now)
    {
      if owner !in challenges || challenges[owner].expiresAt <= now { return false; }
      matches := CompareConstantTime(challenges[owner].code, code);
    }

    method VerifyLogin(owner: string, emailCode: ByteString, code: Option<nat>, now: int, written: bool)
      returns (check: LoginCheck)
      modifies this
      ensures (State(), check) == LoginSpec(MatcherOf(mac), old(State()), owner, emailCode, code, now, written)
    {
      if IsLocked(failures, owner, now) { return Locked; }
      var matches := EmailMatches(owner, emailCode, now);
      if matches {
        var ok := ConsumeTotp(owner, code, now, written);
        if ok {
          challenges := challenges - {owner};
          failures := failures - {owner};
          return Success;
        }
      }
      challenges := challenges - {owner};
      RecordOneFailure(owner, now);
      return Invalid;
    }
  }
}
