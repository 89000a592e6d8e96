/** One-time passwords (RFC 4226, RFC 6238) over an abstract HMAC-SHA1
    (crates/open-web-server-gateway/src/two_factor.rs). */
module Totp {
  import opened Common
  import Lockout

  type Byte = b: int | 0 <= b < 256

  /** A 20-byte HMAC-SHA1 result. */
  type Digest = d: seq<Byte> | |d| == 20 witness seq(20, i => 0)

  type Mac = (seq<Byte>, nat) -> Digest

  const STEP_SECS: int := 30
  const CODES: nat := 1_000_000

  /** Dynamic truncation, section 5.3 of RFC 4226: four bytes at an offset read off the last. */
  function Hotp(mac: Mac, secret: seq<Byte>, counter: nat): (code: nat)
    ensures code < CODES
  {
    var d := mac(secret, counter);
    var o := d[19] % 16;
    ((d[o] % 128) * 0x100_0000 + d[o + 1] * 0x1_0000 + d[o + 2] * 0x100 + d[o + 3]) % CODES
  }

  /** The number that the bytes write, most significant first. */
  function BigEndian(bytes: seq<Byte>): nat {
    if bytes == [] then 0 else BigEndian(bytes[..|bytes| - 1]) * 0x100 + bytes[|bytes| - 1]
  }

  lemma BigEndianSnoc(bytes: seq<Byte>, b: Byte)
    ensures BigEndian(bytes + [b]) == BigEndian(bytes) * 0x100 + b
  {
    assert (bytes + [b])[..|bytes|] == bytes;
  }

  lemma FourBytes(a: Byte, b: Byte, c: Byte, d: Byte)
    ensures var low: int := (a % 128) * 0x100_0000 + b * 0x1_0000 + c * 0x100 + d;
      BigEndian([a, b, c, d]) % 0x8000_0000 == low
  {
    var none: seq<Byte> := [];
    BigEndianSnoc(none, a);
    BigEndianSnoc(none + [a], b);
    BigEndianSnoc(none + [a] + [b], c);
    BigEndianSnoc(none + [a] + [b] + [c], d);
    assert none + [a] + [b] + [c] + [d] == [a, b, c, d];
    assert a == 128 * (a / 128) + a % 128;
    var low: int := (a % 128) * 0x100_0000 + b * 0x1_0000 + c * 0x100 + d;
    assert BigEndian([a, b, c, d]) == 0x8000_0000 * (a / 128) + low;
    assert 0 <= low < 0x8000_0000;
  }

  /** The code is the last six digits of the low 31 bits of the four bytes from the offset on, an
      offset that the low four bits of the last byte give. */
  lemma HotpIsTruncation(mac: Mac, secret: seq<Byte>, counter: nat)
    ensures var d := mac(secret, counter); var o := d[19] % 16;
      Hotp(mac, secret, counter) == BigEndian(d[o..o + 4]) % 0x8000_0000 % 1_000_000
  {
    var d := mac(secret, counter);
    var o := d[19] % 16;
    FourBytes(d[o], d[o + 1], d[o + 2], d[o + 3]);
    assert d[o..o + 4] == [d[o], d[o + 1], d[o + 2], d[o + 3]];
  }

  /** Unix seconds of a time in nanoseconds. */
  function Timestamp(now: int): int { now / Lockout.SECOND }

  /** Machine division rounds toward zero. */
  function TruncDiv(a: int, b: int): int
    requires b > 0
  {
    if a >= 0 then a / b else -((-a) / b)
  }

  function StepOf(now: int): int { TruncDiv(Timestamp(now), STEP_SECS) }

  /** `as u64`: negative steps wrap around. */
  function Counter(step: int): nat { step % 0x1_0000_0000_0000_0000 }

  function TotpAt(mac: Mac, secret: seq<Byte>, now: int): nat {
    Hotp(mac, secret, Counter(StepOf(now)))
  }

  function Shifted(now: int, offset: int): int { now + offset * STEP_SECS * Lockout.SECOND }

  /** The step of the first of the three tolerated clocks whose code was given.
      `code` is what the given text parses to, if it parses. */
  function MatchingStep(mac: Mac, secret: seq<Byte>, code: Option<nat>, now: int): Option<int> {
    if code.None? then None
    else if TotpAt(mac, secret, Shifted(now, -1)) == code.value then Some(StepOf(Shifted(now, -1)))
    else if TotpAt(mac, secret, now) == code.value then Some(StepOf(now))
    else if TotpAt(mac, secret, Shifted(now, 1)) == code.value then Some(StepOf(Shifted(now, 1)))
    else None
  }

  /** The step that a code given for a secret at a time matches, if any. */
  type Matcher = (seq<Byte>, Option<nat>, int) -> Option<int>

  function MatcherOf(mac: Mac): Matcher {
    (secret, code, now) => MatchingStep(mac, secret, code, now)
  }

  /** From the second step on, the tolerated clocks are the current step and its neighbours. */
  lemma ShiftedSteps(now: int)
    requires Timestamp(now) >= STEP_SECS
    ensures StepOf(Shifted(now, -1)) == StepOf(now) - 1
    ensures StepOf(Shifted(now, 1)) == StepOf(now) + 1
    ensures StepOf(now) == Timestamp(now) / STEP_SECS
  {
    assert Shifted(now, -1) / Lockout.SECOND == Timestamp(now) - STEP_SECS;
    assert Shifted(now, 1) / Lockout.SECOND == Timestamp(now) + STEP_SECS;
  }

  /** A code is accepted for a step only if it is that step's code, and the step is at most one
      away from the clock; any code that is right for one of the three steps is matched. */
  lemma MatchingStepIsClose(mac: Mac, secret: seq<Byte>, code: Option<nat>, now: int)
    requires Timestamp(now) >= STEP_SECS
    ensures var m := MatchingStep(mac, secret, code, now);
      && (m.Some? ==> StepOf(now) - 1 <= m.value <= StepOf(now) + 1)
      && (m.Some? ==> code == Some(Hotp(mac, secret, Counter(m.value))))
      && (m.Some? <==>
            exists i :: StepOf(now) - 1 <= i <= StepOf(now) + 1 && code == Some(Hotp(mac, secret, Counter(i))))
  {
    ShiftedSteps(now);
    var s := StepOf(now);
    if code.Some? && MatchingStep(mac, secret, code, now).None? {
      forall i | s - 1 <= i <= s + 1 ensures code != Some(Hotp(mac, secret, Counter(i))) {
        assert i == s - 1 || i == s || i == s + 1;
      }
    }
  }

  // ---------------------------------------------------------------- counting acceptances

  predicate Increasing(steps: seq<int>) {
    forall i, j :: 0 <= i < j < |steps| ==> steps[i] < steps[j]
  }

  /** Increasing numbers between two bounds are no more than the bounds allow. */
  lemma {:induction false} IncreasingFit(steps: seq<int>, lo: int, hi: int)
    requires Increasing(steps) && lo <= hi + 1
    requires forall i :: 0 <= i < |steps| ==> lo <= steps[i] <= hi
    ensures |steps| <= hi - lo + 1
  {
    if steps != [] {
      IncreasingFit(steps[..|steps| - 1], lo, steps[|steps| - 1] - 1);
    }
  }
}
