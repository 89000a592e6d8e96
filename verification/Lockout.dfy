/** The table of consecutive login failures, with its windowed lockout and its bounded size
    (crates/open-web-server-gateway/src/two_factor.rs). Times are integers in nanoseconds. */
module Lockout {
  import opened Common
  import opened Windows

  const SECOND: int := 1_000_000_000
  const MINUTE: int := 60 * SECOND
  const MAX_FAILED_ATTEMPTS: nat := 5
  const LOCKOUT: int := 15 * MINUTE
  const MAX_TRACKED_KEYS: nat := 10_000

  datatype FailureState = FailureState(failures: nat, windowStart: int, lockedUntil: Option<int>)

  type Table = map<string, FailureState>

  predicate LockedAt(f: FailureState, now: int) {
    f.lockedUntil.Some? && f.lockedUntil.value > now
  }

  predicate IsLocked(table: Table, owner: string, now: int) {
    owner in table && LockedAt(table[owner], now)
  }

  /** An entry that eviction may drop: not locked, and its window is over. */
  predicate Stale(f: FailureState, now: int) {
    !LockedAt(f, now) && now - f.windowStart >= LOCKOUT
  }

  function Evict(table: Table, now: int): Table {
    map k | k in table && !Stale(table[k], now) :: table[k]
  }

  predicate ClearFires(table: Table, now: int) {
    |table| >= MAX_TRACKED_KEYS && |Evict(table, now)| >= MAX_TRACKED_KEYS
  }

  /** Making room before an entry is touched. */
  function Trim(table: Table, now: int): Table {
    if |table| < MAX_TRACKED_KEYS then table
    else if ClearFires(table, now) then map[]
    else Evict(table, now)
  }

  /** One more failure on an entry; `None` is an owner without an entry. */
  function Count(f: Option<FailureState>, now: int): FailureState {
    var blank := FailureState(0, now, None);
    var current := if f.None? || Stale(f.value, now) then blank else f.value;
    if current.failures + 1 >= MAX_FAILED_ATTEMPTS then FailureState(0, now, Some(now + LOCKOUT))
    else current.(failures := current.failures + 1)
  }

  function Lookup(table: Table, owner: string): Option<FailureState> {
    if owner in table then Some(table[owner]) else None
  }

  /** The table that never evicts. */
  function CountIn(table: Table, owner: string, now: int): Table {
    table[owner := Count(Lookup(table, owner), now)]
  }

  function RecordFailure(table: Table, owner: string, now: int): Table {
    CountIn(Trim(table, now), owner, now)
  }

  // ---------------------------------------------------------------- the table stays small

  lemma TrimIsSmall(table: Table, now: int)
    ensures |Trim(table, now)| < MAX_TRACKED_KEYS
  {
  }

  lemma TableStaysBounded(table: Table, owner: string, now: int)
    ensures |RecordFailure(table, owner, now)| <= 10_000
  {
    TrimIsSmall(table, now);
    InsertCardinality(Trim(table, now), owner, Count(Lookup(Trim(table, now), owner), now));
  }

  /** Room is only made in a table of 10,000: then what is neither locked nor younger than fifteen
      minutes goes, and everything if that is not enough. */
  lemma RoomIsMade(table: Table, now: int)
    ensures var kept := map k | k in table &&
                                (LockedAt(table[k], now) || now - table[k].windowStart < 900_000_000_000) :: table[k];
      Trim(table, now) == if |table| < 10_000 then table else if |kept| < 10_000 then kept else map[]
  {
    assert Evict(table, now) == map k | k in table &&
      (LockedAt(table[k], now) || now - table[k].windowStart < 900_000_000_000) :: table[k];
  }

  // ---------------------------------------------------------------- eviction is invisible

  datatype Op = Fail(owner: string, now: int) | Forget(owner: string)

  function ApplyBounded(table: Table, op: Op): Table {
    match op
    case Fail(owner, now) => RecordFailure(table, owner, now)
    case Forget(owner) => table - {owner}
  }

  function ApplyUnbounded(table: Table, op: Op): Table {
    match op
    case Fail(owner, now) => CountIn(table, owner, now)
    case Forget(owner) => table - {owner}
  }

  /** Time does not go back, and the table is never cleared wholesale. */
  predicate Orderly(table: Table, clock: int, ops: seq<Op>)
    decreases |ops|
  {
    ops == [] ||
    (&& (ops[0].Fail? ==> clock <= ops[0].now && !ClearFires(table, ops[0].now))
     && Orderly(ApplyBounded(table, ops[0]), ClockAfter(clock, ops[0]), ops[1..]))
  }

  function ClockAfter(clock: int, op: Op): int {
    if op.Fail? then op.now else clock
  }

  function RunBounded(table: Table, ops: seq<Op>): Table
    decreases |ops|
  {
    if ops == [] then table else RunBounded(ApplyBounded(table, ops[0]), ops[1..])
  }

  function RunUnbounded(table: Table, ops: seq<Op>): Table
    decreases |ops|
  {
    if ops == [] then table else RunUnbounded(ApplyUnbounded(table, ops[0]), ops[1..])
  }

  function RunClock(clock: int, ops: seq<Op>): int
    decreases |ops|
  {
    if ops == [] then clock else RunClock(ClockAfter(clock, ops[0]), ops[1..])
  }

  /** The bounded table lacks only entries that are stale by now. */
  ghost predicate Refines(bounded: Table, full: Table, clock: int) {
    && (forall k :: k in bounded ==> k in full && bounded[k] == full[k])
    && (forall k :: k in full && k !in bounded ==> Stale(full[k], clock))
  }

  lemma StepRefines(bounded: Table, full: Table, clock: int, op: Op)
    requires Refines(bounded, full, clock)
    requires op.Fail? ==> clock <= op.now && !ClearFires(bounded, op.now)
    ensures Refines(ApplyBounded(bounded, op), ApplyUnbounded(full, op), ClockAfter(clock, op))
  {
    if op.Fail? {
      assert Refines(Trim(bounded, op.now), full, op.now);
    }
  }

  /** As long as the wholesale `clear()` does not fire, the table with eviction says "locked"
      exactly when the table that keeps everything does. */
  lemma {:induction false} EvictionIsInvisible(bounded: Table, full: Table, clock: int, ops: seq<Op>,
                                               owner: string, now: int)
    requires Refines(bounded, full, clock) && Orderly(bounded, clock, ops)
    requires RunClock(clock, ops) <= now
    ensures IsLocked(RunBounded(bounded, ops), owner, now) == IsLocked(RunUnbounded(full, ops), owner, now)
    ensures Count(Lookup(RunBounded(bounded, ops), owner), now) == Count(Lookup(RunUnbounded(full, ops), owner), now)
    decreases |ops|
  {
    if ops != [] {
      StepRefines(bounded, full, clock, ops[0]);
      EvictionIsInvisible(ApplyBounded(bounded, ops[0]), ApplyUnbounded(full, ops[0]),
                          ClockAfter(clock, ops[0]), ops[1..], owner, now);
    }
  }

  // ---------------------------------------------------------------- the lockout bound

  /** Most failures of one owner in a half-open lockout period. */
  const MOST_PER_PERIOD: nat := 2 * MAX_FAILED_ATTEMPTS - 2

  /** What an owner's entry says about the times `h` of all failures recorded so far.
      The last `failures` of them belong to the open window, which starts at the first of
      these; all but three of the earlier ones are at least a period older than that. */
  ghost predicate Explains(f: Option<FailureState>, clock: int, h: seq<int>) {
    && NonDecreasing(h) && Spread(h, MOST_PER_PERIOD, LOCKOUT)
    && (forall j :: 0 <= j < |h| ==> h[j] <= clock)
    && match f
       case None => forall j :: 0 <= j <= |h| - 4 ==> h[j] + LOCKOUT <= clock
       case Some(FailureState(n, start, None)) =>
         && 1 <= n < MAX_FAILED_ATTEMPTS && n <= |h| && h[|h| - n] == start
         && forall j :: 0 <= j <= |h| - n - 4 ==> h[j] + LOCKOUT <= start
       case Some(FailureState(n, start, Some(until))) =>
         && n == 0 && until == start + LOCKOUT && start <= clock
         && forall j :: 0 <= j < |h| ==> h[j] <= start
  }

  lemma ExplainsLater(f: Option<FailureState>, clock: int, later: int, h: seq<int>)
    requires Explains(f, clock, h) && clock <= later
    ensures Explains(f, later, h)
    ensures f.Some? && Stale(f.value, later) ==> Explains(None, later, h)
  {
    if f.Some? && Stale(f.value, later) {
      var start := f.value.windowStart;
      forall j | 0 <= j <= |h| - 4 ensures h[j] + LOCKOUT <= later {
        if f.value.lockedUntil.None? {
          var first := |h| - f.value.failures;
          assert j <= first;
          if j < first { assert h[j] <= h[first]; }
        }
      }
    }
  }

  /** A failure is only recorded for an owner that is not locked. */
  lemma CountExplains(f: Option<FailureState>, clock: int, now: int, h: seq<int>)
    requires Explains(f, clock, h) && clock <= now
    requires f.Some? ==> !LockedAt(f.value, now)
    ensures Explains(Some(Count(f, now)), now, h + [now])
  {
    ExplainsLater(f, clock, now, h);
    var current := if f.Some? && Stale(f.value, now) then None else f;
    assert Explains(current, now, h);
    OneMoreIsSpread(current, now, h);
    assert Count(f, now) == Count(current, now);
    match current {
      case None =>
      case Some(c) => if c.failures + 1 >= MAX_FAILED_ATTEMPTS {} else {}
    }
  }

  /** The failure eight back is a period old. */
  lemma OneMoreIsSpread(f: Option<FailureState>, now: int, h: seq<int>)
    requires Explains(f, now, h) && (f.Some? ==> !LockedAt(f.value, now) && !Stale(f.value, now))
    ensures Spread(h + [now], MOST_PER_PERIOD, LOCKOUT) && NonDecreasing(h + [now])
  {
    if |h| >= MOST_PER_PERIOD {
      var i := |h| - MOST_PER_PERIOD;
      if f.None? { assert h[i] + LOCKOUT <= now; } else { assert h[i] + LOCKOUT <= f.value.windowStart; }
    }
  }

  /** The failures of one owner in a row, each made while the owner is not locked. */
  predicate Unlocked(f: Option<FailureState>, times: seq<int>)
    decreases |times|
  {
    times == [] ||
    ((f.Some? ==> !LockedAt(f.value, times[0])) && Unlocked(Some(Count(f, times[0])), times[1..]))
  }

  /** The bound is exact: one failure, three just before its window ends, five right after. */
  function WorstCase(): seq<int> {
    [0, LOCKOUT - 1, LOCKOUT - 1, LOCKOUT - 1, LOCKOUT, LOCKOUT, LOCKOUT, LOCKOUT, LOCKOUT]
  }

  /** The entry after failures at these times. */
  function CountAll(f: Option<FailureState>, times: seq<int>): Option<FailureState>
    decreases |times|
  {
    if times == [] then f else Some(Count(CountAll(f, times[..|times| - 1]), times[|times| - 1]))
  }

  /** Five failures within fifteen minutes lock: not one before the fifth, and then for fifteen
      minutes from the fifth on. */
  lemma FifthFailureLocks(a: int, b: int, c: int, d: int, e: int, now: int)
    requires a <= b <= c <= d <= e < a + 900_000_000_000
    ensures var four := CountAll(None, [a, b, c, d]); four.Some? && !LockedAt(four.value, now)
    ensures var five := CountAll(None, [a, b, c, d, e]);
      five.Some? && (LockedAt(five.value, now) <==> now < e + 900_000_000_000)
  {
    assert [a, b, c, d, e][..4] == [a, b, c, d] && [a, b, c, d][..3] == [a, b, c];
    assert [a, b, c][..2] == [a, b] && [a, b][..1] == [a] && [a][..0] == [];
    assert CountAll(None, []) == None;
    assert CountAll(None, [a]) == Some(FailureState(1, a, None));
    assert CountAll(None, [a, b]) == Some(FailureState(2, a, None));
    assert CountAll(None, [a, b, c]) == Some(FailureState(3, a, None));
    assert CountAll(None, [a, b, c, d]) == Some(FailureState(4, a, None));
  }

  /** A failure fifteen minutes after the first one of a window starts a new window. */
  lemma OldFailuresAreForgotten(f: FailureState, now: int)
    requires !LockedAt(f, now) && f.windowStart + 900_000_000_000 <= now
    ensures Count(Some(f), now) == Count(None, now)
  {
  }

  lemma EightIsReached()
    ensures NonDecreasing(WorstCase()) && Unlocked(None, WorstCase())
    ensures CountWithin(WorstCase(), LOCKOUT - 1, LOCKOUT) == MOST_PER_PERIOD
  {
    WorstCaseOrdered();
    WorstCaseUnlocked();
    WorstCaseCount();
  }

  lemma WorstCaseOrdered()
    ensures NonDecreasing(WorstCase())
  {
  }

  lemma WorstCaseUnlocked()
    ensures Unlocked(None, WorstCase())
  {
    var h5 := WorstCaseEnd();
    WorstCaseEndUnlocked();
    var h4 := [LOCKOUT] + h5;
    UnlockedStep(Some(FailureState(4, 0, None)), LOCKOUT, h5);
    var h3 := [LOCKOUT - 1] + h4;
    UnlockedStep(Some(FailureState(3, 0, None)), LOCKOUT - 1, h4);
    var h2 := [LOCKOUT - 1] + h3;
    UnlockedStep(Some(FailureState(2, 0, None)), LOCKOUT - 1, h3);
    var h1 := [LOCKOUT - 1] + h2;
    UnlockedStep(Some(FailureState(1, 0, None)), LOCKOUT - 1, h2);
    UnlockedStep(None, 0, h1);
    assert [0] + h1 == WorstCase();
  }

  function WorstCaseEnd(): seq<int> {
    [LOCKOUT, LOCKOUT, LOCKOUT, LOCKOUT]
  }

  /** The fifth failure falls into a new window, which takes five. */
  lemma WorstCaseEndUnlocked()
    ensures Unlocked(Some(FailureState(1, LOCKOUT, None)), WorstCaseEnd())
  {
    var h8 := [LOCKOUT];
    UnlockedStep(Some(FailureState(4, LOCKOUT, None)), LOCKOUT, []);
    assert [LOCKOUT] + [] == h8;
    var h7 := [LOCKOUT] + h8;
    UnlockedStep(Some(FailureState(3, LOCKOUT, None)), LOCKOUT, h8);
    var h6 := [LOCKOUT] + h7;
    UnlockedStep(Some(FailureState(2, LOCKOUT, None)), LOCKOUT, h7);
    UnlockedStep(Some(FailureState(1, LOCKOUT, None)), LOCKOUT, h6);
    assert [LOCKOUT] + h6 == WorstCaseEnd();
  }

  lemma WorstCaseCount()
    ensures CountWithin(WorstCase(), LOCKOUT - 1, LOCKOUT) == MOST_PER_PERIOD
  {
    var h := WorstCase();
    assert CountWithin(h[..0], LOCKOUT - 1, LOCKOUT) == 0;
    CountWithinSnoc(h, 0); CountWithinSnoc(h, 1); CountWithinSnoc(h, 2);
    CountWithinSnoc(h, 3); CountWithinSnoc(h, 4); CountWithinSnoc(h, 5);
    CountWithinSnoc(h, 6); CountWithinSnoc(h, 7); CountWithinSnoc(h, 8);
    assert h[..9] == h;
  }

  lemma UnlockedStep(f: Option<FailureState>, time: int, times: seq<int>)
    requires f.Some? ==> !LockedAt(f.value, time)
    requires Unlocked(Some(Count(f, time)), times)
    ensures Unlocked(f, [time] + times)
  {
    assert ([time] + times)[1..] == times;
  }

  lemma CountWithinSnoc(h: seq<int>, n: nat)
    requires n < |h|
    ensures CountWithin(h[..n + 1], LOCKOUT - 1, LOCKOUT) ==
            CountWithin(h[..n], LOCKOUT - 1, LOCKOUT) + if LOCKOUT - 1 <= h[n] < LOCKOUT - 1 + LOCKOUT then 1 else 0
  {
    assert h[..n + 1][..n] == h[..n];
  }
}
