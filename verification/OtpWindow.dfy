/** The sliding-window limit on e-mail code requests per owner and address, with its bounded
    table (crates/open-web-server-gateway/src/two_factor.rs). */
module OtpWindow {
  import opened Common
  import opened Windows
  import Lockout

  const OTP_REQUEST_LIMIT: nat := 3
  const OTP_REQUEST_WINDOW: int := 300 * Lockout.SECOND
  const MAX_TRACKED_KEYS: nat := Lockout.MAX_TRACKED_KEYS

  type Table = map<string, seq<int>>

  /** The entries less than a window old (`Vec::retain`). */
  function Recent(times: seq<int>, now: int): (r: seq<int>)
    ensures |r| <= |times|
  {
    if times == [] then []
    else
      var last := times[|times| - 1];
      Recent(times[..|times| - 1], now) + if now - last < OTP_REQUEST_WINDOW then [last] else []
  }

  function Evict(table: Table, now: int): Table {
    map k | k in table && Recent(table[k], now) != [] :: table[k]
  }

  predicate ClearFires(table: Table, now: int) {
    |table| >= MAX_TRACKED_KEYS && |Evict(table, now)| >= MAX_TRACKED_KEYS
  }

  function Trim(table: Table, now: int): Table {
    if |table| < MAX_TRACKED_KEYS then table
    else if ClearFires(table, now) then map[]
    else Evict(table, now)
  }

  function Lookup(table: Table, key: string): seq<int> {
    if key in table then table[key] else []
  }

  /** The new table and whether the request is admitted. A refused request keeps its entry. */
  function Allow(table: Table, key: string, now: int): (Table, bool) {
    var trimmed := Trim(table, now);
    var times := Recent(Lookup(trimmed, key), now);
    if |times| >= OTP_REQUEST_LIMIT then (trimmed[key := times], false)
    else (trimmed[key := times + [now]], true)
  }

  lemma TableStaysBounded(table: Table, key: string, now: int)
    ensures |Allow(table, key, now).0| <= 10_000
  {
    InsertCardinality(Trim(table, now), key, Recent(Lookup(Trim(table, now), key), now));
    InsertCardinality(Trim(table, now), key, Recent(Lookup(Trim(table, now), key), now) + [now]);
  }

  /** Room is only made in a table of 10,000: then the keys without a recent request go, and all
      of them if that is not enough. */
  lemma RoomIsMade(table: Table, now: int)
    ensures var kept := map k | k in table && (exists t :: t in table[k] && now - t < 300_000_000_000) :: table[k];
      Trim(table, now) == if |table| < 10_000 then table else if |kept| < 10_000 then kept else map[]
  {
    forall k | k in table
      ensures Recent(table[k], now) != [] <==> exists t :: t in table[k] && now - t < 300_000_000_000
    {
      RecentIsNotEmpty(table[k], now);
    }
    assert Evict(table, now) ==
           map k | k in table && (exists t :: t in table[k] && now - t < 300_000_000_000) :: table[k];
  }

  lemma {:induction false} RecentIsNotEmpty(times: seq<int>, now: int)
    ensures Recent(times, now) != [] <==> exists t :: t in times && now - t < 300_000_000_000
    decreases |times|
  {
    if times != [] {
      var front, last := times[..|times| - 1], times[|times| - 1];
      assert times == front + [last];
      RecentIsNotEmpty(front, now);
      assert forall t :: t in times <==> t in front || t == last;
      if exists t :: t in front && now - t < 300_000_000_000 {
        var t :| t in front && now - t < 300_000_000_000;
        assert t in times;
      }
      if now - last < 300_000_000_000 { assert last in times; }
    }
  }

  // ---------------------------------------------------------------- keys

  /** `format!("{owner}\n{ip}")`. */
  function Key(owner: string, ip: string): string {
    owner + "\n" + ip
  }

  /** Two requests share an entry only if they share owner and address, even for owners that
      contain line breaks, since a printed address contains none. */
  lemma KeyInjective(owner: string, ip: string, owner': string, ip': string)
    requires '\n' !in ip && '\n' !in ip'
    requires Key(owner, ip) == Key(owner', ip')
    ensures owner == owner' && ip == ip'
  {
    var k := Key(owner, ip);
    LastBreak(owner, ip);
    LastBreak(owner', ip');
    assert k[|owner|] == '\n' && k[|owner'|] == '\n';
    assert k[..|owner|] == owner && k[..|owner'|] == owner';
    assert k[|owner| + 1..] == ip && k[|owner'| + 1..] == ip';
  }

  lemma LastBreak(owner: string, ip: string)
    requires '\n' !in ip
    ensures forall j :: |owner| < j < |Key(owner, ip)| ==> Key(owner, ip)[j] != '\n'
  {
    forall j | |owner| < j < |Key(owner, ip)| ensures Key(owner, ip)[j] != '\n' {
      assert Key(owner, ip)[j] == ip[j - |owner| - 1];
    }
  }

  // ---------------------------------------------------------------- the window over whole histories

  datatype Request = Request(key: string, now: int)

  /** Time does not go back and the wholesale `clear()` does not fire. */
  predicate Orderly(table: Table, clock: int, rs: seq<Request>)
    decreases |rs|
  {
    rs == [] ||
    (&& clock <= rs[0].now && !ClearFires(table, rs[0].now)
     && Orderly(Allow(table, rs[0].key, rs[0].now).0, rs[0].now, rs[1..]))
  }

  function RunTable(table: Table, rs: seq<Request>): Table
    decreases |rs|
  {
    if rs == [] then table else RunTable(Allow(table, rs[0].key, rs[0].now).0, rs[1..])
  }

  /** `h` followed by all times at which the run admits `key`. */
  function History(table: Table, rs: seq<Request>, key: string, h: seq<int>): seq<int>
    decreases |rs|
  {
    if rs == [] then h
    else
      History(Allow(table, rs[0].key, rs[0].now).0, rs[1..], key,
              Extend(h, Allow(table, rs[0].key, rs[0].now).1 && rs[0].key == key, rs[0].now))
  }

  lemma {:induction false} RecentLater(times: seq<int>, clock: int, now: int)
    requires clock <= now
    ensures Recent(Recent(times, clock), now) == Recent(times, now)
  {
    if times != [] {
      var init, last := times[..|times| - 1], times[|times| - 1];
      RecentLater(init, clock, now);
      var r := Recent(init, clock);
      if clock - last < OTP_REQUEST_WINDOW {
        assert (r + [last])[..|r|] == r;
      } else {
        assert r + [] == r && Recent(init, now) + [] == Recent(init, now);
      }
    }
  }

  lemma {:induction false} RecentSnoc(times: seq<int>, now: int, t: int)
    ensures Recent(times + [t], now) == Recent(times, now) + if now - t < OTP_REQUEST_WINDOW then [t] else []
  {
    assert (times + [t])[..|times|] == times;
  }

  /** The table remembers, of the full history `h` of admissions of a key, all that is recent. */
  ghost predicate Remembers(table: Table, clock: int, key: string, h: seq<int>) {
    Recent(Lookup(table, key), clock) == Recent(h, clock)
  }

  lemma RemembersLater(table: Table, clock: int, now: int, key: string, h: seq<int>)
    requires Remembers(table, clock, key, h) && clock <= now
    ensures Remembers(table, now, key, h)
  {
    RecentLater(Lookup(table, key), clock, now);
    RecentLater(h, clock, now);
  }

  /** The history of `key` after one request. */
  function Extend(h: seq<int>, gained: bool, now: int): seq<int> {
    if gained then h + [now] else h
  }

  lemma TrimRemembers(table: Table, clock: int, now: int, key: string, h: seq<int>)
    requires Remembers(table, clock, key, h) && clock <= now && !ClearFires(table, now)
    ensures Remembers(Trim(table, now), now, key, h)
  {
    RemembersLater(table, clock, now, key, h);
  }

  /** Recent is what happened in the last 300 seconds. */
  lemma RecentIsTheLast300Seconds(times: seq<int>, t: int, now: int)
    ensures Recent([], now) == []
    ensures Recent(times + [t], now) == Recent(times, now) + if now - t < 300_000_000_000 then [t] else []
  {
    assert (times + [t])[..|times|] == times;
  }

  /** A request is admitted exactly when fewer than three admissions are recent, counting the
      whole history and not only what the table still holds. */
  lemma AllowIsExact(table: Table, clock: int, r: Request, key: string, h: seq<int>)
    requires Remembers(table, clock, key, h) && clock <= r.now && !ClearFires(table, r.now)
    ensures var a := Allow(table, r.key, r.now);
      && (r.key == key ==> (a.1 <==> |Recent(h, r.now)| < 3))
      && Remembers(a.0, r.now, key, Extend(h, a.1 && r.key == key, r.now))
  {
    var trimmed, next := Trim(table, r.now), Allow(table, r.key, r.now).0;
    TrimRemembers(table, clock, r.now, key, h);
    if r.key == key {
      AdmissionRemembered(Lookup(trimmed, key), h, r.now);
      assert Lookup(next, key) == Extend(Recent(Lookup(trimmed, key), r.now), Allow(table, r.key, r.now).1, r.now);
    } else {
      assert Lookup(next, key) == Lookup(trimmed, key);
    }
  }

  /** Dropping what is not recent and adding an admission gives the same recent times as
      adding it to the whole history. */
  lemma AdmissionRemembered(times: seq<int>, h: seq<int>, now: int)
    requires Recent(times, now) == Recent(h, now)
    ensures Recent(Recent(times, now), now) == Recent(h, now)
    ensures Recent(Recent(times, now) + [now], now) == Recent(h + [now], now)
  {
    RecentLater(times, now, now);
    RecentSnoc(Recent(times, now), now, now);
    RecentSnoc(h, now, now);
  }

  // ---------------------------------------------------------------- eviction is invisible

  /** The limiter that forgets nothing: it keeps every admission of every key for ever. */
  function AllowKeepingAll(full: Table, key: string, now: int): (Table, bool) {
    var times := Lookup(full, key);
    if |Recent(times, now)| >= OTP_REQUEST_LIMIT then (full, false) else (full[key := times + [now]], true)
  }

  ghost predicate RemembersAll(table: Table, full: Table, clock: int) {
    forall key :: Remembers(table, clock, key, Lookup(full, key))
  }

  lemma RequestRemembersAll(table: Table, full: Table, clock: int, key: string, now: int)
    requires RemembersAll(table, full, clock) && clock <= now && !ClearFires(table, now)
    ensures Allow(table, key, now).1 == AllowKeepingAll(full, key, now).1
    ensures RemembersAll(Allow(table, key, now).0, AllowKeepingAll(full, key, now).0, now)
  {
    var r := Request(key, now);
    AllowIsExact(table, clock, r, key, Lookup(full, key));
    var next, all := Allow(table, key, now).0, AllowKeepingAll(full, key, now).0;
    forall k ensures Remembers(next, now, k, Lookup(all, k)) {
      AllowIsExact(table, clock, r, k, Lookup(full, k));
      assert Lookup(all, k) == Extend(Lookup(full, k), Allow(table, key, now).1 && k == key, now);
    }
  }

  function Answers(table: Table, rs: seq<Request>): seq<bool>
    decreases |rs|
  {
    if rs == [] then []
    else [Allow(table, rs[0].key, rs[0].now).1] + Answers(Allow(table, rs[0].key, rs[0].now).0, rs[1..])
  }

  function AnswersKeepingAll(full: Table, rs: seq<Request>): seq<bool>
    decreases |rs|
  {
    if rs == [] then []
    else
      [AllowKeepingAll(full, rs[0].key, rs[0].now).1]
      + AnswersKeepingAll(AllowKeepingAll(full, rs[0].key, rs[0].now).0, rs[1..])
  }

  /** As long as the wholesale `clear()` does not fire, the bounded table with its retained times
      answers every request of a run as the one that forgets nothing. */
  lemma {:induction false} EvictionIsInvisible(table: Table, full: Table, clock: int, rs: seq<Request>)
    requires RemembersAll(table, full, clock) && Orderly(table, clock, rs)
    ensures Answers(table, rs) == AnswersKeepingAll(full, rs)
    decreases |rs|
  {
    if rs != [] {
      RequestRemembersAll(table, full, clock, rs[0].key, rs[0].now);
      EvictionIsInvisible(Allow(table, rs[0].key, rs[0].now).0, AllowKeepingAll(full, rs[0].key, rs[0].now).0,
                          rs[0].now, rs[1..]);
    }
  }

  /** No four admissions within one window. */
  predicate Sparse(h: seq<int>) {
    Spread(h, OTP_REQUEST_LIMIT, OTP_REQUEST_WINDOW)
  }

  lemma {:induction false} RecentSuffix(h: seq<int>, now: int)
    requires NonDecreasing(h) && |Recent(h, now)| < OTP_REQUEST_LIMIT <= |h|
    ensures h[|h| - OTP_REQUEST_LIMIT] + OTP_REQUEST_WINDOW <= now
  {
    var n := |h|;
    var c, x, y, z := h[..n - 3], h[n - 3], h[n - 2], h[n - 1];
    assert h == c + [x] + [y] + [z];
    RecentSnoc(c, now, x);
    RecentSnoc(c + [x], now, y);
    RecentSnoc(c + [x] + [y], now, z);
    assert x <= y <= z;
  }

  /** Extending a spread history by an admission that the limit allows. */
  lemma AdmissionKeepsSpread(h: seq<int>, clock: int, now: int)
    requires NonDecreasing(h) && Sparse(h) && (forall i :: 0 <= i < |h| ==> h[i] <= clock) && clock <= now
    requires |Recent(h, now)| < OTP_REQUEST_LIMIT
    ensures NonDecreasing(h + [now]) && Sparse(h + [now])
  {
    if |h| >= OTP_REQUEST_LIMIT { RecentSuffix(h, now); }
  }

  /** What is known of the table and the history of `key` between two requests. */
  ghost predicate Tracks(table: Table, clock: int, key: string, h: seq<int>) {
    && Remembers(table, clock, key, h)
    && NonDecreasing(h) && Sparse(h)
    && forall i :: 0 <= i < |h| ==> h[i] <= clock
  }

  lemma TracksAfter(h: seq<int>, clock: int, next: Table, now: int, key: string, gained: bool)
    requires NonDecreasing(h) && Sparse(h) && (forall i :: 0 <= i < |h| ==> h[i] <= clock) && clock <= now
    requires gained ==> |Recent(h, now)| < OTP_REQUEST_LIMIT
    requires Remembers(next, now, key, Extend(h, gained, now))
    ensures Tracks(next, now, key, Extend(h, gained, now))
  {
    if gained { AdmissionKeepsSpread(h, clock, now); }
  }

  lemma StepTracks(table: Table, clock: int, r: Request, key: string, h: seq<int>)
    requires Tracks(table, clock, key, h) && clock <= r.now && !ClearFires(table, r.now)
    ensures var a := Allow(table, r.key, r.now); Tracks(a.0, r.now, key, Extend(h, a.1 && r.key == key, r.now))
  {
    var a := Allow(table, r.key, r.now);
    AllowIsExact(table, clock, r, key, h);
    TracksAfter(h, clock, a.0, r.now, key, a.1 && r.key == key);
  }

  lemma {:induction false} RunTracks(table: Table, clock: int, rs: seq<Request>, key: string, h: seq<int>)
    requires Orderly(table, clock, rs) && Tracks(table, clock, key, h)
    ensures NonDecreasing(History(table, rs, key, h)) && Sparse(History(table, rs, key, h))
    decreases |rs|
  {
    if rs != [] {
      StepTracks(table, clock, rs[0], key, h);
      RunTracks(Allow(table, rs[0].key, rs[0].now).0, rs[0].now, rs[1..], key,
                Extend(h, Allow(table, rs[0].key, rs[0].now).1 && rs[0].key == key, rs[0].now));
    }
  }

  /** Starting with no entries, each owner and address is admitted at most three times in any
      half-open 300-second interval, whatever the other requests do. */
  lemma AtMostThreePerWindow(clock: int, rs: seq<Request>, key: string, from: int)
    requires Orderly(map[], clock, rs)
    ensures CountWithin(History(map[], rs, key, []), from, 300_000_000_000) <= 3
  {
    RunTracks(map[], clock, rs, key, []);
    SpreadBoundsCount(History(map[], rs, key, []), from, OTP_REQUEST_LIMIT, OTP_REQUEST_WINDOW);
  }
}
