/** The tenant registry with lists loaded from files, which may hold duplicates: what a save and
    a reload give back, and which of several entries a request gets. */
module TenantReload {
  import opened Common
  import opened TenantRouter

  // ---------------------------------------------------------------- saving and reloading

  /** No empty vector, and every entry is filed under its own host. */
  predicate WellFiled(v: Vectors) {
    forall h :: h in v ==> FiledUnder(v[h], h) && v[h] != []
  }

  predicate FiledUnder(entries: seq<TenantConfig>, host: string) {
    forall i :: 0 <= i < |entries| ==> entries[i].host == host
  }

  lemma WithoutStaysFiled(entries: seq<TenantConfig>, prefix: Option<string>, host: string)
    requires FiledUnder(entries, host)
    ensures FiledUnder(Without(entries, prefix), host)
  {
    var rest := Without(entries, prefix);
    forall i | 0 <= i < |rest| ensures rest[i].host == host {
      assert rest[i] in entries;
    }
  }

  lemma OpKeepsFiled(v: Vectors, op: Op)
    requires WellFiled(v)
    ensures WellFiled(NextVec(v, op))
  {
    match op {
      case Add(c) =>
      case Upsert(c) => WithoutStaysFiled(At(v, c.host), c.pathPrefix, c.host);
      case RemovePrefixed(host, prefix) => WithoutStaysFiled(At(v, host), prefix, host);
    }
  }

  lemma {:induction false} LoadKeepsFiled(v: Vectors, cs: seq<TenantConfig>)
    requires WellFiled(v)
    ensures WellFiled(Load(v, cs))
    decreases |cs|
  {
    if cs != [] { LoadKeepsFiled(v, cs[..|cs| - 1]); }
  }

  /** All that changes the vectors. */
  datatype Call = Change(op: Op) | LoadFile(domains: seq<TenantConfig>)

  function RunCalls(v: Vectors, calls: seq<Call>): Vectors
    decreases |calls|
  {
    if calls == [] then v
    else RunCalls(if calls[0].Change? then NextVec(v, calls[0].op) else Load(v, calls[0].domains), calls[1..])
  }

  lemma {:induction false} RunKeepsFiled(v: Vectors, calls: seq<Call>)
    requires WellFiled(v)
    ensures WellFiled(RunCalls(v, calls))
    decreases |calls|
  {
    if calls != [] {
      match calls[0] {
        case Change(op) =>
          OpKeepsFiled(v, op);
          RunKeepsFiled(NextVec(v, op), calls[1..]);
        case LoadFile(domains) =>
          LoadKeepsFiled(v, domains);
          RunKeepsFiled(Load(v, domains), calls[1..]);
      }
    }
  }

  lemma {:induction false} LoadConcat(v: Vectors, a: seq<TenantConfig>, b: seq<TenantConfig>)
    ensures Load(v, a + b) == Load(Load(v, a), b)
    decreases |b|
  {
    if b == [] {
      assert a + b == a;
    } else {
      var n := |b| - 1;
      assert (a + b)[..|a + b| - 1] == a + b[..n] && (a + b)[|a + b| - 1] == b[n];
      LoadConcat(v, a, b[..n]);
    }
  }

  lemma {:induction false} LoadOneHost(v: Vectors, entries: seq<TenantConfig>, host: string)
    requires FiledUnder(entries, host) && entries != []
    ensures Load(v, entries) == v[host := At(v, host) + entries]
    decreases |entries|
  {
    var n := |entries| - 1;
    assert entries == entries[..n] + [entries[n]];
    if n > 0 {
      LoadOneHost(v, entries[..n], host);
      assert At(v, host) + entries[..n] + [entries[n]] == At(v, host) + entries;
    } else {
      assert Load(v, entries[..n]) == v;
    }
  }

  function Restricted(v: Vectors, hosts: seq<string>): Vectors
    requires forall h :: h in hosts ==> h in v
  {
    map h | h in hosts :: v[h]
  }

  lemma RestrictedSnoc(v: Vectors, front: seq<string>, h: string)
    requires h in v && h !in front && forall g :: g in front ==> g in v
    ensures Restricted(v, front + [h]) == Restricted(v, front)[h := v[h]]
    ensures At(Restricted(v, front), h) == []
  {
    assert forall g :: g in front + [h] <==> g in front || g == h;
  }

  lemma FlattenSnoc(v: Vectors, front: seq<string>, h: string)
    requires h in v
    ensures Flatten(v, front + [h]) == Flatten(v, front) + v[h]
  {
    assert (front + [h])[..|front|] == front;
  }

  lemma {:induction false} ReloadSome(v: Vectors, hosts: seq<string>)
    requires WellFiled(v) && forall h :: h in hosts ==> h in v
    requires forall i, j :: 0 <= i < j < |hosts| ==> hosts[i] != hosts[j]
    ensures Load(map[], Flatten(v, hosts)) == Restricted(v, hosts)
    decreases |hosts|
  {
    if hosts != [] {
      var n := |hosts| - 1;
      var front, h := hosts[..n], hosts[n];
      assert hosts == front + [h];
      ReloadSome(v, front);
      FlattenSnoc(v, front, h);
      LoadConcat(map[], Flatten(v, front), v[h]);
      LoadOneHost(Restricted(v, front), v[h], h);
      RestrictedSnoc(v, front, h);
      assert [] + v[h] == v[h];
    }
  }

  /** Saving the vectors and loading the file into a fresh registry gives back the very same
      vectors, duplicates and their order included, in whatever order the hosts are written. */
  lemma ReloadGivesBackTheVectors(v: Vectors, hosts: seq<string>)
    requires WellFiled(v) && Enumerates(hosts, v.Keys)
    ensures Load(map[], Flatten(v, hosts)) == v
  {
    ReloadSome(v, hosts);
    assert Restricted(v, hosts) == v;
  }

  /** After any run of additions, updates, removals and loaded files, a save and a reload leave
      every request with the answer it had. */
  lemma ReloadResolvesTheSame(calls: seq<Call>, hosts: seq<string>, header: string, path: string)
    requires Enumerates(hosts, RunCalls(map[], calls).Keys)
    ensures var v := RunCalls(map[], calls);
      && Load(map[], Flatten(v, hosts)) == v
      && Resolve(Load(map[], Flatten(v, hosts)), header, path) == Resolve(v, header, path)
  {
    RunKeepsFiled(map[], calls);
    ReloadGivesBackTheVectors(RunCalls(map[], calls), hosts);
  }

  // ---------------------------------------------------------------- who wins among duplicates

  /** Entry `i` beats every other match: its prefix is longer, or as long and the entry later. */
  predicate WinsByPrefix(entries: seq<TenantConfig>, path: string, i: nat) {
    && i < |entries|
    && Candidate(entries[i], path)
    && forall j :: 0 <= j < |entries| && Candidate(entries[j], path) ==> BeatenBy(entries[j], j, entries[i], i)
  }

  predicate BeatenBy(c: TenantConfig, j: nat, d: TenantConfig, i: nat)
    requires c.pathPrefix.Some? && d.pathPrefix.Some?
  {
    || |c.pathPrefix.value| < |d.pathPrefix.value|
    || (|c.pathPrefix.value| == |d.pathPrefix.value| && j <= i)
  }

  /** No prefix matches, and entry `i` is the first without a prefix. */
  predicate WinsWithoutPrefix(entries: seq<TenantConfig>, path: string, i: nat) {
    && i < |entries|
    && entries[i].pathPrefix.None?
    && (forall j :: 0 <= j < i ==> entries[j].pathPrefix.Some?)
    && (forall j :: 0 <= j < |entries| ==> !Candidate(entries[j], path))
  }

  lemma {:induction false} LastOfTheLongestWins(entries: seq<TenantConfig>, path: string, i: nat)
    requires WinsByPrefix(entries, path, i)
    ensures Longest(entries, path) == Some(entries[i])
    decreases |entries|
  {
    var n := |entries| - 1;
    var front := entries[..n];
    if i < n {
      assert front[i] == entries[i];
      forall j | 0 <= j < n && Candidate(front[j], path)
        ensures BeatenBy(front[j], j, front[i], i)
      {
        assert BeatenBy(entries[j], j, entries[i], i);
      }
      LastOfTheLongestWins(front, path, i);
      if Candidate(entries[n], path) { assert BeatenBy(entries[n], n, entries[i], i); }
    } else {
      var rest := Longest(front, path);
      if rest.Some? {
        var j :| 0 <= j < n && front[j] == rest.value;
        assert BeatenBy(entries[j], j, entries[i], i);
      }
    }
  }

  lemma {:induction false} FirstWithoutPrefixWins(entries: seq<TenantConfig>, i: nat)
    requires i < |entries| && entries[i].pathPrefix.None?
    requires forall j :: 0 <= j < i ==> entries[j].pathPrefix.Some?
    ensures FirstWithoutPrefix(entries) == Some(entries[i])
    decreases |entries|
  {
    if i > 0 {
      assert forall j :: 0 <= j < i - 1 ==> entries[1..][j] == entries[j + 1];
      FirstWithoutPrefixWins(entries[1..], i - 1);
    }
  }

  /** Among duplicates the two halves of `resolve` disagree on who wins: of equally long prefixes
      the last entry, of entries without a prefix the first. */
  lemma ResolveWinner(v: Vectors, header: string, path: string, i: nat)
    requires var es := At(v, HostPart(header)); WinsByPrefix(es, path, i) || WinsWithoutPrefix(es, path, i)
    ensures Resolve(v, header, path) == Some(At(v, HostPart(header))[i])
  {
    var es := At(v, HostPart(header));
    if WinsByPrefix(es, path, i) {
      LastOfTheLongestWins(es, path, i);
    } else {
      FirstWithoutPrefixWins(es, i);
      assert forall c :: c in es ==> !Candidate(c, path);
    }
  }

  /** With a loaded duplicate the two halves of `resolve` disagree on who wins: the first entry
      without a prefix, but the last of two entries with the same prefix. */
  lemma DuplicatesDisagree(a: TenantConfig, b: TenantConfig, path: string)
    requires a != b && KeyOf(a) == KeyOf(b) && ':' !in a.host
    ensures var v := Load(map[], [a, b]);
      && (a.pathPrefix.None? ==> Resolve(v, a.host, path) == Some(a))
      && (Candidate(a, path) ==> Resolve(v, a.host, path) == Some(b))
  {
    assert [a, b][..1] == [a] && [a][..0] == [];
    assert Load(map[], [a]) == Push(map[], a);
    var entries := [a, b];
    assert At(Load(map[], [a, b]), a.host) == entries;
    var h := HostPart(a.host);
    assert h == a.host;
    assert entries[..1] == [a] && Longest([a], path) == if Candidate(a, path) then Some(a) else None;
  }
}
