/** The multi-tenant router (crates/open-web-server-gateway/src/tenant_router.rs): one vector of
    tenants per host, shown to stand for a finite map from (host, path prefix) to tenant. */
module TenantRouter {
  import opened Common

  datatype BackendKind = OpenRuno | PoemCosmoTauri

  datatype TenantConfig = TenantConfig(
    host: string, backend: BackendKind, backendAddr: string, dbUri: string,
    pathPrefix: Option<string>, overrideHost: Option<string>, stripPrefix: bool)

  datatype TenantError = NotFound(host: string) | AlreadyExists(host: string)

  type Key = (string, Option<string>)
  type Vectors = map<string, seq<TenantConfig>>
  type Routes = map<Key, TenantConfig>

  function KeyOf(c: TenantConfig): Key {
    (c.host, c.pathPrefix)
  }

  function At(v: Vectors, host: string): seq<TenantConfig> {
    if host in v then v[host] else []
  }

  // ---------------------------------------------------------------- the operations on vectors

  predicate Holds(entries: seq<TenantConfig>, prefix: Option<string>) {
    exists i :: 0 <= i < |entries| && entries[i].pathPrefix == prefix
  }

  predicate Distinct(entries: seq<TenantConfig>) {
    forall i, j :: 0 <= i < j < |entries| ==> entries[i].pathPrefix != entries[j].pathPrefix
  }

  /** `retain` of the entries with another prefix. */
  function Without(entries: seq<TenantConfig>, prefix: Option<string>): (r: seq<TenantConfig>)
    ensures forall c :: c in r <==> c in entries && c.pathPrefix != prefix
    ensures |r| <= |entries|
    ensures |r| == |entries| <==> !Holds(entries, prefix)
    ensures Distinct(entries) ==> Distinct(r)
  {
    if entries == [] then [] else
      var n := |entries| - 1;
      var rest := Without(entries[..n], prefix);
      assert entries == entries[..n] + [entries[n]];
      if entries[n].pathPrefix == prefix then rest else rest + [entries[n]]
  }

  function Push(v: Vectors, c: TenantConfig): Vectors {
    v[c.host := At(v, c.host) + [c]]
  }

  function AddVec(v: Vectors, c: TenantConfig): (Vectors, Option<TenantError>) {
    if Holds(At(v, c.host), c.pathPrefix) then (v, Some(AlreadyExists(c.host))) else (Push(v, c), None)
  }

  function UpsertVec(v: Vectors, c: TenantConfig): Vectors {
    v[c.host := Without(At(v, c.host), c.pathPrefix) + [c]]
  }

  function RemoveVec(v: Vectors, host: string, prefix: Option<string>): (Vectors, Option<TenantError>) {
    var rest := Without(At(v, host), prefix);
    if !Holds(At(v, host), prefix) then (v, Some(NotFound(host)))
    else if rest == [] then (v - {host}, None)
    else (v[host := rest], None)
  }

  /** `load_from_toml` on a parsed list: no duplicate check. */
  function Load(v: Vectors, cs: seq<TenantConfig>): Vectors
    decreases |cs|
  {
    if cs == [] then v else Push(Load(v, cs[..|cs| - 1]), cs[|cs| - 1])
  }

  /** The list written to the file when the hosts are visited in the order `hosts`. */
  function Flatten(v: Vectors, hosts: seq<string>): seq<TenantConfig>
    decreases |hosts|
  {
    if hosts == [] then [] else Flatten(v, hosts[..|hosts| - 1]) + At(v, hosts[|hosts| - 1])
  }

  ghost predicate Enumerates(hosts: seq<string>, s: set<string>) {
    && (forall h :: h in hosts <==> h in s)
    && (forall i, j :: 0 <= i < j < |hosts| ==> hosts[i] != hosts[j])
  }

  // ---------------------------------------------------------------- lookup

  predicate PathMatchesPrefix(prefix: string, path: string) {
    if prefix == "/" then path == "/" else prefix <= path
  }

  predicate Candidate(c: TenantConfig, path: string) {
    c.pathPrefix.Some? && c.pathPrefix.value != "" && PathMatchesPrefix(c.pathPrefix.value, path)
  }

  /** The candidate with the longest prefix; of several equally long ones the last. */
  function Longest(entries: seq<TenantConfig>, path: string): (r: Option<TenantConfig>)
    ensures r.Some? ==> r.value in entries && Candidate(r.value, path)
    ensures forall c :: c in entries && Candidate(c, path) ==>
      r.Some? && |c.pathPrefix.value| <= |r.value.pathPrefix.value|
  {
    if entries == [] then None else
      var n := |entries| - 1;
      var last, rest := entries[n], Longest(entries[..n], path);
      assert entries == entries[..n] + [last];
      if !Candidate(last, path) then rest
      else if rest.Some? && |rest.value.pathPrefix.value| > |last.pathPrefix.value| then rest
      else Some(last)
  }

  function FirstWithoutPrefix(entries: seq<TenantConfig>): (r: Option<TenantConfig>)
    ensures r.Some? ==> r.value in entries && r.value.pathPrefix.None?
    ensures r.None? ==> !Holds(entries, None)
  {
    if entries == [] then None
    else if entries[0].pathPrefix.None? then Some(entries[0])
    else FirstWithoutPrefix(entries[1..])
  }

  /** The text before the first colon. */
  function HostPart(header: string): (r: string)
    ensures r <= header && ':' !in r
    ensures |r| < |header| ==> header[|r|] == ':'
  {
    header[..IndexOf(header, ':')]
  }

  function ResolvePrefixOnly(v: Vectors, header: string, path: string): Option<TenantConfig> {
    Longest(At(v, HostPart(header)), path)
  }

  function ResolveHostOnly(v: Vectors, header: string): Option<TenantConfig> {
    FirstWithoutPrefix(At(v, HostPart(header)))
  }

  function Resolve(v: Vectors, header: string, path: string): Option<TenantConfig> {
    var r := ResolvePrefixOnly(v, header, path);
    if r.Some? then r else ResolveHostOnly(v, header)
  }

  // ---------------------------------------------------------------- the map behind the vectors

  /** No empty vector and no duplicate pair. */
  predicate Tidy(v: Vectors) {
    forall h :: h in v ==> v[h] != [] && Distinct(v[h])
  }

  predicate EntriesRouted(v: Vectors, m: Routes) {
    forall h, c :: h in v && c in v[h] ==> c.host == h && KeyOf(c) in m && m[KeyOf(c)] == c
  }

  predicate RoutesHeld(v: Vectors, m: Routes) {
    forall k :: k in m ==> KeyOf(m[k]) == k && k.0 in v && m[k] in v[k.0]
  }

  predicate Represents(v: Vectors, m: Routes) {
    Tidy(v) && EntriesRouted(v, m) && RoutesHeld(v, m)
  }

  function AddMap(m: Routes, c: TenantConfig): (Routes, Option<TenantError>) {
    if KeyOf(c) in m then (m, Some(AlreadyExists(c.host))) else (m[KeyOf(c) := c], None)
  }

  function RemoveMap(m: Routes, host: string, prefix: Option<string>): (Routes, Option<TenantError>) {
    if (host, prefix) in m then (m - {(host, prefix)}, None) else (m, Some(NotFound(host)))
  }

  lemma HoldsIffRouted(v: Vectors, m: Routes, host: string, prefix: Option<string>)
    requires Represents(v, m)
    ensures Holds(At(v, host), prefix) <==> (host, prefix) in m
  {
    if (host, prefix) in m {
      var i :| 0 <= i < |v[host]| && v[host][i] == m[(host, prefix)];
      assert Holds(v[host], prefix);
    }
    if Holds(At(v, host), prefix) {
      var i :| 0 <= i < |v[host]| && v[host][i].pathPrefix == prefix;
      assert v[host][i] in v[host] && KeyOf(v[host][i]) == (host, prefix);
    }
  }

  lemma AppendDistinct(entries: seq<TenantConfig>, c: TenantConfig)
    ensures Distinct(entries + [c]) <==> Distinct(entries) && !Holds(entries, c.pathPrefix)
  {
    var all := entries + [c];
    if Distinct(all) {
      forall i, j | 0 <= i < j < |entries| ensures entries[i].pathPrefix != entries[j].pathPrefix {
        assert all[i] == entries[i] && all[j] == entries[j];
      }
      forall i | 0 <= i < |entries| ensures entries[i].pathPrefix != c.pathPrefix {
        assert all[i] == entries[i] && all[|entries|] == c;
      }
    }
  }

  lemma UpsertRefines(v: Vectors, m: Routes, c: TenantConfig)
    requires Represents(v, m)
    ensures Represents(UpsertVec(v, c), m[KeyOf(c) := c])
  {
    AppendDistinct(Without(At(v, c.host), c.pathPrefix), c);
    assert c in UpsertVec(v, c)[c.host];
  }

  /** `add` is map insertion, refused exactly when the (host, prefix) pair is taken. */
  lemma AddRefines(v: Vectors, m: Routes, c: TenantConfig)
    requires Represents(v, m)
    ensures AddVec(v, c).1 == if (c.host, c.pathPrefix) in m then Some(AlreadyExists(c.host)) else None
    ensures AddVec(v, c).1 == AddMap(m, c).1 && Represents(AddVec(v, c).0, AddMap(m, c).0)
  {
    HoldsIffRouted(v, m, c.host, c.pathPrefix);
    if KeyOf(c) !in m {
      AppendDistinct(At(v, c.host), c);
      assert c in Push(v, c)[c.host];
    }
  }

  lemma RemoveKeepsTidy(v: Vectors, host: string, prefix: Option<string>)
    requires Tidy(v)
    ensures Tidy(RemoveVec(v, host, prefix).0)
  {
  }

  lemma RemoveKeepsEntries(v: Vectors, m: Routes, host: string, prefix: Option<string>)
    requires EntriesRouted(v, m) && Holds(At(v, host), prefix)
    ensures EntriesRouted(RemoveVec(v, host, prefix).0, m - {(host, prefix)})
  {
    var u := RemoveVec(v, host, prefix).0;
    forall h: string, c: TenantConfig | h in u && c in u[h] ensures c in v[h] && KeyOf(c) != (host, prefix) {
      if h == host { assert c in Without(v[host], prefix); }
    }
  }

  lemma RemoveKeepsRoutes(v: Vectors, m: Routes, host: string, prefix: Option<string>)
    requires RoutesHeld(v, m) && Holds(At(v, host), prefix)
    ensures RoutesHeld(RemoveVec(v, host, prefix).0, m - {(host, prefix)})
  {
    var u := RemoveVec(v, host, prefix).0;
    forall k | k in m && k != (host, prefix) ensures KeyOf(m[k]) == k && k.0 in u && m[k] in u[k.0] {
      assert m[k] in v[k.0];
      if k.0 == host { assert m[k] in Without(v[host], prefix); }
    }
  }

  lemma RemoveRefines(v: Vectors, m: Routes, host: string, prefix: Option<string>)
    requires Represents(v, m)
    ensures RemoveVec(v, host, prefix).1 == if (host, prefix) in m then None else Some(NotFound(host))
    ensures RemoveVec(v, host, prefix).1 == RemoveMap(m, host, prefix).1
    ensures Represents(RemoveVec(v, host, prefix).0, RemoveMap(m, host, prefix).0)
  {
    HoldsIffRouted(v, m, host, prefix);
    if (host, prefix) in m {
      RemoveKeepsTidy(v, host, prefix);
      RemoveKeepsEntries(v, m, host, prefix);
      RemoveKeepsRoutes(v, m, host, prefix);
    }
  }

  // ---------------------------------------------------------------- runs

  datatype Op =
    | Add(config: TenantConfig)
    | Upsert(config: TenantConfig)
    | RemovePrefixed(host: string, prefix: Option<string>)

  function NextVec(v: Vectors, op: Op): Vectors {
    match op
    case Add(c) => AddVec(v, c).0
    case Upsert(c) => UpsertVec(v, c)
    case RemovePrefixed(host, prefix) => RemoveVec(v, host, prefix).0
  }

  function RunVec(v: Vectors, ops: seq<Op>): Vectors
    decreases |ops|
  {
    if ops == [] then v else RunVec(NextVec(v, ops[0]), ops[1..])
  }

  function RunMap(m: Routes, ops: seq<Op>): Routes
    decreases |ops|
  {
    if ops == [] then m else
      var next := match ops[0]
        case Add(c) => AddMap(m, c).0
        case Upsert(c) => m[KeyOf(c) := c]
        case RemovePrefixed(host, prefix) => RemoveMap(m, host, prefix).0;
      RunMap(next, ops[1..])
  }

  /** Over any run the vectors stand for the map that the same operations build: no duplicate
      pair and no host with an empty vector ever appears. */
  lemma {:induction false} RunRefines(v: Vectors, m: Routes, ops: seq<Op>)
    requires Represents(v, m)
    ensures Represents(RunVec(v, ops), RunMap(m, ops))
    decreases |ops|
  {
    if ops != [] {
      match ops[0] {
        case Add(c) =>
          AddRefines(v, m, c);
          RunRefines(AddVec(v, c).0, AddMap(m, c).0, ops[1..]);
        case Upsert(c) =>
          UpsertRefines(v, m, c);
          RunRefines(UpsertVec(v, c), m[KeyOf(c) := c], ops[1..]);
        case RemovePrefixed(host, prefix) =>
          RemoveRefines(v, m, host, prefix);
          RunRefines(RemoveVec(v, host, prefix).0, RemoveMap(m, host, prefix).0, ops[1..]);
      }
    }
  }

  // ---------------------------------------------------------------- resolution is a lookup in the map

  /** `prefix` routes `path` at `host`. */
  predicate PrefixRoute(m: Routes, host: string, path: string, prefix: string) {
    (host, Some(prefix)) in m && prefix != "" && PathMatchesPrefix(prefix, path)
  }

  /** What the map says about a request: the one strictly longest prefix route, or else the
      tenant without a prefix. */
  ghost predicate Routed(m: Routes, host: string, path: string, r: Option<TenantConfig>) {
    || (&& r.Some? && r.value.pathPrefix.Some?
        && PrefixRoute(m, host, path, r.value.pathPrefix.value)
        && r.value == m[(host, r.value.pathPrefix)]
        && forall q :: PrefixRoute(m, host, path, q) && q != r.value.pathPrefix.value ==>
             |q| < |r.value.pathPrefix.value|)
    || (&& (forall q :: !PrefixRoute(m, host, path, q))
        && r == if (host, None) in m then Some(m[(host, None)]) else None)
  }

  /** Two matching prefixes of one length are the same prefix. */
  lemma SameLengthSamePrefix(p: string, q: string, path: string)
    requires PathMatchesPrefix(p, path) && PathMatchesPrefix(q, path) && |p| == |q|
    ensures p == q
  {
    assert p == path[..|p|] && q == path[..|q|];
  }

  lemma LongestIsRouted(v: Vectors, m: Routes, host: string, path: string)
    requires Represents(v, m)
    ensures var r := Longest(At(v, host), path);
      if r.Some? then Routed(m, host, path, r) else forall q :: !PrefixRoute(m, host, path, q)
  {
    var r := Longest(At(v, host), path);
    forall q | PrefixRoute(m, host, path, q)
      ensures r.Some? && (q != r.value.pathPrefix.value ==> |q| < |r.value.pathPrefix.value|)
    {
      var c := m[(host, Some(q))];
      assert c in At(v, host) && Candidate(c, path);
      if |q| == |r.value.pathPrefix.value| {
        SameLengthSamePrefix(q, r.value.pathPrefix.value, path);
      }
    }
    if r.Some? {
      assert r.value in v[host] && KeyOf(r.value) in m;
      assert PrefixRoute(m, host, path, r.value.pathPrefix.value);
    }
  }

  /** `resolve` answers what the map says. */
  lemma ResolveRefines(v: Vectors, m: Routes, header: string, path: string)
    requires Represents(v, m)
    ensures Routed(m, HostPart(header), path, Resolve(v, header, path))
  {
    var host := HostPart(header);
    LongestIsRouted(v, m, host, path);
    HoldsIffRouted(v, m, host, None);
    var r := FirstWithoutPrefix(At(v, host));
    if r.Some? {
      assert r.value in v[host] && KeyOf(r.value) == (host, None);
      assert Holds(v[host], None) by {
        var i :| 0 <= i < |v[host]| && v[host][i] == r.value;
      }
    }
  }

  /** `resolve` in full. A prefix fits a path that starts with it, but "/" fits the path "/" alone.
      The longest registered non-empty prefix that fits wins, and without one the tenant without
      a prefix; so for any path but "/" a tenant under "/" is never the answer. */
  lemma ResolveExactly(v: Vectors, m: Routes, header: string, path: string)
    requires Represents(v, m)
    ensures var host, r := HostPart(header), Resolve(v, header, path);
      && (forall p: string ::
            (host, Some(p)) in m && ((p == "/" && path == "/") || (p != "/" && p != "" && p <= path)) ==>
              r.Some? && r.value.pathPrefix.Some? && |p| <= |r.value.pathPrefix.value|)
      && (r.Some? && r.value.pathPrefix.Some? ==>
            var p := r.value.pathPrefix.value;
            && (host, Some(p)) in m && r.value == m[(host, Some(p))]
            && ((p == "/" && path == "/") || (p != "/" && p != "" && p <= path)))
      && (r.None? || r.value.pathPrefix.None? ==>
            r == if (host, None) in m then Some(m[(host, None)]) else None)
      && (path != "/" && r.Some? ==> r.value.pathPrefix != Some("/"))
  {
    var host, r := HostPart(header), Resolve(v, header, path);
    ResolveRefines(v, m, header, path);
    forall p: string | (host, Some(p)) in m && ((p == "/" && path == "/") || (p != "/" && p != "" && p <= path))
      ensures PrefixRoute(m, host, path, p)
    {
    }
    if (host, None) in m { assert m[(host, None)].pathPrefix.None?; }
  }

  /** The map determines the answer, so the order inside the vectors never matters. */
  lemma RoutedIsUnique(m: Routes, host: string, path: string, r: Option<TenantConfig>, s: Option<TenantConfig>)
    requires Routed(m, host, path, r) && Routed(m, host, path, s)
    ensures r == s
  {
  }

  // ---------------------------------------------------------------- loading and saving

  predicate KeysDistinct(cs: seq<TenantConfig>) {
    forall i, j :: 0 <= i < j < |cs| ==> KeyOf(cs[i]) != KeyOf(cs[j])
  }

  predicate KeysNew(m: Routes, cs: seq<TenantConfig>) {
    forall i :: 0 <= i < |cs| ==> KeyOf(cs[i]) !in m
  }

  predicate Clean(m: Routes, cs: seq<TenantConfig>) {
    KeysDistinct(cs) && KeysNew(m, cs)
  }

  ghost predicate HasDuplicate(v: Vectors) {
    exists h :: h in v && !Distinct(v[h])
  }

  function Put(m: Routes, cs: seq<TenantConfig>): Routes
    decreases |cs|
  {
    if cs == [] then m else Put(m, cs[..|cs| - 1])[KeyOf(cs[|cs| - 1]) := cs[|cs| - 1]]
  }

  predicate Listed(cs: seq<TenantConfig>, k: Key) {
    exists i :: 0 <= i < |cs| && KeyOf(cs[i]) == k
  }

  lemma ListedSnoc(cs: seq<TenantConfig>, k: Key)
    requires cs != []
    ensures Listed(cs, k) <==> Listed(cs[..|cs| - 1], k) || KeyOf(cs[|cs| - 1]) == k
  {
    var front := cs[..|cs| - 1];
    if Listed(front, k) {
      var i :| 0 <= i < |front| && KeyOf(front[i]) == k;
      assert KeyOf(cs[i]) == k;
    }
    if Listed(cs, k) && KeyOf(cs[|cs| - 1]) != k {
      var i :| 0 <= i < |cs| && KeyOf(cs[i]) == k;
      assert KeyOf(front[i]) == k;
    }
  }

  lemma {:induction false} PutKeys(m: Routes, cs: seq<TenantConfig>)
    ensures forall k :: k in Put(m, cs) <==> k in m || Listed(cs, k)
    decreases |cs|
  {
    if cs != [] {
      PutKeys(m, cs[..|cs| - 1]);
      forall k ensures k in Put(m, cs) <==> k in m || Listed(cs, k) { ListedSnoc(cs, k); }
    }
  }

  lemma {:induction false} PutValues(m: Routes, cs: seq<TenantConfig>)
    requires KeysDistinct(cs)
    ensures forall i :: 0 <= i < |cs| ==> KeyOf(cs[i]) in Put(m, cs) && Put(m, cs)[KeyOf(cs[i])] == cs[i]
    decreases |cs|
  {
    if cs != [] {
      var n := |cs| - 1;
      assert forall i :: 0 <= i < n ==> cs[..n][i] == cs[i];
      PutValues(m, cs[..n]);
    }
  }

  /** Loading a list without duplicates is inserting it into the map. */
  lemma {:induction false} LoadRefines(v: Vectors, m: Routes, cs: seq<TenantConfig>)
    requires Represents(v, m) && Clean(m, cs)
    ensures Represents(Load(v, cs), Put(m, cs))
    decreases |cs|
  {
    if cs != [] {
      var n := |cs| - 1;
      assert forall i :: 0 <= i < n ==> cs[..n][i] == cs[i];
      LoadRefines(v, m, cs[..n]);
      PutKeys(m, cs[..n]);
      assert !Listed(cs[..n], KeyOf(cs[n]));
      AddRefines(Load(v, cs[..n]), Put(m, cs[..n]), cs[n]);
      HoldsIffRouted(Load(v, cs[..n]), Put(m, cs[..n]), cs[n].host, cs[n].pathPrefix);
    }
  }

  lemma PushKeeps(v: Vectors, c: TenantConfig, host: string, prefix: Option<string>)
    ensures Holds(At(v, host), prefix) ==> Holds(At(Push(v, c), host), prefix)
  {
    if Holds(At(v, host), prefix) {
      var i :| 0 <= i < |At(v, host)| && At(v, host)[i].pathPrefix == prefix;
      assert At(Push(v, c), host)[i] == At(v, host)[i];
    }
  }

  lemma PushHolds(v: Vectors, c: TenantConfig)
    ensures Holds(At(Push(v, c), c.host), c.pathPrefix)
  {
    assert At(Push(v, c), c.host)[|At(v, c.host)|] == c;
  }

  lemma {:induction false} LoadKeeps(v: Vectors, cs: seq<TenantConfig>, host: string, prefix: Option<string>)
    requires Holds(At(v, host), prefix) || Listed(cs, (host, prefix))
    ensures Holds(At(Load(v, cs), host), prefix)
    decreases |cs|
  {
    if cs != [] {
      var u, c := Load(v, cs[..|cs| - 1]), cs[|cs| - 1];
      ListedSnoc(cs, (host, prefix));
      if KeyOf(c) == (host, prefix) {
        PushHolds(u, c);
      } else {
        LoadKeeps(v, cs[..|cs| - 1], host, prefix);
        PushKeeps(u, c, host, prefix);
      }
    }
  }

  lemma DuplicateStays(v: Vectors, c: TenantConfig)
    requires HasDuplicate(v) || Holds(At(v, c.host), c.pathPrefix)
    ensures HasDuplicate(Push(v, c))
  {
    AppendDistinct(At(v, c.host), c);
    if HasDuplicate(v) {
      var h :| h in v && !Distinct(v[h]);
      assert h in Push(v, c) && !Distinct(Push(v, c)[h]);
    } else {
      assert !Distinct(Push(v, c)[c.host]);
    }
  }

  lemma FirstClash(m: Routes, cs: seq<TenantConfig>)
    requires cs != [] && Clean(m, cs[..|cs| - 1]) && !Clean(m, cs)
    ensures KeyOf(cs[|cs| - 1]) in m || Listed(cs[..|cs| - 1], KeyOf(cs[|cs| - 1]))
  {
    var n := |cs| - 1;
    assert forall i :: 0 <= i < n ==> cs[..n][i] == cs[i];
    if !KeysDistinct(cs) {
      var i, j :| 0 <= i < j < |cs| && KeyOf(cs[i]) == KeyOf(cs[j]);
      assert j == n && KeyOf(cs[..n][i]) == KeyOf(cs[n]);
    }
  }

  lemma {:induction false} LoadDuplicates(v: Vectors, m: Routes, cs: seq<TenantConfig>)
    requires Represents(v, m) && !Clean(m, cs)
    ensures HasDuplicate(Load(v, cs))
    decreases |cs|
  {
    var n := |cs| - 1;
    if Clean(m, cs[..n]) {
      FirstClash(m, cs);
      HoldsIffRouted(v, m, cs[n].host, cs[n].pathPrefix);
      LoadKeeps(v, cs[..n], cs[n].host, cs[n].pathPrefix);
    } else {
      LoadDuplicates(v, m, cs[..n]);
    }
    DuplicateStays(Load(v, cs[..n]), cs[n]);
  }

  /** `load_from_toml` checks no duplicates: it leaves none exactly when the list has none and
      clashes with nothing registered before. */
  lemma LoadIsCleanIff(v: Vectors, m: Routes, cs: seq<TenantConfig>)
    requires Represents(v, m)
    ensures !HasDuplicate(Load(v, cs)) <==> Clean(m, cs)
  {
    if Clean(m, cs) { LoadRefines(v, m, cs); } else { LoadDuplicates(v, m, cs); }
  }

  lemma {:induction false} FlattenMembers(v: Vectors, hosts: seq<string>)
    ensures forall c :: c in Flatten(v, hosts) <==> exists h :: h in hosts && c in At(v, h)
    decreases |hosts|
  {
    if hosts != [] {
      var n := |hosts| - 1;
      FlattenMembers(v, hosts[..n]);
      assert hosts == hosts[..n] + [hosts[n]];
    }
  }

  lemma ConcatDistinct(a: seq<TenantConfig>, b: seq<TenantConfig>, host: string)
    requires KeysDistinct(a) && Distinct(b)
    requires forall c :: c in a ==> c.host != host
    requires forall c :: c in b ==> c.host == host
    ensures KeysDistinct(a + b)
  {
    var all := a + b;
    forall i, j | 0 <= i < j < |all| ensures KeyOf(all[i]) != KeyOf(all[j]) {
      if j >= |a| { assert all[j] in b; }
      if i < |a| { assert all[i] in a; }
    }
  }

  lemma {:induction false} FlattenDistinct(v: Vectors, hosts: seq<string>)
    requires forall h :: h in v ==> Distinct(v[h])
    requires forall h, c :: h in v && c in v[h] ==> c.host == h
    requires forall i, j :: 0 <= i < j < |hosts| ==> hosts[i] != hosts[j]
    ensures KeysDistinct(Flatten(v, hosts))
    decreases |hosts|
  {
    if hosts != [] {
      var n := |hosts| - 1;
      FlattenDistinct(v, hosts[..n]);
      FlattenMembers(v, hosts[..n]);
      ConcatDistinct(Flatten(v, hosts[..n]), At(v, hosts[n]), hosts[n]);
    }
  }

  lemma FlattenIsComplete(v: Vectors, m: Routes, hosts: seq<string>)
    requires RoutesHeld(v, m) && Enumerates(hosts, v.Keys) && KeysDistinct(Flatten(v, hosts))
    ensures forall k :: k in m ==> k in Put(map[], Flatten(v, hosts)) && Put(map[], Flatten(v, hosts))[k] == m[k]
  {
    var cs := Flatten(v, hosts);
    PutValues(map[], cs);
    FlattenMembers(v, hosts);
    forall k | k in m ensures k in Put(map[], cs) && Put(map[], cs)[k] == m[k] {
      assert k.0 in hosts && m[k] in At(v, k.0);
      assert m[k] in cs;
      var i :| 0 <= i < |cs| && cs[i] == m[k];
    }
  }

  lemma FlattenIsSound(v: Vectors, m: Routes, hosts: seq<string>)
    requires EntriesRouted(v, m)
    ensures Put(map[], Flatten(v, hosts)).Keys <= m.Keys
  {
    var cs := Flatten(v, hosts);
    PutKeys(map[], cs);
    FlattenMembers(v, hosts);
    forall k | k in Put(map[], cs) ensures k in m {
      var i :| 0 <= i < |cs| && KeyOf(cs[i]) == k;
      assert cs[i] in cs;
      var h :| h in hosts && cs[i] in At(v, h);
    }
  }

  lemma SameMap(r: Routes, m: Routes)
    requires r.Keys <= m.Keys && forall k :: k in m ==> k in r && r[k] == m[k]
    ensures r == m
  {
    assert r.Keys == m.Keys;
  }

  /** Saving and reloading into a fresh registry gives back the very same map, whatever the
      order in which the hosts are written. */
  lemma RoundTrip(v: Vectors, m: Routes, hosts: seq<string>)
    requires Represents(v, m) && Enumerates(hosts, v.Keys)
    ensures Represents(Load(map[], Flatten(v, hosts)), m)
  {
    FlattenDistinct(v, hosts);
    FlattenIsComplete(v, m, hosts);
    FlattenIsSound(v, m, hosts);
    SameMap(Put(map[], Flatten(v, hosts)), m);
    LoadRefines(map[], map[], Flatten(v, hosts));
  }

  // ---------------------------------------------------------------- the registry

  class TenantRegistry {
    var tenants: Vectors
    var persistPath: bool
    /** What the file at the persist path parses to. */
    var file: seq<TenantConfig>

    constructor ()
      ensures tenants == map[] && !persistPath
    {
      tenants, persistPath, file := map[], false, [];
    }

    /** The file after an operation: a listing of the vectors if a path is set and the write
        succeeds, and otherwise what it was. */
    ghost predicate Saved(was: seq<TenantConfig>, written: bool)
      reads this
    {
      if persistPath && written then exists hosts :: Enumerates(hosts, tenants.Keys) && file == Flatten(tenants, hosts)
      else file == was
    }

    method Persist(written: bool)
      modifies this`file
      ensures Saved(old(file), written)
    {
      if !persistPath { return; }
      var domains, todo := [], tenants.Keys;
      ghost var hosts := [];
      while todo != {}
        invariant todo <= tenants.Keys
        invariant Enumerates(hosts, tenants.Keys - todo)
        invariant domains == Flatten(tenants, hosts)
        decreases |todo|
      {
        var h :| h in todo;
        todo := todo - {h};
        domains := domains + tenants[h];
        assert (hosts + [h])[..|hosts|] == hosts;
        hosts := hosts + [h];
      }
      assert tenants.Keys - {} == tenants.Keys;
      assert Enumerates(hosts, tenants.Keys);
      if written {
        file := domains;
        assert Enumerates(hosts, tenants.Keys) && file == Flatten(tenants, hosts);
      }
    }

    method LoadFromToml(domains: seq<TenantConfig>) returns (count: nat)
      modifies this`tenants
      ensures tenants == Load(old(tenants), domains) && count == |domains|
    {
      count := |domains|;
      var i := 0;
      while i < |domains|
        invariant 0 <= i <= |domains|
        invariant tenants == Load(old(tenants), domains[..i])
      {
        var c := domains[i];
        var entries := if c.host in tenants then tenants[c.host] else [];
        tenants := tenants[c.host := entries + [c]];
        assert domains[..i + 1][..i] == domains[..i];
        i := i + 1;
      }
      assert domains[..i] == domains;
    }

    method Add(c: TenantConfig, written: bool) returns (error: Option<TenantError>)
      modifies this`tenants, this`file
      ensures (tenants, error) == AddVec(old(tenants), c)
      ensures Saved(old(file), written && error.None?)
    {
      var entries := if c.host in tenants then tenants[c.host] else [];
      if Holds(entries, c.pathPrefix) {
        return Some(AlreadyExists(c.host));
      }
      tenants := tenants[c.host := entries + [c]];
      Persist(written);
      return None;
    }

    method Upsert(c: TenantConfig, written: bool)
      modifies this`tenants, this`file
      ensures tenants == UpsertVec(old(tenants), c)
      ensures Saved(old(file), written)
    {
      var entries := if c.host in tenants then tenants[c.host] else [];
      entries := Without(entries, c.pathPrefix);
      tenants := tenants[c.host := entries + [c]];
      Persist(written);
    }

    method RemovePrefixed(host: string, prefix: Option<string>, written: bool) returns (error: Option<TenantError>)
      modifies this`tenants, this`file
      ensures (tenants, error) == RemoveVec(old(tenants), host, prefix)
      ensures Saved(old(file), written && error.None?)
    {
      if host !in tenants { return Some(NotFound(host)); }
      var entries := tenants[host];
      var before := |entries|;
      entries := Without(entries, prefix);
      if |entries| == before { return Some(NotFound(host)); }
      tenants := tenants[host := entries];
      if entries == [] {
        tenants := tenants - {host};
        assert tenants == old(tenants) - {host};
      }
      Persist(written);
      return None;
    }
  }

  // ---------------------------------------------------------------- the forwarded path

  /** `strip_path_prefix`. */
  function StripPathPrefix(path: string, prefix: string): string {
    var stripped := if prefix <= path then path[|prefix|..] else path;
    if stripped == "" then "/" else if stripped[0] == '/' then stripped else "/" + stripped
  }

  /** The backend always gets a rooted path, and the prefix put back in front gives the
      original path exactly when the path goes on with a slash after the prefix. */
  lemma StripPathPrefixUndone(path: string, prefix: string)
    ensures StripPathPrefix(path, prefix) != "" && StripPathPrefix(path, prefix)[0] == '/'
    ensures prefix + StripPathPrefix(path, prefix) == path <==> prefix + "/" <= path
    ensures forall rest: string :: path == prefix + rest ==>
      StripPathPrefix(path, prefix) == if "/" <= rest then rest else "/" + rest
    ensures !(prefix <= path) && "/" <= path ==> StripPathPrefix(path, prefix) == path
  {
    var r := StripPathPrefix(path, prefix);
    if prefix + "/" <= path {
      assert path[|prefix|] == (prefix + "/")[|prefix|] == '/';
      assert prefix <= path by { assert path[..|prefix|] == (prefix + "/")[..|prefix|] == prefix; }
      assert path == prefix + path[|prefix|..];
    }
  }
}
