/** The IP allowlist (crates/open-web-server-gateway/src/ip_allowlist.rs). An address is the bit
    string of its octets, most significant bit first, so that one proof covers both families. */
module IpAllowlist {
  import opened Common
  import opened Arithmetic
  import opened Words

  datatype Address = V4(bits: Word) | V6(bits: Word)

  type IpAddr = a: Address | |a.bits| == Bits(a) witness V4(seq(32, _ => false))

  datatype AllowEntry = Exact(addr: IpAddr) | Cidr(network: IpAddr, prefixLen: nat)

  /** The text formats of addresses and prefix lengths, and `trim`. */
  datatype Syntax = Syntax(trim: string -> string, address: string -> Option<IpAddr>, number: string -> Option<nat>)

  function Bits(a: Address): nat {
    if a.V4? then 32 else 128
  }

  // ---------------------------------------------------------------- masks

  /** `if prefix_len == 0 { 0 } else { MAX << (width - prefix_len) }`. */
  function Mask(width: nat, prefixLen: nat): (m: Word)
    requires prefixLen <= width
    ensures |m| == width
  {
    if prefixLen == 0 then Fill(false, width) else Shl(Fill(true, width), width - prefixLen)
  }

  // ---------------------------------------------------------------- parsing and matching

  function Parse(syntax: Syntax, text: string): Option<AllowEntry> {
    var s := syntax.trim(text);
    var slash := IndexOf(s, '/');
    if s == "" then None
    else if slash == |s| then
      match syntax.address(s) case Some(addr) => Some(Exact(addr)) case None => None
    else
      match (syntax.address(s[..slash]), syntax.number(s[slash + 1..]))
      case (Some(network), Some(n)) => if n < 256 && n <= Bits(network) then Some(Cidr(network, n)) else None
      case _ => None
  }

  /** What a text stands for: one address, or an address and a prefix length no longer than it. */
  lemma ParseIff(syntax: Syntax, text: string, a: IpAddr, n: nat)
    ensures var s := syntax.trim(text);
      && (Parse(syntax, text) == Some(Exact(a)) <==> s != "" && '/' !in s && syntax.address(s) == Some(a))
      && (Parse(syntax, text) == Some(Cidr(a, n)) <==>
            && n <= (if a.V4? then 32 else 128)
            && exists left: string, right: string ::
                 && s == left + "/" + right && '/' !in left
                 && syntax.address(left) == Some(a) && syntax.number(right) == Some(n))
  {
    var s := syntax.trim(text);
    var slash := IndexOf(s, '/');
    if slash < |s| {
      assert s == s[..slash] + "/" + s[slash + 1..];
      assert '/' !in s[..slash];
    }
    forall left: string, right: string | s == left + "/" + right && '/' !in left
      ensures slash == |left| && s[..slash] == left && s[slash + 1..] == right
    {
      assert s[|left|] == '/';
      assert slash >= |left| by { assert forall i :: 0 <= i < |left| ==> s[i] == left[i]; }
    }
  }

  predicate Fits(e: AllowEntry) {
    e.Cidr? ==> e.prefixLen <= Bits(e.network)
  }

  predicate SameFamily(a: IpAddr, b: IpAddr) {
    a.V4? <==> b.V4?
  }

  predicate Matches(e: AllowEntry, candidate: IpAddr)
    requires Fits(e)
  {
    match e
    case Exact(addr) => addr == candidate
    case Cidr(network, prefixLen) =>
      SameFamily(network, candidate) &&
      var mask := Mask(Bits(network), prefixLen);
      And(network.bits, mask) == And(candidate.bits, mask)
  }

  function IsAllowed(syntax: Syntax, entries: seq<string>, candidate: IpAddr): bool {
    if entries == [] then false
    else
      var e := Parse(syntax, entries[0]);
      (e.Some? && Matches(e.value, candidate)) || IsAllowed(syntax, entries[1..], candidate)
  }

  // ---------------------------------------------------------------- masking is division

  lemma MaskIsPrefixOnes(width: nat, prefixLen: nat)
    requires prefixLen <= width
    ensures forall i :: 0 <= i < width ==> Mask(width, prefixLen)[i] == (i < prefixLen)
  {
  }

  lemma MaskedEqualIffPrefixEqual(a: Word, b: Word, prefixLen: nat)
    requires |a| == |b| && prefixLen <= |a|
    ensures And(a, Mask(|a|, prefixLen)) == And(b, Mask(|a|, prefixLen)) <==> a[..prefixLen] == b[..prefixLen]
  {
    var m := Mask(|a|, prefixLen);
    MaskIsPrefixOnes(|a|, prefixLen);
    if And(a, m) == And(b, m) {
      forall i | 0 <= i < prefixLen ensures a[i] == b[i] {
        assert And(a, m)[i] == And(b, m)[i];
      }
    }
    if a[..prefixLen] == b[..prefixLen] {
      forall i | 0 <= i < |a| ensures And(a, m)[i] == And(b, m)[i] {
        if i < prefixLen { assert a[..prefixLen][i] == b[..prefixLen][i]; }
      }
    }
  }

  /** Dropping the last k bits divides by 2^k. */
  lemma {:induction false} PrefixIsQuotient(w: Word, k: nat)
    requires k <= |w|
    ensures Number(w) / Pow2(k) == Number(w[..|w| - k])
    decreases k
  {
    var n := |w|;
    if k == 0 {
      assert w[..n] == w;
    } else {
      PrefixIsQuotient(w[..n - 1], k - 1);
      assert w[..n - 1][..n - k] == w[..n - k];
      HalfQuotient(Number(w), Pow2(k - 1));
    }
  }

  /** For every prefix length, mask matching is agreement under division by 2^(W - p). */
  lemma MatchIffSameQuotient(network: IpAddr, prefixLen: nat, candidate: IpAddr)
    requires prefixLen <= Bits(network) && SameFamily(network, candidate)
    ensures Matches(Cidr(network, prefixLen), candidate) <==>
      var block := Pow2(Bits(network) - prefixLen);
      Number(network.bits) / block == Number(candidate.bits) / block
  {
    var a, b, k := network.bits, candidate.bits, Bits(network) - prefixLen;
    MaskedEqualIffPrefixEqual(a, b, prefixLen);
    PrefixIsQuotient(a, k);
    PrefixIsQuotient(b, k);
    if Number(a[..prefixLen]) == Number(b[..prefixLen]) { NumberIsInjective(a[..prefixLen], b[..prefixLen]); }
  }

  // ---------------------------------------------------------------- blocks

  function BlockSize(e: AllowEntry): nat
    requires Fits(e)
  {
    if e.Exact? then 1 else Pow2(Bits(e.network) - e.prefixLen)
  }

  function Anchor(e: AllowEntry): IpAddr {
    if e.Exact? then e.addr else e.network
  }

  /** The multiple of `m` at or below `v`. */
  function Floor(v: nat, m: nat): (r: nat)
    requires m > 0
    ensures r == v / m * m
  {
    v - v % m
  }

  /** The first address of the block. */
  function First(e: AllowEntry): nat
    requires Fits(e)
  {
    Floor(Number(Anchor(e).bits), BlockSize(e))
  }

  lemma SameQuotientIffInBlock(v: nat, u: nat, m: nat)
    requires m > 0
    ensures v / m == u / m <==> v / m * m <= u < v / m * m + m
  {
    var q := v / m;
    assert u == (u / m) * m + u % m;
    if q == u / m {
    } else if q * m <= u < q * m + m {
      DivUnique(u, q, u - q * m, m);
    }
  }

  /** An entry admits exactly the addresses of its family in one aligned block. */
  lemma AdmitsExactlyItsBlock(e: AllowEntry, candidate: IpAddr)
    requires Fits(e)
    ensures Matches(e, candidate) <==>
      SameFamily(Anchor(e), candidate) && First(e) <= Number(candidate.bits) < First(e) + BlockSize(e)
    ensures First(e) % BlockSize(e) == 0
  {
    DivUnique(First(e), Number(Anchor(e).bits) / BlockSize(e), 0, BlockSize(e));
    if e.Cidr? {
      if SameFamily(e.network, candidate) {
        MatchIffSameQuotient(e.network, e.prefixLen, candidate);
        SameQuotientIffInBlock(Number(e.network.bits), Number(candidate.bits), BlockSize(e));
      }
    } else if SameFamily(e.addr, candidate) && Number(e.addr.bits) == Number(candidate.bits) {
      NumberIsInjective(e.addr.bits, candidate.bits);
    }
  }

  lemma {:induction false} Pow2Splits(k: nat, width: nat)
    requires k <= width
    ensures Pow2(width) == Pow2(width - k) * Pow2(k)
    decreases k
  {
    if k > 0 {
      Pow2Splits(k - 1, width);
      assert Pow2(width - (k - 1)) == 2 * Pow2(width - k);
      assert 2 * Pow2(width - k) * Pow2(k - 1) == Pow2(width - k) * (2 * Pow2(k - 1));
    }
  }

  /** The whole block consists of addresses: each of its BlockSize numbers is admitted. */
  lemma EveryNumberOfTheBlockIsAdmitted(e: AllowEntry, v: nat) returns (a: IpAddr)
    requires Fits(e) && First(e) <= v < First(e) + BlockSize(e)
    ensures SameFamily(Anchor(e), a) && Number(a.bits) == v && Matches(e, a)
  {
    var w, m := Bits(Anchor(e)), BlockSize(e);
    var k := if e.Exact? then 0 else w - e.prefixLen;
    NumberFits(Anchor(e).bits);
    Pow2Splits(k, w);
    BlockEnds(Number(Anchor(e).bits), Pow2(w - k), m);
    NumberOfWordOf(v, w);
    a := if Anchor(e).V4? then V4(WordOf(v, 32)) else V6(WordOf(v, 128));
    AdmitsExactlyItsBlock(e, a);
  }

  lemma BlockEnds(v: nat, blocks: nat, m: nat)
    requires m > 0 && v < blocks * m
    ensures v / m * m + m <= blocks * m
  {
    assert v == v / m * m + v % m;
    if v / m >= blocks { MulMonotone(blocks, v / m, m); }
    MulMonotone(v / m + 1, blocks, m);
  }

  lemma QuotientTwice(v: nat, m: nat, c: nat)
    requires m > 0 && c > 0
    ensures v / (m * c) == v / m / c
  {
    var q, r := v / m, v % m;
    var q2, r2 := q / c, q % c;
    assert v == q * m + r && q == q2 * c + r2;
    assert q * m == q2 * (m * c) + r2 * m;
    MulMonotone(r2, c - 1, m);
    assert m * c > 0 by { MulMonotone(1, c, m); }
    DivUnique(v, q2, r2 * m + r, m * c);
  }

  lemma SameCoarseQuotient(u: nat, v: nat, w: nat, p: nat, q: nat)
    requires p <= q <= w && u / Pow2(w - q) == v / Pow2(w - q)
    ensures u / Pow2(w - p) == v / Pow2(w - p)
  {
    Pow2Splits(q - p, w - p);
    QuotientTwice(u, Pow2(w - q), Pow2(q - p));
    QuotientTwice(v, Pow2(w - q), Pow2(q - p));
  }

  lemma SameSide(outer: IpAddr, p: nat, inner: IpAddr, q: nat, a: IpAddr)
    requires p <= q <= Bits(outer) && SameFamily(outer, inner)
    requires Matches(Cidr(inner, q), a)
    ensures Matches(Cidr(outer, p), a) <==> Matches(Cidr(outer, p), inner)
  {
    var u, v, k := Number(inner.bits), Number(a.bits), Bits(outer) - p;
    assert u / Pow2(k) == v / Pow2(k) by {
      MatchIffSameQuotient(inner, q, a);
      SameCoarseQuotient(u, v, Bits(outer), p, q);
    }
    MatchIffSameQuotient(outer, p, a);
    MatchIffSameQuotient(outer, p, inner);
  }

  /** Of two entries of one family, the one with the longer prefix lies inside the other or
      apart from it. */
  lemma NestedOrDisjoint(outer: IpAddr, p: nat, inner: IpAddr, q: nat)
    requires p <= q <= Bits(outer) && SameFamily(outer, inner)
    ensures if Matches(Cidr(outer, p), inner)
            then forall a: IpAddr :: Matches(Cidr(inner, q), a) ==> Matches(Cidr(outer, p), a)
            else forall a: IpAddr :: Matches(Cidr(inner, q), a) ==> !Matches(Cidr(outer, p), a)
  {
    forall a: IpAddr | Matches(Cidr(inner, q), a)
      ensures Matches(Cidr(outer, p), a) <==> Matches(Cidr(outer, p), inner)
    {
      SameSide(outer, p, inner, q, a);
    }
  }

  // ---------------------------------------------------------------- the list

  /** Malformed entries are skipped: access is granted exactly when some well-formed entry of
      the candidate's family has it in its block. */
  lemma {:induction false} AllowedIffInSomeBlock(syntax: Syntax, entries: seq<string>, candidate: IpAddr)
    ensures IsAllowed(syntax, entries, candidate) <==>
      exists i :: 0 <= i < |entries| && Parse(syntax, entries[i]).Some? &&
        var e := Parse(syntax, entries[i]).value;
        SameFamily(Anchor(e), candidate) && First(e) <= Number(candidate.bits) < First(e) + BlockSize(e)
  {
    if entries != [] {
      AllowedIffInSomeBlock(syntax, entries[1..], candidate);
      var e := Parse(syntax, entries[0]);
      if e.Some? { AdmitsExactlyItsBlock(e.value, candidate); }
      assert forall i :: 0 <= i < |entries| - 1 ==> entries[1..][i] == entries[i + 1];
      assert forall i :: 1 <= i < |entries| ==> entries[i] == entries[1..][i - 1];
    }
  }
}
