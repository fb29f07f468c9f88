/** Which clients may ask, and how the detected LAN widens that. Addresses are machine words. */
module Acls {
  import opened Wrappers

  type u128 = x: int | 0 <= x < 0x1_0000_0000_0000_0000_0000_0000_0000_0000

  datatype Addr = V4(v4: u32) | V6(v6: u128)

  type Prefix4 = p: int | 0 <= p <= 32
  type Prefix6 = p: int | 0 <= p <= 128

  datatype Rule =
    | Loopback
    | Private
    | Any
    | Net4(network: u32, prefix: Prefix4)
    | Net6(network6: u128, prefix6: Prefix6)

  function Pow2(n: nat): (r: nat)
    ensures r > 0
  {
    if n == 0 then 1 else 2 * Pow2(n - 1)
  }

  /** `x` under a mask of ones above its `low` lowest bits: the low bits cleared. */
  function Masked(x: nat, low: nat): int {
    x - x % Pow2(low)
  }

  predicate V4In(addr: u32, network: u32, prefix: Prefix4) {
    prefix == 0 || Masked(addr, 32 - prefix) == Masked(network, 32 - prefix)
  }

  predicate V6In(addr: u128, network: u128, prefix: Prefix6) {
    prefix == 0 || Masked(addr, 128 - prefix) == Masked(network, 128 - prefix)
  }

  /** The octet at position 0 to 3, most significant first. */
  function Octet(a: u32, k: nat): nat
    requires k < 4
  {
    match k
    case 0 => a / 0x100_0000
    case 1 => a / 0x1_0000 % 0x100
    case 2 => a / 0x100 % 0x100
    case _ => a % 0x100
  }

  /** 10/8, 172.16/12, 192.168/16, then 169.254/16 and 100.64/10. */
  predicate IsPrivate4(a: u32) {
    || Octet(a, 0) == 10
    || (Octet(a, 0) == 172 && 16 <= Octet(a, 1) <= 31)
    || (Octet(a, 0) == 192 && Octet(a, 1) == 168)
    || (Octet(a, 0) == 169 && Octet(a, 1) == 254)
    || (Octet(a, 0) == 100 && 64 <= Octet(a, 1) < 128)
  }

  predicate IsLoopback4(a: u32) {
    Octet(a, 0) == 127
  }

  /** The leading 16-bit segment of an IPv6 address. */
  function FirstSegment(a: u128): nat {
    a / 0x1_0000_0000_0000_0000_0000_0000_0000
  }

  /** An IPv4-mapped address, ::ffff:a.b.c.d. */
  predicate IsMapped(a: u128) {
    a / U32_SIZE == 0xFFFF
  }

  /** fc00::/7, fe80::/10, or mapped from a private IPv4 address. */
  predicate IsPrivate6(a: u128) {
    || Masked(FirstSegment(a), 9) == 0xFC00
    || Masked(FirstSegment(a), 6) == 0xFE80
    || (IsMapped(a) && IsPrivate4(a % U32_SIZE))
  }

  predicate IsPrivate(addr: Addr) {
    match addr
    case V4(a) => IsPrivate4(a)
    case V6(a) => IsPrivate6(a)
  }

  predicate IsLoopback(addr: Addr) {
    match addr
    case V4(a) => IsLoopback4(a)
    case V6(a) => a == 1
  }

  predicate Matches(rule: Rule, addr: Addr) {
    match rule
    case Any => true
    case Loopback => IsLoopback(addr)
    case Private => IsPrivate(addr) || IsLoopback(addr)
    case Net4(network, prefix) => addr.V4? && V4In(addr.v4, network, prefix)
    case Net6(network, prefix) => addr.V6? && V6In(addr.v6, network, prefix)
  }

  /** An empty rule list means private. */
  predicate Allowed(rules: seq<Rule>, addr: Addr) {
    if rules == [] then IsPrivate(addr) || IsLoopback(addr)
    else exists r :: r in rules && Matches(r, addr)
  }

  class Acl {
    var rules: seq<Rule>

    constructor (rules: seq<Rule>)
      ensures this.rules == rules
    {
      this.rules := rules;
    }

    method Allows(addr: Addr) returns (ok: bool)
      ensures ok <==> Allowed(rules, addr)
    {
      if rules == [] {
        return IsPrivate(addr) || IsLoopback(addr);
      }
      for i := 0 to |rules|
        invariant forall j :: 0 <= j < i ==> !Matches(rules[j], addr)
      {
        if Matches(rules[i], addr) {
          return true;
        }
      }
      return false;
    }

    /** Also trust the LAN found in the routing table, under the private stance only. */
    method TrustSubnet(network: u32, prefix: Prefix4) returns (widened: bool)
      modifies this
      ensures Trusted(old(rules), network, prefix) == (rules, widened)
    {
      if rules != [] && Private !in rules {
        return false;
      }
      var covered := Allows(V4(network));
      if covered {
        return false;
      }
      rules := rules + [Net4(network, prefix)];
      return true;
    }
  }

  function Trusted(rules: seq<Rule>, network: u32, prefix: Prefix4): (seq<Rule>, bool) {
    if rules != [] && Private !in rules then (rules, false)
    else if Allowed(rules, V4(network)) then (rules, false)
    else (rules + [Net4(network, prefix)], true)
  }

  // ---- the detected subnet -----------------------------------------------

  datatype Subnet = Subnet(network: u32, prefix: Prefix4)

  predicate InSubnet(s: Subnet, addr: u32) {
    Masked(addr, 32 - s.prefix) == Masked(s.network, 32 - s.prefix)
  }

  /** Every usable host address, without the network and broadcast addresses; nothing for prefixes
      wider than /16 or narrower than /30. */
  function Hosts(s: Subnet): seq<int> {
    if s.prefix < 16 || s.prefix > 30 then []
    else
      var base, count := Masked(s.network, 32 - s.prefix), Pow2(32 - s.prefix);
      seq(SaturatingSub(count, 2), i => base + 1 + i)
  }

  /** A CIDR narrower than the subnet. */
  predicate IsNarrow(r: Rule, s: Subnet) {
    r.Net4? && r.prefix > s.prefix
  }

  // ---- arithmetic of masks -----------------------------------------------

  lemma MaskedIsQuotient(x: nat, y: nat, low: nat)
    ensures Masked(x, low) == Masked(y, low) <==> x / Pow2(low) == y / Pow2(low)
  {
    var n := Pow2(low);
    assert Masked(x, low) == n * (x / n) && Masked(y, low) == n * (y / n);
    var d := x / n - y / n;
    assert n * d == n * (x / n) - n * (y / n);
    MulGrows(n, d);
  }

  lemma MulGrows(n: nat, d: int)
    requires n > 0
    ensures d >= 1 ==> n * d >= n
    ensures d <= -1 ==> n * d + n <= 0
  {
    if d >= 1 {
      assert n * d == n * (d - 1) + n;
    } else if d <= -1 {
      assert n * -d == n * (-d - 1) + n;
    }
  }

  lemma {:induction false} Pow2Adds(a: nat, b: nat)
    ensures Pow2(a + b) == Pow2(a) * Pow2(b)
  {
    if a > 0 {
      Pow2Adds(a - 1, b);
      assert Pow2(a) * Pow2(b) == 2 * (Pow2(a - 1) * Pow2(b));
    }
  }

  lemma Regroup(m: nat, n: nat, q: nat, r2: nat, r1: nat)
    ensures m * (n * q + r2) + r1 == (m * n) * q + (m * r2 + r1)
  {
  }

  lemma MulMono(n: nat, a: nat, b: nat)
    requires a <= b
    ensures n * a <= n * b
  {
  }

  lemma Distribute(n: nat, q: nat)
    ensures n * (q + 1) == n * q + n
  {
  }

  lemma DivMod(x: nat, n: nat) returns (q: nat, r: nat)
    requires n > 0
    ensures q == x / n && r < n && x == n * q + r
  {
    q, r := x / n, x % n;
  }

  lemma DivTwice(x: nat, m: nat, n: nat)
    requires m > 0 && n > 0
    ensures m * n > 0 && x / (m * n) == x / m / n
  {
    var y, r1 := DivMod(x, m);
    var q, r2 := DivMod(y, n);
    DivSteps(x, m, n, q, r2, r1);
  }

  lemma DivSteps(x: nat, m: nat, n: nat, q: nat, r2: nat, r1: nat)
    requires m > 0 && n > 0 && x == m * (n * q + r2) + r1 && r2 < n && r1 < m
    ensures m * n > 0 && x / (m * n) == q
  {
    Regroup(m, n, q, r2, r1);
    MulMono(m, r2 + 1, n);
    Distribute(m, r2);
    QuotientIs(x, m * n, q, m * r2 + r1);
  }

  lemma QuotientIs(x: nat, n: nat, q: int, r: int)
    requires n > 0 && x == n * q + r && 0 <= r < n
    ensures x / n == q
  {
    var d := x / n - q;
    assert n * d == r - x % n;
    MulGrows(n, d);
  }

  /** Agreement above some bits carries over to agreement above more bits. */
  lemma WiderNetworkAgrees(x: nat, y: nat, low: nat, lower: nat)
    requires low >= lower && x / Pow2(lower) == y / Pow2(lower)
    ensures x / Pow2(low) == y / Pow2(low)
  {
    Pow2Adds(lower, low - lower);
    DivTwice(x, Pow2(lower), Pow2(low - lower));
    DivTwice(y, Pow2(lower), Pow2(low - lower));
  }

  lemma WiderMaskAgrees(x: nat, y: nat, low: nat, lower: nat)
    requires low >= lower && Masked(x, lower) == Masked(y, lower)
    ensures Masked(x, low) == Masked(y, low)
  {
    MaskedIsQuotient(x, y, lower);
    WiderNetworkAgrees(x, y, low, lower);
    MaskedIsQuotient(x, y, low);
  }

  // ---- what trust does to the allowed set --------------------------------

  /** hosts() stays inside the subnet, and holds everything but its first and last address. */
  lemma HostsAreTheInterior(s: Subnet, a: u32)
    requires 16 <= s.prefix <= 30
    ensures a in Hosts(s)
       <==> InSubnet(s, a) && 0 < a % Pow2(32 - s.prefix) < Pow2(32 - s.prefix) - 1
  {
    MaskedIsQuotient(a, s.network, 32 - s.prefix);
    var n := Pow2(32 - s.prefix);
    if a in Hosts(s) {
      var i :| 0 <= i < |Hosts(s)| && Hosts(s)[i] == a;
      OffsetFromBase(s.network, n, a, 1 + i);
    }
    if a / n == s.network / n && 0 < a % n < n - 1 {
      OffsetFromBase(s.network, n, a, a % n);
      assert Hosts(s)[a % n - 1] == a;
    }
  }

  lemma OffsetFromBase(x: nat, n: nat, a: nat, i: nat)
    requires n > 0 && i < n
    ensures a == x - x % n + i <==> a / n == x / n && a % n == i
  {
    var q := x / n;
    assert x - x % n == n * q;
    if a == n * q + i {
      QuotientIs(a, n, q, i);
    }
    assert a == n * (a / n) + a % n;
  }

  /** With Private listed, the allowed set becomes exactly old plus subnet when a rule was added, and
      is unchanged when none was. */
  lemma TrustWidensBySubnet(rules: seq<Rule>, network: u32, prefix: Prefix4, addr: Addr)
    requires Private in rules
    ensures var (rules', widened) := Trusted(rules, network, prefix);
            Allowed(rules', addr)
            <==> Allowed(rules, addr) || (widened && addr.V4? && V4In(addr.v4, network, prefix))
  {
    var (rules', widened) := Trusted(rules, network, prefix);
    var net := Net4(network, prefix);
    if widened {
      assert net in rules';
      if r :| r in rules' && Matches(r, addr) {
        assert r in rules || r == net;
      }
      if r :| r in rules && Matches(r, addr) {
        assert r in rules';
      }
    }
  }

  /** Private and loopback ranges are no narrower than /16, so a subnet that sweeping accepts lies
      wholly inside one as soon as its network address does. */
  lemma PrivateSubnetsAreWhole(s: Subnet, a: u32)
    requires 16 <= s.prefix && InSubnet(s, a)
    ensures IsPrivate4(s.network) <==> IsPrivate4(a)
    ensures IsLoopback4(s.network) <==> IsLoopback4(a)
  {
    HighHalvesAgree(s, a);
    HighHalfDecides(a, s.network);
  }

  lemma HighHalvesAgree(s: Subnet, a: u32)
    requires 16 <= s.prefix && InSubnet(s, a)
    ensures a / 0x1_0000 == s.network / 0x1_0000
  {
    MaskedIsQuotient(a, s.network, 32 - s.prefix);
    WiderNetworkAgrees(a, s.network, 16, 32 - s.prefix);
    Sixteen();
  }

  lemma Sixteen()
    ensures Pow2(16) == 0x1_0000
  {
    Pow2Adds(8, 8);
    assert Pow2(8) == 256;
  }

  lemma HighHalfDecides(a: u32, b: u32)
    requires a / 0x1_0000 == b / 0x1_0000
    ensures Octet(a, 0) == Octet(b, 0) && Octet(a, 1) == Octet(b, 1)
  {
  }

  /** Every host of the detected subnet is served, whether or not a rule had to be added, when the
      rules that already cover its network address include one that is no narrower than the subnet.
      The private fallback of an empty list never is. */
  lemma LanIsServed(rules: seq<Rule>, s: Subnet, a: u32)
    requires (rules == [] || Private in rules) && a in Hosts(s)
    requires rules != [] && Allowed(rules, V4(s.network))
             ==> exists r :: r in rules && Matches(r, V4(s.network)) && (r.Net4? ==> r.prefix <= s.prefix)
    ensures Allowed(Trusted(rules, s.network, s.prefix).0, V4(a))
  {
    HostsAreTheInterior(s, a);
    if rules == [] {
      PrivateSubnetsAreWhole(s, a);
      assert Matches([Net4(s.network, s.prefix)][0], V4(a));
    } else {
      TrustWidensBySubnet(rules, s.network, s.prefix, V4(a));
      if Allowed(rules, V4(s.network)) {
        var r :| r in rules && Matches(r, V4(s.network)) && (r.Net4? ==> r.prefix <= s.prefix);
        WideRuleIsWhole(r, s, a);
      }
    }
  }

  lemma TwiceHalf(n: nat, half: nat, q: nat)
    requires n == 2 * half
    ensures n * q == half * (2 * q)
  {
  }

  lemma LowerHalf(base: nat, half: nat, q: nat)
    requires half >= 2 && base == half * (2 * q)
    ensures (base + 1) / half == 2 * q
  {
    QuotientIs(base + 1, half, 2 * q, 1);
  }

  lemma UpperHalf(base: nat, half: nat, q: nat)
    requires half >= 2 && base == half * (2 * q)
    ensures (base + 2 * half - 2) / half == 2 * q + 1
  {
    Distribute(half, 2 * q);
    QuotientIs(base + 2 * half - 2, half, 2 * q + 1, half - 2);
  }

  /** The first and the last host of a block of `2 * half` addresses lie in different halves of it. */
  lemma HalvesDiffer(base: nat, half: nat, q: nat)
    requires half >= 2 && base == half * (2 * q)
    ensures (base + 1) / half < (base + 2 * half - 2) / half
  {
    LowerHalf(base, half, q);
    UpperHalf(base, half, q);
  }

  /** The block starting at `n * q` does not reach past `n * m`. */
  lemma BlockFits(n: nat, q: nat, m: nat)
    requires n * q < n * m
    ensures n * q + n <= n * m
  {
    if q < m {
      MulMono(n, q + 1, m);
      Distribute(n, q);
    } else {
      MulMono(n, m, q);
      assert false;
    }
  }

  lemma BaseIs(x: nat, n: nat)
    requires n > 0
    ensures x - x % n == n * (x / n)
  {
  }

  lemma WholeMultiple(x: nat, n: nat) returns (q: nat)
    requires n > 0
    ensures x - x % n == n * q
  {
    var d := x / n;
    BaseIs(x, n);
    MulGrows(n, d);
    q := d;
  }

  /** Whatever number below `n * m` is rounded down to a multiple of `n`, there is room for `n` more. */
  lemma BlockOf(x: nat, n: nat, m: nat) returns (q: nat)
    requires n > 0 && x < n * m
    ensures x - x % n == n * q && n * q + n <= n * m
  {
    q := WholeMultiple(x, n);
    assert x % n >= 0;
    BlockFits(n, q, m);
  }

  lemma BlockSizes(prefix: Prefix4)
    requires 16 <= prefix <= 30
    ensures Pow2(32 - prefix) == 2 * Pow2(31 - prefix) && Pow2(31 - prefix) >= 2
    ensures Pow2(32 - prefix) * Pow2(prefix) == U32_SIZE
  {
    assert Pow2(31 - prefix) == 2 * Pow2(30 - prefix);
    Pow2Adds(32 - prefix, prefix);
    Sixteen();
    Pow2Adds(16, 16);
  }

  lemma EndsAreHosts(s: Subnet, base: int, n: nat)
    requires 16 <= s.prefix <= 30 && n == Pow2(32 - s.prefix) && base == Masked(s.network, 32 - s.prefix)
    requires n >= 4
    ensures base + 1 in Hosts(s) && base + n - 2 in Hosts(s)
  {
    assert Hosts(s)[0] == base + 1;
    assert Hosts(s)[n - 3] == base + n - 2;
  }

  /** A subnet as a block: where it starts, its size and its place among the blocks of that size. */
  lemma SubnetIsBlock(s: Subnet) returns (base: nat, n: nat, q: nat)
    requires 16 <= s.prefix <= 30
    ensures base == Masked(s.network, 32 - s.prefix) && n == Pow2(32 - s.prefix) && base == n * q
    ensures n == 2 * Pow2(31 - s.prefix) && n >= 4 && base + n <= U32_SIZE
  {
    n := Pow2(32 - s.prefix);
    BlockSizes(s.prefix);
    q := BlockOf(s.network, n, Pow2(s.prefix));
    base := n * q;
  }

  lemma EndsMaskApart(base: nat, n: nat, q: nat, low: nat)
    requires n == 2 * Pow2(low) && n >= 4 && base == n * q
    ensures Masked(base + 1, low) != Masked(base + n - 2, low)
  {
    var half := Pow2(low);
    TwiceHalf(n, half, q);
    HalvesDiffer(base, half, q);
    MaskedIsQuotient(base + 1, base + n - 2, low);
  }

  lemma EndsAreApart(s: Subnet) returns (a: u32, b: u32)
    requires 16 <= s.prefix <= 30
    ensures a in Hosts(s) && b in Hosts(s) && Masked(a, 31 - s.prefix) != Masked(b, 31 - s.prefix)
  {
    var base, n, q := SubnetIsBlock(s);
    EndsAreHosts(s, base, n);
    EndsMaskApart(base, n, q, 31 - s.prefix);
    a, b := base + 1, base + n - 2;
  }

  lemma SharedCidrAgrees(network: u32, prefix: Prefix4, a: u32, b: u32, low: nat)
    requires low >= 32 - prefix && prefix > 0 && V4In(a, network, prefix) && V4In(b, network, prefix)
    ensures Masked(a, low) == Masked(b, low)
  {
    WiderMaskAgrees(a, b, low, 32 - prefix);
  }

  /** A CIDR narrower than the subnet never reaches all of its hosts. */
  lemma NarrowCidrMissesAHost(network: u32, prefix: Prefix4, s: Subnet) returns (a: u32)
    requires 16 <= s.prefix <= 30 && prefix > s.prefix
    ensures a in Hosts(s) && !V4In(a, network, prefix)
  {
    var c, b := EndsAreApart(s);
    if V4In(c, network, prefix) && V4In(b, network, prefix) {
      SharedCidrAgrees(network, prefix, c, b, 31 - s.prefix);
      assert false;
    }
    a := if V4In(c, network, prefix) then b else c;
  }

  lemma NarrowRuleMissesAHost(r: Rule, s: Subnet)
    requires 16 <= s.prefix <= 30 && IsNarrow(r, s)
    ensures exists a: u32 :: a in Hosts(s) && !Matches(r, V4(a))
  {
    var a := NarrowCidrMissesAHost(r.network, r.prefix, s);
    assert !Matches(r, V4(a));
  }

  /** Exactly when one rule that covers the network address covers every host: unless it is a CIDR
      narrower than the subnet. */
  lemma RuleCoversLanIff(r: Rule, s: Subnet)
    requires 16 <= s.prefix <= 30 && Matches(r, V4(s.network))
    ensures (forall a: u32 :: a in Hosts(s) ==> Matches(r, V4(a))) <==> (r.Net4? ==> r.prefix <= s.prefix)
  {
    if r.Net4? ==> r.prefix <= s.prefix {
      forall a: u32 | a in Hosts(s) ensures Matches(r, V4(a)) {
        HostsAreTheInterior(s, a);
        WideRuleIsWhole(r, s, a);
      }
    } else {
      NarrowRuleMissesAHost(r, s);
    }
  }

  /** The network address is covered already, but only by CIDRs narrower than the subnet. */
  predicate OnlyNarrowCover(rules: seq<Rule>, s: Subnet) {
    && (exists r :: r in rules && Matches(r, V4(s.network)))
    && (forall r :: r in rules && Matches(r, V4(s.network)) ==> IsNarrow(r, s))
  }

  predicate InNarrowCidr(rules: seq<Rule>, s: Subnet, a: u32) {
    exists r :: r in rules && IsNarrow(r, s) && Matches(r, V4(a))
  }

  lemma WideCidrIsWhole(network: u32, prefix: Prefix4, s: Subnet, a: u32)
    requires InSubnet(s, a) && prefix <= s.prefix
    ensures V4In(a, network, prefix) <==> V4In(s.network, network, prefix)
  {
    WiderMaskAgrees(a, s.network, 32 - prefix, 32 - s.prefix);
  }

  /** Any rule but a narrow CIDR covers all of a swept subnet or none of it. */
  lemma WideRuleIsWhole(r: Rule, s: Subnet, a: u32)
    requires 16 <= s.prefix && InSubnet(s, a) && !IsNarrow(r, s)
    ensures Matches(r, V4(a)) <==> Matches(r, V4(s.network))
  {
    match r
    case Net4(network, prefix) => WideCidrIsWhole(network, prefix, s, a);
    case _ => PrivateSubnetsAreWhole(s, a);
  }

  lemma NarrowCoverServesItsOwn(rules: seq<Rule>, s: Subnet, a: u32)
    requires a in Hosts(s) && OnlyNarrowCover(rules, s)
    ensures Allowed(Trusted(rules, s.network, s.prefix).0, V4(a)) <==> InNarrowCidr(rules, s, a)
  {
    HostsAreTheInterior(s, a);
    assert Trusted(rules, s.network, s.prefix).0 == rules;
    if r :| r in rules && Matches(r, V4(a)) {
      if !IsNarrow(r, s) {
        WideRuleIsWhole(r, s, a);
      }
    }
  }

  /** Exactly which hosts of the detected subnet are served, for every rule list in the private stance:
      all of them, unless nothing but narrower CIDRs covers its network address; then those in one. */
  lemma HostIsServedIff(rules: seq<Rule>, s: Subnet, a: u32)
    requires (rules == [] || Private in rules) && a in Hosts(s)
    ensures Allowed(Trusted(rules, s.network, s.prefix).0, V4(a))
       <==> (OnlyNarrowCover(rules, s) ==> InNarrowCidr(rules, s, a))
  {
    if OnlyNarrowCover(rules, s) {
      NarrowCoverServesItsOwn(rules, s, a);
    } else {
      LanIsServed(rules, s, a);
    }
  }

  /** Exactly when trust serves the whole LAN, for every such rule list. */
  lemma LanIsServedIff(rules: seq<Rule>, s: Subnet)
    requires rules == [] || Private in rules
    ensures (forall a: u32 :: a in Hosts(s) ==> Allowed(Trusted(rules, s.network, s.prefix).0, V4(a)))
       <==> (OnlyNarrowCover(rules, s) ==> forall a: u32 :: a in Hosts(s) ==> InNarrowCidr(rules, s, a))
  {
    forall a: u32 | a in Hosts(s)
      ensures Allowed(Trusted(rules, s.network, s.prefix).0, V4(a))
         <==> (OnlyNarrowCover(rules, s) ==> InNarrowCidr(rules, s, a))
    {
      HostIsServedIff(rules, s, a);
    }
  }

  /** One narrow CIDR alone never makes up for it: some host is left out. */
  lemma LoneNarrowCidrLeavesOut(rules: seq<Rule>, s: Subnet, net: Rule)
    requires Private in rules && 16 <= s.prefix <= 30 && OnlyNarrowCover(rules, s)
    requires IsNarrow(net, s) && forall r :: r in rules && IsNarrow(r, s) ==> r == net
    ensures exists a: u32 :: a in Hosts(s) && !Allowed(Trusted(rules, s.network, s.prefix).0, V4(a))
  {
    NarrowRuleMissesAHost(net, s);
    var a: u32 :| a in Hosts(s) && !Matches(net, V4(a));
    HostIsServedIff(rules, s, a);
  }

  /** So the default rules serve the detected LAN, whatever its addressing. */
  lemma DefaultRulesServeTheLan(s: Subnet, a: u32)
    requires a in Hosts(s)
    ensures Allowed(Trusted([Loopback, Private], s.network, s.prefix).0, V4(a))
  {
    assert [Loopback, Private][1] == Private;
    LanIsServed([Loopback, Private], s, a);
  }

  /** The default rules and any CIDR narrower than a LAN on public addresses, over its network address, leave
      some host of that LAN out. */
  lemma NarrowCidrOnPublicLanLeavesOut(s: Subnet, network: u32, prefix: Prefix4)
    requires 16 <= s.prefix <= 30 && prefix > s.prefix && V4In(s.network, network, prefix)
    requires !Matches(Loopback, V4(s.network)) && !Matches(Private, V4(s.network))
    ensures var rules := [Loopback, Private, Net4(network, prefix)];
            exists a: u32 :: a in Hosts(s) && !Allowed(Trusted(rules, s.network, s.prefix).0, V4(a))
  {
    var net := Net4(network, prefix);
    var rules := [Loopback, Private, net];
    assert rules[2] in rules && Matches(net, V4(s.network));
    assert rules[1] == Private;
    LoneNarrowCidrLeavesOut(rules, s, net);
  }

  /** So with a /32 over just the network address of 203.0.113.0/24. */
  lemma NarrowCidrLeavesOutHappens()
    ensures var s := Subnet(0xCB00_7100, 24);
            exists a: u32 :: a in Hosts(s)
              && !Allowed(Trusted([Loopback, Private, Net4(s.network, 32)], s.network, s.prefix).0, V4(a))
  {
    NarrowCidrOnPublicLanLeavesOut(Subnet(0xCB00_7100, 24), 0xCB00_7100, 32);
  }

  /** Trust only ever adds to what was allowed, except on an empty rule list whose private fallback
      does not reach the subnet: there the rule it adds replaces the fallback. */
  lemma TrustIsMonotoneIff(rules: seq<Rule>, network: u32, prefix: Prefix4)
    ensures (forall addr :: Allowed(rules, addr) ==> Allowed(Trusted(rules, network, prefix).0, addr))
       <==> rules != [] || Allowed(rules, V4(network))
  {
    var (rules', widened) := Trusted(rules, network, prefix);
    if rules == [] && widened {
      assert rules' == [Net4(network, prefix)];
      assert Allowed(rules, V6(1)) && !Allowed(rules', V6(1));
    } else if widened {
      forall addr | Allowed(rules, addr) ensures Allowed(rules', addr) {
        var r :| r in rules && Matches(r, addr);
        assert r in rules';
      }
    }
  }
}
