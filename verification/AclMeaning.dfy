/** Who the access list serves, in terms of address ranges and leading bits. */
module AclMeaning {
  import opened Wrappers
  import opened Acls

  // ---- CIDRs by their leading bits ---------------------------------------

  function Bit(x: nat, i: nat): nat {
    x / Pow2(i) % 2
  }

  /** The first `prefix` of `width` bits are the same. */
  predicate LeadAlike(a: nat, b: nat, width: nat, prefix: nat)
    requires prefix <= width
  {
    forall i: nat :: width - prefix <= i < width ==> Bit(a, i) == Bit(b, i)
  }

  lemma HalfBits(x: nat, j: nat)
    ensures Bit(x / 2, j) == Bit(x, j + 1) && Bit(x, 0) == x % 2
  {
    DivTwice(x, 2, Pow2(j));
    assert Pow2(j + 1) == 2 * Pow2(j);
  }

  predicate SameBits(x: nat, y: nat, n: nat) {
    forall j: nat :: j < n ==> Bit(x, j) == Bit(y, j)
  }

  lemma {:induction false} BitsDecide(x: nat, y: nat, n: nat)
    requires x < Pow2(n) && y < Pow2(n)
    ensures x == y <==> SameBits(x, y, n)
  {
    if n > 0 && SameBits(x, y, n) {
      forall j: nat | j < n - 1 ensures Bit(x / 2, j) == Bit(y / 2, j) {
        HalfBits(x, j);
        HalfBits(y, j);
        assert Bit(x, j + 1) == Bit(y, j + 1);
      }
      BitsDecide(x / 2, y / 2, n - 1);
      HalfBits(x, 0);
      HalfBits(y, 0);
      assert Bit(x, 0) == Bit(y, 0);
    }
  }

  /** The number above the low bits. */
  function High(x: nat, low: nat): nat {
    var n := Pow2(low);
    QuotientIsNat(x, n);
    x / n
  }

  lemma QuotientIsNat(x: nat, n: nat)
    requires n > 0
    ensures x / n >= 0
  {
  }

  lemma HighBit(x: nat, low: nat, i: nat)
    requires i >= low
    ensures Bit(High(x, low), i - low) == Bit(x, i)
  {
    DivTwice(x, Pow2(low), Pow2(i - low));
    Pow2Adds(low, i - low);
  }

  lemma HighBelow(x: nat, low: nat, n: nat)
    requires x < Pow2(low + n)
    ensures High(x, low) < Pow2(n)
  {
    Pow2Adds(low, n);
    DivBelow(x, Pow2(low), Pow2(n));
  }

  lemma DivBelow(x: nat, a: nat, b: nat)
    requires a > 0 && x < a * b
    ensures x / a < b
  {
    if x / a >= b {
      MulMono(a, b, x / a);
      BaseIs(x, a);
      assert false;
    }
  }

  lemma LeadIsHigh(a: nat, b: nat, low: nat, n: nat)
    ensures LeadAlike(a, b, low + n, n) <==> SameBits(High(a, low), High(b, low), n)
  {
    forall i: nat | low <= i < low + n
      ensures Bit(High(a, low), i - low) == Bit(a, i) && Bit(High(b, low), i - low) == Bit(b, i)
    {
      HighBit(a, low, i);
      HighBit(b, low, i);
    }
    if LeadAlike(a, b, low + n, n) {
      forall j: nat | j < n ensures Bit(High(a, low), j) == Bit(High(b, low), j) {
        var i := low + j;
        assert Bit(a, i) == Bit(b, i);
      }
    }
  }

  /** Clearing the low bits leaves two words equal exactly when they lead alike. */
  lemma MaskedIff(a: nat, b: nat, width: nat, prefix: nat)
    requires prefix <= width && a < Pow2(width) && b < Pow2(width)
    ensures Masked(a, width - prefix) == Masked(b, width - prefix) <==> LeadAlike(a, b, width, prefix)
  {
    var low := width - prefix;
    MaskedIsQuotient(a, b, low);
    HighBelow(a, low, prefix);
    HighBelow(b, low, prefix);
    BitsDecide(High(a, low), High(b, low), prefix);
    LeadIsHigh(a, b, low, prefix);
  }

  lemma WordSize4()
    ensures Pow2(32) == U32_SIZE
  {
    Sixteen();
    Pow2Adds(16, 16);
  }

  lemma WordSize6()
    ensures Pow2(128) == 0x1_0000_0000_0000_0000_0000_0000_0000_0000
  {
    WordSize4();
    Pow2Adds(32, 32);
    Pow2Adds(64, 64);
  }

  lemma V4InIff(a: u32, network: u32, prefix: Prefix4)
    ensures V4In(a, network, prefix) <==> LeadAlike(a, network, 32, prefix)
  {
    WordSize4();
    MaskedIff(a, network, 32, prefix);
  }

  lemma V6InIff(a: u128, network: u128, prefix: Prefix6)
    ensures V6In(a, network, prefix) <==> LeadAlike(a, network, 128, prefix)
  {
    WordSize6();
    MaskedIff(a, network, 128, prefix);
  }

  // ---- the private ranges ------------------------------------------------

  /** 10.0.0.0/8, 172.16.0.0/12, 192.168.0.0/16, 169.254.0.0/16 and 100.64.0.0/10. */
  predicate InPrivateRange(a: u32) {
    || 0x0A00_0000 <= a <= 0x0AFF_FFFF
    || 0xAC10_0000 <= a <= 0xAC1F_FFFF
    || 0xC0A8_0000 <= a <= 0xC0A8_FFFF
    || 0xA9FE_0000 <= a <= 0xA9FE_FFFF
    || 0x6440_0000 <= a <= 0x647F_FFFF
  }

  lemma PrivateIff(a: u32)
    ensures IsPrivate4(a) <==> InPrivateRange(a)
  {
  }

  /** 127.0.0.0/8. */
  lemma LoopbackIff(a: u32)
    ensures IsLoopback4(a) <==> 0x7F00_0000 <= a <= 0x7FFF_FFFF
  {
  }

  /** fc00::/7, fe80::/10, and the private ranges as IPv4-mapped addresses. */
  predicate InPrivateRange6(a: u128) {
    || 0xFC00_0000_0000_0000_0000_0000_0000_0000 <= a <= 0xFDFF_FFFF_FFFF_FFFF_FFFF_FFFF_FFFF_FFFF
    || 0xFE80_0000_0000_0000_0000_0000_0000_0000 <= a <= 0xFEBF_FFFF_FFFF_FFFF_FFFF_FFFF_FFFF_FFFF
    || exists v4: u32 :: InPrivateRange(v4) && a == 0xFFFF_0000_0000 + v4
  }

  lemma SegmentRange(a: u128, low: nat, base: nat)
    requires (low == 9 && base == 0xFC00) || (low == 6 && base == 0xFE80)
    ensures Masked(FirstSegment(a), low) == base <==> base <= FirstSegment(a) < base + Pow2(low)
  {
    assert Pow2(9) == 512 && Pow2(6) == 64;
  }

  lemma PrivateIff6(a: u128)
    ensures IsPrivate6(a) <==> InPrivateRange6(a)
  {
    SegmentRange(a, 9, 0xFC00);
    SegmentRange(a, 6, 0xFE80);
    assert Pow2(9) == 512 && Pow2(6) == 64;
    PrivateIff(a % U32_SIZE);
    if IsMapped(a) {
      assert a == 0xFFFF_0000_0000 + a % U32_SIZE;
    }
    if v4: u32 :| InPrivateRange(v4) && a == 0xFFFF_0000_0000 + v4 {
      assert IsMapped(a) && a % U32_SIZE == v4;
    }
  }

  // ---- who is served -----------------------------------------------------

  predicate InLoopback(a: u32) {
    0x7F00_0000 <= a <= 0x7FFF_FFFF
  }

  /** What one rule covers. */
  predicate Covers4(r: Rule, a: u32) {
    match r
    case Any => true
    case Private => InPrivateRange(a) || InLoopback(a)
    case Loopback => InLoopback(a)
    case Net4(network, prefix) => LeadAlike(a, network, 32, prefix)
    case Net6(_, _) => false
  }

  predicate Covers6(r: Rule, a: u128) {
    match r
    case Any => true
    case Private => InPrivateRange6(a) || a == 1
    case Loopback => a == 1
    case Net4(_, _) => false
    case Net6(network, prefix) => LeadAlike(a, network, 128, prefix)
  }

  lemma Covers4Iff(r: Rule, a: u32)
    ensures Matches(r, V4(a)) <==> Covers4(r, a)
  {
    PrivateIff(a);
    LoopbackIff(a);
    if r.Net4? {
      V4InIff(a, r.network, r.prefix);
    }
  }

  lemma Covers6Iff(r: Rule, a: u128)
    ensures Matches(r, V6(a)) <==> Covers6(r, a)
  {
    PrivateIff6(a);
    if r.Net6? {
      V6InIff(a, r.network6, r.prefix6);
    }
  }

  /** The rules that count: an empty list stands for the private one. */
  function Effective(rules: seq<Rule>): seq<Rule> {
    if rules == [] then [Private] else rules
  }

  lemma EffectiveIff(rules: seq<Rule>, addr: Addr)
    ensures Allowed(rules, addr) <==> exists r :: r in Effective(rules) && Matches(r, addr)
  {
    if rules == [] {
      assert Effective(rules)[0] == Private;
      if IsPrivate(addr) || IsLoopback(addr) {
        assert Private in Effective(rules) && Matches(Private, addr);
      }
    }
  }

  /** Exactly which clients a rule list serves: those some rule covers, an empty list standing for Private. */
  lemma ServedIff(rules: seq<Rule>, a: u32, b: u128)
    ensures Allowed(rules, V4(a)) <==> exists r :: r in Effective(rules) && Covers4(r, a)
    ensures Allowed(rules, V6(b)) <==> exists r :: r in Effective(rules) && Covers6(r, b)
  {
    EffectiveIff(rules, V4(a));
    EffectiveIff(rules, V6(b));
    forall r | r in Effective(rules)
      ensures Matches(r, V4(a)) <==> Covers4(r, a)
      ensures Matches(r, V6(b)) <==> Covers6(r, b)
    {
      Covers4Iff(r, a);
      Covers6Iff(r, b);
    }
  }

  /** Exactly when the detected LAN is added, and that nothing else ever is: under the private stance, which an
      empty list takes too, when no rule covers its network address. A list that an operator wrote out stays as
      it is. */
  lemma TrustedIff(rules: seq<Rule>, network: u32, prefix: Prefix4)
    ensures var (after, widened) := Trusted(rules, network, prefix);
            && (widened <==> Private in Effective(rules) && forall r :: r in Effective(rules) ==> !Covers4(r, network))
            && after == if widened then rules + [Net4(network, prefix)] else rules
  {
    ServedIff(rules, network, 0);
    assert rules == [] ==> Effective(rules)[0] == Private;
  }
}
