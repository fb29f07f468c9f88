/** Hardware addresses as six bytes: which spellings stand for one, and which addresses are made up. */
module MacSpelling {
  import opened Wrappers
  import opened Dhcp
  import opened NameSpelling
  import Macs
  import Text

  /** A hexadecimal digit, in either letter case. */
  predicate HexDigit(c: char) {
    '0' <= c <= '9' || 'a' <= c <= 'f' || 'A' <= c <= 'F'
  }

  /** `digits` are the characters of the text at these positions, in order, which are all that are digits. */
  predicate PicksOut(mac: string, digits: string, at: seq<nat>) {
    && |digits| == |at|
    && (forall k :: 0 <= k < |at| ==> at[k] < |mac| && HexDigit(mac[at[k]]) && digits[k] == mac[at[k]])
    && (forall j, k :: 0 <= j < k < |at| ==> at[j] < at[k])
    && (forall i: nat :: i < |mac| && HexDigit(mac[i]) ==> i in at)
  }

  lemma PickDigit(mac: string, c: char, digits: string, at: seq<nat>)
    requires PicksOut(mac, digits, at) && HexDigit(c)
    ensures PicksOut(mac + [c], digits + [c], at + [|mac|])
  {
    var all, at' := mac + [c], at + [|mac|];
    forall i: nat | i < |all| && HexDigit(all[i]) ensures i in at' {
      assert i < |mac| ==> i in at;
      assert at'[|at|] == |mac|;
    }
  }

  lemma PassOther(mac: string, c: char, digits: string, at: seq<nat>)
    requires PicksOut(mac, digits, at) && !HexDigit(c)
    ensures PicksOut(mac + [c], digits, at)
  {
  }

  /** The digits of a text are its characters that are digits, each once and in order. */
  lemma {:induction false} DigitsAreKept(mac: string) returns (at: seq<nat>)
    ensures PicksOut(mac, Macs.HexDigits(mac), at)
    decreases |mac|
  {
    at := [];
    if mac != "" {
      var front, c := mac[..|mac| - 1], mac[|mac| - 1];
      at := DigitsAreKept(front);
      assert mac == front + [c];
      if HexDigit(c) {
        PickDigit(front, c, Macs.HexDigits(front), at);
        at := at + [|front|];
      } else {
        PassOther(front, c, Macs.HexDigits(front), at);
        assert Macs.HexDigits(front) + [] == Macs.HexDigits(front);
      }
    }
  }

  predicate AllZero(bytes: seq<u8>) {
    forall i :: 0 <= i < |bytes| ==> bytes[i] == 0
  }

  lemma SpellingNormalizes(mac: string, bytes: seq<u8>)
    requires |bytes| == 6 && SameText(Macs.HexDigits(mac), Digits(bytes))
    ensures Macs.Normalize(mac) == Macs.Normalize(Colons(bytes))
  {
    var h, low := Macs.HexDigits(mac), Digits(bytes);
    DigitsAt(bytes);
    DigitsAreLower(bytes);
    ColonsCarryDigits(bytes);
    LowerIs(low, low);
    LowerIs(h, low);
    ZerosAgree(h, low);
  }

  lemma ZerosAgree(a: string, b: string)
    requires SameText(a, b)
    ensures (forall c :: c in a ==> c == '0') <==> forall c :: c in b ==> c == '0'
  {
    if forall c :: c in a ==> c == '0' {
      forall c | c in b ensures c == '0' {
        var i :| 0 <= i < |b| && b[i] == c;
        assert a[i] in a;
      }
    }
    if forall c :: c in b ==> c == '0' {
      forall c | c in a ensures c == '0' {
        var i :| 0 <= i < |a| && a[i] == c;
        assert b[i] in b;
      }
    }
  }

  /** Whatever stands between the digits and in whatever letter case they are, text that spells six bytes has
      them in colon form as its canonical form, unless they are all zero. */
  lemma SixBytesNormalize(mac: string, bytes: seq<u8>)
    requires |bytes| == 6 && SameText(Macs.HexDigits(mac), Digits(bytes))
    ensures Macs.Normalize(mac) == if AllZero(bytes) then None else Some(Colons(bytes))
  {
    SpellingNormalizes(mac, bytes);
    SixBytes(bytes);
  }

  function HexNat(c: char): (n: nat)
    requires Macs.IsHex(c)
    ensures n < 16 && SameLetter(c, Hex(n))
  {
    if c <= '9' then c as int - 48 else if c <= 'F' then c as int - 55 else c as int - 87
  }

  /** And any text with twelve digits spells some six bytes, so nothing else is an address. */
  lemma TwelveDigitsSpell(mac: string) returns (bytes: seq<u8>)
    requires |Macs.HexDigits(mac)| == 12
    ensures |bytes| == 6 && SameText(Macs.HexDigits(mac), Digits(bytes))
  {
    var h := Macs.HexDigits(mac);
    Macs.HexDigitsAreHex(mac);
    assert forall k :: 0 <= k < 12 ==> h[k] in h && Macs.IsHex(h[k]);
    bytes := seq(6, i requires 0 <= i < 6 => 16 * HexNat(h[2 * i]) + HexNat(h[2 * i + 1]));
    forall i | 0 <= i < 6 ensures bytes[i] / 16 == HexNat(h[2 * i]) && bytes[i] % 16 == HexNat(h[2 * i + 1]) {
      TwoDigits(HexNat(h[2 * i]), HexNat(h[2 * i + 1]));
    }
    SpelledOut(h, bytes);
  }

  lemma TwoDigits(x: nat, y: nat)
    requires x < 16 && y < 16
    ensures (16 * x + y) / 16 == x && (16 * x + y) % 16 == y
  {
  }

  lemma SpelledOut(h: string, bytes: seq<u8>)
    requires |h| == 12 && |bytes| == 6 && forall k :: 0 <= k < 12 ==> Macs.IsHex(h[k])
    requires forall i :: 0 <= i < 6 ==> bytes[i] / 16 == HexNat(h[2 * i]) && bytes[i] % 16 == HexNat(h[2 * i + 1])
    ensures SameText(h, Digits(bytes))
  {
    DigitsAt(bytes);
    forall k | 0 <= k < 12 ensures SameLetter(h[k], Digits(bytes)[k]) {
      var i := k / 2;
      assert bytes[i] / 16 == HexNat(h[2 * i]) && bytes[i] % 16 == HexNat(h[2 * i + 1]);
      assert k == 2 * i || k == 2 * i + 1;
    }
  }

  /** Two texts stand for one address exactly when they spell the same six bytes, not all zero. */
  lemma OneAddressIff(a: string, b: string)
    ensures Macs.Normalize(a).Some? && Macs.Normalize(a) == Macs.Normalize(b)
       <==> exists bytes: seq<u8> :: Spelled(a, bytes) && Spelled(b, bytes) && !AllZero(bytes)
  {
    forall bytes: seq<u8> | Spelled(a, bytes) && Spelled(b, bytes) && !AllZero(bytes)
      ensures Macs.Normalize(a).Some? && Macs.Normalize(a) == Macs.Normalize(b)
    {
      SixBytesNormalize(a, bytes);
      SixBytesNormalize(b, bytes);
    }
    if Macs.Normalize(a).Some? && Macs.Normalize(a) == Macs.Normalize(b) {
      var x := TwelveDigitsSpell(a);
      var y := TwelveDigitsSpell(b);
      SixBytesNormalize(a, x);
      SixBytesNormalize(b, y);
      if x != y {
        ColonsDiffer(x, y);
      }
      assert Spelled(a, x) && Spelled(b, x);
    }
  }

  predicate Spelled(mac: string, bytes: seq<u8>) {
    |bytes| == 6 && SameText(Macs.HexDigits(mac), Digits(bytes))
  }

  // ---- made-up addresses -------------------------------------------------

  lemma HexValueIs(n: nat)
    requires n < 16
    ensures Macs.HexValue(Hex(n)) == n
  {
  }

  /** An address counts as randomized exactly when the second lowest bit of its first byte is set. */
  lemma RandomizedIff(bytes: seq<u8>)
    requires |bytes| == 6
    ensures Macs.IsRandomized(Colons(bytes)) <==> bytes[0] % 4 >= 2
  {
    ColonsCarryDigits(bytes);
    DigitsAt(bytes);
    assert Digits(bytes)[2 * 0 + 1] == Hex(bytes[0] % 16);
    HexValueIs(bytes[0] % 16);
    BitOfDigit(bytes[0]);
  }

  lemma BitOfDigit(b: u8)
    ensures b % 16 / 2 % 2 == 1 <==> b % 4 >= 2
  {
  }

  // ---- which packets are requests ----------------------------------------

  /** Exactly which packets name a client: requests with a whole header and a six-byte hardware address, or a
      longer one of up to sixteen, whose first six bytes are not all zero. */
  lemma PacketNamesClientIff(pkt: seq<u8>, decode: Decoder)
    ensures Parsed(pkt, decode).Some?
       <==> |pkt| >= 240 && pkt[0] == 1 && 6 <= pkt[2] <= 16 && !AllZero(pkt[28..34])
    ensures Parsed(pkt, decode).Some? ==> Parsed(pkt, decode).value.0 == Colons(pkt[28..34])
    ensures Parsed(pkt, decode).Some? && pkt[236..240] != [99, 130, 83, 99] ==> Parsed(pkt, decode).value.1 == None
  {
    if |pkt| >= 240 && pkt[0] == 1 && 1 <= pkt[2] <= 16 {
      ClientMacIsTheAddress(pkt);
      assert forall i :: 28 <= i < 34 ==> pkt[28..34][i - 28] == pkt[i];
    }
  }

  lemma NameOption(opts: seq<DhcpOption>, name: seq<u8>, decode: Decoder)
    requires opts == [Pad, Opt(12, name)] && |name| <= 255
    ensures Encode(opts) == [0] + ([12, |name|] + name) && LastName(opts, decode, None) == decode(name)
  {
    var more := opts[1..];
    assert more == [Opt(12, name)] && more[1..] == [];
    assert Encode(more) == [12, |name|] + name + [] == [12, |name|] + name;
    assert EncodeOne(opts[0]) == [0];
    assert LastName(more, decode, None) == LastName([], decode, Noted(Opt(12, name), decode, None));
  }

  /** A host name option behind a pad and before an end mark is read, whatever follows the mark. */
  lemma HostNameIsRead(header: seq<u8>, name: seq<u8>, rest: seq<u8>, decode: Decoder)
    requires |header| == 240 && header[236..240] == [99, 130, 83, 99] && |name| <= 255
    requires header[0] == 1 && 6 <= header[2] <= 16 && exists i :: 28 <= i < 34 && header[i] != 0
    ensures Parsed(header + ([0] + ([12, |name|] + name) + ([255] + rest)), decode)
         == Some((Colons(header[28..34]), decode(name)))
  {
    var opts, tail := [Pad, Opt(12, name)], [255] + rest;
    NameOption(opts, name, decode);
    PacketReadsBack(header, opts, tail, decode);
  }
}
