/** Reading the client MAC and host name out of a BOOTP/DHCP packet. */
module Dhcp {
  import opened Wrappers
  import Macs
  import Text

  /** UTF-8 decoding of a byte string, as the standard library does it. */
  type Decoder = seq<u8> -> Option<string>

  const HEADER: nat := 240
  const COOKIE: seq<u8> := [0x63, 0x82, 0x53, 0x63]
  const PAD: u8 := 0
  const HOST_NAME: u8 := 12
  const END: u8 := 255

  // ---- options as they are meant -----------------------------------------

  datatype DhcpOption = Pad | Opt(code: u8, data: seq<u8>)

  predicate WellFormed(o: DhcpOption) {
    o.Opt? ==> o.code != PAD && o.code != END && |o.data| <= 255
  }

  function EncodeOne(o: DhcpOption): seq<u8>
    requires WellFormed(o)
  {
    match o
    case Pad => [PAD]
    case Opt(code, data) => [code, |data|] + data
  }

  function Encode(opts: seq<DhcpOption>): seq<u8>
    requires forall o :: o in opts ==> WellFormed(o)
  {
    if opts == [] then [] else EncodeOne(opts[0]) + Encode(opts[1..])
  }

  /** The last option 12 that decodes, or what was known before. */
  function LastName(opts: seq<DhcpOption>, decode: Decoder, known: Option<string>): Option<string> {
    if opts == [] then known
    else LastName(opts[1..], decode, Noted(opts[0], decode, known))
  }

  function Noted(o: DhcpOption, decode: Decoder, known: Option<string>): Option<string> {
    if NamesHost(o, decode) then decode(o.data) else known
  }

  predicate NamesHost(o: DhcpOption, decode: Decoder) {
    o.Opt? && o.code == HOST_NAME && decode(o.data).Some?
  }

  /** What can follow the last complete option: nothing, an end mark with anything behind it, or an
      option that the packet cuts short. */
  predicate IsTail(rest: seq<u8>) {
    || rest == []
    || rest[0] == END
    || (rest[0] != PAD && (|rest| == 1 || rest[1] as int + 2 > |rest|))
  }

  // ---- the scan ----------------------------------------------------------

  function Scan(bytes: seq<u8>, decode: Decoder, known: Option<string>): Option<string>
    decreases |bytes|
  {
    if bytes == [] then known
    else if bytes[0] == PAD then Scan(bytes[1..], decode, known)
    else if bytes[0] == END then known
    else if |bytes| == 1 then known
    else
      var end := bytes[1] as int + 2;
      if end > |bytes| then known
      else Scan(bytes[end..], decode, Noted(Opt(bytes[0], bytes[2..end]), decode, known))
  }

  function Hex(n: nat): char
    requires n < 16
  {
    if n < 10 then ('0' as int + n) as char else ('a' as int + (n - 10)) as char
  }

  /** Bytes in hexadecimal, separated by colons. */
  function Colons(bytes: seq<u8>): string {
    if bytes == [] then ""
    else if |bytes| == 1 then [Hex(bytes[0] / 16), Hex(bytes[0] % 16)]
    else Colons(bytes[..|bytes| - 1]) + ":" + [Hex(bytes[|bytes| - 1] / 16), Hex(bytes[|bytes| - 1] % 16)]
  }

  /** A request with a usable hardware address; the address in canonical form. */
  function ClientMac(pkt: seq<u8>): Option<string> {
    if |pkt| < HEADER || pkt[0] != 1 || pkt[2] == 0 || pkt[2] > 16 then None
    else Macs.Normalize(Colons(pkt[28..28 + Min(pkt[2], 6)]))
  }

  /** The MAC and the requested host name. */
  function Parsed(pkt: seq<u8>, decode: Decoder): Option<(string, Option<string>)> {
    match ClientMac(pkt)
    case None => None
    case Some(mac) => Some((mac, if pkt[236..240] == COOKIE then Scan(pkt[240..], decode, None) else None))
  }

  method ParseDhcp(pkt: seq<u8>, decode: Decoder) returns (r: Option<(string, Option<string>)>)
    ensures r == Parsed(pkt, decode)
  {
    if |pkt| < HEADER {
      return None;
    }
    if pkt[0] != 1 {
      return None;
    }
    var hlen := pkt[2];
    if hlen == 0 || hlen > 16 {
      return None;
    }
    var mac := Macs.Normalize(Colons(pkt[28..28 + Min(hlen, 6)]));
    if mac.None? {
      return None;
    }
    if pkt[236..240] != COOKIE {
      return Some((mac.value, None));
    }
    var hostname := None;
    var i := 240;
    while i < |pkt|
      invariant 240 <= i <= |pkt|
      invariant Scan(pkt[i..], decode, hostname) == Scan(pkt[240..], decode, None)
    {
      var code := pkt[i];
      if code == PAD {
        assert pkt[i..][1..] == pkt[i + 1..];
        i := i + 1;
        continue;
      }
      if code == END {
        break;
      }
      if i + 1 >= |pkt| {
        break;
      }
      var len := pkt[i + 1];
      var start := i + 2;
      var end := start + len as int;
      if end > |pkt| {
        break;
      }
      assert pkt[i..][2..2 + len] == pkt[start..end];
      assert pkt[i..][2 + len..] == pkt[end..];
      if code == HOST_NAME {
        var name := decode(pkt[start..end]);
        if name.Some? {
          hostname := name;
        }
      }
      i := end;
    }
    return Some((mac.value, hostname));
  }

  // ---- parsing undoes encoding -------------------------------------------

  lemma EncodeOneShape(o: DhcpOption)
    requires o.Opt? && WellFormed(o)
    ensures EncodeOne(o)[0] == o.code && EncodeOne(o)[1] == |o.data|
    ensures |EncodeOne(o)| == 2 + |o.data| && EncodeOne(o)[2..] == o.data
  {
  }

  /** Scanning past one encoded option takes note of it and goes on behind it. */
  lemma ScanOne(o: DhcpOption, rest: seq<u8>, decode: Decoder, known: Option<string>)
    requires WellFormed(o)
    ensures Scan(EncodeOne(o) + rest, decode, known) == Scan(rest, decode, Noted(o, decode, known))
  {
    var bytes := EncodeOne(o) + rest;
    match o
    case Pad => assert bytes[1..] == rest;
    case Opt(code, data) =>
      EncodeOneShape(o);
      assert bytes[0] == code && bytes[1] == |data|;
      assert bytes[2..2 + |data|] == data && bytes[2 + |data|..] == rest;
  }

  lemma ScanStopsAtTail(tail: seq<u8>, decode: Decoder, known: Option<string>)
    requires IsTail(tail)
    ensures Scan(tail, decode, known) == known
  {
  }

  lemma EncodeSplits(opts: seq<DhcpOption>, tail: seq<u8>)
    requires opts != [] && forall o :: o in opts ==> WellFormed(o)
    ensures Encode(opts) + tail == EncodeOne(opts[0]) + (Encode(opts[1..]) + tail)
  {
    AppendIsAssociative(EncodeOne(opts[0]), Encode(opts[1..]), tail);
  }

  lemma EncodeCons(o: DhcpOption, more: seq<DhcpOption>)
    requires WellFormed(o) && forall p :: p in more ==> WellFormed(p)
    ensures Encode([o] + more) == EncodeOne(o) + Encode(more)
  {
    assert ([o] + more)[1..] == more;
  }

  lemma ScanOneOf(opts: seq<DhcpOption>, tail: seq<u8>, decode: Decoder, known: Option<string>)
    requires opts != [] && forall o :: o in opts ==> WellFormed(o)
    ensures Scan(Encode(opts) + tail, decode, known)
         == Scan(Encode(opts[1..]) + tail, decode, Noted(opts[0], decode, known))
  {
    EncodeSplits(opts, tail);
    ScanOne(opts[0], Encode(opts[1..]) + tail, decode, known);
  }

  /** Behind any encoded options, whatever their pads, the scan keeps the last host name that decodes;
      an end mark, or a trailing option the packet cuts short, leaves the result of the complete
      prefix. */
  lemma {:induction false} ScanUndoesEncode(opts: seq<DhcpOption>, tail: seq<u8>, decode: Decoder,
                                            known: Option<string>)
    requires (forall o :: o in opts ==> WellFormed(o)) && IsTail(tail)
    ensures Scan(Encode(opts) + tail, decode, known) == LastName(opts, decode, known)
    decreases |opts|
  {
    if opts == [] {
      assert Encode(opts) + tail == tail;
      ScanStopsAtTail(tail, decode, known);
    } else {
      ScanOneOf(opts, tail, decode, known);
      ScanUndoesEncode(opts[1..], tail, decode, Noted(opts[0], decode, known));
    }
  }

  lemma FirstOption(bytes: seq<u8>) returns (o: DhcpOption, n: nat)
    requires !IsTail(bytes)
    ensures WellFormed(o) && 0 < n <= |bytes| && bytes[..n] == EncodeOne(o)
  {
    o, n := Pad, 1;
    if bytes[0] != PAD {
      n := bytes[1] as int + 2;
      o := Opt(bytes[0], bytes[2..n]);
    }
  }

  /** Any bytes at all are some encoded options and a tail, so the lemma above covers every packet. */
  lemma {:induction false} EveryPacketDecomposes(bytes: seq<u8>) returns (opts: seq<DhcpOption>, tail: seq<u8>)
    ensures (forall o :: o in opts ==> WellFormed(o)) && IsTail(tail)
    ensures bytes == Encode(opts) + tail
    decreases |bytes|
  {
    if IsTail(bytes) {
      opts, tail := [], bytes;
    } else {
      var o, n := FirstOption(bytes);
      var more, rest := EveryPacketDecomposes(bytes[n..]);
      opts, tail := [o] + more, rest;
      EncodeCons(o, more);
      assert bytes == bytes[..n] + bytes[n..];
    }
  }

  /** Only one reading is possible: the options before the tail are determined by the bytes. */
  lemma {:induction false} DecompositionIsUnique(a: seq<DhcpOption>, s: seq<u8>, b: seq<DhcpOption>, t: seq<u8>)
    requires (forall o :: o in a ==> WellFormed(o)) && (forall o :: o in b ==> WellFormed(o))
    requires IsTail(s) && IsTail(t) && Encode(a) + s == Encode(b) + t
    ensures a == b && s == t
    decreases |a|
  {
    StartsWithOption(a, s);
    StartsWithOption(b, t);
    if a != [] && b != [] {
      SameFirstOption(a[0], Encode(a[1..]) + s, b[0], Encode(b[1..]) + t);
      DecompositionIsUnique(a[1..], s, b[1..], t);
    }
  }

  lemma StartsWithOption(a: seq<DhcpOption>, s: seq<u8>)
    requires (forall o :: o in a ==> WellFormed(o)) && IsTail(s)
    ensures a == [] <==> IsTail(Encode(a) + s)
    ensures Encode(a) + s == if a == [] then s else EncodeOne(a[0]) + (Encode(a[1..]) + s)
  {
    if a == [] {
      assert Encode(a) + s == s;
    } else {
      EncodeSplits(a, s);
      OptionIsNoTail(a[0], Encode(a[1..]) + s);
    }
  }

  lemma OptionIsNoTail(o: DhcpOption, rest: seq<u8>)
    requires WellFormed(o)
    ensures !IsTail(EncodeOne(o) + rest)
  {
  }

  lemma SameFirstOption(a: DhcpOption, s: seq<u8>, b: DhcpOption, t: seq<u8>)
    requires WellFormed(a) && WellFormed(b) && EncodeOne(a) + s == EncodeOne(b) + t
    ensures a == b && s == t
  {
    var bytes := EncodeOne(a) + s;
    assert bytes[0] == EncodeOne(a)[0] && bytes[0] == EncodeOne(b)[0];
    if a.Opt? {
      EncodeOneShape(a);
      EncodeOneShape(b);
      assert bytes[1] == |a.data| == |b.data|;
      assert bytes[2..2 + |a.data|] == a.data && bytes[2..2 + |a.data|] == b.data;
    }
    var n := |EncodeOne(a)|;
    assert bytes[n..] == s && bytes[n..] == t;
  }

  // ---- the hardware address ----------------------------------------------

  lemma HexIsHex(n: nat)
    requires n < 16
    ensures Macs.IsHex(Hex(n)) && Hex(n) == Text.LowerChar(Hex(n)) && (Hex(n) == '0' <==> n == 0)
  {
  }

  /** The digits of the bytes, without the colons. */
  function Digits(bytes: seq<u8>): string {
    if bytes == [] then ""
    else Digits(bytes[..|bytes| - 1]) + [Hex(bytes[|bytes| - 1] / 16), Hex(bytes[|bytes| - 1] % 16)]
  }

  lemma {:induction false} DigitsAt(bytes: seq<u8>)
    ensures |Digits(bytes)| == 2 * |bytes|
    ensures forall i :: 0 <= i < |bytes| ==>
              Digits(bytes)[2 * i] == Hex(bytes[i] / 16) && Digits(bytes)[2 * i + 1] == Hex(bytes[i] % 16)
    decreases |bytes|
  {
    if bytes != [] {
      DigitsAt(bytes[..|bytes| - 1]);
    }
  }

  lemma {:induction false} ColonsCarryDigits(bytes: seq<u8>)
    ensures Macs.HexDigits(Colons(bytes)) == Digits(bytes)
    decreases |bytes|
  {
    if bytes != [] {
      var n := |bytes| - 1;
      PairIsHex(bytes[n]);
      if n > 0 {
        ColonsCarryDigits(bytes[..n]);
        Macs.HexDigitsConcat(Colons(bytes[..n]) + ":", Pair(bytes[n]));
        Macs.HexDigitsConcat(Colons(bytes[..n]), ":");
        assert Macs.HexDigits(":") == "" by { assert ":"[..0] == "" && !Macs.IsHex(':'); }
      } else {
        assert bytes[..n] == [];
      }
    }
  }

  function Pair(b: u8): string {
    [Hex(b / 16), Hex(b % 16)]
  }

  lemma PairIsHex(b: u8)
    ensures Macs.HexDigits(Pair(b)) == Pair(b)
  {
    HexIsHex(b / 16);
    HexIsHex(b % 16);
    Macs.HexPair(Pair(b));
  }

  /** The six address bytes of a request are its MAC, unless they are all zero; a shorter hardware
      address yields none. */
  lemma ClientMacIsTheAddress(pkt: seq<u8>)
    requires |pkt| >= HEADER && pkt[0] == 1 && 1 <= pkt[2] <= 16
    ensures ClientMac(pkt).Some? <==> pkt[2] >= 6 && exists i :: 28 <= i < 34 && pkt[i] != 0
    ensures ClientMac(pkt).Some? ==> ClientMac(pkt).value == Colons(pkt[28..34])
  {
    var n := Min(pkt[2], 6);
    var bytes := pkt[28..28 + n];
    ColonsCarryDigits(bytes);
    DigitsAt(bytes);
    if n == 6 {
      SixBytes(bytes);
      forall i | 28 <= i < 34 ensures pkt[i] == bytes[i - 28] {
      }
    }
  }

  lemma SixBytes(bytes: seq<u8>)
    requires |bytes| == 6
    ensures Macs.Normalize(Colons(bytes)).Some? <==> exists i :: 0 <= i < 6 && bytes[i] != 0
    ensures Macs.Normalize(Colons(bytes)).Some? ==> Macs.Normalize(Colons(bytes)).value == Colons(bytes)
  {
    ColonsCarryDigits(bytes);
    DigitsAt(bytes);
    var h := Digits(bytes);
    DigitsAreLower(bytes);
    PairsAreColons(bytes, h, 6);
    assert bytes[..6] == bytes;
    forall i | 0 <= i < 6 ensures bytes[i] == 0 <==> h[2 * i] == '0' && h[2 * i + 1] == '0' {
      HexIsHex(bytes[i] / 16);
      HexIsHex(bytes[i] % 16);
    }
    if forall i :: 0 <= i < 6 ==> bytes[i] == 0 {
      forall c | c in h ensures c == '0' {
        var k :| 0 <= k < 12 && h[k] == c;
        assert bytes[k / 2] == 0 && (k == 2 * (k / 2) || k == 2 * (k / 2) + 1);
      }
    } else {
      var i :| 0 <= i < 6 && bytes[i] != 0;
      assert h[2 * i] in h && h[2 * i + 1] in h;
    }
  }

  lemma DigitsAreLower(bytes: seq<u8>)
    ensures Text.Lower(Digits(bytes)) == Digits(bytes)
  {
    DigitsAt(bytes);
    var h := Digits(bytes);
    forall k | 0 <= k < |h| ensures Text.LowerChar(h[k]) == h[k] {
      var i := k / 2;
      HexIsHex(bytes[i] / 16);
      HexIsHex(bytes[i] % 16);
      assert k == 2 * i || k == 2 * i + 1;
    }
  }

  lemma {:induction false} PairsAreColons(bytes: seq<u8>, h: string, n: nat)
    requires |bytes| == 6 && |h| == 12 && 1 <= n <= 6
    requires forall i :: 0 <= i < 6 ==> h[2 * i] == Hex(bytes[i] / 16) && h[2 * i + 1] == Hex(bytes[i] % 16)
    ensures Macs.Pairs(h, n) == Colons(bytes[..n])
  {
    assert h[2 * n - 2..2 * n] == [Hex(bytes[n - 1] / 16), Hex(bytes[n - 1] % 16)] by {
      assert h[2 * (n - 1)] == Hex(bytes[n - 1] / 16) && h[2 * (n - 1) + 1] == Hex(bytes[n - 1] % 16);
    }
    if n > 1 {
      PairsAreColons(bytes, h, n - 1);
      assert bytes[..n][..n - 1] == bytes[..n - 1];
    }
  }

  /** Different addresses are spelled differently. */
  lemma ColonsDiffer(a: seq<u8>, b: seq<u8>)
    requires |a| == |b| && a != b
    ensures Colons(a) != Colons(b)
  {
    ColonsCarryDigits(a);
    ColonsCarryDigits(b);
    DigitsAt(a);
    DigitsAt(b);
    var i :| 0 <= i < |a| && a[i] != b[i];
    HexIsOneToOne(a[i] / 16, b[i] / 16);
    HexIsOneToOne(a[i] % 16, b[i] % 16);
  }

  lemma HexIsOneToOne(m: nat, n: nat)
    requires m < 16 && n < 16
    ensures Hex(m) == Hex(n) <==> m == n
  {
  }

  lemma HeaderShows(header: seq<u8>, rest: seq<u8>)
    requires |header| == HEADER
    ensures var pkt := header + rest;
            && pkt[..HEADER] == header && pkt[HEADER..] == rest
            && pkt[28..34] == header[28..34] && pkt[236..240] == header[236..240]
  {
  }

  /** Parsing undoes encoding: a request's packet, with any options and pads behind the cookie and
      anything that ends them, reads back as its MAC and the last valid option 12. */
  lemma PacketReadsBack(header: seq<u8>, opts: seq<DhcpOption>, tail: seq<u8>, decode: Decoder)
    requires |header| == HEADER && header[236..240] == COOKIE
    requires header[0] == 1 && 6 <= header[2] <= 16 && exists i :: 28 <= i < 34 && header[i] != 0
    requires (forall o :: o in opts ==> WellFormed(o)) && IsTail(tail)
    ensures Parsed(header + (Encode(opts) + tail), decode)
         == Some((Colons(header[28..34]), LastName(opts, decode, None)))
  {
    var rest := Encode(opts) + tail;
    var pkt := header + rest;
    HeaderShows(header, rest);
    var i :| 28 <= i < 34 && header[i] != 0;
    assert pkt[i] == header[i];
    ClientMacIsTheAddress(pkt);
    ScanUndoesEncode(opts, tail, decode, None);
  }

  lemma {:induction false} NoNameKeepsKnown(opts: seq<DhcpOption>, decode: Decoder, known: Option<string>)
    requires forall o :: o in opts ==> !NamesHost(o, decode)
    ensures LastName(opts, decode, known) == known
    decreases |opts|
  {
    if opts != [] {
      NoNameKeepsKnown(opts[1..], decode, known);
    }
  }

  /** The result is the last host name option that decodes, whatever comes before it. */
  lemma {:induction false} LastNameIsLast(before: seq<DhcpOption>, o: DhcpOption, after: seq<DhcpOption>,
                                          decode: Decoder, known: Option<string>)
    requires NamesHost(o, decode) && forall p :: p in after ==> !NamesHost(p, decode)
    ensures LastName(before + ([o] + after), decode, known) == decode(o.data)
    decreases |before|
  {
    var all := before + ([o] + after);
    if before == [] {
      assert all == [o] + after && all[1..] == after;
      NoNameKeepsKnown(after, decode, decode(o.data));
    } else {
      assert all[1..] == before[1..] + ([o] + after);
      LastNameIsLast(before[1..], o, after, decode, Noted(before[0], decode, known));
    }
  }
}
