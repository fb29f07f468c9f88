/** Hardware addresses in canonical form: lower case, colon separated. */
module Macs {
  import opened Wrappers
  import opened Text

  predicate IsHex(c: char) {
    IsDigit(c) || 'a' <= c <= 'f' || 'A' <= c <= 'F'
  }

  function HexDigits(s: string): string {
    if s == "" then ""
    else HexDigits(s[..|s| - 1]) + if IsHex(s[|s| - 1]) then [s[|s| - 1]] else []
  }

  /** The first `n` pairs of digits, joined by colons. */
  function Pairs(h: string, n: nat): string
    requires |h| == 12 && 1 <= n <= 6
  {
    if n == 1 then h[0..2] else Pairs(h, n - 1) + ":" + h[2 * n - 2..2 * n]
  }

  /** Canonical lower-case colon-separated form, or None if it is no MAC or identifies nothing. */
  function Normalize(mac: string): Option<string> {
    var hex := HexDigits(mac);
    if |hex| != 12 || (forall c :: c in hex ==> c == '0') then None
    else Some(Pairs(Lower(hex), 6))
  }

  function HexValue(c: char): nat {
    if IsDigit(c) then c as int - '0' as int
    else if 'a' <= c <= 'f' then c as int - 'a' as int + 10
    else if 'A' <= c <= 'F' then c as int - 'A' as int + 10
    else 0
  }

  /** Bit 1 of the first octet: locally administered. */
  predicate IsRandomized(mac: string) {
    var hex := HexDigits(mac);
    |hex| >= 2 && HexValue(hex[1]) / 2 % 2 == 1
  }

  lemma {:induction false} HexDigitsConcat(a: string, b: string)
    ensures HexDigits(a + b) == HexDigits(a) + HexDigits(b)
    decreases |b|
  {
    if b == "" {
      assert a + b == a;
    } else {
      assert (a + b)[..|a + b| - 1] == a + b[..|b| - 1];
      HexDigitsConcat(a, b[..|b| - 1]);
    }
  }

  lemma {:induction false} HexDigitsAreHex(s: string)
    ensures forall c :: c in HexDigits(s) ==> IsHex(c)
    ensures (forall c :: c in s ==> IsHex(c)) ==> HexDigits(s) == s
  {
    if s != "" {
      HexDigitsAreHex(s[..|s| - 1]);
      assert s == s[..|s| - 1] + [s[|s| - 1]];
      assert s[|s| - 1] in s;
    }
  }

  lemma HexPair(s: string)
    requires |s| == 2 && IsHex(s[0]) && IsHex(s[1])
    ensures HexDigits(s) == s
  {
    HexDigitsAreHex(s);
  }

  lemma OnePairMore(front: string, pair: string)
    requires |pair| == 2 && IsHex(pair[0]) && IsHex(pair[1])
    ensures HexDigits(front + ":" + pair) == HexDigits(front) + pair
  {
    HexDigitsConcat(front + ":", pair);
    HexDigitsConcat(front, ":");
    assert HexDigits(":") == "" by { assert ":"[..0] == "" && !IsHex(':'); }
    HexPair(pair);
  }

  /** Pairing up digits and taking them apart again loses nothing. */
  lemma {:induction false} PairsKeepDigits(h: string, n: nat)
    requires |h| == 12 && 1 <= n <= 6 && forall c :: c in h ==> IsHex(c)
    ensures HexDigits(Pairs(h, n)) == h[..2 * n]
  {
    if n == 1 {
      HexPair(h[0..2]);
    } else {
      PairsKeepDigits(h, n - 1);
      OnePairMore(Pairs(h, n - 1), h[2 * n - 2..2 * n]);
      assert h[..2 * n] == h[..2 * n - 2] + h[2 * n - 2..2 * n];
    }
  }

  lemma LowerIsHex(s: string)
    requires forall c :: c in s ==> IsHex(c)
    ensures forall c :: c in Lower(s) ==> IsHex(c)
  {
    forall i | 0 <= i < |s| ensures IsHex(Lower(s)[i]) {
      assert s[i] in s && Lower(s)[i] == LowerChar(s[i]);
    }
  }

  /** Normalising is idempotent, so a canonical address is its own canonical form. */
  lemma NormalizeIsIdempotent(mac: string)
    requires Normalize(mac).Some?
    ensures Normalize(Normalize(mac).value) == Normalize(mac)
  {
    var hex := HexDigits(mac);
    var low := Lower(hex);
    HexDigitsAreHex(mac);
    LowerIsHex(hex);
    PairsKeepDigits(low, 6);
    assert low[..12] == low;
    LowerIdempotent(hex);
    var i :| 0 <= i < |hex| && hex[i] != '0';
    assert low[i] in low && low[i] != '0';
  }
}
