/** Which text passes for a host name, and as what name. */
module HostNames {
  import opened Wrappers
  import opened Messages
  import opened NameSpelling
  import opened Devices
  import opened DomainShape
  import Text
  import Macs
  import H = HostsLines
  import D = Dhcp

  /** `t` is what is left of the text without the blanks around it. */
  ghost predicate Within(raw: string, t: string) {
    exists pad, pad' :: H.Blank(pad) && H.Blank(pad') && raw == pad + t + pad'
  }

  predicate Tight(t: string) {
    t != "" && !Text.IsSpace(t[0]) && !Text.IsSpace(t[|t| - 1])
  }

  lemma {:induction false} StartSplits(s: string) returns (pad: string)
    ensures H.Blank(pad) && s == pad + Text.TrimStart(s)
  {
    pad := "";
    if s != "" && Text.IsSpace(s[0]) {
      var more := StartSplits(s[1..]);
      pad := [s[0]] + more;
      assert s == [s[0]] + s[1..];
    }
  }

  lemma {:induction false} EndSplits(s: string) returns (pad: string)
    ensures H.Blank(pad) && s == Text.TrimEnd(s) + pad
    decreases |s|
  {
    pad := "";
    if s != "" && Text.IsSpace(s[|s| - 1]) {
      var more := EndSplits(s[..|s| - 1]);
      pad := more + [s[|s| - 1]];
      assert s == s[..|s| - 1] + [s[|s| - 1]];
    }
  }

  lemma TrimIsWithin(raw: string)
    ensures Within(raw, Text.Trim(raw))
    ensures Text.Trim(raw) != "" ==> Tight(Text.Trim(raw))
  {
    var pad := StartSplits(raw);
    var pad' := EndSplits(Text.TrimStart(raw));
    assert raw == pad + Text.Trim(raw) + pad';
    Text.TrimDropsSpacesOnly(raw);
  }

  /** Letters, digits, dashes, underscores and dots. */
  predicate NameText(n: string) {
    forall i :: 0 <= i < |n| ==> n[i] == '.' || LabelChar(n[i])
  }

  /** A name worth showing: up to 64 such characters, and no address. */
  ghost predicate Shown(n: string) {
    1 <= |n| <= 64 && NameText(n) && !IsQuad(n)
  }

  lemma LowerKeepsNameText(t: string)
    ensures NameText(Text.Lower(t)) <==> forall c :: c in t ==> HostnameChar(c)
  {
    var n := Text.Lower(t);
    assert forall i :: 0 <= i < |t| ==> t[i] in t && n[i] == Text.LowerChar(t[i]);
    if NameText(n) {
      forall c | c in t ensures HostnameChar(c) {
        var i :| 0 <= i < |t| && t[i] == c;
        assert n[i] == '.' || LabelChar(n[i]);
      }
    }
  }

  predicate DigitsAndDots(s: string) {
    forall i :: 0 <= i < |s| ==> Text.IsDigit(s[i]) || s[i] == '.'
  }

  lemma NoLettersToLower(t: string)
    requires DigitsAndDots(Text.Lower(t)) || DigitsAndDots(t)
    ensures Text.Lower(t) == t
  {
    forall i | 0 <= i < |t| ensures Text.Lower(t)[i] == t[i] {
      assert Text.Lower(t)[i] == Text.LowerChar(t[i]);
    }
  }

  lemma DotBetween(a: string, b: string)
    requires DigitsAndDots(a) && DigitsAndDots(b)
    ensures DigitsAndDots(a + "." + b)
  {
  }

  lemma QuadText(a: nat, b: nat, c: nat, d: nat)
    requires a < 256 && b < 256 && c < 256 && d < 256
    ensures DigitsAndDots(Quad(a, b, c, d))
  {
    DotBetween(Dec(c), Dec(d));
    DotBetween(Dec(b), Dec(c) + "." + Dec(d));
    DotBetween(Dec(a), Dec(b) + "." + (Dec(c) + "." + Dec(d)));
  }

  lemma LowerKeepsQuads(t: string)
    ensures IsQuad(Text.Lower(t)) <==> Text.IsIpv4Literal(t)
  {
    Ipv4LiteralIff(t);
    if a, b, c, d :| 0 <= a < 256 && 0 <= b < 256 && 0 <= c < 256 && 0 <= d < 256 && t == Quad(a, b, c, d) {
      QuadText(a, b, c, d);
      NoLettersToLower(t);
    }
    if a, b, c, d :| 0 <= a < 256 && 0 <= b < 256 && 0 <= c < 256 && 0 <= d < 256
                     && Text.Lower(t) == Quad(a, b, c, d) {
      QuadText(a, b, c, d);
      NoLettersToLower(t);
    }
  }

  /** Exactly which text passes, and as what: blanks around it and dots behind it dropped, in small letters. */
  lemma SanitizedIff(raw: string, n: string)
    ensures SanitizeHostname(raw) == Some(n)
       <==> Shown(n) && exists t :: Within(raw, t) && Tight(t) && Spells(t, n)
  {
    TrimIsWithin(raw);
    SanitizedOfTrimmed(raw, n);
    if t :| Within(raw, t) && Tight(t) && Spells(t, n) {
      var pad, pad' :| H.Blank(pad) && H.Blank(pad') && raw == pad + t + pad';
      H.TrimFinds(pad, t, pad');
    }
  }

  lemma SanitizedOfTrimmed(raw: string, n: string)
    ensures SanitizeHostname(raw) == Some(n) <==> Shown(n) && Spells(Text.Trim(raw), n)
  {
    var t := Text.TrimEndDots(Text.Trim(raw));
    CanonicalNameIff(Text.Trim(raw), n);
    LowerKeepsNameText(t);
    LowerKeepsQuads(t);
    assert CanonicalName(Text.Trim(raw)) == Text.Lower(t);
  }
}
