/** Which text passes for a domain, stretch by stretch, and what a line of such text adds to a build. */
module DomainShape {
  import opened Wrappers
  import opened Text
  import opened ListRules
  import opened Blocklists
  import opened BlocklistMeaning
  import opened NameSpelling
  import opened ListFormats
  import opened Messages
  import ListComments
  import HostsLines
  import ManualRuns

  // ---- dotted quads ------------------------------------------------------

  function Digit(n: nat): char
    requires n < 10
  {
    ('0' as int + n) as char
  }

  /** A number below 256 in decimal, without leading zeros. */
  function Dec(n: nat): string
    requires n < 256
  {
    if n < 10 then [Digit(n)]
    else if n < 100 then [Digit(n / 10), Digit(n % 10)]
    else [Digit(n / 100), Digit(n / 10 % 10), Digit(n % 10)]
  }

  function Quad(a: nat, b: nat, c: nat, d: nat): string
    requires a < 256 && b < 256 && c < 256 && d < 256
  {
    Dec(a) + "." + (Dec(b) + "." + (Dec(c) + "." + Dec(d)))
  }

  ghost predicate IsQuad(s: string) {
    exists a, b, c, d :: 0 <= a < 256 && 0 <= b < 256 && 0 <= c < 256 && 0 <= d < 256 && s == Quad(a, b, c, d)
  }

  lemma AllDigits(s: string)
    ensures (forall c :: c in s ==> IsDigit(c)) <==> forall i :: 0 <= i < |s| ==> IsDigit(s[i])
  {
    if forall i :: 0 <= i < |s| ==> IsDigit(s[i]) {
      forall c | c in s ensures IsDigit(c) {
        var i :| 0 <= i < |s| && s[i] == c;
      }
    }
    assert forall i :: 0 <= i < |s| ==> s[i] in s;
  }

  lemma ShortDecimal(s: string)
    requires 1 <= |s| <= 3 && forall c :: c in s ==> IsDigit(c)
    ensures |s| == 1 ==> Decimal(s) == s[0] as int - 48
    ensures |s| == 2 ==> Decimal(s) == 10 * (s[0] as int - 48) + s[1] as int - 48
    ensures |s| == 3 ==> Decimal(s) == 100 * (s[0] as int - 48) + 10 * (s[1] as int - 48) + s[2] as int - 48
  {
    if |s| == 1 {
      assert s[..0] == "";
    } else if |s| == 2 {
      assert s[..1][..0] == "" && s[..1][0] == s[0];
    } else {
      assert s[..2][..1] == s[..1] && s[..1][..0] == "" && s[..2][1] == s[1] && s[..1][0] == s[0];
    }
  }

  lemma DecIsOctet(n: nat)
    requires n < 256
    ensures IsOctet(Dec(n)) && '.' !in Dec(n)
  {
    AllDigits(Dec(n));
    ShortDecimal(Dec(n));
  }

  lemma DigitsOf(x: nat, y: nat, z: nat)
    requires x < 10 && y < 10 && z < 10
    ensures var n := 100 * x + 10 * y + z; n / 100 == x && n / 10 % 10 == y && n % 10 == z
  {
  }

  lemma OctetIsDec(p: string)
    requires IsOctet(p)
    ensures Dec(Decimal(p)) == p
  {
    AllDigits(p);
    ShortDecimal(p);
    assert forall i :: 0 <= i < |p| ==> IsDigit(p[i]);
    if |p| == 3 {
      DigitsOf(p[0] as int - 48, p[1] as int - 48, p[2] as int - 48);
    } else if |p| == 2 {
      DigitsOf(0, p[0] as int - 48, p[1] as int - 48);
    }
  }

  lemma FourSplit(a: string, b: string, c: string, d: string)
    requires '.' !in a && '.' !in b && '.' !in c && '.' !in d
    ensures Split(a + "." + (b + "." + (c + "." + d)), '.') == [a, b, c, d]
  {
    LoneLabel(d);
    SplitDot(c, d);
    SplitDot(b, c + "." + d);
    SplitDot(a, b + "." + (c + "." + d));
  }

  lemma QuadSplits(a: nat, b: nat, c: nat, d: nat)
    requires a < 256 && b < 256 && c < 256 && d < 256
    ensures Split(Quad(a, b, c, d), '.') == [Dec(a), Dec(b), Dec(c), Dec(d)]
  {
    DecIsOctet(a);
    DecIsOctet(b);
    DecIsOctet(c);
    DecIsOctet(d);
    FourSplit(Dec(a), Dec(b), Dec(c), Dec(d));
  }

  lemma SplitDot(head: string, rest: string)
    requires '.' !in head
    ensures Split(head + "." + rest, '.') == [head] + Split(rest, '.')
  {
    assert head + "." + rest == head + ['.'] + rest;
    SplitFirst(head, rest, '.');
  }

  lemma LoneLabel(s: string)
    requires '.' !in s
    ensures Split(s, '.') == [s]
  {
    assert forall i :: 0 <= i < |s| ==> s[i] in s;
    assert IndexOf(s, {'.'}) == |s|;
  }

  lemma FourPieces(parts: seq<string>)
    requires |parts| == 4
    ensures Join(parts, ".") == parts[0] + "." + (parts[1] + "." + (parts[2] + "." + parts[3]))
  {
    assert parts[1..][1..] == parts[2..] && parts[2..][1..] == parts[3..];
    assert Join(parts[3..], ".") == parts[3];
    assert Join(parts[2..], ".") == parts[2] + "." + parts[3];
    assert Join(parts[1..], ".") == parts[1] + "." + (parts[2] + "." + parts[3]);
  }

  lemma LiteralIsQuad(s: string)
    requires IsIpv4Literal(s)
    ensures IsQuad(s)
  {
    var parts := Split(s, '.');
    forall i | 0 <= i < 4 ensures IsOctet(parts[i]) && Dec(Decimal(parts[i])) == parts[i] {
      assert parts[i] in parts;
      OctetIsDec(parts[i]);
    }
    JoinSplit(s);
    FourPieces(parts);
    assert s == Quad(Decimal(parts[0]), Decimal(parts[1]), Decimal(parts[2]), Decimal(parts[3]));
  }

  lemma QuadIsLiteral(a: nat, b: nat, c: nat, d: nat)
    requires a < 256 && b < 256 && c < 256 && d < 256
    ensures IsIpv4Literal(Quad(a, b, c, d))
  {
    QuadSplits(a, b, c, d);
    DecIsOctet(a);
    DecIsOctet(b);
    DecIsOctet(c);
    DecIsOctet(d);
  }

  /** The literals that are refused are exactly the four decimal numbers below 256 with dots between. */
  lemma Ipv4LiteralIff(s: string)
    ensures IsIpv4Literal(s) <==> IsQuad(s)
  {
    if IsIpv4Literal(s) {
      LiteralIsQuad(s);
    }
    if a, b, c, d :| 0 <= a < 256 && 0 <= b < 256 && 0 <= c < 256 && 0 <= d < 256 && s == Quad(a, b, c, d) {
      QuadIsLiteral(a, b, c, d);
    }
  }

  // ---- labels ------------------------------------------------------------

  /** A stretch between two dots, or a dot and an end. */
  predicate LabelAt(d: string, p: nat, q: nat) {
    && p <= q <= |d|
    && (p == 0 || d[p - 1] == '.') && (q == |d| || d[q] == '.')
    && forall k :: p <= k < q ==> d[k] != '.'
  }

  ghost predicate HasLabel(d: string, l: string) {
    exists p: nat, q: nat :: LabelAt(d, p, q) && d[p..q] == l
  }

  lemma {:induction false} LabelsAreStretches(d: string, l: string)
    ensures l in Split(d, '.') <==> HasLabel(d, l)
    decreases |d|
  {
    var i := IndexOf(d, {'.'});
    FirstStretch(d, i, l);
    if i < |d| {
      LabelsAreStretches(d[i + 1..], l);
      assert Split(d, '.') == [d[..i]] + Split(d[i + 1..], '.');
      if p: nat, q: nat :| LabelAt(d, p, q) && d[p..q] == l {
        LaterStretch(d, i, p, q);
      }
      if HasLabel(d[i + 1..], l) {
        StretchIsLater(d, i, l);
      }
    } else {
      assert d[0..|d|] == d;
    }
  }

  lemma FirstStretch(d: string, i: nat, l: string)
    requires i == IndexOf(d, {'.'})
    ensures LabelAt(d, 0, i) && forall q: nat :: LabelAt(d, 0, q) ==> q == i
    ensures d[0..i] == d[..i]
    ensures i == |d| ==> forall p: nat, q: nat :: LabelAt(d, p, q) ==> p == 0
  {
  }

  lemma StretchBelow(d: string, i: nat, p: nat, q: nat, l: string)
    requires i < |d| && d[i] == '.' && LabelAt(d, p + i + 1, q + i + 1) && d[p + i + 1..q + i + 1] == l
    ensures HasLabel(d[i + 1..], l)
  {
    ShiftedStretch(d, i, p, q);
    SliceOfRest(d, i, p, q);
  }

  predicate FirstDot(d: string, i: nat) {
    i < |d| && d[i] == '.' && forall k :: 0 <= k < i ==> d[k] != '.'
  }

  lemma StretchPlace(d: string, i: nat, p: nat, q: nat)
    requires FirstDot(d, i) && LabelAt(d, p, q)
    ensures p == 0 ==> q == i
    ensures p > 0 ==> i < p
  {
  }

  lemma LaterStretch(d: string, i: nat, p: nat, q: nat)
    requires FirstDot(d, i) && LabelAt(d, p, q)
    ensures d[p..q] == d[..i] || HasLabel(d[i + 1..], d[p..q])
  {
    StretchPlace(d, i, p, q);
    if p > 0 {
      StretchBelow(d, i, p - i - 1, q - i - 1, d[p..q]);
    }
  }

  lemma StretchIsLater(d: string, i: nat, l: string)
    requires i == IndexOf(d, {'.'}) && i < |d| && HasLabel(d[i + 1..], l)
    ensures HasLabel(d, l)
  {
    var p: nat, q: nat :| LabelAt(d[i + 1..], p, q) && d[i + 1..][p..q] == l;
    ShiftedStretch(d, i, p, q);
    SliceOfRest(d, i, p, q);
  }

  lemma SliceOfRest(d: string, i: nat, p: nat, q: nat)
    requires i < |d| && p <= q <= |d| - i - 1
    ensures d[i + 1..][p..q] == d[p + i + 1..q + i + 1]
  {
  }

  lemma ShiftedStretch(d: string, i: nat, p: nat, q: nat)
    requires i < |d| && d[i] == '.'
    ensures LabelAt(d[i + 1..], p, q) <==> LabelAt(d, p + i + 1, q + i + 1)
  {
    var rest := d[i + 1..];
    assert forall k :: 0 <= k < |rest| ==> rest[k] == d[k + i + 1];
    if LabelAt(d, p + i + 1, q + i + 1) {
      forall k | p <= k < q ensures rest[k] != '.' {
        assert d[k + i + 1] != '.';
      }
    }
  }

  predicate LabelChar(c: char) {
    '0' <= c <= '9' || 'a' <= c <= 'z' || 'A' <= c <= 'Z' || c == '-' || c == '_'
  }

  /** At most 253 characters, two labels at least, each of 1 to 63 letters, digits, dashes and underscores, and
      no dotted quad. */
  ghost predicate Plausible(d: string) {
    && |d| <= 253 && (exists i :: 0 <= i < |d| && d[i] == '.') && !IsQuad(d)
    && (forall p: nat, q: nat :: LabelAt(d, p, q) ==> 1 <= q - p <= 63)
    && (forall i :: 0 <= i < |d| ==> d[i] == '.' || LabelChar(d[i]))
  }

  lemma ValidLabels(d: string)
    requires forall l :: l in Split(d, '.') ==> ValidLabel(l)
    ensures forall p: nat, q: nat :: LabelAt(d, p, q) ==> 1 <= q - p <= 63
    ensures forall i :: 0 <= i < |d| ==> d[i] == '.' || LabelChar(d[i])
  {
    forall p: nat, q: nat | LabelAt(d, p, q) ensures 1 <= q - p <= 63 {
      LabelsAreStretches(d, d[p..q]);
    }
    SplitPieces(d, '.');
    forall i | 0 <= i < |d| ensures d[i] == '.' || LabelChar(d[i]) {
      assert d[i] in d;
      if d[i] != '.' {
        var l :| l in Split(d, '.') && d[i] in l;
      }
    }
  }

  lemma StretchesAreValid(d: string, l: string)
    requires forall p: nat, q: nat :: LabelAt(d, p, q) ==> 1 <= q - p <= 63
    requires forall i :: 0 <= i < |d| ==> d[i] == '.' || LabelChar(d[i])
    requires l in Split(d, '.')
    ensures ValidLabel(l)
  {
    LabelsAreStretches(d, l);
    SplitPieces(d, '.');
    forall c | c in l ensures IsAlnum(c) || c == '-' || c == '_' {
      var i :| 0 <= i < |d| && d[i] == c;
    }
  }

  /** The domain test in those terms. */
  lemma ValidDomainIff(d: string)
    ensures ValidDomain(d) <==> Plausible(d)
  {
    Ipv4LiteralIff(d);
    if ValidDomain(d) {
      ValidLabels(d);
      var i :| 0 <= i < |d| && d[i] == '.';
    }
    if Plausible(d) {
      var i :| 0 <= i < |d| && d[i] == '.';
      assert '.' in d;
      forall l | l in Split(d, '.') ensures ValidLabel(l) {
        StretchesAreValid(d, l);
      }
    }
  }

  // ---- lines of one token ------------------------------------------------

  /** The text is an entry for this rule: its domain, with a star before it for a wildcard, in any letter case
      and with any number of dots behind it. */
  ghost predicate EntryFor(t: string, e: Entry) {
    Plausible(e.domain) && Spells(t, HostsLines.Entered(e.domain, e.Wildcard?))
  }

  lemma ClassifyIff(t: string, e: Entry)
    ensures Classify(t) == Some(e) <==> Plausible(e.domain) && t == HostsLines.Entered(e.domain, e.Wildcard?)
  {
    ValidDomainIff(e.domain);
    match e
    case Exact(d) =>
      if ValidDomain(d) {
        ValidDomainChars(d);
        assert d[0] in d;
      }
    case Wildcard(d) =>
      assert ("*." + d)[2..] == d;
      if "*." <= t {
        assert t == "*." + t[2..];
      }
  }

  lemma NormalizeIff(t: string, e: Entry)
    requires NoSpaces(t)
    ensures Normalize(t) == Some(e) <==> EntryFor(t, e)
  {
    CleanTextIsTrimmed(t);
    ClassifyIff(CanonicalName(t), e);
    CanonicalNameIff(t, HostsLines.Entered(e.domain, e.Wildcard?));
  }

  /** A line of one token adds exactly the rule it is an entry for, if it is one. */
  lemma TokenLineAdds(a: seq<List>, ma: seq<Matcher>, b: seq<List>, mb: seq<Matcher>, t: string, allow: bool, ed: Edit)
    requires ListComments.Token(t) && !HostsLines.SinkAddress(t)
    requires Build(a, ma) && Build(b, mb) && OneMoreLine(a, b, t, allow)
    ensures HasRule(Built(mb), ed)
       <==> HasRule(Built(ma), ed) || exists e :: EntryFor(t, e) && ed == AsRule(e, allow)
  {
    HostsLines.PrefixIff(t);
    ListComments.TokenEdits(t, allow);
    LineAdds(a, ma, b, mb, t, allow, ed);
    if ed in Add(t, allow) {
      NormalizeIff(t, Normalize(t).value);
    }
    if e :| EntryFor(t, e) && ed == AsRule(e, allow) {
      NormalizeIff(t, e);
    }
  }
}
