/** Comments are cut off before a line is parsed, Adblock Plus rules included: what is left of an
    element-hiding rule counts as an entry of its own. */
module ListComments {
  import opened Wrappers
  import opened Text
  import opened ListRules
  import opened Blocklists
  import opened BlocklistMeaning

  predicate HasComment(s: string) {
    exists c :: c in s && c in {'#', '!'}
  }

  /** A line contributes exactly what comes before its first comment character does. */
  lemma CommentsAreCutFirst(front: string, c: char, back: string, allow: bool)
    requires !HasComment(front) && c in {'#', '!'}
    ensures LineEdits(front + [c] + back, allow) == LineEdits(front, allow)
  {
    var raw := front + [c] + back;
    assert raw[..|front|] == front && raw[|front|] == c;
    CutAt(raw, |front|);
    UncutLine(front);
  }

  lemma CutAt(raw: string, n: nat)
    requires n < |raw| && raw[n] in {'#', '!'} && !HasComment(raw[..n])
    ensures StripComment(raw) == Trim(raw[..n])
  {
    forall j | 0 <= j < n ensures raw[j] !in {'#', '!'} {
      assert raw[j] == raw[..n][j] && raw[..n][j] in raw[..n];
    }
    assert IndexOf(raw, {'#', '!'}) == n;
  }

  lemma UncutLine(t: string)
    requires !HasComment(t)
    ensures StripComment(t) == Trim(t)
  {
    assert forall j :: 0 <= j < |t| ==> t[j] in t;
    var i := IndexOf(t, {'#', '!'});
    assert i == |t| && t[..i] == t;
  }

  /** A single field that is not itself anchored like an Adblock Plus rule. */
  predicate Token(t: string) {
    t != "" && NoSpaces(t) && !HasComment(t) && !("||" <= t) && !("@@" <= t)
  }

  lemma TokenEdits(t: string, allow: bool)
    requires Token(t)
    ensures LineEdits(t, allow) == if IsHostsPrefix(t) then [] else Add(t, allow)
  {
    CleanTextIsTrimmed(t);
    UncutLine(t);
    assert [t][1..] == [];
  }

  /** Exactly when a rule `front##back` is not skipped: when what stands before the marks is an entry. */
  lemma HidingRuleContributesIff(front: string, back: string, allow: bool)
    requires Token(front)
    ensures LineEdits(front + "##" + back, allow) == if IsHostsPrefix(front) then [] else Add(front, allow)
    ensures LineEdits(front + "##" + back, allow) != [] <==> Normalize(front).Some? && !IsHostsPrefix(front)
  {
    assert front + "##" + back == front + ['#'] + ("#" + back);
    CommentsAreCutFirst(front, '#', "#" + back, allow);
    TokenEdits(front, allow);
  }

  lemma DomainIsToken(d: string)
    requires Canonical(d)
    ensures Token(d)
  {
    ValidDomainChars(d);
    assert d[0] in d;
  }

  /** A build from a list that hides an element on one site blocks the site. */
  lemma HidingRuleBlocksItsSite(lists: seq<List>, ms: seq<Matcher>, l: List, d: string, back: string)
    requires Build(lists, ms) && l in lists && !l.allow && d + "##" + back in Lines(l.contents)
    requires Canonical(d) && !IsHostsPrefix(d)
    ensures Blocked(Built(ms), d) <==> !Allowed(Built(ms), d)
  {
    var ed := Block(Exact(d));
    DomainIsToken(d);
    HidingRuleContributesIff(d, back, false);
    CanonicalIsFixed(d);
    EditsComeFromLines(Lines(l.contents), l.allow, ed);
    assert Gives(l, ed);
    BuiltHasContributedRules(lists, ms, ed);
    assert HasRule(Built(ms), ed);
  }

  lemma OneLabel(l: string)
    requires l != "" && forall c :: c in l ==> 'a' <= c <= 'z'
    ensures Split(l, '.') == [l] && '.' !in l
  {
    assert forall j :: 0 <= j < |l| ==> l[j] in l;
    assert IndexOf(l, {'.'}) == |l|;
  }

  lemma TwoLabels(a: string, b: string, d: string)
    requires d == a + ['.'] + b && ValidLabel(a) && ValidLabel(b)
    requires forall c :: c in a + b ==> 'a' <= c <= 'z'
    ensures Canonical(d)
  {
    assert forall c :: c in a ==> c in a + b;
    assert forall c :: c in b ==> c in a + b;
    OneLabel(b);
    SplitFirst(a, b, '.');
    assert Split(d, '.') == [a, b];
    assert d[|a|] == '.';
    forall i | 0 <= i < |d| ensures Lower(d)[i] == d[i] {
      if i != |a| {
        assert d[i] in a + b;
      }
    }
  }

  /** `example.com##.ad` adds `example.com`. */
  lemma ExampleIsBlocked(d: string, back: string)
    requires d == "example.com" && back == ".ad"
    ensures LineEdits(d + "##" + back, false) == [Block(Exact(d))]
  {
    TwoLabels(d[..7], d[8..], d);
    DomainIsToken(d);
    HidingRuleContributesIff(d, back, false);
    CanonicalIsFixed(d);
  }
}
