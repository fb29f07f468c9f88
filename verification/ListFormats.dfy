/** What a line of each format adds to a build: Adblock Plus rules, hosts lines, bare domains and wildcards. */
module ListFormats {
  import opened Wrappers
  import opened Text
  import opened ListRules
  import opened Blocklists
  import opened BlocklistMeaning
  import opened NameSpelling
  import ManualRuns
  import ListComments

  /** The lists `b` have the lines of `a` and one more, whatever their order and grouping. */
  ghost predicate OneMoreLine(a: seq<List>, b: seq<List>, raw: string, allow: bool) {
    forall r, al :: HasLine(b, r, al) <==> HasLine(a, r, al) || (r == raw && al == allow)
  }

  /** The rule, to block with or to allow with. */
  function AsRule(e: Entry, allow: bool): Edit {
    if allow then Allow(e) else Block(e)
  }

  lemma LineAdds(a: seq<List>, ma: seq<Matcher>, b: seq<List>, mb: seq<Matcher>, raw: string, allow: bool, ed: Edit)
    requires Build(a, ma) && Build(b, mb) && OneMoreLine(a, b, raw, allow)
    ensures HasRule(Built(mb), ed) <==> HasRule(Built(ma), ed) || ed in LineEdits(raw, allow)
  {
    BuiltHasContributedRules(a, ma, ed);
    BuiltHasContributedRules(b, mb, ed);
    ContributionsComeFromLines(a, ed);
    ContributionsComeFromLines(b, ed);
    if ed in LineEdits(raw, allow) {
      assert HasLine(b, raw, allow);
    }
    if r, al :| HasLine(a, r, al) && ed in LineEdits(r, al) {
      assert HasLine(b, r, al);
    }
  }

  lemma LineIsBuiltIn(lists: seq<List>, ms: seq<Matcher>, raw: string, allow: bool, ed: Edit)
    requires Build(lists, ms) && HasLine(lists, raw, allow) && ed in LineEdits(raw, allow)
    ensures HasRule(Built(ms), ed)
  {
    BuiltHasContributedRules(lists, ms, ed);
    ContributionsComeFromLines(lists, ed);
  }

  // ---- Adblock Plus rules ------------------------------------------------

  /** What may follow the domain of a rule: nothing, or the separator and neither a modifier nor a path. */
  predicate PlainTail(tail: string) {
    && (tail == "" || tail[0] == '^')
    && forall c :: c in tail ==> c !in {'$', '/', '#', '!'} && !IsSpace(c)
  }

  function Anchored(d: string, tail: string, exception: bool): string {
    (if exception then "@@" else "") + "||" + d + tail
  }

  /** The line is anchored, and `rest` is what follows the bars. */
  predicate HasAnchor(line: string, exception: bool, rest: string) {
    && |line| >= (if exception then 4 else 2)
    && (if exception then line[0] == '@' && line[1] == '@' && line[2] == '|' && line[3] == '|'
        else line[0] == '|' && line[1] == '|')
    && line[if exception then 4 else 2..] == rest
  }

  lemma AnchoredHasAnchor(d: string, tail: string, exception: bool)
    ensures HasAnchor(Anchored(d, tail, exception), exception, d + tail)
  {
  }

  /** What becomes of the text behind the bars. */
  function ParsedRest(rest: string, exception: bool): Option<AdblockRule> {
    var i := IndexOf(rest, {'^', '$', '/'});
    if '$' in rest[i..] || '/' in rest[i..] || i == 0 || '*' in rest[..i] then None
    else Some(if exception then ExceptionRule(rest[..i]) else BlockRule(rest[..i]))
  }

  lemma AnchorParses(line: string, exception: bool, rest: string)
    requires HasAnchor(line, exception, rest)
    ensures ParseAdblock(line) == ParsedRest(rest, exception)
  {
    if exception {
      assert line[2..][2..] == rest;
    }
  }

  lemma DomainEndsAt(d: string, tail: string)
    requires PlainTail(tail) && forall c :: c in d ==> c !in {'^', '$', '/'}
    ensures IndexOf(d + tail, {'^', '$', '/'}) == |d|
  {
    var s := d + tail;
    assert forall i :: 0 <= i < |d| ==> s[i] == d[i] && d[i] in d;
    assert tail != "" ==> s[|d|] == tail[0];
  }

  lemma AnchoredParses(d: string, tail: string, exception: bool)
    requires Canonical(d) && PlainTail(tail)
    ensures ParseAdblock(Anchored(d, tail, exception))
         == Some(if exception then ExceptionRule(d) else BlockRule(d))
  {
    var rest := d + tail;
    ValidDomainChars(d);
    AnchoredHasAnchor(d, tail, exception);
    AnchorParses(Anchored(d, tail, exception), exception, rest);
    DomainEndsAt(d, tail);
    assert rest[..|d|] == d && rest[|d|..] == tail;
  }

  lemma AnchoredIsClean(d: string, tail: string, exception: bool)
    requires Canonical(d) && PlainTail(tail)
    ensures StripComment(Anchored(d, tail, exception)) == Anchored(d, tail, exception)
  {
    var line := Anchored(d, tail, exception);
    ValidDomainChars(d);
    forall c | c in line ensures !IsSpace(c) && c != '#' && c != '!' {
      assert c in d || c in tail || c == '@' || c == '|';
    }
    ListComments.UncutLine(line);
    CleanTextIsTrimmed(line);
  }

  lemma AnchoredEdits(d: string, tail: string, exception: bool, allow: bool)
    requires Canonical(d) && PlainTail(tail)
    ensures LineEdits(Anchored(d, tail, exception), allow) == [AsRule(Wildcard(d), allow || exception)]
  {
    AnchoredParses(d, tail, exception);
    AnchoredIsClean(d, tail, exception);
    CanonicalIsFixed(d);
  }

  /** A rule `||d^` adds exactly the wildcard of its domain, to block with in a block list; an exception
      `@@||d^` adds it to allow with in any list. */
  lemma AnchoredRuleAdds(a: seq<List>, ma: seq<Matcher>, b: seq<List>, mb: seq<Matcher>, d: string, tail: string,
                         exception: bool, allow: bool, ed: Edit)
    requires Canonical(d) && PlainTail(tail)
    requires Build(a, ma) && Build(b, mb) && OneMoreLine(a, b, Anchored(d, tail, exception), allow)
    ensures HasRule(Built(mb), ed) <==> HasRule(Built(ma), ed) || ed == AsRule(Wildcard(d), allow || exception)
  {
    AnchoredEdits(d, tail, exception, allow);
    LineAdds(a, ma, b, mb, Anchored(d, tail, exception), allow, ed);
  }

  /** The domain or a name beneath it. */
  predicate Beneath(x: string, d: string) {
    x == d || EndsWith(x, "." + d)
  }

  lemma WildcardCovers(keys: set<string>, d: string, x: string)
    requires d in keys && d != "" && Beneath(x, d)
    ensures Covers(keys, x)
  {
    RuleCoversItsSubtree(d, x);
    var p: nat :| LabelStart(x, p) && x[p..] in {d};
    assert x[p..] in keys;
  }

  /** So a build with `||d^` in some block list blocks `d` and every name beneath it, unless it is allowed; one
      with `@@||d^` in any list blocks none of them. */
  lemma AnchoredRuleDecides(lists: seq<List>, ms: seq<Matcher>, d: string, tail: string, exception: bool, allow: bool,
                            x: string)
    requires Canonical(d) && PlainTail(tail) && Beneath(x, d)
    requires Build(lists, ms) && HasLine(lists, Anchored(d, tail, exception), allow)
    ensures if exception || allow then BlockedBy(Built(ms), x) == None
            else BlockedBy(Built(ms), x).Some? <==> !Allowed(Built(ms), x)
  {
    AnchoredEdits(d, tail, exception, allow);
    var rule := AsRule(Wildcard(d), allow || exception);
    LineIsBuiltIn(lists, ms, Anchored(d, tail, exception), allow, rule);
    assert HasRule(Built(ms), rule);
    var m := Built(ms);
    if exception || allow {
      WildcardCovers(m.allowWildcards, d, x);
    } else {
      WildcardCovers(m.wildcards.Keys, d, x);
    }
  }

  // ---- rules that are skipped --------------------------------------------

  lemma OddStartIsNoRule(t: string)
    requires t != "" && NoSpaces(t) && t[0] in {'|', '@', '['}
    ensures Normalize(t) == None
  {
    CleanTextIsTrimmed(t);
    var u := TrimEndDots(t);
    var e := Lower(u);
    assert u != "" && e[0] == t[0] && e[0] in e;
    if Classify(e).Some? {
      ManualRuns.NormalizedChars(e);
    }
  }

  lemma {:induction false} TrimEndKeepsFront(s: string, n: nat)
    requires n < |s| && !IsSpace(s[n])
    ensures n < |TrimEnd(s)| && TrimEnd(s) <= s
    decreases |s|
  {
    if IsSpace(s[|s| - 1]) {
      TrimEndKeepsFront(s[..|s| - 1], n);
    }
  }

  lemma TrimKeepsFront(s: string, n: nat)
    requires n < |s| && !IsSpace(s[n]) && !IsSpace(s[0])
    ensures n < |Trim(s)| && Trim(s) <= s
  {
    TrimEndKeepsFront(s, n);
  }

  lemma FirstField(t: string)
    requires t != "" && !IsSpace(t[0])
    ensures Fields(t) != [] && Fields(t)[0] != "" && Fields(t)[0][0] == t[0] && NoSpaces(Fields(t)[0])
  {
    var n := IndexOfSpace(t);
    assert TrimStart(t) == t && Fields(t)[0] == t[..n];
  }

  lemma OddFieldIsNoPrefix(f: string)
    requires f != "" && f[0] in {'|', '@', '['}
    ensures !IsHostsPrefix(f)
  {
  }

  /** A line that starts like a rule or a header, but is none that is read, adds nothing. */
  lemma OddLineAddsNothing(line: string, allow: bool)
    requires line != "" && line[0] in {'|', '@', '['} && !IsSpace(line[0])
    requires !ListComments.HasComment(line) && ParseAdblock(Trim(line)) == None
    ensures LineEdits(line, allow) == []
  {
    ListComments.UncutLine(line);
    TrimKeepsFront(line, 0);
    FirstField(Trim(line));
    var f := Fields(Trim(line))[0];
    OddStartIsNoRule(f);
    OddFieldIsNoPrefix(f);
  }

  lemma AnchoredHasNoComment(rest: string, exception: bool)
    requires !ListComments.HasComment(rest)
    ensures !ListComments.HasComment(Anchored(rest, "", exception))
    ensures Anchored(rest, "", exception)[0] in {'|', '@'}
  {
    forall c | c in Anchored(rest, "", exception) ensures c !in {'#', '!'} {
      assert c in rest || c == '@' || c == '|';
    }
  }

  /** Trimming an anchored line trims what follows the bars, past any of its characters that is no space. */
  lemma TrimmedAnchor(rest: string, exception: bool, n: nat) returns (rest': string)
    requires n < |rest| && !IsSpace(rest[n])
    ensures n < |rest'| && rest' <= rest
    ensures ParseAdblock(Trim(Anchored(rest, "", exception))) == ParsedRest(rest', exception)
  {
    var line, k := Anchored(rest, "", exception), if exception then 4 else 2;
    AnchoredHasAnchor(rest, "", exception);
    assert rest + "" == rest && line[k + n] == line[k..][n];
    TrimKeepsFront(line, k + n);
    var t := Trim(line);
    rest' := t[k..];
    assert rest' == rest[..|t| - k];
    assert HasAnchor(t, exception, rest');
    AnchorParses(t, exception, rest');
  }

  /** A rule with a modifier or a path is skipped, whatever list it is in. */
  lemma ModifiedRuleAddsNothing(rest: string, exception: bool, allow: bool)
    requires !ListComments.HasComment(rest) && ('$' in rest || '/' in rest)
    ensures LineEdits(Anchored(rest, "", exception), allow) == []
  {
    AnchoredHasNoComment(rest, exception);
    var n :| 0 <= n < |rest| && rest[n] in {'$', '/'};
    var rest' := TrimmedAnchor(rest, exception, n);
    var i := IndexOf(rest', {'^', '$', '/'});
    assert rest'[n] == rest[n] && i <= n;
    assert rest'[i..][n - i] == rest[n];
    OddLineAddsNothing(Anchored(rest, "", exception), allow);
  }

  /** A rule with a star before the separator is skipped, and so is a header such as `[Adblock Plus 2.0]`. */
  lemma StarredRuleAddsNothing(rest: string, n: nat, exception: bool, allow: bool)
    requires !ListComments.HasComment(rest) && n < |rest| && rest[n] == '*' && '^' !in rest[..n]
    ensures LineEdits(Anchored(rest, "", exception), allow) == []
  {
    AnchoredHasNoComment(rest, exception);
    var rest' := TrimmedAnchor(rest, exception, n);
    var i := IndexOf(rest', {'^', '$', '/'});
    assert rest'[n] == rest[n];
    StarIsUnread(rest', exception, n) by {
      forall j | 0 <= j < n ensures rest'[j] != '^' {
        assert rest[..n][j] == rest[j] == rest'[j];
      }
    }
    OddLineAddsNothing(Anchored(rest, "", exception), allow);
  }

  lemma StarIsUnread(rest: string, exception: bool, n: nat)
    requires n < |rest| && rest[n] == '*' && forall j :: 0 <= j < n ==> rest[j] != '^'
    ensures ParsedRest(rest, exception) == None
  {
    var i := IndexOf(rest, {'^', '$', '/'});
    if i < n {
      assert rest[i..][0] == rest[i];
    } else {
      assert i > n && rest[..i][n] == '*';
    }
  }

  lemma HeaderAddsNothing(line: string, allow: bool)
    requires line != "" && line[0] == '[' && !ListComments.HasComment(line)
    ensures LineEdits(line, allow) == []
  {
    TrimKeepsFront(line, 0);
    OddLineAddsNothing(line, allow);
  }

  /** A line of the Adblock Plus kind that is not read: with a modifier or a path, with a star before the
      separator, or a header. */
  ghost predicate IsSkipped(line: string) {
    && !ListComments.HasComment(line)
    && (|| (line != "" && line[0] == '[')
        || (exists rest, exception :: line == Anchored(rest, "", exception) && ('$' in rest || '/' in rest))
        || (exists rest, exception, n: nat :: line == Anchored(rest, "", exception) && StarAt(rest, n)))
  }

  predicate StarAt(rest: string, n: nat) {
    n < |rest| && rest[n] == '*' && '^' !in rest[..n]
  }

  lemma AnchoredPart(rest: string, exception: bool)
    requires !ListComments.HasComment(Anchored(rest, "", exception))
    ensures !ListComments.HasComment(rest)
  {
    forall c | c in rest ensures c in Anchored(rest, "", exception) {
    }
  }

  lemma SkippedEdits(line: string, allow: bool)
    requires IsSkipped(line)
    ensures LineEdits(line, allow) == []
  {
    if line != "" && line[0] == '[' {
      HeaderAddsNothing(line, allow);
    } else if rest, exception :| line == Anchored(rest, "", exception) && ('$' in rest || '/' in rest) {
      AnchoredPart(rest, exception);
      ModifiedRuleAddsNothing(rest, exception, allow);
    } else {
      var rest, exception, n: nat :| line == Anchored(rest, "", exception) && StarAt(rest, n);
      AnchoredPart(rest, exception);
      StarredRuleAddsNothing(rest, n, exception, allow);
    }
  }

  /** Such lines add nothing to a build, whatever list they are in. */
  lemma SkippedRuleAddsNothing(a: seq<List>, ma: seq<Matcher>, b: seq<List>, mb: seq<Matcher>, line: string,
                               allow: bool, ed: Edit)
    requires IsSkipped(line) && Build(a, ma) && Build(b, mb) && OneMoreLine(a, b, line, allow)
    ensures HasRule(Built(mb), ed) <==> HasRule(Built(ma), ed)
  {
    SkippedEdits(line, allow);
    LineAdds(a, ma, b, mb, line, allow, ed);
  }
}
