/** What any sequence of edits to a manual list leaves behind, and what reading it back blocks. */
module ManualRuns {
  import opened Wrappers
  import opened Text
  import opened ListRules
  import opened ManualLists

  datatype Request = AddRule(domain: string) | RemoveRule(domain: string)

  function After(file: Option<string>, req: Request): Option<string> {
    match req
    case AddRule(d) => (match Appended(file, d) case None => file case Some(f) => f)
    case RemoveRule(d) => Removed(file, d)
  }

  /** The file after the requests, starting without one. */
  function Play(reqs: seq<Request>): Option<string> {
    if reqs == [] then None else After(Play(reqs[..|reqs| - 1]), reqs[|reqs| - 1])
  }

  /** A request by the text it puts in the file or drops from it. */
  datatype Op = Put(text: string) | Drop(text: string) | Refuse

  function OpOf(req: Request): Op {
    match req
    case AddRule(d) => if Normalize(Spelling(d)).Some? then Put(Spelling(d)) else Refuse
    case RemoveRule(d) => Drop(Spelling(d))
  }

  function Ops(reqs: seq<Request>): seq<Op> {
    seq(|reqs|, i requires 0 <= i < |reqs| => OpOf(reqs[i]))
  }

  /** The text was put in the file and not dropped since. */
  ghost predicate Live(ops: seq<Op>, text: string) {
    exists i: nat :: i < |ops| && ops[i] == Put(text) && Drop(text) !in ops[i..]
  }

  lemma LiveStep(ops: seq<Op>, op: Op, text: string)
    ensures Live(ops + [op], text) <==> op == Put(text) || (Live(ops, text) && op != Drop(text))
  {
    var all := ops + [op];
    if op == Put(text) {
      assert all[|ops|..] == [op];
    } else {
      if Live(all, text) {
        var i: nat :| i < |all| && all[i] == Put(text) && Drop(text) !in all[i..];
        assert all[i..] == ops[i..] + [op];
        assert ops[i] == Put(text);
      }
      if Live(ops, text) && op != Drop(text) {
        var i: nat :| i < |ops| && ops[i] == Put(text) && Drop(text) !in ops[i..];
        assert all[i..] == ops[i..] + [op];
        assert all[i] == Put(text);
      }
    }
  }

  lemma OpsStep(reqs: seq<Request>, req: Request)
    ensures Ops(reqs + [req]) == Ops(reqs) + [OpOf(req)]
  {
  }

  // ---- texts that are accepted -------------------------------------------

  /** What a spelled, accepted rule looks like. */
  predicate RuleText(t: string) {
    && Normalize(t).Some? && Lower(t) == t && Trim(t) == t
  }

  lemma SpellingIsTrimmed(request: string)
    ensures Trim(Spelling(request)) == Spelling(request)
    ensures Lower(Spelling(request)) == Spelling(request)
  {
    var s, t := Trim(request), Spelling(request);
    TrimDropsSpacesOnly(request);
    LowerIdempotent(s);
    if t != "" {
      assert t[0] == LowerChar(s[0]) && t[|t| - 1] == LowerChar(s[|s| - 1]);
      assert !IsSpace(t[0]) && !IsSpace(t[|t| - 1]);
      assert TrimStart(t) == t;
      assert TrimEnd(t) == t;
    }
  }

  predicate RuleChar(c: char) {
    IsAlnum(c) || c == '-' || c == '_' || c == '.' || c == '*'
  }

  lemma RuleTextChars(t: string)
    requires RuleText(t)
    ensures t != "" && NoSpaces(t)
    ensures forall c :: c in t ==> RuleChar(c)
  {
    var u := TrimEndDots(t);
    var e := Lower(u);
    assert e == u by {
      forall i | 0 <= i < |u| ensures e[i] == u[i] {
        assert u[i] == t[i] == Lower(t)[i];
      }
    }
    NormalizedChars(e);
    forall c | c in t ensures RuleChar(c) {
      var i :| 0 <= i < |t| && t[i] == c;
      if i < |u| {
        assert c == u[i] && u[i] in e;
      }
    }
    assert t == "" ==> e == "";
  }

  lemma NormalizedChars(e: string)
    requires Classify(e).Some?
    ensures e != "" && forall c :: c in e ==> RuleChar(c)
  {
    var d := Classify(e).value.domain;
    ValidDomainChars(d);
    forall c | c in e ensures RuleChar(c) {
      var i :| 0 <= i < |e| && e[i] == c;
      if "*." <= e && i >= 2 {
        assert e[2..][i - 2] == c;
        assert c in d;
      } else if !("*." <= e) {
        assert e == d;
      }
    }
  }

  /** A rule on a line of its own is read back as that rule, unless it passes for a hosts prefix. */
  lemma RuleLineReadsBack(t: string, allow: bool)
    requires RuleText(t)
    ensures LineEdits(t, allow) == if IsHostsPrefix(t) then [] else Add(t, allow)
  {
    RuleTextChars(t);
    CleanTextIsTrimmed(t);
    CommentFree(t);
    NotAdblock(t);
    assert [t][1..] == [];
  }

  lemma NotAdblock(t: string)
    requires t != "" && forall c :: c in t ==> RuleChar(c)
    ensures ParseAdblock(t) == None
  {
    assert t[0] in t;
  }

  lemma CommentFree(t: string)
    requires forall c :: c in t ==> RuleChar(c)
    requires NoSpaces(t)
    ensures StripComment(t) == t
  {
    var i := IndexOf(t, {'#', '!'});
    assert forall j :: 0 <= j < |t| ==> t[j] in t && RuleChar(t[j]);
    assert t[..i] == t;
    CleanTextIsTrimmed(t);
  }

  lemma BlankLineReadsNothing(allow: bool)
    ensures LineEdits("", allow) == []
  {
  }

  // ---- the file as it is kept --------------------------------------------

  /** One line a rule, no rule twice, and exactly the live texts. */
  ghost predicate GoodLines(lines: seq<string>, ops: seq<Op>) {
    && NoRepeats(lines)
    && (forall l :: l in lines ==> PlainLine(l))
    && (forall t :: t != "" ==> (t in lines <==> Live(ops, t)))
  }

  predicate NoRepeats(lines: seq<string>) {
    forall i, j :: 0 <= i < j < |lines| && lines[i] == lines[j] ==> lines[i] == ""
  }

  /** Such lines, in a file that is newline-terminated or empty. */
  ghost predicate WellKept(content: string, ops: seq<Op>) {
    && content == Unlines(Lines(content))
    && (content == "" || content[|content| - 1] == '\n')
    && GoodLines(Lines(content), ops)
  }

  ghost predicate Kept(file: Option<string>, ops: seq<Op>) {
    match file
    case None => forall t :: !Live(ops, t)
    case Some(content) => WellKept(content, ops)
  }

  lemma {:induction false} UnlinesEnds(lines: seq<string>)
    ensures Unlines(lines) == "" || Unlines(lines)[|Unlines(lines)| - 1] == '\n'
  {
    if lines != [] {
      UnlinesEnds(lines[1..]);
    }
  }

  lemma GoodLinesKeepWell(lines: seq<string>, ops: seq<Op>)
    requires GoodLines(lines, ops)
    ensures WellKept(Unlines(lines), ops)
  {
    LinesUnlines(lines);
    UnlinesEnds(lines);
  }

  /** After any sequence of adds and removes, with any input, the file is well kept: newline-terminated or
      empty, no text on two lines, and exactly the texts added and not later removed. */
  lemma {:induction false} FileIsWellKept(reqs: seq<Request>)
    ensures Kept(Play(reqs), Ops(reqs))
    decreases |reqs|
  {
    if reqs != [] {
      var before, last := reqs[..|reqs| - 1], reqs[|reqs| - 1];
      FileIsWellKept(before);
      assert reqs == before + [last];
      OpsStep(before, last);
      RequestKeeps(Play(before), Ops(before), last);
    }
  }

  lemma RequestKeeps(file: Option<string>, ops: seq<Op>, req: Request)
    requires Kept(file, ops)
    ensures Kept(After(file, req), ops + [OpOf(req)])
  {
    match OpOf(req)
    case Put(text) =>
      SpellingIsTrimmed(req.domain);
      RuleTextChars(text);
      AppendKeeps(file, ops, text);
    case Drop(text) => RemoveKeeps(file, ops, text);
    case Refuse => RefusalKeeps(file, ops);
  }

  lemma RefusalKeeps(file: Option<string>, ops: seq<Op>)
    requires Kept(file, ops)
    ensures Kept(file, ops + [Refuse])
  {
    forall t ensures Live(ops + [Refuse], t) <==> Live(ops, t) {
      LiveStep(ops, Refuse, t);
    }
  }

  /** The file once a text is on a line of its own. */
  function WithLine(file: Option<string>, text: string): Option<string> {
    match file
    case None => Some(text + "\n")
    case Some(content) => if LinesMatching(Lines(content), text) then file else Some(content + text + "\n")
  }

  lemma AppendKeeps(file: Option<string>, ops: seq<Op>, text: string)
    requires Kept(file, ops) && PlainLine(text) && text != ""
    ensures Kept(WithLine(file, text), ops + [Put(text)])
  {
    match file
    case None =>
      NewLineKeeps([], ops, text);
      assert Unlines([]) + text + "\n" == text + "\n";
    case Some(content) =>
      MatchingIsMembership(Lines(content), text);
      if LinesMatching(Lines(content), text) {
        PutStep(ops, text);
      } else {
        NewLineKeeps(Lines(content), ops, text);
      }
  }

  lemma PutStep(ops: seq<Op>, text: string)
    ensures forall t :: Live(ops + [Put(text)], t) <==> t == text || Live(ops, t)
  {
    forall t ensures Live(ops + [Put(text)], t) <==> t == text || Live(ops, t) {
      LiveStep(ops, Put(text), t);
    }
  }

  lemma NewLineKeeps(lines: seq<string>, ops: seq<Op>, text: string)
    requires GoodLines(lines, ops) && PlainLine(text) && text != "" && text !in lines
    ensures WellKept(Unlines(lines) + text + "\n", ops + [Put(text)])
  {
    PutStep(ops, text);
    UnlinesAppend(lines, text);
    GoodLinesKeepWell(lines + [text], ops + [Put(text)]);
  }

  lemma MatchingIsMembership(lines: seq<string>, text: string)
    requires forall l :: l in lines ==> PlainLine(l)
    ensures LinesMatching(lines, text) <==> text in lines
  {
    PlainLinesAreTrimmed(lines);
  }

  lemma PlainLinesAreTrimmed(lines: seq<string>)
    requires forall l :: l in lines ==> PlainLine(l)
    ensures forall l :: l in lines ==> Trim(l) == l
  {
    forall l | l in lines ensures Trim(l) == l {
      CleanTextIsTrimmed(l);
    }
  }

  lemma {:induction false} FilteredMembers(lines: seq<string>, text: string, l: string)
    requires forall l :: l in lines ==> Trim(l) == l
    ensures l in WithoutMatching(lines, text) <==> l in lines && l != text
    decreases |lines|
  {
    if lines != [] {
      var n := |lines| - 1;
      assert lines[n] in lines;
      FilteredMembers(lines[..n], text, l);
      assert lines == lines[..n] + [lines[n]];
    }
  }

  lemma LastIsNew(lines: seq<string>)
    requires NoRepeats(lines) && lines != []
    ensures var n := |lines| - 1;
            NoRepeats(lines[..n]) && (lines[n] == "" || lines[n] !in lines[..n])
  {
  }

  lemma AppendKeepsDistinct(lines: seq<string>, l: string)
    requires NoRepeats(lines) && (l == "" || l !in lines)
    ensures NoRepeats(lines + [l])
  {
    assert forall i :: 0 <= i < |lines| ==> lines[i] in lines;
  }

  lemma {:induction false} FilteredDistinct(lines: seq<string>, text: string)
    requires forall l :: l in lines ==> Trim(l) == l
    requires NoRepeats(lines)
    ensures NoRepeats(WithoutMatching(lines, text))
    decreases |lines|
  {
    if lines != [] {
      var n := |lines| - 1;
      LastIsNew(lines);
      FilteredDistinct(lines[..n], text);
      FilteredMembers(lines[..n], text, lines[n]);
      AppendKeepsDistinct(WithoutMatching(lines[..n], text), lines[n]);
    }
  }

  lemma FilteredLines(lines: seq<string>, text: string)
    requires forall l :: l in lines ==> Trim(l) == l
    requires NoRepeats(lines)
    ensures var kept := WithoutMatching(lines, text);
            && (forall l :: l in kept <==> l in lines && l != text)
            && NoRepeats(kept)
  {
    FilteredDistinct(lines, text);
    forall l ensures l in WithoutMatching(lines, text) <==> l in lines && l != text {
      FilteredMembers(lines, text, l);
    }
  }

  function WithoutLine(file: Option<string>, text: string): Option<string> {
    match file
    case None => None
    case Some(content) => Some(Join(WithoutMatching(Lines(content), text), "\n") + "\n")
  }

  lemma RemoveKeeps(file: Option<string>, ops: seq<Op>, text: string)
    requires Kept(file, ops)
    ensures Kept(WithoutLine(file, text), ops + [Drop(text)])
  {
    forall t ensures Live(ops + [Drop(text)], t) <==> t != text && Live(ops, t) {
      LiveStep(ops, Drop(text), t);
    }
    if file.Some? {
      var lines := Lines(file.value);
      PlainLinesAreTrimmed(lines);
      FilteredLines(lines, text);
      var kept := WithoutMatching(lines, text);
      JoinIsUnlines(kept);
      GoodLinesKeepWell(if kept == [] then [""] else kept, ops + [Drop(text)]);
    }
  }

  // ---- reading the file back ---------------------------------------------

  function FileEdits(file: Option<string>, allow: bool): seq<Edit> {
    match file
    case None => []
    case Some(content) => Edits(Lines(content), allow)
  }

  function AsEdit(e: Entry, allow: bool): Edit {
    if allow then Allow(e) else Block(e)
  }

  lemma RuleLinesReadBack(lines: seq<string>, allow: bool, ed: Edit)
    requires forall l :: l in lines ==> l == "" || RuleText(l)
    ensures ed in Edits(lines, allow) <==> exists t :: t in lines && ReadsAs(t, allow, ed)
  {
    EditsComeFromLines(lines, allow, ed);
    if raw :| raw in lines && ed in LineEdits(raw, allow) {
      LineReadsBack(raw, allow, ed);
    }
    if t :| t in lines && ReadsAs(t, allow, ed) {
      LineReadsBack(t, allow, ed);
    }
  }

  /** The rule spelled `t` is the edit `ed`, and `t` does not pass for a hosts prefix. */
  predicate ReadsAs(t: string, allow: bool, ed: Edit) {
    t != "" && !IsHostsPrefix(t) && ed in Add(t, allow)
  }

  lemma LineReadsBack(t: string, allow: bool, ed: Edit)
    requires t == "" || RuleText(t)
    ensures ed in LineEdits(t, allow) <==> ReadsAs(t, allow, ed)
  {
    if t == "" { BlankLineReadsNothing(allow); } else { RuleLineReadsBack(t, allow); }
  }

  /** Ingesting the file yields exactly the rules added and not later removed, spelling by spelling. */
  lemma FileReadsBackLiveRules(reqs: seq<Request>, allow: bool, ed: Edit)
    ensures ed in FileEdits(Play(reqs), allow) <==> exists t :: Live(Ops(reqs), t) && ReadsAs(t, allow, ed)
  {
    FileIsWellKept(reqs);
    match Play(reqs)
    case None =>
    case Some(content) =>
      var lines := Lines(content);
      forall l | l in lines && l != "" ensures RuleText(l) {
        var i := LiveTextIsARule(reqs, l);
      }
      RuleLinesReadBack(lines, allow, ed);
  }

  lemma LiveTextIsARule(reqs: seq<Request>, t: string) returns (i: nat)
    requires Live(Ops(reqs), t)
    ensures i < |reqs| && OpOf(reqs[i]) == Put(t) && RuleText(t)
  {
    i :| i < |reqs| && Ops(reqs)[i] == Put(t);
    SpellingIsTrimmed(reqs[i].domain);
  }

  // ---- rules instead of spellings ----------------------------------------

  predicate NamesRule(req: Request, e: Entry) {
    Normalize(Spelling(req.domain)) == Some(e)
  }

  predicate AddsRule(req: Request, e: Entry) {
    req.AddRule? && NamesRule(req, e)
  }

  predicate RemovesRule(req: Request, e: Entry) {
    req.RemoveRule? && NamesRule(req, e)
  }

  /** The rule was added and not removed since, however it was spelled. */
  ghost predicate RuleLive(reqs: seq<Request>, e: Entry) {
    exists i: nat :: i < |reqs| && AddsRule(reqs[i], e) && forall j :: i < j < |reqs| ==> !RemovesRule(reqs[j], e)
  }

  /** The request spells its rule without a trailing dot, and not as the odd hosts prefix. */
  predicate PlainlySpelled(req: Request) {
    var t := Spelling(req.domain);
    Normalize(t).Some? ==> t[|t| - 1] != '.' && !IsHostsPrefix(t)
  }

  function RuleSpelling(e: Entry): string {
    match e
    case Exact(d) => d
    case Wildcard(d) => "*." + d
  }

  lemma PlainSpellingIsUnique(t: string)
    requires RuleText(t) && t != "" && t[|t| - 1] != '.'
    ensures t == RuleSpelling(Normalize(t).value)
  {
    RuleTextChars(t);
    CleanEntry(t);
    ClassifySpells(t);
  }

  lemma ClassifySpells(t: string)
    requires Classify(t).Some?
    ensures t == RuleSpelling(Classify(t).value)
  {
    assert "*." <= t ==> t == "*." + t[2..];
  }

  /** A plainly spelled request is about a rule exactly when it is about that rule's own spelling. */
  lemma PlainRequestNames(req: Request, e: Entry)
    requires PlainlySpelled(req)
    ensures AddsRule(req, e) <==> OpOf(req) == Put(RuleSpelling(e)) && Normalize(RuleSpelling(e)) == Some(e)
    ensures RemovesRule(req, e) ==> OpOf(req) == Drop(RuleSpelling(e))
    ensures OpOf(req) == Drop(RuleSpelling(e)) && Normalize(RuleSpelling(e)) == Some(e) ==> RemovesRule(req, e)
    ensures AddsRule(req, e) ==> RuleSpelling(e) != "" && !IsHostsPrefix(RuleSpelling(e))
  {
    SpellingIsTrimmed(req.domain);
    BlankIsNoRule();
    if Normalize(Spelling(req.domain)).Some? {
      RuleTextChars(Spelling(req.domain));
      PlainSpellingIsUnique(Spelling(req.domain));
    }
  }

  lemma RuleLiveIsLive(reqs: seq<Request>, e: Entry)
    requires forall i :: 0 <= i < |reqs| ==> PlainlySpelled(reqs[i])
    ensures RuleLive(reqs, e) <==> Live(Ops(reqs), RuleSpelling(e)) && Normalize(RuleSpelling(e)) == Some(e)
  {
    var t := RuleSpelling(e);
    if RuleLive(reqs, e) {
      var i: nat :| i < |reqs| && AddsRule(reqs[i], e) && forall j :: i < j < |reqs| ==> !RemovesRule(reqs[j], e);
      PlainRequestNames(reqs[i], e);
      forall j | i < j < |reqs| ensures Ops(reqs)[j] != Drop(t) {
        PlainRequestNames(reqs[j], e);
      }
      PutAndKept(Ops(reqs), t, i);
    }
    if Live(Ops(reqs), t) && Normalize(t) == Some(e) {
      var i: nat :| i < |reqs| && Ops(reqs)[i] == Put(t) && Drop(t) !in Ops(reqs)[i..];
      PlainRequestNames(reqs[i], e);
      forall j | i < j < |reqs| ensures !RemovesRule(reqs[j], e) {
        PlainRequestNames(reqs[j], e);
        assert Ops(reqs)[j] == Ops(reqs)[i..][j - i];
      }
    }
  }

  lemma PutAndKept(ops: seq<Op>, t: string, i: nat)
    requires i < |ops| && ops[i] == Put(t) && forall j :: i < j < |ops| ==> ops[j] != Drop(t)
    ensures Live(ops, t)
  {
    assert Drop(t) !in ops[i..];
  }

  /** For plainly spelled requests, ingesting the file yields exactly the rules added and not later
      removed. */
  lemma PlainRequestsReadBack(reqs: seq<Request>, allow: bool, e: Entry)
    requires forall i :: 0 <= i < |reqs| ==> PlainlySpelled(reqs[i])
    ensures AsEdit(e, allow) in FileEdits(Play(reqs), allow) <==> RuleLive(reqs, e)
  {
    var ed := AsEdit(e, allow);
    FileReadsBackLiveRules(reqs, allow, ed);
    RuleLiveIsLive(reqs, e);
    if RuleLive(reqs, e) {
      LiveRuleReads(reqs, allow, e);
    }
    if t :| Live(Ops(reqs), t) && ReadsAs(t, allow, ed) {
      ReadingIsOwnSpelling(reqs, allow, e, t);
    }
  }

  lemma LivePlainText(reqs: seq<Request>, t: string)
    requires (forall i :: 0 <= i < |reqs| ==> PlainlySpelled(reqs[i])) && Live(Ops(reqs), t)
    ensures RuleText(t) && (t != "" ==> t == RuleSpelling(Normalize(t).value))
  {
    var i := LiveTextIsARule(reqs, t);
    if t != "" {
      PlainSpellingIsUnique(t);
    }
  }

  /** And no rule is in the file twice, under whatever spellings. */
  lemma PlainFileNamesRulesOnce(reqs: seq<Request>, i: nat, j: nat)
    requires forall k :: 0 <= k < |reqs| ==> PlainlySpelled(reqs[k])
    requires Play(reqs).Some? && i < j < |Lines(Play(reqs).value)|
    ensures var lines := Lines(Play(reqs).value);
            lines[i] != "" && lines[j] != "" ==> Normalize(lines[i]) != Normalize(lines[j])
  {
    FileIsWellKept(reqs);
    var lines := Lines(Play(reqs).value);
    if lines[i] != "" && lines[j] != "" {
      assert lines[i] in lines && lines[j] in lines;
      LivePlainText(reqs, lines[i]);
      LivePlainText(reqs, lines[j]);
    }
  }

  lemma LiveRuleReads(reqs: seq<Request>, allow: bool, e: Entry)
    requires forall i :: 0 <= i < |reqs| ==> PlainlySpelled(reqs[i])
    requires RuleLive(reqs, e)
    ensures ReadsAs(RuleSpelling(e), allow, AsEdit(e, allow))
  {
    var i: nat :| i < |reqs| && AddsRule(reqs[i], e);
    PlainRequestNames(reqs[i], e);
    OwnSpellingReads(RuleSpelling(e), allow, e);
  }

  lemma ReadingIsOwnSpelling(reqs: seq<Request>, allow: bool, e: Entry, t: string)
    requires forall i :: 0 <= i < |reqs| ==> PlainlySpelled(reqs[i])
    requires Live(Ops(reqs), t) && ReadsAs(t, allow, AsEdit(e, allow))
    ensures t == RuleSpelling(e) && Normalize(RuleSpelling(e)) == Some(e)
  {
    var i := LiveTextIsARule(reqs, t);
    OwnSpellingReads(t, allow, e);
    PlainSpellingIsUnique(t);
  }

  lemma OwnSpellingReads(t: string, allow: bool, e: Entry)
    ensures ReadsAs(t, allow, AsEdit(e, allow)) <==> t != "" && !IsHostsPrefix(t) && Normalize(t) == Some(e)
  {
  }

  // ---- the two spellings that go wrong -----------------------------------

  /** An accepted add takes effect exactly when the spelling does not pass for a hosts prefix. */
  lemma AddTakesEffectIff(reqs: seq<Request>, domain: string, allow: bool, ed: Edit)
    requires ed in Add(Spelling(domain), allow) && ed !in FileEdits(Play(reqs), allow)
    ensures ed in FileEdits(Play(reqs + [AddRule(domain)]), allow) <==> !IsHostsPrefix(Spelling(domain))
  {
    var all, text := reqs + [AddRule(domain)], Spelling(domain);
    assert all[..|all| - 1] == reqs;
    OpsStep(reqs, AddRule(domain));
    FileReadsBackLiveRules(all, allow, ed);
    FileReadsBackLiveRules(reqs, allow, ed);
    BlankIsNoRule();
    PutStep(Ops(reqs), text);
    if IsHostsPrefix(text) {
      assert !ReadsAs(text, allow, ed);
    } else {
      assert ReadsAs(text, allow, ed);
    }
  }

  /** One accepted spelling does pass for a hosts prefix, so adding it is confirmed and has no effect. */
  lemma OddPrefixIsLost(d: string, allow: bool, ed: Edit)
    requires d == "0.0.0.0.0"
    ensures Spelling(d) == d && Normalize(d) == Some(Exact(d))
    ensures ed !in FileEdits(Play([AddRule(d)]), allow)
  {
    OddPrefixIsCanonical(d);
    CanonicalSpelling(d);
    LoneAdd(d);
    FileReadsBackLiveRules([AddRule(d)], allow, ed);
    assert !ReadsAs(d, allow, ed);
  }

  lemma LoneAdd(d: string)
    requires Spelling(d) == d && Normalize(d).Some?
    ensures forall t :: Live(Ops([AddRule(d)]), t) <==> t == d
  {
    assert [] + [AddRule(d)] == [AddRule(d)];
    OpsStep([], AddRule(d));
    PutStep([], d);
  }

  predicate ZeroLabels(labels: seq<string>, zero: string) {
    forall l :: l in labels ==> l == zero
  }

  lemma OneMoreZero(d: string, zero: string, rest: string)
    requires zero == "0" && d == zero + ['.'] + rest && ZeroLabels(Split(rest, '.'), zero)
    ensures ZeroLabels(Split(d, '.'), zero) && |Split(d, '.')| == |Split(rest, '.')| + 1
  {
    SplitFirst(zero, rest, '.');
  }

  lemma LoneZero(zero: string)
    requires zero == "0"
    ensures Split(zero, '.') == [zero]
  {
  }

  lemma OddPrefixLabels(d: string, zero: string)
    requires d == "0.0.0.0.0" && zero == "0"
    ensures ZeroLabels(Split(d, '.'), zero) && |Split(d, '.')| == 5
  {
    LoneZero(zero);
    OneMoreZero(d[6..], zero, zero);
    OneMoreZero(d[4..], zero, d[6..]);
    OneMoreZero(d[2..], zero, d[4..]);
    OneMoreZero(d, zero, d[2..]);
  }

  lemma ZeroIsLabel(zero: string)
    requires zero == "0"
    ensures ValidLabel(zero)
  {
  }

  lemma OddPrefixIsCanonical(d: string)
    requires d == "0.0.0.0.0"
    ensures Canonical(d)
  {
    var zero := d[..1];
    OddPrefixLabels(d, zero);
    ZeroIsLabel(zero);
    assert d[1] == '.' && |d| == 9;
    assert Lower(d) == d;
  }

  /** A removal takes effect exactly when no other line of the file spells the same rule. */
  lemma RemoveTakesEffectIff(reqs: seq<Request>, domain: string, allow: bool, ed: Edit)
    requires ed in Add(Spelling(domain), allow)
    ensures ed !in FileEdits(Play(reqs + [RemoveRule(domain)]), allow)
       <==> forall l :: l in FileLines(Play(reqs)) && ReadsAs(l, allow, ed) ==> l == Spelling(domain)
  {
    var all, text := reqs + [RemoveRule(domain)], Spelling(domain);
    assert all[..|all| - 1] == reqs;
    OpsStep(reqs, RemoveRule(domain));
    FileReadsBackLiveRules(all, allow, ed);
    FileIsWellKept(reqs);
    forall t ensures Live(Ops(all), t) <==> Live(Ops(reqs), t) && t != text {
      LiveStep(Ops(reqs), Drop(text), t);
    }
  }

  function FileLines(file: Option<string>): seq<string> {
    match file
    case None => []
    case Some(content) => Lines(content)
  }

  lemma BlankIsNoRule()
    ensures Normalize("") == None
  {
    assert !("*." <= "");
  }

  lemma OpsOfTwo(a: Request, b: Request)
    ensures Ops([a, b]) == [OpOf(a), OpOf(b)]
  {
    assert [] + [a] == [a] && [a] + [b] == [a, b];
    OpsStep([], a);
    OpsStep([a], b);
  }

  lemma PutSurvivesOtherDrop(text: string, other: string)
    requires text != other
    ensures Live([Put(text), Drop(other)], text)
  {
    var ops := [Put(text), Drop(other)];
    assert ops[0..] == ops;
  }

  lemma DottedTextStaysLive(d: string, dotted: string)
    requires dotted != d && Spelling(dotted) == dotted && Spelling(d) == d
    requires Normalize(dotted).Some? && Normalize(d).Some?
    ensures Live(Ops([AddRule(dotted), RemoveRule(d)]), dotted)
  {
    OpsOfTwo(AddRule(dotted), RemoveRule(d));
    PutSurvivesOtherDrop(dotted, d);
  }

  /** Added with a trailing dot and removed without it, a rule stays: the file then blocks a domain that
      was added and later removed. */
  lemma DottedAddSurvivesRemoval(d: string)
    requires Canonical(d)
    ensures Block(Exact(d)) in FileEdits(Play([AddRule(d + "."), RemoveRule(d)]), false)
    ensures !RuleLive([AddRule(d + "."), RemoveRule(d)], Exact(d))
  {
    var dotted := d + ".";
    var reqs := [AddRule(dotted), RemoveRule(d)];
    DottedSpelling(d);
    CanonicalSpelling(d);
    DottedIsNoHostsPrefix(d);
    DottedTextStaysLive(d, dotted);
    OwnSpellingReads(dotted, false, Exact(d));
    FileReadsBackLiveRules(reqs, false, Block(Exact(d)));
    assert RemovesRule(reqs[1], Exact(d)) && !AddsRule(reqs[1], Exact(d));
  }

  lemma DottedIsNoHostsPrefix(d: string)
    ensures !IsHostsPrefix(d + ".")
  {
    assert (d + ".")[|d|] == '.';
  }

  lemma CanonicalSpelling(d: string)
    requires Canonical(d)
    ensures Spelling(d) == d && Normalize(d) == Some(Exact(d))
  {
    ValidDomainChars(d);
    CleanTextIsTrimmed(d);
    CanonicalIsFixed(d);
  }

  lemma DottedSpelling(d: string)
    requires Canonical(d)
    ensures Spelling(d + ".") == d + "." && Normalize(d + ".") == Some(Exact(d))
  {
    var dotted := d + ".";
    ValidDomainChars(d);
    assert NoSpaces(dotted);
    CleanTextIsTrimmed(dotted);
    assert Lower(dotted) == Lower(d) + ".";
    assert dotted[..|dotted| - 1] == d;
    assert TrimEndDots(dotted) == TrimEndDots(d) == d;
    CanonicalIsFixed(d);
    CleanEntry(d);
  }
}
