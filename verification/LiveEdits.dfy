/** Edits to a manual list while it is live. An edit changes the file, then a build reads the file, then the
    build is swapped in, and nothing keeps the builds of several edits in order. */
module LiveEdits {
  import opened Wrappers
  import opened ListRules
  import opened Blocklists
  import opened BlocklistMeaning
  import opened ManualRuns

  /** An edit of the file, a build reading the file, or that build becoming the live list. The build of an
      edit, or of a refresh, may have any number. */
  datatype Step = Edit(req: Request) | Read(build: nat) | Swap(build: nat)

  function Edited(steps: seq<Step>): seq<Request> {
    if steps == [] then []
    else
      var before, last := Edited(steps[..|steps| - 1]), steps[|steps| - 1];
      if last.Edit? then before + [last.req] else before
  }

  /** How many edits the file held when the build last read it. */
  function SeenBy(steps: seq<Step>, build: nat): (seen: Option<nat>)
    ensures seen.Some? ==> seen.value <= |Edited(steps)|
  {
    if steps == [] then None
    else
      var before := steps[..|steps| - 1];
      if steps[|steps| - 1] == Read(build) then Some(|Edited(before)|) else SeenBy(before, build)
  }

  /** How many edits the live list was built after. */
  function LiveTo(steps: seq<Step>): (n: nat)
    ensures n <= |Edited(steps)|
  {
    if steps == [] then 0
    else
      var before, last := steps[..|steps| - 1], steps[|steps| - 1];
      if last.Swap? && SeenBy(before, last.build).Some? then SeenBy(before, last.build).value else LiveTo(before)
  }

  /** The edits that the live list reflects. */
  function LiveEdited(steps: seq<Step>): seq<Request> {
    Edited(steps)[..LiveTo(steps)]
  }

  /** What a build reads: a manual list among the others, unless it has no file. */
  function Sources(before: seq<List>, reqs: seq<Request>, name: string, allow: bool, after: seq<List>): seq<List> {
    before + (match Play(reqs) case None => [] case Some(contents) => [List(contents, name, allow)]) + after
  }

  predicate AllPlain(reqs: seq<Request>) {
    forall i :: 0 <= i < |reqs| ==> PlainlySpelled(reqs[i])
  }

  // ---- which rules are live ----------------------------------------------

  /** A build has the other lists' rules, and of the manual list's those standing when it was read. */
  lemma BuildHasStandingRules(before: seq<List>, reqs: seq<Request>, name: string, allow: bool, after: seq<List>,
                              ms: seq<Matcher>, e: Entry)
    requires AllPlain(reqs) && Build(Sources(before, reqs, name, allow, after), ms)
    ensures HasRule(Built(ms), AsEdit(e, allow))
       <==> Contributes(before + after, AsEdit(e, allow)) || RuleLive(reqs, e)
  {
    var ed, lists := AsEdit(e, allow), Sources(before, reqs, name, allow, after);
    BuiltHasContributedRules(lists, ms, ed);
    PlainRequestsReadBack(reqs, allow, e);
    SourcesContribute(before, reqs, name, allow, after, ed);
  }

  lemma SourcesContribute(before: seq<List>, reqs: seq<Request>, name: string, allow: bool, after: seq<List>,
                          ed: ListRules.Edit)
    ensures Contributes(Sources(before, reqs, name, allow, after), ed)
       <==> Contributes(before + after, ed) || ed in FileEdits(Play(reqs), allow)
  {
    var lists := Sources(before, reqs, name, allow, after);
    assert forall l :: l in before + after ==> l in lists;
    if Play(reqs).Some? {
      var own := List(Play(reqs).value, name, allow);
      assert own in lists && forall l :: l in lists ==> l == own || l in before + after;
      assert Gives(own, ed) <==> ed in FileEdits(Play(reqs), allow);
    } else {
      assert lists == before + after;
    }
  }

  /** Edit number `k` adds a rule that no earlier edit adds, and that none removes later. */
  predicate NewlyAdds(reqs: seq<Request>, k: nat, e: Entry) {
    && k < |reqs| && AddsRule(reqs[k], e)
    && (forall j :: 0 <= j < k ==> !AddsRule(reqs[j], e))
    && (forall j :: k < j < |reqs| ==> !RemovesRule(reqs[j], e))
  }

  lemma NewRuleStandsIff(reqs: seq<Request>, n: nat, k: nat, e: Entry)
    requires n <= |reqs| && NewlyAdds(reqs, k, e)
    ensures RuleLive(reqs[..n], e) <==> k < n
  {
    if k < n {
      assert AddsRule(reqs[..n][k], e);
    }
  }

  /** A confirmed add of a new rule is in the live list exactly when the build swapped in last read the file
      after the edit. */
  lemma EditIsLiveIff(steps: seq<Step>, before: seq<List>, name: string, allow: bool, after: seq<List>,
                      ms: seq<Matcher>, k: nat, e: Entry)
    requires AllPlain(Edited(steps)) && Build(Sources(before, LiveEdited(steps), name, allow, after), ms)
    requires NewlyAdds(Edited(steps), k, e) && !Contributes(before + after, AsEdit(e, allow))
    ensures HasRule(Built(ms), AsEdit(e, allow)) <==> k < LiveTo(steps)
  {
    BuildHasStandingRules(before, LiveEdited(steps), name, allow, after, ms, e);
    NewRuleStandsIff(Edited(steps), LiveTo(steps), k, e);
  }

  // ---- when nothing is missing -------------------------------------------

  predicate IsLastSwap(steps: seq<Step>, i: nat) {
    i < |steps| && steps[i].Swap? && forall j :: i < j < |steps| ==> !steps[j].Swap?
  }

  /** The build swapped in at `i` last read the file at `j`. */
  predicate ReadFor(steps: seq<Step>, i: nat, j: nat) {
    && j < i < |steps| && steps[i].Swap? && steps[j] == Read(steps[i].build)
    && forall x :: j < x < i ==> steps[x] != Read(steps[i].build)
  }

  predicate NoEditFrom(steps: seq<Step>, j: nat) {
    forall x :: j <= x < |steps| ==> !steps[x].Edit?
  }

  /** The build swapped in last read the file after the last edit. */
  ghost predicate LastSwapIsFresh(steps: seq<Step>) {
    exists i: nat, j: nat :: IsLastSwap(steps, i) && ReadFor(steps, i, j) && NoEditFrom(steps, j)
  }

  /** No build is swapped in that has not read the file. */
  ghost predicate SwapsFollowReads(steps: seq<Step>) {
    forall i: nat :: i < |steps| && steps[i].Swap? ==> exists j: nat :: ReadFor(steps, i, j)
  }

  lemma {:induction false} EditsAfter(steps: seq<Step>, j: nat)
    requires j <= |steps|
    ensures |Edited(steps[..j])| <= |Edited(steps)|
    ensures |Edited(steps[..j])| == |Edited(steps)| <==> NoEditFrom(steps, j)
    decreases |steps|
  {
    if j == |steps| {
      assert steps[..j] == steps;
    } else {
      var before := steps[..|steps| - 1];
      assert before[..j] == steps[..j];
      EditsAfter(before, j);
    }
  }

  lemma {:induction false} SeenAtRead(steps: seq<Step>, build: nat, j: nat)
    requires j < |steps| && steps[j] == Read(build) && forall x :: j < x < |steps| ==> steps[x] != Read(build)
    ensures SeenBy(steps, build) == Some(|Edited(steps[..j])|)
    decreases |steps|
  {
    if j < |steps| - 1 {
      var before := steps[..|steps| - 1];
      assert before[..j] == steps[..j];
      SeenAtRead(before, build, j);
    }
  }

  lemma {:induction false} LiveSinceSwap(steps: seq<Step>, i: nat, j: nat)
    requires IsLastSwap(steps, i) && ReadFor(steps, i, j)
    ensures LiveTo(steps) == |Edited(steps[..j])|
    decreases |steps|
  {
    var before := steps[..|steps| - 1];
    assert before[..j] == steps[..j];
    if i == |steps| - 1 {
      SeenAtRead(before, steps[i].build, j);
    } else {
      LiveSinceSwap(before, i, j);
    }
  }

  lemma {:induction false} LastSwapExists(steps: seq<Step>)
    ensures || (exists i: nat :: IsLastSwap(steps, i))
            || (LiveTo(steps) == 0 && forall i :: 0 <= i < |steps| ==> !steps[i].Swap?)
    decreases |steps|
  {
    if steps != [] && !steps[|steps| - 1].Swap? {
      var before := steps[..|steps| - 1];
      LastSwapExists(before);
      if i: nat :| IsLastSwap(before, i) {
        assert IsLastSwap(steps, i);
      }
    } else if steps != [] {
      assert IsLastSwap(steps, |steps| - 1);
    }
  }

  /** The live list reflects every edit exactly when there are none, or the last swap's build read the file
      after the last of them. */
  lemma NothingMissingIff(steps: seq<Step>)
    requires SwapsFollowReads(steps)
    ensures LiveEdited(steps) == Edited(steps) <==> Edited(steps) == [] || LastSwapIsFresh(steps)
  {
    if LastSwapIsFresh(steps) {
      var i: nat, j: nat :| IsLastSwap(steps, i) && ReadFor(steps, i, j) && NoEditFrom(steps, j);
      LiveSinceSwap(steps, i, j);
      EditsAfter(steps, j);
    }
    if LiveTo(steps) == |Edited(steps)| && Edited(steps) != [] {
      LastSwapExists(steps);
      var i: nat :| IsLastSwap(steps, i);
      var j: nat :| ReadFor(steps, i, j);
      LiveSinceSwap(steps, i, j);
      EditsAfter(steps, j);
    }
  }

  /** Every edit adds a rule of its own, in none of the other lists. */
  ghost predicate AddsNewRules(reqs: seq<Request>, rules: seq<Entry>, others: seq<List>, allow: bool) {
    && |rules| == |reqs|
    && forall k: nat :: k < |rules| ==> NewlyAdds(reqs, k, rules[k]) && !Contributes(others, AsEdit(rules[k], allow))
  }

  /** When each edit adds a new rule, the live list has all of them exactly when the last swap's build read the
      file after the last edit. */
  lemma EveryEditIsLiveIff(steps: seq<Step>, before: seq<List>, name: string, allow: bool, after: seq<List>,
                           ms: seq<Matcher>, rules: seq<Entry>)
    requires SwapsFollowReads(steps) && AllPlain(Edited(steps)) && Edited(steps) != []
    requires Build(Sources(before, LiveEdited(steps), name, allow, after), ms)
    requires AddsNewRules(Edited(steps), rules, before + after, allow)
    ensures (forall e :: e in rules ==> HasRule(Built(ms), AsEdit(e, allow))) <==> LastSwapIsFresh(steps)
  {
    NothingMissingIff(steps);
    var n := LiveTo(steps);
    forall k: nat | k < |rules| ensures HasRule(Built(ms), AsEdit(rules[k], allow)) <==> k < n {
      EditIsLiveIff(steps, before, name, allow, after, ms, k, rules[k]);
    }
    assert rules[|rules| - 1] in rules;
  }

  // ---- in order, and out of order ----------------------------------------

  /** Builds are swapped in in the order in which they read the file. */
  ghost predicate SwapsInOrder(steps: seq<Step>) {
    forall i: nat, j: nat, x: nat, y: nat :: ReadFor(steps, i, x) && ReadFor(steps, j, y) && i < j ==> x <= y
  }

  /** It is enough that builds are swapped in in order: once a build that read the file after the last edit has
      been, nothing is missing. */
  lemma InOrderSuffices(steps: seq<Step>, i: nat, j: nat)
    requires SwapsFollowReads(steps) && SwapsInOrder(steps)
    requires ReadFor(steps, i, j) && NoEditFrom(steps, j)
    ensures LastSwapIsFresh(steps) && LiveEdited(steps) == Edited(steps)
  {
    LastSwapExists(steps);
    var last: nat :| IsLastSwap(steps, last);
    var y: nat :| ReadFor(steps, last, y);
    assert i <= last;
    assert j <= y by { if i == last { SameRead(steps, i, j, y); } }
    NothingMissingIff(steps);
  }

  lemma SameRead(steps: seq<Step>, i: nat, j: nat, y: nat)
    requires ReadFor(steps, i, j) && ReadFor(steps, i, y)
    ensures j == y
  {
  }

  /** Two edits, each with its own build read after it, and the builds swapped in the other way round. */
  function Race(a: Request, b: Request): seq<Step> {
    [Edit(a), Read(1), Edit(b), Read(2), Swap(2), Swap(1)]
  }

  lemma EditedOneMore(steps: seq<Step>, all: seq<Step>)
    requires |all| == |steps| + 1 && all[..|steps|] == steps
    ensures Edited(all) == Edited(steps) + (if all[|steps|].Edit? then [all[|steps|].req] else [])
  {
    assert Edited(steps) + [] == Edited(steps);
  }

  lemma {:induction false} EditedWithin(steps: seq<Step>, n: nat)
    requires n <= |steps| && NoEditFrom(steps, n)
    ensures Edited(steps) == Edited(steps[..n])
    decreases |steps|
  {
    if n < |steps| {
      var before := steps[..|steps| - 1];
      assert before[..n] == steps[..n];
      EditedWithin(before, n);
    } else {
      assert steps[..n] == steps;
    }
  }

  lemma RaceEdits(a: Request, b: Request)
    ensures Edited(Race(a, b)) == [a, b] && Edited(Race(a, b)[..1]) == [a]
  {
    var steps := Race(a, b);
    EditedWithin(steps, 3);
    EditedOneMore(steps[..2], steps[..3]);
    EditedOneMore(steps[..1], steps[..2]);
    EditedOneMore([], steps[..1]);
  }

  lemma RaceReads(a: Request, b: Request)
    ensures var steps := Race(a, b);
            SwapsFollowReads(steps) && LiveTo(steps) == 1
  {
    var steps := Race(a, b);
    assert ReadFor(steps, 5, 1) && ReadFor(steps, 4, 3);
    LiveSinceSwap(steps, 5, 1);
    RaceEdits(a, b);
  }

  lemma NewRules(a: string, b: string)
    requires Canonical(a) && Canonical(b) && a != b
    ensures NewlyAdds([AddRule(a), AddRule(b)], 1, Exact(b))
  {
    CanonicalSpelling(a);
    CanonicalSpelling(b);
  }

  /** Two adds of different new rules, both confirmed, after which the second is missing: its own build is in
      place only until the first one's, which read the file before it. */
  lemma ConfirmedEditIsLost(a: string, b: string, before: seq<List>, name: string, allow: bool, after: seq<List>,
                            ms: seq<Matcher>)
    requires Canonical(a) && Canonical(b) && a != b && AllPlain([AddRule(a), AddRule(b)])
    requires !Contributes(before + after, AsEdit(Exact(b), allow))
    requires Build(Sources(before, LiveEdited(Race(AddRule(a), AddRule(b))), name, allow, after), ms)
    ensures !HasRule(Built(ms), AsEdit(Exact(b), allow))
    ensures RuleLive(Edited(Race(AddRule(a), AddRule(b))), Exact(b))
  {
    var steps := Race(AddRule(a), AddRule(b));
    RaceEdits(AddRule(a), AddRule(b));
    RaceReads(AddRule(a), AddRule(b));
    NewRules(a, b);
    EditIsLiveIff(steps, before, name, allow, after, ms, 1, Exact(b));
    NewRuleStandsIff(Edited(steps), 2, 1, Exact(b));
    assert Edited(steps)[..2] == Edited(steps);
  }
}
