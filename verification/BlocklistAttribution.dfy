/** Which list a blocked name is put down to, in terms of the lists a build was made from. */
module BlocklistAttribution {
  import opened Wrappers
  import opened ListRules
  import opened Blocklists
  import opened BlocklistMeaning
  import opened BlocklistAccounts
  import Text

  /** List `i` is the first of all to give the rule. */
  predicate FirstToGive(lists: seq<List>, i: nat, e: Entry) {
    && i < |lists| && Gives(lists[i], Block(e))
    && forall j :: 0 <= j < i ==> !Gives(lists[j], Block(e))
  }

  lemma PrefixBuild(lists: seq<List>, ms: seq<Matcher>, i: nat)
    requires Build(lists, ms) && i <= |lists|
    ensures Build(lists[..i], ms[..i + 1]) && Built(ms[..i + 1]) == ms[i]
  {
    var past, states := lists[..i], ms[..i + 1];
    forall j | 0 <= j < i ensures IngestedAt(past, states, j) {
      assert IngestedAt(lists, ms, j);
    }
  }

  lemma SourcesStep(m: Matcher, l: List, m': Matcher)
    requires Ingested(m, l, m')
    ensures |m'.sources| <= |m.sources| + 1
  {
    var eds := Edits(Text.Lines(l.contents), l.allow);
    if l.allow {
      AllowListsOnlyAllow(Text.Lines(l.contents));
      AllowEditsKeepBlocks(m, eds, 0);
    } else {
      var id: SourceId, table :| Interned(m.sources, l.name, id, table) && m' == Booked(m.(sources := table), eds, id);
      EditsKeepSources(m.(sources := table), eds, id);
    }
  }

  lemma {:induction false} EditsKeepSources(m: Matcher, eds: seq<Edit>, source: SourceId)
    ensures ApplyEdits(m, eds, source).sources == m.sources
    decreases |eds|
  {
    if eds != [] {
      EditsKeepSources(m, eds[..|eds| - 1], source);
    }
  }

  lemma {:induction false} SourcesUpTo(lists: seq<List>, ms: seq<Matcher>, n: nat)
    requires Build(lists, ms) && n <= |lists|
    ensures |ms[n].sources| <= n
  {
    if n > 0 {
      SourcesUpTo(lists, ms, n - 1);
      assert IngestedAt(lists, ms, n - 1);
      SourcesStep(ms[n - 1], lists[n - 1], ms[n]);
    }
  }

  lemma NewClaimIsNamed(m: Matcher, l: List, m': Matcher, e: Entry)
    requires Ingested(m, l, m') && !l.allow && |m.sources| < MAX_SOURCES
    requires ClaimedBy(m, e).None? && HasRule(m', Block(e))
    ensures ClaimedBy(m', e) == Some(l.name)
  {
    var eds := Edits(Text.Lines(l.contents), l.allow);
    var id: SourceId, table: seq<SourceStat>
      :| Interned(m.sources, l.name, id, table) && m' == Booked(m.(sources := table), eds, id);
    assert id < |table| && table[id].name == l.name;
    EditsUseTheirSource(m.(sources := table), eds, id);
    EditsKeepSources(m.(sources := table), eds, id);
  }

  lemma NoneGaveIt(lists: seq<List>, i: nat, e: Entry)
    requires FirstToGive(lists, i, e)
    ensures !Contributes(lists[..i], Block(e)) && Contributes(lists[..i + 1], Block(e))
  {
    forall l | l in lists[..i] ensures !Gives(l, Block(e)) {
      var j :| 0 <= j < i && lists[j] == l;
    }
    assert lists[..i + 1][i] == lists[i];
  }

  /** Once the table is full, whatever a new list is the first to give is put down to the last list in it. */
  lemma OverflowIsNamedLast(m: Matcher, l: List, m': Matcher, e: Entry)
    requires Ingested(m, l, m') && !l.allow && |m.sources| == 65535
    requires forall i :: 0 <= i < 65535 ==> m.sources[i].name != l.name
    requires ClaimedBy(m, e).None? && HasRule(m', Block(e))
    ensures ClaimedBy(m', e) == Some(m.sources[65534].name)
  {
    var eds := Edits(Text.Lines(l.contents), l.allow);
    var id: SourceId, table: seq<SourceStat>
      :| Interned(m.sources, l.name, id, table) && m' == Booked(m.(sources := table), eds, id);
    EditsUseTheirSource(m.(sources := table), eds, id);
    EditsKeepSources(m.(sources := table), eds, id);
  }

  lemma NewAtFirst(lists: seq<List>, ms: seq<Matcher>, i: nat, e: Entry)
    requires Build(lists, ms) && FirstToGive(lists, i, e)
    ensures !HasRule(ms[i], Block(e)) && HasRule(ms[i + 1], Block(e))
  {
    PrefixBuild(lists, ms, i);
    PrefixBuild(lists, ms, i + 1);
    NoneGaveIt(lists, i, e);
    BuiltHasContributedRules(lists[..i], ms[..i + 1], Block(e));
    BuiltHasContributedRules(lists[..i + 1], ms[..i + 2], Block(e));
  }

  lemma ClaimedIff(m: Matcher, e: Entry)
    ensures ClaimedBy(m, e).Some? <==> HasRule(m, Block(e))
  {
  }

  lemma BlocksAreGivenByBlockLists(l: List, e: Entry)
    requires Gives(l, Block(e))
    ensures !l.allow
  {
    if l.allow {
      AllowListsOnlyAllow(Text.Lines(l.contents));
    }
  }

  /** A rule is put down to the first list that gives it, as long as the table of lists is not full. */
  lemma FirstListIsNamed(lists: seq<List>, ms: seq<Matcher>, i: nat, e: Entry)
    requires Build(lists, ms) && |lists| <= MAX_SOURCES && FirstToGive(lists, i, e)
    ensures ClaimedBy(Built(ms), e) == Some(lists[i].name)
  {
    NewAtFirst(lists, ms, i, e);
    ClaimedIff(ms[i], e);
    BlocksAreGivenByBlockLists(lists[i], e);
    SourcesUpTo(lists, ms, i);
    assert IngestedAt(lists, ms, i);
    NewClaimIsNamed(ms[i], lists[i], ms[i + 1], e);
    FirstClaimKeepsAttribution(lists, ms, i + 1, e);
  }

  /** The rule that decides for a name: the one for just that name, if a list gives it, otherwise the wildcard
      of the longest suffix for which a list gives one. */
  ghost predicate Decides(lists: seq<List>, x: string, e: Entry) {
    && Contributes(lists, Block(e))
    && if e.Exact? then e.domain == x
       else
         && !Contributes(lists, Block(Exact(x))) && LabelSuffix(x, e.domain)
         && forall s :: LabelSuffix(x, s) && Contributes(lists, Block(Wildcard(s))) ==> |s| <= |e.domain|
  }

  /** A blocked name is put down to the first list that gives the rule that decides for it. */
  lemma BlockedNameIsPutDownTo(lists: seq<List>, ms: seq<Matcher>, x: string, e: Entry, i: nat)
    requires Build(lists, ms) && |lists| <= MAX_SOURCES
    requires Blocked(Built(ms), x) && Decides(lists, x, e) && FirstToGive(lists, i, e)
    ensures BlockedBy(Built(ms), x) == Some(lists[i].name)
  {
    var m := Built(ms);
    FirstListIsNamed(lists, ms, i, e);
    BuiltHasContributedRules(lists, ms, Block(e));
    if e.Wildcard? {
      BuiltHasContributedRules(lists, ms, Block(Exact(x)));
      forall s | s in m.wildcards && LabelSuffix(x, s) ensures |s| <= |e.domain| {
        assert HasRule(m, Block(Wildcard(s)));
        BuiltHasContributedRules(lists, ms, Block(Wildcard(s)));
      }
      assert !HasRule(m, Block(Exact(x)));
      AttributionIsLongest(m, x, e.domain);
    }
  }
}
