/** What the matcher means: label suffixes, subtrees, order of lists, and attribution accounts. */
module BlocklistMeaning {
  import opened Wrappers
  import opened Text
  import opened ListRules
  import opened Blocklists

  // ---- the walk over the string is a walk over label suffixes -------------

  /** `s` is what the walk inspects at some position of the name. */
  ghost predicate Inspected(d: string, s: string) {
    exists p: nat :: LabelStart(d, p) && d[p..] == s
  }

  /** `s` is the name without some of its leading labels; only the name itself may be empty. */
  ghost predicate LabelSuffix(d: string, s: string) {
    TailOf(Split(d, '.'), s)
  }

  ghost predicate TailOf(labels: seq<string>, s: string) {
    exists k: nat :: k < |labels| && Join(labels[k..], ".") == s && (k == 0 || s != "")
  }

  lemma {:induction false} JoinSplit(d: string)
    ensures Join(Split(d, '.'), ".") == d
    decreases |d|
  {
    var i := IndexOf(d, {'.'});
    if i < |d| {
      var rest := Split(d[i + 1..], '.');
      JoinSplit(d[i + 1..]);
      assert Split(d, '.') == [d[..i]] + rest;
      JoinCons(d[..i], rest);
      assert d == d[..i] + "." + d[i + 1..];
    }
  }

  lemma JoinCons(head: string, tail: seq<string>)
    requires |tail| >= 1
    ensures Join([head] + tail, ".") == head + "." + Join(tail, ".")
  {
    assert ([head] + tail)[1..] == tail;
  }

  lemma {:induction false} WalkIsLabelSuffixes(d: string, s: string)
    ensures Inspected(d, s) <==> LabelSuffix(d, s)
    decreases |d|
  {
    JoinSplit(d);
    var labels := Split(d, '.');
    assert labels[0..] == labels && d[0..] == d;
    if s == d {
      assert LabelStart(d, 0);
    } else {
      var i := IndexOf(d, {'.'});
      if i < |d| {
        var rest := d[i + 1..];
        var tail := Split(rest, '.');
        assert labels == [d[..i]] + tail;
        WalkIsLabelSuffixes(rest, s);
        InspectedBelow(d, i, s);
        SuffixBelow(d, i, s);
      } else {
        NoStartsBefore(d, 0, |d|);
      }
    }
  }

  lemma InspectedBelow(d: string, i: nat, s: string)
    requires i < |d| && i == IndexOf(d, {'.'}) && s != d
    ensures Inspected(d, s) <==> d[i + 1..] != "" && Inspected(d[i + 1..], s)
  {
    var rest := d[i + 1..];
    if Inspected(d, s) {
      var p: nat :| LabelStart(d, p) && d[p..] == s;
      assert d[0..] == d;
      assert d[p - 1] == '.';
      LabelStartBelow(d, i, p - i - 1);
      assert rest[p - i - 1..] == s;
    }
    if rest != "" && Inspected(rest, s) {
      var p: nat :| LabelStart(rest, p) && rest[p..] == s;
      LabelStartBelow(d, i, p);
      assert d[p + i + 1..] == s;
    }
  }

  lemma LabelStartBelow(d: string, i: nat, p: nat)
    requires i + 1 < |d| && d[i] == '.'
    ensures LabelStart(d, p + i + 1) <==> LabelStart(d[i + 1..], p)
  {
    assert 0 < p <= |d[i + 1..]| ==> d[i + 1..][p - 1] == d[p + i];
  }

  lemma TailBelow(head: string, tail: seq<string>, s: string)
    requires tail != [] && s != Join([head] + tail, ".")
    ensures TailOf([head] + tail, s) <==> TailOf(tail, s) && s != ""
  {
    var labels := [head] + tail;
    if TailOf(labels, s) {
      var k: nat :| k < |labels| && Join(labels[k..], ".") == s && (k == 0 || s != "");
      assert labels[0..] == labels;
      assert tail[k - 1..] == labels[k..];
    }
    if TailOf(tail, s) && s != "" {
      var k: nat :| k < |tail| && Join(tail[k..], ".") == s && (k == 0 || s != "");
      assert labels[k + 1..] == tail[k..];
    }
  }

  lemma EmptyTail(labels: seq<string>, s: string)
    requires labels != [] && TailOf(labels, s)
    ensures s == "" ==> Join(labels, ".") == ""
    ensures labels == [""] ==> s == ""
  {
    var k: nat :| k < |labels| && Join(labels[k..], ".") == s && (k == 0 || s != "");
    assert labels[0..] == labels;
  }

  lemma SuffixBelow(d: string, i: nat, s: string)
    requires i < |d| && i == IndexOf(d, {'.'}) && s != d
    ensures LabelSuffix(d, s) <==> d[i + 1..] != "" && LabelSuffix(d[i + 1..], s)
  {
    var rest := d[i + 1..];
    var tail := Split(rest, '.');
    JoinSplit(d);
    JoinSplit(rest);
    TailBelow(d[..i], tail, s);
    if TailOf(tail, s) {
      EmptyTail(tail, s);
    }
  }

  /** A name is blocked iff no allow rule covers it and it is an exact entry or one of its label
      suffixes, itself included, is a wildcard. */
  lemma BlockedByLabelSuffix(m: Matcher, d: string)
    ensures BlockedBy(m, d).Some?
       <==> && d !in m.allow && (forall s :: s in m.allowWildcards ==> !LabelSuffix(d, s))
            && (d in m.exact || exists s :: s in m.wildcards && LabelSuffix(d, s))
  {
    CoversByLabelSuffix(m.allowWildcards, d);
    CoversByLabelSuffix(m.wildcards.Keys, d);
    assert forall s :: s in m.wildcards <==> s in m.wildcards.Keys;
  }

  lemma CoversByLabelSuffix(keys: set<string>, d: string)
    ensures Covers(keys, d) <==> exists s :: s in keys && LabelSuffix(d, s)
  {
    if Covers(keys, d) {
      var p: nat :| LabelStart(d, p) && d[p..] in keys;
      WalkIsLabelSuffixes(d, d[p..]);
    }
    if s :| s in keys && LabelSuffix(d, s) {
      WalkIsLabelSuffixes(d, s);
      var p: nat :| LabelStart(d, p) && d[p..] == s;
    }
  }

  /** The attribution is the exact entry's list, otherwise that of the longest matching suffix. */
  lemma AttributionIsLongest(m: Matcher, d: string, s: string)
    requires Blocked(m, d) && d !in m.exact
    requires s in m.wildcards && LabelSuffix(d, s)
    requires forall t :: t in m.wildcards && LabelSuffix(d, t) ==> |t| <= |s|
    ensures BlockedBy(m, d) == Some(SourceName(m, m.wildcards[s]))
  {
    var p := Longest(m.wildcards.Keys, d);
    WalkIsLabelSuffixes(d, d[p..]);
    WalkIsLabelSuffixes(d, s);
    var q: nat :| LabelStart(d, q) && d[q..] == s;
    assert p <= q;
    assert |d[p..]| <= |s|;
    assert d[p..] == s;
  }

  // ---- subtrees ----------------------------------------------------------

  /** `s` ends with `suffix`. */
  predicate EndsWith(s: string, suffix: string) {
    |suffix| <= |s| && s[|s| - |suffix|..] == suffix
  }

  /** A wildcard covers exactly the domain it names and what lies beneath it. */
  lemma RuleCoversItsSubtree(w: string, d: string)
    requires w != ""
    ensures Covers({w}, d) <==> d == w || EndsWith(d, "." + w)
  {
    if Covers({w}, d) {
      var p: nat :| LabelStart(d, p) && d[p..] in {w};
      if p > 0 {
        assert d[p - 1..] == "." + w;
      }
    }
    if d == w {
      assert LabelStart(d, 0) && d[0..] == w;
    }
    if EndsWith(d, "." + w) {
      var p := |d| - |w|;
      assert d[p - 1..] == "." + w;
      assert d[p - 1..][0] == '.' && d[p - 1..][1..] == d[p..];
      assert LabelStart(d, p);
    }
  }

  /** The rule stops at the label boundary: text put in front of its domain leaves its subtree exactly when
      it does not end in a dot, as with `notdoubleclick.net` and `doubleclick.net`. */
  lemma LookalikeIsCoveredIff(w: string, head: string)
    requires w != "" && head != ""
    ensures Covers({w}, head + w) <==> head[|head| - 1] == '.'
  {
    var d, n := head + w, |head|;
    RuleCoversItsSubtree(w, d);
    assert d[n..] == w && d[n - 1..][0] == head[n - 1];
    assert d[n - 1..] == [head[n - 1]] + w;
  }

  // ---- what a sequence of lists leaves behind -----------------------------

  /** `ms` are the matchers while the lists are ingested one after another, from empty. */
  ghost predicate Build(lists: seq<List>, ms: seq<Matcher>) {
    && |ms| == |lists| + 1
    && ms[0] == EMPTY
    && forall i :: 0 <= i < |lists| ==> IngestedAt(lists, ms, i)
  }

  ghost predicate IngestedAt(lists: seq<List>, ms: seq<Matcher>, i: int)
    requires 0 <= i < |lists| && |ms| == |lists| + 1
  {
    Ingested(ms[i], lists[i], ms[i + 1])
  }

  /** A build is a build of one list less, and an ingest. */
  lemma BuildBefore(lists: seq<List>, ms: seq<Matcher>)
    requires Build(lists, ms) && lists != []
    ensures var n := |lists| - 1;
            Build(lists[..n], ms[..|lists|]) && Built(ms[..|lists|]) == ms[n] && Ingested(ms[n], lists[n], Built(ms))
  {
    var n := |lists| - 1;
    forall i | 0 <= i < n ensures IngestedAt(lists[..n], ms[..|lists|], i) {
      assert IngestedAt(lists, ms, i);
    }
    assert IngestedAt(lists, ms, n);
  }

  ghost function Built(ms: seq<Matcher>): Matcher
    requires ms != []
  {
    ms[|ms| - 1]
  }

  /** Some line of some list contributes the edit. */
  ghost predicate Contributes(lists: seq<List>, ed: Edit) {
    exists l :: l in lists && Gives(l, ed)
  }

  predicate Gives(l: List, ed: Edit) {
    ed in Edits(Lines(l.contents), l.allow)
  }

  /** The rules of a matcher, whichever list they are attributed to. */
  ghost predicate HasRule(m: Matcher, ed: Edit) {
    match ed
    case Block(Exact(d)) => d in m.exact
    case Block(Wildcard(d)) => d in m.wildcards
    case Allow(Exact(d)) => d in m.allow
    case Allow(Wildcard(d)) => d in m.allowWildcards
  }

  lemma {:induction false} EditsAddRules(m: Matcher, eds: seq<Edit>, source: SourceId, ed: Edit)
    ensures HasRule(ApplyEdits(m, eds, source), ed) <==> HasRule(m, ed) || ed in eds
    decreases |eds|
  {
    if eds != [] {
      var n := |eds| - 1;
      EditsAddRules(m, eds[..n], source, ed);
      assert eds == eds[..n] + [eds[n]];
    }
  }

  lemma IngestAddsRules(m: Matcher, l: List, m': Matcher, ed: Edit)
    requires Ingested(m, l, m')
    ensures HasRule(m', ed) <==> HasRule(m, ed) || Gives(l, ed)
  {
    var eds := Edits(Lines(l.contents), l.allow);
    if l.allow {
      EditsAddRules(m, eds, 0, ed);
    } else {
      var id: SourceId, table :| Interned(m.sources, l.name, id, table) && m' == Booked(m.(sources := table), eds, id);
      EditsAddRules(m.(sources := table), eds, id, ed);
    }
  }

  /** The matcher built from a sequence of lists has exactly the rules some line contributes. */
  lemma {:induction false} BuiltHasContributedRules(lists: seq<List>, ms: seq<Matcher>, ed: Edit)
    requires Build(lists, ms)
    ensures HasRule(Built(ms), ed) <==> Contributes(lists, ed)
    decreases |lists|
  {
    if lists != [] {
      var n := |lists| - 1;
      BuildBefore(lists, ms);
      BuiltHasContributedRules(lists[..n], ms[..|lists|], ed);
      IngestAddsRules(ms[n], lists[n], Built(ms), ed);
      assert lists == lists[..n] + [lists[n]];
    }
  }

  /** A line of some list, with whether that list is an allow list. */
  ghost predicate HasLine(lists: seq<List>, raw: string, allow: bool) {
    exists l :: l in lists && l.allow == allow && raw in Lines(l.contents)
  }

  lemma ContributionsComeFromLines(lists: seq<List>, ed: Edit)
    ensures Contributes(lists, ed) <==> exists raw, allow :: HasLine(lists, raw, allow) && ed in LineEdits(raw, allow)
  {
    if Contributes(lists, ed) {
      var l :| l in lists && Gives(l, ed);
      EditsComeFromLines(Lines(l.contents), l.allow, ed);
      var raw :| raw in Lines(l.contents) && ed in LineEdits(raw, l.allow);
      assert HasLine(lists, raw, l.allow);
    }
    if raw, allow :| HasLine(lists, raw, allow) && ed in LineEdits(raw, allow) {
      var l :| l in lists && l.allow == allow && raw in Lines(l.contents);
      EditsComeFromLines(Lines(l.contents), l.allow, ed);
      assert Gives(l, ed);
    }
  }

  /** Order only affects attribution: two builds from lists with the same lines, in whatever order,
      grouping or repetition, block exactly the same names. */
  lemma OrderOnlyAffectsAttribution(a: seq<List>, ma: seq<Matcher>, b: seq<List>, mb: seq<Matcher>, d: string)
    requires Build(a, ma) && Build(b, mb)
    requires forall raw, allow :: HasLine(a, raw, allow) <==> HasLine(b, raw, allow)
    ensures Blocked(Built(ma), d) <==> Blocked(Built(mb), d)
  {
    forall ed ensures HasRule(Built(ma), ed) <==> HasRule(Built(mb), ed) {
      BuiltHasContributedRules(a, ma, ed);
      BuiltHasContributedRules(b, mb, ed);
      ContributionsComeFromLines(a, ed);
      ContributionsComeFromLines(b, ed);
    }
    SameRulesBlockAlike(Built(ma), Built(mb), d);
  }

  lemma SameRulesBlockAlike(m: Matcher, m': Matcher, d: string)
    requires forall ed :: HasRule(m, ed) <==> HasRule(m', ed)
    ensures Blocked(m, d) <==> Blocked(m', d)
  {
    forall k
      ensures k in m.exact <==> k in m'.exact
      ensures k in m.wildcards <==> k in m'.wildcards
      ensures k in m.allow <==> k in m'.allow
      ensures k in m.allowWildcards <==> k in m'.allowWildcards
    {
      assert HasRule(m, Block(Exact(k))) <==> HasRule(m', Block(Exact(k)));
      assert HasRule(m, Block(Wildcard(k))) <==> HasRule(m', Block(Wildcard(k)));
      assert HasRule(m, Allow(Exact(k))) <==> HasRule(m', Allow(Exact(k)));
      assert HasRule(m, Allow(Wildcard(k))) <==> HasRule(m', Allow(Wildcard(k)));
    }
    assert m.wildcards.Keys == m'.wildcards.Keys;
    assert m.allowWildcards == m'.allowWildcards;
  }

  /** Every stored key is canonical, so it has two labels at least and is its own normal form. */
  lemma StoredKeysAreCanonical(lists: seq<List>, ms: seq<Matcher>, ed: Edit)
    requires Build(lists, ms) && HasRule(Built(ms), ed)
    ensures Canonical(ed.entry.domain)
    ensures Normalize(ed.entry.domain) == Some(Exact(ed.entry.domain))
  {
    BuiltHasContributedRules(lists, ms, ed);
    var l :| l in lists && Gives(l, ed);
    EditsAreCanonical(Lines(l.contents), l.allow);
    CanonicalIsFixed(ed.entry.domain);
  }

  /** Whatever the lists say, a name of a single label is never blocked. */
  lemma SingleLabelsAreNeverBlocked(lists: seq<List>, ms: seq<Matcher>, d: string)
    requires Build(lists, ms) && '.' !in d
    ensures BlockedBy(Built(ms), d) == None
  {
    var m := Built(ms);
    if d in m.exact {
      assert HasRule(m, Block(Exact(d)));
      StoredKeysAreCanonical(lists, ms, Block(Exact(d)));
    }
    if Covers(m.wildcards.Keys, d) {
      var p: nat :| LabelStart(d, p) && d[p..] in m.wildcards.Keys;
      assert p == 0 && d[0..] == d;
      assert HasRule(m, Block(Wildcard(d)));
      StoredKeysAreCanonical(lists, ms, Block(Wildcard(d)));
    }
  }
}
