/** Attribution is conserved: what each source is credited with is what it contributed. */
module BlocklistAccounts {
  import opened Wrappers
  import opened ListRules
  import opened Blocklists
  import opened BlocklistMeaning

  /** The keys a source is credited with. */
  function Carrying(m: map<string, SourceId>, id: nat): set<string> {
    set d | d in m && m[d] == id
  }

  function Share(m: Matcher, id: nat): nat {
    |Carrying(m.exact, id)| + |Carrying(m.wildcards, id)|
  }

  /** Every id indexes the table, names are distinct, and each entry count is the source's share. */
  ghost predicate Accounted(m: Matcher) {
    && |m.sources| <= MAX_SOURCES
    && (forall d :: d in m.exact ==> m.exact[d] < |m.sources|)
    && (forall d :: d in m.wildcards ==> m.wildcards[d] < |m.sources|)
    && (forall i, j :: 0 <= i < j < |m.sources| ==> m.sources[i].name != m.sources[j].name)
    && forall i :: 0 <= i < |m.sources| ==> m.sources[i].entries == Share(m, i)
  }

  function Total(sources: seq<SourceStat>): nat {
    if sources == [] then 0 else Total(sources[..|sources| - 1]) + sources[|sources| - 1].entries
  }

  // ---- one edit ----------------------------------------------------------

  lemma ClaimShare(m: map<string, SourceId>, d: string, source: SourceId, id: nat)
    ensures |Carrying(Claim(m, d, source), id)| - |Carrying(m, id)|
         == if id == source then |Claim(m, d, source)| - |m| else 0
  {
    ClaimSize(m, d, source);
    ClaimCarries(m, d, source, id);
  }

  lemma ClaimCarries(m: map<string, SourceId>, d: string, source: SourceId, id: nat)
    ensures Carrying(Claim(m, d, source), id) == Carrying(m, id) + if d !in m && id == source then {d} else {}
  {
    var m' := Claim(m, d, source);
    forall k ensures k in Carrying(m', id) <==> k in Carrying(m, id) || (k == d && d !in m && id == source) {
    }
  }

  /** Edits on behalf of a source grow its share by exactly what they add, and no other share. */
  lemma {:induction false} EditsGrowOneShare(m: Matcher, eds: seq<Edit>, source: SourceId, id: nat)
    ensures var m' := ApplyEdits(m, eds, source);
            Share(m', id) == Share(m, id) + if id == source then BlockSize(m') - BlockSize(m) else 0
    decreases |eds|
  {
    if eds != [] {
      var n := |eds| - 1;
      var m0 := ApplyEdits(m, eds[..n], source);
      EditsGrowOneShare(m, eds[..n], source, id);
      match eds[n]
      case Block(Exact(d)) => ClaimShare(m0.exact, d, source, id);
      case Block(Wildcard(d)) => ClaimShare(m0.wildcards, d, source, id);
      case Allow(_) =>
    }
  }

  lemma {:induction false} EditsUseTheirSource(m: Matcher, eds: seq<Edit>, source: SourceId)
    ensures var m' := ApplyEdits(m, eds, source);
            && (forall d :: d in m'.exact ==> m'.exact[d] == source || (d in m.exact && m'.exact[d] == m.exact[d]))
            && (forall d :: d in m'.wildcards ==>
                  m'.wildcards[d] == source || (d in m.wildcards && m'.wildcards[d] == m.wildcards[d]))
    decreases |eds|
  {
    if eds != [] {
      EditsUseTheirSource(m, eds[..|eds| - 1], source);
    }
  }

  // ---- one list ----------------------------------------------------------

  /** An allow list contributes allow rules only, whatever its lines look like. */
  lemma {:induction false} AllowListsOnlyAllow(lines: seq<string>)
    ensures forall ed :: ed in Edits(lines, true) ==> ed.Allow?
    decreases |lines|
  {
    if lines != [] {
      AllowListsOnlyAllow(lines[..|lines| - 1]);
      var fields := Text.Fields(StripComment(lines[|lines| - 1]));
      if fields != [] {
        HostsOnlyAllow(fields[1..]);
      }
    }
  }

  lemma {:induction false} HostsOnlyAllow(domains: seq<string>)
    ensures forall ed :: ed in HostEdits(domains, true) ==> ed.Allow?
    decreases |domains|
  {
    if domains != [] {
      HostsOnlyAllow(domains[..|domains| - 1]);
    }
  }

  lemma {:induction false} AllowEditsKeepBlocks(m: Matcher, eds: seq<Edit>, source: SourceId)
    requires forall ed :: ed in eds ==> ed.Allow?
    ensures var m' := ApplyEdits(m, eds, source);
            m'.exact == m.exact && m'.wildcards == m.wildcards && m'.sources == m.sources
    decreases |eds|
  {
    if eds != [] {
      var n := |eds| - 1;
      assert eds[n] in eds;
      AllowEditsKeepBlocks(m, eds[..n], source);
    }
  }

  lemma InternKeepsAccounts(m: Matcher, name: string, id: SourceId, table: seq<SourceStat>)
    requires Accounted(m) && Interned(m.sources, name, id, table)
    ensures Accounted(m.(sources := table)) && id < |table|
    ensures |m.sources| <= |table| && forall i :: 0 <= i < |m.sources| ==> table[i] == m.sources[i]
  {
    var m' := m.(sources := table);
    forall i | 0 <= i < |table| ensures table[i].entries == Share(m', i) {
      assert Share(m', i) == Share(m, i);
      if i == |m.sources| {
        assert Carrying(m.exact, i) == {} && Carrying(m.wildcards, i) == {};
      }
    }
  }

  /** Ingesting any list, repeated, full of inline exceptions or past the source limit, keeps every
      account exact. */
  lemma IngestKeepsAccounts(m: Matcher, l: List, m': Matcher)
    requires Accounted(m) && Ingested(m, l, m')
    ensures Accounted(m')
    ensures |m.sources| <= |m'.sources|
    ensures forall i :: 0 <= i < |m.sources| ==> m'.sources[i].name == m.sources[i].name
  {
    var lines := Text.Lines(l.contents);
    if l.allow {
      AllowListsOnlyAllow(lines);
      AllowEditsKeepBlocks(m, Edits(lines, true), 0);
      assert forall i :: 0 <= i < |m.sources| ==> Share(m', i) == Share(m, i);
    } else {
      var eds := Edits(lines, false);
      var id: SourceId, table :| Interned(m.sources, l.name, id, table) && m' == Booked(m.(sources := table), eds, id);
      InternKeepsAccounts(m, l.name, id, table);
      BookingKeepsAccounts(m.(sources := table), eds, id);
    }
  }

  lemma BookingKeepsAccounts(m: Matcher, eds: seq<Edit>, id: SourceId)
    requires Accounted(m) && id < |m.sources|
    ensures Accounted(Booked(m, eds, id))
    ensures |Booked(m, eds, id).sources| == |m.sources|
    ensures forall i :: 0 <= i < |m.sources| ==> Booked(m, eds, id).sources[i].name == m.sources[i].name
  {
    var after, m' := ApplyEdits(m, eds, id), Booked(m, eds, id);
    EditsOnlyGrow(m, eds, id);
    EditsUseTheirSource(m, eds, id);
    forall i | 0 <= i < |m.sources| ensures m'.sources[i].entries == Share(m', i) {
      EditsGrowOneShare(m, eds, id, i);
      assert Share(m', i) == Share(after, i);
    }
  }

  // ---- a whole build -----------------------------------------------------

  /** However many lists are ingested, each source's count is the number of keys carrying its id,
      and the counts sum to the size of the blocklist. */
  lemma {:induction false} AttributionIsConserved(lists: seq<List>, ms: seq<Matcher>)
    requires Build(lists, ms)
    ensures Accounted(Built(ms))
    ensures Total(Built(ms).sources) == BlockSize(Built(ms))
    decreases |lists|
  {
    if lists != [] {
      var n := |lists| - 1;
      BuildBefore(lists, ms);
      AttributionIsConserved(lists[..n], ms[..|lists|]);
      IngestKeepsAccounts(ms[n], lists[n], Built(ms));
    }
    SharesSumUp(Built(ms));
  }

  lemma SharesSumUp(m: Matcher)
    requires Accounted(m)
    ensures Total(m.sources) == BlockSize(m)
  {
    var n := |m.sources|;
    assert m.sources[..n] == m.sources;
    TotalIsBelow(m, n);
    assert Below(m.exact, n) == m.exact.Keys && Below(m.wildcards, n) == m.wildcards.Keys;
  }

  function Below(m: map<string, SourceId>, n: nat): set<string> {
    set d | d in m && m[d] < n
  }

  lemma {:induction false} TotalIsBelow(m: Matcher, n: nat)
    requires Accounted(m) && n <= |m.sources|
    ensures Total(m.sources[..n]) == |Below(m.exact, n)| + |Below(m.wildcards, n)|
  {
    if n == 0 {
      assert Below(m.exact, 0) == {} && Below(m.wildcards, 0) == {};
    } else {
      TotalIsBelow(m, n - 1);
      assert m.sources[..n][..n - 1] == m.sources[..n - 1];
      assert Below(m.exact, n) == Below(m.exact, n - 1) + Carrying(m.exact, n - 1);
      assert Below(m.wildcards, n) == Below(m.wildcards, n - 1) + Carrying(m.wildcards, n - 1);
    }
  }

  /** The list an entry is attributed to, if it is claimed. */
  function ClaimedBy(m: Matcher, e: Entry): Option<string> {
    match e
    case Exact(d) => if d in m.exact then Some(SourceName(m, m.exact[d])) else None
    case Wildcard(d) => if d in m.wildcards then Some(SourceName(m, m.wildcards[d])) else None
  }

  /** The first list to claim an entry, exact or wildcard, keeps the attribution through every later
      ingest. */
  lemma {:induction false} FirstClaimKeepsAttribution(lists: seq<List>, ms: seq<Matcher>, i: nat, e: Entry)
    requires Build(lists, ms) && i <= |lists| && ClaimedBy(ms[i], e).Some?
    ensures ClaimedBy(Built(ms), e) == ClaimedBy(ms[i], e)
    decreases |lists|
  {
    if i < |lists| {
      var n := |lists| - 1;
      BuildBefore(lists, ms);
      assert ms[..|lists|][i] == ms[i];
      FirstClaimKeepsAttribution(lists[..n], ms[..|lists|], i, e);
      AttributionIsConserved(lists[..n], ms[..|lists|]);
      ClaimStays(ms[n], lists[n], Built(ms), e);
    }
  }

  lemma ClaimStays(m: Matcher, l: List, m': Matcher, e: Entry)
    requires Accounted(m) && Ingested(m, l, m') && ClaimedBy(m, e).Some?
    ensures ClaimedBy(m', e) == ClaimedBy(m, e)
  {
    IngestKeepsAccounts(m, l, m');
    IngestKeepsClaims(m, l, m');
  }

  lemma IngestKeepsClaims(m: Matcher, l: List, m': Matcher)
    requires Ingested(m, l, m')
    ensures Blocklists.Extends(m.exact, m'.exact) && Blocklists.Extends(m.wildcards, m'.wildcards)
  {
    var eds := Edits(Text.Lines(l.contents), l.allow);
    if l.allow {
      EditsOnlyGrow(m, eds, 0);
    } else {
      var id: SourceId, table :| Interned(m.sources, l.name, id, table) && m' == Booked(m.(sources := table), eds, id);
      EditsOnlyGrow(m.(sources := table), eds, id);
    }
  }
}
