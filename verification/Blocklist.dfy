/** The blocklist: its matcher as a value, the mutable class that builds and queries it, and the
    label-suffix meaning of a lookup. */
module Blocklists {
  import opened Wrappers
  import opened Text
  import opened ListRules

  type SourceId = u16

  const MAX_SOURCES: nat := 65535

  datatype SourceStat = SourceStat(name: string, entries: nat)

  datatype Matcher = Matcher(
    exact: map<string, SourceId>,
    wildcards: map<string, SourceId>,
    allow: set<string>,
    allowWildcards: set<string>,
    sources: seq<SourceStat>
  )

  const EMPTY: Matcher := Matcher(map[], map[], {}, {}, [])

  // ---- what a name matches -----------------------------------------------

  /** A label of the name starts at `p`. */
  predicate LabelStart(d: string, p: nat) {
    p == 0 || (p < |d| && d[p - 1] == '.')
  }

  /** Some label suffix of the name, itself included, is in the set. */
  ghost predicate Covers(keys: set<string>, d: string) {
    exists p: nat :: LabelStart(d, p) && d[p..] in keys
  }

  /** The longest label suffix of the name in the set starts at `p`. */
  ghost predicate LongestAt(keys: set<string>, d: string, p: nat) {
    && LabelStart(d, p) && d[p..] in keys
    && forall q: nat :: q < p && LabelStart(d, q) ==> d[q..] !in keys
  }

  lemma {:induction false} LongestExists(keys: set<string>, d: string, p: nat)
    requires LabelStart(d, p) && d[p..] in keys
    ensures exists q: nat :: LongestAt(keys, d, q)
    decreases p
  {
    if q: nat :| q < p && LabelStart(d, q) && d[q..] in keys {
      LongestExists(keys, d, q);
    } else {
      assert LongestAt(keys, d, p);
    }
  }

  ghost function Longest(keys: set<string>, d: string): (p: nat)
    requires Covers(keys, d)
    ensures LongestAt(keys, d, p)
  {
    var p: nat :| LabelStart(d, p) && d[p..] in keys;
    LongestExists(keys, d, p);
    var q: nat :| LongestAt(keys, d, q);
    q
  }

  ghost predicate Allowed(m: Matcher, d: string) {
    d in m.allow || Covers(m.allowWildcards, d)
  }

  ghost predicate Blocked(m: Matcher, d: string) {
    !Allowed(m, d) && (d in m.exact || Covers(m.wildcards.Keys, d))
  }

  function SourceName(m: Matcher, id: SourceId): string {
    if id < |m.sources| then m.sources[id].name else "unknown"
  }

  /** The list that blocks the name: the exact entry's, otherwise the longest wildcard's. */
  ghost function BlockedBy(m: Matcher, d: string): Option<string> {
    if !Blocked(m, d) then None
    else if d in m.exact then Some(SourceName(m, m.exact[d]))
    else Some(SourceName(m, m.wildcards[d[Longest(m.wildcards.Keys, d)..]]))
  }

  // ---- building a matcher ------------------------------------------------

  function Claim(m: map<string, SourceId>, d: string, source: SourceId): map<string, SourceId> {
    if d in m then m else m[d := source]
  }

  function ApplyEdit(m: Matcher, ed: Edit, source: SourceId): Matcher {
    match ed
    case Block(Exact(d)) => m.(exact := Claim(m.exact, d, source))
    case Block(Wildcard(d)) => m.(wildcards := Claim(m.wildcards, d, source))
    case Allow(Exact(d)) => m.(allow := m.allow + {d})
    case Allow(Wildcard(d)) => m.(allowWildcards := m.allowWildcards + {d})
  }

  function ApplyEdits(m: Matcher, eds: seq<Edit>, source: SourceId): Matcher {
    if eds == [] then m
    else ApplyEdit(ApplyEdits(m, eds[..|eds| - 1], source), eds[|eds| - 1], source)
  }

  lemma {:induction false} ApplyConcat(m: Matcher, a: seq<Edit>, b: seq<Edit>, source: SourceId)
    ensures ApplyEdits(m, a + b, source) == ApplyEdits(ApplyEdits(m, a, source), b, source)
    decreases |b|
  {
    if b == [] {
      assert a + b == a;
    } else {
      assert (a + b)[..|a + b| - 1] == a + b[..|b| - 1];
      ApplyConcat(m, a, b[..|b| - 1], source);
    }
  }

  predicate NamedAt(sources: seq<SourceStat>, name: string, i: nat) {
    i < |sources| && sources[i].name == name && forall j :: 0 <= j < i ==> sources[j].name != name
  }

  /** The slot of a list name, the first of that name if it is known, and the table afterwards. */
  ghost predicate Interned(sources: seq<SourceStat>, name: string, id: SourceId, sources': seq<SourceStat>) {
    if exists i :: 0 <= i < |sources| && sources[i].name == name then
      sources' == sources && NamedAt(sources, name, id)
    else if |sources| >= MAX_SOURCES then
      sources' == sources && id == MAX_SOURCES - 1
    else
      sources' == sources + [SourceStat(name, 0)] && id == |sources|
  }

  function BlockSize(m: Matcher): nat {
    |m.exact| + |m.wildcards|
  }

  function AllowSize(m: Matcher): nat {
    |m.allow| + |m.allowWildcards|
  }

  function Credit(sources: seq<SourceStat>, id: SourceId, added: nat): seq<SourceStat> {
    if id < |sources| then sources[id := sources[id].(entries := sources[id].entries + added)] else sources
  }

  datatype List = List(contents: string, name: string, allow: bool)

  /** Ingesting a list: intern its name, apply every line's edits, credit the source. */
  ghost predicate Ingested(m: Matcher, l: List, m': Matcher) {
    var eds := Edits(Lines(l.contents), l.allow);
    if l.allow then m' == ApplyEdits(m, eds, 0)
    else exists id: SourceId, table ::
           && Interned(m.sources, l.name, id, table)
           && m' == Booked(m.(sources := table), eds, id)
  }

  /** The matcher after a list's edits, with what they added credited to the source. */
  function Booked(m: Matcher, eds: seq<Edit>, id: SourceId): Matcher {
    var after := ApplyEdits(m, eds, id);
    after.(sources := Credit(after.sources, id, SaturatingSub(BlockSize(after), BlockSize(m))))
  }

  // ---- the mutable blocklist ---------------------------------------------

  class Blocklist {
    var exact: map<string, SourceId>
    var wildcards: map<string, SourceId>
    var allow: set<string>
    var allowWildcards: set<string>
    var sources: seq<SourceStat>

    function State(): Matcher
      reads this
    {
      Matcher(exact, wildcards, allow, allowWildcards, sources)
    }

    constructor ()
      ensures State() == EMPTY
    {
      exact, wildcards, allow, allowWildcards, sources := map[], map[], {}, {}, [];
    }

    /** Walk up the labels: a.b.example.com, b.example.com, example.com, com. */
    method Lookup(domain: string) returns (list: Option<string>)
      ensures list == BlockedBy(State(), domain)
    {
      var allowed := IsAllowed(domain);
      if allowed {
        return None;
      }
      if domain in exact {
        return Some(SourceName(State(), exact[domain]));
      }
      assert domain[0..] == domain;
      if domain in wildcards {
        assert LongestAt(wildcards.Keys, domain, 0);
        return Some(SourceName(State(), wildcards[domain]));
      }
      var rest := domain;
      ghost var p: nat := 0;
      while true
        invariant p <= |domain| && rest == domain[p..]
        invariant forall q: nat :: q <= p && LabelStart(domain, q) ==> domain[q..] !in wildcards
        decreases |rest|
      {
        var dot := IndexOf(rest, {'.'});
        if dot == |rest| {
          NoStartsBefore(domain, p, |domain|);
          break;
        }
        NoStartsBefore(domain, p, p + dot);
        rest := rest[dot + 1..];
        p := p + dot + 1;
        if rest == "" {
          break;
        }
        if rest in wildcards {
          assert LongestAt(wildcards.Keys, domain, p);
          LongestUnique(wildcards.Keys, domain, p);
          return Some(SourceName(State(), wildcards[rest]));
        }
      }
      return None;
    }

    method IsAllowed(domain: string) returns (b: bool)
      ensures b <==> Allowed(State(), domain)
    {
      if domain in allow {
        return true;
      }
      assert domain[0..] == domain;
      if domain in allowWildcards {
        assert LabelStart(domain, 0);
        return true;
      }
      var rest := domain;
      ghost var p: nat := 0;
      while true
        invariant p <= |domain| && rest == domain[p..]
        invariant forall q: nat :: q <= p && LabelStart(domain, q) ==> domain[q..] !in allowWildcards
        decreases |rest|
      {
        var dot := IndexOf(rest, {'.'});
        if dot == |rest| {
          NoStartsBefore(domain, p, |domain|);
          break;
        }
        NoStartsBefore(domain, p, p + dot);
        rest := rest[dot + 1..];
        p := p + dot + 1;
        if rest == "" {
          break;
        }
        if rest in allowWildcards {
          assert LabelStart(domain, p);
          return true;
        }
      }
      return false;
    }

    method Intern(name: string) returns (id: SourceId)
      requires |sources| <= MAX_SOURCES
      modifies this`sources
      ensures Interned(old(sources), name, id, sources)
    {
      var i := 0;
      while i < |sources|
        invariant 0 <= i <= |sources|
        invariant forall j :: 0 <= j < i ==> sources[j].name != name
      {
        if sources[i].name == name {
          return i;
        }
        i := i + 1;
      }
      if |sources| >= MAX_SOURCES {
        return MAX_SOURCES - 1;
      }
      sources := sources + [SourceStat(name, 0)];
      return |sources| - 1;
    }

    method AddBlock(entry: string, source: SourceId)
      modifies this`exact, this`wildcards
      ensures State() == ApplyEdits(old(State()), Add(entry, false), source)
    {
      ApplyOne(State(), entry, false, source);
      match Normalize(entry) {
        case Some(Exact(d)) => exact := Claim(exact, d, source);
        case Some(Wildcard(d)) => wildcards := Claim(wildcards, d, source);
        case None =>
      }
    }

    method AddAllow(entry: string, ghost source: SourceId)
      modifies this`allow, this`allowWildcards
      ensures State() == ApplyEdits(old(State()), Add(entry, true), source)
    {
      ApplyOne(State(), entry, true, source);
      match Normalize(entry) {
        case Some(Exact(d)) => allow := allow + {d};
        case Some(Wildcard(d)) => allowWildcards := allowWildcards + {d};
        case None =>
      }
    }

    method AddEither(entry: string, isAllow: bool, source: SourceId)
      modifies this`exact, this`wildcards, this`allow, this`allowWildcards
      ensures State() == ApplyEdits(old(State()), Add(entry, isAllow), source)
    {
      if isAllow {
        AddAllow(entry, source);
      } else {
        AddBlock(entry, source);
      }
    }

    method IngestLine(raw: string, isAllow: bool, source: SourceId)
      modifies this`exact, this`wildcards, this`allow, this`allowWildcards
      ensures State() == ApplyEdits(old(State()), LineEdits(raw, isAllow), source)
    {
      var line := StripComment(raw);
      if line == "" {
        return;
      }
      match ParseAdblock(line) {
        case Some(BlockRule(d)) =>
          AddEither("*." + d, isAllow, source);
        case Some(ExceptionRule(d)) =>
          AddAllow("*." + d, source);
        case None =>
          var fields := Fields(line);
          if fields == [] {
            return;
          }
          if IsHostsPrefix(fields[0]) {
            IngestHosts(fields[1..], isAllow, source);
          } else if |fields| == 1 {
            AddEither(fields[0], isAllow, source);
          }
      }
    }

    method IngestHosts(domains: seq<string>, isAllow: bool, source: SourceId)
      modifies this`exact, this`wildcards, this`allow, this`allowWildcards
      ensures State() == ApplyEdits(old(State()), HostEdits(domains, isAllow), source)
    {
      ghost var start := State();
      for i := 0 to |domains|
        invariant State() == ApplyEdits(start, HostEdits(domains[..i], isAllow), source)
      {
        HostStep(start, domains, i, isAllow, source);
        if IsLocalName(domains[i]) {
          continue;
        }
        AddEither(domains[i], isAllow, source);
      }
      assert domains[..|domains|] == domains;
    }

    method IngestLines(lines: seq<string>, isAllow: bool, source: SourceId)
      modifies this`exact, this`wildcards, this`allow, this`allowWildcards
      ensures State() == ApplyEdits(old(State()), Edits(lines, isAllow), source)
    {
      ghost var start := State();
      for i := 0 to |lines|
        invariant State() == ApplyEdits(start, Edits(lines[..i], isAllow), source)
      {
        LineStep(start, lines, i, isAllow, source);
        IngestLine(lines[i], isAllow, source);
      }
      assert lines[..|lines|] == lines;
    }

    /** Parse a list's contents, registering its name and accounting for what it added. */
    method Ingest(l: List) returns (added: nat)
      requires |sources| <= MAX_SOURCES
      modifies this
      ensures Ingested(old(State()), l, State())
      ensures added == if l.allow then AllowSize(State()) - AllowSize(old(State()))
                       else BlockSize(State()) - BlockSize(old(State()))
    {
      var before := if l.allow then AllowSize(State()) else BlockSize(State());
      var source: SourceId := 0;
      if !l.allow {
        source := Intern(l.name);
      }
      ghost var start := State();
      ghost var eds := Edits(Lines(l.contents), l.allow);
      IngestLines(Lines(l.contents), l.allow, source);
      EditsGrowSizes(start, eds, source);
      var after := if l.allow then AllowSize(State()) else BlockSize(State());
      added := SaturatingSub(after, before);
      if !l.allow {
        sources := Credit(sources, source, added);
        assert State() == Booked(start, eds, source);
        BookingIsIngesting(old(State()), l, source, start.sources);
      }
    }
  }

  lemma BookingIsIngesting(m: Matcher, l: List, id: SourceId, table: seq<SourceStat>)
    requires !l.allow && Interned(m.sources, l.name, id, table)
    ensures Ingested(m, l, Booked(m.(sources := table), Edits(Lines(l.contents), l.allow), id))
  {
  }

  // ---- lemmas for the walk -----------------------------------------------

  lemma NoStartsBefore(d: string, p: nat, end: nat)
    requires p <= end <= |d|
    requires forall j :: 0 <= j < end - p ==> d[p..][j] != '.'
    ensures forall q: nat :: p < q <= end ==> !LabelStart(d, q)
  {
    forall q: nat | p < q <= end ensures !LabelStart(d, q) {
      var j := q - 1 - p;
      assert d[p..][j] == d[q - 1];
    }
  }

  lemma LongestUnique(keys: set<string>, d: string, p: nat)
    requires LongestAt(keys, d, p)
    ensures Covers(keys, d) && Longest(keys, d) == p
  {
  }

  lemma ApplyOne(m: Matcher, entry: string, allow: bool, source: SourceId)
    ensures ApplyEdits(m, Add(entry, allow), source)
         == match Normalize(entry)
            case None => m
            case Some(e) => ApplyEdit(m, if allow then Allow(e) else Block(e), source)
  {
    if Normalize(entry).Some? {
      var eds := Add(entry, allow);
      assert eds[..0] == [];
      assert ApplyEdits(m, eds[..0], source) == m;
    }
  }

  lemma HostStep(m: Matcher, domains: seq<string>, i: nat, allow: bool, source: SourceId)
    requires i < |domains|
    ensures ApplyEdits(m, HostEdits(domains[..i + 1], allow), source)
         == var m' := ApplyEdits(m, HostEdits(domains[..i], allow), source);
            if IsLocalName(domains[i]) then m' else ApplyEdits(m', Add(domains[i], allow), source)
  {
    assert domains[..i + 1][..i] == domains[..i];
    var eds := HostEdits(domains[..i], allow);
    ApplyConcat(m, eds, Add(domains[i], allow), source);
    assert eds + [] == eds;
  }

  lemma LineStep(m: Matcher, lines: seq<string>, i: nat, allow: bool, source: SourceId)
    requires i < |lines|
    ensures ApplyEdits(m, Edits(lines[..i + 1], allow), source)
         == ApplyEdits(ApplyEdits(m, Edits(lines[..i], allow), source), LineEdits(lines[i], allow), source)
  {
    assert lines[..i + 1][..i] == lines[..i];
    ApplyConcat(m, Edits(lines[..i], allow), LineEdits(lines[i], allow), source);
  }

  predicate Extends(a: map<string, SourceId>, b: map<string, SourceId>) {
    forall k :: k in a ==> k in b && b[k] == a[k]
  }

  /** No edit removes an entry, changes an attribution, or touches the sources. */
  lemma {:induction false} EditsOnlyGrow(m: Matcher, eds: seq<Edit>, source: SourceId)
    ensures var m' := ApplyEdits(m, eds, source);
            && Extends(m.exact, m'.exact) && Extends(m.wildcards, m'.wildcards)
            && m.allow <= m'.allow && m.allowWildcards <= m'.allowWildcards
            && m'.sources == m.sources
            && BlockSize(m) <= BlockSize(m') && AllowSize(m) <= AllowSize(m')
    decreases |eds|
  {
    if eds != [] {
      var n := |eds| - 1;
      EditsOnlyGrow(m, eds[..n], source);
      EditGrows(ApplyEdits(m, eds[..n], source), eds[n], source);
    }
  }

  lemma EditsGrowSizes(m: Matcher, eds: seq<Edit>, source: SourceId)
    ensures var m' := ApplyEdits(m, eds, source);
            m'.sources == m.sources && BlockSize(m) <= BlockSize(m') && AllowSize(m) <= AllowSize(m')
  {
    EditsOnlyGrow(m, eds, source);
  }

  lemma EditGrows(m: Matcher, ed: Edit, source: SourceId)
    ensures var m' := ApplyEdit(m, ed, source);
            && Extends(m.exact, m'.exact) && Extends(m.wildcards, m'.wildcards)
            && m.allow <= m'.allow && m.allowWildcards <= m'.allowWildcards
            && BlockSize(m) <= BlockSize(m') && AllowSize(m) <= AllowSize(m')
  {
    var m' := ApplyEdit(m, ed, source);
    ClaimSize(m.exact, ed.entry.domain, source);
    ClaimSize(m.wildcards, ed.entry.domain, source);
    SubsetSize(m.allow, m'.allow);
    SubsetSize(m.allowWildcards, m'.allowWildcards);
  }

  lemma ClaimSize(m: map<string, SourceId>, d: string, source: SourceId)
    ensures |Claim(m, d, source)| == |m| + if d in m then 0 else 1
  {
    assert Claim(m, d, source).Keys == m.Keys + {d};
  }
}
