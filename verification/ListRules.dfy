/** From the text of a list file to the rules it contributes. */
module ListRules {
  import opened Wrappers
  import opened Text

  datatype Entry = Exact(domain: string) | Wildcard(domain: string)

  predicate ValidLabel(l: string) {
    1 <= |l| <= 63 && forall c :: c in l ==> IsAlnum(c) || c == '-' || c == '_'
  }

  /** A plausible domain: at least two labels, and not an address. An IPv6 literal needs no test of
      its own, since its colons fail the label test. */
  predicate ValidDomain(d: string) {
    && d != "" && |d| <= 253 && '.' in d
    && !IsIpv4Literal(d)
    && forall l :: l in Split(d, '.') ==> ValidLabel(l)
  }

  /** An entry's lower-case form without outer space and trailing dots, or nothing if that is no domain. */
  function Normalize(entry: string): Option<Entry> {
    Classify(Lower(TrimEndDots(Trim(entry))))
  }

  function Classify(e: string): Option<Entry> {
    var wildcard := "*." <= e;
    var domain := if wildcard then e[2..] else e;
    if !ValidDomain(domain) then None
    else if wildcard then Some(Wildcard(domain))
    else Some(Exact(domain))
  }

  datatype AdblockRule = BlockRule(domain: string) | ExceptionRule(domain: string)

  /** The domain-anchored subset of Adblock Plus: `||domain^` and `@@||domain^`. */
  function ParseAdblock(line: string): Option<AdblockRule> {
    if "[" <= line then None
    else
      var exception := "@@" <= line;
      var anchored := if exception then line[2..] else line;
      if !("||" <= anchored) then None
      else
        var rest := anchored[2..];
        var i := IndexOf(rest, {'^', '$', '/'});
        var domain, tail := rest[..i], rest[i..];
        if '$' in tail || '/' in tail || domain == "" || '*' in domain then None
        else if exception then Some(ExceptionRule(domain))
        else Some(BlockRule(domain))
  }

  datatype Edit = Block(entry: Entry) | Allow(entry: Entry)

  /** The edit a single entry contributes, if it is a plausible domain. */
  function Add(entry: string, allow: bool): seq<Edit> {
    match Normalize(entry)
    case None => []
    case Some(e) => [if allow then Allow(e) else Block(e)]
  }

  predicate IsHostsPrefix(field: string) {
    field in {"0.0.0.0", "127.0.0.1", "::", "::1", "0.0.0.0.0"}
  }

  predicate IsLocalName(domain: string) {
    Lower(domain) in {"localhost", "localhost.localdomain", "broadcasthost"}
  }

  function HostEdits(domains: seq<string>, allow: bool): seq<Edit> {
    if domains == [] then []
    else
      var last := domains[|domains| - 1];
      HostEdits(domains[..|domains| - 1], allow) + if IsLocalName(last) then [] else Add(last, allow)
  }

  function StripComment(raw: string): string {
    Trim(raw[..IndexOf(raw, {'#', '!'})])
  }

  /** Everything one line contributes. */
  function LineEdits(raw: string, allow: bool): seq<Edit> {
    var line := StripComment(raw);
    if line == "" then []
    else
      match ParseAdblock(line)
      case Some(BlockRule(d)) => Add("*." + d, allow)
      case Some(ExceptionRule(d)) => Add("*." + d, true)
      case None =>
        var fields := Fields(line);
        if fields == [] then []
        else if IsHostsPrefix(fields[0]) then HostEdits(fields[1..], allow)
        else if |fields| == 1 then Add(fields[0], allow)
        else []
  }

  function Edits(lines: seq<string>, allow: bool): seq<Edit> {
    if lines == [] then []
    else Edits(lines[..|lines| - 1], allow) + LineEdits(lines[|lines| - 1], allow)
  }

  function Flat<T>(lines: seq<string>, f: string -> seq<T>): seq<T> {
    if lines == [] then [] else Flat(lines[..|lines| - 1], f) + f(lines[|lines| - 1])
  }

  lemma {:induction false} FlatHas<T>(lines: seq<string>, f: string -> seq<T>, x: T)
    ensures x in Flat(lines, f) <==> exists raw :: raw in lines && x in f(raw)
    decreases |lines|
  {
    if lines != [] {
      var n := |lines| - 1;
      FlatHas(lines[..n], f, x);
      assert lines == lines[..n] + [lines[n]];
    }
  }

  lemma {:induction false} EditsAreFlat(lines: seq<string>, allow: bool, f: string -> seq<Edit>)
    requires forall raw :: f(raw) == LineEdits(raw, allow)
    ensures Edits(lines, allow) == Flat(lines, f)
    decreases |lines|
  {
    if lines != [] {
      EditsAreFlat(lines[..|lines| - 1], allow, f);
    }
  }

  lemma EditsComeFromLines(lines: seq<string>, allow: bool, ed: Edit)
    ensures ed in Edits(lines, allow) <==> exists raw :: raw in lines && ed in LineEdits(raw, allow)
  {
    var f := raw => LineEdits(raw, allow);
    EditsAreFlat(lines, allow, f);
    FlatHas(lines, f, ed);
    if raw :| raw in lines && ed in f(raw) {
      assert ed in LineEdits(raw, allow);
    }
    if raw :| raw in lines && ed in LineEdits(raw, allow) {
      assert ed in f(raw);
    }
  }

  // ---- canonical domains -------------------------------------------------

  predicate Canonical(d: string) {
    ValidDomain(d) && Lower(d) == d
  }

  lemma ValidDomainChars(d: string)
    requires ValidDomain(d)
    ensures forall c :: c in d ==> IsAlnum(c) || c == '-' || c == '_' || c == '.'
    ensures d[|d| - 1] != '.'
    ensures NoSpaces(d)
  {
    SplitPieces(d, '.');
    forall c | c in d ensures IsAlnum(c) || c == '-' || c == '_' || c == '.' {
      if c != '.' {
        var p :| p in Split(d, '.') && c in p;
      }
    }
    assert !ValidLabel("");
    if d[|d| - 1] == '.' {
      SplitLast(d, '.');
    }
  }

  /** Whatever is accepted is canonical, and accepting it again changes nothing. */
  lemma NormalizeIsCanonical(entry: string)
    requires Normalize(entry).Some?
    ensures Canonical(Normalize(entry).value.domain)
  {
    var e := Lower(TrimEndDots(Trim(entry)));
    LowerIdempotent(TrimEndDots(Trim(entry)));
    var d := Normalize(entry).value.domain;
    if "*." <= e {
      assert Lower(d) == Lower(e)[2..];
    }
  }

  lemma CanonicalIsFixed(d: string)
    requires Canonical(d)
    ensures Normalize(d) == Some(Exact(d))
    ensures Normalize("*." + d) == Some(Wildcard(d))
  {
    CanonicalExact(d);
    CanonicalWildcard(d);
  }

  lemma CanonicalExact(d: string)
    requires Canonical(d)
    ensures Normalize(d) == Some(Exact(d))
  {
    ValidDomainChars(d);
    CleanEntry(d);
    ClassifyExact(d);
  }

  lemma ClassifyExact(d: string)
    requires d != "" && ValidDomain(d) && forall c :: c in d ==> c != '*'
    ensures Classify(d) == Some(Exact(d))
  {
    assert d[0] in d;
  }

  lemma CanonicalWildcard(d: string)
    requires Canonical(d)
    ensures Normalize("*." + d) == Some(Wildcard(d))
  {
    CanonicalWildcardText(d);
    var w := "*." + d;
    CleanEntry(w);
    ClassifyWildcard(w, d);
  }

  lemma CanonicalWildcardText(d: string)
    requires Canonical(d)
    ensures NoSpaces("*." + d) && Lower("*." + d) == "*." + d
    ensures ("*." + d)[|d| + 1] != '.'
  {
    ValidDomainChars(d);
    var w := "*." + d;
    forall i | 0 <= i < |w| ensures LowerChar(w[i]) == w[i] && !IsSpace(w[i]) {
      if i >= 2 {
        assert w[i] == d[i - 2] == Lower(d)[i - 2];
        assert d[i - 2] in d;
      }
    }
    assert w[|d| + 1] == d[|d| - 1];
  }

  lemma ClassifyWildcard(w: string, d: string)
    requires "*." <= w && w[2..] == d && ValidDomain(d)
    ensures Classify(w) == Some(Wildcard(d))
  {
  }

  /** Text with nothing to trim or fold is classified as it stands. */
  lemma CleanEntry(t: string)
    requires t != "" && NoSpaces(t) && Lower(t) == t && t[|t| - 1] != '.'
    ensures Normalize(t) == Classify(t)
  {
    CleanTextIsTrimmed(t);
    assert TrimEndDots(t) == t;
  }

  lemma {:induction false} EditsAreCanonical(lines: seq<string>, allow: bool)
    ensures forall ed :: ed in Edits(lines, allow) ==> Canonical(ed.entry.domain)
  {
    if lines != [] {
      EditsAreCanonical(lines[..|lines| - 1], allow);
      LineEditsAreCanonical(lines[|lines| - 1], allow);
    }
  }

  lemma LineEditsAreCanonical(raw: string, allow: bool)
    ensures forall ed :: ed in LineEdits(raw, allow) ==> Canonical(ed.entry.domain)
  {
    var line := StripComment(raw);
    match ParseAdblock(line)
    case Some(BlockRule(d)) => AddIsCanonical("*." + d, allow);
    case Some(ExceptionRule(d)) => AddIsCanonical("*." + d, true);
    case None =>
      var fields := Fields(line);
      if fields != [] {
        AddIsCanonical(fields[0], allow);
        HostEditsAreCanonical(fields[1..], allow);
      }
  }

  lemma AddIsCanonical(entry: string, allow: bool)
    ensures forall ed :: ed in Add(entry, allow) ==> Canonical(ed.entry.domain)
  {
    if Normalize(entry).Some? {
      NormalizeIsCanonical(entry);
    }
  }

  lemma {:induction false} HostEditsAreCanonical(domains: seq<string>, allow: bool)
    ensures forall ed :: ed in HostEdits(domains, allow) ==> Canonical(ed.entry.domain)
  {
    if domains != [] {
      HostEditsAreCanonical(domains[..|domains| - 1], allow);
      AddIsCanonical(domains[|domains| - 1], allow);
    }
  }
}
