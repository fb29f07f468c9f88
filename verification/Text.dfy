/** The string operations the list parser, the matcher and the registry use, on ASCII text. */
module Text {

  predicate IsSpace(c: char) {
    c == ' ' || '\t' <= c <= '\r'
  }

  predicate IsDigit(c: char) {
    '0' <= c <= '9'
  }

  predicate IsAlnum(c: char) {
    IsDigit(c) || 'a' <= c <= 'z' || 'A' <= c <= 'Z'
  }

  predicate IsUpper(c: char) {
    'A' <= c <= 'Z'
  }

  function LowerChar(c: char): char {
    if IsUpper(c) then ((c as int) + 32) as char else c
  }

  function Lower(s: string): (r: string)
    ensures |r| == |s|
    ensures forall i :: 0 <= i < |s| ==> r[i] == LowerChar(s[i])
  {
    seq(|s|, i requires 0 <= i < |s| => LowerChar(s[i]))
  }

  predicate EqIgnoreCase(a: string, b: string) {
    Lower(a) == Lower(b)
  }

  function TrimStart(s: string): string {
    if s != "" && IsSpace(s[0]) then TrimStart(s[1..]) else s
  }

  function TrimEnd(s: string): string {
    if s != "" && IsSpace(s[|s| - 1]) then TrimEnd(s[..|s| - 1]) else s
  }

  function Trim(s: string): string {
    TrimEnd(TrimStart(s))
  }

  function TrimEndDots(s: string): (r: string)
    ensures r <= s
    ensures r == "" || r[|r| - 1] != '.'
    ensures forall i :: |r| <= i < |s| ==> s[i] == '.'
  {
    if s != "" && s[|s| - 1] == '.' then TrimEndDots(s[..|s| - 1]) else s
  }

  /** Index of the first character drawn from `cs`, or the length when there is none. */
  function IndexOf(s: string, cs: set<char>): (i: nat)
    ensures i <= |s|
    ensures i < |s| ==> s[i] in cs
    ensures forall j :: 0 <= j < i ==> s[j] !in cs
  {
    if s == "" || s[0] in cs then 0 else 1 + IndexOf(s[1..], cs)
  }

  /** Index of the first white-space character, or the length when there is none. */
  function IndexOfSpace(s: string): (i: nat)
    ensures i <= |s|
    ensures i < |s| ==> IsSpace(s[i])
    ensures forall j :: 0 <= j < i ==> !IsSpace(s[j])
  {
    if s == "" || IsSpace(s[0]) then 0 else 1 + IndexOfSpace(s[1..])
  }

  /** Pieces between occurrences of `sep`; always at least one piece. */
  function Split(s: string, sep: char): (parts: seq<string>)
    ensures |parts| >= 1
    decreases |s|
  {
    var i := IndexOf(s, {sep});
    if i == |s| then [s] else [s[..i]] + Split(s[i + 1..], sep)
  }

  function Join(parts: seq<string>, sep: string): string {
    if |parts| == 0 then ""
    else if |parts| == 1 then parts[0]
    else parts[0] + sep + Join(parts[1..], sep)
  }

  function StripCr(s: string): string {
    if s != "" && s[|s| - 1] == '\r' then s[..|s| - 1] else s
  }

  /** Lines ended by LF or CRLF; the last terminator is optional. */
  function Lines(s: string): seq<string>
    decreases |s|
  {
    if s == "" then []
    else
      var i := IndexOf(s, {'\n'});
      if i == |s| then [s] else [StripCr(s[..i])] + Lines(s[i + 1..])
  }

  /** White-space separated fields. */
  function Fields(s: string): seq<string>
    decreases |s|
  {
    TrimStartShortens(s);
    var t := TrimStart(s);
    if t == "" then []
    else
      var n := IndexOfSpace(t);
      assert n > 0 by { TrimStartHead(s); }
      [t[..n]] + Fields(t[n..])
  }

  lemma TrimStartShortens(s: string)
    ensures |TrimStart(s)| <= |s|
  {
  }

  lemma TrimStartHead(s: string)
    ensures TrimStart(s) != "" ==> !IsSpace(TrimStart(s)[0])
  {
  }

  // ---- IPv4 literals -----------------------------------------------------

  function Decimal(s: string): nat
    requires forall c :: c in s ==> IsDigit(c)
  {
    if s == "" then 0
    else
      var last := s[|s| - 1];
      assert IsDigit(last);
      10 * Decimal(s[..|s| - 1]) + (last as int - '0' as int)
  }

  predicate IsOctet(s: string) {
    && 1 <= |s| <= 3
    && (forall c :: c in s ==> IsDigit(c))
    && (|s| > 1 ==> s[0] != '0')
    && Decimal(s) <= 255
  }

  /** Dotted quad as the standard library parses it: four octets, no leading zeros. */
  predicate IsIpv4Literal(s: string) {
    var parts := Split(s, '.');
    |parts| == 4 && forall p :: p in parts ==> IsOctet(p)
  }

  // ---- facts about clean text --------------------------------------------

  predicate NoSpaces(s: string) {
    forall c :: c in s ==> !IsSpace(c)
  }

  lemma CleanTextIsTrimmed(s: string)
    requires NoSpaces(s)
    ensures Trim(s) == s
    ensures s != "" ==> Fields(s) == [s]
  {
    if s != "" {
      assert s[0] in s && s[|s| - 1] in s;
      var n := IndexOfSpace(s);
      assert forall i :: 0 <= i < |s| ==> s[i] in s;
      assert s[..n] == s && s[n..] == "";
      assert Fields("") == [];
    }
  }

  lemma {:induction false} TrimDropsSpacesOnly(s: string)
    ensures forall c :: c in Trim(s) ==> c in s
    ensures Trim(s) != "" ==> !IsSpace(Trim(s)[0]) && !IsSpace(Trim(s)[|Trim(s)| - 1])
  {
    TrimStartProps(s);
    TrimEndProps(TrimStart(s));
  }

  lemma TrimStartProps(s: string)
    ensures forall c :: c in TrimStart(s) ==> c in s
    ensures TrimStart(s) != "" ==> !IsSpace(TrimStart(s)[0])
  {
  }

  lemma {:induction false} TrimEndProps(s: string)
    ensures TrimEnd(s) <= s
    ensures TrimEnd(s) != "" ==> !IsSpace(TrimEnd(s)[|TrimEnd(s)| - 1])
    decreases |s|
  {
    if s != "" && IsSpace(s[|s| - 1]) {
      TrimEndProps(s[..|s| - 1]);
    }
  }

  lemma LowerIdempotent(s: string)
    ensures Lower(Lower(s)) == Lower(s)
  {
  }

  /** Trimming dots and folding case commute with case-insensitive comparison. */
  lemma {:induction false} FoldedNamesAgree(a: string, b: string)
    requires EqIgnoreCase(a, b)
    ensures Lower(TrimEndDots(a)) == Lower(TrimEndDots(b))
    decreases |a|
  {
    assert |Lower(a)| == |a| && |Lower(b)| == |b|;
    forall i | 0 <= i < |a| ensures a[i] == '.' <==> b[i] == '.' {
      assert Lower(a)[i] == Lower(b)[i];
      assert LowerChar(a[i]) == LowerChar(b[i]);
    }
    if a != "" && a[|a| - 1] == '.' {
      var x, y := a[..|a| - 1], b[..|b| - 1];
      assert Lower(x) == Lower(a)[..|a| - 1];
      assert Lower(y) == Lower(b)[..|b| - 1];
      FoldedNamesAgree(x, y);
    }
  }

  /** Pieces of a split carry only characters of the string, never the separator. */
  lemma {:induction false} SplitPieces(s: string, sep: char)
    ensures forall p, c :: p in Split(s, sep) && c in p ==> c in s && c != sep
    ensures forall c :: c in s ==> c == sep || exists p :: p in Split(s, sep) && c in p
    decreases |s|
  {
    var i := IndexOf(s, {sep});
    if i == |s| {
      assert Split(s, sep) == [s];
      forall c | c in s ensures c == sep || exists p :: p in Split(s, sep) && c in p {
        assert s in Split(s, sep);
      }
    } else {
      var rest := Split(s[i + 1..], sep);
      SplitPieces(s[i + 1..], sep);
      assert Split(s, sep) == [s[..i]] + rest;
      forall c | c in s ensures c == sep || exists p :: p in Split(s, sep) && c in p {
        var k :| 0 <= k < |s| && s[k] == c;
        if k < i {
          assert s[..i][k] == c;
          assert s[..i] in Split(s, sep);
        } else if k > i {
          assert s[i + 1..][k - i - 1] == c;
          assert c in s[i + 1..];
          if c != sep {
            var p :| p in rest && c in p;
            assert p in Split(s, sep);
          }
        }
      }
    }
  }

  lemma SplitFirst(head: string, rest: string, sep: char)
    requires sep !in head
    ensures Split(head + [sep] + rest, sep) == [head] + Split(rest, sep)
  {
    var s := head + [sep] + rest;
    var i := IndexOf(s, {sep});
    assert s[|head|] == sep;
    assert forall j :: 0 <= j < |head| ==> s[j] in head;
    assert s[..i] == head && s[i + 1..] == rest;
  }

  /** The last piece is what follows the last separator. */
  lemma {:induction false} SplitLast(s: string, sep: char)
    requires s != "" && s[|s| - 1] == sep
    ensures "" in Split(s, sep)
    decreases |s|
  {
    var i := IndexOf(s, {sep});
    assert i < |s|;
    var rest := s[i + 1..];
    assert Split(s, sep) == [s[..i]] + Split(rest, sep);
    if rest == "" {
      assert Split(rest, sep) == [""];
      assert [s[..i]] + [""] == [s[..i], ""];
    } else {
      SplitLast(rest, sep);
    }
  }
}
