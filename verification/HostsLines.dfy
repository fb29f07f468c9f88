/** What hosts lines and lines of a single entry add to a build, and that blanks around a line do not matter. */
module HostsLines {
  import opened Wrappers
  import opened Text
  import opened ListRules
  import opened Blocklists
  import opened BlocklistMeaning
  import opened NameSpelling
  import opened ListFormats
  import ListComments

  // ---- fields ------------------------------------------------------------

  predicate IsField(f: string) {
    f != "" && NoSpaces(f) && !ListComments.HasComment(f)
  }

  predicate AllFields(fs: seq<string>) {
    forall f :: f in fs ==> IsField(f)
  }

  /** White space, and at least some of it. */
  predicate White(c: char) {
    c == ' ' || 9 <= c as int <= 13
  }

  predicate Blank(s: string) {
    forall i :: 0 <= i < |s| ==> White(s[i])
  }

  predicate IsGap(s: string) {
    s != "" && Blank(s)
  }

  predicate AllGaps(gaps: seq<string>) {
    forall g :: g in gaps ==> IsGap(g)
  }

  /** The fields with a gap before each but the first. */
  function Spread(fs: seq<string>, gaps: seq<string>): string
    requires fs != [] && |gaps| == |fs| - 1
  {
    if |fs| == 1 then fs[0] else fs[0] + (gaps[0] + Spread(fs[1..], gaps[1..]))
  }

  lemma {:induction false} TrimStartDrops(pad: string, s: string)
    requires Blank(pad)
    ensures TrimStart(pad + s) == TrimStart(s)
  {
    if pad == "" {
      assert pad + s == s;
    } else {
      assert White(pad[0]) && (pad + s)[1..] == pad[1..] + s;
      TrimStartDrops(pad[1..], s);
    }
  }

  lemma FieldThenMore(f: string, gap: string, rest: string)
    requires f != "" && NoSpaces(f) && IsGap(gap)
    ensures Fields(f + (gap + rest)) == [f] + Fields(rest)
  {
    var s := f + (gap + rest);
    var n := IndexOfSpace(s);
    assert s[0] == f[0] && f[0] in f;
    assert forall i :: 0 <= i < |f| ==> s[i] == f[i] && f[i] in f;
    assert s[|f|] == gap[0] && White(gap[0]);
    assert s[..n] == f && s[n..] == gap + rest;
    TrimStartDrops(gap, rest);
    SameTrimSameFields(gap + rest, rest);
  }

  lemma SameTrimSameFields(a: string, b: string)
    requires TrimStart(a) == TrimStart(b)
    ensures Fields(a) == Fields(b)
  {
  }

  lemma {:induction false} FieldsOfSpread(fs: seq<string>, gaps: seq<string>)
    requires fs != [] && |gaps| == |fs| - 1 && AllFields(fs) && AllGaps(gaps)
    ensures Fields(Spread(fs, gaps)) == fs
    decreases |fs|
  {
    assert IsField(fs[0]);
    if |fs| == 1 {
      CleanTextIsTrimmed(fs[0]);
    } else {
      assert forall f :: f in fs[1..] ==> f in fs;
      assert forall g :: g in gaps[1..] ==> g in gaps;
      assert IsGap(gaps[0]);
      FieldThenMore(fs[0], gaps[0], Spread(fs[1..], gaps[1..]));
      FieldsOfSpread(fs[1..], gaps[1..]);
      assert fs == [fs[0]] + fs[1..];
    }
  }

  lemma Gapless(f: string, gap: string, rest: string)
    requires IsField(f) && IsGap(gap) && !ListComments.HasComment(rest) && rest != "" && !IsSpace(rest[|rest| - 1])
    ensures var s := f + (gap + rest);
            f <= s && !IsSpace(s[0]) && !IsSpace(s[|s| - 1]) && !ListComments.HasComment(s)
  {
    var s := f + (gap + rest);
    assert f[0] in f;
    forall c | c in s ensures c !in {'#', '!'} {
      if c in gap {
        var i :| 0 <= i < |gap| && gap[i] == c;
        assert White(c);
      } else {
        assert c in f || c in rest;
      }
    }
  }

  lemma {:induction false} SpreadEnds(fs: seq<string>, gaps: seq<string>)
    requires fs != [] && |gaps| == |fs| - 1 && AllFields(fs) && AllGaps(gaps)
    ensures var s := Spread(fs, gaps);
            && s != "" && fs[0] <= s && !IsSpace(s[0]) && !IsSpace(s[|s| - 1]) && !ListComments.HasComment(s)
    decreases |fs|
  {
    assert IsField(fs[0]) && fs[0][0] in fs[0] && fs[0][|fs[0]| - 1] in fs[0];
    if |fs| > 1 {
      assert forall f :: f in fs[1..] ==> f in fs;
      assert forall g :: g in gaps[1..] ==> g in gaps;
      SpreadEnds(fs[1..], gaps[1..]);
      Gapless(fs[0], gaps[0], Spread(fs[1..], gaps[1..]));
    }
  }

  lemma SpreadIsClean(fs: seq<string>, gaps: seq<string>)
    requires fs != [] && |gaps| == |fs| - 1 && AllFields(fs) && AllGaps(gaps)
    ensures StripComment(Spread(fs, gaps)) == Spread(fs, gaps)
  {
    SpreadEnds(fs, gaps);
    TightStrips(Spread(fs, gaps));
  }

  /** The field does not begin like an Adblock Plus rule. */
  predicate Unanchored(f: string) {
    f != "" && f[0] != '|' && f[0] != '@'
  }

  lemma UnanchoredIsNoRule(f: string, line: string)
    requires Unanchored(f) && f <= line
    ensures ParseAdblock(line) == None
  {
    assert line[0] == f[0];
  }

  lemma SpreadEdits(fs: seq<string>, gaps: seq<string>, allow: bool)
    requires fs != [] && |gaps| == |fs| - 1 && AllFields(fs) && AllGaps(gaps) && Unanchored(fs[0])
    ensures LineEdits(Spread(fs, gaps), allow)
         == if IsHostsPrefix(fs[0]) then HostEdits(fs[1..], allow)
            else if |fs| == 1 then Add(fs[0], allow) else []
  {
    SpreadIsClean(fs, gaps);
    SpreadEnds(fs, gaps);
    UnanchoredIsNoRule(fs[0], Spread(fs, gaps));
    FieldsOfSpread(fs, gaps);
  }

  // ---- hosts lines -------------------------------------------------------

  /** The addresses that mark a hosts line. */
  predicate SinkAddress(f: string) {
    f == "0.0.0.0" || f == "127.0.0.1" || f == "::" || f == "::1" || f == "0.0.0.0.0"
  }

  /** The machine's own names, in any letter case. */
  predicate LocalName(f: string) {
    SameText(f, "localhost") || SameText(f, "localhost.localdomain") || SameText(f, "broadcasthost")
  }

  lemma FoldsTo(f: string, name: string)
    requires NoCapitals(name)
    ensures Lower(f) == name <==> SameText(f, name)
  {
    LowerIs(f, name);
  }

  lemma LocalNamesAreSmall()
    ensures NoCapitals("localhost") && NoCapitals("localhost.localdomain") && NoCapitals("broadcasthost")
  {
  }

  lemma LocalNameIff(f: string)
    ensures IsLocalName(f) <==> LocalName(f)
  {
    LocalNamesAreSmall();
    var a, b, c := "localhost", "localhost.localdomain", "broadcasthost";
    FoldsTo(f, a);
    FoldsTo(f, b);
    FoldsTo(f, c);
  }

  lemma {:induction false} HostEditsAreFlat(fs: seq<string>, allow: bool, give: string -> seq<Edit>)
    requires forall f :: give(f) == if IsLocalName(f) then [] else Add(f, allow)
    ensures HostEdits(fs, allow) == Flat(fs, give)
    decreases |fs|
  {
    if fs != [] {
      HostEditsAreFlat(fs[..|fs| - 1], allow, give);
    }
  }

  lemma HostEditsHave(fs: seq<string>, allow: bool, ed: Edit)
    ensures ed in HostEdits(fs, allow) <==> exists f :: f in fs && !IsLocalName(f) && ed in Add(f, allow)
  {
    var give := f => if IsLocalName(f) then [] else Add(f, allow);
    HostEditsAreFlat(fs, allow, give);
    FlatHas(fs, give, ed);
    if f :| f in fs && ed in give(f) {
      assert !IsLocalName(f) && ed in Add(f, allow);
    }
    if f :| f in fs && !IsLocalName(f) && ed in Add(f, allow) {
      assert ed in give(f);
    }
  }

  /** The names on a hosts line: canonical domains, and the machine's own. */
  predicate HostNames(fs: seq<string>) {
    forall f :: f in fs ==> IsField(f) && (Canonical(f) || LocalName(f))
  }

  lemma HostsEdits(prefix: string, fs: seq<string>, gaps: seq<string>, allow: bool, ed: Edit)
    requires SinkAddress(prefix) && IsField(prefix) && HostNames(fs) && |gaps| == |fs| && AllGaps(gaps)
    ensures ed in LineEdits(Spread([prefix] + fs, gaps), allow) <==> exists f :: f in fs && HostGives(f, allow, ed)
  {
    var all := [prefix] + fs;
    assert all[1..] == fs && all[0] == prefix;
    SpreadEdits(all, gaps, allow);
    HostEditsHave(fs, allow, ed);
    forall f | f in fs ensures !IsLocalName(f) && ed in Add(f, allow) <==> HostGives(f, allow, ed) {
      OneHost(f, allow, ed);
    }
  }

  predicate HostGives(f: string, allow: bool, ed: Edit) {
    !LocalName(f) && ed == AsRule(Exact(f), allow)
  }

  lemma OneHost(f: string, allow: bool, ed: Edit)
    requires Canonical(f) || LocalName(f)
    ensures !IsLocalName(f) && ed in Add(f, allow) <==> HostGives(f, allow, ed)
  {
    LocalNameIff(f);
    if Canonical(f) {
      CanonicalIsFixed(f);
    }
  }

  /** A hosts line adds each of its names exactly, the machine's own apart, and nothing else, whatever white
      space is between them. */
  lemma HostsLineAdds(a: seq<List>, ma: seq<Matcher>, b: seq<List>, mb: seq<Matcher>, prefix: string, fs: seq<string>,
                      gaps: seq<string>, allow: bool, ed: Edit)
    requires SinkAddress(prefix) && IsField(prefix) && HostNames(fs) && |gaps| == |fs| && AllGaps(gaps)
    requires Build(a, ma) && Build(b, mb) && OneMoreLine(a, b, Spread([prefix] + fs, gaps), allow)
    ensures HasRule(Built(mb), ed) <==> HasRule(Built(ma), ed) || exists f :: f in fs && HostGives(f, allow, ed)
  {
    HostsEdits(prefix, fs, gaps, allow, ed);
    LineAdds(a, ma, b, mb, Spread([prefix] + fs, gaps), allow, ed);
  }

  /** A line of several fields behind anything but those addresses adds nothing. */
  lemma OtherFieldsAddNothing(a: seq<List>, ma: seq<Matcher>, b: seq<List>, mb: seq<Matcher>, fs: seq<string>,
                              gaps: seq<string>, allow: bool, ed: Edit)
    requires AllFields(fs) && |fs| >= 2 && Unanchored(fs[0]) && !SinkAddress(fs[0])
    requires |gaps| == |fs| - 1 && AllGaps(gaps)
    requires Build(a, ma) && Build(b, mb) && OneMoreLine(a, b, Spread(fs, gaps), allow)
    ensures HasRule(Built(mb), ed) <==> HasRule(Built(ma), ed)
  {
    SpreadEdits(fs, gaps, allow);
    PrefixIff(fs[0]);
    LineAdds(a, ma, b, mb, Spread(fs, gaps), allow, ed);
  }

  // ---- single entries ----------------------------------------------------

  function Entered(d: string, wildcard: bool): string {
    if wildcard then "*." + d else d
  }

  lemma PrefixIff(f: string)
    ensures IsHostsPrefix(f) <==> SinkAddress(f)
  {
  }

  lemma EnteredIsToken(d: string, wildcard: bool)
    requires Canonical(d)
    ensures ListComments.Token(Entered(d, wildcard))
  {
    var t := Entered(d, wildcard);
    ListComments.DomainIsToken(d);
    assert t[0] == '*' || t == d;
    forall c | c in t ensures !IsSpace(c) && c !in {'#', '!'} {
      assert c in d || c == '*' || c == '.';
    }
  }

  lemma EnteredIsNoPrefix(d: string, wildcard: bool)
    requires !SinkAddress(d)
    ensures !IsHostsPrefix(Entered(d, wildcard))
  {
    PrefixIff(d);
    PrefixIff(Entered(d, wildcard));
    assert wildcard ==> Entered(d, wildcard)[0] == '*';
  }

  lemma EnteredEdits(d: string, wildcard: bool, allow: bool)
    requires Canonical(d) && !SinkAddress(d)
    ensures LineEdits(Entered(d, wildcard), allow) == [AsRule(if wildcard then Wildcard(d) else Exact(d), allow)]
  {
    CanonicalIsFixed(d);
    EnteredIsToken(d, wildcard);
    EnteredIsNoPrefix(d, wildcard);
    ListComments.TokenEdits(Entered(d, wildcard), allow);
  }

  /** A domain on a line of its own adds exactly itself, and `*.d` exactly its wildcard. */
  lemma EntryLineAdds(a: seq<List>, ma: seq<Matcher>, b: seq<List>, mb: seq<Matcher>, d: string, wildcard: bool,
                      allow: bool, ed: Edit)
    requires Canonical(d) && !SinkAddress(d)
    requires Build(a, ma) && Build(b, mb) && OneMoreLine(a, b, Entered(d, wildcard), allow)
    ensures HasRule(Built(mb), ed)
       <==> HasRule(Built(ma), ed) || ed == AsRule(if wildcard then Wildcard(d) else Exact(d), allow)
  {
    EnteredEdits(d, wildcard, allow);
    LineAdds(a, ma, b, mb, Entered(d, wildcard), allow, ed);
  }

  // ---- blanks ------------------------------------------------------------

  lemma {:induction false} TrimEndDrops(s: string, pad: string)
    requires Blank(pad)
    ensures TrimEnd(s + pad) == TrimEnd(s)
    decreases |pad|
  {
    if pad == "" {
      assert s + pad == s;
    } else {
      var n := |pad| - 1;
      assert White(pad[n]) && (s + pad)[..|s + pad| - 1] == s + pad[..n];
      TrimEndDrops(s, pad[..n]);
    }
  }

  /** Trimming finds the text between blanks. */
  lemma TrimFinds(pad: string, s: string, pad': string)
    requires Blank(pad) && Blank(pad') && s != "" && !IsSpace(s[0]) && !IsSpace(s[|s| - 1])
    ensures Trim(pad + s + pad') == s
  {
    assert pad + s + pad' == pad + (s + pad');
    TrimStartDrops(pad, s + pad');
    assert (s + pad')[0] == s[0] && TrimStart(s + pad') == s + pad';
    TrimEndDrops(s, pad');
    assert TrimEnd(s) == s;
  }

  lemma PaddedHasNoComment(pad: string, line: string, pad': string)
    requires Blank(pad) && Blank(pad') && !ListComments.HasComment(line)
    ensures !ListComments.HasComment(pad + line + pad')
  {
    forall c | c in pad + line + pad' ensures c !in {'#', '!'} {
      if c in line {
      } else if c in pad {
        var i :| 0 <= i < |pad| && pad[i] == c;
        assert White(c);
      } else {
        var i :| 0 <= i < |pad'| && pad'[i] == c;
        assert White(c);
      }
    }
  }

  lemma PaddedStrips(pad: string, line: string, pad': string)
    requires Blank(pad) && Blank(pad') && !ListComments.HasComment(line)
    requires line != "" && !IsSpace(line[0]) && !IsSpace(line[|line| - 1])
    ensures StripComment(pad + line + pad') == line
  {
    PaddedHasNoComment(pad, line, pad');
    ListComments.UncutLine(pad + line + pad');
    TrimFinds(pad, line, pad');
  }

  lemma TightStrips(line: string)
    requires !ListComments.HasComment(line) && line != "" && !IsSpace(line[0]) && !IsSpace(line[|line| - 1])
    ensures StripComment(line) == line
  {
    ListComments.UncutLine(line);
  }

  /** So blanks around a line without a comment change nothing. */
  lemma BlanksAddNothing(pad: string, line: string, pad': string, allow: bool)
    requires Blank(pad) && Blank(pad') && !ListComments.HasComment(line)
    requires line != "" && !IsSpace(line[0]) && !IsSpace(line[|line| - 1])
    ensures LineEdits(pad + line + pad', allow) == LineEdits(line, allow)
  {
    PaddedStrips(pad, line, pad');
    TightStrips(line);
  }

  // ---- lines of a text ---------------------------------------------------

  /** A line without its terminator. */
  predicate OneLine(l: string) {
    (forall i :: 0 <= i < |l| ==> l[i] != '\n') && (l != "" ==> l[|l| - 1] != '\r')
  }

  /** Lines each with a terminator, LF or CRLF, the last one's optional. */
  function TextOf(ls: seq<string>, crlf: seq<bool>, open: bool): string
    requires |crlf| == |ls|
  {
    if ls == [] then ""
    else if |ls| == 1 && open then ls[0]
    else ls[0] + ((if crlf[0] then "\r\n" else "\n") + TextOf(ls[1..], crlf[1..], open))
  }

  lemma FirstLine(head: string, rest: string)
    requires forall i :: 0 <= i < |head| ==> head[i] != '\n'
    ensures Lines(head + ("\n" + rest)) == [StripCr(head)] + Lines(rest)
  {
    var s := head + ("\n" + rest);
    assert forall i :: 0 <= i < |head| ==> s[i] == head[i];
    assert s[|head|] == '\n';
    var i := IndexOf(s, {'\n'});
    assert i == |head| && s[..i] == head && s[i + 1..] == rest;
  }

  lemma Regroup(l: string, rest: string)
    ensures l + ("\r\n" + rest) == (l + "\r") + ("\n" + rest)
  {
    assert "\r\n" + rest == "\r" + ("\n" + rest);
    AppendIsAssociative(l, "\r", "\n" + rest);
  }

  lemma WithoutCr(l: string)
    ensures StripCr(l + "\r") == l
  {
  }

  lemma LineThenMore(l: string, crlf: bool, rest: string)
    requires OneLine(l)
    ensures Lines(l + ((if crlf then "\r\n" else "\n") + rest)) == [l] + Lines(rest)
  {
    if crlf {
      Regroup(l, rest);
      WithoutCr(l);
      FirstLine(l + "\r", rest);
    } else {
      FirstLine(l, rest);
    }
  }

  lemma OpenLine(l: string)
    requires OneLine(l) && l != ""
    ensures Lines(l) == [l]
  {
    assert IndexOf(l, {'\n'}) == |l|;
  }

  predicate AllLines(ls: seq<string>) {
    forall i :: 0 <= i < |ls| ==> OneLine(ls[i])
  }

  /** Every line of a text is read, whichever way it ends, the last one also when it does not. */
  lemma {:induction false} LinesOfText(ls: seq<string>, crlf: seq<bool>, open: bool)
    requires |crlf| == |ls| && AllLines(ls)
    requires open && ls != [] ==> ls[|ls| - 1] != ""
    ensures Lines(TextOf(ls, crlf, open)) == ls
    decreases |ls|
  {
    if |ls| == 1 && open {
      OpenLine(ls[0]);
    } else if ls != [] {
      var more, flags := ls[1..], crlf[1..];
      LinesOfText(more, flags, open);
      LineThenMore(ls[0], crlf[0], TextOf(more, flags, open));
      assert ls == [ls[0]] + more;
    }
  }
}
