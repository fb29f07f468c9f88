/** Question names as clients spell them, over any interleaved run: against the blocklist, and as keys of the
    cache. */
module ResolverNames {
  import opened Wrappers
  import opened Messages
  import opened AnswerCache
  import opened Blocklists
  import opened Resolvers
  import opened ResolverRuns
  import opened ResolverSafety
  import opened NameSpelling
  import opened BlocklistMeaning
  import C = ResolverCache
  import F = ListFormats
  import ListRules

  lemma NameIsSpelled(u: Setup, acts: seq<Action>, ss: seq<Sys>, n: nat, id: nat)
    requires Run(u, acts, ss) && n <= |acts| && id in ss[n].reqs && !ss[n].reqs[id].Done?
    ensures ss[n].reqs[id].msg.queries != []
    ensures Spells(ss[n].reqs[id].msg.queries[0].name, NameAt(ss[n], id))
  {
    C.RunUpTo(u, acts, ss, n);
    RunIsSound(u, acts[..n], ss[..n + 1]);
    assert PhaseIsSound(u, ss[n].accepted, ss[n].reqs[id]);
    CanonicalNameIff(ss[n].reqs[id].msg.queries[0].name, NameAt(ss[n], id));
  }

  lemma OneSpelling(name: string, a: string, b: string)
    requires Spells(name, a) && Spells(name, b)
    ensures a == b
  {
    CanonicalNameIff(name, a);
    CanonicalNameIff(name, b);
  }

  /** A question for `d`, in whatever letter case and with however many dots behind it, is sunk for good
      exactly when the list that it reads blocks `d`, and then for that list; otherwise it never is. */
  lemma SpelledNameDecides(u: Setup, acts: seq<Action>, ss: seq<Sys>, id: nat, i: nat, j: nat, d: string)
    requires Run(u, acts, ss) && i < |acts| && i < j < |ss| && ChecksName(acts, ss, i, id)
    requires Spells(ss[i].reqs[id].msg.queries[0].name, d)
    ensures id in ss[j].reqs
    ensures if d != "" && BlockedBy(ss[i].shared.list, d).Some? then
              && ss[j].reqs[id].Done? && ss[j].reqs[id].request == Encoded(ss[i].reqs[id].msg)
              && ss[j].reqs[id].outcome.Sunk?
              && Some(ss[j].reqs[id].outcome.list) == BlockedBy(ss[i].shared.list, d)
            else !(ss[j].reqs[id].Done? && ss[j].reqs[id].outcome.Sunk?)
  {
    NameIsSpelled(u, acts, ss, i, id);
    OneSpelling(ss[i].reqs[id].msg.queries[0].name, d, NameAt(ss[i], id));
    match BlockedBy(ss[i].shared.list, d)
    case Some(list) =>
      if d != "" {
        BlockedReadIsSunk(u, acts, ss, id, i, j, list);
      } else {
        PassesOn(u, acts, ss, id, i, j);
      }
    case None => PassesOn(u, acts, ss, id, i, j);
  }

  lemma PassesOn(u: Setup, acts: seq<Action>, ss: seq<Sys>, id: nat, i: nat, j: nat)
    requires Run(u, acts, ss) && i < |acts| && i < j < |ss| && ChecksName(acts, ss, i, id)
    requires NameAt(ss[i], id) == "" || BlockedBy(ss[i].shared.list, NameAt(ss[i], id)) == None
    ensures id in ss[j].reqs && Passed(ss[j].reqs[id])
  {
    CheckPasses(u, acts, ss, id, i);
    PassedStaysPassed(u, acts, ss, id, i + 1, j);
  }

  predicate SameQuestion(a: Message, b: Message)
    requires a.queries != [] && b.queries != []
  {
    a.queries[0].qtype == b.queries[0].qtype && a.queries[0].qclass == b.queries[0].qclass
  }

  /** The DO bit, which a request without OPT has not set, and the CD bit. */
  predicate SameTerms(a: Message, b: Message) {
    && ((a.edns.Some? && a.edns.value.dnssecOk) <==> (b.edns.Some? && b.edns.value.dnssecOk))
    && a.checkingDisabled == b.checkingDisabled
  }

  /** Two lookups go by one key exactly when their questions are spelled alike but for letter case and
      trailing dots, for one type and class, and in the same terms. */
  lemma OneKeyIff(u: Setup, acts: seq<Action>, ss: seq<Sys>, m: nat, a: nat, n: nat, b: nat, at: Instant, bt: Instant)
    requires Run(u, acts, ss) && C.LooksUp(acts, ss, m, a, at) && C.LooksUp(acts, ss, n, b, bt)
    ensures var p, q := ss[m].reqs[a].msg, ss[n].reqs[b].msg;
            C.KeyAt(ss[m], a) == C.KeyAt(ss[n], b)
            <==> && (exists d :: Spells(p.queries[0].name, d) && Spells(q.queries[0].name, d))
                 && SameQuestion(p, q) && SameTerms(p, q)
  {
    NameIsSpelled(u, acts, ss, m, a);
    NameIsSpelled(u, acts, ss, n, b);
    var p, q := ss[m].reqs[a].msg, ss[n].reqs[b].msg;
    if d :| Spells(p.queries[0].name, d) && Spells(q.queries[0].name, d) {
      OneSpelling(p.queries[0].name, d, NameAt(ss[m], a));
      OneSpelling(q.queries[0].name, d, NameAt(ss[n], b));
    }
  }

  lemma ReadsSwappedList(u: Setup, acts: seq<Action>, ss: seq<Sys>, swap: nat, check: nat)
    requires Run(u, acts, ss) && swap < check < |acts|
    requires acts[swap].Swap? && forall n :: swap < n < check ==> !acts[n].Swap?
    ensures ss[check].shared.list == acts[swap].rebuilt
  {
    assert NextAt(u, acts, ss, swap);
    ListHoldsUntilSwapped(u, acts, ss, swap + 1, check);
  }

  /** From list text to the client: once a build with a line `||d^` in a block list is swapped in, every question
      for `d` or a name beneath it, however spelled, that is checked before the next swap is sunk for good,
      unless the build allows the name. */
  lemma ListedDomainIsSunk(u: Setup, acts: seq<Action>, ss: seq<Sys>, swap: nat, check: nat, j: nat, id: nat,
                           lists: seq<List>, ms: seq<Matcher>, d: string, tail: string, x: string)
    requires Run(u, acts, ss) && swap < check < |acts| && check < j < |ss|
    requires Build(lists, ms) && acts[swap] == Swap(Built(ms)) && forall n :: swap < n < check ==> !acts[n].Swap?
    requires ListRules.Canonical(d) && F.PlainTail(tail) && HasLine(lists, F.Anchored(d, tail, false), false)
    requires ChecksName(acts, ss, check, id) && Spells(ss[check].reqs[id].msg.queries[0].name, x)
    requires F.Beneath(x, d) && !Allowed(Built(ms), x)
    ensures id in ss[j].reqs && ss[j].reqs[id].Done? && ss[j].reqs[id].outcome.Sunk?
  {
    ReadsSwappedList(u, acts, ss, swap, check);
    F.AnchoredRuleDecides(lists, ms, d, tail, false, false, x);
    SpelledNameDecides(u, acts, ss, id, check, j, x);
  }
}
