/** The promises of the resolver over whole runs: genuine answers, and blocking before caching. */
module ResolverSafety {
  import opened Wrappers
  import opened Messages
  import opened AnswerCache
  import opened Blocklists
  import opened Forwarding
  import opened Resolvers
  import opened ResolverRuns
  import Text
  import CacheHistory

  // ---- what the cache holds ----------------------------------------------

  /** The reply's question and the request's DNSSEC bits are exactly the key. */
  predicate MatchesKey(a: Accepted, k: Key) {
    && a.request.queries != [] && a.reply.msg.queries != []
    && CanonicalName(a.reply.msg.queries[0].name) == k.name
    && a.reply.msg.queries[0].qtype == k.qtype
    && a.reply.msg.queries[0].qclass == k.qclass
    && WantsDnssec(a.request) == k.dnssecOk
    && a.request.checkingDisabled == k.checkingDisabled
  }

  lemma AskingMatchesKey(a: Accepted, k: Key)
    requires AsksFor(a, k)
    ensures MatchesKey(a, k)
  {
    Text.FoldedNamesAgree(a.request.queries[0].name, a.reply.msg.queries[0].name);
  }

  /** Over any interleaving, an entry under key k is an upstream reply whose question is k, accepted
      for a request with k's DO and CD bits, and not a truncated UDP reply. */
  lemma CacheHoldsMatchingReplies(u: Setup, acts: seq<Action>, ss: seq<Sys>, k: Key)
    requires Run(u, acts, ss) && k in Last(ss).shared.cache
    ensures exists i: nat ::
              && i < |Last(ss).accepted|
              && MatchesKey(Last(ss).accepted[i], k)
              && StoredFrom(u.lim, Last(ss).accepted[i], Last(ss).shared.cache[k])
              && (Last(ss).accepted[i].reply.via.Udp? ==> !Last(ss).accepted[i].reply.msg.truncated)
  {
    RunIsSound(u, acts, ss);
    var s := Last(ss);
    assert Grounded(u.lim, s.accepted, k, s.shared.cache[k]);
    var i: nat :| i < |s.accepted| && AsksFor(s.accepted[i], k) && StoredFrom(u.lim, s.accepted[i], s.shared.cache[k]);
    AskingMatchesKey(s.accepted[i], k);
  }

  /** The shared cache never outgrows its limit, whatever interleaves. */
  lemma {:induction false} SharedCacheIsBounded(u: Setup, acts: seq<Action>, ss: seq<Sys>)
    requires 1 <= u.lim.maxEntries && Run(u, acts, ss)
    ensures |Last(ss).shared.cache| <= u.lim.maxEntries
    decreases |acts|
  {
    if acts != [] {
      var n := |acts| - 1;
      RunBefore(u, acts, ss);
      SharedCacheIsBounded(u, acts[..n], ss[..|acts|]);
      NextKeepsBound(u, ss[n], acts[n], Last(ss));
    }
  }

  lemma NextKeepsBound(u: Setup, s: Sys, a: Action, s': Sys)
    requires 1 <= u.lim.maxEntries && |s.shared.cache| <= u.lim.maxEntries && Next(u, s, a, s')
    ensures |s'.shared.cache| <= u.lim.maxEntries
  {
    match a
    case Look(id, now) =>
      if u.cfg.cacheOn {
        var key := KeyOf(s.reqs[id].msg, s.reqs[id].name);
        CacheHistory.StepKeepsBound(u.lim, s.shared.cache, Looked(key, now), s'.shared.cache);
      }
    case Answer(id, upstreams, evictNow, now) =>
      var p := s.reqs[id];
      var r :| IsForwarded(p.msg, upstreams, r) && AnswerStep(u, s, id, r, evictNow, now, s');
      if u.cfg.cacheOn && r.Ok? {
        var ev := Inserted(KeyOf(p.msg, p.name), r.value.msg, evictNow, now);
        CacheHistory.StepKeepsBound(u.lim, s.shared.cache, ev, s'.shared.cache);
      }
    case Sweep(now) => FilterSize(s.shared.cache, now);
    case _ =>
  }

  // ---- envelopes ---------------------------------------------------------

  /** The envelope is this client's own: id, question, RD and CD bits, OPT only if it sent one, with its DO
      bit and the largest payload that both sides take. */
  predicate OwnEnvelope(msg: Message, reply: Message, limit: u16) {
    && reply.id == msg.id && !reply.isQuery && reply.opcode == Query && reply.queries == msg.queries
    && !reply.truncated
    && reply.recursionDesired == msg.recursionDesired && reply.recursionAvailable
    && reply.checkingDisabled == msg.checkingDisabled
    && (reply.edns.Some? <==> msg.edns.Some?)
    && (reply.edns.Some? ==>
          && reply.edns.value.maxPayload <= limit && reply.edns.value.maxPayload <= msg.edns.value.maxPayload
          && (reply.edns.value.maxPayload == limit || reply.edns.value.maxPayload == msg.edns.value.maxPayload)
          && reply.edns.value.version == 0
          && reply.edns.value.dnssecOk == msg.edns.value.dnssecOk)
  }

  /** Every reply the resolver builds, cached ones included, wears the asking client's envelope. */
  lemma BuiltRepliesWearOwnEnvelope(u: Setup, acts: seq<Action>, ss: seq<Sys>, id: nat)
    requires Run(u, acts, ss)
    requires id in Last(ss).reqs && Last(ss).reqs[id].Done?
    requires var o := Last(ss).reqs[id].outcome; !o.Malformed? && !o.Dropped? && !o.FromUpstream?
    ensures var p := Last(ss).reqs[id];
            p.request.Encoded? && OwnEnvelope(p.request.msg, p.outcome.reply, u.cfg.payloadLimit)
  {
    RunIsSound(u, acts, ss);
    SoundReplyWearsOwnEnvelope(u, Last(ss).accepted, Last(ss).reqs[id]);
  }

  lemma SoundReplyWearsOwnEnvelope(u: Setup, accepted: seq<Accepted>, p: Phase)
    requires p.Done? && PhaseIsSound(u, accepted, p)
    requires !p.outcome.Malformed? && !p.outcome.Dropped? && !p.outcome.FromUpstream?
    ensures p.request.Encoded? && OwnEnvelope(p.request.msg, p.outcome.reply, u.cfg.payloadLimit)
  {
    match p.outcome
    case Rejected(_) => BegunReplyWearsOwnEnvelope(u.cfg, p.request);
    case Canary(_) => BegunReplyWearsOwnEnvelope(u.cfg, p.request);
    case FromCache(reply) => CachedReplyWearsOwnEnvelope(u, accepted, p.request.msg, reply);
    case _ =>
  }

  lemma BaseWearsOwnEnvelope(msg: Message, code: Code, limit: u16)
    ensures OwnEnvelope(msg, BaseResponse(msg, limit).(code := code), limit)
  {
  }

  lemma BegunReplyWearsOwnEnvelope(cfg: Config, wire: Wire)
    requires Begun(cfg, wire).Done? && wire.Encoded?
    ensures !Begun(cfg, wire).outcome.Malformed?
    ensures OwnEnvelope(wire.msg, Begun(cfg, wire).outcome.reply, cfg.payloadLimit)
  {
    BaseWearsOwnEnvelope(wire.msg, Code.Refused, cfg.payloadLimit);
    BaseWearsOwnEnvelope(wire.msg, FormErr, cfg.payloadLimit);
    BaseWearsOwnEnvelope(wire.msg, NXDomain, cfg.payloadLimit);
  }

  lemma CachedReplyWearsOwnEnvelope(u: Setup, accepted: seq<Accepted>, msg: Message, reply: Message)
    requires ServedFromCache(u, accepted, msg, reply)
    ensures OwnEnvelope(msg, reply, u.cfg.payloadLimit)
  {
  }

  // ---- blocking before caching -------------------------------------------

  /** A finished request stays finished, with the same answer. */
  lemma {:induction false} DoneStaysDone(u: Setup, acts: seq<Action>, ss: seq<Sys>, id: nat, i: nat, j: nat)
    requires Run(u, acts, ss) && i <= j < |ss|
    requires id in ss[i].reqs && ss[i].reqs[id].Done?
    ensures id in ss[j].reqs && ss[j].reqs[id] == ss[i].reqs[id]
    decreases j - i
  {
    if i < j {
      DoneStaysDone(u, acts, ss, id, i, j - 1);
      assert NextAt(u, acts, ss, j - 1);
      NextKeepsDone(u, ss[j - 1], acts[j - 1], ss[j], id);
    }
  }

  lemma NextKeepsDone(u: Setup, s: Sys, a: Action, s': Sys, id: nat)
    requires Next(u, s, a, s') && id in s.reqs && s.reqs[id].Done?
    ensures id in s'.reqs && s'.reqs[id] == s.reqs[id]
  {
    if a.Answer? {
      var r :| IsForwarded(s.reqs[a.id].msg, a.upstreams, r) && AnswerStep(u, s, a.id, r, a.evictNow, a.now, s');
    }
  }

  /** At step `i` request `id` reads the blocklist. */
  predicate ChecksName(acts: seq<Action>, ss: seq<Sys>, i: nat, id: nat) {
    && i < |acts| && i < |ss|
    && acts[i] == Check(id) && id in ss[i].reqs && ss[i].reqs[id].Checking? && ss[i].reqs[id].msg.queries != []
  }

  function NameAt(s: Sys, id: nat): string
    requires id in s.reqs && !s.reqs[id].Done?
  {
    s.reqs[id].name
  }

  /** Blocking beats caching: a request that finds its name blocked is sunk there and then, and that
      is its answer at every later moment, whatever the cache holds and whatever interleaves. */
  lemma BlockedReadIsSunk(u: Setup, acts: seq<Action>, ss: seq<Sys>, id: nat, i: nat, j: nat, list: string)
    requires Run(u, acts, ss) && i < |acts| && i < j < |ss|
    requires ChecksName(acts, ss, i, id) && NameAt(ss[i], id) != ""
    requires BlockedBy(ss[i].shared.list, NameAt(ss[i], id)) == Some(list)
    ensures id in ss[j].reqs
    ensures ss[j].reqs[id]
         == Done(Encoded(ss[i].reqs[id].msg), Sunk(list, SinkholeReply(u.cfg, ss[i].reqs[id].msg)))
  {
    assert NextAt(u, acts, ss, i);
    DoneStaysDone(u, acts, ss, id, i + 1, j);
  }

  /** The blocklist changes at swaps only. */
  lemma {:induction false} ListHoldsUntilSwapped(u: Setup, acts: seq<Action>, ss: seq<Sys>, i: nat, j: nat)
    requires Run(u, acts, ss) && i <= j < |ss|
    requires forall n :: i <= n < j ==> !acts[n].Swap?
    ensures ss[j].shared.list == ss[i].shared.list
    decreases j - i
  {
    if i < j {
      ListHoldsUntilSwapped(u, acts, ss, i, j - 1);
      var s, a, s' := ss[j - 1], acts[j - 1], ss[j];
      assert NextAt(u, acts, ss, j - 1);
      if a.Answer? {
        var r :| IsForwarded(s.reqs[a.id].msg, a.upstreams, r) && AnswerStep(u, s, a.id, r, a.evictNow, a.now, s');
      }
    }
  }

  /** After a swap that blocks a name, every request checked before the next swap is sunk, even if a
      request in flight puts an answer for that name back into the cache after the flush. */
  lemma SwappedInBlockTakesEffect(u: Setup, acts: seq<Action>, ss: seq<Sys>, swap: nat, check: nat, id: nat,
                                  j: nat, list: string)
    requires Run(u, acts, ss) && swap < check < |acts| && check < j < |ss|
    requires acts[swap].Swap? && forall n :: swap < n < check ==> !acts[n].Swap?
    requires ChecksName(acts, ss, check, id) && NameAt(ss[check], id) != ""
    requires BlockedBy(acts[swap].rebuilt, NameAt(ss[check], id)) == Some(list)
    ensures id in ss[j].reqs
    ensures ss[j].reqs[id]
         == Done(Encoded(ss[check].reqs[id].msg), Sunk(list, SinkholeReply(u.cfg, ss[check].reqs[id].msg)))
  {
    assert NextAt(u, acts, ss, swap);
    ListHoldsUntilSwapped(u, acts, ss, swap + 1, check);
    BlockedReadIsSunk(u, acts, ss, id, check, j, list);
  }

  /** A request that got past the blocklist. */
  predicate Passed(p: Phase) {
    p.Looking? || p.Awaiting?
    || (p.Done? && (p.outcome.FromCache? || p.outcome.FromUpstream?
                    || p.outcome.UpstreamFailed? || p.outcome.Abandoned? || p.outcome.Dropped?))
  }

  lemma {:induction false} PassedStaysPassed(u: Setup, acts: seq<Action>, ss: seq<Sys>, id: nat, i: nat, j: nat)
    requires Run(u, acts, ss) && i <= j < |ss|
    requires id in ss[i].reqs && Passed(ss[i].reqs[id])
    ensures id in ss[j].reqs && Passed(ss[j].reqs[id])
    decreases j - i
  {
    if i < j {
      PassedStaysPassed(u, acts, ss, id, i, j - 1);
      var s, a, s' := ss[j - 1], acts[j - 1], ss[j];
      assert NextAt(u, acts, ss, j - 1);
      if a.Answer? {
        var r :| IsForwarded(s.reqs[a.id].msg, a.upstreams, r) && AnswerStep(u, s, a.id, r, a.evictNow, a.now, s');
      }
    }
  }

  /** The reply is an upstream's, one served from the cache that an upstream gave for the same question, or
      SERVFAIL; or there is none, its session having been dropped. */
  ghost predicate IsGenuine(u: Setup, accepted: seq<Accepted>, p: Phase) {
    && p.Done? && p.request.Encoded?
    && (|| (p.outcome.FromCache? && ServedFromCache(u, accepted, p.request.msg, p.outcome.reply))
        || (p.outcome.FromUpstream? && ServedFromUpstream(accepted, p.request.msg, p.outcome.reply))
        || ((p.outcome.UpstreamFailed? || p.outcome.Abandoned?)
            && p.outcome.reply == ErrorResponse(p.request.msg, ServFail, u.cfg.payloadLimit))
        || p.outcome.Dropped?)
  }

  lemma PassedIsGenuine(u: Setup, accepted: seq<Accepted>, p: Phase)
    requires p.Done? && Passed(p) && PhaseIsSound(u, accepted, p)
    ensures IsGenuine(u, accepted, p)
  {
  }

  lemma CheckPasses(u: Setup, acts: seq<Action>, ss: seq<Sys>, id: nat, i: nat)
    requires Run(u, acts, ss) && i < |acts| && ChecksName(acts, ss, i, id)
    requires NameAt(ss[i], id) == "" || BlockedBy(ss[i].shared.list, NameAt(ss[i], id)) == None
    ensures id in ss[i + 1].reqs && Passed(ss[i + 1].reqs[id])
  {
    assert NextAt(u, acts, ss, i);
  }

  lemma UnblockedReadPasses(u: Setup, acts: seq<Action>, ss: seq<Sys>, id: nat, i: nat)
    requires Run(u, acts, ss) && i < |acts| && ChecksName(acts, ss, i, id)
    requires NameAt(ss[i], id) == "" || BlockedBy(ss[i].shared.list, NameAt(ss[i], id)) == None
    ensures id in Last(ss).reqs && Passed(Last(ss).reqs[id])
  {
    CheckPasses(u, acts, ss, id, i);
    PassedStaysPassed(u, acts, ss, id, i + 1, |ss| - 1);
  }

  lemma LastPhaseIsSound(u: Setup, acts: seq<Action>, ss: seq<Sys>, id: nat)
    requires Run(u, acts, ss) && id in Last(ss).reqs
    ensures PhaseIsSound(u, Last(ss).accepted, Last(ss).reqs[id])
  {
    RunIsSound(u, acts, ss);
  }

  /** A request that reads its name as not blocked never receives a stale sinkhole. */
  lemma UnblockedReadIsGenuine(u: Setup, acts: seq<Action>, ss: seq<Sys>, id: nat, i: nat)
    requires Run(u, acts, ss) && i < |acts| && ChecksName(acts, ss, i, id)
    requires NameAt(ss[i], id) == "" || BlockedBy(ss[i].shared.list, NameAt(ss[i], id)) == None
    requires id in Last(ss).reqs && Last(ss).reqs[id].Done?
    ensures IsGenuine(u, Last(ss).accepted, Last(ss).reqs[id])
  {
    UnblockedReadPasses(u, acts, ss, id, i);
    LastPhaseIsSound(u, acts, ss, id);
    PassedIsGenuine(u, Last(ss).accepted, Last(ss).reqs[id]);
  }
}
