/**
 Interleaved runs of the resolver: any number of requests, each advancing section by section, with
 list swaps, cache flushes, sweeps and request timeouts in between.
 */
module ResolverRuns {
  import opened Wrappers
  import opened Messages
  import opened AnswerCache
  import opened Blocklists
  import opened Forwarding
  import opened Resolvers
  import CacheHistory

  /** An upstream reply that was accepted for a request, and when it was offered to the cache. */
  datatype Accepted = Accepted(request: Message, reply: Reply, at: Instant)

  /** `overTcp` are the requests that came over a TCP session. */
  datatype Sys = Sys(shared: Shared, reqs: map<nat, Phase>, accepted: seq<Accepted>, overTcp: set<nat>)

  datatype Action =
    | Arrive(id: nat, wire: Wire, tcp: bool)
    | Check(id: nat)
    | Look(id: nat, now: Instant)
    | Answer(id: nat, upstreams: seq<Upstream>, evictNow: Instant, now: Instant)
    | Abandon(id: nat)
    | Drop(id: nat)
    | Swap(rebuilt: Matcher)
    | Flush
    | Sweep(now: Instant)

  datatype Setup = Setup(cfg: Config, lim: Limits)

  /** Request `id` moves to `phase`; the cache becomes `cache`. */
  function Advance(s: Sys, id: nat, name: string, phase: Phase, cache: Store): Sys {
    s.(shared := Moved(s.shared, name, phase).(cache := cache), reqs := s.reqs[id := phase])
  }

  /** A request is counted as it comes in. */
  function Taken(s: Sys, id: nat, tcp: bool): Sys {
    s.(shared := s.shared.(stats := s.shared.stats.(total := s.shared.stats.total + 1)),
       overTcp := s.overTcp + if tcp then {id} else {})
  }

  ghost predicate Next(u: Setup, s: Sys, a: Action, s': Sys) {
    match a
    case Arrive(id, wire, tcp) =>
      id !in s.reqs && s' == Advance(Taken(s, id, tcp), id, NameOf(wire), Begun(u.cfg, wire), s.shared.cache)
    case Check(id) =>
      && id in s.reqs && s.reqs[id].Checking? && s.reqs[id].msg.queries != []
      && var p := s.reqs[id];
         s' == Advance(s, id, p.name, Checked(u.cfg, s.shared.list, p.msg, p.name), s.shared.cache)
    case Look(id, now) =>
      && id in s.reqs && s.reqs[id].Looking? && s.reqs[id].msg.queries != []
      && var p := s.reqs[id];
         var cache := s'.shared.cache;
         && s' == Advance(s, id, p.name, LookedUp(u.cfg, s.shared.cache, p.msg, p.name, now), cache)
         && if u.cfg.cacheOn
            then Step(u.lim, s.shared.cache, Looked(KeyOf(p.msg, p.name), now), cache)
            else cache == s.shared.cache
    case Answer(id, upstreams, evictNow, now) =>
      && id in s.reqs && s.reqs[id].Awaiting? && s.reqs[id].msg.queries != []
      && exists r :: IsForwarded(s.reqs[id].msg, upstreams, r) && AnswerStep(u, s, id, r, evictNow, now, s')
    case Abandon(id) =>
      && id in s.reqs && s.reqs[id].Awaiting?
      && var p := s.reqs[id];
         s' == Advance(s, id, p.name, TimedOutPhase(u.cfg, p.msg), s.shared.cache)
    // A TCP session that outlives its limit is dropped with whatever it awaits: no code runs any more.
    case Drop(id) =>
      && id in s.reqs && s.reqs[id].Awaiting? && id in s.overTcp
      && s' == s.(reqs := s.reqs[id := Done(Encoded(s.reqs[id].msg), Dropped)])
    case Swap(rebuilt) => s' == s.(shared := s.shared.(list := rebuilt))
    case Flush => s' == s.(shared := s.shared.(cache := map[]))
    case Sweep(now) => s' == s.(shared := s.shared.(cache := Unexpired(s.shared.cache, now)))
  }

  /** The request is answered with what the upstreams yielded, which is offered to the cache. */
  ghost predicate AnswerStep(u: Setup, s: Sys, id: nat, r: Result<Reply, ForwardError>,
                             evictNow: Instant, now: Instant, s': Sys)
    requires id in s.reqs && s.reqs[id].Awaiting? && s.reqs[id].msg.queries != []
  {
    var p := s.reqs[id];
    var cache := s'.shared.cache;
    var moved := Advance(s, id, p.name, Answered(u.cfg, p.msg, r), cache);
    && s' == moved.(accepted := s.accepted + if r.Ok? then [Accepted(p.msg, r.value, now)] else [])
    && if u.cfg.cacheOn && r.Ok?
       then Step(u.lim, s.shared.cache, Inserted(KeyOf(p.msg, p.name), r.value.msg, evictNow, now), cache)
       else cache == s.shared.cache
  }

  ghost predicate Start(s: Sys) {
    s.shared.cache == map[] && s.shared.stats == Stats(0, 0, 0, 0, 0) && s.shared.log == []
    && s.reqs == map[] && s.accepted == [] && s.overTcp == {}
  }

  ghost predicate Run(u: Setup, acts: seq<Action>, ss: seq<Sys>) {
    && |ss| == |acts| + 1
    && Start(ss[0])
    && forall i :: 0 <= i < |acts| ==> NextAt(u, acts, ss, i)
  }

  ghost predicate NextAt(u: Setup, acts: seq<Action>, ss: seq<Sys>, i: int)
    requires 0 <= i < |acts| && |ss| == |acts| + 1
  {
    Next(u, ss[i], acts[i], ss[i + 1])
  }

  // ---- provenance --------------------------------------------------------

  /** The reply was accepted for a request that asked for this key, in these terms. */
  predicate AsksFor(a: Accepted, k: Key) {
    && AnswersRequest(a.request, a.reply.msg)
    && KeyFromRequest(a.request, CanonicalName(a.request.queries[0].name)) == Some(k)
    && (a.reply.via.Udp? ==> !a.reply.msg.truncated)
  }

  /** The entry is that reply, as the cache stores it. */
  predicate StoredFrom(lim: Limits, a: Accepted, e: Entry) {
    && Lifetime(a.reply.msg, lim).Some?
    && e == EntryOf(a.reply.msg, Lifetime(a.reply.msg, lim).value, a.at)
  }

  ghost predicate Grounded(lim: Limits, accepted: seq<Accepted>, k: Key, e: Entry) {
    exists i: nat :: i < |accepted| && AsksFor(accepted[i], k) && StoredFrom(lim, accepted[i], e)
  }

  /** Every cache entry is an accepted upstream reply to a request with that key. */
  ghost predicate CacheIsGrounded(u: Setup, s: Sys) {
    forall k :: k in s.shared.cache ==> Grounded(u.lim, s.accepted, k, s.shared.cache[k])
  }

  /** A reply served from the cache: this request's envelope around a grounded entry, aged. */
  ghost predicate ServedFromCache(u: Setup, accepted: seq<Accepted>, msg: Message, reply: Message) {
    && msg.queries != []
    && exists e, now ::
         && Grounded(u.lim, accepted, KeyOf(msg, CanonicalName(msg.queries[0].name)), e)
         && Live(e, now) && reply == Envelope(u.cfg, msg, Aged(e, now))
  }

  ghost predicate ServedFromUpstream(accepted: seq<Accepted>, msg: Message, reply: Message) {
    exists i: nat :: i < |accepted| && accepted[i].request == msg && accepted[i].reply.msg == reply
                     && AnswersRequest(msg, reply) && (accepted[i].reply.via.Udp? ==> !reply.truncated)
  }

  /** What a request at this phase has been through. */
  ghost predicate PhaseIsSound(u: Setup, accepted: seq<Accepted>, p: Phase) {
    match p
    case Done(Garbage, outcome) => outcome == Malformed
    case Done(Encoded(msg), outcome) =>
      (match outcome
       case Malformed => false
       case Rejected(reply) => Begun(u.cfg, Encoded(msg)) == p
       case Canary(reply) => Begun(u.cfg, Encoded(msg)) == p
       case Sunk(_, reply) => msg.queries != [] && reply == SinkholeReply(u.cfg, msg)
       case FromCache(reply) => ServedFromCache(u, accepted, msg, reply)
       case FromUpstream(reply) => ServedFromUpstream(accepted, msg, reply)
       case UpstreamFailed(reply) => reply == ErrorResponse(msg, ServFail, u.cfg.payloadLimit)
       case Abandoned(reply) => reply == ErrorResponse(msg, ServFail, u.cfg.payloadLimit)
       case Dropped => msg.queries != [])
    case _ => p.msg.queries != [] && p.name == CanonicalName(p.msg.queries[0].name)
  }

  ghost predicate RequestsAreSound(u: Setup, s: Sys) {
    forall id :: id in s.reqs ==> PhaseIsSound(u, s.accepted, s.reqs[id])
  }

  lemma GroundedGrows(lim: Limits, accepted: seq<Accepted>, more: seq<Accepted>, k: Key, e: Entry)
    requires Grounded(lim, accepted, k, e)
    ensures Grounded(lim, accepted + more, k, e)
  {
    var i: nat :| i < |accepted| && AsksFor(accepted[i], k) && StoredFrom(lim, accepted[i], e);
    assert (accepted + more)[i] == accepted[i];
  }

  lemma SoundnessGrows(u: Setup, accepted: seq<Accepted>, more: seq<Accepted>, p: Phase)
    requires PhaseIsSound(u, accepted, p)
    ensures PhaseIsSound(u, accepted + more, p)
  {
    if p.Done? && p.request.Encoded? {
      var msg := p.request.msg;
      if p.outcome.FromCache? {
        var k := KeyOf(msg, CanonicalName(msg.queries[0].name));
        var e, now :| Grounded(u.lim, accepted, k, e) && Live(e, now)
                      && p.outcome.reply == Envelope(u.cfg, msg, Aged(e, now));
        GroundedGrows(u.lim, accepted, more, k, e);
      } else if p.outcome.FromUpstream? {
        var reply := p.outcome.reply;
        var i: nat :| i < |accepted| && accepted[i].request == msg && accepted[i].reply.msg == reply
                      && AnswersRequest(msg, reply) && (accepted[i].reply.via.Udp? ==> !reply.truncated);
        assert (accepted + more)[i] == accepted[i];
      }
    }
  }

  // ---- every step keeps provenance ---------------------------------------

  lemma LookupIsSound(u: Setup, s: Sys, p: Phase, now: Instant)
    requires CacheIsGrounded(u, s) && p.Looking? && PhaseIsSound(u, s.accepted, p)
    ensures PhaseIsSound(u, s.accepted, LookedUp(u.cfg, s.shared.cache, p.msg, p.name, now))
  {
    var k := KeyOf(p.msg, p.name);
    if u.cfg.cacheOn && Hit(s.shared.cache, k, now).Some? {
      assert Grounded(u.lim, s.accepted, k, s.shared.cache[k]);
    }
  }

  lemma AnswerIsSound(u: Setup, s: Sys, id: nat, upstreams: seq<Upstream>, r: Result<Reply, ForwardError>,
                      now: Instant)
    requires id in s.reqs && s.reqs[id].Awaiting? && PhaseIsSound(u, s.accepted, s.reqs[id])
    requires IsForwarded(s.reqs[id].msg, upstreams, r)
    ensures var msg := s.reqs[id].msg;
            PhaseIsSound(u, s.accepted + (if r.Ok? then [Accepted(msg, r.value, now)] else []), Answered(u.cfg, msg, r))
  {
    if r.Ok? {
      var msg := s.reqs[id].msg;
      AcceptedRepliesAreGenuine(msg, upstreams, r);
      var accepted := s.accepted + [Accepted(msg, r.value, now)];
      assert accepted[|s.accepted|] == Accepted(msg, r.value, now);
      assert ServedFromUpstream(accepted, msg, r.value.msg);
    }
  }

  lemma CheckIsSound(u: Setup, s: Sys, p: Phase)
    requires p.Checking? && PhaseIsSound(u, s.accepted, p)
    ensures PhaseIsSound(u, s.accepted, Checked(u.cfg, s.shared.list, p.msg, p.name))
  {
  }

  lemma BegunIsSound(u: Setup, accepted: seq<Accepted>, wire: Wire)
    ensures PhaseIsSound(u, accepted, Begun(u.cfg, wire))
  {
  }

  /** The phase a step leads its request to is sound, on the replies accepted by then. */
  lemma NextPhaseIsSound(u: Setup, s: Sys, a: Action, s': Sys, id: nat)
    requires CacheIsGrounded(u, s) && RequestsAreSound(u, s) && Next(u, s, a, s')
    requires id in s'.reqs && !(id in s.reqs && s'.reqs[id] == s.reqs[id])
    ensures PhaseIsSound(u, s'.accepted, s'.reqs[id])
  {
    match a
    case Look(i, now) => LookupIsSound(u, s, s.reqs[i], now);
    case Answer(i, upstreams, evictNow, now) =>
      var r :| IsForwarded(s.reqs[i].msg, upstreams, r) && AnswerStep(u, s, i, r, evictNow, now, s');
      AnswerIsSound(u, s, i, upstreams, r, now);
    case Arrive(i, wire, _) => BegunIsSound(u, s.accepted, wire);
    case Check(i) => CheckIsSound(u, s, s.reqs[i]);
    case Abandon(i) =>
    case Drop(i) => assert PhaseIsSound(u, s.accepted, s.reqs[i]);
    case _ =>
  }

  lemma AcceptedGrows(u: Setup, s: Sys, a: Action, s': Sys)
    requires Next(u, s, a, s')
    ensures exists more :: s'.accepted == s.accepted + more
  {
    if a.Answer? {
      var r :| IsForwarded(s.reqs[a.id].msg, a.upstreams, r) && AnswerStep(u, s, a.id, r, a.evictNow, a.now, s');
    } else {
      assert s'.accepted == s.accepted + [];
    }
  }

  lemma NextKeepsRequestsSound(u: Setup, s: Sys, a: Action, s': Sys)
    requires CacheIsGrounded(u, s) && RequestsAreSound(u, s) && Next(u, s, a, s')
    ensures RequestsAreSound(u, s')
  {
    AcceptedGrows(u, s, a, s');
    var more :| s'.accepted == s.accepted + more;
    forall id | id in s'.reqs ensures PhaseIsSound(u, s'.accepted, s'.reqs[id]) {
      if id in s.reqs && s'.reqs[id] == s.reqs[id] {
        SoundnessGrows(u, s.accepted, more, s.reqs[id]);
      } else {
        NextPhaseIsSound(u, s, a, s', id);
      }
    }
  }

  lemma NextKeepsCacheGrounded(u: Setup, s: Sys, a: Action, s': Sys)
    requires CacheIsGrounded(u, s) && RequestsAreSound(u, s) && Next(u, s, a, s')
    ensures CacheIsGrounded(u, s')
  {
    AcceptedGrows(u, s, a, s');
    var more :| s'.accepted == s.accepted + more;
    forall k | k in s'.shared.cache ensures Grounded(u.lim, s'.accepted, k, s'.shared.cache[k]) {
      if a.Answer? {
        InsertIsGrounded(u, s, a, s', k);
      } else {
        if a.Look? && u.cfg.cacheOn {
          CacheHistory.StepOnlyForgets(u.lim, s.shared.cache, Looked(KeyOf(s.reqs[a.id].msg, s.reqs[a.id].name), a.now),
                                       s'.shared.cache, k);
        }
        GroundedGrows(u.lim, s.accepted, more, k, s.shared.cache[k]);
      }
    }
  }

  lemma InsertIsGrounded(u: Setup, s: Sys, a: Action, s': Sys, k: Key)
    requires CacheIsGrounded(u, s) && RequestsAreSound(u, s) && Next(u, s, a, s') && a.Answer?
    requires k in s'.shared.cache
    ensures Grounded(u.lim, s'.accepted, k, s'.shared.cache[k])
  {
    var p := s.reqs[a.id];
    var r :| IsForwarded(p.msg, a.upstreams, r) && AnswerStep(u, s, a.id, r, a.evictNow, a.now, s');
    var m, m' := s.shared.cache, s'.shared.cache;
    if u.cfg.cacheOn && r.Ok? {
      var ev := Inserted(KeyOf(p.msg, p.name), r.value.msg, a.evictNow, a.now);
      if CacheHistory.AcceptedInsert(u.lim, ev, k) {
        AcceptedRepliesAreGenuine(p.msg, a.upstreams, r);
        assert PhaseIsSound(u, s.accepted, p);
        CacheHistory.StepStores(u.lim, m, ev, m');
        var newest := s'.accepted[|s.accepted|];
        assert AsksFor(newest, k) && StoredFrom(u.lim, newest, m'[k]);
      } else {
        CacheHistory.StepOnlyForgets(u.lim, m, ev, m', k);
        GroundedGrows(u.lim, s.accepted, [Accepted(p.msg, r.value, a.now)], k, m[k]);
      }
    } else {
      GroundedGrows(u.lim, s.accepted, s'.accepted[|s.accepted|..], k, m[k]);
      assert s'.accepted == s.accepted + s'.accepted[|s.accepted|..];
    }
  }

  ghost function Last(ss: seq<Sys>): Sys
    requires ss != []
  {
    ss[|ss| - 1]
  }

  /** A run is a run of one step less, and a step. */
  lemma RunBefore(u: Setup, acts: seq<Action>, ss: seq<Sys>)
    requires Run(u, acts, ss) && acts != []
    ensures var n := |acts| - 1;
            Run(u, acts[..n], ss[..|acts|]) && Next(u, ss[n], acts[n], Last(ss)) && Last(ss[..|acts|]) == ss[n]
  {
    var n := |acts| - 1;
    forall i | 0 <= i < n ensures NextAt(u, acts[..n], ss[..|acts|], i) {
      assert NextAt(u, acts, ss, i);
    }
    assert NextAt(u, acts, ss, n);
  }

  /** In every interleaved run, every cache entry is an accepted upstream reply to a request for that
      very key, and every answered request got what its outcome says. */
  lemma {:induction false} RunIsSound(u: Setup, acts: seq<Action>, ss: seq<Sys>)
    requires Run(u, acts, ss)
    ensures CacheIsGrounded(u, Last(ss)) && RequestsAreSound(u, Last(ss))
    decreases |acts|
  {
    if acts != [] {
      var n := |acts| - 1;
      RunBefore(u, acts, ss);
      RunIsSound(u, acts[..n], ss[..|acts|]);
      NextKeepsRequestsSound(u, ss[n], acts[n], Last(ss));
      NextKeepsCacheGrounded(u, ss[n], acts[n], Last(ss));
    }
  }
}
