/** The interleaved runs of the resolver against the plain history of the cache: what a cached reply is,
    when one is served, and what its additional records can do. */
module ResolverCache {
  import opened Wrappers
  import opened Messages
  import opened AnswerCache
  import opened Blocklists
  import opened Forwarding
  import opened Resolvers
  import opened ResolverRuns
  import opened ResolverSafety
  import H = CacheHistory
  import M = CacheMeaning

  // ---- a resolver run as a cache run -------------------------------------

  /** What a step of the resolver does to the cache, if anything. */
  function CacheEvent(u: Setup, s: Sys, a: Action, s': Sys): seq<Event> {
    match a
    case Look(id, now) =>
      if u.cfg.cacheOn && id in s.reqs && s.reqs[id].Looking? && s.reqs[id].msg.queries != [] then
        [Looked(KeyOf(s.reqs[id].msg, s.reqs[id].name), now)]
      else []
    case Answer(id, _, evictNow, now) =>
      if u.cfg.cacheOn && id in s.reqs && s.reqs[id].Awaiting? && s.reqs[id].msg.queries != []
         && |s'.accepted| > |s.accepted|
      then [Inserted(KeyOf(s.reqs[id].msg, s.reqs[id].name), s'.accepted[|s'.accepted| - 1].reply.msg, evictNow, now)]
      else []
    case Flush => [Cleared]
    case Sweep(now) => [Swept(now)]
    case _ => []
  }

  function CacheEvents(u: Setup, acts: seq<Action>, ss: seq<Sys>): seq<Event>
    requires |ss| == |acts| + 1
  {
    if acts == [] then []
    else
      var n := |acts| - 1;
      CacheEvents(u, acts[..n], ss[..|acts|]) + CacheEvent(u, ss[n], acts[n], ss[n + 1])
  }

  lemma CacheEventIsStep(u: Setup, s: Sys, a: Action, s': Sys)
    requires Next(u, s, a, s')
    ensures var e := CacheEvent(u, s, a, s');
            if e == [] then s'.shared.cache == s.shared.cache
            else |e| == 1 && Step(u.lim, s.shared.cache, e[0], s'.shared.cache)
  {
    if a.Answer? {
      var r :| IsForwarded(s.reqs[a.id].msg, a.upstreams, r) && AnswerStep(u, s, a.id, r, a.evictNow, a.now, s');
    }
  }

  lemma CacheRunGrows(lim: Limits, h: seq<Event>, ms: seq<Store>, ev: Event, m': Store)
    requires H.Run(lim, h, ms) && Step(lim, H.Final(ms), ev, m')
    ensures H.Run(lim, h + [ev], ms + [m']) && H.Final(ms + [m']) == m'
  {
    forall i | 0 <= i < |h + [ev]| ensures H.StepAt(lim, h + [ev], ms + [m'], i) {
      assert i < |h| ==> H.StepAt(lim, h, ms, i);
    }
  }

  /** Every interleaved run drives the cache through a run of its own. */
  lemma {:induction false} RunDrivesCache(u: Setup, acts: seq<Action>, ss: seq<Sys>) returns (ms: seq<Store>)
    requires Run(u, acts, ss)
    ensures H.Run(u.lim, CacheEvents(u, acts, ss), ms) && H.Final(ms) == Last(ss).shared.cache
    decreases |acts|
  {
    if acts == [] {
      ms := [map[]];
    } else {
      var n := |acts| - 1;
      RunBefore(u, acts, ss);
      var before := RunDrivesCache(u, acts[..n], ss[..|acts|]);
      CacheEventIsStep(u, ss[n], acts[n], ss[n + 1]);
      var h, e := CacheEvents(u, acts[..n], ss[..|acts|]), CacheEvent(u, ss[n], acts[n], ss[n + 1]);
      if e == [] {
        assert h + e == h;
        ms := before;
      } else {
        assert e == [e[0]];
        CacheRunGrows(u.lim, h, before, e[0], ss[n + 1].shared.cache);
        ms := before + [ss[n + 1].shared.cache];
      }
    }
  }

  // ---- what a cached reply is --------------------------------------------

  /** At step `n` request `id` looks in the cache, at `now`. */
  predicate LooksUp(acts: seq<Action>, ss: seq<Sys>, n: nat, id: nat, now: Instant) {
    && n < |acts| && |ss| == |acts| + 1
    && acts[n] == Look(id, now) && id in ss[n].reqs && ss[n].reqs[id].Looking? && ss[n].reqs[id].msg.queries != []
  }

  function PastEvents(u: Setup, acts: seq<Action>, ss: seq<Sys>, n: nat): seq<Event>
    requires |ss| == |acts| + 1 && n <= |acts|
  {
    CacheEvents(u, acts[..n], ss[..n + 1])
  }

  function KeyAt(s: Sys, id: nat): Key
    requires id in s.reqs && s.reqs[id].Looking? && s.reqs[id].msg.queries != []
  {
    KeyOf(s.reqs[id].msg, s.reqs[id].name)
  }

  lemma RunUpTo(u: Setup, acts: seq<Action>, ss: seq<Sys>, n: nat)
    requires Run(u, acts, ss) && n <= |acts|
    ensures Run(u, acts[..n], ss[..n + 1]) && Last(ss[..n + 1]) == ss[n]
  {
    var past, states := acts[..n], ss[..n + 1];
    forall i | 0 <= i < n ensures NextAt(u, past, states, i) {
      assert NextAt(u, acts, ss, i);
    }
  }

  lemma LookAnswers(u: Setup, acts: seq<Action>, ss: seq<Sys>, n: nat, id: nat, now: Instant)
    requires Run(u, acts, ss) && LooksUp(acts, ss, n, id, now)
    ensures id in ss[n + 1].reqs
    ensures ss[n + 1].reqs[id] == LookedUp(u.cfg, ss[n].shared.cache, ss[n].reqs[id].msg, ss[n].reqs[id].name, now)
  {
    assert NextAt(u, acts, ss, n);
  }

  /** The reply is what is left of this upstream reply at `now`, which is before its lifetime is over, in the
      request's own envelope: code, authority bit, the answers and authorities counted down by exactly the
      whole seconds since, and the additional records but OPT. */
  ghost predicate RepliesWith(u: Setup, ev: Event, msg: Message, now: Instant, reply: Message)
    requires ev.Inserted?
  {
    && M.StillGood(u.lim, ev.msg, ev.now, now)
    && OwnEnvelope(msg, reply, u.cfg.payloadLimit)
    && reply.code == ev.msg.code && reply.authoritative == ev.msg.authoritative
    && M.IsLeftOf(ev.msg, ev.now, now, reply.answers, reply.authorities, reply.additionals)
  }

  lemma EntryReplies(u: Setup, ev: Event, msg: Message, now: Instant, reply: Message)
    requires ev.Inserted? && Lifetime(ev.msg, u.lim).Some? && Live(H.EntryAt(u.lim, ev), now)
    requires reply == Envelope(u.cfg, msg, Aged(H.EntryAt(u.lim, ev), now))
    ensures RepliesWith(u, ev, msg, now, reply)
  {
    M.LiveMeans(u.lim, ev.msg, ev.now, now);
    M.HitIsLeftOfReply(u.lim, ev.msg, ev.now, now);
  }

  /** A cached reply is the latest cacheable upstream reply for its key since the last flush, whatever
      interleaves. */
  lemma CachedReplyIsLatest(u: Setup, acts: seq<Action>, ss: seq<Sys>, n: nat, id: nat, now: Instant, reply: Message)
    requires 1 <= u.lim.maxEntries && Run(u, acts, ss) && LooksUp(acts, ss, n, id, now)
    requires id in ss[n + 1].reqs && ss[n + 1].reqs[id] == Done(Encoded(ss[n].reqs[id].msg), FromCache(reply))
    ensures var h := PastEvents(u, acts, ss, n);
            exists i: nat :: H.IsLatest(u.lim, h, KeyAt(ss[n], id), i)
                             && RepliesWith(u, h[i], ss[n].reqs[id].msg, now, reply)
  {
    RunUpTo(u, acts, ss, n);
    var h := PastEvents(u, acts, ss, n);
    var ms := RunDrivesCache(u, acts[..n], ss[..n + 1]);
    LookAnswers(u, acts, ss, n, id, now);
    var key := KeyAt(ss[n], id);
    H.RunRefinesHistory(u.lim, h, ms);
    var i: nat :| H.IsLatest(u.lim, h, key, i) && ss[n].shared.cache[key] == H.EntryAt(u.lim, h[i]);
    EntryReplies(u, h[i], ss[n].reqs[id].msg, now, reply);
  }

  /** And every insert in that history is an upstream reply the resolver accepted for that key. */
  lemma {:induction false} InsertsAreAccepted(u: Setup, acts: seq<Action>, ss: seq<Sys>, ev: Event)
    requires Run(u, acts, ss) && ev in CacheEvents(u, acts, ss) && ev.Inserted?
    ensures exists i: nat :: i < |Last(ss).accepted| && InsertedFrom(Last(ss).accepted[i], ev)
    decreases |acts|
  {
    var n := |acts| - 1;
    RunBefore(u, acts, ss);
    RunIsSound(u, acts[..n], ss[..|acts|]);
    if ev in CacheEvents(u, acts[..n], ss[..|acts|]) {
      InsertsAreAccepted(u, acts[..n], ss[..|acts|], ev);
      AcceptedGrows(u, ss[n], acts[n], Last(ss));
      var i: nat :| i < |ss[n].accepted| && InsertedFrom(ss[n].accepted[i], ev);
      assert Last(ss).accepted[i] == ss[n].accepted[i];
    } else {
      NewInsertIsAccepted(u, ss[n], acts[n], Last(ss), ev);
    }
  }

  predicate InsertedFrom(a: Accepted, ev: Event)
    requires ev.Inserted?
  {
    AsksFor(a, ev.key) && a.reply.msg == ev.msg && a.at == ev.now
  }

  lemma NewInsertIsAccepted(u: Setup, s: Sys, a: Action, s': Sys, ev: Event)
    requires Next(u, s, a, s') && RequestsAreSound(u, s) && ev in CacheEvent(u, s, a, s') && ev.Inserted?
    ensures |s'.accepted| > 0 && InsertedFrom(s'.accepted[|s'.accepted| - 1], ev)
  {
    var p := s.reqs[a.id];
    assert PhaseIsSound(u, s.accepted, p);
    var r :| IsForwarded(p.msg, a.upstreams, r) && AnswerStep(u, s, a.id, r, a.evictNow, a.now, s');
    AcceptedRepliesAreGenuine(p.msg, a.upstreams, r);
  }

  /** Conversely, while the cache is never full of live entries, a request is answered from the cache
      exactly when the latest cacheable reply for its key is still good. */
  lemma RoomyLookIsExact(u: Setup, acts: seq<Action>, ss: seq<Sys>, n: nat, id: nat, now: Instant,
                         ms: seq<Store>, i: nat)
    requires 1 <= u.lim.maxEntries && u.cfg.cacheOn && Run(u, acts, ss) && LooksUp(acts, ss, n, id, now)
    requires var h := PastEvents(u, acts, ss, n);
             && H.Run(u.lim, h, ms) && H.Final(ms) == ss[n].shared.cache
             && (forall j :: 0 <= j < |h| ==> !H.Sheds(u.lim, ms[j], h[j]) && H.ReadBefore(h[j], now))
             && H.IsLatest(u.lim, h, KeyAt(ss[n], id), i)
    ensures id in ss[n + 1].reqs
    ensures var ev := PastEvents(u, acts, ss, n)[i];
            ss[n + 1].reqs[id].Done? <==> M.StillGood(u.lim, ev.msg, ev.now, now)
  {
    LookAnswers(u, acts, ss, n, id, now);
    var h := PastEvents(u, acts, ss, n);
    H.RoomyCacheIsExact(u.lim, h, ms, KeyAt(ss[n], id), now, i);
    M.LiveMeans(u.lim, h[i].msg, h[i].now, now);
  }

  /** And whatever the load, a request goes upstream past a reply that is still good only when the cache, full
      of live entries, shed that reply to make room, as one of those to expire soonest. */
  lemma GoodReplyIsServedUnlessShed(u: Setup, acts: seq<Action>, ss: seq<Sys>, n: nat, id: nat, now: Instant, i: nat)
      returns (ms: seq<Store>)
    requires 1 <= u.lim.maxEntries && u.cfg.cacheOn && Run(u, acts, ss) && LooksUp(acts, ss, n, id, now)
    requires var h := PastEvents(u, acts, ss, n);
             && H.IsLatest(u.lim, h, KeyAt(ss[n], id), i) && M.StillGood(u.lim, h[i].msg, h[i].now, now)
             && forall j :: 0 <= j < |h| ==> H.ReadBefore(h[j], now)
    requires id in ss[n + 1].reqs && !ss[n + 1].reqs[id].Done?
    ensures var h := PastEvents(u, acts, ss, n);
            && H.Run(u.lim, h, ms) && H.Final(ms) == ss[n].shared.cache
            && exists j: nat :: i < j < |h| && M.ShedsFor(u.lim, ms[j], h[j], ms[j + 1], KeyAt(ss[n], id))
  {
    RunUpTo(u, acts, ss, n);
    ms := RunDrivesCache(u, acts[..n], ss[..n + 1]);
    LookAnswers(u, acts, ss, n, id, now);
    M.MissingReplyWasShed(u.lim, PastEvents(u, acts, ss, n), ms, KeyAt(ss[n], id), now, i);
  }

  // ---- a run that outlives a grant ---------------------------------------

  lemma Extend(u: Setup, acts: seq<Action>, ss: seq<Sys>, a: Action, s': Sys)
    requires Run(u, acts, ss) && Next(u, Last(ss), a, s')
    ensures Run(u, acts + [a], ss + [s']) && Last(ss + [s']) == s'
  {
    forall i | 0 <= i < |acts + [a]| ensures NextAt(u, acts + [a], ss + [s'], i) {
      assert i < |acts| ==> NextAt(u, acts, ss, i);
    }
  }

  /** A request that nothing stops before the cache. */
  ghost predicate Unhindered(u: Setup, list: Matcher, msg: Message) {
    && Begun(u.cfg, Encoded(msg)).Checking?
    && var name := CanonicalName(msg.queries[0].name);
       name == "" || BlockedBy(list, name) == None
  }

  lemma Ask(u: Setup, acts: seq<Action>, ss: seq<Sys>, id: nat, msg: Message, tcp: bool)
      returns (acts': seq<Action>, ss': seq<Sys>)
    requires Run(u, acts, ss) && id !in Last(ss).reqs && Unhindered(u, Last(ss).shared.list, msg)
    ensures Run(u, acts', ss') && Last(ss').reqs.Keys == Last(ss).reqs.Keys + {id}
    ensures Last(ss').reqs[id] == Looking(msg, CanonicalName(msg.queries[0].name))
    ensures Last(ss').shared.list == Last(ss).shared.list && Last(ss').shared.cache == Last(ss).shared.cache
    ensures tcp ==> id in Last(ss').overTcp
  {
    var s, name := Last(ss), CanonicalName(msg.queries[0].name);
    var s1 := Advance(Taken(s, id, tcp), id, NameOf(Encoded(msg)), Begun(u.cfg, Encoded(msg)), s.shared.cache);
    Extend(u, acts, ss, Arrive(id, Encoded(msg), tcp), s1);
    var s2 := Advance(s1, id, name, Checked(u.cfg, s1.shared.list, msg, name), s1.shared.cache);
    Extend(u, acts + [Arrive(id, Encoded(msg), tcp)], ss + [s1], Check(id), s2);
    acts', ss' := acts + [Arrive(id, Encoded(msg), tcp)] + [Check(id)], ss + [s1] + [s2];
  }

  /** Looking in a cache that has the key live, or not at all. */
  lemma LookNow(u: Setup, acts: seq<Action>, ss: seq<Sys>, id: nat, msg: Message, name: string, now: Instant)
      returns (acts': seq<Action>, ss': seq<Sys>)
    requires Run(u, acts, ss) && u.cfg.cacheOn && msg.queries != []
    requires id in Last(ss).reqs && Last(ss).reqs[id] == Looking(msg, name)
    requires var m := Last(ss).shared.cache; KeyOf(msg, name) in m ==> Live(m[KeyOf(msg, name)], now)
    ensures Run(u, acts', ss') && Last(ss').reqs.Keys == Last(ss).reqs.Keys
    ensures Last(ss').reqs[id] == LookedUp(u.cfg, Last(ss).shared.cache, msg, name, now)
    ensures Last(ss').shared.list == Last(ss).shared.list && Last(ss').shared.cache == Last(ss).shared.cache
    ensures Last(ss').overTcp == Last(ss).overTcp
  {
    var s := Last(ss);
    var s' := Advance(s, id, name, LookedUp(u.cfg, s.shared.cache, msg, name, now), s.shared.cache);
    assert s'.reqs.Keys == s.reqs.Keys;
    Extend(u, acts, ss, Look(id, now), s');
    acts', ss' := acts + [Look(id, now)], ss + [s'];
  }

  lemma AnswerNow(u: Setup, acts: seq<Action>, ss: seq<Sys>, id: nat, msg: Message, name: string, reply: Message)
      returns (acts': seq<Action>, ss': seq<Sys>)
    requires Run(u, acts, ss) && u.cfg.cacheOn && msg.queries != []
    requires id in Last(ss).reqs && Last(ss).reqs[id] == Awaiting(msg, name)
    requires AnswersRequest(msg, reply) && !reply.truncated && Lifetime(reply, u.lim).Some?
    requires |Last(ss).shared.cache| < u.lim.maxEntries
    ensures Run(u, acts', ss') && Last(ss').reqs.Keys == Last(ss).reqs.Keys
    ensures Last(ss').shared.list == Last(ss).shared.list
    ensures Last(ss').shared.cache
         == Last(ss).shared.cache[KeyOf(msg, name) := EntryOf(reply, Lifetime(reply, u.lim).value, 0)]
  {
    var s, upstreams := Last(ss), [UdpReplied(Encoded(reply), TcpSlow)];
    var r := Ok(Reply(reply, Udp));
    assert Attempt(msg, upstreams[0]) == r;
    assert IsForwarded(msg, upstreams, r);
    var cache := s.shared.cache[KeyOf(msg, name) := EntryOf(reply, Lifetime(reply, u.lim).value, 0)];
    var s' := Advance(s, id, name, Answered(u.cfg, msg, r), cache)
              .(accepted := s.accepted + [Accepted(msg, r.value, 0)]);
    assert s'.reqs.Keys == s.reqs.Keys;
    assert AnswerStep(u, s, id, r, 0, 0, s');
    Extend(u, acts, ss, Answer(id, upstreams, 0, 0), s');
    acts', ss' := acts + [Answer(id, upstreams, 0, 0)], ss + [s'];
  }

  /** Any reply that the resolver accepts and caches can be served again: a first request brings it in, and
      a second one at `now` gets it from the cache. */
  lemma ReplyIsServedAgain(u: Setup, list: Matcher, msg: Message, reply: Message, now: Instant)
      returns (acts: seq<Action>, ss: seq<Sys>)
    requires u.cfg.cacheOn && 1 <= u.lim.maxEntries && Unhindered(u, list, msg)
    requires AnswersRequest(msg, reply) && !reply.truncated && Lifetime(reply, u.lim).Some?
    requires Live(EntryOf(reply, Lifetime(reply, u.lim).value, 0), now)
    ensures Run(u, acts, ss) && 1 in Last(ss).reqs
    ensures var e := EntryOf(reply, Lifetime(reply, u.lim).value, 0);
            Last(ss).reqs[1] == Done(Encoded(msg), FromCache(Envelope(u.cfg, msg, Aged(e, now))))
  {
    var name := CanonicalName(msg.queries[0].name);
    acts, ss := [], [Sys(Shared(list, map[], Stats(0, 0, 0, 0, 0), []), map[], [], {})];
    acts, ss := Ask(u, acts, ss, 0, msg, false);
    acts, ss := LookNow(u, acts, ss, 0, msg, name, 0);
    acts, ss := AnswerNow(u, acts, ss, 0, msg, name, reply);
    acts, ss := Ask(u, acts, ss, 1, msg, false);
    acts, ss := LookNow(u, acts, ss, 1, msg, name, now);
  }

  /** A record of a reply that the cache hands out beyond its grant. */
  predicate Overstays(lim: Limits, reply: Message, r: Record) {
    r in reply.additionals && !r.rtype.OPT? && Lifetime(reply, lim).Some? && r.ttl < Lifetime(reply, lim).value
  }

  /** So every accepted reply with an additional record shorter-lived than its answers and authorities has a
      run in which a client is told to keep that record for longer than it was granted. */
  lemma OverstayingRecordIsServed(u: Setup, list: Matcher, msg: Message, reply: Message, k: nat)
      returns (acts: seq<Action>, ss: seq<Sys>, now: Instant)
    requires u.cfg.cacheOn && 1 <= u.lim.maxEntries && Unhindered(u, list, msg)
    requires AnswersRequest(msg, reply) && !reply.truncated
    requires k < |reply.additionals| && Overstays(u.lim, reply, reply.additionals[k])
    ensures Run(u, acts, ss) && 1 in Last(ss).reqs && Last(ss).reqs[1].Done? && Last(ss).reqs[1].outcome.FromCache?
    ensures !H.InGrant(reply.additionals[k], 0, now)
    ensures reply.additionals[k].(ttl := AgedTtl(reply.additionals[k].ttl, ElapsedSecs(0, now)))
            in Last(ss).reqs[1].outcome.reply.additionals
  {
    var r, life := reply.additionals[k], Lifetime(reply, u.lim).value;
    var e := EntryOf(reply, life, 0);
    now := r.ttl * NANOS;
    acts, ss := ReplyIsServedAgain(u, list, msg, reply, now);
    H.AdditionalKeepsItsGrantIff(reply, u.lim, 0, now, r);
    var kept := H.WithoutOptFilters(reply.additionals);
    assert k in kept;
    var j :| 0 <= j < |kept| && kept[j] == k;
    var served := Last(ss).reqs[1].outcome.reply.additionals;
    assert served == Age(e.additionals, ElapsedSecs(0, now));
    assert served[j] == r.(ttl := AgedTtl(r.ttl, ElapsedSecs(0, now)));
  }

  /** A concrete case: an answer granted five minutes, and glue with it granted none. */
  lemma AdditionalCanOutliveGrant() returns (u: Setup, acts: seq<Action>, ss: seq<Sys>, glue: Record, now: Instant)
    ensures Run(u, acts, ss) && 1 in Last(ss).reqs && Last(ss).reqs[1].Done? && Last(ss).reqs[1].outcome.FromCache?
    ensures glue.(ttl := AgedTtl(glue.ttl, ElapsedSecs(0, now))) in Last(ss).reqs[1].outcome.reply.additionals
    ensures !H.InGrant(glue, 0, now)
  {
    u := Setup(Config(true, false, false, 1232), Limits(10, 30, 86400));
    var q := Question("example.com.", A, 1);
    glue := Record("ns.example.com.", A, 0, NullV4);
    var ans := Record("example.com.", A, 300, NullV4);
    var msg := Message(1, true, Query, NoError, false, false, true, false, false, [q], [], [], [], None);
    var reply := Message(1, false, Query, NoError, false, false, true, true, false, [q], [ans], [], [glue], None);
    assert reply.answers + reply.authorities == [ans];
    assert MinTtl([ans][1..]) == None;
    assert Lifetime(reply, u.lim) == Some(300);
    assert reply.additionals[0] == glue;
    acts, ss, now := OverstayingRecordIsServed(u, EMPTY, msg, reply, 0);
  }
}
