/** Counters that account for every request, over any interleaved run, and where they fall short. */
module ResolverAccounts {
  import opened Wrappers
  import opened Messages
  import opened AnswerCache
  import opened Blocklists
  import opened Forwarding
  import opened Resolvers
  import opened ResolverRuns
  import C = ResolverCache

  datatype Class = Running | Refused | Blocked | CacheHit | Forwarded | UpstreamError | Timeout | Lost

  function ClassOf(p: Phase): Class {
    if !p.Done? then Running
    else
      match p.outcome
      case Malformed => Class.Refused
      case Rejected(_) => Class.Refused
      case Canary(_) => Class.Blocked
      case Sunk(_, _) => Class.Blocked
      case FromCache(_) => CacheHit
      case FromUpstream(_) => Class.Forwarded
      case UpstreamFailed(_) => UpstreamError
      case Abandoned(_) => Timeout
      case Dropped => Lost
  }

  function Classes(reqs: map<nat, Phase>): map<nat, Class> {
    map id | id in reqs :: ClassOf(reqs[id])
  }

  function Members(classes: map<nat, Class>, c: Class): set<nat> {
    set id | id in classes && classes[id] == c
  }

  function Count(s: Sys, c: Class): nat {
    |Members(Classes(s.reqs), c)|
  }

  /** Each counter is the number of requests in its class; the log has a row per logged outcome. */
  ghost predicate Accounted(s: Sys) {
    var st := s.shared.stats;
    && st.total == |s.reqs|
    && st.blocked == Count(s, Class.Blocked)
    && st.cacheHits == Count(s, CacheHit)
    && st.upstreamErrors == Count(s, UpstreamError)
    && st.timeouts == Count(s, Timeout)
    && |s.shared.log| == st.blocked + st.cacheHits + Count(s, Class.Forwarded) + st.upstreamErrors
  }

  lemma JoinClass(classes: map<nat, Class>, id: nat, joined: Class, c: Class)
    requires id !in classes
    ensures |Members(classes[id := joined], c)| == |Members(classes, c)| + (if c == joined then 1 else 0)
  {
    JoinMembers(classes, id, joined, c);
  }

  lemma JoinMembers(classes: map<nat, Class>, id: nat, joined: Class, c: Class)
    requires id !in classes
    ensures Members(classes[id := joined], c) == Members(classes, c) + (if c == joined then {id} else {})
    ensures id !in Members(classes, c)
  {
    var classes' := classes[id := joined];
    forall x ensures x in Members(classes', c) <==> x in Members(classes, c) || (x == id && c == joined) {
    }
  }

  lemma ChangeClass(classes: map<nat, Class>, id: nat, joined: Class, c: Class)
    requires id in classes
    ensures |Members(classes[id := joined], c)|
         == |Members(classes, c)| - (if c == classes[id] then 1 else 0) + (if c == joined then 1 else 0)
  {
    var rest := classes - {id};
    JoinClass(rest, id, joined, c);
    JoinClass(rest, id, classes[id], c);
    assert rest[id := joined] == classes[id := joined];
    assert rest[id := classes[id]] == classes;
  }

  /** A finished phase that is logged comes from a request with a question. */
  predicate LogsProperly(phase: Phase) {
    phase.Done? && !(phase.outcome.Malformed? || phase.outcome.Rejected? || phase.outcome.Dropped?)
    ==> phase.request.Encoded? && phase.request.msg.queries != []
  }

  function One(b: bool): nat {
    if b then 1 else 0
  }

  lemma CountersFollowClass(stats: Stats, name: string, phase: Phase)
    requires LogsProperly(phase)
    ensures var st, c := Counted(stats, phase), ClassOf(phase);
            && st == Stats(stats.total, stats.blocked + One(c == Class.Blocked), stats.cacheHits + One(c == CacheHit),
                           stats.upstreamErrors + One(c == UpstreamError), stats.timeouts + One(c == Timeout))
            && |Rows(name, phase)| == One(c in {Class.Blocked, CacheHit, Class.Forwarded, UpstreamError})
  {
  }

  /** The counters and the log of `t` are those of `s` after one more request of class `c`. */
  ghost predicate BookedOne(s: Sys, t: Sys, c: Class) {
    var st, st' := s.shared.stats, t.shared.stats;
    && st'.blocked == st.blocked + One(c == Class.Blocked)
    && st'.cacheHits == st.cacheHits + One(c == CacheHit)
    && st'.upstreamErrors == st.upstreamErrors + One(c == UpstreamError)
    && st'.timeouts == st.timeouts + One(c == Timeout)
    && |t.shared.log| == |s.shared.log| + One(c in {Class.Blocked, CacheHit, Class.Forwarded, UpstreamError})
  }

  lemma BookingKeepsAccounts(s: Sys, t: Sys, c: Class)
    requires Accounted(s) && BookedOne(s, t, c)
    requires t.shared.stats.total == |t.reqs|
    requires forall x :: x != Running ==> Count(t, x) == Count(s, x) + One(x == c)
    ensures Accounted(t)
  {
  }

  lemma MoveCounts(s: Sys, t: Sys, id: nat, phase: Phase)
    requires id in s.reqs && !s.reqs[id].Done? && t.reqs == s.reqs[id := phase]
    ensures |t.reqs| == |s.reqs|
    ensures forall x :: x != Running ==> Count(t, x) == Count(s, x) + One(x == ClassOf(phase))
  {
    assert t.reqs.Keys == s.reqs.Keys;
    assert Classes(t.reqs) == Classes(s.reqs)[id := ClassOf(phase)];
    forall x | x != Running ensures Count(t, x) == Count(s, x) + One(x == ClassOf(phase)) {
      ChangeClass(Classes(s.reqs), id, ClassOf(phase), x);
    }
  }

  lemma AdvanceKeepsAccounts(s: Sys, id: nat, name: string, phase: Phase, cache: Store)
    requires Accounted(s) && id in s.reqs && !s.reqs[id].Done? && LogsProperly(phase)
    ensures Accounted(Advance(s, id, name, phase, cache))
  {
    var t := Advance(s, id, name, phase, cache);
    MoveCounts(s, t, id, phase);
    CountersFollowClass(s.shared.stats, name, phase);
    assert BookedOne(s, t, ClassOf(phase));
    BookingKeepsAccounts(s, t, ClassOf(phase));
  }

  lemma ArrivalCounts(s: Sys, t: Sys, id: nat, phase: Phase)
    requires id !in s.reqs && t.reqs == s.reqs[id := phase]
    ensures |t.reqs| == |s.reqs| + 1
    ensures forall x :: Count(t, x) == Count(s, x) + One(x == ClassOf(phase))
  {
    assert t.reqs.Keys == s.reqs.Keys + {id};
    assert Classes(t.reqs) == Classes(s.reqs)[id := ClassOf(phase)];
    forall x ensures Count(t, x) == Count(s, x) + One(x == ClassOf(phase)) {
      JoinClass(Classes(s.reqs), id, ClassOf(phase), x);
    }
  }

  lemma ArrivalKeepsAccounts(s: Sys, id: nat, tcp: bool, name: string, phase: Phase, cache: Store)
    requires Accounted(s) && id !in s.reqs && LogsProperly(phase)
    ensures Accounted(Advance(Taken(s, id, tcp), id, name, phase, cache))
  {
    var arrived := Taken(s, id, tcp);
    var t := Advance(arrived, id, name, phase, cache);
    ArrivalCounts(s, t, id, phase);
    CountersFollowClass(arrived.shared.stats, name, phase);
    assert BookedOne(s, t, ClassOf(phase));
    BookingKeepsAccounts(s, t, ClassOf(phase));
  }

  lemma DropKeepsAccounts(s: Sys, id: nat)
    requires Accounted(s) && id in s.reqs && s.reqs[id].Awaiting?
    ensures Accounted(s.(reqs := s.reqs[id := Done(Encoded(s.reqs[id].msg), Dropped)]))
  {
    var t := s.(reqs := s.reqs[id := Done(Encoded(s.reqs[id].msg), Dropped)]);
    MoveCounts(s, t, id, t.reqs[id]);
    BookingKeepsAccounts(s, t, Lost);
  }

  lemma AnswerKeepsAccounts(u: Setup, s: Sys, id: nat, r: Result<Reply, ForwardError>,
                            evictNow: Instant, now: Instant, s': Sys)
    requires Accounted(s) && id in s.reqs && s.reqs[id].Awaiting? && s.reqs[id].msg.queries != []
    requires AnswerStep(u, s, id, r, evictNow, now, s')
    ensures Accounted(s')
  {
    var p := s.reqs[id];
    AdvanceKeepsAccounts(s, id, p.name, Answered(u.cfg, p.msg, r), s'.shared.cache);
  }

  lemma CheckKeepsAccounts(u: Setup, s: Sys, id: nat)
    requires Accounted(s) && id in s.reqs && s.reqs[id].Checking? && s.reqs[id].msg.queries != []
    ensures var p := s.reqs[id];
            Accounted(Advance(s, id, p.name, Checked(u.cfg, s.shared.list, p.msg, p.name), s.shared.cache))
  {
    var p := s.reqs[id];
    AdvanceKeepsAccounts(s, id, p.name, Checked(u.cfg, s.shared.list, p.msg, p.name), s.shared.cache);
  }

  lemma LookKeepsAccounts(u: Setup, s: Sys, id: nat, now: Instant, cache: Store)
    requires Accounted(s) && id in s.reqs && s.reqs[id].Looking? && s.reqs[id].msg.queries != []
    ensures var p := s.reqs[id];
            Accounted(Advance(s, id, p.name, LookedUp(u.cfg, s.shared.cache, p.msg, p.name, now), cache))
  {
    var p := s.reqs[id];
    AdvanceKeepsAccounts(s, id, p.name, LookedUp(u.cfg, s.shared.cache, p.msg, p.name, now), cache);
  }

  lemma AbandonKeepsAccounts(u: Setup, s: Sys, id: nat)
    requires Accounted(s) && RequestsAreSound(u, s) && id in s.reqs && s.reqs[id].Awaiting?
    ensures var p := s.reqs[id];
            Accounted(Advance(s, id, p.name, TimedOutPhase(u.cfg, p.msg), s.shared.cache))
  {
    var p := s.reqs[id];
    assert PhaseIsSound(u, s.accepted, p);
    AdvanceKeepsAccounts(s, id, p.name, TimedOutPhase(u.cfg, p.msg), s.shared.cache);
  }

  lemma NextKeepsAccounts(u: Setup, s: Sys, a: Action, s': Sys)
    requires Accounted(s) && RequestsAreSound(u, s) && Next(u, s, a, s')
    ensures Accounted(s')
  {
    match a
    case Arrive(id, wire, tcp) =>
      ArrivalKeepsAccounts(s, id, tcp, NameOf(wire), Begun(u.cfg, wire), s.shared.cache);
    case Check(id) => CheckKeepsAccounts(u, s, id);
    case Look(id, now) => LookKeepsAccounts(u, s, id, now, s'.shared.cache);
    case Answer(id, upstreams, evictNow, now) =>
      var r :| IsForwarded(s.reqs[id].msg, upstreams, r) && AnswerStep(u, s, id, r, evictNow, now, s');
      AnswerKeepsAccounts(u, s, id, r, evictNow, now, s');
    case Abandon(id) => AbandonKeepsAccounts(u, s, id);
    case Drop(id) => DropKeepsAccounts(s, id);
    case _ =>
  }

  lemma {:induction false} RunIsAccounted(u: Setup, acts: seq<Action>, ss: seq<Sys>)
    requires Run(u, acts, ss)
    ensures Accounted(Last(ss))
    decreases |acts|
  {
    if acts != [] {
      var n := |acts| - 1;
      RunBefore(u, acts, ss);
      RunIsAccounted(u, acts[..n], ss[..|acts|]);
      RunIsSound(u, acts[..n], ss[..|acts|]);
      NextKeepsAccounts(u, ss[n], acts[n], Last(ss));
    }
  }

  function Rank(c: Class): nat {
    match c
    case Running => 0
    case Refused => 1
    case Blocked => 2
    case CacheHit => 3
    case Forwarded => 4
    case UpstreamError => 5
    case Timeout => 6
    case Lost => 7
  }

  function UpTo(classes: map<nat, Class>, n: nat): set<nat> {
    set id | id in classes && Rank(classes[id]) < n
  }

  lemma UpToStep(classes: map<nat, Class>, c: Class)
    ensures |UpTo(classes, Rank(c) + 1)| == |UpTo(classes, Rank(c))| + |Members(classes, c)|
  {
    assert UpTo(classes, Rank(c) + 1) == UpTo(classes, Rank(c)) + Members(classes, c);
  }

  lemma ClassesPartition(classes: map<nat, Class>)
    ensures |classes| == |Members(classes, Running)| + |Members(classes, Class.Refused)|
                         + |Members(classes, Class.Blocked)| + |Members(classes, CacheHit)|
                         + |Members(classes, Class.Forwarded)| + |Members(classes, UpstreamError)|
                         + |Members(classes, Timeout)| + |Members(classes, Lost)|
  {
    assert UpTo(classes, 0) == {};
    UpToStep(classes, Running);
    UpToStep(classes, Class.Refused);
    UpToStep(classes, Class.Blocked);
    UpToStep(classes, CacheHit);
    UpToStep(classes, Class.Forwarded);
    UpToStep(classes, UpstreamError);
    UpToStep(classes, Timeout);
    UpToStep(classes, Lost);
    assert UpTo(classes, 8) == classes.Keys;
  }

  /** Over any run, every request the resolver took is in exactly one class, and the counters say how
      many: total = rejected + blocked + cache hits + forwarded + upstream errors + timeouts + running, and
      those lost with their TCP session. */
  lemma EveryRequestIsAccountedFor(u: Setup, acts: seq<Action>, ss: seq<Sys>)
    requires Run(u, acts, ss)
    ensures Accounted(Last(ss))
    ensures var s := Last(ss); var st := s.shared.stats;
            st.total == Count(s, Class.Refused) + st.blocked + st.cacheHits + Count(s, Class.Forwarded)
                        + st.upstreamErrors + st.timeouts + Count(s, Running) + Count(s, Lost)
  {
    RunIsAccounted(u, acts, ss);
    var classes := Classes(Last(ss).reqs);
    assert classes.Keys == Last(ss).reqs.Keys;
    ClassesPartition(classes);
  }

  // ---- sessions dropped around a waiting request -------------------------

  function Drops(acts: seq<Action>): nat {
    if acts == [] then 0 else Drops(acts[..|acts| - 1]) + One(acts[|acts| - 1].Drop?)
  }

  lemma BegunIsNotLost(cfg: Config, wire: Wire)
    ensures ClassOf(Begun(cfg, wire)) != Lost
  {
  }

  lemma CheckedIsNotLost(cfg: Config, list: Matcher, msg: Message, name: string)
    requires msg.queries != []
    ensures ClassOf(Checked(cfg, list, msg, name)) != Lost
  {
  }

  lemma LookedUpIsNotLost(cfg: Config, cache: Store, msg: Message, name: string, now: Instant)
    requires msg.queries != []
    ensures ClassOf(LookedUp(cfg, cache, msg, name, now)) != Lost
  {
  }

  lemma AnswerIsNotLost(u: Setup, s: Sys, a: Action, s': Sys)
    requires Next(u, s, a, s') && a.Answer?
    ensures s'.reqs == s.reqs[a.id := s'.reqs[a.id]] && ClassOf(s'.reqs[a.id]) != Lost
  {
    var r :| IsForwarded(s.reqs[a.id].msg, a.upstreams, r) && AnswerStep(u, s, a.id, r, a.evictNow, a.now, s');
  }

  /** Only a drop makes a request lost. */
  lemma NextIsNotLost(u: Setup, s: Sys, a: Action, s': Sys)
    requires Next(u, s, a, s') && !a.Swap? && !a.Flush? && !a.Sweep?
    ensures s'.reqs == s.reqs[a.id := s'.reqs[a.id]] && (ClassOf(s'.reqs[a.id]) == Lost <==> a.Drop?)
    ensures a.Arrive? <==> a.id !in s.reqs
    ensures a.id in s.reqs ==> !s.reqs[a.id].Done?
  {
    match a
    case Arrive(id, wire, _) => BegunIsNotLost(u.cfg, wire);
    case Check(id) => CheckedIsNotLost(u.cfg, s.shared.list, s.reqs[id].msg, s.reqs[id].name);
    case Look(id, now) => LookedUpIsNotLost(u.cfg, s.shared.cache, s.reqs[id].msg, s.reqs[id].name, now);
    case Answer(_, _, _, _) => AnswerIsNotLost(u, s, a, s');
    case _ =>
  }

  lemma NextCountsDrops(u: Setup, s: Sys, a: Action, s': Sys)
    requires Next(u, s, a, s')
    ensures Count(s', Lost) == Count(s, Lost) + One(a.Drop?)
  {
    if !a.Swap? && !a.Flush? && !a.Sweep? {
      NextIsNotLost(u, s, a, s');
      if a.Arrive? {
        ArrivalCounts(s, s', a.id, s'.reqs[a.id]);
      } else {
        MoveCounts(s, s', a.id, s'.reqs[a.id]);
      }
    }
  }

  lemma {:induction false} LostAreDrops(u: Setup, acts: seq<Action>, ss: seq<Sys>)
    requires Run(u, acts, ss)
    ensures Count(Last(ss), Lost) == Drops(acts)
    decreases |acts|
  {
    if acts == [] {
      assert Members(Classes(Last(ss).reqs), Lost) == {};
    } else {
      var n := |acts| - 1;
      RunBefore(u, acts, ss);
      LostAreDrops(u, acts[..n], ss[..|acts|]);
      NextCountsDrops(u, ss[n], acts[n], Last(ss));
    }
  }

  lemma {:induction false} NoDropsIff(acts: seq<Action>)
    ensures Drops(acts) == 0 <==> forall a :: a in acts ==> !a.Drop?
    decreases |acts|
  {
    if acts != [] {
      var n := |acts| - 1;
      NoDropsIff(acts[..n]);
      assert acts == acts[..n] + [acts[n]];
    }
  }

  /** What the counters and the classes that finish leave of the total, which is meant to be what runs. */
  function Unfinished(s: Sys): int {
    var st := s.shared.stats;
    st.total - Count(s, Class.Refused) - st.blocked - st.cacheHits - Count(s, Class.Forwarded)
    - st.upstreamErrors - st.timeouts
  }

  /** Exactly when the counters reconcile with the requests that are running: when no TCP session was
      dropped around a waiting request. Each such drop leaves them one apart for good. */
  lemma CountersReconcileIff(u: Setup, acts: seq<Action>, ss: seq<Sys>)
    requires Run(u, acts, ss)
    ensures Unfinished(Last(ss)) == Count(Last(ss), Running) + Drops(acts)
    ensures Unfinished(Last(ss)) == Count(Last(ss), Running) <==> forall a :: a in acts ==> !a.Drop?
  {
    EveryRequestIsAccountedFor(u, acts, ss);
    LostAreDrops(u, acts, ss);
    NoDropsIff(acts);
  }

  lemma NextKeepsTcp(u: Setup, s: Sys, a: Action, s': Sys)
    requires Next(u, s, a, s')
    ensures s.overTcp <= s'.overTcp && (a.Drop? ==> a.id in s'.overTcp)
  {
    if a.Answer? {
      var r :| IsForwarded(s.reqs[a.id].msg, a.upstreams, r) && AnswerStep(u, s, a.id, r, a.evictNow, a.now, s');
    }
  }

  /** A UDP request is never lost this way. */
  lemma {:induction false} OnlyTcpIsLost(u: Setup, acts: seq<Action>, ss: seq<Sys>, id: nat)
    requires Run(u, acts, ss) && id in Last(ss).reqs && ClassOf(Last(ss).reqs[id]) == Lost
    ensures id in Last(ss).overTcp
    decreases |acts|
  {
    if acts != [] {
      var n := |acts| - 1;
      RunBefore(u, acts, ss);
      if id in ss[n].reqs && ClassOf(ss[n].reqs[id]) == Lost {
        OnlyTcpIsLost(u, acts[..n], ss[..|acts|], id);
      }
      var a := acts[n];
      NextKeepsTcp(u, ss[n], a, Last(ss));
      if !a.Swap? && !a.Flush? && !a.Sweep? {
        NextIsNotLost(u, ss[n], a, Last(ss));
      }
    }
  }

  /** Any request that reaches the upstreams can be lost so: its session ends, nothing runs any more, and the
      total is one more than all that the other counters and the log account for. */
  lemma WaitingRequestCanBeLost(u: Setup, list: Matcher, msg: Message) returns (acts: seq<Action>, ss: seq<Sys>)
    requires C.Unhindered(u, list, msg) && u.cfg.cacheOn
    ensures Run(u, acts, ss) && Last(ss).reqs.Keys == {0} && ClassOf(Last(ss).reqs[0]) == Lost
    ensures Count(Last(ss), Running) == 0 && Unfinished(Last(ss)) == 1
  {
    var name := CanonicalName(msg.queries[0].name);
    acts, ss := [], [Sys(Shared(list, map[], Stats(0, 0, 0, 0, 0), []), map[], [], {})];
    acts, ss := C.Ask(u, acts, ss, 0, msg, true);
    acts, ss := C.LookNow(u, acts, ss, 0, msg, name, 0);
    acts, ss := DropNow(u, acts, ss, 0, msg, name);
    LoneLost(u, acts, ss, 0);
  }

  lemma DropNow(u: Setup, acts: seq<Action>, ss: seq<Sys>, id: nat, msg: Message, name: string)
      returns (acts': seq<Action>, ss': seq<Sys>)
    requires Run(u, acts, ss) && id in Last(ss).reqs && Last(ss).reqs[id] == Awaiting(msg, name)
    requires id in Last(ss).overTcp
    ensures Run(u, acts', ss') && Last(ss').reqs.Keys == Last(ss).reqs.Keys && ClassOf(Last(ss').reqs[id]) == Lost
  {
    var s := Last(ss);
    var s' := s.(reqs := s.reqs[id := Done(Encoded(msg), Dropped)]);
    assert s'.reqs.Keys == s.reqs.Keys;
    C.Extend(u, acts, ss, Drop(id), s');
    acts', ss' := acts + [Drop(id)], ss + [s'];
  }

  lemma LoneLost(u: Setup, acts: seq<Action>, ss: seq<Sys>, id: nat)
    requires Run(u, acts, ss) && Last(ss).reqs.Keys == {id} && ClassOf(Last(ss).reqs[id]) == Lost
    ensures Count(Last(ss), Running) == 0 && Unfinished(Last(ss)) == 1
  {
    var classes := Classes(Last(ss).reqs);
    assert Members(classes, Lost) == {id} && Members(classes, Running) == {};
    LostAreDrops(u, acts, ss);
    CountersReconcileIff(u, acts, ss);
  }
}
