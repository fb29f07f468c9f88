/**
 The resolver: one request is a sequence of atomic sections, between which other requests, list
 swaps, flushes and sweeps may run. Each section is a method of the class, tied to a transition on
 the shared state and the request's own progress.
 */
module Resolvers {
  import opened Wrappers
  import opened Messages
  import opened AnswerCache
  import opened Blocklists
  import opened Forwarding

  datatype Config = Config(cacheOn: bool, nxdomain: bool, disableFirefoxDoh: bool, payloadLimit: u16)

  datatype Stats = Stats(total: nat, blocked: nat, cacheHits: nat, upstreamErrors: nat, timeouts: nat)

  datatype Status = WasBlocked | WasCached | WasForwarded | WasNxDomain | WasRefused | WasServFail

  datatype LogRow = LogRow(name: string, qtype: RecordType, status: Status)

  /** State shared by all requests. */
  datatype Shared = Shared(list: Matcher, cache: Store, stats: Stats, log: seq<LogRow>)

  datatype Outcome =
    | Malformed
    | Rejected(reply: Message)
    | Canary(reply: Message)
    | Sunk(list: string, reply: Message)
    | FromCache(reply: Message)
    | FromUpstream(reply: Message)
    | UpstreamFailed(reply: Message)
    | Abandoned(reply: Message)
    | Dropped

  /** How far a request has got. */
  datatype Phase =
    | Checking(msg: Message, name: string)
    | Looking(msg: Message, name: string)
    | Awaiting(msg: Message, name: string)
    | Done(request: Wire, outcome: Outcome)

  // ---- the sections as transitions ---------------------------------------

  /** Decode, protocol checks and the canary, up to the blocklist check. */
  function Begun(cfg: Config, wire: Wire): Phase {
    match wire
    case Garbage => Done(wire, Malformed)
    case Encoded(msg) =>
      if !msg.isQuery || msg.opcode != Query then
        Done(wire, Rejected(ErrorResponse(msg, Refused, cfg.payloadLimit)))
      else if msg.queries == [] then
        Done(wire, Rejected(ErrorResponse(msg, FormErr, cfg.payloadLimit)))
      else
        var name := CanonicalName(msg.queries[0].name);
        if cfg.disableFirefoxDoh && name == FIREFOX_CANARY then
          Done(wire, Canary(BaseResponse(msg, cfg.payloadLimit).(code := NXDomain)))
        else Checking(msg, name)
  }

  function SinkholeReply(cfg: Config, msg: Message): Message
    requires msg.queries != []
  {
    Sinkhole(msg, msg.queries[0].qtype, cfg.nxdomain, cfg.payloadLimit)
  }

  /** The blocklist check; the root name is never looked up. */
  ghost function Checked(cfg: Config, list: Matcher, msg: Message, name: string): Phase
    requires msg.queries != []
  {
    var source := if name == "" then None else BlockedBy(list, name);
    match source
    case Some(l) => Done(Encoded(msg), Sunk(l, SinkholeReply(cfg, msg)))
    case None => Looking(msg, name)
  }

  /** A fresh envelope from this request around a cached answer. */
  function Envelope(cfg: Config, msg: Message, hit: CachedAnswer): Message {
    BaseResponse(msg, cfg.payloadLimit).(
      code := hit.code, authoritative := hit.authoritative,
      answers := hit.answers, authorities := hit.authorities, additionals := hit.additionals)
  }

  function KeyOf(msg: Message, name: string): Key
    requires msg.queries != []
  {
    KeyFromRequest(msg, name).value
  }

  function LookedUp(cfg: Config, cache: Store, msg: Message, name: string, now: Instant): Phase
    requires msg.queries != []
  {
    var hit := if cfg.cacheOn then Hit(cache, KeyOf(msg, name), now) else None;
    match hit
    case Some(h) => Done(Encoded(msg), FromCache(Envelope(cfg, msg, h)))
    case None => Awaiting(msg, name)
  }

  function Answered(cfg: Config, msg: Message, r: Result<Reply, ForwardError>): Phase {
    match r
    case Ok(reply) => Done(Encoded(msg), FromUpstream(reply.msg))
    case Err(_) => Done(Encoded(msg), UpstreamFailed(ErrorResponse(msg, ServFail, cfg.payloadLimit)))
  }

  function TimedOutPhase(cfg: Config, msg: Message): Phase {
    Done(Encoded(msg), Abandoned(ErrorResponse(msg, ServFail, cfg.payloadLimit)))
  }

  function StatusOf(reply: Message): Status {
    match reply.code
    case NoError => WasForwarded
    case NXDomain => WasNxDomain
    case Refused => WasRefused
    case _ => WasServFail
  }

  /** The counters after a request moved into a phase. */
  function Counted(stats: Stats, phase: Phase): Stats {
    match phase
    case Done(_, Canary(_)) => stats.(blocked := stats.blocked + 1)
    case Done(_, Sunk(_, _)) => stats.(blocked := stats.blocked + 1)
    case Done(_, FromCache(_)) => stats.(cacheHits := stats.cacheHits + 1)
    case Done(_, UpstreamFailed(_)) => stats.(upstreamErrors := stats.upstreamErrors + 1)
    case Done(_, Abandoned(_)) => stats.(timeouts := stats.timeouts + 1)
    case _ => stats
  }

  /** The query-log rows a request leaves on finishing; malformed, rejected and abandoned ones leave none. */
  function Rows(name: string, phase: Phase): seq<LogRow> {
    match phase
    case Done(Encoded(msg), outcome) =>
      if msg.queries == [] then []
      else
        var qtype := msg.queries[0].qtype;
        (match outcome
         case Canary(_) => [LogRow(name, qtype, WasBlocked)]
         case Sunk(_, _) => [LogRow(name, qtype, WasBlocked)]
         case FromCache(_) => [LogRow(name, qtype, WasCached)]
         case FromUpstream(reply) => [LogRow(name, qtype, StatusOf(reply))]
         case UpstreamFailed(_) => [LogRow(name, qtype, WasServFail)]
         case _ => [])
    case _ => []
  }

  function NameOf(wire: Wire): string {
    if wire.Encoded? && wire.msg.queries != [] then CanonicalName(wire.msg.queries[0].name) else ""
  }

  /** Shared state after a request moved into a phase. */
  function Moved(s: Shared, name: string, phase: Phase): Shared {
    s.(stats := Counted(s.stats, phase), log := s.log + Rows(name, phase))
  }

  // ---- the resolver itself -----------------------------------------------

  class Resolver {
    const cfg: Config
    var blocklist: Blocklist
    const cache: Cache
    var stats: Stats
    var log: seq<LogRow>

    function View(): Shared
      reads this, blocklist, cache
    {
      Shared(blocklist.State(), cache.entries, stats, log)
    }

    constructor (cfg: Config, blocklist: Blocklist, cache: Cache)
      ensures this.cfg == cfg && this.blocklist == blocklist && this.cache == cache
      ensures View() == Shared(blocklist.State(), cache.entries, Stats(0, 0, 0, 0, 0), [])
    {
      this.cfg, this.blocklist, this.cache := cfg, blocklist, cache;
      stats, log := Stats(0, 0, 0, 0, 0), [];
    }

    /** Undecodable requests go unanswered; non-queries are REFUSED, questionless ones are FORMERR, and the
        canary is NXDOMAIN whatever the blocking mode. */
    method Begin(wire: Wire) returns (phase: Phase)
      modifies this`stats, this`log
      ensures phase == Begun(cfg, wire)
      ensures phase.Checking? ==> View() == old(View()).(stats := old(stats).(total := old(stats).total + 1))
      ensures phase.Done? && phase.outcome.Canary? ==>
                && stats == old(stats).(total := old(stats).total + 1, blocked := old(stats).blocked + 1)
                && |log| == |old(log)| + 1
      ensures var s := old(View());
              View() == Moved(s.(stats := s.stats.(total := s.stats.total + 1)), NameOf(wire), phase)
    {
      stats := stats.(total := stats.total + 1);
      if wire.Garbage? {
        return Done(wire, Malformed);
      }
      var msg := wire.msg;
      if !msg.isQuery || msg.opcode != Query {
        return Done(wire, Rejected(ErrorResponse(msg, Refused, cfg.payloadLimit)));
      }
      if msg.queries == [] {
        return Done(wire, Rejected(ErrorResponse(msg, FormErr, cfg.payloadLimit)));
      }
      var query := msg.queries[0];
      var name := CanonicalName(query.name);
      if cfg.disableFirefoxDoh && name == FIREFOX_CANARY {
        var resp := BaseResponse(msg, cfg.payloadLimit);
        resp := resp.(code := NXDomain);
        stats := stats.(blocked := stats.blocked + 1);
        log := log + [LogRow(name, query.qtype, WasBlocked)];
        return Done(wire, Canary(resp));
      }
      return Checking(msg, name);
    }

    method Check(msg: Message, name: string) returns (phase: Phase)
      requires msg.queries != []
      modifies this`stats, this`log
      ensures phase == Checked(cfg, old(View()).list, msg, name)
      ensures View() == Moved(old(View()), name, phase)
    {
      var source: Option<string> := None;
      if name != "" {
        source := blocklist.Lookup(name);
      }
      if source.Some? {
        stats := stats.(blocked := stats.blocked + 1);
        log := log + [LogRow(name, msg.queries[0].qtype, WasBlocked)];
        return Done(Encoded(msg), Sunk(source.value, SinkholeReply(cfg, msg)));
      }
      return Looking(msg, name);
    }

    method Look(msg: Message, name: string, now: Instant) returns (phase: Phase)
      requires msg.queries != [] && cache.Valid()
      modifies this`stats, this`log, cache
      ensures cache.Valid()
      ensures phase == LookedUp(cfg, old(View()).cache, msg, name, now)
      ensures View() == Moved(old(View()), name, phase).(cache := View().cache)
      ensures if cfg.cacheOn
              then Step(cache.limits, old(View()).cache, AnswerCache.Looked(KeyOf(msg, name), now), View().cache)
              else View().cache == old(View()).cache
    {
      if cfg.cacheOn {
        var hit := cache.Get(KeyOf(msg, name), now);
        if hit.Some? {
          stats := stats.(cacheHits := stats.cacheHits + 1);
          log := log + [LogRow(name, msg.queries[0].qtype, WasCached)];
          return Done(Encoded(msg), FromCache(Envelope(cfg, msg, hit.value)));
        }
      }
      return Awaiting(msg, name);
    }

    method Answer(msg: Message, name: string, r: Result<Reply, ForwardError>, evictNow: Instant, now: Instant)
        returns (phase: Phase)
      requires msg.queries != [] && cache.Valid()
      modifies this`stats, this`log, cache
      ensures cache.Valid()
      ensures phase == Answered(cfg, msg, r)
      ensures View() == Moved(old(View()), name, phase).(cache := View().cache)
      ensures if cfg.cacheOn && r.Ok?
              then Step(cache.limits, old(View()).cache, Inserted(KeyOf(msg, name), r.value.msg, evictNow, now),
                        View().cache)
              else View().cache == old(View()).cache
    {
      var qtype := msg.queries[0].qtype;
      if r.Err? {
        stats := stats.(upstreamErrors := stats.upstreamErrors + 1);
        log := log + [LogRow(name, qtype, WasServFail)];
        return Done(Encoded(msg), UpstreamFailed(ErrorResponse(msg, ServFail, cfg.payloadLimit)));
      }
      var reply := r.value.msg;
      if cfg.cacheOn {
        var _ := cache.Insert(KeyOf(msg, name), reply, evictNow, now);
      }
      log := log + [LogRow(name, qtype, StatusOf(reply))];
      return Done(Encoded(msg), FromUpstream(reply));
    }

    /** The request's budget is spent: SERVFAIL for the client, a count, and nothing in the log. */
    method Abandon(msg: Message, name: string) returns (phase: Phase)
      modifies this`stats, this`log
      ensures phase == TimedOutPhase(cfg, msg) && phase.outcome.reply.code == ServFail
      ensures View() == old(View()).(stats := old(stats).(timeouts := old(stats).timeouts + 1))
      ensures View() == Moved(old(View()), name, phase)
    {
      stats := stats.(timeouts := stats.timeouts + 1);
      return Done(Encoded(msg), Abandoned(ErrorResponse(msg, ServFail, cfg.payloadLimit)));
    }

    method Swap(rebuilt: Blocklist)
      modifies this`blocklist
      ensures View() == old(View()).(list := rebuilt.State())
    {
      blocklist := rebuilt;
    }

    method FlushCache()
      requires cache.Valid()
      modifies cache
      ensures cache.Valid() && View() == old(View()).(cache := map[])
    {
      cache.Clear();
    }
  }
}
