/** Which requests get which outcome, over any interleaved run, and what a sunk reply carries. */
module ResolverOutcomes {
  import opened Messages
  import opened Resolvers
  import opened ResolverRuns
  import opened Forwarding
  import opened NameSpelling

  /** The request a phase is about, as it came off the wire. */
  function RequestOf(p: Phase): Wire {
    match p
    case Done(wire, _) => wire
    case _ => Encoded(p.msg)
  }

  lemma NextKeepsRequest(u: Setup, s: Sys, a: Action, s': Sys, id: nat)
    requires Next(u, s, a, s') && id in s.reqs
    ensures id in s'.reqs && RequestOf(s'.reqs[id]) == RequestOf(s.reqs[id])
  {
    if a.Answer? {
      var r :| IsForwarded(s.reqs[a.id].msg, a.upstreams, r) && AnswerStep(u, s, a.id, r, a.evictNow, a.now, s');
    }
  }

  /** A request is answered as the very request that arrived under its id. */
  lemma {:induction false} RequestStaysItsOwn(u: Setup, acts: seq<Action>, ss: seq<Sys>, i: nat, j: nat)
    requires Run(u, acts, ss) && i < j <= |acts| && acts[i].Arrive?
    ensures acts[i].id in ss[j].reqs && RequestOf(ss[j].reqs[acts[i].id]) == acts[i].wire
    decreases j - i
  {
    assert NextAt(u, acts, ss, j - 1);
    if i < j - 1 {
      RequestStaysItsOwn(u, acts, ss, i, j - 1);
      NextKeepsRequest(u, ss[j - 1], acts[j - 1], ss[j], acts[i].id);
    }
  }

  // ---- outcomes decided before the blocklist -----------------------------

  predicate Early(p: Phase) {
    p.Done? && (p.outcome.Malformed? || p.outcome.Rejected? || p.outcome.Canary?)
  }

  /** Early outcomes are those the first section decides; every other request got through it. */
  predicate Consistent(cfg: Config, p: Phase) {
    if Early(p) then p == Begun(cfg, RequestOf(p)) else Begun(cfg, RequestOf(p)).Checking?
  }

  lemma BegunIsConsistent(cfg: Config, wire: Wire)
    ensures Consistent(cfg, Begun(cfg, wire))
  {
  }

  lemma NextKeepsConsistent(u: Setup, s: Sys, a: Action, s': Sys, id: nat)
    requires Next(u, s, a, s') && id in s.reqs && Consistent(u.cfg, s.reqs[id])
    ensures id in s'.reqs && Consistent(u.cfg, s'.reqs[id])
  {
    NextKeepsRequest(u, s, a, s', id);
    if a.Answer? {
      var r :| IsForwarded(s.reqs[a.id].msg, a.upstreams, r) && AnswerStep(u, s, a.id, r, a.evictNow, a.now, s');
    }
  }

  lemma NewcomersArrive(u: Setup, s: Sys, a: Action, s': Sys, id: nat)
    requires Next(u, s, a, s') && id in s'.reqs && id !in s.reqs
    ensures a.Arrive? && s'.reqs[id] == Begun(u.cfg, a.wire)
  {
  }

  lemma {:induction false} RunIsConsistent(u: Setup, acts: seq<Action>, ss: seq<Sys>, n: nat, id: nat)
    requires Run(u, acts, ss) && n <= |acts| && id in ss[n].reqs
    ensures Consistent(u.cfg, ss[n].reqs[id])
  {
    if n > 0 {
      assert NextAt(u, acts, ss, n - 1);
      if id in ss[n - 1].reqs {
        RunIsConsistent(u, acts, ss, n - 1, id);
        NextKeepsConsistent(u, ss[n - 1], acts[n - 1], ss[n], id);
      } else {
        NewcomersArrive(u, ss[n - 1], acts[n - 1], ss[n], id);
        BegunIsConsistent(u.cfg, acts[n - 1].wire);
      }
    }
  }

  /** A standard query, and one that asks something. */
  predicate IsStandard(w: Wire) {
    w.Encoded? && w.msg.isQuery && w.msg.opcode == Query
  }

  predicate Asks(w: Wire) {
    IsStandard(w) && w.msg.queries != []
  }

  /** The canary, in any letter case and with any number of dots behind it. */
  predicate AsksCanary(cfg: Config, w: Wire) {
    Asks(w) && cfg.disableFirefoxDoh && Spells(w.msg.queries[0].name, "use-application-dns.net")
  }

  /** Over any run: exactly the undecodable requests go unanswered; exactly the other non-queries and
      questionless queries are rejected, REFUSED and FORMERR; and exactly the enabled canary gets a bare
      NXDOMAIN, whatever the blocking mode. */
  lemma EarlyOutcomesIff(u: Setup, acts: seq<Action>, ss: seq<Sys>, id: nat)
    requires Run(u, acts, ss) && id in Last(ss).reqs
    ensures var p := Last(ss).reqs[id]; var w := RequestOf(p);
            && (p.Done? && p.outcome.Malformed? <==> w.Garbage?)
            && (p.Done? && p.outcome.Rejected? <==> w.Encoded? && !Asks(w))
            && (p.Done? && p.outcome.Canary? <==> AsksCanary(u.cfg, w))
            && (w.Encoded? && !Asks(w) ==> p.outcome.reply.code == if IsStandard(w) then FormErr else Refused)
            && (AsksCanary(u.cfg, w) ==> p.outcome.reply.code == NXDomain && p.outcome.reply.answers == [])
  {
    RunIsConsistent(u, acts, ss, |acts|, id);
    var w := RequestOf(Last(ss).reqs[id]);
    if Asks(w) {
      CanonicalNameIff(w.msg.queries[0].name, FIREFOX_CANARY);
    }
  }

  // ---- sunk replies ------------------------------------------------------

  /** A null address for the question, with the blocking TTL. */
  predicate NullFor(q: Question, r: Record) {
    && r.name == q.name && r.rtype == q.qtype && r.ttl == 60
    && (if q.qtype.A? then r.rdata.NullV4? else q.qtype.AAAA? && r.rdata.NullV6?)
  }

  /** A sunk reply carries null addresses only, and carries one exactly for address queries outside
      NXDOMAIN mode. */
  lemma SunkRepliesAreNull(u: Setup, acts: seq<Action>, ss: seq<Sys>, id: nat)
    requires Run(u, acts, ss)
    requires id in Last(ss).reqs && Last(ss).reqs[id].Done? && Last(ss).reqs[id].outcome.Sunk?
    ensures Asks(Last(ss).reqs[id].request)
    ensures var msg, reply := Last(ss).reqs[id].request.msg, Last(ss).reqs[id].outcome.reply;
            && reply.code == (if u.cfg.nxdomain then NXDomain else NoError)
            && (reply.answers != [] <==> !u.cfg.nxdomain && (msg.queries[0].qtype.A? || msg.queries[0].qtype.AAAA?))
            && (forall r :: r in reply.answers ==> NullFor(msg.queries[0], r))
            && reply.authorities == [] && reply.additionals == []
  {
    RunIsConsistent(u, acts, ss, |acts|, id);
    RunIsSound(u, acts, ss);
    assert PhaseIsSound(u, Last(ss).accepted, Last(ss).reqs[id]);
  }

  // ---- the query log -----------------------------------------------------

  /** The request left a row: it was not malformed, rejected, abandoned or dropped. */
  predicate IsLogged(p: Phase) {
    p.Done? && !(p.outcome.Malformed? || p.outcome.Rejected? || p.outcome.Abandoned? || p.outcome.Dropped?)
  }

  /** The row tells the question asked and what became of it. */
  predicate Tells(row: LogRow, p: Phase)
    requires IsLogged(p)
  {
    && p.request.Encoded? && p.request.msg.queries != []
    && Spells(p.request.msg.queries[0].name, row.name) && row.qtype == p.request.msg.queries[0].qtype
    && (row.status.WasBlocked? <==> p.outcome.Canary? || p.outcome.Sunk?)
    && (row.status.WasCached? <==> p.outcome.FromCache?)
    && (row.status.WasForwarded? <==> p.outcome.FromUpstream? && p.outcome.reply.code.NoError?)
    && (row.status.WasNxDomain? <==> p.outcome.FromUpstream? && p.outcome.reply.code.NXDomain?)
    && (row.status.WasRefused? <==> p.outcome.FromUpstream? && p.outcome.reply.code.Refused?)
  }

  lemma RowTells(p: Phase)
    requires IsLogged(p) && p.request.Encoded? && p.request.msg.queries != []
    ensures |Rows(NameOf(p.request), p)| == 1 && Tells(Rows(NameOf(p.request), p)[0], p)
  {
    CanonicalNameIff(p.request.msg.queries[0].name, NameOf(p.request));
  }

  /** What one action does to the requests and the log: it moves its own request, which was not finished,
      and adds that request's row if it is logged now. */
  ghost predicate MovesOne(s: Sys, s': Sys, id: nat) {
    && id in s'.reqs && !(id in s.reqs && s.reqs[id].Done?)
    && s'.reqs == s.reqs[id := s'.reqs[id]]
    && s'.shared.log == s.shared.log + Rows(NameOf(RequestOf(s'.reqs[id])), s'.reqs[id])
  }

  lemma AnswerMovesOne(u: Setup, s: Sys, a: Action, s': Sys)
    requires Next(u, s, a, s') && a.Answer? && PhaseIsSound(u, s.accepted, s.reqs[a.id])
    ensures MovesOne(s, s', a.id)
  {
    var r :| IsForwarded(s.reqs[a.id].msg, a.upstreams, r) && AnswerStep(u, s, a.id, r, a.evictNow, a.now, s');
  }

  lemma NextMovesOne(u: Setup, s: Sys, a: Action, s': Sys)
    requires Next(u, s, a, s') && RequestsAreSound(u, s)
    ensures if a.Swap? || a.Flush? || a.Sweep? then s'.reqs == s.reqs && s'.shared.log == s.shared.log
            else MovesOne(s, s', a.id)
  {
    if !(a.Arrive? || a.Swap? || a.Flush? || a.Sweep?) {
      assert PhaseIsSound(u, s.accepted, s.reqs[a.id]);
    }
    if a.Answer? {
      AnswerMovesOne(u, s, a, s');
    }
  }

  /** `ids` names, row by row, the requests the log tells of: each logged request once, and no other. */
  ghost predicate LogLists(s: Sys, ids: seq<nat>) {
    && |ids| == |s.shared.log|
    && (forall k :: 0 <= k < |ids| ==> RowIsFor(s, ids, k))
    && (forall j, k :: 0 <= j < k < |ids| ==> ids[j] != ids[k])
    && (forall id :: id in s.reqs && IsLogged(s.reqs[id]) ==> id in ids)
  }

  ghost predicate RowIsFor(s: Sys, ids: seq<nat>, k: int)
    requires 0 <= k < |ids| == |s.shared.log|
  {
    ids[k] in s.reqs && IsLogged(s.reqs[ids[k]]) && Tells(s.shared.log[k], s.reqs[ids[k]])
  }

  lemma MoveKeepsLog(s: Sys, s': Sys, id: nat, ids: seq<nat>) returns (ids': seq<nat>)
    requires LogLists(s, ids) && MovesOne(s, s', id)
    requires IsLogged(s'.reqs[id]) ==> s'.reqs[id].request.Encoded? && s'.reqs[id].request.msg.queries != []
    ensures LogLists(s', ids')
  {
    forall k | 0 <= k < |ids| ensures ids[k] != id {
      assert RowIsFor(s, ids, k);
    }
    if IsLogged(s'.reqs[id]) {
      RowTells(s'.reqs[id]);
      ids' := ids + [id];
    } else {
      ids' := ids;
    }
    forall k | 0 <= k < |ids'| ensures RowIsFor(s', ids', k) {
      assert k < |ids| ==> RowIsFor(s, ids, k);
    }
  }

  lemma LoggedAsked(cfg: Config, p: Phase)
    requires Consistent(cfg, p) && IsLogged(p)
    ensures p.request.Encoded? && p.request.msg.queries != []
  {
  }

  /** Over any run the log has exactly one row for each request that was blocked, served from the cache,
      forwarded or failed upstream, telling its question and its outcome, in the order of finishing; and
      none for the malformed, the rejected, the abandoned and the dropped. */
  lemma {:induction false} LogTellsOutcomes(u: Setup, acts: seq<Action>, ss: seq<Sys>) returns (ids: seq<nat>)
    requires Run(u, acts, ss)
    ensures LogLists(Last(ss), ids)
    decreases |acts|
  {
    if acts == [] {
      ids := [];
    } else {
      var n := |acts| - 1;
      RunBefore(u, acts, ss);
      RunIsSound(u, acts[..n], ss[..|acts|]);
      ids := LogTellsOutcomes(u, acts[..n], ss[..|acts|]);
      var s, a, s' := ss[n], acts[n], Last(ss);
      NextMovesOne(u, s, a, s');
      if !(a.Swap? || a.Flush? || a.Sweep?) {
        RunIsConsistent(u, acts, ss, |acts|, a.id);
        if IsLogged(s'.reqs[a.id]) {
          LoggedAsked(u.cfg, s'.reqs[a.id]);
        }
        ids := MoveKeepsLog(s, s', a.id, ids);
      } else {
        forall k | 0 <= k < |ids| ensures RowIsFor(s', ids, k) {
          assert RowIsFor(s, ids, k);
        }
      }
    }
  }
}
