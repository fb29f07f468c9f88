/** What a forwarded request is answered with, in terms of what came over the wire, over any interleaved
    run; and what the replies to requests that fail carry. */
module ResolverAnswers {
  import opened Wrappers
  import opened Messages
  import opened Forwarding
  import opened Resolvers
  import opened ResolverRuns
  import opened ResolverSafety
  import opened ResolverOutcomes
  import opened NameSpelling

  // ---- the reply that counts ---------------------------------------------

  /** The reply has the request's id and, but for letter case, its question. */
  predicate RepliesTo(request: Message, m: Message) {
    && m.id == request.id && request.queries != [] && m.queries != []
    && m.queries[0].qtype == request.queries[0].qtype && m.queries[0].qclass == request.queries[0].qclass
    && SameText(request.queries[0].name, m.queries[0].name)
  }

  lemma RepliesToIff(request: Message, m: Message)
    ensures AnswersRequest(request, m) <==> RepliesTo(request, m)
  {
    if request.queries != [] && m.queries != [] {
      IgnoringCaseIff(request.queries[0].name, m.queries[0].name);
    }
  }

  /** The upstream has the answer `m` for the request: whole over UDP, or over TCP behind a UDP reply that was
      cut short. */
  predicate Gives(request: Message, up: Upstream, m: Message) {
    && up.UdpReplied? && up.reply.Encoded? && RepliesTo(request, m)
    && if up.reply.msg.truncated then up.retry == TcpReplied(Encoded(m)) else up.reply.msg == m
  }

  ghost predicate GivesNothing(request: Message, up: Upstream) {
    forall m :: !Gives(request, up, m)
  }

  lemma AttemptGives(request: Message, up: Upstream)
    ensures forall m :: Gives(request, up, m) <==> Attempt(request, up).Ok? && Attempt(request, up).value.msg == m
    ensures GivesNothing(request, up) <==> Attempt(request, up).Err?
  {
    forall m ensures Gives(request, up, m) <==> Attempt(request, up).Ok? && Attempt(request, up).value.msg == m {
      RepliesToIff(request, m);
    }
    if up.UdpReplied? && up.reply.Encoded? {
      RepliesToIff(request, up.reply.msg);
      if up.retry.TcpReplied? && up.retry.reply.Encoded? {
        RepliesToIff(request, up.retry.reply.msg);
      }
    }
    if Attempt(request, up).Ok? {
      assert Gives(request, up, Attempt(request, up).value.msg);
    }
  }

  /** `m` is the answer of the first upstream that has one. */
  ghost predicate FirstGiven(request: Message, ups: seq<Upstream>, m: Message) {
    exists i: nat :: i < |ups| && Gives(request, ups[i], m) && NoneBefore(request, ups, i)
  }

  ghost predicate NoneBefore(request: Message, ups: seq<Upstream>, i: nat)
    requires i <= |ups|
  {
    forall j :: 0 <= j < i ==> GivesNothing(request, ups[j])
  }

  lemma ForwardedIsFirstGiven(request: Message, ups: seq<Upstream>, r: Result<Reply, ForwardError>, m: Message)
    requires IsForwarded(request, ups, r)
    ensures r.Ok? && r.value.msg == m <==> FirstGiven(request, ups, m)
    ensures r.Err? <==> NoneBefore(request, ups, |ups|)
  {
    forall j | 0 <= j < |ups| ensures GivesNothing(request, ups[j]) <==> Attempt(request, ups[j]).Err? {
      AttemptGives(request, ups[j]);
    }
    if r.Ok? {
      var i: nat :| i < |ups| && Attempt(request, ups[i]) == r
                    && forall j :: 0 <= j < i ==> Attempt(request, ups[j]).Err?;
      AttemptGives(request, ups[i]);
      assert !GivesNothing(request, ups[i]);
      if k: nat :| k < |ups| && Gives(request, ups[k], m) && NoneBefore(request, ups, k) {
        AttemptGives(request, ups[k]);
        assert i == k;
      }
    }
  }

  /** Why an upstream that was tried has no answer. */
  function Reason(up: Upstream): ForwardError {
    match up
    case Slow => TimedOut
    case UdpFailed => ExchangeFailed
    case UdpReplied(Garbage, _) => Undecodable
    case UdpReplied(Encoded(m), retry) =>
      if !m.truncated then AnotherQuestion
      else
        (match retry
         case TcpSlow => TimedOut
         case TcpFailed => ExchangeFailed
         case TcpReplied(Garbage) => Undecodable
         case TcpReplied(Encoded(_)) => AnotherQuestion)
  }

  /** When none has an answer, the error is that there is none to ask, or the last one's reason. */
  lemma FailureIsLastReason(request: Message, ups: seq<Upstream>, e: ForwardError)
    requires IsForwarded(request, ups, Err(e))
    ensures e == if ups == [] then NoUpstreams else Reason(ups[|ups| - 1])
  {
  }

  // ---- and the client gets it --------------------------------------------

  lemma AnswerStepIs(u: Setup, acts: seq<Action>, ss: seq<Sys>, n: nat, r: Result<Reply, ForwardError>)
    requires Run(u, acts, ss) && n < |acts| && acts[n].Answer?
    requires acts[n].id in ss[n].reqs && ss[n].reqs[acts[n].id].Awaiting?
    requires IsForwarded(ss[n].reqs[acts[n].id].msg, acts[n].upstreams, r)
    ensures acts[n].id in ss[n + 1].reqs && ss[n].reqs[acts[n].id].msg.queries != []
    ensures ss[n + 1].reqs[acts[n].id] == Answered(u.cfg, ss[n].reqs[acts[n].id].msg, r)
  {
    assert NextAt(u, acts, ss, n);
    var s, a, s' := ss[n], acts[n], ss[n + 1];
    var r' :| IsForwarded(s.reqs[a.id].msg, a.upstreams, r') && AnswerStep(u, s, a.id, r', a.evictNow, a.now, s');
    ForwardIsDetermined(s.reqs[a.id].msg, a.upstreams, r, r');
  }

  lemma Forwards(u: Setup, acts: seq<Action>, ss: seq<Sys>, n: nat) returns (r: Result<Reply, ForwardError>)
    requires Run(u, acts, ss) && n < |acts| && acts[n].Answer?
    ensures acts[n].id in ss[n].reqs && ss[n].reqs[acts[n].id].Awaiting?
    ensures IsForwarded(ss[n].reqs[acts[n].id].msg, acts[n].upstreams, r)
  {
    assert NextAt(u, acts, ss, n);
    var s, a, s' := ss[n], acts[n], ss[n + 1];
    r :| IsForwarded(s.reqs[a.id].msg, a.upstreams, r) && AnswerStep(u, s, a.id, r, a.evictNow, a.now, s');
  }

  /** Over any run, a request that is forwarded is answered, then and for good, with the first upstream's
      answer, exactly as it came; and with a failure exactly when no upstream gave one. */
  lemma FirstGivenIsRelayed(u: Setup, acts: seq<Action>, ss: seq<Sys>, n: nat, j: nat)
    requires Run(u, acts, ss) && n < |acts| && acts[n].Answer? && n < j < |ss|
    ensures acts[n].id in ss[n].reqs && ss[n].reqs[acts[n].id].Awaiting? && acts[n].id in ss[j].reqs
    ensures var msg, p := ss[n].reqs[acts[n].id].msg, ss[j].reqs[acts[n].id];
            && p.Done? && p.request == Encoded(msg)
            && (forall m :: p.outcome == FromUpstream(m) <==> FirstGiven(msg, acts[n].upstreams, m))
            && (p.outcome.UpstreamFailed? <==> NoneBefore(msg, acts[n].upstreams, |acts[n].upstreams|))
            && (p.outcome.FromUpstream? || p.outcome.UpstreamFailed?)
  {
    var id, ups := acts[n].id, acts[n].upstreams;
    var r := Forwards(u, acts, ss, n);
    AnswerStepIs(u, acts, ss, n, r);
    DoneStaysDone(u, acts, ss, id, n + 1, j);
    var msg := ss[n].reqs[id].msg;
    forall m ensures ss[j].reqs[id].outcome == FromUpstream(m) <==> FirstGiven(msg, ups, m) {
      ForwardedIsFirstGiven(msg, ups, r, m);
    }
    ForwardedIsFirstGiven(msg, ups, r, msg);
  }

  // ---- what failures carry -----------------------------------------------

  predicate Bare(reply: Message) {
    && reply.answers == [] && reply.authorities == [] && reply.additionals == []
    && !reply.authoritative && !reply.truncated && reply.opcode == Query
  }

  /** Every reply that is no answer carries no record and claims no authority, and its code tells why. */
  lemma FailuresAreBare(u: Setup, acts: seq<Action>, ss: seq<Sys>, id: nat)
    requires Run(u, acts, ss) && id in Last(ss).reqs && Last(ss).reqs[id].Done?
    ensures FailsBare(Last(ss).reqs[id].outcome)
  {
    RunIsSound(u, acts, ss);
    SoundFailureIsBare(u, Last(ss).accepted, Last(ss).reqs[id]);
  }

  predicate FailsBare(o: Outcome) {
    && (o.UpstreamFailed? || o.Abandoned? ==> Bare(o.reply) && o.reply.code == ServFail)
    && (o.Canary? ==> Bare(o.reply) && o.reply.code == NXDomain)
    && (o.Rejected? ==> Bare(o.reply) && (o.reply.code == FormErr || o.reply.code == Code.Refused))
    && (o.Sunk? ==> Bare(o.reply.(answers := [])) && |o.reply.answers| <= 1)
  }

  lemma SoundFailureIsBare(u: Setup, accepted: seq<Accepted>, p: Phase)
    requires p.Done? && PhaseIsSound(u, accepted, p)
    ensures FailsBare(p.outcome)
  {
  }
}
