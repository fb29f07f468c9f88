/** Trying each upstream in turn until one answers the question that was asked. */
module Forwarding {
  import opened Wrappers
  import opened Messages

  datatype Transport = Udp | Tcp

  /** What the network does to one attempt: the UDP exchange, and the TCP retry should it come to that. */
  datatype Upstream =
    | Slow
    | UdpFailed
    | UdpReplied(reply: Wire, retry: TcpRetry)

  datatype TcpRetry = TcpSlow | TcpFailed | TcpReplied(reply: Wire)

  datatype ForwardError = NoUpstreams | TimedOut | ExchangeFailed | AnotherQuestion | Undecodable

  datatype Reply = Reply(msg: Message, via: Transport)

  predicate Truncated(w: Wire) {
    w.Encoded? && w.msg.truncated
  }

  /** Only a reply to the question we actually asked is accepted. */
  function Judged(request: Message, reply: Wire, via: Transport): Result<Reply, ForwardError> {
    match reply
    case Garbage => Err(Undecodable)
    case Encoded(m) => if AnswersRequest(request, m) then Ok(Reply(m, via)) else Err(AnotherQuestion)
  }

  /** One attempt: a truncated UDP answer is retried over TCP at the same upstream. */
  function Attempt(request: Message, upstream: Upstream): Result<Reply, ForwardError> {
    match upstream
    case Slow => Err(TimedOut)
    case UdpFailed => Err(ExchangeFailed)
    case UdpReplied(reply, retry) =>
      if !Truncated(reply) then Judged(request, reply, Udp)
      else
        match retry
        case TcpSlow => Err(TimedOut)
        case TcpFailed => Err(ExchangeFailed)
        case TcpReplied(full) => Judged(request, full, Tcp)
  }

  /** The first useful answer; otherwise the last upstream's error. */
  ghost predicate IsForwarded(request: Message, upstreams: seq<Upstream>, r: Result<Reply, ForwardError>) {
    match r
    case Ok(_) =>
      exists i: nat ::
        && i < |upstreams| && Attempt(request, upstreams[i]) == r
        && forall j :: 0 <= j < i ==> Attempt(request, upstreams[j]).Err?
    case Err(e) =>
      && (forall j :: 0 <= j < |upstreams| ==> Attempt(request, upstreams[j]).Err?)
      && e == if upstreams == [] then NoUpstreams else Attempt(request, upstreams[|upstreams| - 1]).error
  }

  method Forward(request: Message, upstreams: seq<Upstream>) returns (r: Result<Reply, ForwardError>)
    ensures IsForwarded(request, upstreams, r)
  {
    var lastErr: Option<ForwardError> := None;
    for i := 0 to |upstreams|
      invariant forall j :: 0 <= j < i ==> Attempt(request, upstreams[j]).Err?
      invariant lastErr == if i == 0 then None else Some(Attempt(request, upstreams[i - 1]).error)
    {
      var outcome := Attempt(request, upstreams[i]);
      match outcome {
        case Ok(reply) => return outcome;
        case Err(e) => lastErr := Some(e);
      }
    }
    return Err(if lastErr.Some? then lastErr.value else NoUpstreams);
  }

  /** The outcome is determined by the upstreams' behaviour. */
  lemma ForwardIsDetermined(request: Message, upstreams: seq<Upstream>,
                            r: Result<Reply, ForwardError>, r': Result<Reply, ForwardError>)
    requires IsForwarded(request, upstreams, r) && IsForwarded(request, upstreams, r')
    ensures r == r'
  {
    if r.Ok? && r'.Ok? {
      var i: nat :| i < |upstreams| && Attempt(request, upstreams[i]) == r
                    && forall j :: 0 <= j < i ==> Attempt(request, upstreams[j]).Err?;
      var k: nat :| k < |upstreams| && Attempt(request, upstreams[k]) == r'
                    && forall j :: 0 <= j < k ==> Attempt(request, upstreams[j]).Err?;
      assert i == k;
    }
  }

  /** Whatever is accepted answers the question that was asked, and no truncated UDP reply is. */
  lemma AcceptedRepliesAreGenuine(request: Message, upstreams: seq<Upstream>, r: Result<Reply, ForwardError>)
    requires IsForwarded(request, upstreams, r) && r.Ok?
    ensures AnswersRequest(request, r.value.msg)
    ensures r.value.via.Udp? ==> !r.value.msg.truncated
  {
  }
}
