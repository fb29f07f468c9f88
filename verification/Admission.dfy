/** The listeners' admission: denied sources are dropped, and each listener turns away what arrives while
    it is full. UDP listeners admit datagrams, TCP listeners connections; all share the counters. */
module Admission {
  datatype Kind = Udp | Tcp

  datatype Verdict = Denied | Shed | Admitted

  /** A listener's semaphore and the tasks that hold its permits. */
  datatype Gate = Gate(kind: Kind, permits: nat, running: nat)

  function Judged(g: Gate, allowed: bool): Verdict {
    if !allowed then Denied else if g.permits == 0 then Shed else Admitted
  }

  function Arrived(g: Gate, allowed: bool): Gate {
    if Judged(g, allowed).Admitted? then g.(permits := g.permits - 1, running := g.running + 1) else g
  }

  function Ended(g: Gate): Gate
    requires g.running > 0
  {
    g.(permits := g.permits + 1, running := g.running - 1)
  }

  datatype Counters = Counters(denied: nat, udpOverloadDrops: nat, tcpRejections: nat)

  function Counted(c: Counters, kind: Kind, v: Verdict): Counters {
    match v
    case Denied => c.(denied := c.denied + 1)
    case Shed =>
      if kind.Udp? then c.(udpOverloadDrops := c.udpOverloadDrops + 1) else c.(tcpRejections := c.tcpRejections + 1)
    case Admitted => c
  }

  class Stats {
    var denied: nat
    var udpOverloadDrops: nat
    var tcpRejections: nat

    function View(): Counters
      reads this
    {
      Counters(denied, udpOverloadDrops, tcpRejections)
    }

    constructor ()
      ensures View() == Counters(0, 0, 0)
    {
      denied, udpOverloadDrops, tcpRejections := 0, 0, 0;
    }
  }

  class Listener {
    const kind: Kind
    const stats: Stats
    var permits: nat
    var running: nat

    function View(): Gate
      reads this
    {
      Gate(kind, permits, running)
    }

    constructor (kind: Kind, limit: nat, stats: Stats)
      ensures View() == Gate(kind, limit, 0) && this.stats == stats
    {
      this.kind, this.stats, permits, running := kind, stats, limit, 0;
    }

    /** One turn of the receive or accept loop; what is admitted takes a permit into its own task. */
    method Receive(allowed: bool) returns (verdict: Verdict)
      modifies this`permits, this`running, stats
      ensures verdict == Judged(old(View()), allowed)
      ensures View() == Arrived(old(View()), allowed)
      ensures stats.View() == Counted(old(stats.View()), kind, verdict)
    {
      if !allowed {
        stats.denied := stats.denied + 1;
        return Denied;
      }
      if permits == 0 {
        if kind.Udp? {
          stats.udpOverloadDrops := stats.udpOverloadDrops + 1;
        } else {
          stats.tcpRejections := stats.tcpRejections + 1;
        }
        return Shed;
      }
      permits, running := permits - 1, running + 1;
      return Admitted;
    }

    /** A task ends, however it ends, and its permit returns. */
    method Finish()
      requires running > 0
      modifies this`permits, this`running
      ensures View() == Ended(old(View()))
    {
      permits, running := permits + 1, running - 1;
    }
  }

  // ---- all listeners over a whole run ------------------------------------

  datatype Event = Arrive(at: nat, allowed: bool) | End(at: nat)

  datatype State = State(gates: seq<Gate>, counters: Counters)

  predicate Start(s: State) {
    s.counters == Counters(0, 0, 0) && forall l :: 0 <= l < |s.gates| ==> s.gates[l].running == 0
  }

  /** Only a running request ends. */
  predicate Possible(s: State, ev: Event) {
    ev.at < |s.gates| && (ev.End? ==> s.gates[ev.at].running > 0)
  }

  function Next(s: State, ev: Event): State
    requires Possible(s, ev)
  {
    var g := s.gates[ev.at];
    match ev
    case End(l) => s.(gates := s.gates[l := Ended(g)])
    case Arrive(l, allowed) =>
      State(s.gates[l := Arrived(g, allowed)], Counted(s.counters, g.kind, Judged(g, allowed)))
  }

  /** `trace` lists the states of a run of the listeners through `evs`. */
  ghost predicate Run(evs: seq<Event>, trace: seq<State>) {
    && |trace| == |evs| + 1 && Start(trace[0])
    && forall i :: 0 <= i < |evs| ==> NextAt(evs, trace, i)
  }

  ghost predicate NextAt(evs: seq<Event>, trace: seq<State>, i: int)
    requires 0 <= i < |evs| && |trace| == |evs| + 1
  {
    Possible(trace[i], evs[i]) && trace[i + 1] == Next(trace[i], evs[i])
  }

  /** How many of the first `n` events are of a sort, each in the state it met. */
  function Tally(evs: seq<Event>, trace: seq<State>, n: nat, sort: (State, Event) -> bool): nat
    requires n <= |evs| && |trace| == |evs| + 1
  {
    if n == 0 then 0
    else Tally(evs, trace, n - 1, sort) + if sort(trace[n - 1], evs[n - 1]) then 1 else 0
  }

  predicate Gets(s: State, ev: Event, v: Verdict) {
    ev.Arrive? && ev.at < |s.gates| && Judged(s.gates[ev.at], ev.allowed) == v
  }

  function ArrivalsAt(evs: seq<Event>, trace: seq<State>, n: nat, l: nat): nat
    requires n <= |evs| && |trace| == |evs| + 1
  {
    Tally(evs, trace, n, (s, ev: Event) => ev.Arrive? && ev.at == l)
  }

  function VerdictsAt(evs: seq<Event>, trace: seq<State>, n: nat, l: nat, v: Verdict): nat
    requires n <= |evs| && |trace| == |evs| + 1
  {
    Tally(evs, trace, n, (s, ev: Event) => ev.at == l && Gets(s, ev, v))
  }

  function EndsAt(evs: seq<Event>, trace: seq<State>, n: nat, l: nat): nat
    requires n <= |evs| && |trace| == |evs| + 1
  {
    Tally(evs, trace, n, (s, ev: Event) => ev == End(l))
  }

  /** How often any listener of the kind gave the verdict. */
  function VerdictsBy(evs: seq<Event>, trace: seq<State>, n: nat, kind: Kind, v: Verdict): nat
    requires n <= |evs| && |trace| == |evs| + 1
  {
    Tally(evs, trace, n, (s: State, ev: Event) => Gets(s, ev, v) && s.gates[ev.at].kind == kind)
  }

  lemma {:induction false} ListenerUpTo(evs: seq<Event>, trace: seq<State>, l: nat, n: nat)
    requires Run(evs, trace) && n <= |evs| && l < |trace[0].gates|
    ensures |trace[n].gates| == |trace[0].gates|
    ensures trace[n].gates[l].kind == trace[0].gates[l].kind
    ensures trace[n].gates[l].permits + trace[n].gates[l].running == trace[0].gates[l].permits
    ensures VerdictsAt(evs, trace, n, l, Admitted) == EndsAt(evs, trace, n, l) + trace[n].gates[l].running
    ensures ArrivalsAt(evs, trace, n, l)
         == VerdictsAt(evs, trace, n, l, Denied) + VerdictsAt(evs, trace, n, l, Shed)
            + VerdictsAt(evs, trace, n, l, Admitted)
  {
    if n > 0 {
      ListenerUpTo(evs, trace, l, n - 1);
      assert NextAt(evs, trace, n - 1);
    }
  }

  /** Over any run, each listener's arrivals are denied, shed, finished or still running. */
  lemma ListenerIsAccountedFor(evs: seq<Event>, trace: seq<State>, l: nat)
    requires Run(evs, trace) && l < |trace[0].gates|
    ensures |trace[|evs|].gates| == |trace[0].gates|
    ensures ArrivalsAt(evs, trace, |evs|, l)
         == VerdictsAt(evs, trace, |evs|, l, Denied) + VerdictsAt(evs, trace, |evs|, l, Shed)
            + EndsAt(evs, trace, |evs|, l) + trace[|evs|].gates[l].running
  {
    ListenerUpTo(evs, trace, l, |evs|);
  }

  lemma {:induction false} CountersUpTo(evs: seq<Event>, trace: seq<State>, n: nat)
    requires Run(evs, trace) && n <= |evs|
    ensures var c := trace[n].counters;
            && c.denied == VerdictsBy(evs, trace, n, Udp, Denied) + VerdictsBy(evs, trace, n, Tcp, Denied)
            && c.udpOverloadDrops == VerdictsBy(evs, trace, n, Udp, Shed)
            && c.tcpRejections == VerdictsBy(evs, trace, n, Tcp, Shed)
  {
    if n > 0 {
      CountersUpTo(evs, trace, n - 1);
      assert NextAt(evs, trace, n - 1);
    }
  }

  /** The shared counters are exactly the verdicts: denials by any listener, and what was shed by kind. */
  lemma CountersAreVerdicts(evs: seq<Event>, trace: seq<State>)
    requires Run(evs, trace)
    ensures var c, n := trace[|evs|].counters, |evs|;
            && c.denied == VerdictsBy(evs, trace, n, Udp, Denied) + VerdictsBy(evs, trace, n, Tcp, Denied)
            && c.udpOverloadDrops == VerdictsBy(evs, trace, n, Udp, Shed)
            && c.tcpRejections == VerdictsBy(evs, trace, n, Tcp, Shed)
  {
    CountersUpTo(evs, trace, |evs|);
  }

  function Running(gates: seq<Gate>): nat {
    if gates == [] then 0 else Running(gates[..|gates| - 1]) + gates[|gates| - 1].running
  }

  lemma {:induction false} RunningUpdate(gates: seq<Gate>, i: nat, g: Gate)
    requires i < |gates|
    ensures Running(gates[i := g]) == Running(gates) - gates[i].running + g.running
    decreases |gates|
  {
    var last := |gates| - 1;
    if i == last {
      assert gates[i := g][..last] == gates[..last];
    } else {
      RunningUpdate(gates[..last], i, g);
      assert gates[i := g][..last] == gates[..last][i := g];
    }
  }

  lemma {:induction false} IdleGates(gates: seq<Gate>)
    requires forall l :: 0 <= l < |gates| ==> gates[l].running == 0
    ensures Running(gates) == 0
    decreases |gates|
  {
    if gates != [] {
      IdleGates(gates[..|gates| - 1]);
    }
  }

  function Arrivals(evs: seq<Event>): nat {
    if evs == [] then 0 else Arrivals(evs[..|evs| - 1]) + if evs[|evs| - 1].Arrive? then 1 else 0
  }

  function Ends(evs: seq<Event>): nat {
    if evs == [] then 0 else Ends(evs[..|evs| - 1]) + if evs[|evs| - 1].End? then 1 else 0
  }

  function TurnedAway(c: Counters): nat {
    c.denied + c.udpOverloadDrops + c.tcpRejections
  }

  lemma StepIsAccountedFor(s: State, ev: Event)
    requires Possible(s, ev)
    ensures var s' := Next(s, ev);
            TurnedAway(s.counters) + Running(s.gates) + (if ev.Arrive? then 1 else 0)
            == TurnedAway(s'.counters) + Running(s'.gates) + (if ev.End? then 1 else 0)
  {
    RunningUpdate(s.gates, ev.at, Next(s, ev).gates[ev.at]);
  }

  lemma {:induction false} AccountedUpTo(evs: seq<Event>, trace: seq<State>, n: nat)
    requires Run(evs, trace) && n <= |evs|
    ensures Arrivals(evs[..n]) == TurnedAway(trace[n].counters) + Ends(evs[..n]) + Running(trace[n].gates)
  {
    if n == 0 {
      IdleGates(trace[0].gates);
    } else {
      AccountedUpTo(evs, trace, n - 1);
      assert NextAt(evs, trace, n - 1);
      StepIsAccountedFor(trace[n - 1], evs[n - 1]);
      assert evs[..n][..n - 1] == evs[..n - 1];
    }
  }

  /** Over all listeners together, every arrival is accounted for by the shared counters and the tasks:
      denied, shed, refused a connection, finished or still running. */
  lemma ArrivalsAreAccountedFor(evs: seq<Event>, trace: seq<State>)
    requires Run(evs, trace)
    ensures Arrivals(evs) == TurnedAway(trace[|evs|].counters) + Ends(evs) + Running(trace[|evs|].gates)
  {
    AccountedUpTo(evs, trace, |evs|);
    assert evs[..|evs|] == evs;
  }

  /** The limit is each listener's own: it is never exceeded, and a permitted arrival is shed exactly when
      its own listener is full, however idle the others are. */
  lemma LimitIsPerListener(evs: seq<Event>, trace: seq<State>, l: nat)
    requires Run(evs, trace) && l < |trace[0].gates|
    ensures |trace[|evs|].gates| == |trace[0].gates|
    ensures var g, limit := trace[|evs|].gates[l], trace[0].gates[l].permits;
            && g.running <= limit
            && (Judged(g, true).Shed? <==> g.running == limit)
            && (Arrived(g, true).running == g.running + 1 <==> g.running < limit)
  {
    ListenerUpTo(evs, trace, l, |evs|);
  }

  // ---- each event on its own ---------------------------------------------

  /** How many events are arrivals from a source outside the access list. */
  function Outsiders(evs: seq<Event>): nat {
    if evs == [] then 0
    else
      var last := evs[|evs| - 1];
      Outsiders(evs[..|evs| - 1]) + if last.Arrive? && !last.allowed then 1 else 0
  }

  lemma {:induction false} DeniedUpTo(evs: seq<Event>, trace: seq<State>, n: nat)
    requires Run(evs, trace) && n <= |evs|
    ensures trace[n].counters.denied == Outsiders(evs[..n])
  {
    if n > 0 {
      DeniedUpTo(evs, trace, n - 1);
      assert NextAt(evs, trace, n - 1);
      assert evs[..n][..n - 1] == evs[..n - 1];
    }
  }

  /** Over any run exactly the arrivals from outside the access list are denied. */
  lemma DeniedAreOutsiders(evs: seq<Event>, trace: seq<State>)
    requires Run(evs, trace)
    ensures trace[|evs|].counters.denied == Outsiders(evs)
  {
    DeniedUpTo(evs, trace, |evs|);
    assert evs[..|evs|] == evs;
  }

  /** What an arrival does at any point of any run. One from outside changes no gate, whatever room there
      is. One from inside takes a place at its own listener if fewer tasks run there than its limit, and
      otherwise is counted as shed by that kind of listener. */
  lemma ArrivalDoes(evs: seq<Event>, trace: seq<State>, n: nat)
    requires Run(evs, trace) && n < |evs| && evs[n].Arrive?
    ensures |trace[n].gates| == |trace[n + 1].gates| == |trace[0].gates| && evs[n].at < |trace[0].gates|
    ensures var s, s', l := trace[n], trace[n + 1], evs[n].at;
            var g, c := s.gates[l], s.counters;
            if !evs[n].allowed then
              s'.gates == s.gates && s'.counters == c.(denied := c.denied + 1)
            else if g.running < trace[0].gates[l].permits then
              && s'.gates == s.gates[l := s'.gates[l]] && s'.gates[l].running == g.running + 1
              && s'.counters == c
            else
              && s'.gates == s.gates
              && s'.counters == if trace[0].gates[l].kind == Udp then c.(udpOverloadDrops := c.udpOverloadDrops + 1)
                                else c.(tcpRejections := c.tcpRejections + 1)
  {
    assert NextAt(evs, trace, n);
    GatesStay(evs, trace, n);
    ListenerUpTo(evs, trace, evs[n].at, n);
  }

  lemma {:induction false} GatesStay(evs: seq<Event>, trace: seq<State>, n: nat)
    requires Run(evs, trace) && n <= |evs|
    ensures |trace[n].gates| == |trace[0].gates|
  {
    if n > 0 {
      GatesStay(evs, trace, n - 1);
      assert NextAt(evs, trace, n - 1);
    }
  }

  /** And an end frees one place at its own listener. */
  lemma EndDoes(evs: seq<Event>, trace: seq<State>, n: nat)
    requires Run(evs, trace) && n < |evs| && evs[n].End?
    ensures evs[n].at < |trace[n].gates| == |trace[n + 1].gates|
    ensures var s, s', l := trace[n], trace[n + 1], evs[n].at;
            && s'.counters == s.counters && s'.gates == s.gates[l := s'.gates[l]]
            && s'.gates[l].running == s.gates[l].running - 1
  {
    assert NextAt(evs, trace, n);
  }
}
