/** What every run of cache steps keeps: the cache against a plain history of inserts, and TTLs. */
module CacheHistory {
  import opened Wrappers
  import opened Messages
  import opened AnswerCache

  // ---- runs --------------------------------------------------------------

  /** `ms` are the states of a cache that starts empty and undergoes the events `h`. */
  ghost predicate Run(lim: Limits, h: seq<Event>, ms: seq<Store>) {
    && |ms| == |h| + 1
    && ms[0] == map[]
    && forall i :: 0 <= i < |h| ==> StepAt(lim, h, ms, i)
  }

  ghost predicate StepAt(lim: Limits, h: seq<Event>, ms: seq<Store>, i: int)
    requires 0 <= i < |h| && |ms| == |h| + 1
  {
    Step(lim, ms[i], h[i], ms[i + 1])
  }

  ghost function Final(ms: seq<Store>): Store
    requires ms != []
  {
    ms[|ms| - 1]
  }

  predicate AcceptedInsert(lim: Limits, ev: Event, key: Key) {
    ev.Inserted? && ev.key == key && Lifetime(ev.msg, lim).Some?
  }

  /** Event `i` is the last insert accepted for `key`, with no clear after it. */
  predicate IsLatest(lim: Limits, h: seq<Event>, key: Key, i: nat) {
    && i < |h|
    && AcceptedInsert(lim, h[i], key)
    && forall j :: i < j < |h| ==> !h[j].Cleared? && !AcceptedInsert(lim, h[j], key)
  }

  function EntryAt(lim: Limits, ev: Event): Entry
    requires ev.Inserted? && Lifetime(ev.msg, lim).Some?
  {
    EntryOf(ev.msg, Lifetime(ev.msg, lim).value, ev.now)
  }

  /** The entry is the latest accepted insert for the key. */
  ghost predicate LatestFor(lim: Limits, h: seq<Event>, k: Key, e: Entry) {
    exists i: nat :: IsLatest(lim, h, k, i) && e == EntryAt(lim, h[i])
  }

  ghost predicate EntriesAreLatest(lim: Limits, h: seq<Event>, m: Store) {
    forall k :: k in m ==> LatestFor(lim, h, k, m[k])
  }

  lemma {:induction false} BoundHoldsUpTo(lim: Limits, h: seq<Event>, ms: seq<Store>, n: nat)
    requires 1 <= lim.maxEntries && Run(lim, h, ms) && n <= |h|
    ensures |ms[n]| <= lim.maxEntries
  {
    if n > 0 {
      BoundHoldsUpTo(lim, h, ms, n - 1);
      assert StepAt(lim, h, ms, n - 1);
      StepKeepsBound(lim, ms[n - 1], h[n - 1], ms[n]);
    }
  }

  lemma {:induction false} EntriesAreLatestUpTo(lim: Limits, h: seq<Event>, ms: seq<Store>, n: nat)
    requires Run(lim, h, ms) && n <= |h|
    ensures EntriesAreLatest(lim, h[..n], ms[n])
  {
    if n > 0 {
      EntriesAreLatestUpTo(lim, h, ms, n - 1);
      var past := h[..n];
      assert past[..n - 1] == h[..n - 1];
      assert StepAt(lim, h, ms, n - 1);
      forall k | k in ms[n] ensures LatestFor(lim, past, k, ms[n][k]) {
        EntryStaysLatest(lim, past, ms[n - 1], ms[n], k);
      }
    }
  }

  /** In every run, every entry is the latest accepted insert for its key, and the cache never
      holds more than its limit. */
  lemma RunRefinesHistory(lim: Limits, h: seq<Event>, ms: seq<Store>)
    requires 1 <= lim.maxEntries && Run(lim, h, ms)
    ensures |Final(ms)| <= lim.maxEntries
    ensures EntriesAreLatest(lim, h, Final(ms))
  {
    BoundHoldsUpTo(lim, h, ms, |h|);
    EntriesAreLatestUpTo(lim, h, ms, |h|);
    assert h[..|h|] == h;
  }

  lemma EntryStaysLatest(lim: Limits, h: seq<Event>, m: Store, m': Store, k: Key)
    requires h != [] && EntriesAreLatest(lim, h[..|h| - 1], m) && Step(lim, m, h[|h| - 1], m') && k in m'
    ensures LatestFor(lim, h, k, m'[k])
  {
    var n := |h| - 1;
    if AcceptedInsert(lim, h[n], k) {
      StepStores(lim, m, h[n], m');
      assert IsLatest(lim, h, k, n);
    } else {
      StepOnlyForgets(lim, m, h[n], m', k);
      LatestStaysLatest(lim, h, k, m[k]);
    }
  }

  lemma AddingGrowsByOne(m: Store, key: Key, e: Entry)
    ensures |m[key := e]| <= |m| + 1
  {
    assert m[key := e].Keys == m.Keys + {key};
  }

  lemma InsertKeepsBound(lim: Limits, m: Store, ev: Event, m': Store)
    requires 1 <= lim.maxEntries && |m| <= lim.maxEntries && Step(lim, m, ev, m')
    requires ev.Inserted? && Lifetime(ev.msg, lim).Some?
    ensures |m'| <= lim.maxEntries
  {
    var e := EntryOf(ev.msg, Lifetime(ev.msg, lim).value, ev.now);
    if |m| < lim.maxEntries {
      AddingGrowsByOne(m, ev.key, e);
    } else {
      var room :| Evicted(m, ev.evictNow, room) && m' == room[ev.key := e];
      EvictionProgresses(m, ev.evictNow, room);
      AddingGrowsByOne(room, ev.key, e);
    }
  }

  lemma StepKeepsBound(lim: Limits, m: Store, ev: Event, m': Store)
    requires 1 <= lim.maxEntries && |m| <= lim.maxEntries && Step(lim, m, ev, m')
    ensures |m'| <= lim.maxEntries
  {
    match ev
    case Looked(key, now) => SubsetSize(m'.Keys, m.Keys);
    case Swept(now) => FilterSize(m, now);
    case Cleared =>
    case Inserted(key, msg, evictNow, now) =>
      if Lifetime(msg, lim).Some? {
        InsertKeepsBound(lim, m, ev, m');
      }
  }

  lemma StepStores(lim: Limits, m: Store, ev: Event, m': Store)
    requires ev.Inserted? && Lifetime(ev.msg, lim).Some? && Step(lim, m, ev, m')
    ensures ev.key in m' && m'[ev.key] == EntryAt(lim, ev)
  {
  }

  /** A declined insert, an insert for another key, a sweep, a lookup or an eviction never changes
      what a key answers, except to nothing. */
  lemma StepOnlyForgets(lim: Limits, m: Store, ev: Event, m': Store, k: Key)
    requires Step(lim, m, ev, m') && !AcceptedInsert(lim, ev, k)
    ensures k in m' ==> k in m && m'[k] == m[k] && !ev.Cleared?
    ensures forall now :: Hit(m', k, now) == Hit(m, k, now) || Hit(m', k, now) == None
  {
    if ev.Inserted? && Lifetime(ev.msg, lim).Some? && |m| >= lim.maxEntries {
      var room :| Evicted(m, ev.evictNow, room)
               && m' == room[ev.key := EntryOf(ev.msg, Lifetime(ev.msg, lim).value, ev.now)];
      EvictionProgresses(m, ev.evictNow, room);
    }
  }

  lemma LatestStaysLatest(lim: Limits, h: seq<Event>, k: Key, e: Entry)
    requires h != [] && LatestFor(lim, h[..|h| - 1], k, e)
    requires !h[|h| - 1].Cleared? && !AcceptedInsert(lim, h[|h| - 1], k)
    ensures LatestFor(lim, h, k, e)
  {
    var n := |h| - 1;
    var i: nat :| IsLatest(lim, h[..n], k, i) && e == EntryAt(lim, h[..n][i]);
    assert IsLatest(lim, h, k, i);
  }

  /** The answer is this insert aged and without OPT, and it is served only before insert time
      plus min(shortest TTL, max_ttl). */
  predicate ServesInsert(lim: Limits, ev: Event, now: Instant, answer: CachedAnswer)
    requires ev.Inserted?
  {
    match MinTtl(ev.msg.answers + ev.msg.authorities)
    case None => false
    case Some(shortest) =>
      && now < ev.now + Min(shortest, lim.maxTtl) * NANOS
      && answer == Aged(EntryOf(ev.msg, Min(shortest, lim.maxTtl), ev.now), now)
  }

  /** A hit is precisely the latest accepted insert for the key since the last clear. */
  lemma HitIsLatestInsert(lim: Limits, h: seq<Event>, ms: seq<Store>, key: Key, now: Instant)
    requires 1 <= lim.maxEntries && Run(lim, h, ms) && Hit(Final(ms), key, now).Some?
    ensures exists i: nat ::
              IsLatest(lim, h, key, i) && ServesInsert(lim, h[i], now, Hit(Final(ms), key, now).value)
  {
    RunRefinesHistory(lim, h, ms);
    var m := Final(ms);
    var i: nat :| IsLatest(lim, h, key, i) && m[key] == EntryAt(lim, h[i]);
    assert ServesInsert(lim, h[i], now, Hit(m, key, now).value);
  }

  // ---- the two counters over a run ---------------------------------------

  function Lookups(h: seq<Event>): nat {
    if h == [] then 0 else Lookups(h[..|h| - 1]) + if h[|h| - 1].Looked? then 1 else 0
  }

  /** What `Get` adds to `hits` and `misses` over the events, each in the state before it. */
  function HitCount(h: seq<Event>, ms: seq<Store>): nat
    requires |h| <= |ms|
  {
    if h == [] then 0
    else
      var n := |h| - 1;
      HitCount(h[..n], ms) + if h[n].Looked? && Hit(ms[n], h[n].key, h[n].now).Some? then 1 else 0
  }

  function MissCount(h: seq<Event>, ms: seq<Store>): nat
    requires |h| <= |ms|
  {
    if h == [] then 0
    else
      var n := |h| - 1;
      MissCount(h[..n], ms)
      + if h[n].Looked? && h[n].key in ms[n] && Hit(ms[n], h[n].key, h[n].now).None? then 1 else 0
  }

  predicate LooksForHeldKeys(h: seq<Event>, ms: seq<Store>)
    requires |h| <= |ms|
  {
    forall i :: 0 <= i < |h| && h[i].Looked? ==> h[i].key in ms[i]
  }

  /** Hits and misses never exceed the lookups, and make them up exactly when no lookup was for an absent
      key. */
  lemma {:induction false} LookupsAreCountedIff(h: seq<Event>, ms: seq<Store>)
    requires |h| <= |ms|
    ensures HitCount(h, ms) + MissCount(h, ms) <= Lookups(h)
    ensures HitCount(h, ms) + MissCount(h, ms) == Lookups(h) <==> LooksForHeldKeys(h, ms)
    decreases |h|
  {
    if h != [] {
      var n := |h| - 1;
      LookupsAreCountedIff(h[..n], ms);
      assert LooksForHeldKeys(h, ms)
        <==> LooksForHeldKeys(h[..n], ms) && (h[n].Looked? ==> h[n].key in ms[n]);
    }
  }

  // ---- exactness: nothing live is lost while there is room ----------------

  /** The step sheds entries that have not expired, because the cache is full of live ones. */
  ghost predicate Sheds(lim: Limits, m: Store, ev: Event) {
    && ev.Inserted? && Lifetime(ev.msg, lim).Some?
    && |m| >= lim.maxEntries && !AnyExpired(m, ev.evictNow)
  }

  /** No clock reading of the step is later than `t`. */
  predicate ReadBefore(ev: Event, t: Instant) {
    match ev
    case Looked(_, now) => now <= t
    case Inserted(_, _, evictNow, now) => evictNow <= now <= t
    case Swept(now) => now <= t
    case Cleared => true
  }

  lemma {:induction false} RoomyUpTo(lim: Limits, h: seq<Event>, ms: seq<Store>, key: Key, now: Instant, i: nat, n: nat)
    requires Run(lim, h, ms)
    requires forall j :: 0 <= j < |h| ==> !Sheds(lim, ms[j], h[j]) && ReadBefore(h[j], now)
    requires IsLatest(lim, h, key, i) && i < n <= |h|
    ensures Hit(ms[n], key, now)
            == if Live(EntryAt(lim, h[i]), now) then Some(Aged(EntryAt(lim, h[i]), now)) else None
    decreases n
  {
    assert StepAt(lim, h, ms, n - 1);
    if i == n - 1 {
      StepStores(lim, ms[i], h[i], ms[n]);
    } else {
      RoomyUpTo(lim, h, ms, key, now, i, n - 1);
      RoomyStepKeepsLive(lim, ms[n - 1], h[n - 1], ms[n], key, now);
    }
  }

  /** As long as the cache is never full of live entries, a lookup hits exactly when the latest
      accepted insert is still within its lifetime. */
  lemma RoomyCacheIsExact(lim: Limits, h: seq<Event>, ms: seq<Store>, key: Key, now: Instant, i: nat)
    requires 1 <= lim.maxEntries && Run(lim, h, ms)
    requires forall j :: 0 <= j < |h| ==> !Sheds(lim, ms[j], h[j]) && ReadBefore(h[j], now)
    requires IsLatest(lim, h, key, i)
    ensures Hit(Final(ms), key, now)
            == if Live(EntryAt(lim, h[i]), now) then Some(Aged(EntryAt(lim, h[i]), now)) else None
  {
    RoomyUpTo(lim, h, ms, key, now, i, |h|);
  }

  lemma RoomyStepKeepsLive(lim: Limits, m: Store, ev: Event, m': Store, k: Key, now: Instant)
    requires Step(lim, m, ev, m') && !Sheds(lim, m, ev) && !AcceptedInsert(lim, ev, k) && !ev.Cleared?
    requires ReadBefore(ev, now)
    ensures Hit(m', k, now) == Hit(m, k, now)
  {
    StepOnlyForgets(lim, m, ev, m', k);
    if k in m && Live(m[k], now) && ev.Inserted? && Lifetime(ev.msg, lim).Some? && |m| >= lim.maxEntries {
      var room :| Evicted(m, ev.evictNow, room)
               && m' == room[ev.key := EntryOf(ev.msg, Lifetime(ev.msg, lim).value, ev.now)];
      assert room == Unexpired(m, ev.evictNow);
    }
  }

  // ---- TTLs --------------------------------------------------------------

  lemma {:induction false} LifetimeBoundsTtls(msg: Message, lim: Limits)
    requires Lifetime(msg, lim).Some?
    ensures forall r :: r in msg.answers || r in msg.authorities ==> Lifetime(msg, lim).value <= r.ttl
    ensures lim.minTtl <= lim.maxTtl ==> lim.minTtl <= Lifetime(msg, lim).value
  {
    var all := msg.answers + msg.authorities;
    forall r | r in msg.answers || r in msg.authorities ensures Lifetime(msg, lim).value <= r.ttl {
      assert r in all;
      var i :| 0 <= i < |all| && all[i] == r;
    }
  }

  /** Every answer or authority record of a hit carries exactly its own TTL minus the whole seconds
      spent in the cache: the clamp to one never acts, the cast never truncates, and the instant at
      which the client will drop the record is within a second of the one the authority granted. */
  lemma ServedTtlsAreGranted(msg: Message, lim: Limits, at: Instant, now: Instant, r: Record)
    requires Lifetime(msg, lim).Some? && at <= now
    requires Live(EntryOf(msg, Lifetime(msg, lim).value, at), now)
    requires r in msg.answers || r in msg.authorities
    ensures ElapsedSecs(at, now) == (now - at) / NANOS
    ensures AgedTtl(r.ttl, ElapsedSecs(at, now)) == r.ttl - (now - at) / NANOS >= 1
    ensures at + r.ttl * NANOS <= now + AgedTtl(r.ttl, ElapsedSecs(at, now)) * NANOS < at + r.ttl * NANOS + NANOS
  {
    LifetimeBoundsTtls(msg, lim);
    var life := Lifetime(msg, lim).value;
    var d := now - at;
    var s := d / NANOS;
    assert s * NANOS <= d < s * NANOS + NANOS;
    assert s < life;
    assert (r.ttl - s) * NANOS == r.ttl * NANOS - s * NANOS;
  }

  /** `served` are `granted` with the same data and each TTL counted down by exactly `secs`, to no
      less than one. */
  predicate CountedDown(granted: seq<Record>, served: seq<Record>, secs: nat) {
    && |served| == |granted|
    && forall j :: 0 <= j < |granted| ==>
         secs < granted[j].ttl && served[j] == granted[j].(ttl := granted[j].ttl - secs)
  }

  predicate CountsDownFrom(ev: Event, now: Instant, answer: CachedAnswer)
    requires ev.Inserted?
  {
    && CountedDown(ev.msg.answers, answer.answers, Secs(ev.now, now))
    && CountedDown(ev.msg.authorities, answer.authorities, Secs(ev.now, now))
  }

  /** So in every run, whatever a hit serves was granted by the latest accepted insert. */
  lemma HitsCountDownExactly(lim: Limits, h: seq<Event>, ms: seq<Store>, key: Key, now: Instant)
    requires 1 <= lim.maxEntries && Run(lim, h, ms) && Hit(Final(ms), key, now).Some?
    requires forall j :: 0 <= j < |h| ==> ReadBefore(h[j], now)
    ensures exists i: nat :: IsLatest(lim, h, key, i) && CountsDownFrom(h[i], now, Hit(Final(ms), key, now).value)
  {
    HitIsLatestInsert(lim, h, ms, key, now);
    var answer := Hit(Final(ms), key, now).value;
    var i: nat :| IsLatest(lim, h, key, i) && ServesInsert(lim, h[i], now, answer);
    ServedInsertCountsDown(lim, h[i], now, answer);
  }

  lemma ServedInsertCountsDown(lim: Limits, ev: Event, now: Instant, answer: CachedAnswer)
    requires ev.Inserted? && Lifetime(ev.msg, lim).Some? && ReadBefore(ev, now)
    requires ServesInsert(lim, ev, now, answer)
    ensures CountsDownFrom(ev, now, answer)
  {
    AgeCountsDown(ev.msg, lim, ev.now, now, ev.msg.answers);
    AgeCountsDown(ev.msg, lim, ev.now, now, ev.msg.authorities);
  }

  lemma AgeCountsDown(msg: Message, lim: Limits, at: Instant, now: Instant, records: seq<Record>)
    requires Lifetime(msg, lim).Some? && at <= now
    requires Live(EntryOf(msg, Lifetime(msg, lim).value, at), now)
    requires records == msg.answers || records == msg.authorities
    ensures CountedDown(records, Age(records, ElapsedSecs(at, now)), Secs(at, now))
  {
    forall j | 0 <= j < |records|
      ensures (now - at) / NANOS < records[j].ttl
      ensures AgedTtl(records[j].ttl, ElapsedSecs(at, now)) == records[j].ttl - (now - at) / NANOS
    {
      ServedTtlsAreGranted(msg, lim, at, now, records[j]);
    }
  }

  /** At `now` the client is told to keep the record for no longer, but for a fraction of a second, than
      it was granted at `at`. */
  predicate InGrant(r: Record, at: Instant, now: Instant) {
    now + AgedTtl(r.ttl, ElapsedSecs(at, now)) * NANOS < at + r.ttl * NANOS + NANOS
  }

  /** The clamp to one second is exact when the record has not outlived its own TTL. The lifetime is
      taken from answers and authorities only, so an additional record can outlive its grant. */
  lemma AdditionalKeepsItsGrantIff(msg: Message, lim: Limits, at: Instant, now: Instant, r: Record)
    requires Lifetime(msg, lim).Some? && at <= now
    requires Live(EntryOf(msg, Lifetime(msg, lim).value, at), now)
    requires r in msg.additionals && !r.rtype.OPT?
    ensures InGrant(r, at, now) <==> (now - at) / NANOS < r.ttl
  {
    var life := Lifetime(msg, lim).value;
    var d := now - at;
    var s := d / NANOS;
    assert s * NANOS <= d < s * NANOS + NANOS;
    assert s < life;
    if s < r.ttl {
      assert (r.ttl - s) * NANOS == r.ttl * NANOS - s * NANOS;
    } else {
      assert s * NANOS >= r.ttl * NANOS;
    }
  }

  /** Exactly when a reply's additional record stays within its grant for as long as the reply is served:
      when it outlives the answers and authorities, which can be seen as the reply comes in. */
  lemma AdditionalStaysInGrantIff(msg: Message, lim: Limits, at: Instant, r: Record)
    requires Lifetime(msg, lim).Some? && r in msg.additionals && !r.rtype.OPT?
    ensures (forall now :: at <= now && Live(EntryOf(msg, Lifetime(msg, lim).value, at), now) ==> InGrant(r, at, now))
       <==> Lifetime(msg, lim).value <= r.ttl
  {
    var life := Lifetime(msg, lim).value;
    if life <= r.ttl {
      forall now | at <= now && Live(EntryOf(msg, life, at), now) ensures InGrant(r, at, now) {
        AdditionalKeepsItsGrantIff(msg, lim, at, now, r);
      }
    } else {
      var now := at + r.ttl * NANOS;
      assert Live(EntryOf(msg, life, at), now);
      AdditionalKeepsItsGrantIff(msg, lim, at, now, r);
    }
  }

  /** The positions of the records other than OPT. */
  function KeptAt(records: seq<Record>): seq<nat> {
    if records == [] then []
    else (if records[0].rtype.OPT? then [] else [0]) + Shifted(KeptAt(records[1..]))
  }

  function Shifted(ns: seq<nat>): (r: seq<nat>)
    ensures |r| == |ns| && forall k :: 0 <= k < |ns| ==> r[k] == ns[k] + 1
  {
    seq(|ns|, k requires 0 <= k < |ns| => ns[k] + 1)
  }

  lemma {:induction false} KeptIsInOrder(records: seq<Record>)
    ensures forall j, k :: 0 <= j < k < |KeptAt(records)| ==> KeptAt(records)[j] < KeptAt(records)[k]
  {
    if records != [] {
      KeptIsInOrder(records[1..]);
    }
  }

  /** `picked` are the records at these positions. */
  predicate Picks(records: seq<Record>, picked: seq<Record>, at: seq<nat>) {
    |picked| == |at| && forall k :: 0 <= k < |at| ==> at[k] < |records| && picked[k] == records[at[k]]
  }

  lemma PicksBehind(head: Record, records: seq<Record>, picked: seq<Record>, at: seq<nat>)
    requires Picks(records, picked, at)
    ensures Picks([head] + records, picked, Shifted(at))
    ensures Picks([head] + records, [head] + picked, [0] + Shifted(at))
  {
  }

  lemma {:induction false} KeptIsTaken(records: seq<Record>)
    ensures Picks(records, WithoutOpt(records), KeptAt(records))
  {
    if records != [] {
      KeptIsTaken(records[1..]);
      PicksBehind(records[0], records[1..], WithoutOpt(records[1..]), KeptAt(records[1..]));
      assert records == [records[0]] + records[1..];
      assert KeptAt(records) == (if records[0].rtype.OPT? then [] else [0]) + Shifted(KeptAt(records[1..]));
      assert [] + Shifted(KeptAt(records[1..])) == Shifted(KeptAt(records[1..]));
    }
  }

  lemma {:induction false} KeptIsAllButOpt(records: seq<Record>, i: nat)
    requires i < |records|
    ensures i in KeptAt(records) <==> !records[i].rtype.OPT?
    decreases |records|
  {
    var rest := KeptAt(records[1..]);
    if i > 0 {
      KeptIsAllButOpt(records[1..], i - 1);
      ShiftedHas(rest, i - 1);
    } else {
      assert 0 !in Shifted(rest);
    }
  }

  lemma ShiftedHas(ns: seq<nat>, n: nat)
    ensures n in ns <==> n + 1 in Shifted(ns)
  {
    if n in ns {
      var k :| 0 <= k < |ns| && ns[k] == n;
      assert Shifted(ns)[k] == n + 1;
    }
  }

  /** What is kept of a section is its records other than OPT, each as often as it was and in order: `kept`
      lists their positions. */
  lemma WithoutOptFilters(records: seq<Record>) returns (kept: seq<nat>)
    ensures Picks(records, WithoutOpt(records), kept)
    ensures forall j, k :: 0 <= j < k < |kept| ==> kept[j] < kept[k]
    ensures forall i: nat :: i < |records| ==> (i in kept <==> !records[i].rtype.OPT?)
  {
    kept := KeptAt(records);
    KeptIsTaken(records);
    KeptIsInOrder(records);
    forall i: nat | i < |records| ensures i in kept <==> !records[i].rtype.OPT? {
      KeptIsAllButOpt(records, i);
    }
  }
}
