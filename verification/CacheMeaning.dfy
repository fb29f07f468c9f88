/** What the cache keeps, serves and sheds, in terms of the upstream replies themselves. */
module CacheMeaning {
  import opened Wrappers
  import opened Messages
  import opened AnswerCache
  import opened CacheHistory

  // ---- which replies are kept, and for how long ---------------------------

  predicate IsAnswer(msg: Message, r: Record) {
    r in msg.answers || r in msg.authorities
  }

  /** A positive or NXDOMAIN reply with some record to go by, every one of them worth keeping. */
  predicate Cacheable(lim: Limits, msg: Message) {
    && (msg.code == NoError || msg.code == NXDomain)
    && (msg.answers != [] || msg.authorities != [])
    && (forall r :: r in msg.answers ==> r.ttl >= 1 && r.ttl >= lim.minTtl)
    && (forall r :: r in msg.authorities ==> r.ttl >= 1 && r.ttl >= lim.minTtl)
  }

  /** At `now` no answer or authority of a reply that came at `at` has outlived its TTL, nor the cap. */
  predicate StillGood(lim: Limits, msg: Message, at: Instant, now: Instant) {
    && now < at + lim.maxTtl * NANOS
    && (forall r :: r in msg.answers ==> now < at + r.ttl * NANOS)
    && (forall r :: r in msg.authorities ==> now < at + r.ttl * NANOS)
  }

  lemma LifetimeMeans(lim: Limits, msg: Message)
    ensures Lifetime(msg, lim).Some? <==> Cacheable(lim, msg)
    ensures Lifetime(msg, lim).Some? ==>
              && Lifetime(msg, lim).value <= lim.maxTtl
              && (forall r :: IsAnswer(msg, r) ==> Lifetime(msg, lim).value <= r.ttl)
              && (Lifetime(msg, lim).value == lim.maxTtl
                  || exists r :: IsAnswer(msg, r) && Lifetime(msg, lim).value == r.ttl)
  {
    var all := msg.answers + msg.authorities;
    forall r ensures IsAnswer(msg, r) <==> r in all {
    }
    if all != [] {
      var shortest := MinTtl(all).value;
      var i :| 0 <= i < |all| && all[i].ttl == shortest;
      assert IsAnswer(msg, all[i]);
      forall r | IsAnswer(msg, r) ensures shortest <= r.ttl {
        var j :| 0 <= j < |all| && all[j] == r;
      }
    }
  }

  /** An entry is live exactly while the reply it holds is still good. */
  lemma LiveMeans(lim: Limits, msg: Message, at: Instant, now: Instant)
    requires Lifetime(msg, lim).Some?
    ensures Live(EntryOf(msg, Lifetime(msg, lim).value, at), now) <==> StillGood(lim, msg, at, now)
  {
    LifetimeMeans(lim, msg);
    var life := Lifetime(msg, lim).value;
    forall r | IsAnswer(msg, r) ensures life * NANOS <= r.ttl * NANOS {
    }
    if StillGood(lim, msg, at, now) && life != lim.maxTtl {
      var r :| IsAnswer(msg, r) && life == r.ttl;
    }
  }

  // ---- what a hit carries ------------------------------------------------

  function SecondsSince(at: Instant, now: Instant): nat {
    if now < at then 0 else (now - at) / NANOS
  }

  /** The additional records other than OPT, in order, each with what is left of its TTL, or one second. */
  ghost predicate AgedButOpt(granted: seq<Record>, served: seq<Record>, secs: nat) {
    exists kept: seq<nat> :: Keeps(granted, kept) && AgedAt(granted, kept, served, secs)
  }

  /** The positions of the records other than OPT, in order. */
  predicate Keeps(granted: seq<Record>, kept: seq<nat>) {
    && (forall j, k :: 0 <= j < k < |kept| ==> kept[j] < kept[k])
    && (forall i: nat :: i < |granted| ==> (i in kept <==> granted[i].rtype != OPT))
  }

  function LeftAfter(ttl: u32, secs: nat): u32 {
    if secs < ttl then ttl - secs else 1
  }

  predicate AgedAt(granted: seq<Record>, kept: seq<nat>, served: seq<Record>, secs: nat) {
    && |served| == |kept|
    && forall j :: 0 <= j < |kept| ==>
         && kept[j] < |granted|
         && served[j] == granted[kept[j]].(ttl := LeftAfter(granted[kept[j]].ttl, secs))
  }

  /** The answer is what is left of this reply at `now`. */
  ghost predicate IsLeftOf(msg: Message, at: Instant, now: Instant, answers: seq<Record>, authorities: seq<Record>,
                           additionals: seq<Record>) {
    && CountedDown(msg.answers, answers, SecondsSince(at, now))
    && CountedDown(msg.authorities, authorities, SecondsSince(at, now))
    && AgedButOpt(msg.additionals, additionals, SecondsSince(at, now))
  }

  lemma ElapsedIsExact(lim: Limits, msg: Message, at: Instant, now: Instant)
    requires Lifetime(msg, lim).Some? && StillGood(lim, msg, at, now)
    ensures ElapsedSecs(at, now) == SecondsSince(at, now)
    ensures forall r :: IsAnswer(msg, r) ==> SecondsSince(at, now) < r.ttl
  {
    LifetimeMeans(lim, msg);
    var secs := SecondsSince(at, now);
    if at < now {
      assert secs * NANOS <= now - at;
      assert secs < lim.maxTtl;
    }
    forall r | IsAnswer(msg, r) ensures secs < r.ttl {
      assert now < at + r.ttl * NANOS && 1 <= r.ttl;
    }
  }

  lemma AgeIsCountedDown(records: seq<Record>, secs: u32)
    requires forall r :: r in records ==> secs < r.ttl
    ensures CountedDown(records, Age(records, secs), secs)
  {
    forall j | 0 <= j < |records| ensures secs < records[j].ttl {
      assert records[j] in records;
    }
  }

  lemma AgeIsAgedButOpt(records: seq<Record>, secs: u32)
    ensures AgedButOpt(records, Age(WithoutOpt(records), secs), secs)
  {
    var kept := WithoutOptFilters(records);
    assert Keeps(records, kept);
    assert AgedAt(records, kept, Age(WithoutOpt(records), secs), secs);
  }

  /** What a hit serves of an insert is what is left of that very reply: code and authority bit, the answers
      and authorities counted down by the whole seconds since, and the additional records but OPT. */
  lemma HitIsLeftOfReply(lim: Limits, msg: Message, at: Instant, now: Instant)
    requires Lifetime(msg, lim).Some? && StillGood(lim, msg, at, now)
    ensures var hit := Aged(EntryOf(msg, Lifetime(msg, lim).value, at), now);
            && hit.code == msg.code && hit.authoritative == msg.authoritative
            && IsLeftOf(msg, at, now, hit.answers, hit.authorities, hit.additionals)
  {
    ElapsedIsExact(lim, msg, at, now);
    var secs := SecondsSince(at, now);
    AgeIsCountedDown(msg.answers, secs);
    AgeIsCountedDown(msg.authorities, secs);
    AgeIsAgedButOpt(msg.additionals, secs);
  }

  // ---- what is dropped ---------------------------------------------------

  /** At any step of any run: a sweep leaves exactly what has not expired, a lookup drops the expired entry it
      meets and touches no other, a clear leaves nothing. */
  lemma ExpiredAreDropped(lim: Limits, h: seq<Event>, ms: seq<Store>, i: nat, k: Key)
    requires Run(lim, h, ms) && i < |h|
    ensures h[i].Swept? ==> (k in ms[i + 1] <==> k in ms[i] && h[i].now < ms[i][k].expires)
    ensures h[i].Looked? ==>
              (k in ms[i + 1] <==> k in ms[i] && (k == h[i].key ==> h[i].now < ms[i][k].expires))
    ensures h[i].Cleared? ==> k !in ms[i + 1]
  {
    assert StepAt(lim, h, ms, i);
  }

  /** What an insert does at any step of any run: nothing, if the reply is not cacheable. Otherwise the entry is
      there; of the others all stay while there is room, exactly the live ones when a full cache has expired
      entries, and else all but a tenth and one more. */
  lemma InsertDoes(lim: Limits, h: seq<Event>, ms: seq<Store>, i: nat)
    requires Run(lim, h, ms) && i < |h| && h[i].Inserted?
    ensures !Cacheable(lim, h[i].msg) ==> ms[i + 1] == ms[i]
    ensures Cacheable(lim, h[i].msg) ==> InsertsInto(lim, ms[i], h[i], ms[i + 1])
  {
    assert StepAt(lim, h, ms, i);
    LifetimeMeans(lim, h[i].msg);
    if Cacheable(lim, h[i].msg) && |ms[i]| >= lim.maxEntries {
      FullInsert(lim, ms[i], h[i], ms[i + 1]);
    }
  }

  predicate Expired(m: Store, k: Key, now: Instant)
    requires k in m
  {
    m[k].expires <= now
  }

  ghost predicate HasExpired(m: Store, now: Instant) {
    exists k :: k in m && Expired(m, k, now)
  }

  ghost predicate InsertsInto(lim: Limits, m: Store, ev: Event, m': Store)
    requires ev.Inserted?
  {
    && ev.key in m' && (forall k :: k in m' && k != ev.key ==> k in m && m'[k] == m[k])
    && (|m| < lim.maxEntries ==> forall k :: k in m ==> k in m')
    && (|m| >= lim.maxEntries && HasExpired(m, ev.evictNow) ==>
          forall k :: k in m && k != ev.key ==> (k in m' <==> !Expired(m, k, ev.evictNow)))
    && (|m| >= lim.maxEntries && m != map[] && !HasExpired(m, ev.evictNow) ==>
          |m| - |m| / 10 - 1 <= |m'| <= |m| - |m| / 10)
  }

  lemma HasExpiredIff(m: Store, now: Instant)
    ensures HasExpired(m, now) <==> AnyExpired(m, now)
  {
    if k :| k in m && Expired(m, k, now) {
      assert !Live(m[k], now);
    }
    if k :| k in m && !Live(m[k], now) {
      assert Expired(m, k, now);
    }
  }

  lemma FullInsert(lim: Limits, m: Store, ev: Event, m': Store)
    requires ev.Inserted? && Lifetime(ev.msg, lim).Some? && |m| >= lim.maxEntries && Step(lim, m, ev, m')
    ensures InsertsInto(lim, m, ev, m')
  {
    var room :| Evicted(m, ev.evictNow, room) && m' == room[ev.key := EntryAt(lim, ev)];
    HasExpiredIff(m, ev.evictNow);
    EvictionProgresses(m, ev.evictNow, room);
    AddingGrowsByOne(room, ev.key, EntryAt(lim, ev));
    KeysOnlyGrow(room, ev.key, EntryAt(lim, ev));
  }

  /** The step makes room by giving up live entries: the cache is full, nothing in it has expired, a tenth of
      it and one more goes, and what goes expires no later than what stays. */
  predicate ShedsFor(lim: Limits, m: Store, ev: Event, m': Store, gone: Key) {
    && ev.Inserted? && Cacheable(lim, ev.msg) && |m| >= lim.maxEntries
    && (forall k :: k in m ==> ev.evictNow < m[k].expires)
    && |m| - |m| / 10 - 1 <= |m'| <= |m| - |m| / 10
    && gone in m && gone !in m'
    && forall k :: k in m && k in m' && k != ev.key ==> m[gone].expires <= m[k].expires
  }

  /** A reply that is still good and yet not served was shed at some step since: nothing else loses it. */
  lemma MissingReplyWasShed(lim: Limits, h: seq<Event>, ms: seq<Store>, key: Key, now: Instant, i: nat)
    requires 1 <= lim.maxEntries && Run(lim, h, ms) && IsLatest(lim, h, key, i)
    requires StillGood(lim, h[i].msg, h[i].now, now) && forall j :: 0 <= j < |h| ==> ReadBefore(h[j], now)
    requires Hit(Final(ms), key, now).None?
    ensures exists j: nat :: i < j < |h| && ShedsFor(lim, ms[j], h[j], ms[j + 1], key)
  {
    LiveMeans(lim, h[i].msg, h[i].now, now);
    var j := LostAt(lim, h, ms, key, now, i, |h|);
  }

  lemma {:induction false} LostAt(lim: Limits, h: seq<Event>, ms: seq<Store>, key: Key, now: Instant, i: nat, n: nat)
      returns (j: nat)
    requires 1 <= lim.maxEntries && Run(lim, h, ms) && IsLatest(lim, h, key, i) && i < n <= |h|
    requires Live(EntryAt(lim, h[i]), now) && forall j :: 0 <= j < |h| ==> ReadBefore(h[j], now)
    requires Hit(ms[n], key, now).None?
    ensures i < j < n && ShedsFor(lim, ms[j], h[j], ms[j + 1], key)
    decreases n
  {
    j := n - 1;
    assert StepAt(lim, h, ms, j);
    if j == i {
      StepStores(lim, ms[i], h[i], ms[n]);
      assert false;
    } else if Hit(ms[j], key, now).None? {
      j := LostAt(lim, h, ms, key, now, i, j);
    } else {
      LosingStepSheds(lim, ms[j], h[j], ms[n], key, now);
    }
  }

  lemma LosingStepSheds(lim: Limits, m: Store, ev: Event, m': Store, k: Key, now: Instant)
    requires Step(lim, m, ev, m') && !AcceptedInsert(lim, ev, k) && !ev.Cleared? && ReadBefore(ev, now)
    requires Hit(m, k, now).Some? && Hit(m', k, now).None? && 1 <= lim.maxEntries
    ensures ShedsFor(lim, m, ev, m', k)
  {
    if !Sheds(lim, m, ev) {
      RoomyStepKeepsLive(lim, m, ev, m', k, now);
      assert false;
    }
    LifetimeMeans(lim, ev.msg);
    StepOnlyForgets(lim, m, ev, m', k);
    var room :| Evicted(m, ev.evictNow, room) && m' == room[ev.key := EntryAt(lim, ev)];
    AddingGrowsByOne(room, ev.key, EntryAt(lim, ev));
    KeysOnlyGrow(room, ev.key, EntryAt(lim, ev));
    forall x | x in m ensures ev.evictNow < m[x].expires {
      assert Live(m[x], ev.evictNow);
    }
  }

  lemma KeysOnlyGrow(m: Store, key: Key, e: Entry)
    ensures |m| <= |m[key := e]|
  {
    SubsetSize(m.Keys, m[key := e].Keys);
  }
}
