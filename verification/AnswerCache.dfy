/**
 The TTL-aware answer cache: a mutable class, the step relation its methods obey, and what
 every run of steps keeps. Instants are nanoseconds of a monotonic clock.
 */
module AnswerCache {
  import opened Wrappers
  import opened Messages

  type Instant = nat

  const NANOS: nat := 1_000_000_000

  /** The question, and the request bits under which an upstream may answer it differently. */
  datatype Key = Key(name: string, qtype: RecordType, qclass: u16, dnssecOk: bool, checkingDisabled: bool)

  function KeyFromRequest(msg: Message, name: string): Option<Key> {
    if msg.queries == [] then None
    else
      var q := msg.queries[0];
      Some(Key(name, q.qtype, q.qclass, WantsDnssec(msg), msg.checkingDisabled))
  }

  datatype Entry = Entry(
    answers: seq<Record>,
    authorities: seq<Record>,
    additionals: seq<Record>,
    code: Code,
    authoritative: bool,
    inserted: Instant,
    expires: Instant
  )

  datatype CachedAnswer = CachedAnswer(
    answers: seq<Record>,
    authorities: seq<Record>,
    additionals: seq<Record>,
    code: Code,
    authoritative: bool
  )

  datatype Limits = Limits(maxEntries: nat, minTtl: u32, maxTtl: u32)

  type Store = map<Key, Entry>

  // ---- ageing ------------------------------------------------------------

  /** Whole seconds between two instants, saturating at zero. */
  function Secs(since: Instant, now: Instant): nat {
    if now <= since then 0 else (now - since) / NANOS
  }

  /** The cast to 32 bits that the lookup applies to the elapsed seconds. */
  function ElapsedSecs(inserted: Instant, now: Instant): u32 {
    Secs(inserted, now) % U32_SIZE
  }

  function AgedTtl(ttl: u32, elapsed: u32): u32 {
    if ttl - elapsed < 1 then 1 else ttl - elapsed
  }

  function Age(records: seq<Record>, elapsed: u32): seq<Record> {
    seq(|records|, i requires 0 <= i < |records| => records[i].(ttl := AgedTtl(records[i].ttl, elapsed)))
  }

  function Aged(e: Entry, now: Instant): CachedAnswer {
    var elapsed := ElapsedSecs(e.inserted, now);
    CachedAnswer(Age(e.answers, elapsed), Age(e.authorities, elapsed), Age(e.additionals, elapsed),
                 e.code, e.authoritative)
  }

  predicate Live(e: Entry, now: Instant) {
    now < e.expires
  }

  /** What a lookup answers. */
  function Hit(m: Store, key: Key, now: Instant): Option<CachedAnswer> {
    if key in m && Live(m[key], now) then Some(Aged(m[key], now)) else None
  }

  // ---- admission ---------------------------------------------------------

  function MinTtl(records: seq<Record>): (r: Option<u32>)
    ensures r.None? <==> records == []
    ensures r.Some? ==> exists i :: 0 <= i < |records| && records[i].ttl == r.value
    ensures forall i :: 0 <= i < |records| ==> r.Some? && r.value <= records[i].ttl
  {
    if records == [] then None
    else
      match MinTtl(records[1..])
      case None => Some(records[0].ttl)
      case Some(t) => Some(if records[0].ttl < t then records[0].ttl else t)
  }

  /** How long an answer may be kept; None when the cache declines it. */
  function Lifetime(msg: Message, lim: Limits): Option<u32> {
    if !(msg.code.NoError? || msg.code.NXDomain?) then None
    else
      match MinTtl(msg.answers + msg.authorities)
      case None => None
      case Some(shortest) =>
        if shortest == 0 || shortest < lim.minTtl then None else Some(Min(shortest, lim.maxTtl))
  }

  function WithoutOpt(records: seq<Record>): seq<Record> {
    if records == [] then []
    else if records[0].rtype.OPT? then WithoutOpt(records[1..])
    else [records[0]] + WithoutOpt(records[1..])
  }

  function EntryOf(msg: Message, lifetime: u32, now: Instant): Entry {
    Entry(msg.answers, msg.authorities, WithoutOpt(msg.additionals), msg.code, msg.authoritative,
          now, now + lifetime * NANOS)
  }

  // ---- the step relation -------------------------------------------------

  predicate Submap(a: Store, b: Store) {
    forall k :: k in a ==> k in b && a[k] == b[k]
  }

  function Unexpired(m: Store, now: Instant): Store {
    map k | k in m && Live(m[k], now) :: m[k]
  }

  ghost predicate AnyExpired(m: Store, now: Instant) {
    exists k :: k in m && !Live(m[k], now)
  }

  /** Making room: exactly the expired entries if there are any, else a tenth plus one, soonest first. */
  ghost predicate Evicted(m: Store, now: Instant, m': Store) {
    if AnyExpired(m, now) then m' == Unexpired(m, now)
    else
      && Submap(m', m)
      && |m'| == (if m == map[] then 0 else |m| - (|m| / 10 + 1))
      && forall gone, kept :: gone in m && gone !in m' && kept in m' ==> m[gone].expires <= m[kept].expires
  }

  datatype Event =
    | Looked(key: Key, now: Instant)
    | Inserted(key: Key, msg: Message, evictNow: Instant, now: Instant)
    | Swept(now: Instant)
    | Cleared

  ghost predicate Step(lim: Limits, m: Store, ev: Event, m': Store) {
    match ev
    case Looked(key, now) => m' == if key in m && !Live(m[key], now) then m - {key} else m
    case Inserted(key, msg, evictNow, now) =>
      (match Lifetime(msg, lim)
       case None => m' == m
       case Some(life) =>
         if |m| < lim.maxEntries then m' == m[key := EntryOf(msg, life, now)]
         else exists room :: Evicted(m, evictNow, room) && m' == room[key := EntryOf(msg, life, now)])
    case Swept(now) => m' == Unexpired(m, now)
    case Cleared => m' == map[]
  }

  // ---- the mutable cache -------------------------------------------------

  predicate SortedByExpiry(xs: seq<(Key, Instant)>) {
    forall i, j :: 0 <= i < j < |xs| ==> xs[i].1 <= xs[j].1
  }

  function InsertByExpiry(x: (Key, Instant), xs: seq<(Key, Instant)>): (r: seq<(Key, Instant)>)
    ensures r != [] && (r[0] == x || (xs != [] && r[0] == xs[0]))
  {
    if xs == [] || x.1 < xs[0].1 then [x] + xs else [xs[0]] + InsertByExpiry(x, xs[1..])
  }

  function SortByExpiry(xs: seq<(Key, Instant)>): seq<(Key, Instant)> {
    if xs == [] then [] else InsertByExpiry(xs[0], SortByExpiry(xs[1..]))
  }

  lemma {:induction false} InsertSorts(x: (Key, Instant), xs: seq<(Key, Instant)>)
    requires SortedByExpiry(xs)
    ensures SortedByExpiry(InsertByExpiry(x, xs))
  {
    if xs != [] && x.1 >= xs[0].1 {
      InsertSorts(x, xs[1..]);
      var rest := InsertByExpiry(x, xs[1..]);
      assert xs[0].1 <= rest[0].1;
    }
  }

  lemma {:induction false} InsertAdds(x: (Key, Instant), xs: seq<(Key, Instant)>)
    ensures multiset(InsertByExpiry(x, xs)) == multiset(xs) + multiset{x}
  {
    if xs != [] && x.1 >= xs[0].1 {
      InsertAdds(x, xs[1..]);
      assert xs == [xs[0]] + xs[1..];
    }
  }

  /** Sorting orders by expiry and permutes. */
  lemma {:induction false} SortSorts(xs: seq<(Key, Instant)>)
    ensures SortedByExpiry(SortByExpiry(xs)) && multiset(SortByExpiry(xs)) == multiset(xs)
  {
    if xs != [] {
      SortSorts(xs[1..]);
      InsertSorts(xs[0], SortByExpiry(xs[1..]));
      InsertAdds(xs[0], SortByExpiry(xs[1..]));
      assert xs == [xs[0]] + xs[1..];
    }
  }

  class Cache {
    var entries: Store
    const limits: Limits
    var hits: nat
    var misses: nat

    ghost predicate Valid()
      reads this
    {
      1 <= limits.maxEntries && |entries| <= limits.maxEntries
    }

    constructor (maxEntries: nat, minTtl: u32, maxTtl: u32)
      ensures Valid() && entries == map[] && hits == 0 && misses == 0
      ensures limits == Limits(if maxEntries < 1 then 1 else maxEntries, minTtl, maxTtl)
    {
      entries := map[];
      limits := Limits(if maxEntries < 1 then 1 else maxEntries, minTtl, maxTtl);
      hits, misses := 0, 0;
    }

    method Get(key: Key, now: Instant) returns (answer: Option<CachedAnswer>)
      requires Valid()
      modifies this
      ensures Valid() && Step(limits, old(entries), Looked(key, now), entries)
      ensures answer == Hit(old(entries), key, now)
      ensures hits == old(hits) + (if answer.Some? then 1 else 0)
      ensures misses == old(misses) + (if answer.None? && key in old(entries) then 1 else 0)
    {
      if key !in entries {
        return None;
      }
      var entry := entries[key];
      if entry.expires <= now {
        entries := entries - {key};
        misses := misses + 1;
        return None;
      }
      answer := Some(Aged(entry, now));
      hits := hits + 1;
    }

    method Insert(key: Key, msg: Message, evictNow: Instant, now: Instant) returns (stored: bool)
      requires Valid()
      modifies this`entries
      ensures Valid() && Step(limits, old(entries), Inserted(key, msg, evictNow, now), entries)
      ensures stored <==> Lifetime(msg, limits).Some?
    {
      if !(msg.code.NoError? || msg.code.NXDomain?) {
        return false;
      }
      var shortest := MinTtl(msg.answers + msg.authorities);
      if shortest.None? {
        return false;
      }
      if shortest.value == 0 || shortest.value < limits.minTtl {
        return false;
      }
      var lifetime: u32 := Min(shortest.value, limits.maxTtl);
      ghost var before := entries;
      if |entries| >= limits.maxEntries {
        Evict(evictNow);
        EvictionProgresses(before, evictNow, entries);
      }
      ghost var room := entries;
      entries := entries[key := EntryOf(msg, lifetime, now)];
      assert entries.Keys == room.Keys + {key};
      assert |entries| <= |room| + 1;
      return true;
    }

    /** Drop everything expired; if that frees nothing, drop the entries closest to expiry. */
    method Evict(now: Instant)
      modifies this`entries
      ensures Evicted(old(entries), now, entries)
    {
      FilterSize(entries, now);
      var before := |entries|;
      entries := Unexpired(entries, now);
      if |entries| < before {
        return;
      }
      ShedSoonest(now);
    }

    /** Shed the soonest-to-expire tenth. */
    method ShedSoonest(ghost now: Instant)
      requires !AnyExpired(entries, now)
      modifies this`entries
      ensures Evicted(old(entries), now, entries)
    {
      var target := |entries| / 10 + 1;
      var byExpiry := SoonestFirst();
      var n := Min(target, |byExpiry|);
      SheddingIsEviction(entries, now, byExpiry, n);
      RemoveAll(byExpiry[..n]);
    }

    method RemoveAll(doomed: seq<(Key, Instant)>)
      modifies this`entries
      ensures entries == old(entries) - KeysOf(doomed)
    {
      for i := 0 to |doomed|
        invariant entries == old(entries) - KeysOf(doomed[..i])
      {
        assert doomed[..i + 1][..i] == doomed[..i];
        entries := entries - {doomed[i].0};
      }
      assert doomed[..|doomed|] == doomed;
    }

    method SoonestFirst() returns (xs: seq<(Key, Instant)>)
      ensures Listing(entries, xs) && SortedByExpiry(xs)
    {
      var unsorted := Listed();
      xs := SortByExpiry(unsorted);
      SortSorts(unsorted);
      ListingSorted(entries, unsorted, xs);
    }

    /** The keys with their expiry, in whatever order the hash map yields them. */
    method Listed() returns (xs: seq<(Key, Instant)>)
      ensures Listing(entries, xs)
    {
      xs := [];
      var rest := entries.Keys;
      while rest != {}
        invariant rest <= entries.Keys
        invariant forall i :: 0 <= i < |xs| ==> xs[i].0 in entries && xs[i].1 == entries[xs[i].0].expires
        invariant KeysOf(xs) + rest == entries.Keys
        invariant |xs| + |rest| == |entries|
        decreases |rest|
      {
        var k :| k in rest;
        xs := xs + [(k, entries[k].expires)];
        rest := rest - {k};
      }
    }

    method Sweep(now: Instant)
      requires Valid()
      modifies this`entries
      ensures Valid() && Step(limits, old(entries), Swept(now), entries)
    {
      FilterSize(entries, now);
      entries := Unexpired(entries, now);
    }

    method Clear()
      requires Valid()
      modifies this`entries
      ensures Valid() && Step(limits, old(entries), Cleared, entries)
    {
      entries := map[];
    }
  }

  ghost function KeysOf(xs: seq<(Key, Instant)>): set<Key> {
    if xs == [] then {} else KeysOf(xs[..|xs| - 1]) + {xs[|xs| - 1].0}
  }

  lemma {:induction false} InKeysOf(xs: seq<(Key, Instant)>, k: Key)
    ensures k in KeysOf(xs) <==> exists i :: 0 <= i < |xs| && xs[i].0 == k
  {
    if xs != [] {
      InKeysOf(xs[..|xs| - 1], k);
    }
  }

  lemma {:induction false} KeysOfSize(xs: seq<(Key, Instant)>, n: nat)
    requires n <= |xs|
    ensures |KeysOf(xs[..n])| <= n
    ensures |KeysOf(xs)| <= |KeysOf(xs[..n])| + |xs| - n
    decreases |xs|
  {
    if n < |xs| {
      assert xs[..|xs| - 1][..n] == xs[..n];
      KeysOfSize(xs[..|xs| - 1], n);
    } else if n > 0 {
      assert xs[..n] == xs && xs[..n - 1][..n - 1] == xs[..n - 1];
      KeysOfSize(xs[..n - 1], n - 1);
    } else {
      assert xs[..n] == xs;
    }
  }

  /** Each key of the map once, with its expiry. */
  ghost predicate Listing(m: Store, xs: seq<(Key, Instant)>) {
    && |xs| == |m|
    && (forall i :: 0 <= i < |xs| ==> xs[i].0 in m && xs[i].1 == m[xs[i].0].expires)
    && KeysOf(xs) == m.Keys
  }

  lemma ListingSorted(m: Store, xs: seq<(Key, Instant)>, ys: seq<(Key, Instant)>)
    requires Listing(m, xs) && multiset(xs) == multiset(ys)
    ensures Listing(m, ys)
  {
    assert |ys| == |multiset(ys)| == |multiset(xs)| == |xs|;
    forall i | 0 <= i < |ys| ensures ys[i] in xs && ys[i].0 in m && ys[i].1 == m[ys[i].0].expires {
      assert ys[i] in multiset(ys);
      assert ys[i] in xs;
    }
    forall k ensures k in KeysOf(xs) <==> k in KeysOf(ys) {
      InKeysOf(xs, k);
      InKeysOf(ys, k);
      if i :| 0 <= i < |xs| && xs[i].0 == k {
        assert xs[i] in multiset(ys);
        assert xs[i] in ys;
      }
    }
  }

  /** Removing the first tenth plus one of the listing sorted by expiry is the eviction rule. */
  lemma SheddingIsEviction(m: Store, now: Instant, xs: seq<(Key, Instant)>, n: nat)
    requires Listing(m, xs) && SortedByExpiry(xs) && !AnyExpired(m, now)
    requires n == Min(|m| / 10 + 1, |xs|)
    ensures Evicted(m, now, m - KeysOf(xs[..n]))
  {
    var gone := KeysOf(xs[..n]);
    var m' := m - gone;
    KeysOfSize(xs, n);
    forall g | g in gone ensures g in m {
      InKeysOf(xs[..n], g);
    }
    assert m'.Keys == m.Keys - gone;
    forall g, kept | g in gone && kept in m && kept !in gone ensures m[g].expires <= m[kept].expires {
      InKeysOf(xs[..n], g);
      InKeysOf(xs, kept);
      var i :| 0 <= i < n && xs[..n][i].0 == g;
      var j :| 0 <= j < |xs| && xs[j].0 == kept;
      assert j < n ==> xs[..n][j].0 == kept;
      InKeysOf(xs[..n], kept);
      assert xs[i].1 <= xs[j].1;
    }
  }

  lemma FilterSize(m: Store, now: Instant)
    ensures |Unexpired(m, now)| <= |m|
    ensures AnyExpired(m, now) <==> |Unexpired(m, now)| < |m|
    ensures !AnyExpired(m, now) ==> Unexpired(m, now) == m
  {
    var u := Unexpired(m, now);
    SubsetSize(u.Keys, m.Keys);
    if AnyExpired(m, now) {
      var k :| k in m && !Live(m[k], now);
      SubsetSize(u.Keys, m.Keys - {k});
    } else {
      assert u == m;
    }
  }

  // ---- what one step keeps -----------------------------------------------

  /** Eviction always frees a slot of a non-empty map, and never adds or alters an entry. */
  lemma EvictionProgresses(m: Store, now: Instant, m': Store)
    requires Evicted(m, now, m')
    ensures Submap(m', m)
    ensures m != map[] ==> |m'| < |m|
  {
    FilterSize(m, now);
  }
}
