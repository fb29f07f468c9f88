/** Exactly when a sighting or a touch writes a device's row, in terms of the run before it. */
module DeviceWrites {
  import opened Wrappers
  import opened Devices
  import opened DeviceRuns
  import opened DeviceHistory
  import Macs

  /** The clock reading a write is recorded with. */
  function Stamp(ev: Event): Instant {
    if ev.op.Touch? then ev.op.read else ev.at
  }

  /** The stamps of the writes of the device's row in a run, in order. */
  function WriteStamps(evs: seq<Event>, vendors: VendorTable, m: string): seq<Instant> {
    if evs == [] then []
    else
      var past, ev := evs[..|evs| - 1], evs[|evs| - 1];
      WriteStamps(past, vendors, m)
      + if Writes(Do(After(EMPTY, past, vendors), ev, vendors), m) then [Stamp(ev)] else []
  }

  /** The device's row has not been written for a minute. */
  predicate QuietAt(evs: seq<Event>, vendors: VendorTable, m: string, now: Instant) {
    forall t :: t in WriteStamps(evs, vendors, m) ==> t + 60_000_000_000 <= now
  }

  /** How an event moves the record of the device's last write. */
  predicate Restamps(reg: Registry, e: Effect, m: string, stamp: Instant) {
    && (Writes(e, m) ==> m in e.reg.byMac && LastSeen(e.reg, m) == stamp)
    && (!Writes(e, m) && m in e.reg.byMac ==> m in reg.byMac && LastSeen(e.reg, m) == LastSeen(reg, m))
    && (m in reg.byMac ==> m in e.reg.byMac)
  }

  lemma StoreStamps(reg: Registry, indexed: Registry, seen: string, dev: Device, now: Instant, m: string)
    requires AllWritten(reg, now) && indexed.byMac == reg.byMac && CarriesOn(reg, seen, dev)
    ensures Restamps(reg, Store(indexed, seen, dev, now), m, now)
    ensures Restamps(reg, Store(indexed, seen, dev, now).(alert := Some(seen)), m, now)
  {
  }

  lemma SightingStamps(reg: Registry, ev: Event, vendors: VendorTable, m: string)
    requires Sound(reg, ev.at) && !ev.op.Touch?
    ensures Restamps(reg, Do(reg, ev, vendors), m, ev.at)
  {
    match ev.op
    case SeeAt(ip, raw) =>
      if Macs.Normalize(raw).Some? {
        var seen := Macs.Normalize(raw).value;
        var indexed := reg.(ipToMac := reg.ipToMac[ip := seen], pending := reg.pending - {ip});
        StoreStamps(reg, indexed, seen, Known(reg, seen).(fields := Sighted(reg, ip, seen, vendors)), ev.at, m);
      }
    case SeeNamed(raw, h) =>
      if Macs.Normalize(raw).Some? && SanitizeHostname(h).Some? {
        var seen := Macs.Normalize(raw).value;
        var fields := SelfNamed(reg, seen, SanitizeHostname(h).value, vendors);
        StoreStamps(reg, reg, seen, Known(reg, seen).(fields := fields), ev.at, m);
      }
    case SeeNameAt(ip, h) =>
      if SanitizeHostname(h).Some? && ip in reg.ipToMac {
        var seen := reg.ipToMac[ip];
        var dev := reg.byMac[seen];
        var fields := dev.fields.(hostname := Coalesce(dev.fields.hostname, SanitizeHostname(h)));
        StoreStamps(reg, reg, seen, dev.(fields := fields), ev.at, m);
      }
  }

  lemma EventStamps(reg: Registry, ev: Event, vendors: VendorTable, m: string)
    requires Sound(reg, ev.at) && (ev.op.Touch? ==> ev.op.read <= ev.at)
    ensures Restamps(reg, Do(reg, ev, vendors), m, Stamp(ev))
    ensures m in reg.byMac && m in Do(reg, ev, vendors).reg.byMac ==>
              LastSeen(reg, m) <= LastSeen(Do(reg, ev, vendors).reg, m)
  {
    WritesHaveACause(reg, ev, vendors, m);
    if !ev.op.Touch? {
      SightingStamps(reg, ev, vendors, m);
    }
  }

  /** `last` is the latest of the stamps, which come in order. */
  predicate LatestOf(stamps: seq<Instant>, last: int) {
    stamps != [] && stamps[|stamps| - 1] == last && forall t :: t in stamps ==> t <= last
  }

  lemma LatestGrows(stamps: seq<Instant>, last: int, stamp: Instant)
    requires stamps == [] || (LatestOf(stamps, last) && last <= stamp)
    ensures LatestOf(stamps + [stamp], stamp)
  {
  }

  lemma LatestDecides(stamps: seq<Instant>, last: int, gap: nat, now: Instant)
    requires LatestOf(stamps, last)
    ensures (forall t :: t in stamps ==> t + gap <= now) <==> last + gap <= now
  {
    assert stamps[|stamps| - 1] in stamps;
  }

  /** What is recorded as the device's last write is the latest of these. */
  predicate RecordsLast(stamps: seq<Instant>, reg: Registry, m: string) {
    if m in reg.byMac then LatestOf(stamps, LastSeen(reg, m)) else stamps == []
  }

  lemma RecordStep(stamps: seq<Instant>, reg: Registry, ev: Event, vendors: VendorTable, m: string)
    requires RecordsLast(stamps, reg, m) && Sound(reg, ev.at) && (ev.op.Touch? ==> ev.op.read <= ev.at)
    ensures var e := Do(reg, ev, vendors);
            RecordsLast(stamps + (if Writes(e, m) then [Stamp(ev)] else []), e.reg, m)
  {
    EventStamps(reg, ev, vendors, m);
    Restamped(stamps, reg, Do(reg, ev, vendors), m, Stamp(ev));
  }

  lemma Restamped(stamps: seq<Instant>, reg: Registry, e: Effect, m: string, stamp: Instant)
    requires RecordsLast(stamps, reg, m) && Restamps(reg, e, m, stamp)
    requires m in reg.byMac && m in e.reg.byMac ==> LastSeen(reg, m) <= LastSeen(e.reg, m)
    ensures RecordsLast(stamps + (if Writes(e, m) then [stamp] else []), e.reg, m)
  {
    if Writes(e, m) {
      LatestGrows(stamps, if m in reg.byMac then LastSeen(reg, m) else 0, stamp);
    } else {
      assert stamps + [] == stamps;
    }
  }

  lemma {:induction false} LastWriteIsRecorded(evs: seq<Event>, vendors: VendorTable, m: string)
    requires Timely(0, evs)
    ensures RecordsLast(WriteStamps(evs, vendors, m), After(EMPTY, evs, vendors), m)
    decreases |evs|
  {
    if evs != [] {
      var past, ev := evs[..|evs| - 1], evs[|evs| - 1];
      LastWriteIsRecorded(past, vendors, m);
      RunKeepsSound(EMPTY, 0, past, vendors, ev.at);
      RecordStep(WriteStamps(past, vendors, m), After(EMPTY, past, vendors), ev, vendors, m);
    }
  }

  /** A device's row is due exactly when none of its writes is less than a minute old. */
  lemma StaleIff(evs: seq<Event>, vendors: VendorTable, m: string, now: Instant)
    requires Timely(0, evs) && m in After(EMPTY, evs, vendors).byMac
    ensures Stale(After(EMPTY, evs, vendors).byMac[m], now) <==> QuietAt(evs, vendors, m, now)
  {
    LastWriteIsRecorded(evs, vendors, m);
    EverySeenIsWritten(evs, vendors, m);
    var reg := After(EMPTY, evs, vendors);
    LatestDecides(WriteStamps(evs, vendors, m), LastSeen(reg, m), 60_000_000_000, now);
    StaleBy(reg, m, now);
  }

  lemma StaleBy(reg: Registry, m: string, now: Instant)
    requires m in reg.byMac && reg.byMac[m].lastSeenWritten.Some?
    ensures Stale(reg.byMac[m], now) <==> LastSeen(reg, m) + 60_000_000_000 <= now
  {
  }

  lemma EverySeenIsWritten(evs: seq<Event>, vendors: VendorTable, m: string)
    requires Timely(0, evs) && m in After(EMPTY, evs, vendors).byMac
    ensures After(EMPTY, evs, vendors).byMac[m].lastSeenWritten.Some?
    ensures After(EMPTY, evs, vendors).byMac[m].written == Some(After(EMPTY, evs, vendors).byMac[m].fields)
  {
    var now := if evs == [] then 0 else evs[|evs| - 1].at;
    RunKeepsSound(EMPTY, 0, evs, vendors, now);
  }

  /** A touch of an address finds it due exactly when the device last shown there has been quiet for a minute. */
  lemma TouchDueIff(evs: seq<Event>, vendors: VendorTable, ip: Ip, now: Instant)
    requires Timely(0, evs)
    ensures TouchDue(After(EMPTY, evs, vendors), ip, now)
       <==> exists m :: LastAt(evs, m, ip) && QuietAt(evs, vendors, m, now)
  {
    var reg := After(EMPTY, evs, vendors);
    IndexLeadsToKnown(evs, vendors);
    if ip in reg.ipToMac {
      var m := reg.ipToMac[ip];
      IndexIsLastSighting(evs, vendors, m, ip);
      StaleIff(evs, vendors, m, now);
    }
    if m :| LastAt(evs, m, ip) && QuietAt(evs, vendors, m, now) {
      IndexIsLastSighting(evs, vendors, m, ip);
    }
  }

  /** The event speaks of the device: shows it, is its own announcement, or is a name heard for the address that
      last showed it. */
  ghost predicate SpeaksOf(past: seq<Event>, ev: Event, m: string) {
    Shows(ev, m) || Announces(ev, m) || (ev.op.SeeNameAt? && Hears(ev, ev.op.ip) && LastAt(past, m, ev.op.ip))
  }

  /** Exactly when an event writes the device's row: a sighting that speaks of it, when it changes what is known
      or the row is due, and a touch of the address that last showed it when the row is due. A touch changes
      nothing else. */
  lemma WritesIff(past: seq<Event>, ev: Event, vendors: VendorTable, m: string)
    requires Timely(0, past + [ev])
    ensures var reg := After(EMPTY, past, vendors);
            var e := Do(reg, ev, vendors);
            if ev.op.Touch? then
              && (Writes(e, m) <==> LastAt(past, m, ev.op.ip) && QuietAt(past, vendors, m, ev.op.read))
              && !Changed(reg, e.reg, m) && e.reg.ipToMac == reg.ipToMac && e.reg.pending == reg.pending
            else
              Writes(e, m) <==> SpeaksOf(past, ev, m)
                                && (Changed(reg, e.reg, m) || QuietAt(past, vendors, m, ev.at))
  {
    var reg := After(EMPTY, past, vendors);
    PastIsTimely(past, ev);
    IndexLeadsToKnown(past, vendors);
    if m in reg.byMac {
      EverySeenIsWritten(past, vendors, m);
      StaleIff(past, vendors, m, Stamp(ev));
    }
    if ev.op.SeeNameAt? || ev.op.Touch? {
      IndexIsLastSighting(past, vendors, m, ev.op.ip);
    }
    match ev.op
    case SeeAt(_, _) => SightingWrites(reg, ev, vendors, m);
    case SeeNamed(_, _) => SightingWrites(reg, ev, vendors, m);
    case SeeNameAt(_, _) => SightingWrites(reg, ev, vendors, m);
    case Touch(_, _) => TouchWrites(reg, ev, vendors, m);
  }

  lemma PastIsTimely(past: seq<Event>, ev: Event)
    requires Timely(0, past + [ev])
    ensures Timely(0, past)
  {
    var all := past + [ev];
    assert forall i :: 0 <= i < |past| ==> all[i] == past[i];
  }

  lemma TouchWrites(reg: Registry, ev: Event, vendors: VendorTable, m: string)
    requires Indexed(reg) && ev.op.Touch?
    ensures var e := Do(reg, ev, vendors);
            && (Writes(e, m) <==> Has(reg.ipToMac, ev.op.ip, m) && Stale(reg.byMac[m], ev.op.read))
            && !Changed(reg, e.reg, m) && e.reg.ipToMac == reg.ipToMac && e.reg.pending == reg.pending
  {
  }

  predicate Concerns(reg: Registry, ev: Event, m: string) {
    Shows(ev, m) || Announces(ev, m) || (ev.op.SeeNameAt? && Hears(ev, ev.op.ip) && Has(reg.ipToMac, ev.op.ip, m))
  }

  /** What storing a device writes: its own row, when it changed or is due. */
  predicate WritesOwn(reg: Registry, e: Effect, seen: string, now: Instant, m: string) {
    && (Writes(e, m) <==> m == seen && (Changed(reg, e.reg, m) || (m in reg.byMac && Stale(reg.byMac[m], now))))
    && (m == seen && m !in reg.byMac ==> Changed(reg, e.reg, m))
  }

  lemma StoreWrites(reg: Registry, indexed: Registry, seen: string, dev: Device, now: Instant, m: string)
    requires indexed.byMac == reg.byMac && CarriesOn(reg, seen, dev)
    requires m in reg.byMac ==> reg.byMac[m].written == Some(reg.byMac[m].fields)
    ensures WritesOwn(reg, Store(indexed, seen, dev, now), seen, now, m)
    ensures WritesOwn(reg, Store(indexed, seen, dev, now).(alert := Some(seen)), seen, now, m)
  {
  }

  lemma SightingWrites(reg: Registry, ev: Event, vendors: VendorTable, m: string)
    requires Indexed(reg) && !ev.op.Touch?
    requires m in reg.byMac ==> reg.byMac[m].written == Some(reg.byMac[m].fields)
    ensures var e := Do(reg, ev, vendors);
            && (Writes(e, m) <==> Concerns(reg, ev, m)
                                  && (Changed(reg, e.reg, m) || (m in reg.byMac && Stale(reg.byMac[m], ev.at))))
            && (Concerns(reg, ev, m) && m !in reg.byMac ==> Changed(reg, e.reg, m))
  {
    match ev.op
    case SeeAt(ip, raw) =>
      if Macs.Normalize(raw).Some? {
        var seen := Macs.Normalize(raw).value;
        var indexed := reg.(ipToMac := reg.ipToMac[ip := seen], pending := reg.pending - {ip});
        StoreWrites(reg, indexed, seen, Known(reg, seen).(fields := Sighted(reg, ip, seen, vendors)), ev.at, m);
      }
    case SeeNamed(raw, h) =>
      if Macs.Normalize(raw).Some? && SanitizeHostname(h).Some? {
        var seen := Macs.Normalize(raw).value;
        var fields := SelfNamed(reg, seen, SanitizeHostname(h).value, vendors);
        StoreWrites(reg, reg, seen, Known(reg, seen).(fields := fields), ev.at, m);
      }
    case SeeNameAt(ip, h) =>
      if SanitizeHostname(h).Some? && ip in reg.ipToMac {
        var seen := reg.ipToMac[ip];
        var dev := reg.byMac[seen];
        var fields := dev.fields.(hostname := Coalesce(dev.fields.hostname, SanitizeHostname(h)));
        StoreWrites(reg, reg, seen, dev.(fields := fields), ev.at, m);
      }
  }
}
