/** What any run of sightings keeps in the registry: the written fingerprint, the indexes, the alerts
    and the bound on row writes. */
module DeviceRuns {
  import opened Wrappers
  import opened Devices
  import Macs

  /** A sighting; a touch carries the clock reading taken before it got the lock. */
  datatype Op =
    | SeeAt(ip: Ip, rawMac: string)
    | SeeNamed(rawMac: string, hostname: string)
    | SeeNameAt(ip: Ip, hostname: string)
    | Touch(ip: Ip, read: Instant)

  /** An operation, and when it held the write lock. */
  datatype Event = Event(op: Op, at: Instant)

  function Do(reg: Registry, ev: Event, vendors: VendorTable): Effect {
    match ev.op
    case SeeAt(ip, rawMac) => Observed(reg, ip, rawMac, vendors, ev.at)
    case SeeNamed(rawMac, hostname) => Named(reg, rawMac, hostname, vendors, ev.at)
    case SeeNameAt(ip, hostname) => NamedByIp(reg, ip, hostname, ev.at)
    case Touch(ip, read) => Touched(reg, ip, read)
  }

  function After(reg: Registry, evs: seq<Event>, vendors: VendorTable): Registry {
    if evs == [] then reg
    else Do(After(reg, evs[..|evs| - 1], vendors), evs[|evs| - 1], vendors).reg
  }

  /** Lock times follow the clock from `start` on; a touch read it no later than it committed. */
  predicate Timely(start: Instant, evs: seq<Event>) {
    && (forall i :: 0 <= i < |evs| ==> start <= evs[i].at)
    && (forall i, j :: 0 <= i < j < |evs| ==> evs[i].at <= evs[j].at)
    && (forall i :: 0 <= i < |evs| && evs[i].op.Touch? ==> evs[i].op.read <= evs[i].at)
  }

  // ---- the invariant -----------------------------------------------------

  predicate Canonical(mac: string) {
    Macs.Normalize(mac) == Some(mac)
  }

  /** Everything known has been written as it stands, at some time up to `now`. */
  predicate AllWritten(reg: Registry, now: Instant) {
    forall m :: m in reg.byMac ==>
      && reg.byMac[m].written == Some(reg.byMac[m].fields)
      && reg.byMac[m].lastSeenWritten.Some? && reg.byMac[m].lastSeenWritten.value <= now
  }

  /** The reverse index leads to known devices, and names are pending for other addresses only. */
  predicate Indexed(reg: Registry) {
    && (forall ip :: ip in reg.ipToMac ==> reg.ipToMac[ip] in reg.byMac)
    && (forall ip :: ip in reg.pending ==> ip !in reg.ipToMac)
  }

  predicate KeysAreCanonical(reg: Registry) {
    forall m :: m in reg.byMac ==> Canonical(m)
  }

  predicate Sound(reg: Registry, now: Instant) {
    AllWritten(reg, now) && Indexed(reg) && KeysAreCanonical(reg)
  }

  /** The device carries on the write record the registry has for the MAC. */
  predicate CarriesOn(reg: Registry, mac: string, dev: Device) {
    dev.written == Known(reg, mac).written && dev.lastSeenWritten == Known(reg, mac).lastSeenWritten
  }

  lemma StoreKeepsSound(reg: Registry, mac: string, dev: Device, now: Instant)
    requires AllWritten(reg, now) && KeysAreCanonical(reg) && Canonical(mac) && CarriesOn(reg, mac, dev)
    requires forall ip :: ip in reg.ipToMac ==> reg.ipToMac[ip] in reg.byMac || reg.ipToMac[ip] == mac
    requires forall ip :: ip in reg.pending ==> ip !in reg.ipToMac
    ensures Sound(Store(reg, mac, dev, now).reg, now)
  {
  }

  lemma ObserveKeepsSound(reg: Registry, ip: Ip, rawMac: string, vendors: VendorTable, now: Instant)
    requires Sound(reg, now)
    ensures Sound(Observed(reg, ip, rawMac, vendors, now).reg, now)
  {
    if Macs.Normalize(rawMac).Some? {
      var mac := Macs.Normalize(rawMac).value;
      Macs.NormalizeIsIdempotent(rawMac);
      var indexed := reg.(ipToMac := reg.ipToMac[ip := mac], pending := reg.pending - {ip});
      StoreKeepsSound(indexed, mac, Known(reg, mac).(fields := Sighted(reg, ip, mac, vendors)), now);
    }
  }

  lemma NamingKeepsSound(reg: Registry, rawMac: string, hostname: string, vendors: VendorTable, now: Instant)
    requires Sound(reg, now)
    ensures Sound(Named(reg, rawMac, hostname, vendors, now).reg, now)
  {
    if Macs.Normalize(rawMac).Some? && SanitizeHostname(hostname).Some? {
      var mac := Macs.Normalize(rawMac).value;
      Macs.NormalizeIsIdempotent(rawMac);
      var fields := SelfNamed(reg, mac, SanitizeHostname(hostname).value, vendors);
      StoreKeepsSound(reg, mac, Known(reg, mac).(fields := fields), now);
    }
  }

  lemma NamingByIpKeepsSound(reg: Registry, ip: Ip, hostname: string, now: Instant)
    requires Sound(reg, now)
    ensures Sound(NamedByIp(reg, ip, hostname, now).reg, now)
  {
    if SanitizeHostname(hostname).Some? && ip in reg.ipToMac {
      var mac := reg.ipToMac[ip];
      var dev := reg.byMac[mac];
      var fields := dev.fields.(hostname := Coalesce(dev.fields.hostname, SanitizeHostname(hostname)));
      StoreKeepsSound(reg, mac, dev.(fields := fields), now);
    }
  }

  lemma TouchKeepsSound(reg: Registry, ip: Ip, read: Instant, now: Instant)
    requires Sound(reg, now) && read <= now
    ensures Sound(Touched(reg, ip, read).reg, now)
  {
  }

  lemma DoKeepsSound(reg: Registry, ev: Event, vendors: VendorTable)
    requires Sound(reg, ev.at) && (ev.op.Touch? ==> ev.op.read <= ev.at)
    ensures Sound(Do(reg, ev, vendors).reg, ev.at)
  {
    match ev.op
    case SeeAt(ip, rawMac) => ObserveKeepsSound(reg, ip, rawMac, vendors, ev.at);
    case SeeNamed(rawMac, hostname) => NamingKeepsSound(reg, rawMac, hostname, vendors, ev.at);
    case SeeNameAt(ip, hostname) => NamingByIpKeepsSound(reg, ip, hostname, ev.at);
    case Touch(ip, read) => TouchKeepsSound(reg, ip, read, ev.at);
  }

  /** After every operation of every run, each device's written fingerprint equals its fields, every
      indexed address leads to a known device, and pending names are for unindexed addresses. */
  lemma {:induction false} RunKeepsSound(reg: Registry, start: Instant, evs: seq<Event>, vendors: VendorTable,
                                         now: Instant)
    requires Sound(reg, start) && Timely(start, evs)
    requires start <= now && forall i :: 0 <= i < |evs| ==> evs[i].at <= now
    ensures Sound(After(reg, evs, vendors), now)
    decreases |evs|
  {
    if evs != [] {
      var n := |evs| - 1;
      RunKeepsSound(reg, start, evs[..n], vendors, evs[n].at);
      DoKeepsSound(After(reg, evs[..n], vendors), evs[n], vendors);
    }
  }

  // ---- when a row is written ---------------------------------------------

  /** The operation created the device or changed a field worth writing. */
  predicate Changed(reg: Registry, reg': Registry, mac: string) {
    mac in reg'.byMac && (mac !in reg.byMac || reg'.byMac[mac].fields != reg.byMac[mac].fields)
  }

  predicate Writes(e: Effect, mac: string) {
    e.write.Some? && e.write.value.mac == mac
  }

  function LastSeen(reg: Registry, mac: string): int
    requires mac in reg.byMac
  {
    if reg.byMac[mac].lastSeenWritten.Some? then reg.byMac[mac].lastSeenWritten.value else -1
  }

  /** A write is caused by a change, or moves last_seen on by a heartbeat at least; last_seen never
      goes back, and what is written is what is stored. */
  predicate Caused(reg: Registry, e: Effect, mac: string) {
    && (Changed(reg, e.reg, mac) ==> Writes(e, mac))
    && (Writes(e, mac) ==> mac in e.reg.byMac && e.write.value.fields == e.reg.byMac[mac].fields)
    && (Writes(e, mac) && !Changed(reg, e.reg, mac) ==>
          mac in reg.byMac && LastSeen(e.reg, mac) >= LastSeen(reg, mac) + HEARTBEAT)
    && (mac in reg.byMac ==> mac in e.reg.byMac && LastSeen(reg, mac) <= LastSeen(e.reg, mac))
  }

  lemma StoreIsCaused(reg: Registry, indexed: Registry, seen: string, dev: Device, now: Instant, mac: string)
    requires AllWritten(reg, now) && indexed.byMac == reg.byMac && CarriesOn(reg, seen, dev)
    ensures Caused(reg, Store(indexed, seen, dev, now), mac)
    ensures Caused(reg, Store(indexed, seen, dev, now).(alert := Some(seen)), mac)
    ensures mac !in reg.byMac && mac in Store(indexed, seen, dev, now).reg.byMac
            ==> LastSeen(Store(indexed, seen, dev, now).reg, mac) == now
  {
  }

  /** Every write has a cause, and a device that is new was first written just then. */
  lemma WritesHaveACause(reg: Registry, ev: Event, vendors: VendorTable, mac: string)
    requires Sound(reg, ev.at) && (ev.op.Touch? ==> ev.op.read <= ev.at)
    ensures Caused(reg, Do(reg, ev, vendors), mac)
    ensures mac !in reg.byMac && mac in Do(reg, ev, vendors).reg.byMac
            ==> LastSeen(Do(reg, ev, vendors).reg, mac) == ev.at
  {
    match ev.op
    case SeeAt(ip, rawMac) =>
      if Macs.Normalize(rawMac).Some? {
        var seen := Macs.Normalize(rawMac).value;
        var indexed := reg.(ipToMac := reg.ipToMac[ip := seen], pending := reg.pending - {ip});
        StoreIsCaused(reg, indexed, seen, Known(reg, seen).(fields := Sighted(reg, ip, seen, vendors)), ev.at, mac);
      }
    case SeeNamed(rawMac, hostname) =>
      if Macs.Normalize(rawMac).Some? && SanitizeHostname(hostname).Some? {
        var seen := Macs.Normalize(rawMac).value;
        var fields := SelfNamed(reg, seen, SanitizeHostname(hostname).value, vendors);
        StoreIsCaused(reg, reg, seen, Known(reg, seen).(fields := fields), ev.at, mac);
      }
    case SeeNameAt(ip, hostname) =>
      if SanitizeHostname(hostname).Some? && ip in reg.ipToMac {
        var seen := reg.ipToMac[ip];
        var dev := reg.byMac[seen];
        var fields := dev.fields.(hostname := Coalesce(dev.fields.hostname, SanitizeHostname(hostname)));
        StoreIsCaused(reg, reg, seen, dev.(fields := fields), ev.at, mac);
      }
    case Touch(ip, read) =>
  }

  function Count(reg: Registry, evs: seq<Event>, vendors: VendorTable, p: (Registry, Effect) -> bool): nat {
    if evs == [] then 0
    else
      var n := |evs| - 1;
      var before := After(reg, evs[..n], vendors);
      Count(reg, evs[..n], vendors, p) + if p(before, Do(before, evs[n], vendors)) then 1 else 0
  }

  /** How often the run writes the device's row. */
  function WriteCount(reg: Registry, evs: seq<Event>, vendors: VendorTable, mac: string): nat {
    Count(reg, evs, vendors, (r, e) => Writes(e, mac))
  }

  /** How often the run creates or changes the device. */
  function ChangeCount(reg: Registry, evs: seq<Event>, vendors: VendorTable, mac: string): nat {
    Count(reg, evs, vendors, (r, e: Effect) => Changed(r, e.reg, mac))
  }

  /** How often the run raises the alert for a new device. */
  function AlertCount(reg: Registry, evs: seq<Event>, vendors: VendorTable, mac: string): nat {
    Count(reg, evs, vendors, (r, e: Effect) => e.alert == Some(mac))
  }

  /** When the device was last written before the run, or when the run starts. */
  function Since(reg: Registry, start: Instant, mac: string): int {
    if mac in reg.byMac then LastSeen(reg, mac) else start
  }

  lemma {:induction false} HeartbeatsTakeTime(reg: Registry, start: Instant, evs: seq<Event>, vendors: VendorTable,
                                              mac: string)
    requires Sound(reg, start) && Timely(start, evs)
    ensures ChangeCount(reg, evs, vendors, mac) <= WriteCount(reg, evs, vendors, mac)
    ensures mac !in After(reg, evs, vendors).byMac ==> mac !in reg.byMac && WriteCount(reg, evs, vendors, mac) == 0
    ensures mac in After(reg, evs, vendors).byMac ==>
              (WriteCount(reg, evs, vendors, mac) - ChangeCount(reg, evs, vendors, mac)) * HEARTBEAT
              <= LastSeen(After(reg, evs, vendors), mac) - Since(reg, start, mac)
    decreases |evs|
  {
    if evs != [] {
      var n := |evs| - 1;
      HeartbeatsTakeTime(reg, start, evs[..n], vendors, mac);
      RunKeepsSound(reg, start, evs[..n], vendors, evs[n].at);
      var before := After(reg, evs[..n], vendors);
      WritesHaveACause(before, evs[n], vendors, mac);
    }
  }

  /** The write-rate bound: however sightings and touches interleave, a device's row is written at most
      once per change plus once per full heartbeat since it was last written. */
  lemma WriteRateIsBounded(reg: Registry, start: Instant, evs: seq<Event>, vendors: VendorTable, mac: string,
                           now: Instant)
    requires Sound(reg, start) && Timely(start, evs)
    requires start <= now && forall i :: 0 <= i < |evs| ==> evs[i].at <= now
    ensures WriteCount(reg, evs, vendors, mac)
         <= ChangeCount(reg, evs, vendors, mac) + (now - Since(reg, start, mac)) / HEARTBEAT
  {
    HeartbeatsTakeTime(reg, start, evs, vendors, mac);
    RunKeepsSound(reg, start, evs, vendors, now);
    var idle := WriteCount(reg, evs, vendors, mac) - ChangeCount(reg, evs, vendors, mac);
    assert idle * HEARTBEAT <= now - Since(reg, start, mac);
  }

  // ---- alerts ------------------------------------------------------------

  lemma AlertsAreForNewcomers(reg: Registry, ev: Event, vendors: VendorTable, mac: string)
    ensures Do(reg, ev, vendors).alert == Some(mac)
       <==> ev.op.SeeAt? && Macs.Normalize(ev.op.rawMac) == Some(mac) && mac !in reg.byMac
    ensures mac in reg.byMac ==> mac in Do(reg, ev, vendors).reg.byMac
    ensures Do(reg, ev, vendors).alert == Some(mac) ==> mac in Do(reg, ev, vendors).reg.byMac
  {
  }

  /** Over a whole run at most one new-device alert is raised for a MAC, and none for one already known. */
  lemma {:induction false} AtMostOneAlert(reg: Registry, evs: seq<Event>, vendors: VendorTable, mac: string)
    ensures AlertCount(reg, evs, vendors, mac)
         <= if mac in After(reg, evs, vendors).byMac && mac !in reg.byMac then 1 else 0
    ensures mac in reg.byMac ==> mac in After(reg, evs, vendors).byMac
    decreases |evs|
  {
    if evs != [] {
      var n := |evs| - 1;
      AtMostOneAlert(reg, evs[..n], vendors, mac);
      AlertsAreForNewcomers(After(reg, evs[..n], vendors), evs[n], vendors, mac);
    }
  }

  // ---- touches -----------------------------------------------------------

  /** Skipping the write lock when nothing is due changes nothing. */
  lemma SkippedTouchIsIdle(reg: Registry, ip: Ip, now: Instant)
    requires !TouchDue(reg, ip, now)
    ensures Touched(reg, ip, now) == Effect(reg, None, None)
  {
  }

  /** A whole touch: the look under the read lock, whatever others do before the write lock is free, and the
      locked half when the look found the device due. */
  function TouchAround(reg: Registry, gap: seq<Event>, ip: Ip, read: Instant, vendors: VendorTable): Effect {
    var later := After(reg, gap, vendors);
    if TouchDue(reg, ip, read) then Touched(later, ip, read) else Effect(later, None, None)
  }

  lemma {:induction false} AfterFirst(reg: Registry, ev: Event, evs: seq<Event>, vendors: VendorTable)
    ensures After(reg, [ev] + evs, vendors) == After(Do(reg, ev, vendors).reg, evs, vendors)
    decreases |evs|
  {
    var all := [ev] + evs;
    if evs == [] {
      assert all == [ev] && [ev][..0] == [];
    } else {
      var n := |evs| - 1;
      assert all[..|all| - 1] == [ev] + evs[..n];
      AfterFirst(reg, ev, evs[..n], vendors);
    }
  }

  /** A whole touch is one event of a run, with the one instant it read: at its commit when the look found the
      device due, otherwise at the look itself, where it does nothing. */
  lemma TouchIsOneEvent(reg: Registry, gap: seq<Event>, ev: Event, vendors: VendorTable)
    requires ev.op.Touch?
    ensures var whole := TouchAround(reg, gap, ev.op.ip, ev.op.read, vendors);
            if TouchDue(reg, ev.op.ip, ev.op.read) then
              whole == Do(After(reg, gap, vendors), ev, vendors)
            else
              && whole.reg == After(reg, [ev] + gap, vendors) && whole.write == None
              && Do(reg, ev, vendors) == Effect(reg, None, None)
  {
    AfterFirst(reg, ev, gap, vendors);
    if !TouchDue(reg, ev.op.ip, ev.op.read) {
      SkippedTouchIsIdle(reg, ev.op.ip, ev.op.read);
    }
  }

  /** Two touches of one device that both found it due write one row: the second checks again. */
  lemma SecondTouchIsIdle(reg: Registry, ip: Ip, first: Instant, second: Instant)
    requires second < first + HEARTBEAT && TouchDue(reg, ip, first)
    ensures Touched(reg, ip, first).write.Some?
    ensures Touched(Touched(reg, ip, first).reg, ip, second).write == None
  {
  }
}
