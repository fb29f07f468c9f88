/** The device registry: three maps updated in place, and the rule that debounces row writes. */
module Devices {
  import opened Wrappers
  import opened Text
  import Macs

  type Ip = u32
  type Instant = nat

  /** A row's last_seen is refreshed at most this often, in nanoseconds. */
  const HEARTBEAT: nat := 60_000_000_000

  /** Everything worth a write; last_seen is left to the heartbeat. */
  datatype Fields = Fields(ip: Option<Ip>, hostname: Option<string>, vendor: Option<string>, randomized: bool)

  datatype Device = Device(
    fields: Fields,
    written: Option<Fields>,
    lastSeenWritten: Option<Instant>
  )

  const UNSEEN: Device := Device(Fields(None, None, None, false), None, None)

  predicate Stale(dev: Device, now: Instant) {
    dev.lastSeenWritten.None? || SaturatingSub(now, dev.lastSeenWritten.value) >= HEARTBEAT
  }

  predicate WorthWriting(dev: Device, now: Instant) {
    dev.written != Some(dev.fields) || Stale(dev, now)
  }

  /** The device after deciding on a write, having recorded the one about to be made. */
  function Slotted(dev: Device, now: Instant): Device {
    if WorthWriting(dev, now) then dev.(written := Some(dev.fields), lastSeenWritten := Some(now)) else dev
  }

  datatype Registry = Registry(
    byMac: map<string, Device>,
    ipToMac: map<Ip, string>,
    pending: map<Ip, string>
  )

  const EMPTY: Registry := Registry(map[], map[], map[])

  /** A row sent to the writer, without its timestamp. */
  datatype Write = Write(mac: string, fields: Fields)

  /** A registry with the write and the new-device alert an operation raised, if any. */
  datatype Effect = Effect(reg: Registry, write: Option<Write>, alert: Option<string>)

  /** A row of the device table, as startup reads it. */
  datatype KnownDevice = KnownDevice(mac: string, ip: Option<Ip>, hostname: Option<string>,
                                     vendor: Option<string>, randomized: bool)

  type VendorTable = string -> Option<string>

  const RANDOMIZED_VENDOR: string := "(randomized MAC)"

  function VendorOf(vendors: VendorTable, mac: string): Option<string> {
    if Macs.IsRandomized(mac) then Some(RANDOMIZED_VENDOR) else vendors(mac)
  }

  predicate HostnameChar(c: char) {
    IsAlnum(c) || c == '-' || c == '_' || c == '.'
  }

  /** A plausible, printable host name, or nothing. An IPv6 literal fails the character test. */
  function SanitizeHostname(raw: string): Option<string> {
    var trimmed := TrimEndDots(Trim(raw));
    if trimmed == "" || |trimmed| > 64 || (exists c :: c in trimmed && !HostnameChar(c)) || IsIpv4Literal(trimmed) then
      None
    else Some(Lower(trimmed))
  }

  function Known(reg: Registry, mac: string): Device {
    if mac in reg.byMac then reg.byMac[mac] else UNSEEN
  }

  /** Put a changed device back, deciding whether it is written. */
  function Store(reg: Registry, mac: string, dev: Device, now: Instant): Effect {
    Effect(reg.(byMac := reg.byMac[mac := Slotted(dev, now)]),
           if WorthWriting(dev, now) then Some(Write(mac, dev.fields)) else None,
           None)
  }

  /** Storing a device that has been put back already is storing it. */
  lemma StoreOver(reg: Registry, mac: string, dev: Device, now: Instant)
    ensures Store(reg.(byMac := reg.byMac[mac := dev]), mac, dev, now) == Store(reg, mac, dev, now)
  {
    assert reg.byMac[mac := dev][mac := Slotted(dev, now)] == reg.byMac[mac := Slotted(dev, now)];
  }

  // ---- operations as transitions -----------------------------------------

  /** The fields of a MAC sighted at an address. */
  function Sighted(reg: Registry, ip: Ip, mac: string, vendors: VendorTable): Fields {
    var f := Known(reg, mac).fields;
    Fields(Some(ip),
           if ip in reg.pending then Some(reg.pending[ip]) else f.hostname,
           Coalesce(f.vendor, VendorOf(vendors, mac)),
           Macs.IsRandomized(mac))
  }

  function Observed(reg: Registry, ip: Ip, rawMac: string, vendors: VendorTable, now: Instant): Effect {
    match Macs.Normalize(rawMac)
    case None => Effect(reg, None, None)
    case Some(mac) =>
      var dev := Known(reg, mac).(fields := Sighted(reg, ip, mac, vendors));
      var indexed := reg.(ipToMac := reg.ipToMac[ip := mac], pending := reg.pending - {ip});
      Store(indexed, mac, dev, now).(alert := if mac in reg.byMac then None else Some(mac))
  }

  /** The fields of a MAC that named itself. */
  function SelfNamed(reg: Registry, mac: string, name: string, vendors: VendorTable): Fields {
    var f := Known(reg, mac).fields;
    Fields(f.ip, Some(name), Coalesce(f.vendor, VendorOf(vendors, mac)), Macs.IsRandomized(mac))
  }

  function Named(reg: Registry, rawMac: string, hostname: string, vendors: VendorTable, now: Instant): Effect {
    match (Macs.Normalize(rawMac), SanitizeHostname(hostname))
    case (Some(mac), Some(name)) =>
      Store(reg, mac, Known(reg, mac).(fields := SelfNamed(reg, mac, name, vendors)), now)
    case _ => Effect(reg, None, None)
  }

  function NamedByIp(reg: Registry, ip: Ip, hostname: string, now: Instant): Effect {
    match SanitizeHostname(hostname)
    case None => Effect(reg, None, None)
    case Some(name) =>
      if ip in reg.ipToMac then
        var mac := reg.ipToMac[ip];
        var dev := if mac in reg.byMac then reg.byMac[mac] else UNSEEN.(fields := UNSEEN.fields.(ip := Some(ip)));
        var fields := dev.fields.(hostname := Coalesce(dev.fields.hostname, Some(name)));
        Store(reg, mac, dev.(fields := fields), now)
      else Effect(reg.(pending := reg.pending[ip := name]), None, None)
  }

  /** Whether an address belongs to a device whose last_seen is due. */
  predicate TouchDue(reg: Registry, ip: Ip, now: Instant) {
    ip in reg.ipToMac && reg.ipToMac[ip] in reg.byMac && Stale(reg.byMac[reg.ipToMac[ip]], now)
  }

  /** The write-locked half of a touch, which checks again. */
  function Touched(reg: Registry, ip: Ip, now: Instant): Effect {
    if TouchDue(reg, ip, now) then
      var mac := reg.ipToMac[ip];
      var dev := reg.byMac[mac].(lastSeenWritten := Some(now));
      Effect(reg.(byMac := reg.byMac[mac := dev]), Some(Write(mac, dev.fields)), None)
    else Effect(reg, None, None)
  }

  function HydratedRow(reg: Registry, row: KnownDevice, now: Instant): Registry {
    match Macs.Normalize(row.mac)
    case None => reg
    case Some(mac) =>
      var fields := Fields(row.ip, row.hostname, row.vendor, row.randomized);
      reg.(byMac := reg.byMac[mac := Device(fields, Some(fields), Some(now))],
           ipToMac := if row.ip.Some? then reg.ipToMac[row.ip.value := mac] else reg.ipToMac)
  }

  function Hydrated(reg: Registry, rows: seq<KnownDevice>, now: Instant): Registry {
    if rows == [] then reg
    else HydratedRow(Hydrated(reg, rows[..|rows| - 1], now), rows[|rows| - 1], now)
  }

  /** How many rows carry a usable MAC. */
  function Loadable(rows: seq<KnownDevice>): nat {
    if rows == [] then 0
    else Loadable(rows[..|rows| - 1]) + if Macs.Normalize(rows[|rows| - 1].mac).Some? then 1 else 0
  }

  // ---- the registry itself -----------------------------------------------

  class DeviceStore {
    var byMac: map<string, Device>
    var ipToMac: map<Ip, string>
    var pendingNames: map<Ip, string>
    const vendors: VendorTable
    var sent: seq<Write>
    var alerts: seq<string>

    function State(): Registry
      reads this
    {
      Registry(byMac, ipToMac, pendingNames)
    }

    constructor (vendors: VendorTable)
      ensures State() == EMPTY && sent == [] && alerts == [] && this.vendors == vendors
    {
      byMac, ipToMac, pendingNames := map[], map[], map[];
      this.vendors := vendors;
      sent, alerts := [], [];
    }

    /** The effect `e` is what happened since `reg`, `writes` and `raised`. */
    ghost predicate Follows(e: Effect, writes: seq<Write>, raised: seq<string>)
      reads this
    {
      && State() == e.reg
      && sent == writes + (if e.write.Some? then [e.write.value] else [])
      && alerts == raised + (if e.alert.Some? then [e.alert.value] else [])
    }

    method Hydrate(rows: seq<KnownDevice>, now: Instant) returns (loaded: nat)
      modifies this`byMac, this`ipToMac
      ensures State() == Hydrated(old(State()), rows, now)
      ensures loaded == Loadable(rows)
    {
      loaded := 0;
      for i := 0 to |rows|
        invariant State() == Hydrated(old(State()), rows[..i], now)
        invariant loaded == Loadable(rows[..i])
      {
        assert rows[..i + 1][..i] == rows[..i];
        var row := rows[i];
        var mac := Macs.Normalize(row.mac);
        if mac.None? {
          continue;
        }
        var fields := Fields(row.ip, row.hostname, row.vendor, row.randomized);
        if row.ip.Some? {
          ipToMac := ipToMac[row.ip.value := mac.value];
        }
        byMac := byMac[mac.value := Device(fields, Some(fields), Some(now))];
        loaded := loaded + 1;
      }
      assert rows[..|rows|] == rows;
    }

    /** Decide whether the stored device is worth a row write, record it and send it. */
    method TakeWriteSlot(mac: string, now: Instant)
      requires mac in byMac
      modifies this`byMac, this`sent
      ensures var e := Store(old(State()), mac, old(byMac[mac]), now);
              State() == e.reg && sent == old(sent) + (if e.write.Some? then [e.write.value] else [])
    {
      var dev := byMac[mac];
      if WorthWriting(dev, now) {
        byMac := byMac[mac := dev.(written := Some(dev.fields), lastSeenWritten := Some(now))];
        sent := sent + [Write(mac, dev.fields)];
      } else {
        assert byMac[mac := dev] == byMac;
      }
    }

    method Observe(ip: Ip, rawMac: string, now: Instant)
      modifies this
      ensures Follows(Observed(old(State()), ip, rawMac, vendors, now), old(sent), old(alerts))
    {
      var normalized := Macs.Normalize(rawMac);
      if normalized.None? {
        return;
      }
      var mac := normalized.value;
      ghost var before := State();
      var pending := if ip in pendingNames then Some(pendingNames[ip]) else None;
      pendingNames := pendingNames - {ip};
      ipToMac := ipToMac[ip := mac];
      ghost var indexed := State();
      var isNew := mac !in byMac;
      var dev := if isNew then UNSEEN else byMac[mac];
      var f := dev.fields.(ip := Some(ip), randomized := Macs.IsRandomized(mac));
      if f.vendor.None? {
        f := f.(vendor := VendorOf(vendors, mac));
      }
      if pending.Some? {
        f := f.(hostname := pending);
      }
      byMac := byMac[mac := dev.(fields := f)];
      assert f == Sighted(before, ip, mac, vendors);
      StoreOver(indexed, mac, dev.(fields := f), now);
      TakeWriteSlot(mac, now);
      if isNew {
        alerts := alerts + [mac];
      }
    }

    method ObserveNamed(rawMac: string, hostname: string, now: Instant)
      modifies this`byMac, this`sent
      ensures Follows(Named(old(State()), rawMac, hostname, vendors, now), old(sent), alerts)
    {
      var normalized := Macs.Normalize(rawMac);
      if normalized.None? {
        return;
      }
      var name := SanitizeHostname(hostname);
      if name.None? {
        return;
      }
      var mac := normalized.value;
      ghost var before := State();
      var dev := if mac in byMac then byMac[mac] else UNSEEN;
      var f := dev.fields.(hostname := name, randomized := Macs.IsRandomized(mac));
      if f.vendor.None? {
        f := f.(vendor := VendorOf(vendors, mac));
      }
      byMac := byMac[mac := dev.(fields := f)];
      StoreOver(before, mac, dev.(fields := f), now);
      TakeWriteSlot(mac, now);
    }

    method ObserveNameForIp(ip: Ip, hostname: string, now: Instant)
      modifies this`byMac, this`pendingNames, this`sent
      ensures Follows(NamedByIp(old(State()), ip, hostname, now), old(sent), alerts)
    {
      var name := SanitizeHostname(hostname);
      if name.None? {
        return;
      }
      if ip in ipToMac {
        var mac := ipToMac[ip];
        ghost var before := State();
        var dev := if mac in byMac then byMac[mac] else UNSEEN.(fields := UNSEEN.fields.(ip := Some(ip)));
        var f := dev.fields;
        if f.hostname.None? {
          f := f.(hostname := name);
        }
        byMac := byMac[mac := dev.(fields := f)];
        StoreOver(before, mac, dev.(fields := f), now);
        TakeWriteSlot(mac, now);
      } else {
        pendingNames := pendingNames[ip := name.value];
      }
    }

    /** The read-locked half: nothing to do in the common case. */
    method TouchIsDue(ip: Ip, now: Instant) returns (due: bool)
      ensures due <==> TouchDue(State(), ip, now)
    {
      if ip !in ipToMac || ipToMac[ip] !in byMac {
        return false;
      }
      return Stale(byMac[ipToMac[ip]], now);
    }

    /** The write-locked half, with the clock reading taken before the first lock. */
    method TouchCommit(ip: Ip, now: Instant)
      modifies this`byMac, this`sent
      ensures Follows(Touched(old(State()), ip, now), old(sent), alerts)
    {
      if ip !in ipToMac {
        return;
      }
      var mac := ipToMac[ip];
      if mac in byMac && Stale(byMac[mac], now) {
        var dev := byMac[mac].(lastSeenWritten := Some(now));
        byMac := byMac[mac := dev];
        sent := sent + [Write(mac, dev.fields)];
      }
    }
  }
}
