/** A restart: the registry's writes reach the device table, and the next start reads them back. */
module Restart {
  import opened Wrappers
  import opened Devices
  import opened DeviceRuns
  import T = DeviceTable
  import Macs

  /** The row operation the registry sends for a write. */
  function AsOp(w: Write, ts: int): T.WriteOp {
    T.DeviceOp(w.mac, if w.fields.ip.Some? then Some(T.V4(w.fields.ip.value)) else None,
               w.fields.hostname, w.fields.vendor, w.fields.randomized, ts)
  }

  /** A row as startup reads it; an address that is not IPv4 is dropped. */
  function AsKnown(mac: string, r: T.Row): KnownDevice {
    KnownDevice(mac, Ip4Of(r.ip), r.hostname, r.vendor, r.randomized)
  }

  function Ip4Of(ip: Option<T.Addr>): Option<Ip> {
    match ip
    case Some(V4(a)) => Some(a)
    case _ => None
  }

  /** `rows` lists the table, each device once, in any order. */
  ghost predicate Lists(rows: seq<KnownDevice>, t: T.Table) {
    && (forall i :: 0 <= i < |rows| ==> rows[i].mac in t && rows[i] == AsKnown(rows[i].mac, t[rows[i].mac]))
    && (forall i, j :: 0 <= i < j < |rows| ==> rows[i].mac != rows[j].mac)
    && (forall m :: m in t ==> exists i :: 0 <= i < |rows| && rows[i].mac == m)
  }

  predicate CanonicalMacs(rows: seq<KnownDevice>) {
    forall i :: 0 <= i < |rows| ==> Canonical(rows[i].mac)
  }

  predicate UniqueRows(rows: seq<KnownDevice>) {
    forall i, j :: 0 <= i < j < |rows| ==>
      rows[i].mac != rows[j].mac && (rows[i].ip.Some? ==> rows[i].ip != rows[j].ip)
  }

  function FieldsOf(row: KnownDevice): Fields {
    Fields(row.ip, row.hostname, row.vendor, row.randomized)
  }

  function LoadedDevice(row: KnownDevice, now: Instant): Device {
    Device(FieldsOf(row), Some(FieldsOf(row)), Some(now))
  }

  /** A row whose MAC is canonical is stored under that MAC. */
  lemma RowIsTaken(reg: Registry, row: KnownDevice, now: Instant)
    requires Canonical(row.mac)
    ensures HydratedRow(reg, row, now)
         == reg.(byMac := reg.byMac[row.mac := LoadedDevice(row, now)],
                 ipToMac := if row.ip.Some? then reg.ipToMac[row.ip.value := row.mac] else reg.ipToMac)
  {
  }

  /** Loading rows of distinct devices leaves each as its row has it, found by its address. */
  lemma {:induction false} DeviceIsLoaded(rows: seq<KnownDevice>, now: Instant, i: nat)
    requires CanonicalMacs(rows) && UniqueRows(rows) && i < |rows|
    ensures var reg := Hydrated(EMPTY, rows, now);
            && rows[i].mac in reg.byMac && reg.byMac[rows[i].mac] == LoadedDevice(rows[i], now)
            && (rows[i].ip.Some? ==> rows[i].ip.value in reg.ipToMac && reg.ipToMac[rows[i].ip.value] == rows[i].mac)
    decreases |rows|
  {
    var n := |rows| - 1;
    RowIsTaken(Hydrated(EMPTY, rows[..n], now), rows[n], now);
    if i < n {
      DeviceIsLoaded(rows[..n], now, i);
      assert rows[..n][i] == rows[i];
    }
  }

  /** Nothing else is loaded: every device and every address comes from a row. */
  lemma {:induction false} LoadsComeFromRows(rows: seq<KnownDevice>, now: Instant, m: string, ip: Ip)
    requires CanonicalMacs(rows)
    ensures var reg := Hydrated(EMPTY, rows, now);
            && reg.pending == map[]
            && (m in reg.byMac ==> exists i :: 0 <= i < |rows| && rows[i].mac == m)
            && (ip in reg.ipToMac ==>
                  exists i :: 0 <= i < |rows| && rows[i].ip == Some(ip) && rows[i].mac == reg.ipToMac[ip])
    decreases |rows|
  {
    if rows != [] {
      var n := |rows| - 1;
      LoadsComeFromRows(rows[..n], now, m, ip);
      var before := Hydrated(EMPTY, rows[..n], now);
      RowIsTaken(before, rows[n], now);
      if m in before.byMac {
        var i :| 0 <= i < n && rows[..n][i].mac == m;
        assert rows[i].mac == m;
      }
      if ip in before.ipToMac {
        var i :| 0 <= i < n && rows[..n][i].ip == Some(ip) && rows[..n][i].mac == before.ipToMac[ip];
        assert rows[i].ip == Some(ip) && rows[i].mac == before.ipToMac[ip];
      }
    }
  }

  lemma TableRowsAreUnique(rows: seq<KnownDevice>, t: T.Table)
    requires Lists(rows, t) && T.UniqueIps(t)
    ensures UniqueRows(rows)
  {
    forall i, j | 0 <= i < j < |rows| ensures rows[i].ip.Some? ==> rows[i].ip != rows[j].ip {
      var a, b := rows[i].mac, rows[j].mac;
      assert t[a].ip.Some? ==> t[a].ip != t[b].ip;
    }
  }

  /** The reverse index and the devices' own addresses are inverse to each other. */
  ghost predicate Inverse(reg: Registry) {
    forall ip: Ip, m :: ip in reg.ipToMac && reg.ipToMac[ip] == m
                        <==> m in reg.byMac && reg.byMac[m].fields.ip == Some(ip)
  }

  lemma HydratedIsInverse(rows: seq<KnownDevice>, now: Instant)
    requires CanonicalMacs(rows) && UniqueRows(rows)
    ensures Inverse(Hydrated(EMPTY, rows, now))
  {
    var reg := Hydrated(EMPTY, rows, now);
    forall ip: Ip, m
      ensures ip in reg.ipToMac && reg.ipToMac[ip] == m <==> m in reg.byMac && reg.byMac[m].fields.ip == Some(ip)
    {
      LoadsComeFromRows(rows, now, m, ip);
      if ip in reg.ipToMac && reg.ipToMac[ip] == m {
        var i :| 0 <= i < |rows| && rows[i].ip == Some(ip) && rows[i].mac == m;
        DeviceIsLoaded(rows, now, i);
      }
      if m in reg.byMac && reg.byMac[m].fields.ip == Some(ip) {
        var i :| 0 <= i < |rows| && rows[i].mac == m;
        DeviceIsLoaded(rows, now, i);
      }
    }
  }

  lemma HydratedIsSound(rows: seq<KnownDevice>, now: Instant)
    requires CanonicalMacs(rows) && UniqueRows(rows)
    ensures Sound(Hydrated(EMPTY, rows, now), now)
  {
    var reg := Hydrated(EMPTY, rows, now);
    forall m | m in reg.byMac
      ensures Canonical(m) && reg.byMac[m].written == Some(reg.byMac[m].fields)
      ensures reg.byMac[m].lastSeenWritten == Some(now)
    {
      LoadsComeFromRows(rows, now, m, 0);
      var i :| 0 <= i < |rows| && rows[i].mac == m;
      DeviceIsLoaded(rows, now, i);
    }
    forall ip | ip in reg.ipToMac ensures reg.ipToMac[ip] in reg.byMac {
      LoadsComeFromRows(rows, now, "", ip);
      var i :| 0 <= i < |rows| && rows[i].ip == Some(ip) && rows[i].mac == reg.ipToMac[ip];
      DeviceIsLoaded(rows, now, i);
    }
    LoadsComeFromRows(rows, now, "", 0);
  }

  lemma RowIsLoaded(rows: seq<KnownDevice>, t: T.Table, now: Instant, m: string)
    requires Lists(rows, t) && CanonicalMacs(rows) && T.UniqueIps(t)
    ensures var reg := Hydrated(EMPTY, rows, now);
            && (m in reg.byMac <==> m in t)
            && (m in t ==> reg.byMac[m] == LoadedDevice(AsKnown(m, t[m]), now))
  {
    TableRowsAreUnique(rows, t);
    LoadsComeFromRows(rows, now, m, 0);
    if m in t {
      var i :| 0 <= i < |rows| && rows[i].mac == m;
      DeviceIsLoaded(rows, now, i);
    }
  }

  /** Loading a table with canonical MACs and one holder per address restores every device as its row
      has it, counts it as written, and gives inverse indexes. */
  lemma HydrationRestoresTable(rows: seq<KnownDevice>, t: T.Table, now: Instant)
    requires Lists(rows, t) && CanonicalMacs(rows) && T.UniqueIps(t)
    ensures var reg := Hydrated(EMPTY, rows, now);
            && reg.byMac.Keys == t.Keys
            && (forall m :: m in t ==> reg.byMac[m] == LoadedDevice(AsKnown(m, t[m]), now))
            && Inverse(reg) && Sound(reg, now)
  {
    var reg := Hydrated(EMPTY, rows, now);
    forall m ensures m in reg.byMac <==> m in t
    {
      RowIsLoaded(rows, t, now, m);
    }
    forall m | m in t ensures reg.byMac[m] == LoadedDevice(AsKnown(m, t[m]), now) {
      RowIsLoaded(rows, t, now, m);
    }
    TableRowsAreUnique(rows, t);
    HydratedIsInverse(rows, now);
    HydratedIsSound(rows, now);
  }

  /** The run's writes, each as the row operation it became. */
  function Sent(reg: Registry, evs: seq<Event>, vendors: VendorTable, clock: nat -> int): seq<T.WriteOp> {
    if evs == [] then []
    else
      var n := |evs| - 1;
      var e := Do(After(reg, evs[..n], vendors), evs[n], vendors);
      Sent(reg, evs[..n], vendors, clock) + if e.write.Some? then [AsOp(e.write.value, clock(n))] else []
  }

  /** `kept` is what is left of `sent`, in whatever order, when the writer drops some of it. */
  ghost predicate Survives(kept: seq<T.WriteOp>, sent: seq<T.WriteOp>) {
    forall op :: op in kept ==> op in sent
  }

  lemma {:induction false} SentIsFromRegistry(reg: Registry, start: Instant, evs: seq<Event>, vendors: VendorTable,
                                                clock: nat -> int)
    requires Sound(reg, start) && Timely(start, evs)
    ensures forall op :: op in Sent(reg, evs, vendors, clock) ==> FromRegistry(op)
    decreases |evs|
  {
    if evs != [] {
      var n := |evs| - 1;
      SentIsFromRegistry(reg, start, evs[..n], vendors, clock);
      RunKeepsSound(reg, start, evs[..n], vendors, evs[n].at);
      var before := After(reg, evs[..n], vendors);
      WriteIsFromRegistry(before, evs[n], vendors, clock(n));
    }
  }

  lemma WriteIsFromRegistry(reg: Registry, ev: Event, vendors: VendorTable, ts: int)
    requires Sound(reg, ev.at) && (ev.op.Touch? ==> ev.op.read <= ev.at)
    ensures var e := Do(reg, ev, vendors); e.write.Some? ==> FromRegistry(AsOp(e.write.value, ts))
  {
    var e := Do(reg, ev, vendors);
    DoKeepsSound(reg, ev, vendors);
    if e.write.Some? {
      WritesHaveACause(reg, ev, vendors, e.write.value.mac);
    }
  }

  // ---- tables fit to start from ------------------------------------------

  /** Canonical MACs, one holder per address, and IPv4 addresses only. */
  ghost predicate GoodTable(t: T.Table) {
    && T.UniqueIps(t)
    && forall m :: m in t ==> Canonical(m) && (t[m].ip.Some? ==> t[m].ip.value.V4?)
  }

  predicate FromRegistry(op: T.WriteOp) {
    op.DeviceOp? && Canonical(op.mac) && (op.ip.Some? ==> op.ip.value.V4?)
  }

  lemma {:induction false} FlushKeepsGood(t: T.Table, ops: seq<T.WriteOp>)
    requires GoodTable(t) && forall op :: op in ops ==> FromRegistry(op)
    ensures GoodTable(T.Flushed(t, ops))
    decreases |ops|
  {
    if ops != [] {
      var n := |ops| - 1;
      FlushKeepsGood(t, ops[..n]);
      assert ops[n] in ops;
      ApplyKeepsGood(T.Flushed(t, ops[..n]), ops[n]);
    }
  }

  lemma ApplyKeepsGood(t: T.Table, op: T.WriteOp)
    requires GoodTable(t) && FromRegistry(op)
    ensures GoodTable(T.Applied(t, op))
  {
    T.ApplyKeepsUnique(t, op);
    forall m | m in T.Applied(t, op)
      ensures Canonical(m) && (T.Applied(t, op)[m].ip.Some? ==> T.Applied(t, op)[m].ip.value.V4?)
    {
      ApplyKeepsRowGood(t, op, m);
    }
  }

  lemma ApplyKeepsRowGood(t: T.Table, op: T.WriteOp, m: string)
    requires op.DeviceOp? && (op.ip.Some? ==> op.ip.value.V4?) && m in T.Applied(t, op)
    requires m in t && t[m].ip.Some? ==> t[m].ip.value.V4?
    ensures m in t || m == op.mac
    ensures T.Applied(t, op)[m].ip.Some? ==> T.Applied(t, op)[m].ip.value.V4?
  {
  }

  lemma GoodRows(rows: seq<KnownDevice>, t: T.Table)
    requires Lists(rows, t) && GoodTable(t)
    ensures CanonicalMacs(rows) && UniqueRows(rows)
  {
    TableRowsAreUnique(rows, t);
  }

  // ---- the table mirrors the registry ------------------------------------

  /** The table has the registry's devices with their names and vendors. It may lack an address the
      registry still holds for a device, which another device has claimed since. */
  ghost predicate Mirrors(t: T.Table, reg: Registry) {
    forall m :: DeviceMirrors(t, reg, m)
  }

  predicate DeviceMirrors(t: T.Table, reg: Registry, m: string) {
    (m in t <==> m in reg.byMac) && (m in t ==> RowMirrors(t[m], reg.byMac[m].fields))
  }

  predicate RowMirrors(r: T.Row, f: Fields) {
    && r.hostname == f.hostname && r.vendor == f.vendor && r.randomized == f.randomized
    && (r.ip.None? || (f.ip.Some? && r.ip == Some(T.V4(f.ip.value))))
  }

  /** No column that was filled in is emptied. */
  predicate Refines(f: Fields, g: Fields) {
    (f.ip.Some? ==> g.ip.Some?) && (f.hostname.Some? ==> g.hostname.Some?) && (f.vendor.Some? ==> g.vendor.Some?)
  }

  /** What one operation did to the device is told by its write alone. */
  predicate ToldByWrite(reg: Registry, e: Effect, m: string) {
    if Writes(e, m) then
      && m in e.reg.byMac && e.reg.byMac[m].fields == e.write.value.fields
      && (m in reg.byMac ==> Refines(reg.byMac[m].fields, e.write.value.fields))
    else
      && (m in e.reg.byMac <==> m in reg.byMac)
      && (m in reg.byMac ==> e.reg.byMac[m].fields == reg.byMac[m].fields)
  }

  lemma StoreIsTold(reg: Registry, indexed: Registry, mac: string, dev: Device, now: Instant,
                    alert: Option<string>, m: string)
    requires indexed.byMac == reg.byMac
    requires mac in reg.byMac ==> Refines(reg.byMac[mac].fields, dev.fields)
    requires dev.written.Some? ==> mac in reg.byMac && dev.written == Some(reg.byMac[mac].fields)
    ensures ToldByWrite(reg, Store(indexed, mac, dev, now).(alert := alert), m)
  {
  }

  lemma SightingIsTold(reg: Registry, ip: Ip, rawMac: string, vendors: VendorTable, now: Instant, m: string)
    requires Sound(reg, now)
    ensures ToldByWrite(reg, Observed(reg, ip, rawMac, vendors, now), m)
  {
    if Macs.Normalize(rawMac).Some? {
      var mac := Macs.Normalize(rawMac).value;
      var indexed := reg.(ipToMac := reg.ipToMac[ip := mac], pending := reg.pending - {ip});
      StoreIsTold(reg, indexed, mac, Known(reg, mac).(fields := Sighted(reg, ip, mac, vendors)), now,
                  if mac in reg.byMac then None else Some(mac), m);
    }
  }

  lemma NamingIsTold(reg: Registry, rawMac: string, hostname: string, vendors: VendorTable, now: Instant, m: string)
    requires Sound(reg, now)
    ensures ToldByWrite(reg, Named(reg, rawMac, hostname, vendors, now), m)
  {
    if Macs.Normalize(rawMac).Some? && SanitizeHostname(hostname).Some? {
      var mac := Macs.Normalize(rawMac).value;
      var fields := SelfNamed(reg, mac, SanitizeHostname(hostname).value, vendors);
      StoreIsTold(reg, reg, mac, Known(reg, mac).(fields := fields), now, None, m);
    }
  }

  lemma NamingByIpIsTold(reg: Registry, ip: Ip, hostname: string, now: Instant, m: string)
    requires Sound(reg, now)
    ensures ToldByWrite(reg, NamedByIp(reg, ip, hostname, now), m)
  {
    if SanitizeHostname(hostname).Some? && ip in reg.ipToMac {
      var mac := reg.ipToMac[ip];
      var dev := reg.byMac[mac];
      var fields := dev.fields.(hostname := Coalesce(dev.fields.hostname, SanitizeHostname(hostname)));
      StoreIsTold(reg, reg, mac, dev.(fields := fields), now, None, m);
    }
  }

  lemma DoIsTold(reg: Registry, ev: Event, vendors: VendorTable, m: string)
    requires Sound(reg, ev.at)
    ensures ToldByWrite(reg, Do(reg, ev, vendors), m)
  {
    match ev.op
    case SeeAt(ip, rawMac) => SightingIsTold(reg, ip, rawMac, vendors, ev.at, m);
    case SeeNamed(rawMac, hostname) => NamingIsTold(reg, rawMac, hostname, vendors, ev.at, m);
    case SeeNameAt(ip, hostname) => NamingByIpIsTold(reg, ip, hostname, ev.at, m);
    case Touch(ip, read) =>
  }

  lemma WriteKeepsMirror(t: T.Table, reg: Registry, e: Effect, ts: int, m: string)
    requires DeviceMirrors(t, reg, m) && ToldByWrite(reg, e, m)
    ensures DeviceMirrors(AfterWrite(t, e, ts), e.reg, m)
  {
  }

  function AfterWrite(t: T.Table, e: Effect, ts: int): T.Table {
    if e.write.Some? then T.Applied(t, AsOp(e.write.value, ts)) else t
  }

  /** The table after a run is the table after one event less, with the last event's write. */
  lemma SentOneMore(t: T.Table, reg: Registry, evs: seq<Event>, vendors: VendorTable, clock: nat -> int)
    requires evs != []
    ensures var n := |evs| - 1;
            T.Flushed(t, Sent(reg, evs, vendors, clock))
            == AfterWrite(T.Flushed(t, Sent(reg, evs[..n], vendors, clock)),
                          Do(After(reg, evs[..n], vendors), evs[n], vendors), clock(n))
  {
    var n := |evs| - 1;
    var sent := Sent(reg, evs[..n], vendors, clock);
    var e := Do(After(reg, evs[..n], vendors), evs[n], vendors);
    if e.write.Some? {
      T.FlushedOneMore(t, sent, AsOp(e.write.value, clock(n)));
    } else {
      assert sent + [] == sent;
    }
  }

  /** From any table that mirrors the registry, and with every write getting through in the order the
      registry decided it, the table mirrors the registry after any run. */
  lemma {:induction false} TableMirrorsRegistry(t: T.Table, reg: Registry, start: Instant, evs: seq<Event>,
                                                vendors: VendorTable, clock: nat -> int)
    requires Sound(reg, start) && Mirrors(t, reg) && Timely(start, evs)
    ensures Mirrors(T.Flushed(t, Sent(reg, evs, vendors, clock)), After(reg, evs, vendors))
    decreases |evs|
  {
    if evs != [] {
      var n := |evs| - 1;
      TableMirrorsRegistry(t, reg, start, evs[..n], vendors, clock);
      RunKeepsSound(reg, start, evs[..n], vendors, evs[n].at);
      SentOneMore(t, reg, evs, vendors, clock);
      var before := After(reg, evs[..n], vendors);
      var t' := T.Flushed(t, Sent(reg, evs[..n], vendors, clock));
      var e := Do(before, evs[n], vendors);
      forall m ensures DeviceMirrors(AfterWrite(t', e, clock(n)), e.reg, m) {
        DoIsTold(before, evs[n], vendors, m);
        WriteKeepsMirror(t', before, e, clock(n), m);
      }
    }
  }

  // ---- one restart -------------------------------------------------------

  /** A registry loaded from a good table: its devices, inverse indexes, nothing left to write, and the
      table its mirror again. */
  ghost predicate StartsWell(reg: Registry, t: T.Table, now: Instant) {
    reg.byMac.Keys == t.Keys && Inverse(reg) && Sound(reg, now) && Mirrors(t, reg)
  }

  lemma HydratedStartsWell(rows: seq<KnownDevice>, t: T.Table, now: Instant)
    requires Lists(rows, t) && GoodTable(t)
    ensures StartsWell(Hydrated(EMPTY, rows, now), t, now)
  {
    GoodRows(rows, t);
    HydrationRestoresTable(rows, t, now);
    forall m ensures DeviceMirrors(t, Hydrated(EMPTY, rows, now), m) {
      RowIsLoaded(rows, t, now, m);
    }
  }

  /** A restart from any good table and sound registry, whatever the writer dropped or took out of order:
      the table stays good, and the new registry starts well from it. */
  lemma RestartAfterDrops(t: T.Table, reg: Registry, start: Instant, evs: seq<Event>, vendors: VendorTable,
                          clock: nat -> int, kept: seq<T.WriteOp>, rows: seq<KnownDevice>, now: Instant)
    requires GoodTable(t) && Sound(reg, start) && Timely(start, evs)
    requires Survives(kept, Sent(reg, evs, vendors, clock)) && Lists(rows, T.Flushed(t, kept))
    ensures GoodTable(T.Flushed(t, kept)) && StartsWell(Hydrated(EMPTY, rows, now), T.Flushed(t, kept), now)
  {
    SentIsFromRegistry(reg, start, evs, vendors, clock);
    FlushKeepsGood(t, kept);
    HydratedStartsWell(rows, T.Flushed(t, kept), now);
  }

  /** The device comes back with the same name and vendor, at the same address or at none. */
  predicate ComesBack(f: Fields, g: Fields) {
    f.hostname == g.hostname && f.vendor == g.vendor && f.randomized == g.randomized && (g.ip.None? || g.ip == f.ip)
  }

  predicate Restored(was: Registry, reg: Registry, m: string) {
    && (m in reg.byMac <==> m in was.byMac)
    && (m in reg.byMac ==> ComesBack(was.byMac[m].fields, reg.byMac[m].fields))
  }

  /** The restart round trip: run any registry that its table mirrors, flush its writes in order, and start
      again from the table. Every device comes back, no other appears, and the indexes, which may have gone
      stale during the run, are inverse to each other. */
  lemma RestartRoundTrip(t: T.Table, reg: Registry, start: Instant, evs: seq<Event>, vendors: VendorTable,
                         clock: nat -> int, rows: seq<KnownDevice>, now: Instant)
    requires GoodTable(t) && Sound(reg, start) && Mirrors(t, reg) && Timely(start, evs)
    requires Lists(rows, T.Flushed(t, Sent(reg, evs, vendors, clock)))
    ensures StartsWell(Hydrated(EMPTY, rows, now), T.Flushed(t, Sent(reg, evs, vendors, clock)), now)
    ensures forall m :: Restored(After(reg, evs, vendors), Hydrated(EMPTY, rows, now), m)
  {
    var sent := Sent(reg, evs, vendors, clock);
    RestartAfterDrops(t, reg, start, evs, vendors, clock, sent, rows, now);
    TableMirrorsRegistry(t, reg, start, evs, vendors, clock);
    GoodRows(rows, T.Flushed(t, sent));
    forall m ensures Restored(After(reg, evs, vendors), Hydrated(EMPTY, rows, now), m) {
      MirroredIsRestored(After(reg, evs, vendors), rows, T.Flushed(t, sent), now, m);
    }
  }

  lemma MirroredIsRestored(was: Registry, rows: seq<KnownDevice>, t: T.Table, now: Instant, m: string)
    requires DeviceMirrors(t, was, m)
    requires Lists(rows, t) && CanonicalMacs(rows) && T.UniqueIps(t)
    ensures Restored(was, Hydrated(EMPTY, rows, now), m)
  {
    RowIsLoaded(rows, t, now, m);
  }

  /** Exactly which addresses come back, whatever was dropped or reordered: a device has one after the
      restart when it was the last whose surviving write claimed it and has not since moved, or when its
      row held it before and no surviving write ended that. */
  lemma AddressComesBackIff(t: T.Table, reg: Registry, start: Instant, evs: seq<Event>, vendors: VendorTable,
                            clock: nat -> int, kept: seq<T.WriteOp>, rows: seq<KnownDevice>, now: Instant,
                            m: string, ip: Ip)
    requires GoodTable(t) && Sound(reg, start) && Timely(start, evs)
    requires Survives(kept, Sent(reg, evs, vendors, clock)) && Lists(rows, T.Flushed(t, kept))
    ensures var reg' := Hydrated(EMPTY, rows, now);
            m in reg'.byMac && reg'.byMac[m].fields.ip == Some(ip)
            <==> T.LastToClaim(kept, m, T.V4(ip)) || T.StillHolds(t, kept, m, T.V4(ip))
  {
    SentIsFromRegistry(reg, start, evs, vendors, clock);
    FlushKeepsGood(t, kept);
    GoodRows(rows, T.Flushed(t, kept));
    RowIsLoaded(rows, T.Flushed(t, kept), now, m);
    T.HolderIsLastToClaim(t, kept, m, T.V4(ip));
  }

  // ---- any number of restarts --------------------------------------------

  /** One life of the program: what it reads at startup, what happens, and what reaches the table. */
  datatype Life = Life(rows: seq<KnownDevice>, start: Instant, evs: seq<Event>, vendors: VendorTable,
                       clock: nat -> int, kept: seq<T.WriteOp>)

  function Loaded(l: Life): Registry {
    Hydrated(EMPTY, l.rows, l.start)
  }

  function SentIn(l: Life): seq<T.WriteOp> {
    Sent(Loaded(l), l.evs, l.vendors, l.clock)
  }

  /** Life after life from an empty database: hydrate, run, flush what gets through, and again. */
  ghost predicate Lives(ls: seq<Life>, ts: seq<T.Table>) {
    && |ts| == |ls| + 1 && ts[0] == map[]
    && forall i :: 0 <= i < |ls| ==> LifeAt(ls, ts, i)
  }

  ghost predicate LifeAt(ls: seq<Life>, ts: seq<T.Table>, i: int)
    requires 0 <= i < |ls| && |ts| == |ls| + 1
  {
    && Lists(ls[i].rows, ts[i]) && Timely(ls[i].start, ls[i].evs)
    && Survives(ls[i].kept, SentIn(ls[i])) && ts[i + 1] == T.Flushed(ts[i], ls[i].kept)
  }

  lemma {:induction false} TablesStayGood(ls: seq<Life>, ts: seq<T.Table>, i: nat)
    requires Lives(ls, ts) && i <= |ls|
    ensures GoodTable(ts[i])
  {
    if i > 0 {
      var l := ls[i - 1];
      TablesStayGood(ls, ts, i - 1);
      assert LifeAt(ls, ts, i - 1);
      HydratedStartsWell(l.rows, ts[i - 1], l.start);
      SentIsFromRegistry(Loaded(l), l.start, l.evs, l.vendors, l.clock);
      FlushKeepsGood(ts[i - 1], l.kept);
    }
  }

  /** Every start of every history starts well, whatever each life's writer dropped or reordered. */
  lemma EveryStartIsGood(ls: seq<Life>, ts: seq<T.Table>, i: nat)
    requires Lives(ls, ts) && i < |ls|
    ensures GoodTable(ts[i]) && StartsWell(Loaded(ls[i]), ts[i], ls[i].start)
  {
    TablesStayGood(ls, ts, i);
    assert LifeAt(ls, ts, i);
    HydratedStartsWell(ls[i].rows, ts[i], ls[i].start);
  }

  /** Every restart is a round trip for a life whose writes all got through in order, however many lives
      went before and whatever those lost. */
  lemma EveryRestartRoundTrips(ls: seq<Life>, ts: seq<T.Table>, i: nat)
    requires Lives(ls, ts) && i + 1 < |ls| && ls[i].kept == SentIn(ls[i])
    ensures var was, reg := After(Loaded(ls[i]), ls[i].evs, ls[i].vendors), Loaded(ls[i + 1]);
            forall m :: Restored(was, reg, m)
  {
    var l, next := ls[i], ls[i + 1];
    EveryStartIsGood(ls, ts, i);
    assert LifeAt(ls, ts, i) && LifeAt(ls, ts, i + 1);
    RestartRoundTrip(ts[i], Loaded(l), l.start, l.evs, l.vendors, l.clock, next.rows, next.start);
  }

  lemma {:induction false} RowsAreForever(ls: seq<Life>, ts: seq<T.Table>, i: nat, j: nat, mac: string)
    requires Lives(ls, ts) && i <= j <= |ls| && mac in ts[i]
    ensures mac in ts[j]
    decreases j - i
  {
    if i < j {
      RowsAreForever(ls, ts, i, j - 1, mac);
      assert LifeAt(ls, ts, j - 1);
      T.SeenTimesAreFirstAndLast(ts[j - 1], ls[j - 1].kept, mac);
    }
  }

  /** A device once in the table raises no new-device alert in any later life. */
  lemma NoAlertForTheKnown(ls: seq<Life>, ts: seq<T.Table>, i: nat, j: nat, mac: string)
    requires Lives(ls, ts) && i <= j < |ls| && mac in ts[i]
    ensures AlertCount(Loaded(ls[j]), ls[j].evs, ls[j].vendors, mac) == 0
  {
    RowsAreForever(ls, ts, i, j, mac);
    EveryStartIsGood(ls, ts, j);
    AtMostOneAlert(Loaded(ls[j]), ls[j].evs, ls[j].vendors, mac);
  }

  // ---- re-sightings ------------------------------------------------------

  /** A re-sighting writes exactly when it changes a field or a full heartbeat has passed; it never alerts. */
  lemma ResightingWritesIff(reg: Registry, ip: Ip, mac: string, vendors: VendorTable, at: Instant, now: Instant)
    requires Sound(reg, at) && Canonical(mac) && mac in reg.byMac && at <= now
    requires reg.byMac[mac].lastSeenWritten == Some(at)
    ensures var e := Observed(reg, ip, mac, vendors, now);
            && (e.write.Some? <==> Sighted(reg, ip, mac, vendors) != reg.byMac[mac].fields || now - at >= HEARTBEAT)
            && e.alert == None
  {
  }

  /** So after a restart an unchanged device seen again within the heartbeat costs nothing. */
  lemma UnchangedResightingIsFree(rows: seq<KnownDevice>, t: T.Table, mac: string, ip: Ip,
                                  vendors: VendorTable, at: Instant, now: Instant)
    requires Lists(rows, t) && CanonicalMacs(rows) && T.UniqueIps(t)
    requires mac in t && t[mac].ip == Some(T.V4(ip)) && t[mac].randomized == Macs.IsRandomized(mac)
    requires t[mac].vendor.Some? || VendorOf(vendors, mac).None?
    requires at <= now < at + HEARTBEAT
    ensures var e := Observed(Hydrated(EMPTY, rows, at), ip, mac, vendors, now);
            e.write == None && e.alert == None
  {
    HydrationRestoresTable(rows, t, at);
    var reg := Hydrated(EMPTY, rows, at);
    var i :| 0 <= i < |rows| && rows[i].mac == mac;
    assert Canonical(mac);
    assert Sighted(reg, ip, mac, vendors) == reg.byMac[mac].fields;
    ResightingWritesIff(reg, ip, mac, vendors, at, now);
  }
}
