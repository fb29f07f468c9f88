/** The order of writes: the registry sends a write after letting go of its lock, so writes may reach the
    table in another order than they were decided. When the row still agrees with the registry, and who
    holds an address in the table as against the registry's reverse index. */
module WriteOrder {
  import opened Wrappers
  import opened Devices
  import opened DeviceRuns
  import opened Restart
  import Dhcp
  import T = DeviceTable
  import Text

  // ---- when a row agrees with the registry -------------------------------

  /** What the registry has for a device in a column of the table. */
  function RegCell(reg: Registry, m: string, c: T.Column): Option<T.Cell> {
    if m !in reg.byMac then None
    else
      match c
      case Hostname => T.AsCell(reg.byMac[m].fields.hostname)
      case Vendor => T.AsCell(reg.byMac[m].fields.vendor)
      case RandomizedFlag => Some(T.Bit(reg.byMac[m].fields.randomized))
  }

  lemma MirrorAgrees(t: T.Table, reg: Registry, m: string, c: T.Column)
    requires DeviceMirrors(t, reg, m)
    ensures T.Value(t, m, c) == RegCell(reg, m, c)
  {
  }

  /** Exactly when a row agrees with the registry in a column, whatever part of a run's writes reached the
      table and in whatever order: when what arrived leaves the registry's value there, which is what the
      writes in the order of deciding leave. */
  lemma ColumnAgreesIff(t: T.Table, reg: Registry, start: Instant, evs: seq<Event>, vendors: VendorTable,
                        clock: nat -> int, kept: seq<T.WriteOp>, m: string, c: T.Column)
    requires Sound(reg, start) && Mirrors(t, reg) && Timely(start, evs)
    ensures var v := RegCell(After(reg, evs, vendors), m, c);
            && (T.Value(T.Flushed(t, kept), m, c) == v <==> T.Leaves(t, kept, m, c, v))
            && T.Leaves(t, Sent(reg, evs, vendors, clock), m, c, v)
  {
    var v, sent := RegCell(After(reg, evs, vendors), m, c), Sent(reg, evs, vendors, clock);
    TableMirrorsRegistry(t, reg, start, evs, vendors, clock);
    MirrorAgrees(T.Flushed(t, sent), After(reg, evs, vendors), m, c);
    T.RowShowsLastReported(t, kept, m, c, v);
    T.RowShowsLastReported(t, sent, m, c, v);
  }

  /** It is enough that each device's own writes arrive in order, however devices interleave. */
  lemma OwnOrderSuffices(t: T.Table, reg: Registry, start: Instant, evs: seq<Event>, vendors: VendorTable,
                         clock: nat -> int, kept: seq<T.WriteOp>, m: string, c: T.Column)
    requires Sound(reg, start) && Mirrors(t, reg) && Timely(start, evs)
    requires T.Own(kept, m) == T.Own(Sent(reg, evs, vendors, clock), m)
    ensures T.Value(T.Flushed(t, kept), m, c) == RegCell(After(reg, evs, vendors), m, c)
  {
    var sent := Sent(reg, evs, vendors, clock);
    TableMirrorsRegistry(t, reg, start, evs, vendors, clock);
    MirrorAgrees(T.Flushed(t, sent), After(reg, evs, vendors), m, c);
    T.OwnOpsDecide(t, kept, m, c);
    T.OwnOpsDecide(t, sent, m, c);
  }

  // ---- a device's last write carries all it has --------------------------

  /** The device's last operation carries exactly these fields. */
  ghost predicate EndsAs(ops: seq<T.WriteOp>, m: string, f: Fields) {
    exists i: nat :: i < |ops| && IsOpFor(ops[i], m, f) && forall j :: i < j < |ops| ==> !T.Sights(ops[j], m)
  }

  predicate IsOpFor(op: T.WriteOp, m: string, f: Fields) {
    op.DeviceOp? && op == AsOp(Write(m, f), op.ts)
  }

  lemma EndsAsStep(ops: seq<T.WriteOp>, op: T.WriteOp, m: string, f: Fields)
    ensures IsOpFor(op, m, f) ==> EndsAs(ops + [op], m, f)
    ensures EndsAs(ops, m, f) && !T.Sights(op, m) ==> EndsAs(ops + [op], m, f)
  {
    var all := ops + [op];
    assert all[|ops|] == op;
    if EndsAs(ops, m, f) && !T.Sights(op, m) {
      var i: nat :| i < |ops| && IsOpFor(ops[i], m, f) && forall j :: i < j < |ops| ==> !T.Sights(ops[j], m);
      assert IsOpFor(all[i], m, f);
    }
  }

  /** The device has been written in the run, last with what it now has; or it is as it was. */
  ghost predicate LastOpIsCurrent(was: Registry, reg: Registry, sent: seq<T.WriteOp>, m: string) {
    if T.EverSeen(sent, m) then m in reg.byMac && EndsAs(sent, m, reg.byMac[m].fields)
    else
      && (m in reg.byMac <==> m in was.byMac)
      && (m in reg.byMac ==> reg.byMac[m].fields == was.byMac[m].fields)
  }

  lemma {:induction false} RunEndsCurrent(reg: Registry, start: Instant, evs: seq<Event>, vendors: VendorTable,
                                          clock: nat -> int, m: string)
    requires Sound(reg, start) && Timely(start, evs)
    ensures LastOpIsCurrent(reg, After(reg, evs, vendors), Sent(reg, evs, vendors, clock), m)
    decreases |evs|
  {
    if evs != [] {
      var n := |evs| - 1;
      RunEndsCurrent(reg, start, evs[..n], vendors, clock, m);
      RunKeepsSound(reg, start, evs[..n], vendors, evs[n].at);
      var before := After(reg, evs[..n], vendors);
      DoIsTold(before, evs[n], vendors, m);
      WriteKeepsCurrent(reg, before, Do(before, evs[n], vendors), Sent(reg, evs[..n], vendors, clock), clock(n), m);
    }
  }

  lemma WriteKeepsCurrent(was: Registry, reg: Registry, e: Effect, sent: seq<T.WriteOp>, ts: int, m: string)
    requires LastOpIsCurrent(was, reg, sent, m) && ToldByWrite(reg, e, m)
    ensures LastOpIsCurrent(was, e.reg, sent + (if e.write.Some? then [AsOp(e.write.value, ts)] else []), m)
  {
    if e.write.Some? {
      var op := AsOp(e.write.value, ts);
      T.SeenStep(sent, op, m);
      if m in e.reg.byMac {
        EndsAsStep(sent, op, m, e.reg.byMac[m].fields);
      }
    } else {
      assert sent + [] == sent;
    }
  }

  /** It is even enough that each device's last write is its last to arrive, whatever else was lost or
      overtaken. */
  lemma LastWriteSuffices(t: T.Table, reg: Registry, start: Instant, evs: seq<Event>, vendors: VendorTable,
                          clock: nat -> int, kept: seq<T.WriteOp>, m: string, c: T.Column)
    requires Sound(reg, start) && Mirrors(t, reg) && Timely(start, evs)
    requires Survives(kept, Sent(reg, evs, vendors, clock))
    requires var reg' := After(reg, evs, vendors);
             T.EverSeen(Sent(reg, evs, vendors, clock), m) && m in reg'.byMac ==> EndsAs(kept, m, reg'.byMac[m].fields)
    ensures T.Value(T.Flushed(t, kept), m, c) == RegCell(After(reg, evs, vendors), m, c)
  {
    var sent, reg' := Sent(reg, evs, vendors, clock), After(reg, evs, vendors);
    var v := RegCell(reg', m, c);
    RunEndsCurrent(reg, start, evs, vendors, clock, m);
    ColumnAgreesIff(t, reg, start, evs, vendors, clock, kept, m, c);
    if T.EverSeen(sent, m) && v.Some? {
      LastOpLeavesCell(t, kept, m, reg'.byMac[m].fields, c, v.value);
    } else {
      NoReportIsKept(t, sent, kept, m, c, v);
    }
  }

  lemma LastOpLeavesCell(t: T.Table, ops: seq<T.WriteOp>, m: string, f: Fields, c: T.Column, v: T.Cell)
    requires EndsAs(ops, m, f)
    requires Some(v) == RegCell(Registry(map[m := Device(f, None, None)], map[], map[]), m, c)
    ensures T.Leaves(t, ops, m, c, Some(v))
  {
    var i: nat :| i < |ops| && IsOpFor(ops[i], m, f) && forall j :: i < j < |ops| ==> !T.Sights(ops[j], m);
    assert T.Reported(ops[i], m, c) == Some(v);
    assert T.LastReported(ops, m, c, v);
  }

  lemma NoReportIsKept(t: T.Table, sent: seq<T.WriteOp>, kept: seq<T.WriteOp>, m: string, c: T.Column,
                       v: Option<T.Cell>)
    requires Survives(kept, sent) && T.Leaves(t, sent, m, c, v)
    requires !T.EverSeen(sent, m) || v.None?
    ensures T.Leaves(t, kept, m, c, v)
  {
    if !T.EverSeen(sent, m) {
      forall op | op in sent ensures T.Reported(op, m, c).None? {
        var i :| 0 <= i < |sent| && sent[i] == op;
        assert !T.Sights(sent[i], m);
      }
    }
    forall i | 0 <= i < |sent| ensures T.Reported(sent[i], m, c).None? {
      assert sent[i] in sent;
    }
    assert T.NeverReported(kept, m, c);
  }

  // ---- concrete runs -----------------------------------------------------

  lemma SomeDevice(last: u8) returns (mac: string)
    ensures mac == Dhcp.Colons([2, 0, 0, 0, 0, last]) && Canonical(mac)
  {
    var bytes: seq<u8> := [2, 0, 0, 0, 0, last];
    mac := Dhcp.Colons(bytes);
    Dhcp.SixBytes(bytes);
    assert bytes[0] != 0;
  }

  lemma DevicesDiffer(a: u8, b: u8)
    requires a != b
    ensures Dhcp.Colons([2, 0, 0, 0, 0, a]) != Dhcp.Colons([2, 0, 0, 0, 0, b])
  {
    Dhcp.ColonsDiffer([2, 0, 0, 0, 0, a], [2, 0, 0, 0, 0, b]);
  }

  lemma LetterIsAName(name: string)
    requires |name| == 1 && 'a' <= name[0] <= 'z'
    ensures SanitizeHostname(name) == Some(name)
  {
    Text.CleanTextIsTrimmed(name);
    assert Text.TrimEndDots(name) == name;
    assert Text.Lower(name) == name;
    assert Text.Split(name, '.') == [name];
  }

  /** A device that names itself for the first time, or anew, is written with that name. */
  lemma NamingIsWritten(reg: Registry, mac: string, name: string, vendors: VendorTable, now: Instant)
    requires Canonical(mac) && SanitizeHostname(name) == Some(name)
    requires mac in reg.byMac ==>
               reg.byMac[mac].fields.hostname != Some(name) && reg.byMac[mac].written == Some(reg.byMac[mac].fields)
    ensures var e := Named(reg, mac, name, vendors, now);
            && e.write == Some(Write(mac, SelfNamed(reg, mac, name, vendors)))
            && var f := e.write.value.fields;
               e.reg == reg.(byMac := reg.byMac[mac := Device(f, Some(f), Some(now))])
  {
  }

  lemma OneMoreEvent(t: T.Table, reg: Registry, evs: seq<Event>, ev: Event, vendors: VendorTable, clock: nat -> int)
    ensures var e := Do(After(reg, evs, vendors), ev, vendors);
            && After(reg, evs + [ev], vendors) == e.reg
            && Sent(reg, evs + [ev], vendors, clock)
               == Sent(reg, evs, vendors, clock) + (if e.write.Some? then [AsOp(e.write.value, clock(|evs|))] else [])
            && T.Flushed(t, Sent(reg, evs + [ev], vendors, clock))
               == AfterWrite(T.Flushed(t, Sent(reg, evs, vendors, clock)), e, clock(|evs|))
  {
    assert (evs + [ev])[..|evs|] == evs;
    SentOneMore(t, reg, evs + [ev], vendors, clock);
  }

  /** The events are these sightings, all at the instant zero. */
  predicate Calls(evs: seq<Event>, ops: seq<Op>) {
    |evs| == |ops| && forall i :: 0 <= i < |evs| ==> evs[i] == Event(ops[i], 0)
  }

  /** One more event in a run: a name heard for an address that no device has been sighted at yet. */
  lemma PendingStep(t: T.Table, reg: Registry, evs: seq<Event>, ops: seq<Op>, ip: Ip, name: string,
                    vendors: VendorTable, clock: nat -> int) returns (evs': seq<Event>)
    requires Calls(evs, ops)
    requires SanitizeHostname(name) == Some(name) && ip !in After(reg, evs, vendors).ipToMac
    ensures Calls(evs', ops + [SeeNameAt(ip, name)])
    ensures Sent(reg, evs', vendors, clock) == Sent(reg, evs, vendors, clock)
    ensures var was := After(reg, evs, vendors);
            After(reg, evs', vendors) == was.(pending := was.pending[ip := name])
  {
    var ev := Event(SeeNameAt(ip, name), 0);
    OneMoreEvent(t, reg, evs, ev, vendors, clock);
    evs' := evs + [ev];
  }

  /** One more event in a run: a device not known before names itself. */
  lemma NameStep(t: T.Table, reg: Registry, evs: seq<Event>, ops: seq<Op>, mac: string, name: string,
                 vendors: VendorTable, clock: nat -> int) returns (evs': seq<Event>, op: T.WriteOp)
    requires Calls(evs, ops)
    requires Canonical(mac) && SanitizeHostname(name) == Some(name) && mac !in After(reg, evs, vendors).byMac
    ensures Calls(evs', ops + [SeeNamed(mac, name)])
    ensures Sent(reg, evs', vendors, clock) == Sent(reg, evs, vendors, clock) + [op]
    ensures T.Reported(op, mac, T.Hostname) == Some(T.Text(name))
    ensures var was, now := After(reg, evs, vendors), After(reg, evs', vendors);
            && mac in now.byMac && now.byMac[mac].fields.hostname == Some(name) && now.pending == was.pending
            && now.byMac[mac].written == Some(now.byMac[mac].fields)
  {
    var ev := Event(SeeNamed(mac, name), 0);
    NamingIsWritten(After(reg, evs, vendors), mac, name, vendors, 0);
    OneMoreEvent(t, reg, evs, ev, vendors, clock);
    evs' := evs + [ev];
    op := AsOp(Do(After(reg, evs, vendors), ev, vendors).write.value, clock(|evs|));
  }

  /** A device sighted where another name is waiting takes that name, and is written with it. */
  lemma WaitingNameIsWritten(reg: Registry, ip: Ip, mac: string, vendors: VendorTable, now: Instant)
    requires Canonical(mac) && mac in reg.byMac && ip in reg.pending
    requires reg.byMac[mac].written == Some(reg.byMac[mac].fields)
    requires reg.byMac[mac].fields.hostname != Some(reg.pending[ip])
    ensures var e, f := Observed(reg, ip, mac, vendors, now), Sighted(reg, ip, mac, vendors);
            && e.write == Some(Write(mac, f)) && mac in e.reg.byMac && e.reg.byMac[mac].fields == f
            && f.hostname == Some(reg.pending[ip])
  {
  }

  /** One more event in a run: a known device is sighted where a name is waiting. */
  lemma ClaimStep(t: T.Table, reg: Registry, evs: seq<Event>, ops: seq<Op>, ip: Ip, mac: string, name: string,
                  vendors: VendorTable, clock: nat -> int) returns (evs': seq<Event>, op: T.WriteOp)
    requires Calls(evs, ops) && Canonical(mac)
    requires var was := After(reg, evs, vendors);
             && ip in was.pending && was.pending[ip] == name
             && mac in was.byMac && was.byMac[mac].written == Some(was.byMac[mac].fields)
             && was.byMac[mac].fields.hostname != Some(name)
    ensures Calls(evs', ops + [SeeAt(ip, mac)])
    ensures Sent(reg, evs', vendors, clock) == Sent(reg, evs, vendors, clock) + [op]
    ensures T.Reported(op, mac, T.Hostname) == Some(T.Text(name))
    ensures RegCell(After(reg, evs', vendors), mac, T.Hostname) == Some(T.Text(name))
  {
    var ev := Event(SeeAt(ip, mac), 0);
    WaitingNameIsWritten(After(reg, evs, vendors), ip, mac, vendors, 0);
    OneMoreEvent(t, reg, evs, ev, vendors, clock);
    evs' := evs + [ev];
    op := AsOp(Do(After(reg, evs, vendors), ev, vendors).write.value, clock(|evs|));
  }

  lemma HeardThenNamed(ip: Ip, mac: string, a: string, b: string, vendors: VendorTable, clock: nat -> int)
      returns (evs: seq<Event>, op: T.WriteOp)
    requires Canonical(mac) && SanitizeHostname(a) == Some(a) && SanitizeHostname(b) == Some(b)
    ensures Calls(evs, [SeeNameAt(ip, b), SeeNamed(mac, a)])
    ensures Sent(EMPTY, evs, vendors, clock) == [op]
    ensures T.Reported(op, mac, T.Hostname) == Some(T.Text(a))
    ensures var now := After(EMPTY, evs, vendors);
            && ip in now.pending && now.pending[ip] == b
            && mac in now.byMac && now.byMac[mac].written == Some(now.byMac[mac].fields)
            && now.byMac[mac].fields.hostname == Some(a)
  {
    var heard := PendingStep(map[], EMPTY, [], [], ip, b, vendors, clock);
    evs, op := NameStep(map[], EMPTY, heard, [] + [SeeNameAt(ip, b)], mac, a, vendors, clock);
    assert [] + [SeeNameAt(ip, b)] + [SeeNamed(mac, a)] == [SeeNameAt(ip, b), SeeNamed(mac, a)];
  }

  /** The name `b` is heard at an address, a device names itself `a`, and then it is sighted at that address:
      the registry, the two writes, and what either order of sending leaves. */
  lemma NamedThenSighted(ip: Ip, mac: string, a: string, b: string, vendors: VendorTable, clock: nat -> int)
      returns (evs: seq<Event>, sent: seq<T.WriteOp>)
    requires Canonical(mac) && SanitizeHostname(a) == Some(a) && SanitizeHostname(b) == Some(b) && a != b
    ensures Calls(evs, [SeeNameAt(ip, b), SeeNamed(mac, a), SeeAt(ip, mac)])
    ensures sent == Sent(EMPTY, evs, vendors, clock) && |sent| == 2
    ensures RegCell(After(EMPTY, evs, vendors), mac, T.Hostname) == Some(T.Text(b))
    ensures T.Value(T.Flushed(map[], sent), mac, T.Hostname) == Some(T.Text(b))
    ensures T.Value(T.Flushed(map[], [sent[1], sent[0]]), mac, T.Hostname) == Some(T.Text(a))
  {
    var named, x := HeardThenNamed(ip, mac, a, b, vendors, clock);
    var ops := [SeeNameAt(ip, b), SeeNamed(mac, a)];
    var y;
    evs, y := ClaimStep(map[], EMPTY, named, ops, ip, mac, b, vendors, clock);
    assert ops + [SeeAt(ip, mac)] == [SeeNameAt(ip, b), SeeNamed(mac, a), SeeAt(ip, mac)];
    sent := [x] + [y];
    EitherOrder(x, y, mac);
  }

  lemma EitherOrder(x: T.WriteOp, y: T.WriteOp, mac: string)
    requires T.Reported(x, mac, T.Hostname).Some? && T.Reported(y, mac, T.Hostname).Some?
    ensures T.Value(T.Flushed(map[], [x] + [y]), mac, T.Hostname) == T.Reported(y, mac, T.Hostname)
    ensures T.Value(T.Flushed(map[], [y, x]), mac, T.Hostname) == T.Reported(x, mac, T.Hostname)
  {
    assert [x] + [y] == [x, y];
    LastOfTwo(map[], x, y, mac);
    LastOfTwo(map[], y, x, mac);
  }

  /** A run whose two writes, decided by different listeners and sent the other way round, leave the row with
      a name the registry no longer has. A name heard over mDNS waits at an address; the device names itself
      over DHCP; then the ARP sweep sights it at that address, where it takes the waiting name. */
  lemma SwappedSendsDisagree(ip: Ip, vendors: VendorTable, clock: nat -> int)
      returns (mac: string, evs: seq<Event>, sent: seq<T.WriteOp>)
    ensures Calls(evs, [SeeNameAt(ip, "b"), SeeNamed(mac, "a"), SeeAt(ip, mac)])
    ensures sent == Sent(EMPTY, evs, vendors, clock) && |sent| == 2
    ensures RegCell(After(EMPTY, evs, vendors), mac, T.Hostname) == Some(T.Text("b"))
    ensures T.Value(T.Flushed(map[], sent), mac, T.Hostname) == Some(T.Text("b"))
    ensures T.Value(T.Flushed(map[], [sent[1], sent[0]]), mac, T.Hostname) == Some(T.Text("a"))
  {
    mac := SomeDevice(1);
    var a, b := "a", "b";
    LetterIsAName(a);
    LetterIsAName(b);
    evs, sent := NamedThenSighted(ip, mac, a, b, vendors, clock);
  }

  lemma LastOfTwo(t: T.Table, a: T.WriteOp, b: T.WriteOp, mac: string)
    requires T.Reported(b, mac, T.Hostname).Some?
    ensures T.Value(T.Flushed(t, [a, b]), mac, T.Hostname) == T.Reported(b, mac, T.Hostname)
  {
    assert [a, b][..1] == [a];
    T.ApplyCoalesces(T.Flushed(t, [a]), b, mac, T.Hostname);
  }

  // ---- the holder of an address ------------------------------------------

  predicate Carries(op: T.WriteOp, ip: Ip) {
    op.DeviceOp? && op.ip == Some(T.V4(ip))
  }

  /** The device's is the last operation to carry the address; without any, it held it before. */
  ghost predicate LastCarrier(t: T.Table, ops: seq<T.WriteOp>, m: string, ip: Ip) {
    || (exists i: nat :: i < |ops| && Carries(ops[i], ip) && ops[i].mac == m && CarriedByOnlyFrom(ops, i, m, ip))
    || (T.Holds(t, m, T.V4(ip)) && CarriedByOnlyFrom(ops, 0, m, ip))
  }

  predicate CarriedByOnlyFrom(ops: seq<T.WriteOp>, i: nat, m: string, ip: Ip) {
    forall j :: i <= j < |ops| && Carries(ops[j], ip) ==> ops[j].mac == m
  }

  /** Exactly who holds an address in the table after a run: a device the registry has at that address
      whose write was the last of all to carry it. Stale writes count like any other. */
  lemma HolderIff(t: T.Table, reg: Registry, start: Instant, evs: seq<Event>, vendors: VendorTable,
                  clock: nat -> int, m: string, ip: Ip)
    requires Sound(reg, start) && Mirrors(t, reg) && Timely(start, evs)
    ensures var sent, reg' := Sent(reg, evs, vendors, clock), After(reg, evs, vendors);
            T.Holds(T.Flushed(t, sent), m, T.V4(ip))
            <==> m in reg'.byMac && reg'.byMac[m].fields.ip == Some(ip) && LastCarrier(t, sent, m, ip)
  {
    var sent, reg' := Sent(reg, evs, vendors, clock), After(reg, evs, vendors);
    TableMirrorsRegistry(t, reg, start, evs, vendors, clock);
    assert DeviceMirrors(T.Flushed(t, sent), reg', m);
    T.HolderIsLastToClaim(t, sent, m, T.V4(ip));
    if T.Holds(T.Flushed(t, sent), m, T.V4(ip)) {
      ClaimIsLastCarrier(t, sent, m, ip);
    }
    if m in reg'.byMac && reg'.byMac[m].fields.ip == Some(ip) && LastCarrier(t, sent, m, ip) {
      SentIsFromRegistry(reg, start, evs, vendors, clock);
      RunEndsCurrent(reg, start, evs, vendors, clock, m);
      CarrierHolds(t, reg, reg', sent, m, ip);
    }
  }

  /** So the reverse index names the table's holder exactly when the device it names is still at the
      address and no other device's write carried the address after its own. */
  lemma IndexNamesHolderIff(t: T.Table, reg: Registry, start: Instant, evs: seq<Event>, vendors: VendorTable,
                            clock: nat -> int, ip: Ip)
    requires Sound(reg, start) && Mirrors(t, reg) && Timely(start, evs)
    requires ip in After(reg, evs, vendors).ipToMac
    ensures var sent, reg' := Sent(reg, evs, vendors, clock), After(reg, evs, vendors);
            var m := reg'.ipToMac[ip];
            T.Holds(T.Flushed(t, sent), m, T.V4(ip))
            <==> m in reg'.byMac && reg'.byMac[m].fields.ip == Some(ip) && LastCarrier(t, sent, m, ip)
  {
    HolderIff(t, reg, start, evs, vendors, clock, After(reg, evs, vendors).ipToMac[ip], ip);
  }

  lemma ClaimIsLastCarrier(t: T.Table, ops: seq<T.WriteOp>, m: string, ip: Ip)
    requires T.LastToClaim(ops, m, T.V4(ip)) || T.StillHolds(t, ops, m, T.V4(ip))
    ensures LastCarrier(t, ops, m, ip)
  {
    if T.LastToClaim(ops, m, T.V4(ip)) {
      var i: nat :| i < |ops| && T.Claims(ops[i], m, T.V4(ip))
                    && forall j :: i < j < |ops| ==> !T.Ends(ops[j], m, T.V4(ip));
      assert Carries(ops[i], ip) && CarriedByOnlyFrom(ops, i, m, ip);
    } else {
      forall j | 0 <= j < |ops| && Carries(ops[j], ip) ensures ops[j].mac == m {
        assert ops[j] in ops;
      }
    }
  }

  lemma CarrierHolds(t: T.Table, was: Registry, reg: Registry, ops: seq<T.WriteOp>, m: string, ip: Ip)
    requires m in reg.byMac && reg.byMac[m].fields.ip == Some(ip) && LastCarrier(t, ops, m, ip)
    requires LastOpIsCurrent(was, reg, ops, m) && forall op :: op in ops ==> FromRegistry(op)
    ensures T.LastToClaim(ops, m, T.V4(ip)) || T.StillHolds(t, ops, m, T.V4(ip))
  {
    if T.EverSeen(ops, m) {
      var k: nat :| k < |ops| && IsOpFor(ops[k], m, reg.byMac[m].fields)
                    && forall j :: k < j < |ops| ==> !T.Sights(ops[j], m);
      assert T.Claims(ops[k], m, T.V4(ip)) && Carries(ops[k], ip);
      forall j | k < j < |ops| ensures !T.Ends(ops[j], m, T.V4(ip)) {
        assert ops[j] in ops;
        NoCarrierAfter(t, ops, m, ip, k, j);
      }
      assert T.LastToClaim(ops, m, T.V4(ip));
    } else {
      assert CarriedByOnlyFrom(ops, 0, m, ip) && T.Holds(t, m, T.V4(ip));
      forall op | op in ops ensures !T.Ends(op, m, T.V4(ip)) {
        var j :| 0 <= j < |ops| && ops[j] == op;
        assert !T.Sights(ops[j], m);
      }
    }
  }

  lemma NoCarrierAfter(t: T.Table, ops: seq<T.WriteOp>, m: string, ip: Ip, k: nat, j: nat)
    requires LastCarrier(t, ops, m, ip) && k < j < |ops| && T.Sights(ops[k], m)
    requires forall x :: k < x < |ops| ==> !T.Sights(ops[x], m)
    ensures !Carries(ops[j], ip)
  {
    if i: nat :| i < |ops| && Carries(ops[i], ip) && ops[i].mac == m && CarriedByOnlyFrom(ops, i, m, ip) {
      assert T.Sights(ops[i], m);
    }
  }

  /** A device newly sighted at an address is written, and the write takes it from the row that had it,
      while the registry leaves the old device's address in place. */
  lemma TakeoverReleasesRowOnly(reg: Registry, t: T.Table, ip: Ip, holder: string, mac: string, vendors: VendorTable,
                                now: Instant, ts: int)
    requires Sound(reg, now) && Canonical(mac) && mac != holder
    requires holder in reg.byMac && reg.byMac[holder].fields.ip == Some(ip) && T.Holds(t, holder, T.V4(ip))
    requires mac in reg.byMac ==> reg.byMac[mac].fields.ip != Some(ip)
    ensures var e := Observed(reg, ip, mac, vendors, now);
            && e.write.Some? && holder in e.reg.byMac && e.reg.byMac[holder].fields.ip == Some(ip)
            && !T.Holds(AfterWrite(t, e, ts), holder, T.V4(ip)) && T.Holds(AfterWrite(t, e, ts), mac, T.V4(ip))
  {
    var op := AsOp(Observed(reg, ip, mac, vendors, now).write.value, ts);
    T.ApplyMovesHold(t, op, holder, T.V4(ip));
    T.ApplyMovesHold(t, op, mac, T.V4(ip));
  }

  /** The old device's stale address then comes back with its next write: here, as it names itself. The
      table takes the address from the device that the index names. */
  lemma StaleWriteTakesBack(reg: Registry, t: T.Table, ip: Ip, stale: string, mac: string, name: string,
                            vendors: VendorTable, now: Instant, ts: int)
    requires Sound(reg, now) && Canonical(stale) && stale != mac && SanitizeHostname(name) == Some(name)
    requires stale in reg.byMac && reg.byMac[stale].fields.ip == Some(ip)
    requires reg.byMac[stale].fields.hostname != Some(name)
    requires ip in reg.ipToMac && reg.ipToMac[ip] == mac && T.Holds(t, mac, T.V4(ip))
    ensures var e := Named(reg, stale, name, vendors, now);
            && e.write.Some? && ip in e.reg.ipToMac && e.reg.ipToMac[ip] == mac
            && T.Holds(AfterWrite(t, e, ts), stale, T.V4(ip)) && !T.Holds(AfterWrite(t, e, ts), mac, T.V4(ip))
  {
    NamingIsWritten(reg, stale, name, vendors, now);
    var op := AsOp(Named(reg, stale, name, vendors, now).write.value, ts);
    T.ApplyMovesHold(t, op, stale, T.V4(ip));
    T.ApplyMovesHold(t, op, mac, T.V4(ip));
  }

  lemma FirstSighting(reg: Registry, ip: Ip, mac: string, vendors: VendorTable, now: Instant)
    requires Canonical(mac) && mac !in reg.byMac
    ensures var e, f := Observed(reg, ip, mac, vendors, now), Sighted(reg, ip, mac, vendors);
            && e.write == Some(Write(mac, f))
            && e.reg.byMac == reg.byMac[mac := Device(f, Some(f), Some(now))]
            && e.reg.ipToMac == reg.ipToMac[ip := mac]
  {
  }

  /** Sightings at the one instant zero. */
  predicate AtOnce(evs: seq<Event>) {
    forall i :: 0 <= i < |evs| ==> evs[i].at == 0 && !evs[i].op.Touch?
  }

  /** One more event in a run: a new device is sighted at the address. */
  lemma SightStep(t: T.Table, reg: Registry, evs: seq<Event>, ip: Ip, mac: string, vendors: VendorTable,
                  clock: nat -> int) returns (evs': seq<Event>)
    requires Canonical(mac) && mac !in After(reg, evs, vendors).byMac && ip !in After(reg, evs, vendors).pending
    ensures AtOnce(evs) ==> AtOnce(evs')
    ensures var was, now := After(reg, evs, vendors), After(reg, evs', vendors);
            && mac in now.byMac && now.byMac == was.byMac[mac := now.byMac[mac]]
            && now.byMac[mac].fields.ip == Some(ip) && now.byMac[mac].fields.hostname == None
            && now.ipToMac == was.ipToMac[ip := mac] && ip !in now.pending
            && T.Holds(T.Flushed(t, Sent(reg, evs', vendors, clock)), mac, T.V4(ip))
  {
    var ev, was := Event(SeeAt(ip, mac), 0), After(reg, evs, vendors);
    FirstSighting(was, ip, mac, vendors, 0);
    OneMoreEvent(t, reg, evs, ev, vendors, clock);
    evs' := evs + [ev];
    var op := AsOp(Do(was, ev, vendors).write.value, clock(|evs|));
    T.ApplyMovesHold(T.Flushed(t, Sent(reg, evs, vendors, clock)), op, mac, T.V4(ip));
  }

  /** Two devices in turn at one address: both keep it in the registry, the second has the index entry and
      the row. */
  lemma TwoInTurn(ip: Ip, a: string, b: string, vendors: VendorTable, clock: nat -> int) returns (evs: seq<Event>)
    requires Canonical(a) && Canonical(b) && a != b
    ensures AtOnce(evs)
    ensures var reg, t := After(EMPTY, evs, vendors), T.Flushed(map[], Sent(EMPTY, evs, vendors, clock));
            && a in reg.byMac && reg.byMac[a].fields.ip == Some(ip) && reg.byMac[a].fields.hostname == None
            && ip in reg.ipToMac && reg.ipToMac[ip] == b && T.Holds(t, b, T.V4(ip))
  {
    var first := SightStep(map[], EMPTY, [], ip, a, vendors, clock);
    evs := SightStep(map[], EMPTY, first, ip, b, vendors, clock);
  }

  /** The index names one device at the address, the table another. */
  predicate Disagree(reg: Registry, t: T.Table, ip: Ip, a: string, b: string) {
    && ip in reg.ipToMac && reg.ipToMac[ip] == b
    && T.Holds(t, a, T.V4(ip)) && !T.Holds(t, b, T.V4(ip))
  }

  lemma StaleEvent(reg: Registry, t: T.Table, ev: Event, ip: Ip, a: string, b: string, vendors: VendorTable, ts: int)
    requires Sound(reg, 0) && Canonical(a) && a != b
    requires ev.op.SeeNamed? && ev.op.rawMac == a && ev.at == 0
    requires SanitizeHostname(ev.op.hostname) == Some(ev.op.hostname)
    requires a in reg.byMac && reg.byMac[a].fields.ip == Some(ip) && reg.byMac[a].fields.hostname == None
    requires ip in reg.ipToMac && reg.ipToMac[ip] == b && T.Holds(t, b, T.V4(ip))
    ensures var e := Do(reg, ev, vendors); Disagree(e.reg, AfterWrite(t, e, ts), ip, a, b)
  {
    StaleWriteTakesBack(reg, t, ip, a, b, ev.op.hostname, vendors, 0, ts);
  }

  /** A run after which the index names one device at the address and the table another: two devices in turn
      at it, and then the first names itself. */
  lemma IndexAndTableDisagree(ip: Ip, vendors: VendorTable, clock: nat -> int)
      returns (a: string, b: string, evs: seq<Event>)
    ensures Timely(0, evs) && a != b
    ensures Disagree(After(EMPTY, evs, vendors), T.Flushed(map[], Sent(EMPTY, evs, vendors, clock)), ip, a, b)
  {
    a := SomeDevice(1);
    b := SomeDevice(2);
    DevicesDiffer(1, 2);
    var name := "x";
    LetterIsAName(name);
    var turns := TwoInTurn(ip, a, b, vendors, clock);
    evs := StaleLast(turns, Event(SeeNamed(a, name), 0), ip, a, b, vendors, clock);
  }

  lemma OneMoreIsTimely(turns: seq<Event>, ev: Event)
    requires AtOnce(turns) && ev.at == 0 && !ev.op.Touch?
    ensures Timely(0, turns + [ev]) && Timely(0, turns)
  {
  }

  lemma StaleLast(turns: seq<Event>, ev: Event, ip: Ip, a: string, b: string, vendors: VendorTable,
                  clock: nat -> int) returns (evs: seq<Event>)
    requires AtOnce(turns)
    requires Canonical(a) && a != b && ev.op.SeeNamed? && ev.op.rawMac == a && ev.at == 0
    requires SanitizeHostname(ev.op.hostname) == Some(ev.op.hostname)
    requires var reg, t := After(EMPTY, turns, vendors), T.Flushed(map[], Sent(EMPTY, turns, vendors, clock));
             && a in reg.byMac && reg.byMac[a].fields.ip == Some(ip) && reg.byMac[a].fields.hostname == None
             && ip in reg.ipToMac && reg.ipToMac[ip] == b && T.Holds(t, b, T.V4(ip))
    ensures Timely(0, evs)
    ensures Disagree(After(EMPTY, evs, vendors), T.Flushed(map[], Sent(EMPTY, evs, vendors, clock)), ip, a, b)
  {
    evs := turns + [ev];
    OneMoreIsTimely(turns, ev);
    RunKeepsSound(EMPTY, 0, turns, vendors, 0);
    OneMoreEvent(map[], EMPTY, turns, ev, vendors, clock);
    StaleEvent(After(EMPTY, turns, vendors), T.Flushed(map[], Sent(EMPTY, turns, vendors, clock)), ev, ip, a, b,
               vendors, clock(|turns|));
  }
}
