/** What the registry knows after a run, in terms of the sightings alone: which devices, where, by what name,
    and when their rows are due. */
module DeviceHistory {
  import opened Wrappers
  import opened Devices
  import opened DeviceRuns
  import Macs

  // ---- sightings ---------------------------------------------------------

  /** The address resolution cache shows the MAC at the address. */
  predicate SightsAt(ev: Event, m: string, ip: Ip) {
    ev.op.SeeAt? && ev.op.ip == ip && Macs.Normalize(ev.op.rawMac) == Some(m)
  }

  /** Some MAC is shown at the address. */
  predicate Occupies(ev: Event, ip: Ip) {
    ev.op.SeeAt? && ev.op.ip == ip && Macs.Normalize(ev.op.rawMac).Some?
  }

  /** The MAC is shown at some address. */
  predicate Shows(ev: Event, m: string) {
    ev.op.SeeAt? && Macs.Normalize(ev.op.rawMac) == Some(m)
  }

  /** The device gives itself the name. */
  predicate NamesItself(ev: Event, m: string, n: string) {
    ev.op.SeeNamed? && Macs.Normalize(ev.op.rawMac) == Some(m) && SanitizeHostname(ev.op.hostname) == Some(n)
  }

  /** A name is heard for the address. */
  predicate NamesAddress(ev: Event, ip: Ip, n: string) {
    ev.op.SeeNameAt? && ev.op.ip == ip && SanitizeHostname(ev.op.hostname) == Some(n)
  }

  /** Some name is heard for the address. */
  predicate Hears(ev: Event, ip: Ip) {
    ev.op.SeeNameAt? && ev.op.ip == ip && SanitizeHostname(ev.op.hostname).Some?
  }

  /** The device gives itself some name. */
  predicate Announces(ev: Event, m: string) {
    ev.op.SeeNamed? && Macs.Normalize(ev.op.rawMac) == Some(m) && SanitizeHostname(ev.op.hostname).Some?
  }

  /** The event makes the device known. */
  predicate Introduces(ev: Event, m: string) {
    Shows(ev, m) || Announces(ev, m)
  }

  /** Some event gives it, and none since has ended it. */
  ghost predicate LastThat(evs: seq<Event>, gives: Event -> bool, ends: Event -> bool) {
    exists i: nat :: i < |evs| && gives(evs[i]) && forall j :: i < j < |evs| ==> !ends(evs[j])
  }

  lemma LastThatStep(evs: seq<Event>, gives: Event -> bool, ends: Event -> bool)
    requires evs != []
    ensures var n := |evs| - 1;
            LastThat(evs, gives, ends) <==> gives(evs[n]) || (LastThat(evs[..n], gives, ends) && !ends(evs[n]))
  {
    var n := |evs| - 1;
    if LastThat(evs[..n], gives, ends) && !ends(evs[n]) {
      var i: nat :| i < n && gives(evs[..n][i]) && forall j :: i < j < n ==> !ends(evs[..n][j]);
      assert gives(evs[i]);
      forall j | i < j < |evs| ensures !ends(evs[j]) {
        assert j < n ==> evs[..n][j] == evs[j];
      }
    }
    if LastThat(evs, gives, ends) && !gives(evs[n]) {
      var i: nat :| i < |evs| && gives(evs[i]) && forall j :: i < j < |evs| ==> !ends(evs[j]);
      assert gives(evs[..n][i]);
    }
  }

  // ---- which devices are known -------------------------------------------

  lemma {:induction false} IndexLeadsToKnown(evs: seq<Event>, vendors: VendorTable)
    ensures Indexed(After(EMPTY, evs, vendors))
    decreases |evs|
  {
    if evs != [] {
      var n := |evs| - 1;
      IndexLeadsToKnown(evs[..n], vendors);
      StaysIndexed(After(EMPTY, evs[..n], vendors), evs[n], vendors);
    }
  }

  lemma StaysIndexed(reg: Registry, ev: Event, vendors: VendorTable)
    requires Indexed(reg)
    ensures Indexed(Do(reg, ev, vendors).reg)
  {
  }

  /** A randomized address has no maker; any other's is looked up. */
  function MakerOf(vendors: VendorTable, m: string): Option<string> {
    if Macs.IsRandomized(m) then Some("(randomized MAC)") else vendors(m)
  }

  lemma MakerIs(vendors: VendorTable, m: string)
    ensures MakerOf(vendors, m) == VendorOf(vendors, m)
  {
  }

  lemma EventMakesKnown(reg: Registry, ev: Event, vendors: VendorTable, m: string)
    requires Indexed(reg)
    ensures m in Do(reg, ev, vendors).reg.byMac <==> m in reg.byMac || Introduces(ev, m)
  {
  }

  lemma SightingHasMaker(reg: Registry, ev: Event, vendors: VendorTable, m: string)
    requires Introduces(ev, m) && (m in reg.byMac ==> HasMaker(reg, vendors, m))
    ensures m in Do(reg, ev, vendors).reg.byMac && HasMaker(Do(reg, ev, vendors).reg, vendors, m)
  {
    MakerIs(vendors, m);
  }

  lemma OthersKeepMaker(reg: Registry, ev: Event, vendors: VendorTable, m: string)
    requires Indexed(reg) && m in reg.byMac && !Introduces(ev, m)
    ensures m in Do(reg, ev, vendors).reg.byMac
    ensures var f, f' := reg.byMac[m].fields, Do(reg, ev, vendors).reg.byMac[m].fields;
            f'.vendor == f.vendor && f'.randomized == f.randomized
  {
  }

  lemma EventKeepsMaker(reg: Registry, ev: Event, vendors: VendorTable, m: string)
    requires Indexed(reg) && (m in reg.byMac ==> HasMaker(reg, vendors, m))
    requires m in reg.byMac || Introduces(ev, m)
    ensures m in Do(reg, ev, vendors).reg.byMac && HasMaker(Do(reg, ev, vendors).reg, vendors, m)
  {
    if Introduces(ev, m) {
      SightingHasMaker(reg, ev, vendors, m);
    } else {
      OthersKeepMaker(reg, ev, vendors, m);
    }
  }

  predicate HasMaker(reg: Registry, vendors: VendorTable, m: string)
    requires m in reg.byMac
  {
    reg.byMac[m].fields.vendor == MakerOf(vendors, m) && reg.byMac[m].fields.randomized == Macs.IsRandomized(m)
  }

  /** The devices known after a run are exactly those sighted at an address or naming themselves, each with its
      address's maker and kind. */
  lemma {:induction false} KnownIff(evs: seq<Event>, vendors: VendorTable, m: string)
    ensures var reg := After(EMPTY, evs, vendors);
            && (m in reg.byMac <==> EverIntroduced(evs, m))
            && (m in reg.byMac ==> HasMaker(reg, vendors, m))
    decreases |evs|
  {
    if evs != [] {
      var past, ev := evs[..|evs| - 1], evs[|evs| - 1];
      KnownIff(past, vendors, m);
      IndexLeadsToKnown(past, vendors);
      EventMakesKnown(After(EMPTY, past, vendors), ev, vendors, m);
      if EverIntroduced(past, m) || Introduces(ev, m) {
        EventKeepsMaker(After(EMPTY, past, vendors), ev, vendors, m);
      }
      IntroducedStep(evs, m);
    }
  }

  predicate EverIntroduced(evs: seq<Event>, m: string) {
    exists i :: 0 <= i < |evs| && Introduces(evs[i], m)
  }

  lemma IntroducedStep(evs: seq<Event>, m: string)
    requires evs != []
    ensures EverIntroduced(evs, m) <==> EverIntroduced(evs[..|evs| - 1], m) || Introduces(evs[|evs| - 1], m)
  {
    assert forall i :: 0 <= i < |evs| - 1 ==> evs[..|evs| - 1][i] == evs[i];
  }

  // ---- where they are ----------------------------------------------------

  /** The MAC is the last shown at the address. */
  ghost predicate LastAt(evs: seq<Event>, m: string, ip: Ip) {
    LastThat(evs, ev => SightsAt(ev, m, ip), ev => Occupies(ev, ip))
  }

  lemma EventMovesIndex(reg: Registry, ev: Event, vendors: VendorTable, m: string, ip: Ip)
    ensures Has(Do(reg, ev, vendors).reg.ipToMac, ip, m)
       <==> SightsAt(ev, m, ip) || (Has(reg.ipToMac, ip, m) && !Occupies(ev, ip))
  {
  }

  predicate Has<K, V(==)>(m: map<K, V>, k: K, v: V) {
    k in m && m[k] == v
  }

  /** The reverse index leads an address to exactly the last MAC shown there. */
  lemma {:induction false} IndexIsLastSighting(evs: seq<Event>, vendors: VendorTable, m: string, ip: Ip)
    ensures Has(After(EMPTY, evs, vendors).ipToMac, ip, m) <==> LastAt(evs, m, ip)
    decreases |evs|
  {
    if evs != [] {
      var n := |evs| - 1;
      IndexIsLastSighting(evs[..n], vendors, m, ip);
      EventMovesIndex(After(EMPTY, evs[..n], vendors), evs[n], vendors, m, ip);
      LastThatStep(evs, ev => SightsAt(ev, m, ip), ev => Occupies(ev, ip));
    }
  }

  /** The address is the last at which the MAC was shown. */
  ghost predicate LastShownAt(evs: seq<Event>, m: string, ip: Ip) {
    LastThat(evs, ev => SightsAt(ev, m, ip), ev => Shows(ev, m))
  }

  predicate IsAt(reg: Registry, m: string, ip: Ip) {
    m in reg.byMac && reg.byMac[m].fields.ip == Some(ip)
  }

  lemma EventMovesDevice(reg: Registry, ev: Event, vendors: VendorTable, m: string, ip: Ip)
    requires Indexed(reg)
    ensures IsAt(Do(reg, ev, vendors).reg, m, ip)
       <==> SightsAt(ev, m, ip) || (IsAt(reg, m, ip) && !Shows(ev, m))
  {
  }

  /** A device is at exactly the last address it was sighted at. */
  lemma {:induction false} DeviceIsWhereLastSeen(evs: seq<Event>, vendors: VendorTable, m: string, ip: Ip)
    ensures IsAt(After(EMPTY, evs, vendors), m, ip) <==> LastShownAt(evs, m, ip)
    decreases |evs|
  {
    if evs != [] {
      var n := |evs| - 1;
      DeviceIsWhereLastSeen(evs[..n], vendors, m, ip);
      IndexLeadsToKnown(evs[..n], vendors);
      EventMovesDevice(After(EMPTY, evs[..n], vendors), evs[n], vendors, m, ip);
      LastThatStep(evs, ev => SightsAt(ev, m, ip), ev => Shows(ev, m));
    }
  }

  // ---- by what name ------------------------------------------------------

  /** The name is the last heard for the address. */
  ghost predicate LastHeard(evs: seq<Event>, ip: Ip, n: string) {
    LastThat(evs, ev => NamesAddress(ev, ip, n), ev => Hears(ev, ip))
  }

  predicate NoneAt(evs: seq<Event>, ip: Ip) {
    forall i :: 0 <= i < |evs| ==> !Occupies(evs[i], ip)
  }

  lemma NoneAtStep(evs: seq<Event>, ip: Ip)
    requires evs != []
    ensures NoneAt(evs, ip) <==> NoneAt(evs[..|evs| - 1], ip) && !Occupies(evs[|evs| - 1], ip)
  {
    assert evs == evs[..|evs| - 1] + [evs[|evs| - 1]];
  }

  lemma {:induction false} UnindexedIff(evs: seq<Event>, vendors: VendorTable, ip: Ip)
    ensures ip !in After(EMPTY, evs, vendors).ipToMac <==> NoneAt(evs, ip)
    decreases |evs|
  {
    if evs != [] {
      var n := |evs| - 1;
      UnindexedIff(evs[..n], vendors, ip);
      IndexGrows(After(EMPTY, evs[..n], vendors), evs[n], vendors, ip);
      NoneAtStep(evs, ip);
    }
  }

  lemma IndexGrows(reg: Registry, ev: Event, vendors: VendorTable, ip: Ip)
    ensures ip in Do(reg, ev, vendors).reg.ipToMac <==> ip in reg.ipToMac || Occupies(ev, ip)
  {
  }

  lemma EventHolds(reg: Registry, ev: Event, vendors: VendorTable, ip: Ip, n: string)
    requires Indexed(reg)
    ensures Has(Do(reg, ev, vendors).reg.pending, ip, n)
       <==> && ip !in reg.ipToMac && !Occupies(ev, ip)
            && (NamesAddress(ev, ip, n) || (Has(reg.pending, ip, n) && !Hears(ev, ip)))
  {
  }

  /** A name waits at an address exactly when it is the last heard there and no device has been shown there. */
  lemma {:induction false} WaitsIff(evs: seq<Event>, vendors: VendorTable, ip: Ip, n: string)
    ensures Has(After(EMPTY, evs, vendors).pending, ip, n) <==> LastHeard(evs, ip, n) && NoneAt(evs, ip)
    decreases |evs|
  {
    if evs != [] {
      var k := |evs| - 1;
      WaitsIff(evs[..k], vendors, ip, n);
      UnindexedIff(evs[..k], vendors, ip);
      IndexLeadsToKnown(evs[..k], vendors);
      EventHolds(After(EMPTY, evs[..k], vendors), evs[k], vendors, ip, n);
      LastThatStep(evs, ev => NamesAddress(ev, ip, n), ev => Hears(ev, ip));
      NoneAtStep(evs, ip);
    }
  }

  function NameOf(reg: Registry, m: string): Option<string> {
    if m in reg.byMac then reg.byMac[m].fields.hostname else None
  }

  /** The event, behind the others, gives the device the name: its own, the one waiting where it is shown for
      the first time, or, while it has none, one heard for the address that last showed it. */
  ghost predicate GivesName(past: seq<Event>, ev: Event, vendors: VendorTable, m: string, n: string) {
    || NamesItself(ev, m, n)
    || (Shows(ev, m) && TakesWaiting(past, ev.op.ip, n))
    || (ev.op.SeeNameAt? && NamesAddress(ev, ev.op.ip, n) && LastAt(past, m, ev.op.ip)
        && NameOf(After(EMPTY, past, vendors), m) == None)
  }

  ghost predicate TakesWaiting(past: seq<Event>, ip: Ip, n: string) {
    NoneAt(past, ip) && LastHeard(past, ip, n)
  }

  /** What the event gives, in terms of the registry it meets. */
  predicate Names(reg: Registry, ev: Event, m: string, n: string) {
    || NamesItself(ev, m, n)
    || (Shows(ev, m) && Has(reg.pending, ev.op.ip, n))
    || (ev.op.SeeNameAt? && NamesAddress(ev, ev.op.ip, n) && Has(reg.ipToMac, ev.op.ip, m) && NameOf(reg, m) == None)
  }

  lemma EventNames(reg: Registry, ev: Event, vendors: VendorTable, m: string, n: string)
    requires Indexed(reg)
    ensures NameOf(Do(reg, ev, vendors).reg, m) == Some(n)
       <==> Names(reg, ev, m, n) || (NameOf(reg, m) == Some(n) && forall o :: !Names(reg, ev, m, o))
  {
    if ev.op.SeeNamed? && SanitizeHostname(ev.op.hostname).Some? {
      assert Names(reg, ev, m, SanitizeHostname(ev.op.hostname).value) <==> Announces(ev, m);
    }
    if ev.op.SeeAt? && ev.op.ip in reg.pending {
      assert Names(reg, ev, m, reg.pending[ev.op.ip]) <==> Shows(ev, m);
    }
  }

  lemma GivesNameIff(past: seq<Event>, ev: Event, vendors: VendorTable, m: string, n: string)
    ensures GivesName(past, ev, vendors, m, n) <==> Names(After(EMPTY, past, vendors), ev, m, n)
  {
    if ev.op.SeeAt? {
      WaitsIff(past, vendors, ev.op.ip, n);
    }
    if ev.op.SeeNameAt? {
      IndexIsLastSighting(past, vendors, m, ev.op.ip);
    }
  }

  /** Exactly how each event leaves a device's name: with the one it gives, or as it was. */
  lemma NameAfterIff(evs: seq<Event>, vendors: VendorTable, m: string, n: string)
    requires evs != []
    ensures var past, ev := evs[..|evs| - 1], evs[|evs| - 1];
            NameOf(After(EMPTY, evs, vendors), m) == Some(n)
            <==> || GivesName(past, ev, vendors, m, n)
                 || (NameOf(After(EMPTY, past, vendors), m) == Some(n)
                     && forall o :: !GivesName(past, ev, vendors, m, o))
  {
    var past, ev := evs[..|evs| - 1], evs[|evs| - 1];
    IndexLeadsToKnown(past, vendors);
    forall o ensures GivesName(past, ev, vendors, m, o) <==> Names(After(EMPTY, past, vendors), ev, m, o) {
      GivesNameIff(past, ev, vendors, m, o);
    }
    EventNames(After(EMPTY, past, vendors), ev, vendors, m, n);
  }

  /** Since event `i` the device has neither given itself a name, nor been shown for the first time at an
      address where one was waiting. */
  ghost predicate NotRenamed(evs: seq<Event>, i: nat, m: string) {
    forall j :: i < j < |evs| ==>
      && !Announces(evs[j], m)
      && (Shows(evs[j], m) ==> forall n :: !TakesWaiting(evs[..j], evs[j].op.ip, n))
  }

  lemma NotRenamedBefore(evs: seq<Event>, i: nat, m: string)
    requires evs != [] && NotRenamed(evs, i, m)
    ensures NotRenamed(evs[..|evs| - 1], i, m)
  {
    var past := evs[..|evs| - 1];
    forall j | i < j < |past|
      ensures !Announces(past[j], m) && (Shows(past[j], m) ==> forall n :: !TakesWaiting(past[..j], past[j].op.ip, n))
    {
      assert past[..j] == evs[..j] && past[j] == evs[j];
    }
  }

  lemma NothingGiven(past: seq<Event>, ev: Event, vendors: VendorTable, m: string)
    requires !Announces(ev, m) && (Shows(ev, m) ==> forall n :: !TakesWaiting(past, ev.op.ip, n))
    requires NameOf(After(EMPTY, past, vendors), m).Some?
    ensures forall o :: !GivesName(past, ev, vendors, m, o)
  {
  }

  lemma NameStays(evs: seq<Event>, vendors: VendorTable, i: nat, m: string, n: string)
    requires i < |evs| - 1 && NotRenamed(evs, i, m)
    requires NameOf(After(EMPTY, evs[..|evs| - 1], vendors), m) == Some(n)
    ensures NameOf(After(EMPTY, evs, vendors), m) == Some(n)
  {
    NothingGiven(evs[..|evs| - 1], evs[|evs| - 1], vendors, m);
    NameAfterIff(evs, vendors, m, n);
  }

  /** A name that a device gave itself holds against every name heard for its address, until it gives itself
      another, or is shown for the first time at an address where a name is waiting. */
  lemma {:induction false} OwnNameHolds(evs: seq<Event>, vendors: VendorTable, i: nat, m: string, n: string)
    requires i < |evs| && NamesItself(evs[i], m, n) && NotRenamed(evs, i, m)
    ensures NameOf(After(EMPTY, evs, vendors), m) == Some(n)
    decreases |evs|
  {
    if i < |evs| - 1 {
      NotRenamedBefore(evs, i, m);
      OwnNameHolds(evs[..|evs| - 1], vendors, i, m, n);
      NameStays(evs, vendors, i, m, n);
    } else {
      NameAfterIff(evs, vendors, m, n);
    }
  }

  /** And then it does not: a name heard for an address replaces the device's own, when it was heard before any
      device was shown there. */
  lemma WaitingNameReplacesOwn(past: seq<Event>, ev: Event, vendors: VendorTable, m: string, n: string)
    requires Shows(ev, m) && TakesWaiting(past, ev.op.ip, n)
    ensures NameOf(After(EMPTY, past + [ev], vendors), m) == Some(n)
  {
    assert (past + [ev])[..|past|] == past;
    NameAfterIff(past + [ev], vendors, m, n);
  }

  // ---- what startup loads ------------------------------------------------

  function Usable(rows: seq<KnownDevice>): set<nat> {
    set i: nat | i < |rows| && Macs.Normalize(rows[i].mac).Some?
  }

  /** The number startup reports is that of the rows whose MAC is an address. */
  lemma {:induction false} LoadedIsUsable(rows: seq<KnownDevice>)
    ensures Loadable(rows) == |Usable(rows)|
    decreases |rows|
  {
    if rows == [] {
      assert Usable(rows) == {};
    } else {
      var n := |rows| - 1;
      LoadedIsUsable(rows[..n]);
      UsableStep(rows);
    }
  }

  lemma UsableStep(rows: seq<KnownDevice>)
    requires rows != []
    ensures var n := |rows| - 1;
            && Usable(rows) == Usable(rows[..n]) + (if Macs.Normalize(rows[n].mac).Some? then {n} else {})
            && n !in Usable(rows[..n])
  {
    var n := |rows| - 1;
    forall i: nat ensures i in Usable(rows) <==> i in Usable(rows[..n]) || (i == n && i in Usable(rows)) {
      assert i < n ==> rows[..n][i] == rows[i];
    }
  }
}
