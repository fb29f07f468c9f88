/** The database as the writer and the dashboard see it: devices by MAC, and the query log. */
module DeviceTable {
  import opened Wrappers

  /** An address as text: an IPv4 address, or anything else. */
  datatype Addr = V4(ip: u32) | Other(text: string)

  datatype Row = Row(ip: Option<Addr>, hostname: Option<string>, vendor: Option<string>, randomized: bool,
                     firstSeen: int, lastSeen: int)

  type Table = map<string, Row>

  datatype QueryEvent = QueryEvent(ts: int, client: Addr, domain: string, status: string)

  datatype WriteOp =
    | DeviceOp(mac: string, ip: Option<Addr>, hostname: Option<string>, vendor: Option<string>,
               randomized: bool, ts: int)
    | QueryOp(event: QueryEvent)
    | OtherOp

  // ---- one operation -----------------------------------------------------

  /** UPDATE devices SET ip = NULL WHERE ip = ? AND mac != ? */
  function Released(t: Table, ip: Addr, mac: string): Table {
    map m | m in t :: if m != mac && t[m].ip == Some(ip) then t[m].(ip := None) else t[m]
  }

  /** INSERT ... ON CONFLICT(mac) DO UPDATE, with COALESCE keeping what a sighting does not carry. */
  function Upserted(t: Table, op: WriteOp): Table
    requires op.DeviceOp?
  {
    if op.mac in t then
      var known := t[op.mac];
      t[op.mac := Row(Coalesce(op.ip, known.ip), Coalesce(op.hostname, known.hostname),
                      Coalesce(op.vendor, known.vendor), op.randomized, known.firstSeen, op.ts)]
    else t[op.mac := Row(op.ip, op.hostname, op.vendor, op.randomized, op.ts, op.ts)]
  }

  function Applied(t: Table, op: WriteOp): Table {
    if !op.DeviceOp? then t
    else Upserted(if op.ip.Some? then Released(t, op.ip.value, op.mac) else t, op)
  }

  function Flushed(t: Table, ops: seq<WriteOp>): Table {
    if ops == [] then t else Applied(Flushed(t, ops[..|ops| - 1]), ops[|ops| - 1])
  }

  function Logged(ops: seq<WriteOp>): seq<QueryEvent> {
    if ops == [] then []
    else Logged(ops[..|ops| - 1]) + if ops[|ops| - 1].QueryOp? then [ops[|ops| - 1].event] else []
  }

  class Db {
    var devices: Table
    var queries: seq<QueryEvent>

    constructor ()
      ensures devices == map[] && queries == []
    {
      devices, queries := map[], [];
    }

    /** One transaction: every operation in order, row by row. */
    method Flush(ops: seq<WriteOp>)
      modifies this
      ensures devices == Flushed(old(devices), ops)
      ensures queries == old(queries) + Logged(ops)
    {
      for i := 0 to |ops|
        invariant devices == Flushed(old(devices), ops[..i])
        invariant queries == old(queries) + Logged(ops[..i])
      {
        assert ops[..i + 1][..i] == ops[..i];
        match ops[i] {
          case QueryOp(e) => queries := queries + [e];
          case DeviceOp(mac, ip, _, _, _, _) =>
            if ip.Some? {
              devices := Released(devices, ip.value, mac);
            }
            devices := Upserted(devices, ops[i]);
          case OtherOp =>
        }
      }
      assert ops[..|ops|] == ops;
    }
  }

  // ---- the log keeps every query -----------------------------------------

  /** The log is the query events of the operations, each once and in order: `at` lists their positions. */
  lemma {:induction false} LogKeepsQueries(ops: seq<WriteOp>) returns (at: seq<nat>)
    ensures |Logged(ops)| == |at|
    ensures forall k :: 0 <= k < |at| ==>
              at[k] < |ops| && ops[at[k]].QueryOp? && Logged(ops)[k] == ops[at[k]].event
    ensures forall j, k :: 0 <= j < k < |at| ==> at[j] < at[k]
    ensures forall i: nat :: i < |ops| && ops[i].QueryOp? ==> i in at
    decreases |ops|
  {
    at := [];
    if ops != [] {
      var n := |ops| - 1;
      var before := LogKeepsQueries(ops[..n]);
      at := before + if ops[n].QueryOp? then [n] else [];
      forall i: nat | i < |ops| && ops[i].QueryOp? ensures i in at {
        assert i < n ==> ops[..n][i] == ops[i] && i in before;
        assert i == n ==> at[|before|] == n;
      }
    }
  }

  // ---- an address has one holder -----------------------------------------

  predicate UniqueIps(t: Table) {
    forall a, b :: a in t && b in t && a != b && t[a].ip.Some? ==> t[a].ip != t[b].ip
  }

  lemma ApplyKeepsUnique(t: Table, op: WriteOp)
    requires UniqueIps(t)
    ensures UniqueIps(Applied(t, op))
  {
    if op.DeviceOp? && op.ip.Some? {
      ReleaseFrees(t, op.ip.value, op.mac);
    }
  }

  /** A release leaves the address to nobody but the device it is for. */
  lemma ReleaseFrees(t: Table, ip: Addr, mac: string)
    requires UniqueIps(t)
    ensures UniqueIps(Released(t, ip, mac))
    ensures forall m :: m in Released(t, ip, mac) && m != mac ==> Released(t, ip, mac)[m].ip != Some(ip)
  {
  }

  /** Over any sequence of flushed operations at most one row holds each address. */
  lemma {:induction false} FlushKeepsUnique(t: Table, ops: seq<WriteOp>)
    requires UniqueIps(t)
    ensures UniqueIps(Flushed(t, ops))
    decreases |ops|
  {
    if ops != [] {
      FlushKeepsUnique(t, ops[..|ops| - 1]);
      ApplyKeepsUnique(Flushed(t, ops[..|ops| - 1]), ops[|ops| - 1]);
    }
  }

  predicate Holds(t: Table, mac: string, ip: Addr) {
    mac in t && t[mac].ip == Some(ip)
  }

  predicate Sights(op: WriteOp, mac: string) {
    op.DeviceOp? && op.mac == mac
  }

  predicate Claims(op: WriteOp, mac: string, ip: Addr) {
    op.DeviceOp? && op.mac == mac && op.ip == Some(ip)
  }

  /** The operation ends the MAC's hold: another device claims the address, or this one moves. */
  predicate Ends(op: WriteOp, mac: string, ip: Addr) {
    op.DeviceOp? && op.ip.Some? && ((op.ip == Some(ip)) != (op.mac == mac))
  }

  /** The MAC is the last to have claimed the address and has not moved since. */
  ghost predicate LastToClaim(ops: seq<WriteOp>, mac: string, ip: Addr) {
    exists i: nat :: i < |ops| && Claims(ops[i], mac, ip) && forall j :: i < j < |ops| ==> !Ends(ops[j], mac, ip)
  }

  lemma ApplyMovesHold(t: Table, op: WriteOp, mac: string, ip: Addr)
    ensures Holds(Applied(t, op), mac, ip) <==> Claims(op, mac, ip) || (Holds(t, mac, ip) && !Ends(op, mac, ip))
  {
  }

  /** The MAC held the address before the operations, and none of them ended that. */
  predicate StillHolds(t: Table, ops: seq<WriteOp>, mac: string, ip: Addr) {
    Holds(t, mac, ip) && forall op :: op in ops ==> !Ends(op, mac, ip)
  }

  /** The holder of an address is exactly the last MAC to claim it that has not since moved, or the one
      that held it all along. */
  lemma {:induction false} HolderIsLastToClaim(t: Table, ops: seq<WriteOp>, mac: string, ip: Addr)
    ensures Holds(Flushed(t, ops), mac, ip) <==> LastToClaim(ops, mac, ip) || StillHolds(t, ops, mac, ip)
    decreases |ops|
  {
    if ops != [] {
      var n := |ops| - 1;
      HolderIsLastToClaim(t, ops[..n], mac, ip);
      ApplyMovesHold(Flushed(t, ops[..n]), ops[n], mac, ip);
      LastToClaimStep(ops, mac, ip);
      assert ops == ops[..n] + [ops[n]];
    }
  }

  lemma LastToClaimStep(ops: seq<WriteOp>, mac: string, ip: Addr)
    requires ops != []
    ensures var n := |ops| - 1;
            LastToClaim(ops, mac, ip)
            <==> Claims(ops[n], mac, ip) || (LastToClaim(ops[..n], mac, ip) && !Ends(ops[n], mac, ip))
  {
    var n := |ops| - 1;
    if LastToClaim(ops[..n], mac, ip) && !Ends(ops[n], mac, ip) {
      var i: nat :| i < n && Claims(ops[..n][i], mac, ip) && forall j :: i < j < n ==> !Ends(ops[..n][j], mac, ip);
      assert Claims(ops[i], mac, ip);
      forall j | i < j < |ops| ensures !Ends(ops[j], mac, ip) {
        assert j < n ==> ops[..n][j] == ops[j];
      }
    }
    if LastToClaim(ops, mac, ip) && !Claims(ops[n], mac, ip) {
      var i: nat :| i < |ops| && Claims(ops[i], mac, ip) && forall j :: i < j < |ops| ==> !Ends(ops[j], mac, ip);
      assert Claims(ops[..n][i], mac, ip);
    }
  }

  // ---- nothing known is erased -------------------------------------------

  datatype Column = Hostname | Vendor | RandomizedFlag

  datatype Cell = Text(text: string) | Bit(bit: bool)

  function AsCell(text: Option<string>): Option<Cell> {
    match text
    case None => None
    case Some(s) => Some(Text(s))
  }

  /** What an operation says of a device in a column; a written flag always counts as said. */
  function Reported(op: WriteOp, mac: string, c: Column): Option<Cell> {
    if !op.DeviceOp? || op.mac != mac then None
    else
      match c
      case Hostname => AsCell(op.hostname)
      case Vendor => AsCell(op.vendor)
      case RandomizedFlag => Some(Bit(op.randomized))
  }

  function Value(t: Table, mac: string, c: Column): Option<Cell> {
    if mac !in t then None
    else
      match c
      case Hostname => AsCell(t[mac].hostname)
      case Vendor => AsCell(t[mac].vendor)
      case RandomizedFlag => Some(Bit(t[mac].randomized))
  }

  /** The value was reported for the device, and nothing else since. */
  ghost predicate LastReported(ops: seq<WriteOp>, mac: string, c: Column, v: Cell) {
    exists i: nat :: i < |ops| && Reported(ops[i], mac, c) == Some(v)
                     && forall j :: i < j < |ops| ==> Reported(ops[j], mac, c).None?
  }

  predicate NeverReported(ops: seq<WriteOp>, mac: string, c: Column) {
    forall op :: op in ops ==> Reported(op, mac, c).None?
  }

  /** What the operations leave in a column: the last report, or else what was there. */
  ghost predicate Leaves(t: Table, ops: seq<WriteOp>, mac: string, c: Column, v: Option<Cell>) {
    || (v.Some? && LastReported(ops, mac, c, v.value))
    || (NeverReported(ops, mac, c) && Value(t, mac, c) == v)
  }

  lemma ApplyCoalesces(t: Table, op: WriteOp, mac: string, c: Column)
    ensures Value(Applied(t, op), mac, c) == Coalesce(Reported(op, mac, c), Value(t, mac, c))
  {
  }

  /** A known host name or vendor is never erased: over any table and operations, the row shows in each
      column exactly the last value reported, or else what it showed before. */
  lemma {:induction false} RowShowsLastReported(t: Table, ops: seq<WriteOp>, mac: string, c: Column, v: Option<Cell>)
    ensures Value(Flushed(t, ops), mac, c) == v <==> Leaves(t, ops, mac, c, v)
    decreases |ops|
  {
    if ops != [] {
      var n := |ops| - 1;
      RowShowsLastReported(t, ops[..n], mac, c, v);
      ApplyCoalesces(Flushed(t, ops[..n]), ops[n], mac, c);
      LeavesStep(t, ops, mac, c, v);
    }
  }

  lemma LeavesStep(t: Table, ops: seq<WriteOp>, mac: string, c: Column, v: Option<Cell>)
    requires ops != []
    ensures var n := |ops| - 1;
            Leaves(t, ops, mac, c, v)
            <==> if Reported(ops[n], mac, c).Some? then v == Reported(ops[n], mac, c)
                 else Leaves(t, ops[..n], mac, c, v)
  {
    var n := |ops| - 1;
    assert ops == ops[..n] + [ops[n]];
    assert NeverReported(ops, mac, c) <==> NeverReported(ops[..n], mac, c) && Reported(ops[n], mac, c).None?;
    if v.Some? {
      LastReportedStep(ops, mac, c, v.value);
    }
  }

  lemma LastReportedStep(ops: seq<WriteOp>, mac: string, c: Column, v: Cell)
    requires ops != []
    ensures var n := |ops| - 1;
            LastReported(ops, mac, c, v)
            <==> Reported(ops[n], mac, c) == Some(v)
                 || (Reported(ops[n], mac, c).None? && LastReported(ops[..n], mac, c, v))
  {
    var n := |ops| - 1;
    if Reported(ops[n], mac, c).None? && LastReported(ops[..n], mac, c, v) {
      var i: nat :| i < n && Reported(ops[..n][i], mac, c) == Some(v)
                    && forall j :: i < j < n ==> Reported(ops[..n][j], mac, c).None?;
      assert Reported(ops[i], mac, c) == Some(v);
      forall j | i < j < |ops| ensures Reported(ops[j], mac, c).None? {
        assert j < n ==> ops[..n][j] == ops[j];
      }
    }
    if LastReported(ops, mac, c, v) && Reported(ops[n], mac, c) != Some(v) {
      var i: nat :| i < |ops| && Reported(ops[i], mac, c) == Some(v)
                    && forall j :: i < j < |ops| ==> Reported(ops[j], mac, c).None?;
      assert Reported(ops[..n][i], mac, c) == Some(v);
    }
  }

  // ---- a device's own operations -----------------------------------------

  /** The operations on one device, in order. */
  function Own(ops: seq<WriteOp>, mac: string): seq<WriteOp> {
    if ops == [] then []
    else Own(ops[..|ops| - 1], mac) + if Sights(ops[|ops| - 1], mac) then [ops[|ops| - 1]] else []
  }

  lemma FlushedOneMore(t: Table, ops: seq<WriteOp>, op: WriteOp)
    ensures Flushed(t, ops + [op]) == Applied(Flushed(t, ops), op)
  {
    assert (ops + [op])[..|ops|] == ops;
  }

  /** Operations on other devices leave a device's columns alone. */
  lemma {:induction false} OwnOpsDecide(t: Table, ops: seq<WriteOp>, mac: string, c: Column)
    ensures Value(Flushed(t, ops), mac, c) == Value(Flushed(t, Own(ops, mac)), mac, c)
    ensures mac in Flushed(t, ops) <==> mac in Flushed(t, Own(ops, mac))
    decreases |ops|
  {
    if ops != [] {
      var n := |ops| - 1;
      var own := Own(ops[..n], mac);
      OwnOpsDecide(t, ops[..n], mac, c);
      ApplyCoalesces(Flushed(t, ops[..n]), ops[n], mac, c);
      ApplySetsTimes(Flushed(t, ops[..n]), ops[n], mac);
      if Sights(ops[n], mac) {
        FlushedOneMore(t, own, ops[n]);
        ApplyCoalesces(Flushed(t, own), ops[n], mac, c);
        ApplySetsTimes(Flushed(t, own), ops[n], mac);
      } else {
        assert own + [] == own;
      }
    }
  }

  ghost predicate FirstSeenAt(ops: seq<WriteOp>, mac: string, ts: int) {
    exists i: nat :: i < |ops| && Sights(ops[i], mac) && ops[i].ts == ts
                     && forall j :: 0 <= j < i ==> !Sights(ops[j], mac)
  }

  ghost predicate LastSeenAt(ops: seq<WriteOp>, mac: string, ts: int) {
    exists i: nat :: i < |ops| && Sights(ops[i], mac) && ops[i].ts == ts
                     && forall j :: i < j < |ops| ==> !Sights(ops[j], mac)
  }

  ghost predicate EverSeen(ops: seq<WriteOp>, mac: string) {
    exists i: nat :: i < |ops| && Sights(ops[i], mac)
  }

  lemma FirstSeenStays(ops: seq<WriteOp>, op: WriteOp, mac: string, ts: int)
    requires FirstSeenAt(ops, mac, ts)
    ensures FirstSeenAt(ops + [op], mac, ts) && EverSeen(ops + [op], mac)
  {
    var all := ops + [op];
    var i: nat :| i < |ops| && Sights(ops[i], mac) && ops[i].ts == ts
                  && forall j :: 0 <= j < i ==> !Sights(ops[j], mac);
    assert all[i] == ops[i];
  }

  lemma LastSeenStays(ops: seq<WriteOp>, op: WriteOp, mac: string, ts: int)
    requires LastSeenAt(ops, mac, ts) && !Sights(op, mac)
    ensures LastSeenAt(ops + [op], mac, ts)
  {
    var all := ops + [op];
    var i: nat :| i < |ops| && Sights(ops[i], mac) && ops[i].ts == ts
                  && forall j :: i < j < |ops| ==> !Sights(ops[j], mac);
    assert all[i] == ops[i];
  }

  lemma SeenNow(ops: seq<WriteOp>, op: WriteOp, mac: string)
    requires Sights(op, mac)
    ensures LastSeenAt(ops + [op], mac, op.ts) && EverSeen(ops + [op], mac)
    ensures !EverSeen(ops, mac) ==> FirstSeenAt(ops + [op], mac, op.ts)
  {
    var all := ops + [op];
    assert all[|ops|] == op;
    assert !EverSeen(ops, mac) ==> forall j :: 0 <= j < |ops| ==> !Sights(all[j], mac);
  }

  lemma NeverSeenStays(ops: seq<WriteOp>, op: WriteOp, mac: string)
    requires !EverSeen(ops, mac) && !Sights(op, mac)
    ensures !EverSeen(ops + [op], mac)
  {
    assert forall j :: 0 <= j < |ops| ==> !Sights(ops[j], mac);
  }

  lemma ApplySetsTimes(t: Table, op: WriteOp, mac: string)
    ensures mac in Applied(t, op) <==> mac in t || Sights(op, mac)
    ensures mac in t ==> Applied(t, op)[mac].firstSeen == t[mac].firstSeen
    ensures mac in t && !Sights(op, mac) ==> Applied(t, op)[mac].lastSeen == t[mac].lastSeen
    ensures Sights(op, mac) ==> Applied(t, op)[mac].lastSeen == op.ts
    ensures Sights(op, mac) && mac !in t ==> Applied(t, op)[mac].firstSeen == op.ts
  {
  }

  /** A row exists exactly for the devices there were and those written. Its first_seen is the one it had,
      or the device's first timestamp; its last_seen is the latest timestamp, or the one it had. */
  lemma {:induction false} SeenTimesAreFirstAndLast(t: Table, ops: seq<WriteOp>, mac: string)
    ensures mac in Flushed(t, ops) <==> mac in t || EverSeen(ops, mac)
    ensures mac in Flushed(t, ops) ==>
              && (if mac in t then Flushed(t, ops)[mac].firstSeen == t[mac].firstSeen
                  else FirstSeenAt(ops, mac, Flushed(t, ops)[mac].firstSeen))
              && (if EverSeen(ops, mac) then LastSeenAt(ops, mac, Flushed(t, ops)[mac].lastSeen)
                  else mac in t && Flushed(t, ops)[mac].lastSeen == t[mac].lastSeen)
    decreases |ops|
  {
    if ops != [] {
      var before, op := ops[..|ops| - 1], ops[|ops| - 1];
      var t' := Flushed(t, before);
      SeenTimesAreFirstAndLast(t, before, mac);
      ApplySetsTimes(t', op, mac);
      assert ops == before + [op];
      SeenStep(before, op, mac);
      if mac in t' && mac !in t {
        FirstSeenStays(before, op, mac, t'[mac].firstSeen);
      }
      if Sights(op, mac) {
        SeenNow(before, op, mac);
      } else if EverSeen(before, mac) {
        LastSeenStays(before, op, mac, t'[mac].lastSeen);
      }
    }
  }

  lemma SeenStep(ops: seq<WriteOp>, op: WriteOp, mac: string)
    ensures EverSeen(ops + [op], mac) <==> EverSeen(ops, mac) || Sights(op, mac)
  {
    if Sights(op, mac) {
      SeenNow(ops, op, mac);
    } else if EverSeen(ops, mac) {
      var i: nat :| i < |ops| && Sights(ops[i], mac);
      assert (ops + [op])[i] == ops[i];
    } else {
      NeverSeenStays(ops, op, mac);
    }
  }

  // ---- the joins ---------------------------------------------------------

  /** The devices a query's client address joins with. */
  function Matching(t: Table, client: Addr): set<string> {
    set m | m in t && t[m].ip == Some(client)
  }

  ghost function Listed(s: set<string>): (r: seq<string>)
    ensures |r| == |s| && forall m :: m in r <==> m in s
  {
    if s == {} then [] else var m :| m in s; [m] + Listed(s - {m})
  }

  datatype Joined = Joined(query: QueryEvent, device: Option<string>)

  /** One query LEFT JOIN devices ON ip = client: a row per matching device, or one without. */
  ghost function JoinOne(t: Table, q: QueryEvent): seq<Joined> {
    var macs := Listed(Matching(t, q.client));
    if macs == [] then [Joined(q, None)] else seq(|macs|, i requires 0 <= i < |macs| => Joined(q, Some(macs[i])))
  }

  ghost function Join(t: Table, qs: seq<QueryEvent>): seq<Joined> {
    if qs == [] then [] else Join(t, qs[..|qs| - 1]) + JoinOne(t, qs[|qs| - 1])
  }

  lemma UniqueMatch(t: Table, client: Addr)
    requires UniqueIps(t)
    ensures |Matching(t, client)| <= 1
  {
    var s := Matching(t, client);
    if m :| m in s {
      assert s == {m};
    }
  }

  /** The row is for the query, and names the holder of its client address if there is one. */
  ghost predicate RowFits(t: Table, q: QueryEvent, row: Joined) {
    && row.query == q
    && match row.device
       case None => forall m :: !Holds(t, m, q.client)
       case Some(m) => Holds(t, m, q.client)
  }

  /** With one holder per address, the join (before LIMIT) yields exactly one row per query, naming the
      holder of its client address if there is one. */
  lemma {:induction false} JoinIsOneToOne(t: Table, qs: seq<QueryEvent>)
    requires UniqueIps(t)
    ensures |Join(t, qs)| == |qs|
    ensures forall i :: 0 <= i < |qs| ==> RowFits(t, qs[i], Join(t, qs)[i])
    decreases |qs|
  {
    if qs != [] {
      var n := |qs| - 1;
      JoinIsOneToOne(t, qs[..n]);
      UniqueMatch(t, qs[n].client);
      OneRow(t, qs[n]);
      forall i | 0 <= i < |qs| ensures RowFits(t, qs[i], Join(t, qs)[i]) {
        assert i < n ==> Join(t, qs)[i] == Join(t, qs[..n])[i];
      }
    }
  }

  lemma OneRow(t: Table, q: QueryEvent)
    requires |Matching(t, q.client)| <= 1
    ensures |JoinOne(t, q)| == 1 && RowFits(t, q, JoinOne(t, q)[0])
  {
    var macs := Listed(Matching(t, q.client));
    if macs == [] {
      forall m ensures !Holds(t, m, q.client) {
        assert m in macs <==> m in Matching(t, q.client);
      }
    } else {
      assert macs[0] in macs;
    }
  }

  /** Releasing addresses is what the join needs: it is one row per query for every log exactly when no
      two rows share an address. */
  lemma JoinNeverFansOutIff(t: Table)
    ensures (forall qs :: |Join(t, qs)| == |qs|) <==> UniqueIps(t)
  {
    if UniqueIps(t) {
      forall qs ensures |Join(t, qs)| == |qs| {
        JoinIsOneToOne(t, qs);
      }
    } else {
      var a, b :| a in t && b in t && a != b && t[a].ip.Some? && t[a].ip == t[b].ip;
      var q := QueryEvent(0, t[a].ip.value, "", "");
      var s := Matching(t, q.client);
      SubsetSize({a, b}, s);
      assert Join(t, [q]) == Join(t, []) + JoinOne(t, q);
      assert |Join(t, [q])| >= 2;
    }
  }

  ghost function ClientsOf(rows: seq<Joined>): multiset<Addr> {
    if rows == [] then multiset{} else ClientsOf(rows[..|rows| - 1]) + multiset{rows[|rows| - 1].query.client}
  }

  function Clients(qs: seq<QueryEvent>): multiset<Addr> {
    if qs == [] then multiset{} else Clients(qs[..|qs| - 1]) + multiset{qs[|qs| - 1].client}
  }

  lemma {:induction false} ClientsMatch(rows: seq<Joined>, qs: seq<QueryEvent>)
    requires |rows| == |qs| && forall i :: 0 <= i < |qs| ==> rows[i].query == qs[i]
    ensures ClientsOf(rows) == Clients(qs) && |Clients(qs)| == |qs|
    decreases |qs|
  {
    if qs != [] {
      ClientsMatch(rows[..|rows| - 1], qs[..|qs| - 1]);
    }
  }

  /** After any flushes, the per-client counts over the join (before LIMIT) are the clients' own numbers
      of queries, and sum to the number of queries. */
  lemma ClientCountsAreExact(t: Table, ops: seq<WriteOp>, qs: seq<QueryEvent>)
    requires UniqueIps(t)
    ensures var counts := ClientsOf(Join(Flushed(t, ops), qs));
            counts == Clients(qs) && |counts| == |qs|
  {
    FlushKeepsUnique(t, ops);
    JoinIsOneToOne(Flushed(t, ops), qs);
    ClientsMatch(Join(Flushed(t, ops), qs), qs);
  }
}
